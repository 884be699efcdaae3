/**
 * The package checks task systems twice: `TaskSystemValidator.validate_system`
 * in validators.py and `TaskSystem.validate_inputs` in maxpar.py. This module
 * relates the two verdicts: the first is the stricter, and the systems only
 * the second accepts are told apart exactly.
 */
module CrossCheck {
  import opened Wrappers
  import opened Seqs
  import opened Graphs
  import opened Tasks
  import opened Precedence
  import opened Validators
  import opened Maxpar

  /**
   * `validate_system` accepts exactly the systems `validate_inputs` accepts
   * that also have a non-empty task list, no unnamed task and an entry for
   * every task.
   */
  lemma AcceptanceGap(tasks: seq<Task>, p: Precedence)
    ensures SystemAccepted(tasks, p) <==>
      && InputsAccepted(tasks, p)
      && |tasks| > 0
      && (forall i | 0 <= i < |tasks| :: tasks[i].name != "")
      && ToSet(Names(tasks)) <= p.deps.Keys
  {
  }

  /** A system both checks accept has a precedence graph whose keys are exactly the task names. */
  lemma AcceptedKeysAreNames(tasks: seq<Task>, p: Precedence)
    requires SystemAccepted(tasks, p)
    ensures p.deps.Keys == ToSet(Names(tasks))
    ensures Closed(p.deps)
  {
    var names := ToSet(Names(tasks));
    forall k | k in p.deps ensures k in names {
      assert EntryWithin(p, k, names);
    }
  }

  /**
   * Running both checks on the same input: whatever `validate_system`
   * accepts builds a `TaskSystem`, and a system that builds yet fails
   * `validate_system` has an empty task list, an unnamed task or a task
   * without an entry.
   */
  method CompareValidators(tasks: seq<Task>, p: Precedence) returns (v: Verdict, s: Result<TaskSystem, InputError>)
    ensures v.Valid? ==> s.Success?
    ensures s.Success? && !v.Valid? <==>
      && InputsAccepted(tasks, p)
      && (|tasks| == 0
          || (exists i | 0 <= i < |tasks| :: tasks[i].name == "")
          || !(ToSet(Names(tasks)) <= p.deps.Keys))
  {
    v := ValidateSystem(tasks, p);
    s := NewTaskSystem(tasks, p);
    AcceptanceGap(tasks, p);
  }

  /** The empty system: `validate_inputs` accepts it, `validate_system` reports an empty task list. */
  lemma EmptySystemGap()
    ensures InputsAccepted([], Dict([], map[]))
    ensures !SystemAccepted([], Dict([], map[]))
    ensures ValidateTasks([]) == Some(EmptyTaskList)
  {
    NoEdgesAcyclic();
  }

  /** The graph without entries has no cycle. */
  lemma NoEdgesAcyclic()
    ensures Acyclic(map[])
  {
    RankedAcyclic(map[], map[]);
  }

  /**
   * One task without an entry: `validate_inputs` accepts it (it only looks at
   * the entries present), `validate_system` reports the task as missing.
   */
  lemma MissingEntryGap(t: Task)
    ensures InputsAccepted([t], Dict([], map[]))
    ensures !SystemAccepted([t], Dict([], map[]))
    ensures ValidatePrecedenceGraph([t], Dict([], map[])) == Some(MissingInPrecedence({t.name}))
  {
    NoEdgesAcyclic();
    var p := Dict([], map[]);
    assert Names([t]) == [t.name];
    assert ToSet([t.name]) == {t.name};
    assert t.name in ToSet(Names([t])) - p.deps.Keys;
    var r := ValidatePrecedenceGraph([t], p);
    assert r.Some? && r.value.MissingInPrecedence?;
    assert r.value.names == {t.name};
  }
}
