/**
 * The task systems of tests/test_maxpar.py, and small systems that trigger
 * each error of the two checks, with the outcome each check gives on them.
 */
module Scenarios {
  import opened Wrappers
  import opened Seqs
  import opened Graphs
  import opened Tasks
  import opened Precedence
  import opened Validators
  import opened Maxpar

  /** A task with the given name and no variables. */
  function Named(name: string): Task {
    NewTask(Some(name), None, None, None)
  }

  /** `Task(name="TestTask", reads=["A"], writes=["B"], run=None)` keeps what it was given. */
  lemma TaskInitialization()
    ensures var t := NewTask(Some("TestTask"), Some(["A"]), Some(["B"]), None);
      t.name == "TestTask" && t.readVars == ["A"] && t.writeVars == ["B"] && t.run.None?
  {
  }

  /** `t1`, `t2` and `tSomme` of the tests. */
  function SommeTasks(): seq<Task> {
    [ NewTask(Some("T1"), None, Some(["X"]), Some(Runnable("runT1"))),
      NewTask(Some("T2"), None, Some(["Y"]), Some(Runnable("runT2"))),
      NewTask(Some("somme"), Some(["X", "Y"]), Some(["Z"]), Some(Runnable("runTsomme"))) ]
  }

  /** `{"T1": [], "T2": [], "somme": ["T1", "T2"]}`. */
  function SommePrecedence(): Precedence {
    var d := Dict(["T1", "T2", "somme"], map["T1" := [], "T2" := [], "somme" := ["T1", "T2"]]);
    assert ToSet(d.keys) == d.deps.Keys by {
      assert d.keys[0] in ToSet(d.keys) && d.keys[1] in ToSet(d.keys) && d.keys[2] in ToSet(d.keys);
    }
    d
  }

  /** `{"somme": ["T1", "T2"], "T1": [], "T2": ["T1"]}`. */
  function ChainPrecedence(): Precedence {
    var d := Dict(["somme", "T1", "T2"], map["somme" := ["T1", "T2"], "T1" := [], "T2" := ["T1"]]);
    assert ToSet(d.keys) == d.deps.Keys by {
      assert d.keys[0] in ToSet(d.keys) && d.keys[1] in ToSet(d.keys) && d.keys[2] in ToSet(d.keys);
    }
    d
  }

  lemma SommeNames()
    ensures Names(SommeTasks()) == ["T1", "T2", "somme"]
    ensures ToSet(Names(SommeTasks())) == {"T1", "T2", "somme"}
  {
    var names := Names(SommeTasks());
    assert names[0] == "T1" && names[1] == "T2" && names[2] == "somme";
  }

  /** Both checks accept the system of `test_task_system_initialization`. */
  lemma SommeSystemAccepted()
    ensures InputsAccepted(SommeTasks(), SommePrecedence())
    ensures SystemAccepted(SommeTasks(), SommePrecedence())
  {
    SommeNames();
    SommeAcyclic();
  }

  lemma SommeAcyclic()
    ensures Acyclic(SommePrecedence().deps)
  {
    var rank: map<string, nat> := map["T1" := 0, "T2" := 0, "somme" := 1];
    RankedAcyclic(SommePrecedence().deps, rank);
  }

  /**
   * `test_task_system_initialization`: the system builds and keeps the task
   * list and the dictionary it was given.
   */
  method BuildSommeSystem() returns (r: Result<TaskSystem, InputError>)
    ensures r.Success?
    ensures r.value.tasks == SommeTasks() && r.value.precedence == SommePrecedence()
    ensures r.value.taskMap.Keys == {"T1", "T2", "somme"}
    ensures r.value.taskMap["somme"] == SommeTasks()[2]
  {
    SommeSystemAccepted();
    SommeNames();
    r := NewTaskSystem(SommeTasks(), SommePrecedence());
    assert SommeTasks()[2].name == "somme";
  }

  /** `validate_system` accepts the same system. */
  method ValidateSommeSystem() returns (v: Verdict)
    ensures v == Valid
  {
    SommeSystemAccepted();
    v := ValidateSystem(SommeTasks(), SommePrecedence());
  }

  /** The system of `test_task_system_get_all_dependencies`, a chain `somme -> T2 -> T1`, builds. */
  method BuildChainSystem() returns (r: Result<TaskSystem, InputError>)
    ensures r.Success? && r.value.precedence == ChainPrecedence()
  {
    ChainAccepted();
    r := NewTaskSystem(SommeTasks(), ChainPrecedence());
  }

  /** `validate_inputs` accepts the chain. */
  lemma ChainAccepted()
    ensures InputsAccepted(SommeTasks(), ChainPrecedence())
  {
    SommeNames();
    ChainAcyclic();
  }

  lemma ChainAcyclic()
    ensures Acyclic(ChainPrecedence().deps)
  {
    var rank: map<string, nat> := map["T1" := 0, "T2" := 1, "somme" := 2];
    RankedAcyclic(ChainPrecedence().deps, rank);
  }

  /** `{"A": ["B", "C"], "B": ["D"], "C": ["E"], "D": [], "E": []}`. */
  function TreePrecedence(): Precedence {
    var d := Dict(["A", "B", "C", "D", "E"],
                  map["A" := ["B", "C"], "B" := ["D"], "C" := ["E"], "D" := [], "E" := []]);
    assert ToSet(d.keys) == d.deps.Keys by {
      assert d.keys[0] in ToSet(d.keys) && d.keys[1] in ToSet(d.keys) && d.keys[2] in ToSet(d.keys);
      assert d.keys[3] in ToSet(d.keys) && d.keys[4] in ToSet(d.keys);
    }
    d
  }

  /**
   * `test_task_system_complex_dependencies` builds a system with no tasks
   * and this dictionary: `validate_inputs` rejects it at its first key,
   * which names no task.
   */
  method EmptyTaskListWithEntries() returns (r: Outcome<InputError>, s: Result<TaskSystem, InputError>)
    ensures r == Fail(UnknownKey("A"))
    ensures s.Failure?
  {
    var p := TreePrecedence();
    r := ValidateInputs([], p);
    s := NewTaskSystem([], p);
    assert Names([]) == [] && ToSet([]) == {};
    assert "A" in p.deps && !EntryWithin(p, "A", {});
    assert !RefsWithin(p, ToSet(Names([])));
    assert p.keys[0] == "A" && FirstOffendingKey(p, {}, "A");
    FirstOffendingKeyUnique(p, {}, r.error.key, "A");
  }

  /** Two tasks named `A`: both checks report `A` as duplicated. */
  method DuplicateNames() returns (r: Outcome<InputError>, v: Option<Violation>)
    ensures r == Fail(DuplicateTaskNames({"A"}))
    ensures v == Some(Validators.DuplicateNames({"A"}))
  {
    var tasks := [Named("A"), Named("A")];
    var p := Dict(["A"], map["A" := []]);
    r := ValidateInputs(tasks, p);
    v := ValidateTasks(tasks);
    var names := Names(tasks);
    assert names == ["A", "A"];
    assert Repeated(names, "A") by {
      assert names[0] == "A" && names[1] == "A";
    }
    assert !Distinct(names);
    forall n | Repeated(names, n) ensures n == "A" {
    }
    assert r.error.names == {"A"};
    assert v.value.names == {"A"};
  }

  /** `{"A": ["B"]}`. */
  function DanglingPrecedence(): Precedence {
    var d := Dict(["A"], map["A" := ["B"]]);
    assert ToSet(d.keys) == d.deps.Keys by {
      assert d.keys[0] in ToSet(d.keys);
    }
    d
  }

  /** The one task `A` depends on `B`, which is not a task and has no entry. */
  lemma DanglingFacts()
    ensures ToSet(Names([Named("A")])) == {"A"} && ToSet(Names([Named("A")])) <= DanglingPrecedence().deps.Keys
    ensures DanglingPrecedence().keys == ["A"]
    ensures Distinct(Names([Named("A")]))
    ensures !EntryWithin(DanglingPrecedence(), "A", {"A"})
    ensures ToSet(DanglingPrecedence().deps["A"]) == {"B"}
    ensures !Closed(DanglingPrecedence().deps) && Acyclic(DanglingPrecedence().deps)
  {
    var p := DanglingPrecedence();
    assert Names([Named("A")]) == ["A"];
    assert ToSet(["A"]) == {"A"};
    assert ToSet(["B"]) == {"B"} by {
      assert ["B"][0] in ToSet(["B"]);
    }
    assert p.deps["A"][0] == "B";
    RankedAcyclic(p.deps, map["A" := 1, "B" := 0]);
  }

  /** One task `A` depending on an unknown `B`: `validate_inputs` names the pair. */
  method UnknownDependency() returns (r: Outcome<InputError>)
    ensures r == Fail(Maxpar.UnknownDependency("A", "B"))
  {
    var p := DanglingPrecedence();
    r := ValidateInputs([Named("A")], p);
    DanglingFacts();
    assert r.error.key == "A";
    var j :| 0 <= j < |p.deps["A"]| && p.deps["A"][j] == r.error.dep;
  }

  /** The same system: `_validate_precedence_graph` names `B` as an invalid dependency of `A`. */
  method InvalidDependency() returns (g: Option<Violation>)
    ensures g == Some(InvalidDependencies("A", {"B"}))
  {
    var p := DanglingPrecedence();
    g := ValidatePrecedenceGraph([Named("A")], p);
    DanglingFacts();
    assert !RefsWithin(p, {"A"});
    assert g.Some? && g.value.InvalidDependencies?;
    var i :| 0 <= i < |p.keys| && p.keys[i] == g.value.key && !EntryWithin(p, g.value.key, {"A"});
    assert g.value.key == "A";
    assert g.value.deps == {"B"} - {"A"} == {"B"};
  }

  /** The same system: the cycle search of `validate_system` fails looking `B` up. */
  method DanglingLookup() returns (v: Verdict)
    ensures v == KeyLookupFailed("B")
  {
    v := ValidateSystem([Named("A")], DanglingPrecedence());
    DanglingFacts();
  }

  /** `A -> B -> C -> A`. */
  function CyclePrecedence(): Precedence {
    var d := Dict(["A", "B", "C"], map["A" := ["B"], "B" := ["C"], "C" := ["A"]]);
    assert ToSet(d.keys) == d.deps.Keys by {
      assert d.keys[0] in ToSet(d.keys) && d.keys[1] in ToSet(d.keys) && d.keys[2] in ToSet(d.keys);
    }
    d
  }

  /** Tasks `A`, `B` and `C`. */
  function CycleTasks(): seq<Task> {
    [Named("A"), Named("B"), Named("C")]
  }

  lemma CycleNames()
    ensures Names(CycleTasks()) == ["A", "B", "C"]
    ensures ToSet(Names(CycleTasks())) == {"A", "B", "C"}
    ensures Distinct(Names(CycleTasks()))
  {
    var names := Names(CycleTasks());
    assert names[0] == "A" && names[1] == "B" && names[2] == "C";
    assert names[0] in ToSet(names) && names[1] in ToSet(names) && names[2] in ToSet(names);
  }

  /** `A -> B -> C -> A` is a closed walk. */
  lemma CycleThroughA()
    ensures OnCycle(CyclePrecedence().deps, "A")
  {
    var g := CyclePrecedence().deps;
    var c := ["A", "B", "C", "A"];
    assert IsPath(g, c[2..]);
    assert IsPath(g, c[1..]);
    CycleWitness(g, c);
  }

  /** Every entry of the cycle names only the three tasks. */
  lemma CycleRefs()
    ensures RefsWithin(CyclePrecedence(), {"A", "B", "C"})
    ensures Closed(CyclePrecedence().deps)
  {
    var p := CyclePrecedence();
    assert EntryWithin(p, "A", {"A", "B", "C"}) && EntryWithin(p, "B", {"A", "B", "C"});
    assert EntryWithin(p, "C", {"A", "B", "C"});
  }

  /** The three tasks are named `A`, `B`, `C`, and their graph has a cycle through `A`. */
  lemma CycleFacts()
    ensures ToSet(Names(CycleTasks())) == {"A", "B", "C"}
    ensures Distinct(Names(CycleTasks()))
    ensures RefsWithin(CyclePrecedence(), {"A", "B", "C"})
    ensures OnCycle(CyclePrecedence().deps, "A")
  {
    CycleNames();
    CycleThroughA();
    CycleRefs();
  }

  /** Only the cycle search objects to the three-task cycle. */
  lemma CycleSystemFacts()
    ensures TaskListOk(CycleTasks()) && GraphConsistent(CycleTasks(), CyclePrecedence())
    ensures Closed(CyclePrecedence().deps) && !Acyclic(CyclePrecedence().deps)
    ensures CyclePrecedence().deps.Keys == {"A", "B", "C"}
  {
    CycleNames();
    CycleThroughA();
    CycleRefs();
  }

  /** The cycle `A -> B -> C -> A` among three tasks: `validate_inputs` raises on a node of the cycle. */
  method ThreeCycleInputs() returns (r: Outcome<InputError>)
    ensures r.Fail? && r.error.CycleThrough? && r.error.node in {"A", "B", "C"}
  {
    var p := CyclePrecedence();
    r := ValidateInputs(CycleTasks(), p);
    CycleFacts();
    if r.error.CycleThrough? {
      OnCycleHasEntry(p.deps, r.error.node);
    }
  }

  /** The same system: `validate_system` reports the cycle and nothing else. */
  method ThreeCycleSystem() returns (v: Verdict)
    ensures v.Invalid? && |v.errors| == 1 && v.errors[0].CycleDetected?
    ensures v.errors[0].node in {"A", "B", "C"}
  {
    CycleSystemFacts();
    v := ValidateCycleOnly(CycleTasks(), CyclePrecedence());
  }

  /** `validate_system` on a system whose only fault is a cycle. */
  method ValidateCycleOnly(tasks: seq<Task>, p: Precedence) returns (v: Verdict)
    requires TaskListOk(tasks) && GraphConsistent(tasks, p)
    requires Closed(p.deps) && !Acyclic(p.deps)
    ensures v.Invalid? && |v.errors| == 1 && v.errors[0].CycleDetected?
    ensures v.errors[0].node in p.deps && OnCycle(p.deps, v.errors[0].node)
  {
    v := ValidateSystem(tasks, p);
    CycleOnlyVerdict(tasks, p, v);
  }

  /**
   * Whenever the cycle sub-check is the only one to object, the verdict
   * `validate_system` promises is a composite error holding the cycle entry
   * alone, on a node with an entry of its own.
   */
  lemma CycleOnlyVerdict(tasks: seq<Task>, p: Precedence, v: Verdict)
    requires TaskListOk(tasks) && GraphConsistent(tasks, p)
    requires Closed(p.deps) && !Acyclic(p.deps)
    requires v.Valid? <==> SystemAccepted(tasks, p)
    requires v.Invalid? ==> ReportsFailingChecks(tasks, p, v.errors)
    requires v.KeyLookupFailed? ==> Dangling(p.deps, v.key)
    ensures v.Invalid? && |v.errors| == 1 && v.errors[0].CycleDetected?
    ensures v.errors[0].node in p.deps && OnCycle(p.deps, v.errors[0].node)
  {
    OnlyCycleStage(v.errors);
    OnCycleHasEntry(p.deps, v.errors[0].node);
  }

  /** Errors with strictly increasing stages that come only from the cycle search are one cycle error. */
  lemma OnlyCycleStage(errors: seq<Violation>)
    requires 1 <= |errors|
    requires forall i, j | 0 <= i < j < |errors| :: errors[i].Stage() < errors[j].Stage()
    requires !HasStage(errors, 0) && !HasStage(errors, 1)
    ensures |errors| == 1 && errors[0].CycleDetected?
  {
    assert forall i | 0 <= i < |errors| :: errors[i].Stage() == 2;
    assert errors[0].Stage() == errors[|errors| - 1].Stage();
  }
}
