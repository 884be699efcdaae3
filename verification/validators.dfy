/**
 * `TaskSystemValidator` of validators.py: three independent sub-checks (task
 * list, precedence graph, cycles), each stopping at its first violation, whose
 * failures are gathered into one composite error.
 */
module Validators {
  import opened Wrappers
  import opened Seqs
  import opened Graphs
  import opened Tasks
  import opened Precedence

  /** The violation each sub-check reports; the names it carries replace the message text. */
  datatype Violation =
    | EmptyTaskList
    | DuplicateNames(names: set<string>)
    | UnnamedTask
    | MissingInPrecedence(names: set<string>)
    | UnknownTask(key: string)
    | InvalidDependencies(key: string, deps: set<string>)
    | CycleDetected(node: string)
  {
    /** The sub-check that reports it: 0 task list, 1 precedence graph, 2 cycles. */
    function Stage(): nat {
      match this
      case EmptyTaskList | DuplicateNames(_) | UnnamedTask => 0
      case MissingInPrecedence(_) | UnknownTask(_) | InvalidDependencies(_, _) => 1
      case CycleDetected(_) => 2
    }
  }

  /**
   * What `validate_system` does: return normally, raise the composite
   * `TaskSystemValidationError`, or let the `KeyError` of the cycle search
   * escape when it meets a dependency without an entry.
   */
  datatype Verdict = Valid | Invalid(errors: seq<Violation>) | KeyLookupFailed(key: string)

  /** State of the cycle search once it stops. */
  datatype Search = Done(visited: set<string>) | CycleFound(node: string) | MissingKey(node: string)

  /** The task list is non-empty and its names are distinct and non-empty. */
  ghost predicate TaskListOk(tasks: seq<Task>) {
    && |tasks| > 0
    && Distinct(Names(tasks))
    && forall i | 0 <= i < |tasks| :: tasks[i].name != ""
  }

  /** The precedence keys are exactly the task names and every dependency is a task name. */
  ghost predicate GraphConsistent(tasks: seq<Task>, p: Precedence) {
    && ToSet(Names(tasks)) <= p.deps.Keys
    && RefsWithin(p, ToSet(Names(tasks)))
  }

  /** Everything `validate_system` demands of a task system. */
  ghost predicate SystemAccepted(tasks: seq<Task>, p: Precedence) {
    TaskListOk(tasks) && GraphConsistent(tasks, p) && Acyclic(p.deps)
  }

  /** `_validate_tasks`: empty list, then duplicate names, then an empty name. */
  function ValidateTasks(tasks: seq<Task>): (r: Option<Violation>)
    ensures r.None? <==> TaskListOk(tasks)
    ensures r == Some(EmptyTaskList) <==> |tasks| == 0
    ensures (r.Some? && r.value.DuplicateNames?) <==> |tasks| > 0 && !Distinct(Names(tasks))
    ensures r.Some? && r.value.DuplicateNames? ==>
      r.value.names != {} && forall n :: n in r.value.names <==> Repeated(Names(tasks), n)
    ensures r == Some(UnnamedTask) <==>
      |tasks| > 0 && Distinct(Names(tasks)) && exists i | 0 <= i < |tasks| :: tasks[i].name == ""
    ensures r.Some? ==> r.value.Stage() == 0
  {
    var names := Names(tasks);
    DuplicatesAreRepeated(names);
    NoDuplicatesIffDistinct(names);
    if |tasks| == 0 then Some(EmptyTaskList)
    else if Duplicates(names) != {} then Some(DuplicateNames(Duplicates(names)))
    else if exists i | 0 <= i < |tasks| :: tasks[i].name == "" then Some(UnnamedTask)
    else None
  }

  /**
   * `_validate_precedence_graph`: task names missing from the dictionary are
   * reported together; otherwise the first entry, in insertion order, whose
   * key is not a task or whose dependencies are not all tasks.
   */
  function ValidatePrecedenceGraph(tasks: seq<Task>, p: Precedence): (r: Option<Violation>)
    ensures r.None? <==> GraphConsistent(tasks, p)
    ensures (r.Some? && r.value.MissingInPrecedence?) <==> !(ToSet(Names(tasks)) <= p.deps.Keys)
    ensures r.Some? && r.value.MissingInPrecedence? ==>
      r.value.names == ToSet(Names(tasks)) - p.deps.Keys && r.value.names != {}
    ensures r.Some? && r.value.UnknownTask? ==>
      && ToSet(Names(tasks)) <= p.deps.Keys
      && FirstOffendingKey(p, ToSet(Names(tasks)), r.value.key)
      && r.value.key !in ToSet(Names(tasks))
    ensures r.Some? && r.value.InvalidDependencies? ==>
      && ToSet(Names(tasks)) <= p.deps.Keys
      && FirstOffendingKey(p, ToSet(Names(tasks)), r.value.key)
      && r.value.key in ToSet(Names(tasks))
      && r.value.deps == ToSet(p.deps[r.value.key]) - ToSet(Names(tasks))
      && r.value.deps != {}
    ensures r.Some? ==> r.value.Stage() == 1
  {
    var names := ToSet(Names(tasks));
    if !(names <= p.deps.Keys) then
      NotSubsetLeavesDifference(names, p.deps.Keys);
      Some(MissingInPrecedence(names - p.deps.Keys))
    else
      var i := FirstOffender(p, names);
      if i == |p.keys| then None
      else
        var key := p.keys[i];
        if key !in names then Some(UnknownTask(key))
        else
          var d :| d in p.deps[key] && d !in names;
          OutsideSurvivesDifference(p.deps[key], names, d);
          Some(InvalidDependencies(key, ToSet(p.deps[key]) - names))
  }

  /**
   * `detect_cycle(node)`: a node on the temporary (gray) stack closes a cycle;
   * an unvisited node is pushed, its dependencies searched, and then it is
   * moved to the visited (black) set. `precedence[node]` fails for a node
   * without an entry.
   */
  method DetectCycle(g: Graph, node: string, visited: set<string>, temp: set<string>,
                     ghost path: seq<string>)
    returns (r: Search)
    requires StackLeadsTo(g, path, temp, node)
    requires |path| == 0 ==> node in g
    requires temp <= g.Keys
    requires Explored(g, visited) && visited <= g.Keys && visited !! temp
    decreases |g.Keys - visited - temp|
    ensures r.Done? ==>
      && Explored(g, r.visited) && visited <= r.visited <= g.Keys
      && node in r.visited && r.visited !! temp
    ensures r.CycleFound? ==> OnCycle(g, r.node)
    ensures r.MissingKey? ==> Dangling(g, r.node)
  {
    if node in temp {
      CycleThroughStack(g, path, node, {path[0]});
      return CycleFound(node);
    }
    if node in visited {
      return Done(visited);
    }
    if node !in g {
      var top := path[|path| - 1];
      assert top in temp;
      return MissingKey(node);
    }
    var deps := g[node];
    PushOnStack(g, path, temp, node);
    var seen := visited;
    var i := 0;
    while i < |deps|
      invariant i <= |deps|
      invariant Explored(g, seen) && visited <= seen <= g.Keys
      invariant seen !! temp && node !in seen
      invariant forall j | 0 <= j < i :: deps[j] in seen
    {
      ProperSubsetSmaller(g.Keys - seen - (temp + {node}), g.Keys - visited - temp);
      var sub := DetectCycle(g, deps[i], seen, temp + {node}, path + [node]);
      if !sub.Done? {
        return sub;
      }
      assert forall j | 0 <= j <= i :: deps[j] in sub.visited;
      seen := sub.visited;
      i := i + 1;
    }
    Blacken(g, seen, node);
    return Done(seen + {node});
  }

  /**
   * `_check_cycles`: searches from every key in insertion order. It finishes
   * exactly when every dependency has an entry and no node reaches itself.
   */
  method CheckCycles(p: Precedence) returns (r: Search)
    ensures r.Done? <==> Closed(p.deps) && Acyclic(p.deps)
    ensures r.CycleFound? ==> OnCycle(p.deps, r.node)
    ensures r.MissingKey? ==> Dangling(p.deps, r.node)
  {
    var g := p.deps;
    var visited := {};
    var i := 0;
    while i < |p.keys|
      invariant i <= |p.keys|
      invariant Explored(g, visited) && visited <= g.Keys
      invariant forall j | 0 <= j < i :: p.keys[j] in visited
    {
      var node := p.keys[i];
      if node !in visited {
        var sub := DetectCycle(g, node, visited, {}, []);
        if !sub.Done? {
          return sub;
        }
        visited := sub.visited;
      }
      i := i + 1;
    }
    assert visited == g.Keys by {
      forall k | k in g ensures k in visited {
        assert k in ToSet(p.keys);
        var j :| 0 <= j < |p.keys| && p.keys[j] == k;
      }
    }
    forall n ensures !OnCycle(g, n) {
      if OnCycle(g, n) {
        OnCycleHasEntry(g, n);
      }
    }
    return Done(visited);
  }

  /** Some violation in `errors` comes from sub-check `stage`. */
  ghost predicate HasStage(errors: seq<Violation>, stage: nat) {
    exists i | 0 <= i < |errors| :: errors[i].Stage() == stage
  }

  /**
   * Concatenating at most one violation from each sub-check, in order, keeps
   * the stages strictly increasing and tells which sub-checks failed.
   */
  lemma AssembledStages(t: seq<Violation>, gr: seq<Violation>, c: seq<Violation>)
    requires |t| <= 1 && |gr| <= 1 && |c| <= 1
    requires forall v | v in t :: v.Stage() == 0
    requires forall v | v in gr :: v.Stage() == 1
    requires forall v | v in c :: v.Stage() == 2
    ensures HasStage(t + gr + c, 0) <==> |t| == 1
    ensures HasStage(t + gr + c, 1) <==> |gr| == 1
    ensures HasStage(t + gr + c, 2) <==> |c| == 1
    ensures forall i, j | 0 <= i < j < |t + gr + c| :: (t + gr + c)[i].Stage() < (t + gr + c)[j].Stage()
    ensures forall v | v in t + gr + c :: v in t || v in gr || v in c
  {
    var e := t + gr + c;
    assert forall i | 0 <= i < |e| ::
      || (i < |t| && e[i] == t[i])
      || (|t| <= i < |t| + |gr| && e[i] == gr[i - |t|])
      || (|t| + |gr| <= i && e[i] == c[i - |t| - |gr|]);
    if |t| == 1 {
      assert e[0].Stage() == 0;
    }
    if |gr| == 1 {
      assert e[|t|].Stage() == 1;
    }
    if |c| == 1 {
      assert e[|e| - 1].Stage() == 2;
    }
  }

  /** The violation a finished cycle search contributes, if any. */
  function CycleViolation(c: Search): Option<Violation> {
    if c.CycleFound? then Some(CycleDetected(c.node)) else None
  }

  function AsList(o: Option<Violation>): seq<Violation> {
    if o.Some? then [o.value] else []
  }

  /** The entries of the composite error, in the order the sub-checks ran. */
  function Assemble(taskCheck: Option<Violation>, graphCheck: Option<Violation>, cycleCheck: Search): (errors: seq<Violation>)
    ensures |errors| == (if taskCheck.Some? then 1 else 0) + (if graphCheck.Some? then 1 else 0)
                        + (if cycleCheck.CycleFound? then 1 else 0)
    ensures errors == [] <==> taskCheck.None? && graphCheck.None? && !cycleCheck.CycleFound?
    ensures taskCheck.Some? ==> errors[0] == taskCheck.value
    ensures graphCheck.Some? ==> errors[if taskCheck.Some? then 1 else 0] == graphCheck.value
    ensures cycleCheck.CycleFound? ==> errors[|errors| - 1] == CycleDetected(cycleCheck.node)
    ensures forall v | v in errors ::
      Some(v) == taskCheck || Some(v) == graphCheck || (cycleCheck.CycleFound? && v == CycleDetected(cycleCheck.node))
  {
    AsList(taskCheck) + AsList(graphCheck) + AsList(CycleViolation(cycleCheck))
  }

  /**
   * The composite error names each failing sub-check once, in the order task
   * list, precedence graph, cycles, and each entry is what its sub-check reported.
   */
  ghost predicate ReportsFailingChecks(tasks: seq<Task>, p: Precedence, errors: seq<Violation>) {
    && 1 <= |errors| <= 3
    && (forall i, j | 0 <= i < j < |errors| :: errors[i].Stage() < errors[j].Stage())
    && (HasStage(errors, 0) <==> !TaskListOk(tasks))
    && (HasStage(errors, 1) <==> !GraphConsistent(tasks, p))
    && (HasStage(errors, 2) <==> !Acyclic(p.deps))
    && forall v | v in errors ::
      && (v.Stage() == 0 ==> ValidateTasks(tasks) == Some(v))
      && (v.Stage() == 1 ==> ValidatePrecedenceGraph(tasks, p) == Some(v))
      && (v.CycleDetected? ==> OnCycle(p.deps, v.node))
  }

  /** Assembling the three sub-check results gives exactly the promised composite error. */
  lemma AssembleReportsFailingChecks(tasks: seq<Task>, p: Precedence, cycleCheck: Search)
    requires cycleCheck.Done? <==> Closed(p.deps) && Acyclic(p.deps)
    requires cycleCheck.CycleFound? ==> OnCycle(p.deps, cycleCheck.node)
    requires !cycleCheck.MissingKey?
    ensures var errors := Assemble(ValidateTasks(tasks), ValidatePrecedenceGraph(tasks, p), cycleCheck);
      && (errors == [] <==> SystemAccepted(tasks, p))
      && (errors != [] ==> ReportsFailingChecks(tasks, p, errors))
  {
    AssembleShowsChecks(ValidateTasks(tasks), ValidatePrecedenceGraph(tasks, p), cycleCheck);
  }

  /**
   * The composite list, whatever the sub-checks found: stages strictly
   * increase, each stage appears exactly when its sub-check failed, and each
   * entry is what its sub-check reported.
   */
  lemma AssembleShowsChecks(taskCheck: Option<Violation>, graphCheck: Option<Violation>, cycleCheck: Search)
    requires taskCheck.Some? ==> taskCheck.value.Stage() == 0
    requires graphCheck.Some? ==> graphCheck.value.Stage() == 1
    ensures var errors := Assemble(taskCheck, graphCheck, cycleCheck);
      && (forall i, j | 0 <= i < j < |errors| :: errors[i].Stage() < errors[j].Stage())
      && (HasStage(errors, 0) <==> taskCheck.Some?)
      && (HasStage(errors, 1) <==> graphCheck.Some?)
      && (HasStage(errors, 2) <==> cycleCheck.CycleFound?)
      && forall v | v in errors ::
        && (v.Stage() == 0 ==> taskCheck == Some(v))
        && (v.Stage() == 1 ==> graphCheck == Some(v))
        && (v.CycleDetected? ==> cycleCheck.CycleFound? && v.node == cycleCheck.node)
  {
    var t, gr, c := AsList(taskCheck), AsList(graphCheck), AsList(CycleViolation(cycleCheck));
    AssembledStages(t, gr, c);
    assert t + gr + c == Assemble(taskCheck, graphCheck, cycleCheck);
  }

  /**
   * `validate_system`: runs the three sub-checks in order and, if any fails,
   * raises one error listing one violation per failing sub-check.
   */
  method ValidateSystem(tasks: seq<Task>, p: Precedence) returns (r: Verdict)
    ensures r.Valid? <==> SystemAccepted(tasks, p)
    ensures r.Invalid? ==> ReportsFailingChecks(tasks, p, r.errors)
    ensures r.KeyLookupFailed? ==> Dangling(p.deps, r.key)
    ensures !Closed(p.deps) && Acyclic(p.deps) ==> r.KeyLookupFailed?
  {
    var taskCheck := ValidateTasks(tasks);
    var graphCheck := ValidatePrecedenceGraph(tasks, p);
    var cycleCheck := CheckCycles(p);
    if cycleCheck.MissingKey? {
      return KeyLookupFailed(cycleCheck.node);
    }
    var errors := Assemble(taskCheck, graphCheck, cycleCheck);
    AssembleReportsFailingChecks(tasks, p, cycleCheck);
    if errors == [] {
      return Valid;
    }
    return Invalid(errors);
  }
}
