/**
 * `TaskSystem` of maxpar.py: construction stores the tasks, a name-to-task
 * map and a copy of the precedence dictionary, then `validate_inputs` checks
 * duplicates, references and cycles, raising on the first problem found.
 */
module Maxpar {
  import opened Wrappers
  import opened Seqs
  import opened Graphs
  import opened Tasks
  import opened Precedence

  /** The `ValueError`s `validate_inputs` raises; the names they carry replace the message text. */
  datatype InputError =
    | DuplicateTaskNames(names: set<string>)
    | UnknownKey(key: string)
    | UnknownDependency(key: string, dep: string)
    | CycleThrough(node: string)

  /** State of the depth-first search once it stops. */
  datatype Walk = Finished(visited: set<string>) | CycleAt(node: string)

  datatype TaskSystem = TaskSystem(tasks: seq<Task>, taskMap: map<string, Task>, precedence: Precedence)

  /** Everything `validate_inputs` demands of a task system. */
  ghost predicate InputsAccepted(tasks: seq<Task>, p: Precedence) {
    && Distinct(Names(tasks))
    && RefsWithin(p, ToSet(Names(tasks)))
    && Acyclic(p.deps)
  }

  /** `dep` is the first element of `deps` that is not in `names`. */
  ghost predicate FirstOutside(deps: seq<string>, names: set<string>, dep: string) {
    exists i | 0 <= i < |deps| ::
      deps[i] == dep && dep !in names && forall j | 0 <= j < i :: deps[j] in names
  }

  /** No later task has the name of `tasks[i]`. */
  ghost predicate LastWithName(tasks: seq<Task>, i: int)
    requires 0 <= i < |tasks|
  {
    forall j | i < j < |tasks| :: tasks[j].name != tasks[i].name
  }

  /**
   * `{task.name: task for task in tasks}`: every name maps to a task of that
   * name, and a later task overrides an earlier one with the same name.
   */
  function TaskMap(tasks: seq<Task>): (m: map<string, Task>)
    ensures m.Keys == ToSet(Names(tasks))
    ensures forall i | 0 <= i < |tasks| :: tasks[i].name in m
    ensures forall i | 0 <= i < |tasks| && LastWithName(tasks, i) :: m[tasks[i].name] == tasks[i]
  {
    if |tasks| == 0 then map[]
    else
      var last := tasks[|tasks| - 1];
      var init := tasks[..|tasks| - 1];
      assert Names(tasks) == Names(init) + [last.name];
      LastWithNameInInit(tasks);
      TaskMap(init)[last.name := last]
  }

  /** A task that is last with its name stays last once the final task is dropped. */
  lemma LastWithNameInInit(tasks: seq<Task>)
    requires |tasks| > 0
    ensures forall i | 0 <= i < |tasks| - 1 && LastWithName(tasks, i) ::
      LastWithName(tasks[..|tasks| - 1], i) && tasks[|tasks| - 1].name != tasks[i].name
  {
  }

  /** With distinct names every task is the last one with its name, so the map finds each task. */
  lemma AllLastWithName(tasks: seq<Task>)
    requires Distinct(Names(tasks))
    ensures forall i | 0 <= i < |tasks| :: LastWithName(tasks, i)
  {
    forall i | 0 <= i < |tasks| ensures LastWithName(tasks, i) {
      DistinctIsLast(tasks, i);
    }
  }

  /** With distinct names every task is the last one with its name. */
  lemma DistinctIsLast(tasks: seq<Task>, i: int)
    requires Distinct(Names(tasks)) && 0 <= i < |tasks|
    ensures LastWithName(tasks, i)
  {
    var names := Names(tasks);
    forall j | i < j < |tasks| ensures tasks[j].name != tasks[i].name {
      assert names[j] != names[i];
    }
  }

  /**
   * What holds whenever `dfs(node)` is entered: `path` is the recursion stack
   * (starting at a task name) with `node` a dependency of its top, every node
   * on the stack is visited, the visited nodes off the stack are completely
   * explored, and `node` is an unvisited node of the graph or a task name.
   */
  ghost predicate DfsFrame(g: Graph, roots: set<string>, node: string, visited: set<string>,
                           onStack: set<string>, path: seq<string>)
  {
    && StackLeadsTo(g, path, onStack, node)
    && (if |path| == 0 then node else path[0]) in roots
    && onStack <= visited && node !in visited && node in Nodes(g) + roots
    && Explored(g, visited - onStack)
  }

  /**
   * The inner `dfs(task_name)`: mark `node` visited, push it, run through its
   * dependencies, and pop it again once none of them led to a cycle.
   */
  function Dfs(g: Graph, node: string, visited: set<string>, onStack: set<string>,
               ghost path: seq<string>, ghost roots: set<string>): (r: Walk)
    requires DfsFrame(g, roots, node, visited, onStack, path)
    decreases |Nodes(g) + roots - visited|, 1
    ensures r.Finished? ==> visited + {node} <= r.visited && Explored(g, r.visited - onStack)
    ensures r.CycleAt? ==> OnCycle(g, r.node) && Reachable(g, roots, r.node)
  {
    MarkVisited(g, roots, node, visited, onStack);
    var r := DfsDeps(g, node, 0, visited + {node}, onStack, path, roots);
    if r.CycleAt? then r
    else
      FinishNode(g, node, r.visited, onStack);
      r
  }

  /**
   * What holds inside `dfs(node)` between two dependencies: `node` is on top
   * of the stack, every node on the stack is visited, and the visited nodes
   * off the stack are completely explored.
   */
  ghost predicate DepsFrame(g: Graph, roots: set<string>, node: string, seen: set<string>,
                            onStack: set<string>, path: seq<string>)
  {
    && StackLeadsTo(g, path, onStack, node)
    && (if |path| == 0 then node else path[0]) in roots
    && onStack + {node} <= seen && node !in onStack
    && Explored(g, seen - (onStack + {node}))
  }

  /**
   * The loop `for dep in precedence.get(node, [])` from the `i`-th dependency
   * on, with `node` on top of the stack: an unvisited dependency is searched,
   * one still on the stack closes a cycle, an explored one is skipped.
   */
  function DfsDeps(g: Graph, node: string, i: nat, seen: set<string>, onStack: set<string>,
                   ghost path: seq<string>, ghost roots: set<string>): (r: Walk)
    requires DepsFrame(g, roots, node, seen, onStack, path) && i <= |Succ(g, node)|
    decreases |Nodes(g) + roots - seen|, |Succ(g, node)| - i + 2
    ensures r.Finished? ==>
      && seen <= r.visited
      && Explored(g, r.visited - (onStack + {node}))
      && forall j | i <= j < |Succ(g, node)| :: Succ(g, node)[j] in r.visited - (onStack + {node})
    ensures r.CycleAt? ==> OnCycle(g, r.node) && Reachable(g, roots, r.node)
  {
    if i == |Succ(g, node)| then Finished(seen)
    else
      var dep := Succ(g, node)[i];
      if dep !in seen then
        EnterUnvisited(g, roots, node, onStack, path, dep, seen);
        var sub := Dfs(g, dep, seen, onStack + {node}, path + [node], roots);
        if sub.CycleAt? then sub
        else
          FewerLeft(Nodes(g) + roots, seen, sub.visited);
          Advance(g, roots, node, seen, sub.visited, onStack, path);
          var r := DfsDeps(g, node, i + 1, sub.visited, onStack, path, roots);
          if r.Finished? then
            KeepFinished(Succ(g, node), i, seen, r.visited, onStack + {node});
            r
          else r
      else if dep in onStack + {node} then
        StackCycle(g, path, onStack, node, dep, roots);
        CycleAt(dep)
      else
        var r := DfsDeps(g, node, i + 1, seen, onStack, path, roots);
        if r.Finished? then
          KeepFinished(Succ(g, node), i, seen, r.visited, onStack + {node});
          r
        else r
  }

  /** Finishing a dependency keeps the frame between two dependencies. */
  lemma Advance(g: Graph, roots: set<string>, node: string, seen: set<string>, after: set<string>,
                onStack: set<string>, path: seq<string>)
    requires DepsFrame(g, roots, node, seen, onStack, path)
    requires seen <= after && Explored(g, after - (onStack + {node}))
    ensures DepsFrame(g, roots, node, after, onStack, path)
  {
  }

  /** A finished dependency joins the finished ones after it. */
  lemma KeepFinished(deps: seq<string>, i: nat, seen: set<string>, after: set<string>, stack: set<string>)
    requires i < |deps| && seen <= after && deps[i] in after && deps[i] !in stack
    requires forall j | i < j < |deps| :: deps[j] in after - stack
    ensures forall j | i <= j < |deps| :: deps[j] in after - stack
  {
  }

  /** Marking `node` visited leaves one node fewer to visit and the explored nodes as they were. */
  lemma MarkVisited(g: Graph, roots: set<string>, node: string, visited: set<string>, onStack: set<string>)
    requires node in Nodes(g) + roots && node !in visited
    ensures |Nodes(g) + roots - (visited + {node})| < |Nodes(g) + roots - visited|
    ensures (visited + {node}) - (onStack + {node}) == visited - onStack
  {
    var universe := Nodes(g) + roots;
    assert node in universe - visited;
    ProperSubsetSmaller(universe - (visited + {node}), universe - visited);
  }

  /** Popping `node` once all its dependencies are explored makes `node` explored too. */
  lemma FinishNode(g: Graph, node: string, seen: set<string>, onStack: set<string>)
    requires node in seen && node !in onStack
    requires Explored(g, seen - (onStack + {node}))
    requires forall j | 0 <= j < |Succ(g, node)| :: Succ(g, node)[j] in seen - (onStack + {node})
    ensures Explored(g, seen - onStack)
  {
    Blacken(g, seen - (onStack + {node}), node);
    assert seen - onStack == (seen - (onStack + {node})) + {node};
  }

  /** Entering an unvisited dependency of `node` meets the frame of `dfs` again. */
  lemma EnterUnvisited(g: Graph, roots: set<string>, node: string, onStack: set<string>,
                       path: seq<string>, dep: string, seen: set<string>)
    requires DepsFrame(g, roots, node, seen, onStack, path)
    requires dep in Succ(g, node) && dep !in seen
    ensures DfsFrame(g, roots, dep, seen, onStack + {node}, path + [node])
  {
    Descend(g, path, onStack, node, dep);
    assert node in g && dep in g[node];
  }

  /** Visiting more nodes never leaves more to visit. */
  lemma FewerLeft(universe: set<string>, seen: set<string>, after: set<string>)
    requires seen <= after
    ensures |universe - after| <= |universe - seen|
  {
    if universe - after != universe - seen {
      ProperSubsetSmaller(universe - after, universe - seen);
    }
  }

  /**
   * `_validate_no_cycles`: a search from every task name, in list order. It
   * raises exactly when some node reachable from a task lies on a cycle.
   */
  method ValidateNoCycles(tasks: seq<Task>, p: Precedence) returns (r: Outcome<InputError>)
    ensures r.Pass? <==> CycleFreeFrom(p.deps, ToSet(Names(tasks)))
    ensures r.Fail? ==>
      && r.error.CycleThrough?
      && OnCycle(p.deps, r.error.node)
      && Reachable(p.deps, ToSet(Names(tasks)), r.error.node)
  {
    var g := p.deps;
    ghost var roots := ToSet(Names(tasks));
    var visited := {};
    var i := 0;
    while i < |tasks|
      invariant i <= |tasks|
      invariant Explored(g, visited)
      invariant forall j | 0 <= j < i :: tasks[j].name in visited
    {
      var name := tasks[i].name;
      if name !in visited {
        assert name in roots;
        assert visited - {} == visited;
        var sub := Dfs(g, name, visited, {}, [], roots);
        if sub.CycleAt? {
          return Fail(CycleThrough(sub.node));
        }
        visited := sub.visited;
      }
      i := i + 1;
    }
    forall n | Reachable(g, roots, n) ensures !OnCycle(g, n) {
      var w :| IsPath(g, w) && w[0] in roots && w[|w| - 1] == n;
      var k :| 0 <= k < |tasks| && tasks[k].name == w[0];
      PathStaysInClosedSet(g, visited, w);
    }
    return Pass;
  }

  /**
   * `validate_inputs`: duplicate names first (a list and its set differ in
   * size), then the first entry in insertion order whose key or one of whose
   * dependencies is not a task, then cycles.
   */
  method ValidateInputs(tasks: seq<Task>, p: Precedence) returns (r: Outcome<InputError>)
    ensures r.Pass? <==> InputsAccepted(tasks, p)
    ensures (r.Fail? && r.error.DuplicateTaskNames?) <==> !Distinct(Names(tasks))
    ensures r.Fail? && r.error.DuplicateTaskNames? ==>
      forall n :: n in r.error.names <==> Repeated(Names(tasks), n)
    ensures (r.Fail? && (r.error.UnknownKey? || r.error.UnknownDependency?)) <==>
      Distinct(Names(tasks)) && !RefsWithin(p, ToSet(Names(tasks)))
    ensures r.Fail? && r.error.UnknownKey? ==>
      && FirstOffendingKey(p, ToSet(Names(tasks)), r.error.key)
      && r.error.key !in ToSet(Names(tasks))
    ensures r.Fail? && r.error.UnknownDependency? ==>
      && FirstOffendingKey(p, ToSet(Names(tasks)), r.error.key)
      && r.error.key in ToSet(Names(tasks))
      && FirstOutside(p.deps[r.error.key], ToSet(Names(tasks)), r.error.dep)
    ensures r.Fail? && r.error.CycleThrough? ==> OnCycle(p.deps, r.error.node)
  {
    var names := Names(tasks);
    SetSizeIffDistinct(names);
    if |names| != |ToSet(names)| {
      DuplicatesAreRepeated(names);
      return Fail(DuplicateTaskNames(Duplicates(names)));
    }
    var taskNames := ToSet(names);
    var i := FirstOffender(p, taskNames);
    if i < |p.keys| {
      var key := p.keys[i];
      if key !in taskNames {
        return Fail(UnknownKey(key));
      }
      var deps := p.deps[key];
      var j := FindFirst(deps, d => d in taskNames);
      return Fail(UnknownDependency(key, deps[j]));
    }
    r := ValidateNoCycles(tasks, p);
    CycleFreeFromKeysIffAcyclic(p.deps, taskNames);
  }

  /**
   * `TaskSystem(tasks, precedence)`: the system exists exactly when
   * `validate_inputs` accepts; it then keeps the tasks and the dictionary as
   * given and finds every task under its name.
   */
  method NewTaskSystem(tasks: seq<Task>, p: Precedence) returns (r: Result<TaskSystem, InputError>)
    ensures r.Success? <==> InputsAccepted(tasks, p)
    ensures r.Success? ==> r.value.tasks == tasks && r.value.precedence == p
    ensures r.Success? ==> r.value.taskMap.Keys == ToSet(Names(tasks))
    ensures r.Success? ==> forall i | 0 <= i < |tasks| :: r.value.taskMap[tasks[i].name] == tasks[i]
  {
    var system := TaskSystem(tasks, TaskMap(tasks), p);
    var check := ValidateInputs(system.tasks, system.precedence);
    if check.Fail? {
      return Failure(check.error);
    }
    AllLastWithName(tasks);
    return Success(system);
  }
}
