# Task-system validation of the max-auto-parallelisation library

The library describes a program as a list of tasks and a *precedence*
dictionary `{task name: [names of the tasks it depends on]}`. Before anything
is scheduled, the pair is checked twice, by two independent pieces of code:

- `TaskSystemValidator.validate_system` (validators.py) is an **aggregating**
  validator. It runs three sub-checks (task list, referential integrity of the
  dictionary, cycles). Each sub-check stops at its first problem. If any of
  them fails, it raises one composite error with one entry per failing
  sub-check.
- `TaskSystem.__init__` / `validate_inputs` (maxpar.py) is a **fail-fast**
  validator. It checks duplicate names, then unknown keys and dependencies, then
  cycles, with a recursion-stack depth-first search. It raises at the first
  problem.

This project models both validators, the `Task` and `TaskSystem`
constructors, and the two depth-first searches. It proves the following:

- What each check accepts and what each error reports. This is stated against
  independent predicates: distinct names, keys equal to task names,
  dependencies within the task names, and acyclicity defined through explicit
  walks.
- How the two validators relate.
- What happens on the task systems of the test suite.

Modules, one per file:

| module | file | contents |
|---|---|---|
| `Wrappers` | wrappers.dfy | `Option`, `Outcome` (pass / fail with an error) and `Result`, standing for `None` and raised exceptions |
| `Seqs` | seqs.dfy | distinctness, `list.count`, the set of repeated names, first element failing a test |
| `Graphs` | graphs.dfy | the dependency graph, walks, cycles, reachability, and the lemmas the searches rely on |
| `Tasks` | tasks.dfy | `Task` and its constructor defaults |
| `Precedence` | precedence.dfy | the dictionary as a map plus the insertion order of its keys; the first offending entry |
| `Validators` | validators.dfy | `validate_system` and its three sub-checks |
| `Maxpar` | maxpar.dfy | `TaskSystem`, `task_map`, `validate_inputs`, `_validate_no_cycles` and its `dfs` |
| `CrossCheck` | crosscheck.dfy | the two validators compared |
| `Scenarios` | scenarios.dfy | the systems of tests/test_maxpar.py, and one small system per error |

Representation choices:

- **The dictionary.** A Python dictionary is a `Precedence`: a map together
  with the sequence of its keys in insertion order. The keys are distinct and
  are exactly the map's domain. The order matters because both validators
  report the *first* offending entry.
- **Raised errors.** A raised error is a value of a datatype of error kinds.
  Each kind carries the offending names instead of the message text.
- **The `KeyError`.** The `KeyError` that `precedence[node]` raises in
  `_check_cycles` on a dependency without an entry is modelled. It is
  `Search.MissingKey` and `Verdict.KeyLookupFailed`. It escapes
  `validate_system` rather than joining the composite error.
- **`dfs` of `_validate_no_cycles`.** It is written as two mutually recursive
  functions: `Dfs` for one call, and `DfsDeps` for its loop over the
  dependencies. `visited` and `rec_stack` are passed along. A ghost path
  records the recursion stack, so that a dependency found on the stack yields
  an explicit closed walk.
- **Termination.** The searches terminate on the number of nodes not yet
  visited.

## Model

| member | source | states |
|---|---|---|
| Tasks.NewTask | max_auto_parallelisation_library/maxpar.py:1-6 | an omitted name is the empty string; omitted `reads`/`writes` become empty lists; every given argument is stored unchanged |
| Tasks.NewTaskRoundTrip | max_auto_parallelisation_library/maxpar.py:2-6 | passing a task's own attributes back to the constructor rebuilds the same task |
| Tasks.Names | max_auto_parallelisation_library/maxpar.py:35 | `[task.name for task in tasks]`: one name per task, in list order, each the name of the task at that position |
| Tasks.NewTaskDefaultsAreEmpty | max_auto_parallelisation_library/maxpar.py:4-5 | omitting `reads` and `writes` is the same as passing empty lists |
| Seqs.DuplicatesAreRepeated | max_auto_parallelisation_library/validators.py:54-55 | the names whose `count` exceeds one are exactly the names occurring at two different positions |
| Seqs.NoDuplicatesIffDistinct | max_auto_parallelisation_library/validators.py:55-56 | the duplicate set is empty exactly when the names are pairwise distinct |
| Seqs.SetSizeIffDistinct | max_auto_parallelisation_library/maxpar.py:35-36 | `len(set(names))` never exceeds `len(names)` and equals it exactly when the names are distinct |
| Seqs.CountAboveOneIffRepeated | max_auto_parallelisation_library/maxpar.py:37 | `names.count(n) > 1` exactly when `n` sits at two different positions |
| Seqs.FindFirst | max_auto_parallelisation_library/maxpar.py:50-53 | the index returned is the first element failing the test: all before it pass, and it fails (or is the end) |
| Precedence.FirstOffender | max_auto_parallelisation_library/validators.py:91-101 | the position returned is the first key, in insertion order, whose entry names a non-task; it is the end exactly when every key and dependency is a task name |
| Precedence.FirstOffendingKeyUnique | max_auto_parallelisation_library/validators.py:91-101 | the first offending key is determined: two keys that are both the first offender in insertion order are equal, so a contract naming the first offender pins the reported key |
| Graphs.Succ | max_auto_parallelisation_library/maxpar.py:72 | `precedence.get(node, [])`: the entry of a key, and no dependencies for a node without an entry; every dependency is a node of the graph |
| Graphs.CycleThroughStack | max_auto_parallelisation_library/maxpar.py:75-76 | a dependency of the top of the recursion stack that is itself on the stack lies on a cycle, reachable from the bottom of the stack |
| Graphs.StackCycle | max_auto_parallelisation_library/maxpar.py:75-76 | the same, for a dependency that is the node being searched or below it on the stack |
| Graphs.Blacken | max_auto_parallelisation_library/validators.py:119-124 | a node whose dependencies are all fully explored can be marked explored: the explored set stays closed under dependencies and free of cycle nodes |
| Graphs.PathStaysInClosedSet | max_auto_parallelisation_library/maxpar.py:79-81 | a walk starting in a dependency-closed set never leaves it |
| Graphs.RankedAcyclic | tests/test_maxpar.py:22-26 | the rank argument by which the test dictionaries (`somme` over `T1`, `T2`; the chain `somme -> T2 -> T1` at tests/test_maxpar.py:56-60) are shown acyclic: a graph whose every edge strictly decreases some rank has no cycle |
| Graphs.CycleFreeFromKeysIffAcyclic | max_auto_parallelisation_library/maxpar.py:79-81 | when every key is a search root, having no cycle reachable from the roots is the same as being acyclic |
| Graphs.OnCycleHasEntry | max_auto_parallelisation_library/maxpar.py:72 | a node on a cycle has an entry of its own (a node without one has no dependencies) |
| Validators.ValidateTasks | max_auto_parallelisation_library/validators.py:44-74 | empty list first, then duplicates (reported set = names at two positions), then an empty name; it passes exactly when the list is non-empty with distinct non-empty names |
| Validators.ValidatePrecedenceGraph | max_auto_parallelisation_library/validators.py:77-101 | task names without an entry are reported all together; otherwise the first entry in insertion order with a non-task key, or with its non-task dependencies; it passes exactly when the keys cover the tasks and everything named is a task |
| Validators.DetectCycle | max_auto_parallelisation_library/validators.py:112-124 | a node on the temporary set is on a cycle; a missing entry is a dependency without a key; on completion the node is visited, and the visited set stays closed and cycle-free |
| Validators.CheckCycles | max_auto_parallelisation_library/validators.py:104-128 | completes exactly when every dependency has an entry and no node reaches itself; a reported node is on a cycle; a failed lookup names a dependency without an entry |
| Validators.Assemble | max_auto_parallelisation_library/validators.py:20-35 | the `errors` list: one entry per failing sub-check and no other, task-list entry first, precedence entry next, cycle entry last, each the sub-check's own violation; empty exactly when no sub-check failed |
| Validators.AssembleShowsChecks | max_auto_parallelisation_library/validators.py:20-35 | for any sub-check results, the stages of the list strictly increase, each stage appears exactly when its sub-check failed, and every entry is that sub-check's violation |
| Validators.AssembledStages | max_auto_parallelisation_library/validators.py:20-35 | appending at most one entry per sub-check, in order, keeps the stages strictly increasing and shows which sub-checks failed |
| Validators.AssembleReportsFailingChecks | max_auto_parallelisation_library/validators.py:20-41 | the composite error is empty exactly when all three predicates hold; otherwise it has 1 to 3 entries, one per failing sub-check, in order, each the one that sub-check raised |
| Validators.ValidateSystem | max_auto_parallelisation_library/validators.py:13-41 | returns normally exactly when the task list, the dictionary and acyclicity all hold; raises the composite error otherwise, unless the cycle search's lookup of a dangling dependency escapes, which happens whenever there is no cycle and some dependency has no entry |
| Maxpar.TaskMap | max_auto_parallelisation_library/maxpar.py:28 | the keys are the task names; a task not followed by a namesake is found under its name |
| Maxpar.AllLastWithName | max_auto_parallelisation_library/maxpar.py:28 | with distinct names no task is overridden in the comprehension |
| Maxpar.Dfs | max_auto_parallelisation_library/maxpar.py:69-77 | one call of `dfs`: on return the node is visited and everything visited off the stack is closed and cycle-free; a raised cycle names a node on a cycle reachable from a task |
| Maxpar.DfsDeps | max_auto_parallelisation_library/maxpar.py:72-76 | the loop over `precedence.get(node, [])`: every remaining dependency ends up visited and off the stack, or a dependency on the stack is reported as lying on a reachable cycle |
| Maxpar.EnterUnvisited | max_auto_parallelisation_library/maxpar.py:73-74 | descending into an unvisited dependency keeps the recursion stack a walk from a task to the new node |
| Maxpar.ValidateNoCycles | max_auto_parallelisation_library/maxpar.py:65-81 | passes exactly when no node reachable from a task lies on a cycle; a failure names such a node |
| Maxpar.ValidateInputs | max_auto_parallelisation_library/maxpar.py:32-63 | duplicates first (reported set = repeated names), then the first entry in insertion order with an unknown key or, failing that, its first unknown dependency, then a node on a cycle; passes exactly when names are distinct, all references are task names and the graph is acyclic |
| Maxpar.NewTaskSystem | max_auto_parallelisation_library/maxpar.py:25-30 | construction succeeds exactly when `validate_inputs` accepts; then it keeps tasks and dictionary as given and maps every name to its task |
| CrossCheck.AcceptanceGap | max_auto_parallelisation_library/validators.py:13-41 | `validate_system` accepts exactly what `validate_inputs` accepts that also has a non-empty task list, no unnamed task and an entry for every task |
| CrossCheck.AcceptedKeysAreNames | max_auto_parallelisation_library/validators.py:85-101 | after `validate_system` accepts, the keys are exactly the task names and every dependency has an entry |
| CrossCheck.CompareValidators | max_auto_parallelisation_library/maxpar.py:32-63 | whatever `validate_system` accepts builds a `TaskSystem`; a system that builds yet is rejected has an empty list, an unnamed task or a task without an entry |
| CrossCheck.EmptySystemGap | max_auto_parallelisation_library/validators.py:50-51 | the empty system passes `validate_inputs` but `_validate_tasks` reports an empty list |
| CrossCheck.MissingEntryGap | max_auto_parallelisation_library/validators.py:85-89 | one task without an entry passes `validate_inputs`; `_validate_precedence_graph` reports exactly that task as missing |
| Scenarios.TaskInitialization | tests/test_maxpar.py:8-14 | `Task(name="TestTask", reads=["A"], writes=["B"], run=None)` stores exactly those values |
| Scenarios.SommeSystemAccepted | tests/test_maxpar.py:16-28 | both validators accept the `T1`, `T2`, `somme` system |
| Scenarios.BuildSommeSystem | tests/test_maxpar.py:16-31 | that system builds, keeps its task list and dictionary, and finds `somme` under its name |
| Scenarios.ValidateSommeSystem | tests/test_maxpar.py:22-28 | `validate_system` returns normally on the same system |
| Scenarios.ChainAccepted | tests/test_maxpar.py:56-62 | `validate_inputs` accepts the chain `somme -> T2 -> T1` |
| Scenarios.BuildChainSystem | tests/test_maxpar.py:56-62 | the chain system builds and keeps its dictionary |
| Scenarios.EmptyTaskListWithEntries | tests/test_maxpar.py:78-86 | with no tasks and a five-entry dictionary, construction raises on the unknown key `A` |
| Scenarios.DuplicateNames | max_auto_parallelisation_library/maxpar.py:35-39 | two tasks named `A`: both validators report exactly `{A}` as duplicated |
| Scenarios.DanglingFacts | max_auto_parallelisation_library/maxpar.py:50-53 | in `{"A": ["B"]}` with one task `A`, the entry of `A` names the non-task `B`, and the graph is acyclic but not closed |
| Scenarios.UnknownDependency | max_auto_parallelisation_library/maxpar.py:50-53 | `validate_inputs` reports the pair `A`, `B` |
| Scenarios.InvalidDependency | max_auto_parallelisation_library/validators.py:97-101 | `_validate_precedence_graph` reports `{B}` as the invalid dependencies of `A` |
| Scenarios.DanglingLookup | max_auto_parallelisation_library/validators.py:121 | the cycle search of `validate_system` fails looking `B` up |
| Scenarios.CycleSystemFacts | max_auto_parallelisation_library/validators.py:13-41 | only the cycle sub-check objects to the three-task cycle |
| Scenarios.ThreeCycleInputs | max_auto_parallelisation_library/maxpar.py:75-76 | `validate_inputs` raises a cycle error on one of `A`, `B`, `C` |
| Scenarios.ThreeCycleSystem | max_auto_parallelisation_library/validators.py:113-117 | `validate_system` raises a composite error with the cycle entry alone, on one of `A`, `B`, `C` |
| Scenarios.CycleOnlyVerdict | max_auto_parallelisation_library/validators.py:32-41 | for any system whose task list and dictionary pass and whose graph is closed but cyclic, the verdict `validate_system` promises is a composite error with the cycle entry alone, on a node that lies on a cycle |
| Scenarios.ValidateCycleOnly | max_auto_parallelisation_library/validators.py:13-41 | running `validate_system` on such a system gives that one-entry composite error |
| Scenarios.OnlyCycleStage | max_auto_parallelisation_library/validators.py:37-41 | a composite error from the cycle sub-check alone has exactly one entry |

## Left out

- The `KeyError` at validators.py:121 is not excluded by a precondition. It is modelled as an outcome of its own.
- tests/test_maxpar.py:86 builds `TaskSystem(tasks=[], precedence=...)` with a non-empty dictionary and expects it to succeed. The code of `validate_inputs` raises on the first key, because no key is a task name. The model follows the code, and `Scenarios.EmptyTaskListWithEntries` states the failure.
- `print` diagnostics and the text of every error message, including the join order of the set-valued messages, are left out: error kinds carry the offending names instead.
- Maxpar.ValidateInputs: the duplicates are a set, not a Python list, because the list's order follows the iteration order of a Python `set`, which is unspecified.
- The `isinstance(..., list)` checks (validators.py:66-74) are left out: they always pass once `reads` and `writes` are typed as sequences of names.
- A task's `run` callable is an opaque `Runnable` identifier. The sample bodies `runT1`, `runT2`, `runTsomme` and the globals `X`, `Y`, `Z` they write are left out: they are side effects on module state.
- `precedence.copy()` is modelled as keeping the same value. Aliasing between the caller's dictionary and the copy is not expressible with immutable values.
- Maxpar.ValidateNoCycles: the node named in a cycle error is proved to lie on a cycle reachable from a task. Which such node the search meets first is not pinned down.
- Maxpar.Dfs: as for `ValidateNoCycles`, a reported node is shown to be on a reachable cycle, without fixing which one.
- Validators.ValidateSystem: when the graph has both a cycle and a dependency without an entry, the contract does not say whether the `KeyError` escapes or the composite error is raised; that depends on which the cycle search meets first (for `{"A": ["A", "B"]}` with task `A` it meets the cycle on `A` and raises the composite error). The gap is inherited from `Validators.CheckCycles`.
- Validators.CheckCycles: the node named in a cycle error is proved to lie on a cycle, and a failed lookup names a dependency without an entry. Which one the search meets first is not pinned down.
- Validators.DetectCycle: the same weakening as `CheckCycles`.
- Scenarios.ThreeCycleInputs: the code would report `A`; the contract says only that the node is one of `A`, `B`, `C`, following the weaker contract of `ValidateNoCycles`.
- Scenarios.ThreeCycleSystem: as for `ThreeCycleInputs`.
- Python's recursion-depth limit on the two recursive searches is not modelled.
- The interactive front end (input.py) and the packaging script (setup.py) are not part of this model.
- Dependency queries, conflict analysis, transitive reduction, scheduling and execution (`getAllDependencies`, `create_max_parallel_system` and the rest) are not part of this model. The tests call them, but no modelled file defines them.
