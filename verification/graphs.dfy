/**
 * Precedence graphs as Python dictionaries `name -> list of dependencies`,
 * with the edge `n -> d` for every dependency `d` of `n`. Reachability and
 * cycles are defined through explicit paths; the lemmas are the facts the two
 * depth-first searches rely on.
 */
module Graphs {

  type Graph = map<string, seq<string>>

  /** Dependencies of `n`; a node without an entry has none (`dict.get(n, [])`). */
  function Succ(g: Graph, n: string): (s: seq<string>)
    ensures n in g ==> s == g[n]
    ensures |s| > 0 ==> n in g
    ensures forall d | d in s :: d in Nodes(g)
  {
    if n in g then g[n] else []
  }

  /** `p` is a non-empty walk along dependency edges. */
  ghost predicate IsPath(g: Graph, p: seq<string>)
    decreases |p|
  {
    |p| > 0 && (|p| > 1 ==> p[1] in Succ(g, p[0]) && IsPath(g, p[1..]))
  }

  /** Some walk of at least one edge leads from `n` back to `n`. */
  ghost predicate OnCycle(g: Graph, n: string) {
    exists p {:trigger IsPath(g, p)} :: IsPath(g, p) && |p| > 1 && p[0] == n && p[|p| - 1] == n
  }

  /** No node is reachable from itself. */
  ghost predicate Acyclic(g: Graph) {
    forall n :: !OnCycle(g, n)
  }

  /** Some walk from a member of `roots` ends at `n`. */
  ghost predicate Reachable(g: Graph, roots: set<string>, n: string) {
    exists p {:trigger IsPath(g, p)} :: IsPath(g, p) && p[0] in roots && p[|p| - 1] == n
  }

  /** No node reachable from `roots` lies on a cycle. */
  ghost predicate CycleFreeFrom(g: Graph, roots: set<string>) {
    forall n :: Reachable(g, roots, n) ==> !OnCycle(g, n)
  }

  /** Every dependency is itself a key of the dictionary. */
  predicate Closed(g: Graph) {
    forall k | k in g :: forall d | d in g[k] :: d in g
  }

  /** `n` is named as a dependency but has no entry of its own. */
  predicate Dangling(g: Graph, n: string) {
    n !in g && exists k | k in g :: n in g[k]
  }

  /** Every node of `g`: its keys and every dependency they name. */
  function Nodes(g: Graph): set<string> {
    g.Keys + (set k, d | k in g && d in g[k] :: d)
  }

  /** `s` contains the dependencies of each of its members. */
  ghost predicate SuccClosed(g: Graph, s: set<string>) {
    forall v | v in s :: forall d | d in Succ(g, v) :: d in s
  }

  /**
   * The set of nodes a depth-first search has completely explored: closed
   * under dependencies, and none of them lies on a cycle.
   */
  ghost predicate Explored(g: Graph, s: set<string>) {
    SuccClosed(g, s) && forall v | v in s :: !OnCycle(g, v)
  }

  /**
   * `path` is the current recursion stack of a depth-first search, `onStack`
   * the set of its nodes, and `node` the dependency about to be visited from
   * the top of the stack.
   */
  ghost predicate StackLeadsTo(g: Graph, path: seq<string>, onStack: set<string>, node: string) {
    && (forall x :: x in onStack <==> x in path)
    && (|path| > 0 ==> IsPath(g, path) && node in Succ(g, path[|path| - 1]))
  }

  lemma OnCycleHasEntry(g: Graph, n: string)
    requires OnCycle(g, n)
    ensures n in g
  {
    var p :| IsPath(g, p) && |p| > 1 && p[0] == n && p[|p| - 1] == n;
    assert p[1] in Succ(g, p[0]);
  }

  lemma {:induction false} ExtendPath(g: Graph, path: seq<string>, n: string)
    requires |path| > 0 ==> IsPath(g, path) && n in Succ(g, path[|path| - 1])
    ensures IsPath(g, path + [n])
    decreases |path|
  {
    var q := path + [n];
    if |path| > 1 {
      assert q[1..] == path[1..] + [n];
      ExtendPath(g, path[1..], n);
    } else if |path| == 1 {
      assert q[1..] == [n];
    }
  }

  lemma {:induction false} PathSuffix(g: Graph, p: seq<string>, k: nat)
    requires IsPath(g, p) && k < |p|
    ensures IsPath(g, p[k..])
    decreases k
  {
    if k > 0 {
      PathSuffix(g, p[1..], k - 1);
      assert p[1..][k - 1..] == p[k..];
    }
  }

  lemma {:induction false} PathPrefix(g: Graph, p: seq<string>, k: nat)
    requires IsPath(g, p) && 0 < k <= |p|
    ensures IsPath(g, p[..k])
    decreases k
  {
    if k > 1 {
      PathPrefix(g, p[1..], k - 1);
      assert p[..k][1..] == p[1..][..k - 1];
    }
  }

  /** Pushing `node` on the stack leaves the stack leading to each of its dependencies. */
  lemma PushOnStack(g: Graph, path: seq<string>, onStack: set<string>, node: string)
    requires StackLeadsTo(g, path, onStack, node)
    ensures forall d | d in Succ(g, node) :: StackLeadsTo(g, path + [node], onStack + {node}, d)
  {
    ExtendPath(g, path, node);
    var q := path + [node];
    assert q[|q| - 1] == node;
    forall x ensures x in onStack + {node} <==> x in q {
      assert x in q <==> x in path || x == node;
    }
  }

  /**
   * Descending from the top of the stack into one dependency: the stack grows
   * by `node` and still starts where it started.
   */
  lemma Descend(g: Graph, path: seq<string>, onStack: set<string>, node: string, dep: string)
    requires StackLeadsTo(g, path, onStack, node) && dep in Succ(g, node)
    ensures StackLeadsTo(g, path + [node], onStack + {node}, dep)
    ensures (path + [node])[0] == if |path| == 0 then node else path[0]
  {
    PushOnStack(g, path, onStack, node);
  }

  /**
   * A dependency of `node` that is already on the stack (or is `node` itself)
   * lies on a cycle reachable from the bottom of the stack.
   */
  lemma StackCycle(g: Graph, path: seq<string>, onStack: set<string>, node: string, dep: string, roots: set<string>)
    requires StackLeadsTo(g, path, onStack, node)
    requires (if |path| == 0 then node else path[0]) in roots
    requires dep in Succ(g, node) && dep in onStack + {node}
    ensures OnCycle(g, dep) && Reachable(g, roots, dep)
  {
    ExtendPath(g, path, node);
    var q := path + [node];
    assert dep in q;
    CycleThroughStack(g, q, dep, roots);
  }

  /** A walk that starts inside a dependency-closed set never leaves it. */
  lemma {:induction false} PathStaysInClosedSet(g: Graph, s: set<string>, p: seq<string>)
    requires SuccClosed(g, s) && IsPath(g, p) && p[0] in s
    ensures forall i | 0 <= i < |p| :: p[i] in s
  {
    if |p| > 1 {
      var q := p[1..];
      PathStaysInClosedSet(g, s, q);
      forall i | 0 < i < |p| ensures p[i] in s {
        assert p[i] == q[i - 1];
      }
    }
  }

  /**
   * Marking a node explored once all its dependencies are explored keeps the
   * explored set closed and cycle-free: a cycle through the new node would
   * have to leave the closed set to come back.
   */
  lemma Blacken(g: Graph, s: set<string>, n: string)
    requires Explored(g, s)
    requires n !in s
    requires forall d | d in Succ(g, n) :: d in s
    ensures Explored(g, s + {n})
  {
    if OnCycle(g, n) {
      var p :| IsPath(g, p) && |p| > 1 && p[0] == n && p[|p| - 1] == n;
      var q := p[1..];
      PathStaysInClosedSet(g, s, q);
      assert false;
    }
  }

  /**
   * A dependency of the top of the stack that is already on the stack closes
   * a cycle through it, and the stack shows that it is reachable from the
   * node the search started at.
   */
  lemma CycleThroughStack(g: Graph, path: seq<string>, n: string, roots: set<string>)
    requires IsPath(g, path)
    requires n in path && n in Succ(g, path[|path| - 1])
    requires path[0] in roots
    ensures OnCycle(g, n)
    ensures Reachable(g, roots, n)
  {
    var k :| 0 <= k < |path| && path[k] == n;
    PathSuffix(g, path, k);
    ExtendPath(g, path[k..], n);
    var c := path[k..] + [n];
    assert c[0] == n && c[|c| - 1] == n;
    CycleWitness(g, c);
    PathPrefix(g, path, k + 1);
    var w := path[..k + 1];
    assert w[0] == path[0] && w[|w| - 1] == n;
    ReachableWitness(g, roots, w);
  }

  /** A closed walk shows that its first node lies on a cycle. */
  lemma CycleWitness(g: Graph, c: seq<string>)
    requires IsPath(g, c) && |c| > 1 && c[0] == c[|c| - 1]
    ensures OnCycle(g, c[0])
  {
  }

  /** A walk from a root shows that its last node is reachable. */
  lemma ReachableWitness(g: Graph, roots: set<string>, w: seq<string>)
    requires IsPath(g, w) && w[0] in roots
    ensures Reachable(g, roots, w[|w| - 1])
  {
  }

  /** Every edge leads from a higher to a strictly lower rank. */
  predicate RankedBy(g: Graph, rank: map<string, nat>) {
    forall k | k in g :: k in rank && forall d | d in g[k] :: d in rank && rank[d] < rank[k]
  }

  /** The rank strictly decreases along every walk of at least one edge. */
  lemma {:induction false} RankDecreasesAlongPath(g: Graph, rank: map<string, nat>, p: seq<string>)
    requires RankedBy(g, rank)
    requires IsPath(g, p) && |p| > 1
    ensures p[0] in rank && p[|p| - 1] in rank && rank[p[|p| - 1]] < rank[p[0]]
  {
    assert p[1] in Succ(g, p[0]);
    assert p[0] in g && p[1] in g[p[0]];
    if |p| > 2 {
      RankDecreasesAlongPath(g, rank, p[1..]);
      assert p[1..][0] == p[1] && p[1..][|p| - 2] == p[|p| - 1];
    }
  }

  /** A graph whose edges all decrease some rank is acyclic. */
  lemma RankedAcyclic(g: Graph, rank: map<string, nat>)
    requires RankedBy(g, rank)
    ensures Acyclic(g)
  {
    forall n ensures !OnCycle(g, n) {
      if OnCycle(g, n) {
        var p :| IsPath(g, p) && |p| > 1 && p[0] == n && p[|p| - 1] == n;
        RankDecreasesAlongPath(g, rank, p);
      }
    }
  }

  /**
   * When every key is a root, every node on a cycle is reachable from the
   * roots, so being cycle-free from the roots is being acyclic.
   */
  lemma CycleFreeFromKeysIffAcyclic(g: Graph, roots: set<string>)
    requires g.Keys <= roots
    ensures CycleFreeFrom(g, roots) <==> Acyclic(g)
  {
    if !Acyclic(g) {
      var n :| OnCycle(g, n);
      OnCycleHasEntry(g, n);
      assert IsPath(g, [n]);
      assert Reachable(g, roots, n);
    }
  }
}
