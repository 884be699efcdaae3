/**
 * The precedence dictionary `{task name: [dependency names]}` as Python keeps
 * it: a map together with the insertion order of its keys, which decides
 * which offending entry a fail-fast check reports first.
 */
module Precedence {
  import opened Seqs
  import opened Graphs

  datatype Dict = Dict(keys: seq<string>, deps: Graph) {
    /** Keys are listed once each, and exactly the keys of the map are listed. */
    predicate Valid() {
      Distinct(keys) && ToSet(keys) == deps.Keys
    }
  }

  /** A Python dictionary: every value of this type is a well-formed `Dict`. */
  type Precedence = d: Dict | d.Valid() witness Dict([], map[])

  /** The entry for key `k` exists and names only tasks in `names`, itself included. */
  predicate EntryWithin(p: Precedence, k: string, names: set<string>) {
    k in p.deps && k in names && forall d | d in p.deps[k] :: d in names
  }

  /** Every key and every dependency of `p` is a task name. */
  ghost predicate RefsWithin(p: Precedence, names: set<string>) {
    forall k | k in p.deps :: EntryWithin(p, k, names)
  }

  /** `k` is the first key, in insertion order, whose entry refers outside `names`. */
  ghost predicate FirstOffendingKey(p: Precedence, names: set<string>, k: string) {
    exists i | 0 <= i < |p.keys| ::
      && p.keys[i] == k
      && !EntryWithin(p, k, names)
      && forall j | 0 <= j < i :: EntryWithin(p, p.keys[j], names)
  }

  /**
   * Position of the first entry, in insertion order, that refers outside
   * `names`; `|p.keys|` when every entry stays inside.
   */
  function FirstOffender(p: Precedence, names: set<string>): (i: nat)
    ensures i <= |p.keys|
    ensures i == |p.keys| <==> RefsWithin(p, names)
    ensures i < |p.keys| ==> FirstOffendingKey(p, names, p.keys[i])
  {
    FindFirst(p.keys, k => EntryWithin(p, k, names))
  }

  /** The dictionary keeps one key per entry: the first offender is unique. */
  lemma FirstOffendingKeyUnique(p: Precedence, names: set<string>, k1: string, k2: string)
    requires FirstOffendingKey(p, names, k1) && FirstOffendingKey(p, names, k2)
    ensures k1 == k2
  {
    var i :| 0 <= i < |p.keys| && p.keys[i] == k1 && !EntryWithin(p, k1, names)
      && forall j | 0 <= j < i :: EntryWithin(p, p.keys[j], names);
    var i' :| 0 <= i' < |p.keys| && p.keys[i'] == k2 && !EntryWithin(p, k2, names)
      && forall j | 0 <= j < i' :: EntryWithin(p, p.keys[j], names);
    if i < i' {
      assert false;
    } else if i' < i {
      assert false;
    }
  }
}
