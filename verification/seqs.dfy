/**
 * Facts about sequences of names shared by both validators: distinctness,
 * Python's `list.count`, the set of repeated names, and the search for the
 * first element that fails a test (the shape of a `for` loop that raises on
 * its first bad element).
 */
module Seqs {

  /** No name occurs twice. */
  predicate Distinct(s: seq<string>) {
    forall i, j | 0 <= i < j < |s| :: s[i] != s[j]
  }

  /** The names of `s` as a set, like Python's `set(s)`. */
  function ToSet(s: seq<string>): set<string> {
    set x | x in s
  }

  /** Number of occurrences of `x` in `s`, like Python's `s.count(x)`. */
  function Count(s: seq<string>, x: string): nat {
    if |s| == 0 then 0
    else Count(s[..|s| - 1], x) + (if s[|s| - 1] == x then 1 else 0)
  }

  /** `x` sits at two different positions of `s`. */
  ghost predicate Repeated(s: seq<string>, x: string) {
    exists i, j | 0 <= i < j < |s| :: s[i] == x && s[j] == x
  }

  /** The names whose count exceeds one: `{n for n in s if s.count(n) > 1}`. */
  function Duplicates(s: seq<string>): set<string> {
    set x | x in s && Count(s, x) > 1
  }

  lemma {:induction false} CountPositiveIffMember(s: seq<string>, x: string)
    ensures Count(s, x) > 0 <==> x in s
  {
    if |s| > 0 {
      var init := s[..|s| - 1];
      CountPositiveIffMember(init, x);
      assert s == init + [s[|s| - 1]];
    }
  }

  /** Python's count exceeds one exactly when the name occurs at two positions. */
  lemma {:induction false} CountAboveOneIffRepeated(s: seq<string>, x: string)
    ensures Count(s, x) > 1 <==> Repeated(s, x)
  {
    if |s| > 0 {
      var n := |s| - 1;
      var init := s[..n];
      CountAboveOneIffRepeated(init, x);
      CountPositiveIffMember(init, x);
      if Count(s, x) > 1 {
        if s[n] == x {
          var i :| 0 <= i < n && init[i] == x;
          assert s[i] == x && s[n] == x;
        } else {
          var i, j :| 0 <= i < j < n && init[i] == x && init[j] == x;
          assert s[i] == x && s[j] == x;
        }
      }
      if Repeated(s, x) {
        var i, j :| 0 <= i < j < |s| && s[i] == x && s[j] == x;
        if j == n {
          assert init[i] == x;
        } else {
          assert init[i] == x && init[j] == x;
        }
      }
    }
  }

  /** The reported duplicates are exactly the names that occur at two positions. */
  lemma DuplicatesAreRepeated(s: seq<string>)
    ensures forall x :: x in Duplicates(s) <==> Repeated(s, x)
  {
    forall x ensures x in Duplicates(s) <==> Repeated(s, x) {
      CountAboveOneIffRepeated(s, x);
    }
  }

  /** There is nothing to report exactly when the names are distinct. */
  lemma NoDuplicatesIffDistinct(s: seq<string>)
    ensures Duplicates(s) == {} <==> Distinct(s)
  {
    DuplicatesAreRepeated(s);
    if !Distinct(s) {
      var i, j :| 0 <= i < j < |s| && s[i] == s[j];
      assert Repeated(s, s[i]);
      assert s[i] in Duplicates(s);
    }
  }

  /**
   * Comparing `len(s)` with `len(set(s))` detects repetition: the set is
   * never larger, and it is as large exactly when the names are distinct.
   */
  lemma {:induction false} SetSizeIffDistinct(s: seq<string>)
    ensures |ToSet(s)| <= |s|
    ensures |ToSet(s)| == |s| <==> Distinct(s)
  {
    if |s| == 0 {
      assert ToSet(s) == {};
    } else {
      var n := |s| - 1;
      var init := s[..n];
      SetSizeIffDistinct(init);
      assert s == init + [s[n]];
      assert ToSet(s) == ToSet(init) + {s[n]};
      if s[n] in init {
        assert ToSet(s) == ToSet(init);
        var i :| 0 <= i < n && init[i] == s[n];
        assert s[i] == s[n];
        assert !Distinct(s);
      } else {
        assert s[n] !in ToSet(init);
        assert |ToSet(s)| == |ToSet(init)| + 1;
        if Distinct(init) {
          forall i, j | 0 <= i < j < |s| ensures s[i] != s[j] {
            if j < n {
              assert s[i] == init[i] && s[j] == init[j];
            } else {
              assert s[i] == init[i];
            }
          }
        } else {
          var i, j :| 0 <= i < j < n && init[i] == init[j];
          assert s[i] == s[j];
        }
      }
    }
  }

  /**
   * Index of the first element of `s` that fails `ok`, or `|s|` when every
   * element passes.
   */
  function FindFirst(s: seq<string>, ok: string -> bool): (i: nat)
    ensures i <= |s|
    ensures forall j | 0 <= j < i :: ok(s[j])
    ensures i < |s| ==> !ok(s[i])
  {
    if |s| == 0 || !ok(s[0]) then 0 else 1 + FindFirst(s[1..], ok)
  }

  /** A name of `s` outside `names` survives in `set(s) - names`. */
  lemma OutsideSurvivesDifference(s: seq<string>, names: set<string>, d: string)
    requires d in s && d !in names
    ensures d in ToSet(s) - names
  {
  }

  /** A proper subset is strictly smaller. */
  lemma ProperSubsetSmaller(a: set<string>, b: set<string>)
    requires a < b
    ensures |a| < |b|
  {
    var x :| x in b && x !in a;
    assert b == a + (b - a);
    assert x in b - a;
  }

  /** A set that is not contained in another leaves a non-empty difference. */
  lemma NotSubsetLeavesDifference(a: set<string>, b: set<string>)
    requires !(a <= b)
    ensures a - b != {}
  {
    var x :| x in a && x !in b;
    assert x in a - b;
  }
}
