// Python's `sorted` on one row of faces, which turns a roll into its
// combination key.
module Sorting {
  import opened Basics

  predicate Sorted(s: seq<Face>) {
    forall i, j :: 0 <= i < j < |s| ==> s[i] <= s[j]
  }

  /** Places `x` before the first element of `s` that is not smaller. */
  function InsertSorted(x: Face, s: seq<Face>): (r: seq<Face>)
    ensures multiset(r) == multiset(s) + multiset{x}
  {
    if s == [] || x <= s[0] then [x] + s
    else
      assert s == [s[0]] + s[1..];
      [s[0]] + InsertSorted(x, s[1..])
  }

  lemma {:induction false} InsertKeepsSorted(x: Face, s: seq<Face>)
    requires Sorted(s)
    ensures Sorted(InsertSorted(x, s))
  {
    if s != [] && s[0] < x {
      var rest := InsertSorted(x, s[1..]);
      InsertKeepsSorted(x, s[1..]);
      var r := [s[0]] + rest;
      forall i | 0 < i < |r| ensures s[0] <= r[i] {
        assert r[i] == rest[i - 1];
        assert r[i] in multiset(rest);
        assert r[i] in multiset(s[1..]) || r[i] == x;
      }
    }
  }

  /** `sorted(row)`: the values of the row in ascending order. */
  function Sort(s: seq<Face>): (r: seq<Face>)
    ensures Sorted(r)
    ensures multiset(r) == multiset(s)
  {
    if s == [] then []
    else
      assert s == [s[0]] + s[1..];
      InsertKeepsSorted(s[0], Sort(s[1..]));
      InsertSorted(s[0], Sort(s[1..]))
  }

  /** A row already in ascending order is its own combination key. */
  lemma {:induction false} SortKeepsSorted(s: seq<Face>)
    requires Sorted(s)
    ensures Sort(s) == s
  {
    if s != [] {
      SortKeepsSorted(s[1..]);
      assert s == [s[0]] + s[1..];
    }
  }

  /** Two sorted rows holding the same values, with multiplicity, are equal. */
  lemma {:induction false} SortedUnique(a: seq<Face>, b: seq<Face>)
    requires Sorted(a) && Sorted(b) && multiset(a) == multiset(b)
    ensures a == b
  {
    if a != [] {
      assert a == [a[0]] + a[1..];
      assert b == [b[0]] + b[1..] by { assert b[0..] == b; assert |b| == |multiset(b)|; }
      assert a[0] in multiset(b) && b[0] in multiset(a);
      assert a[0] <= b[0] && b[0] <= a[0];
      assert multiset(a[1..]) == multiset(a) - multiset{a[0]};
      assert multiset(b[1..]) == multiset(b) - multiset{b[0]};
      SortedUnique(a[1..], b[1..]);
    } else {
      assert |b| == |multiset(b)|;
    }
  }

  /** Two rows share a combination key exactly when one is a rearrangement
      of the other. */
  lemma SameCombinationIffPermutation(a: seq<Face>, b: seq<Face>)
    ensures Sort(a) == Sort(b) <==> multiset(a) == multiset(b)
  {
    if multiset(a) == multiset(b) {
      SortedUnique(Sort(a), Sort(b));
    }
  }
}
