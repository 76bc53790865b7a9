// Counting over sequences: occurrences of a value, sums, and the
// `value_counts` table pandas builds for a column of keys.
module Counting {
  import opened Basics

  /** How many positions of `s` hold `x`. */
  function Count<T(==)>(s: seq<T>, x: T): (c: nat)
    ensures c <= |s|
    ensures c == 0 <==> x !in s
  {
    if s == [] then 0 else (if s[0] == x then 1 else 0) + Count(s[1..], x)
  }

  function Sum(s: seq<nat>): nat {
    if s == [] then 0 else s[0] + Sum(s[1..])
  }

  /** A counts table: one (key, count) entry per distinct key. */
  type Table<K> = seq<(K, nat)>

  function KeysOf<K>(t: Table<K>): (keys: seq<K>)
    ensures |keys| == |t|
    ensures forall i :: 0 <= i < |t| ==> keys[i] == t[i].0
  {
    if t == [] then [] else [t[0].0] + KeysOf(t[1..])
  }

  function CountsOf<K>(t: Table<K>): (counts: seq<nat>)
    ensures |counts| == |t|
    ensures forall i :: 0 <= i < |t| ==> counts[i] == t[i].1
  {
    if t == [] then [] else [t[0].1] + CountsOf(t[1..])
  }

  /** The count the table records for `k`, 0 when `k` has no entry. */
  function Lookup<K(==)>(t: Table<K>, k: K): nat {
    if t == [] then 0 else if t[0].0 == k then t[0].1 else Lookup(t[1..], k)
  }

  predicate AllPositive<K>(t: Table<K>) {
    forall i :: 0 <= i < |t| ==> t[i].1 > 0
  }

  /** Records one more occurrence of `k`: bumps its entry, or appends a new
      entry with count 1. */
  function Insert<K(==)>(t: Table<K>, k: K): Table<K> {
    if t == [] then [(k, 1)]
    else if t[0].0 == k then [(k, t[0].1 + 1)] + t[1..]
    else [t[0]] + Insert(t[1..], k)
  }

  lemma ConsEntry<K>(e: (K, nat), t: Table<K>)
    ensures KeysOf([e] + t) == [e.0] + KeysOf(t)
    ensures CountsOf([e] + t) == [e.1] + CountsOf(t)
  {
  }

  lemma {:induction false} InsertKeys<K(!new)>(t: Table<K>, k: K)
    requires Distinct(KeysOf(t))
    ensures Distinct(KeysOf(Insert(t, k)))
    ensures forall x :: x in KeysOf(Insert(t, k)) <==> x in KeysOf(t) || x == k
  {
    if t != [] {
      var e := t[0];
      assert t == [e] + t[1..];
      ConsEntry(e, t[1..]);
      DistinctCons(e.0, KeysOf(t[1..]));
      if e.0 == k {
        ConsEntry((k, e.1 + 1), t[1..]);
      } else {
        InsertKeys(t[1..], k);
        ConsEntry(e, Insert(t[1..], k));
        DistinctCons(e.0, KeysOf(Insert(t[1..], k)));
      }
    }
  }

  lemma {:induction false} InsertLookup<K>(t: Table<K>, k: K, x: K)
    ensures Lookup(Insert(t, k), x) == Lookup(t, x) + (if x == k then 1 else 0)
  {
    if t != [] && t[0].0 != k {
      InsertLookup(t[1..], k, x);
      assert ([t[0]] + Insert(t[1..], k))[1..] == Insert(t[1..], k);
    }
  }

  lemma {:induction false} InsertPositive<K>(t: Table<K>, k: K)
    requires AllPositive(t)
    ensures AllPositive(Insert(t, k))
  {
    if t != [] && t[0].0 != k {
      InsertPositive(t[1..], k);
    }
  }

  lemma {:induction false} InsertSum<K>(t: Table<K>, k: K)
    ensures Sum(CountsOf(Insert(t, k))) == Sum(CountsOf(t)) + 1
  {
    if t == [] {
      assert CountsOf([(k, 1)]) == [1];
    } else {
      var e := t[0];
      assert t == [e] + t[1..];
      ConsEntry(e, t[1..]);
      if e.0 == k {
        ConsEntry((k, e.1 + 1), t[1..]);
      } else {
        InsertSum(t[1..], k);
        ConsEntry(e, Insert(t[1..], k));
      }
    }
  }

  /** Series.value_counts: one entry per distinct key with the number of
      times it occurs. */
  function ValueCounts<K(==)>(keys: seq<K>): Table<K> {
    if keys == [] then [] else Insert(ValueCounts(keys[1..]), keys[0])
  }

  /** The keys of the table are exactly the distinct keys of the input, each
      once; every count is positive, is the key's number of occurrences, and
      the counts add up to the length of the input. */
  lemma {:induction false} ValueCountsSpec<K(!new)>(keys: seq<K>)
    ensures Distinct(KeysOf(ValueCounts(keys)))
    ensures forall x :: x in KeysOf(ValueCounts(keys)) <==> x in keys
    ensures forall x :: Lookup(ValueCounts(keys), x) == Count(keys, x)
    ensures AllPositive(ValueCounts(keys))
    ensures Sum(CountsOf(ValueCounts(keys))) == |keys|
  {
    if keys != [] {
      var rest := ValueCounts(keys[1..]);
      ValueCountsSpec(keys[1..]);
      InsertKeys(rest, keys[0]);
      InsertPositive(rest, keys[0]);
      InsertSum(rest, keys[0]);
      forall x ensures Lookup(ValueCounts(keys), x) == Count(keys, x) {
        InsertLookup(rest, keys[0], x);
      }
      assert keys == [keys[0]] + keys[1..];
    }
  }

  /** A value listed once in a list without repeats is counted once. */
  lemma {:induction false} CountDistinct<T>(s: seq<T>, x: T)
    requires Distinct(s) && x in s
    ensures Count(s, x) == 1
  {
    assert s == [s[0]] + s[1..];
    DistinctCons(s[0], s[1..]);
    if s[0] != x {
      CountDistinct(s[1..], x);
    }
  }

  /** The occurrences in `row` of each value of `values`, in order. */
  function Tally<T(==)>(row: seq<T>, values: seq<T>): (counts: seq<nat>)
    ensures |counts| == |values|
    ensures forall c :: 0 <= c < |values| ==> counts[c] == Count(row, values[c])
  {
    if values == [] then [] else [Count(row, values[0])] + Tally(row, values[1..])
  }

  lemma {:induction false} TallyEmpty<T>(values: seq<T>)
    ensures Sum(Tally([], values)) == 0
  {
    if values != [] {
      TallyEmpty(values[1..]);
    }
  }

  /** Prepending `y` to the row adds, over all values, one count per value
      equal to `y`. */
  lemma {:induction false} TallyCons<T>(y: T, rest: seq<T>, values: seq<T>)
    ensures Sum(Tally([y] + rest, values)) == Count(values, y) + Sum(Tally(rest, values))
  {
    if values != [] {
      assert ([y] + rest)[1..] == rest;
      TallyCons(y, rest, values[1..]);
    }
  }

  /** Tallying a row against a repeat-free list that covers every value of
      the row accounts for every cell exactly once. */
  lemma {:induction false} TallySum<T>(row: seq<T>, values: seq<T>)
    requires Distinct(values)
    requires forall x :: x in row ==> x in values
    ensures Sum(Tally(row, values)) == |row|
  {
    if row == [] {
      TallyEmpty(values);
    } else {
      assert row == [row[0]] + row[1..];
      TallyCons(row[0], row[1..], values);
      CountDistinct(values, row[0]);
      TallySum(row[1..], values);
    }
  }
}
