// Shared vocabulary of the Monte Carlo model: the face type, the errors the
// library raises, result wrappers and the distinctness of a face list.
module Basics {

  /** A face value of a die. The library accepts any hashable, orderable array
      element; the model fixes integers, which are totally ordered as `sorted`
      needs. */
  type Face = int

  /** The exceptions the library raises, by meaning. */
  datatype Error =
    | DuplicateValue   // ValueError from Die.__init__: two faces are equal
    | UnknownFace      // IndexError from Die.change_weight: no such face
    | InvalidFormat    // ValueError from Game.show: form is neither wide nor narrow
    | NoViableOutcome  // ValueError from the sampler: a die without faces has weights summing to zero

  datatype Result<T> = Ok(value: T) | Err(error: Error)

  datatype Option<T> = None | Some(value: T)

  /** No two positions of `s` hold the same value. */
  predicate Distinct<T(==)>(s: seq<T>) {
    forall i, j :: 0 <= i < j < |s| ==> s[i] != s[j]
  }

  /** The set of values in `s`: Python's `set(s)`. */
  function Elems<T>(s: seq<T>): set<T> {
    set x | x in s
  }

  lemma DistinctCons<T>(x: T, s: seq<T>)
    ensures Distinct([x] + s) <==> x !in s && Distinct(s)
  {
    var t := [x] + s;
    if Distinct(t) {
      forall i, j | 0 <= i < j < |s| ensures s[i] != s[j] {
        assert s[i] == t[i + 1] && s[j] == t[j + 1];
      }
      forall k | 0 <= k < |s| ensures s[k] != x {
        assert t[0] == x && t[k + 1] == s[k];
      }
    }
  }

  /** The duplicate check of Die.__init__, `len(faces) != len(set(faces))`,
      rejects exactly the face lists that repeat a value. */
  lemma {:induction false} CardinalityDetectsDuplicates<T>(s: seq<T>)
    ensures |Elems(s)| <= |s|
    ensures |Elems(s)| == |s| <==> Distinct(s)
  {
    if s == [] {
      assert Elems(s) == {};
    } else {
      var x, t := s[0], s[1..];
      assert s == [x] + t;
      CardinalityDetectsDuplicates(t);
      DistinctCons(x, t);
      assert Elems(s) == {x} + Elems(t);
      if x in t {
        assert Elems(s) == Elems(t);
      } else {
        assert x !in Elems(t);
      }
    }
  }
}
