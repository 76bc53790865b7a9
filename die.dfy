// The Die class of montecarlo.py: a fixed, ordered list of distinct faces
// with one mutable weight per face.
module Dice {
  import opened Basics

  class Die {
    /** The face index of the die's table, fixed at construction. */
    const faces: seq<Face>
    /** The Weight column of the die's table, keyed by face. */
    var weights: map<Face, real>

    /** The table has one row per face, and faces never repeat. */
    ghost predicate Valid()
      reads this
    {
      Distinct(faces) && weights.Keys == Elems(faces)
    }

    /** Every face starts with weight 1.0. */
    constructor (faces: seq<Face>)
      requires Distinct(faces)
      ensures Valid()
      ensures this.faces == faces
      ensures forall f :: f in faces ==> weights[f] == 1.0
    {
      this.faces := faces;
      weights := map f | f in faces :: 1.0;
    }

    /** Die(faces): fails with DuplicateValue when two faces are equal, using
        the library's own test that `set(faces)` is smaller than `faces`. */
    static method Create(faces: seq<Face>) returns (r: Result<Die>)
      ensures r.Err? <==> !Distinct(faces)
      ensures r.Err? ==> r.error == DuplicateValue
      ensures r.Ok? ==> fresh(r.value) && r.value.Valid() && r.value.faces == faces
      ensures r.Ok? ==> forall f :: f in faces ==> r.value.weights[f] == 1.0
    {
      CardinalityDetectsDuplicates(faces);
      if |faces| != |Elems(faces)| {
        return Err(DuplicateValue);
      }
      var d := new Die(faces);
      return Ok(d);
    }

    /** change_weight: overwrites the weight of one existing face. */
    method ChangeWeight(face: Face, newWeight: real) returns (r: Result<()>)
      requires Valid()
      modifies this
      ensures Valid()
      ensures r.Err? <==> face !in faces
      ensures r.Err? ==> r.error == UnknownFace && weights == old(weights)
      ensures r.Ok? ==> weights == old(weights)[face := newWeight]
      ensures r.Ok? ==> weights[face] == newWeight
      ensures forall f :: f in faces && f != face ==> weights[f] == old(weights)[f]
      ensures r.Ok? ==> forall i :: 0 <= i < |faces| && faces[i] == face ==> Show()[i].1 == newWeight
    {
      if face !in weights {
        return Err(UnknownFace);
      }
      weights := weights[face := newWeight];
      return Ok(());
    }

    /** `draws` is a possible outcome of rolling this die `n` times with
        replacement: `n` draws, each one of the die's faces. */
    predicate IsDraw(n: nat, draws: seq<Face>) {
      |draws| == n && forall k :: 0 <= k < n ==> draws[k] in faces
    }

    /** roll: `n` faces drawn with replacement, one by default. Which faces
        come out is left to the sampler, so the model chooses them
        nondeterministically. For every non-negative `n` the sampler
        rejects weights that sum to zero, as an empty die's do. */
    method Roll(n: nat := 1) returns (r: Result<seq<Face>>)
      requires Valid()
      ensures r.Err? <==> |faces| == 0
      ensures r.Err? ==> r.error == NoViableOutcome
      ensures r.Ok? ==> IsDraw(n, r.value)
    {
      if |faces| == 0 {
        return Err(NoViableOutcome);
      }
      var some: seq<Face> := if n == 0 then [] else seq(n, _ => faces[0]);
      assert IsDraw(n, some);
      var draws: seq<Face> :| IsDraw(n, draws);
      return Ok(draws);
    }

    /** show: the (face, weight) table, one row per face in face order. */
    function Show(): (table: seq<(Face, real)>)
      reads this
      requires Valid()
      ensures |table| == |faces|
      ensures forall i :: 0 <= i < |table| ==> table[i].0 == faces[i]
      ensures forall i :: 0 <= i < |table| ==> table[i].1 == weights[faces[i]]
    {
      var w := weights;
      seq(|faces|, i requires 0 <= i < |faces| => (faces[i], w[faces[i]]))
    }
  }

  /** A die's table lists each face once, so a face's row in the table is
      found by the face alone. */
  lemma ShowRowOfFace(d: Die, f: Face)
    requires d.Valid() && f in d.faces
    ensures exists i :: 0 <= i < |d.Show()| && d.Show()[i] == (f, d.weights[f])
    ensures forall i :: 0 <= i < |d.Show()| && d.Show()[i].0 == f ==> d.Show()[i].1 == d.weights[f]
  {
    var i :| 0 <= i < |d.faces| && d.faces[i] == f;
    assert d.Show()[i] == (f, d.weights[f]);
  }
}
