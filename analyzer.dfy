// The Analyzer class of montecarlo.py: statistics over a snapshot of a
// game's wide table. Each statistic is a function of the rows; the class
// fixes the rows at construction.
module Analysis {
  import opened Basics
  import opened Counting
  import opened Sorting
  import opened Games

  // ---------------------------------------------------------------- jackpots

  /** `nunique(axis=1) == 1`: the row holds exactly one distinct value. */
  predicate IsJackpot(row: seq<Face>) {
    |Elems(row)| == 1
  }

  /** Every cell of the row equals the first, and there is a first. */
  predicate Uniform(row: seq<Face>) {
    |row| > 0 && forall i :: 0 <= i < |row| ==> row[i] == row[0]
  }

  lemma JackpotIffUniform(row: seq<Face>)
    ensures IsJackpot(row) <==> Uniform(row)
  {
    if Uniform(row) {
      assert Elems(row) == {row[0]};
    }
    if IsJackpot(row) {
      assert row[0] in Elems(row);
      var y :| y in Elems(row);
      assert Elems(row) - {y} == {} by {
        assert |Elems(row) - {y}| == |Elems(row)| - 1;
      }
      forall i | 0 <= i < |row| ensures row[i] == row[0] {
        assert row[i] in Elems(row) && row[0] in Elems(row);
      }
    }
  }

  /** `(nunique(axis=1) == 1).sum()`. */
  function CountJackpots(rows: Wide): (count: nat)
    ensures count <= |rows|
  {
    if rows == [] then 0
    else (if IsJackpot(rows[0]) then 1 else 0) + CountJackpots(rows[1..])
  }

  /** Every roll is a jackpot exactly when every row is uniform. */
  lemma {:induction false} AllJackpotsIffUniform(rows: Wide)
    ensures CountJackpots(rows) == |rows| <==> forall i :: 0 <= i < |rows| ==> Uniform(rows[i])
  {
    if rows != [] {
      AllJackpotsIffUniform(rows[1..]);
      JackpotIffUniform(rows[0]);
      if forall i :: 0 <= i < |rows[1..]| ==> Uniform(rows[1..][i]) {
        if Uniform(rows[0]) {
          forall i | 0 <= i < |rows| ensures Uniform(rows[i]) {
            if i > 0 { assert rows[i] == rows[1..][i - 1]; }
          }
        }
      }
      if forall i :: 0 <= i < |rows| ==> Uniform(rows[i]) {
        assert Uniform(rows[0]);
        forall i | 0 <= i < |rows[1..]| ensures Uniform(rows[1..][i]) {
          assert rows[1..][i] == rows[i + 1];
        }
      }
    }
  }

  /** Which rows are uniform, roll by roll. */
  function UniformFlags(rows: Wide): (flags: seq<bool>)
    ensures |flags| == |rows|
    ensures forall i :: 0 <= i < |rows| ==> flags[i] == Uniform(rows[i])
  {
    seq(|rows|, i requires 0 <= i < |rows| => Uniform(rows[i]))
  }

  /** The jackpot count is the number of rows whose cells are all equal. */
  lemma {:induction false} JackpotsAreUniformRows(rows: Wide)
    ensures CountJackpots(rows) == Count(UniformFlags(rows), true)
  {
    if rows != [] {
      JackpotIffUniform(rows[0]);
      JackpotsAreUniformRows(rows[1..]);
      assert UniformFlags(rows)[1..] == UniformFlags(rows[1..]);
    }
  }

  /** With one die every roll is a jackpot. */
  lemma SingleDieAlwaysJackpot(rows: Wide)
    requires Rectangular(rows, 1)
    ensures CountJackpots(rows) == |rows|
  {
    forall i | 0 <= i < |rows| ensures Uniform(rows[i]) {
    }
    AllJackpotsIffUniform(rows);
  }

  // ------------------------------------------------------------- face counts

  /** All cells of the table, row by row. */
  function Flatten(rows: Wide): (cells: seq<Face>)
    ensures forall x :: x in cells <==> exists i :: 0 <= i < |rows| && x in rows[i]
  {
    if rows == [] then []
    else
      var rest := Flatten(rows[1..]);
      assert forall i :: 1 <= i < |rows| ==> rows[i] == rows[1..][i - 1];
      rows[0] + rest
  }

  /** The distinct values of `s`, in order of first appearance. */
  function Dedup(s: seq<Face>): (r: seq<Face>)
    ensures Distinct(r)
    ensures forall x :: x in r <==> x in s
  {
    if s == [] then []
    else
      var d, last := Dedup(s[..|s| - 1]), s[|s| - 1];
      assert s == s[..|s| - 1] + [last];
      if last in d then d else d + [last]
  }

  /** The apply(value_counts, axis=1).fillna(0) table: one column per face
      seen anywhere in the table, one row of counts per roll. */
  datatype FaceTable = FaceTable(faces: seq<Face>, counts: seq<seq<nat>>)

  function TallyFaces(rows: Wide): FaceTable {
    var faces := Dedup(Flatten(rows));
    FaceTable(faces, seq(|rows|, i requires 0 <= i < |rows| => Tally(rows[i], faces)))
  }

  /** Each row of the face-count table adds up to the number of cells in
      that roll. */
  lemma FaceCountsRowSum(rows: Wide, i: nat)
    requires i < |rows|
    ensures |TallyFaces(rows).counts| == |rows|
    ensures Sum(TallyFaces(rows).counts[i]) == |rows[i]|
  {
    TallySum(rows[i], TallyFaces(rows).faces);
  }

  // ------------------------------------------- combinations and permutations

  /** `tuple(sorted(row))` for every row. */
  function Combinations(rows: Wide): (keys: Wide)
    ensures |keys| == |rows|
    ensures forall i :: 0 <= i < |rows| ==> keys[i] == Sort(rows[i])
    ensures forall i :: 0 <= i < |rows| ==> Sorted(keys[i]) && multiset(keys[i]) == multiset(rows[i])
  {
    if rows == [] then [] else [Sort(rows[0])] + Combinations(rows[1..])
  }

  function CountCombinations(rows: Wide): Table<seq<Face>> {
    ValueCounts(Combinations(rows))
  }

  /** `tuple(row)` for every row is the row itself. */
  function CountPermutations(rows: Wide): Table<seq<Face>> {
    ValueCounts(rows)
  }

  /** The combination key of a row already in ascending order is the row
      itself, which is also its permutation key. */
  lemma SortedRowKeysCoincide(rows: Wide, i: nat)
    requires i < |rows| && Sorted(rows[i])
    ensures Combinations(rows)[i] == rows[i]
  {
    SortKeepsSorted(rows[i]);
  }

  /** Sorting every row keeps at least as many copies of Sort(x) as there
      were copies of x. */
  lemma {:induction false} CountUnderSort(rows: Wide, x: seq<Face>)
    ensures Count(rows, x) <= Count(Combinations(rows), Sort(x))
  {
    if rows != [] {
      var keys := Combinations(rows);
      assert keys[1..] == Combinations(rows[1..]);
      CountUnderSort(rows[1..], x);
    }
  }

  /** Every key of the combination table is in ascending order. */
  lemma CombinationKeysSorted(rows: Wide)
    ensures forall i :: 0 <= i < |CountCombinations(rows)| ==> Sorted(CountCombinations(rows)[i].0)
  {
    var keys := Combinations(rows);
    var t := CountCombinations(rows);
    ValueCountsSpec(keys);
    forall i | 0 <= i < |t| ensures Sorted(t[i].0) {
      assert KeysOf(t)[i] == t[i].0;
      assert t[i].0 in keys;
    }
  }

  /** A combination is counted at least as often as any one ordering of it. */
  lemma CombinationCountsCoverPermutations(rows: Wide, row: seq<Face>)
    ensures Lookup(CountPermutations(rows), row) <= Lookup(CountCombinations(rows), Sort(row))
  {
    ValueCountsSpec(rows);
    ValueCountsSpec(Combinations(rows));
    CountUnderSort(rows, row);
  }

  // ---------------------------------------------------------------- analyzer

  class Analyzer {
    /** The game the analyzer was built on. */
    const game: Game
    /** The game's wide table when the analyzer was built. */
    const snapshot: Wide

    /** The snapshot has one column per die of the game. */
    ghost predicate Valid() {
      Rectangular(snapshot, |game.dice|)
    }

    /** Analyzer(game): copies the game's wide table. An unplayed game has
        no table to copy. */
    constructor (game: Game)
      requires game.Valid() && game.results.Some?
      ensures Valid()
      ensures this.game == game && snapshot == game.results.value
    {
      this.game := game;
      snapshot := game.results.value;
    }

    /** jackpot: the number of rolls in which every die shows the same face. */
    function Jackpot(): (count: nat)
      requires Valid()
      ensures count <= |snapshot|
      ensures count == Count(UniformFlags(snapshot), true)
      ensures count == |snapshot| <==> forall i :: 0 <= i < |snapshot| ==> Uniform(snapshot[i])
      ensures |game.dice| == 1 ==> count == |snapshot|
    {
      AllJackpotsIffUniform(snapshot);
      JackpotsAreUniformRows(snapshot);
      if |game.dice| == 1 then SingleDieAlwaysJackpot(snapshot); CountJackpots(snapshot)
      else CountJackpots(snapshot)
    }

    /** face_counts: per roll, the occurrences of every face seen anywhere
        in the snapshot; 0 for a face absent from that roll. */
    function FaceCounts(): (t: FaceTable)
      requires Valid()
      ensures Distinct(t.faces)
      ensures forall f :: f in t.faces <==> exists i :: 0 <= i < |snapshot| && f in snapshot[i]
      ensures |t.counts| == |snapshot|
      ensures forall i :: 0 <= i < |snapshot| ==> |t.counts[i]| == |t.faces|
      ensures forall i, c :: 0 <= i < |snapshot| && 0 <= c < |t.faces| ==>
        t.counts[i][c] == Count(snapshot[i], t.faces[c]) &&
        (t.counts[i][c] == 0 <==> t.faces[c] !in snapshot[i])
      ensures forall i :: 0 <= i < |snapshot| ==> Sum(t.counts[i]) == |game.dice|
    {
      forall i | 0 <= i < |snapshot| ensures Sum(TallyFaces(snapshot).counts[i]) == |game.dice| {
        FaceCountsRowSum(snapshot, i);
      }
      TallyFaces(snapshot)
    }

    /** combo_counts: each distinct sorted roll once, with the number of
        rolls that sort to it. */
    function ComboCounts(): (t: Table<seq<Face>>)
      requires Valid()
      ensures Distinct(KeysOf(t))
      ensures AllPositive(t)
      ensures forall i :: 0 <= i < |t| ==> Sorted(t[i].0)
      ensures forall c :: Lookup(t, c) == Count(Combinations(snapshot), c)
      ensures Sum(CountsOf(t)) == |snapshot|
    {
      ValueCountsSpec(Combinations(snapshot));
      CombinationKeysSorted(snapshot);
      CountCombinations(snapshot)
    }

    /** permutation_counts: each distinct roll, in die order, once, with the
        number of rolls equal to it. */
    function PermutationCounts(): (t: Table<seq<Face>>)
      requires Valid()
      ensures Distinct(KeysOf(t))
      ensures AllPositive(t)
      ensures forall p :: p in KeysOf(t) <==> p in snapshot
      ensures forall p :: Lookup(t, p) == Count(snapshot, p)
      ensures Sum(CountsOf(t)) == |snapshot|
    {
      ValueCountsSpec(snapshot);
      ValueCounts(snapshot)
    }
  }
}
