// The Game class of montecarlo.py: a list of dice rolled together, and the
// table of the most recent play in wide or narrow form.
module Games {
  import opened Basics
  import opened Dice

  /** A wide table: one row per roll, one column per die. */
  type Wide = seq<seq<Face>>

  /** One row of the narrow table: which roll, which die, which face. */
  datatype Entry = Entry(roll: nat, die: nat, face: Face)

  /** What Game.show returns: the wide table, or the narrow one. */
  datatype Shown = WideForm(rows: Wide) | NarrowForm(entries: seq<Entry>)

  /** Every row has exactly `width` cells. */
  predicate Rectangular(rows: Wide, width: nat) {
    forall i :: 0 <= i < |rows| ==> |rows[i]| == width
  }

  /** pd.DataFrame(columns): column `j` of the table is `columns[j]`. A frame
      built from no columns has no rows. */
  function FromColumns(columns: seq<seq<Face>>, n: nat): (rows: Wide)
    requires forall j :: 0 <= j < |columns| ==> |columns[j]| == n
    ensures |rows| == (if |columns| == 0 then 0 else n)
    ensures Rectangular(rows, |columns|)
    ensures forall i, j :: 0 <= i < |rows| && 0 <= j < |columns| ==> rows[i][j] == columns[j][i]
  {
    if |columns| == 0 then []
    else seq(n, i requires 0 <= i < n =>
               seq(|columns|, j requires 0 <= j < |columns| => columns[j][i]))
  }

  /** The cells of one row, in column order, as narrow entries. */
  function RowEntries(roll: nat, row: seq<Face>): seq<Entry> {
    seq(|row|, j requires 0 <= j < |row| => Entry(roll, j, row[j]))
  }

  /** DataFrame.stack: the cells row by row, each row in column order. */
  function Stack(rows: Wide): seq<Entry> {
    if rows == [] then []
    else Stack(rows[..|rows| - 1]) + RowEntries(|rows| - 1, rows[|rows| - 1])
  }

  lemma MulMonotone(a: int, b: int, w: nat)
    requires a <= b
    ensures a * w <= b * w
  {
  }

  lemma MulSucc(m: int, w: int)
    ensures (m + 1) * w == m * w + w
  {
  }

  /** Position `k` among `n` rows of `w` cells is cell `k % w` of row `k / w`. */
  lemma DivSplit(k: nat, w: nat, n: nat)
    requires w > 0 && k < n * w
    ensures k == (k / w) * w + k % w
    ensures 0 <= k / w < n && 0 <= k % w < w
  {
  }

  lemma {:induction false} StackLength(rows: Wide, width: nat)
    requires Rectangular(rows, width)
    ensures |Stack(rows)| == |rows| * width
  {
    if rows != [] {
      var m := |rows| - 1;
      var front := rows[..m];
      assert Rectangular(front, width);
      StackLength(front, width);
      assert |Stack(rows)| == |Stack(front)| + width;
      MulSucc(m, width);
    }
  }

  /** Cell (i, j) of the wide table is entry `i * width + j` of the narrow
      one, tagged with its roll and die. */
  lemma {:induction false} StackCell(rows: Wide, width: nat, i: nat, j: nat)
    requires Rectangular(rows, width) && i < |rows| && j < width
    ensures i * width + j < |Stack(rows)|
    ensures Stack(rows)[i * width + j] == Entry(i, j, rows[i][j])
  {
    var m := |rows| - 1;
    var front := rows[..m];
    StackLength(rows, width);
    StackLength(front, width);
    MulMonotone(i + 1, |rows|, width);
    if i < m {
      StackCell(front, width, i, j);
      MulMonotone(i + 1, m, width);
    }
  }

  /** Narrow entry `k` is roll `k / width`, die `k % width`, and the wide
      table's cell at that position. */
  predicate EntryAt(entries: seq<Entry>, rows: Wide, width: nat, k: nat)
    requires width > 0
  {
    && k < |entries| && k / width < |rows| && k % width < |rows[k / width]|
    && entries[k] == Entry(k / width, k % width, rows[k / width][k % width])
  }

  lemma StackAt(rows: Wide, width: nat, k: nat)
    requires width > 0 && Rectangular(rows, width) && k < |rows| * width
    ensures EntryAt(Stack(rows), rows, width, k)
  {
    DivSplit(k, width, |rows|);
    StackCell(rows, width, k / width, k % width);
  }

  class Game {
    /** The dice, shared with the caller and never changed by the game. */
    const dice: seq<Die>
    /** The wide table of the most recent play; None before the first. */
    var results: Option<Wide>

    ghost predicate Valid()
      reads this
    {
      results.Some? ==>
        Rectangular(results.value, |dice|) && (|dice| == 0 ==> results.value == [])
    }

    constructor (dice: seq<Die>)
      ensures Valid()
      ensures this.dice == dice && results == None
    {
      this.dice := dice;
      results := None;
    }

    /** play: rolls every die `n` times, in order, and replaces the table.
        Column `j` of the new table is die `j`'s draws. The first die that
        cannot be rolled stops the play and the previous table stays. */
    method Play(n: nat) returns (r: Result<()>, ghost columns: seq<seq<Face>>)
      requires Valid()
      requires forall d :: d in dice ==> d.Valid()
      modifies this
      ensures Valid()
      ensures r.Err? <==> exists j :: 0 <= j < |dice| && |dice[j].faces| == 0
      ensures r.Err? ==> r.error == NoViableOutcome && results == old(results)
      ensures r.Ok? ==>
        && |columns| == |dice|
        && (forall j :: 0 <= j < |dice| ==> |columns[j]| == n && dice[j].IsDraw(n, columns[j]))
        && results == Some(FromColumns(columns, n))
    {
      var cols: seq<seq<Face>> := [];
      var j := 0;
      while j < |dice|
        invariant 0 <= j <= |dice| && |cols| == j
        invariant forall i :: 0 <= i < j ==> dice[i].IsDraw(n, cols[i])
        invariant forall i :: 0 <= i < j ==> |dice[i].faces| > 0
        invariant results == old(results)
      {
        var drawn := dice[j].Roll(n);
        if drawn.Err? {
          return Err(drawn.error), cols;
        }
        cols := cols + [drawn.value];
        j := j + 1;
      }
      results := Some(FromColumns(cols, n));
      return Ok(()), cols;
    }

    /** show: nothing before the first play, whatever the form; then the
        wide table for "wide", the default, its stacked form for "narrow",
        and InvalidFormat for any other form. */
    function Show(form: string := "wide"): (r: Result<Option<Shown>>)
      reads this
      requires Valid()
      ensures results.None? ==> r == Ok(None)
      ensures results.Some? && form == "wide" ==> r == Ok(Some(WideForm(results.value)))
      ensures results.Some? && form == "narrow" ==>
        r.Ok? && r.value.Some? && r.value.value.NarrowForm? &&
        |r.value.value.entries| == |results.value| * |dice|
      ensures results.Some? && form == "narrow" && |dice| > 0 ==>
        forall k :: 0 <= k < |r.value.value.entries| ==>
          EntryAt(r.value.value.entries, results.value, |dice|, k)
      ensures results.Some? && form != "wide" && form != "narrow" ==> r == Err(InvalidFormat)
    {
      if results.None? then Ok(None)
      else if form == "wide" then Ok(Some(WideForm(results.value)))
      else if form == "narrow" then
        var rows := results.value;
        StackIndexing(rows, |dice|);
        Ok(Some(NarrowForm(Stack(rows))))
      else Err(InvalidFormat)
    }
  }

  lemma StackIndexing(rows: Wide, width: nat)
    requires Rectangular(rows, width)
    ensures |Stack(rows)| == |rows| * width
    ensures width > 0 ==> forall k :: 0 <= k < |Stack(rows)| ==> EntryAt(Stack(rows), rows, width, k)
  {
    StackLength(rows, width);
    if width > 0 {
      forall k | 0 <= k < |Stack(rows)| ensures EntryAt(Stack(rows), rows, width, k) {
        StackAt(rows, width, k);
      }
    }
  }
}
