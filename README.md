# Monte Carlo dice simulator — a verified Dafny model

This project models `montecarlo.py`, a small library that simulates dice.
It has three classes, each built on the one before it:

- **Die**: an ordered list of distinct faces, each with a mutable weight that starts at 1.0.
  `change_weight` overwrites one face's weight, `roll(n)` draws `n` faces with replacement,
  and `show` returns the face/weight table.
- **Game**: a list of dice. `play(n)` rolls every die `n` times and replaces the results
  table. The table has one row per roll and one column per die. `show` returns the table in
  wide form or in narrow (roll, die, face) form.
- **Analyzer**: takes a snapshot of a played game's wide table. From it, it computes the
  jackpot count, per-roll face counts, combination counts and permutation counts.

The pandas containers become sequences and maps. Die and Game change state in place, so
they are Dafny classes with `modifies` clauses. The Analyzer never changes after it is
built, so its queries are functions over the snapshot rows, with lemmas about them.

Files:

- `basics.dfy` (module `Basics`): the face type, the error kinds, result wrappers, and the
  duplicate-face test.
- `die.dfy` (module `Dice`): class `Die`.
- `game.dfy` (module `Games`): class `Game`, and the wide-to-narrow stacking with its
  indexing lemmas.
- `counting.dfy` (module `Counting`): occurrence counts, sums, and `value_counts` as a
  table of (key, count) entries.
- `sorting.dfy` (module `Sorting`): `sorted`, which gives a row's combination key.
- `analyzer.dfy` (module `Analysis`): class `Analyzer` and the statistics over rows.

In these edge cases the model follows what the code does:

- A game with no dice is accepted. Playing it gives a table with no rows, because a
  DataFrame built from no columns has no rows.
- `roll(0)` on a die with at least one face is accepted and returns an empty list. A die
  with no faces fails for every roll count, `roll(0)` included: for every non-negative
  count, the sampler rejects weights that sum to zero, and an empty die's weights do.
- `show` on an unplayed game returns nothing, even when the form is invalid, because the
  "not played" test comes first.
- An Analyzer needs a played game. On an unplayed game the constructor stores `None`, and
  every query then fails with an `AttributeError`. The model makes "played" a precondition
  of the constructor.

## Model

| member | source | states |
|---|---|---|
| `Basics.CardinalityDetectsDuplicates` | montecarlo.py:27-28 | the test `len(faces) != len(set(faces))` holds exactly when two faces are equal; `set(faces)` is never larger than `faces` |
| `Dice.Die.constructor` | montecarlo.py:30-32 | the die's faces are the input faces, in input order, and every face has weight 1.0 |
| `Dice.Die.Create` | montecarlo.py:16-32 | fails with DuplicateValue exactly when two faces are equal; otherwise gives a fresh valid die whose faces are the input, in order, each with weight 1.0 |
| `Dice.Die.ChangeWeight` | montecarlo.py:34-50 | fails with UnknownFace exactly when the face is not a face of the die, and then changes nothing; otherwise the face's weight becomes the new value, `Show` reports it, and every other face keeps its weight; the face set never changes |
| `Dice.Die.Roll` | montecarlo.py:52-60 | `n` defaults to 1; returns exactly `n` faces, each one of the die's faces; fails with NoViableOutcome exactly when the die has no faces, whatever `n` is |
| `Dice.Die.IsDraw` | montecarlo.py:60 | what `sample(n=..., replace=True).index` can return: exactly `n` values, each one of the die's faces; `Roll`'s result satisfies it |
| `Dice.Die.Show` | montecarlo.py:62-68 | one row per face, in face order, each holding that face's current weight |
| `Dice.ShowRowOfFace` | montecarlo.py:62-68 | every face has a row in the table with its current weight, and any row for that face holds that weight |
| `Games.FromColumns` | montecarlo.py:93-94 | the table built from the per-die draws has `n` rows (none if there are no dice), one cell per die in each row, and cell (i, j) is draw i of die j |
| `Games.Game.constructor` | montecarlo.py:76-83 | the game holds the given dice and has no results yet |
| `Games.Game.Play` | montecarlo.py:85-94 | on success the table is replaced by one whose column j is a possible `roll(n)` of die j; the old table is discarded, not extended; it fails exactly when some die has no faces, whatever `n` is, and then the previous table stays |
| `Games.Game.Show` | montecarlo.py:96-114 | the form defaults to "wide"; gives nothing before any play, whatever the form; "wide" gives the table itself; "narrow" gives rows × dice entries, where entry k is (k / dice, k % dice, the cell there); any other form fails with InvalidFormat |
| `Games.Stack` | montecarlo.py:112 | `stack()` of the wide table: its cells row by row, each row in die order, tagged (roll, die); `StackIndexing` proves its length and entry k |
| `Games.StackIndexing` | montecarlo.py:112 | the stack of a rectangular table has rows × width entries, and with at least one die entry k is (k / width, k % width, the cell there) |
| `Games.StackLength` | montecarlo.py:112 | stacking a rectangular table gives rows × width entries |
| `Games.StackCell` | montecarlo.py:112 | cell (i, j) of the wide table is entry `i * width + j` of the narrow table, tagged (i, j) |
| `Games.StackAt` | montecarlo.py:112 | narrow entry k is roll k / width, die k % width, with the wide table's cell at that position |
| `Analysis.Analyzer.constructor` | montecarlo.py:122-133 | the snapshot is the played game's wide table, with one column per die of the game |
| `Analysis.IsJackpot` | montecarlo.py:141 | `nunique(axis=1) == 1`: the row has exactly one distinct value; `JackpotIffUniform` proves it means a non-empty row of equal cells |
| `Analysis.JackpotIffUniform` | montecarlo.py:141 | a row has exactly one distinct value exactly when it is non-empty and every cell equals the first |
| `Analysis.CountJackpots` | montecarlo.py:141 | the jackpot count is at most the number of rows |
| `Analysis.JackpotsAreUniformRows` | montecarlo.py:141 | the jackpot count equals the number of rows whose cells are all equal |
| `Analysis.AllJackpotsIffUniform` | montecarlo.py:141 | every row is a jackpot exactly when every row is uniform |
| `Analysis.SingleDieAlwaysJackpot` | montecarlo.py:141 | with a single die, the jackpot count equals the number of rows |
| `Analysis.Analyzer.Jackpot` | montecarlo.py:135-141 | the number of uniform rows; at most the number of rows; equal to it exactly when all rows are uniform, and always equal to it with one die |
| `Analysis.Dedup` | montecarlo.py:149 | the face columns are distinct and are exactly the faces that occur in the snapshot |
| `Counting.TallySum` | montecarlo.py:149 | counting a row against a repeat-free face list that covers the row gives counts that add up to the row's length |
| `Analysis.TallyFaces` | montecarlo.py:149 | the face-count table: the faces seen anywhere, without repeats, and per roll each face's occurrences; `FaceCountsRowSum` and `Analyzer.FaceCounts` state its properties |
| `Analysis.FaceCountsRowSum` | montecarlo.py:149 | each row of the face-count table adds up to the number of cells in that roll |
| `Analysis.Analyzer.FaceCounts` | montecarlo.py:143-149 | one row per roll; one column per face seen anywhere in the snapshot, with no face repeated; each entry is that face's occurrences in the roll, which is 0 exactly when the face is absent; each row adds up to the number of dice |
| `Counting.ValueCounts` | montecarlo.py:158 | `value_counts` of a list of keys, one (key, count) entry per distinct key; its properties are proved by `ValueCountsSpec` |
| `Counting.ValueCountsSpec` | montecarlo.py:158 | value_counts gives each distinct key once, exactly the keys that occur, each with a positive count equal to its occurrences, and the counts add up to the length of the input |
| `Sorting.Sort` | montecarlo.py:157 | a combination key is in ascending order and holds the row's values with their multiplicities |
| `Sorting.SortKeepsSorted` | montecarlo.py:157 | sorting a row that is already in ascending order leaves it unchanged |
| `Sorting.SameCombinationIffPermutation` | montecarlo.py:157 | two rows have the same combination key exactly when one is a rearrangement of the other |
| `Analysis.Combinations` | montecarlo.py:157 | one key per roll, in roll order; key i is the sorted roll i, ascending and with the roll's values and multiplicities |
| `Analysis.CountCombinations` | montecarlo.py:157-158 | `value_counts` of the combination keys; `Analyzer.ComboCounts` states its keys, counts and total |
| `Analysis.CountPermutations` | montecarlo.py:166-167 | `value_counts` of the rolls themselves, in die order; `Analyzer.PermutationCounts` states its keys, counts and total |
| `Analysis.SortedRowKeysCoincide` | montecarlo.py:157 | for a row already in ascending order, the combination key equals the row, which is its permutation key |
| `Analysis.CombinationKeysSorted` | montecarlo.py:157-158 | every key of the combination table is in ascending order |
| `Analysis.CombinationCountsCoverPermutations` | montecarlo.py:151-167 | a combination's count is at least the count of any one ordering of it |
| `Analysis.Analyzer.ComboCounts` | montecarlo.py:151-158 | distinct, sorted keys; positive counts; a key's count is the number of rolls that sort to it; the counts add up to the number of rolls |
| `Analysis.Analyzer.PermutationCounts` | montecarlo.py:160-167 | distinct keys, which are exactly the rolls that occur; positive counts; a key's count is the number of equal rolls; the counts add up to the number of rolls |

## Left out

- The probability distribution of `roll`. `DataFrame.sample` with weights draws in proportion to the weights. That randomness is inside the library, so the model makes a nondeterministic choice among the faces. As a result, a face with weight 0 can still be drawn in the model.
- Dice.Die.Roll: does not model the pandas error when every weight is zero, or when a weight is negative. Both need the weights in the sampler, which the model does not use.
- Games.Game.Play: for the same reason, does not fail when a die has faces but every weight is zero or a weight is negative. `play` calls `roll`, so the library raises there too.
- The `float(new_weight)` coercion and its `TypeError`. Weights are `real`, and the new weight is taken as already numeric.
- Faces are integers. The library accepts any values that can be sorted, such as strings. Combination keys need an ordering, so the model uses `int`.
- The `isinstance` checks on the faces array and on the game. Dafny's types make them vacuous.
- The `_weights` array kept beside the die's table. It is never read after construction, so only the table is modelled.
- The roll counts are `nat`. The pandas error for a negative roll count is outside the model's types.
- DataFrame details: the `Die_i` and `Roll`/`Die`/`Face` column labels, index objects, and float counts after `fillna`.
- Output order. `value_counts` sorts by frequency and leaves ties unspecified, and the face-count columns come in pandas' union order. The face-count columns use first-appearance order. The combination and permutation tables list their keys in first-appearance order counted from the last roll. No contract depends on order.
- An Analyzer built on a game that was never played. It is a precondition of the constructor.
- The Analyzer's own reference to the game. It is kept, but no query reads it beyond the number of dice.
- Analysis.Analyzer.FaceCounts: after `play(0)` on a game with at least one die, the library returns the empty table with the die columns (`Die_0`, ...), because pandas' row-wise apply on an empty frame copies the frame. The model's table has no rows and no face columns. No count differs; only the labels of an empty table do.
- Games.Game.constructor: the library keeps the caller's list itself, so a die the caller appends to that list after building the game is rolled by the next `play`. The model keeps the list as a value; the `Die` objects in it stay shared. No operation of the model relies on this aliasing.
