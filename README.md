# strdiffs in Dafny

A model of the two dynamic-programming algorithms in strdiffs, with proofs about them.

- **Levenshtein edit distance** (`src/levenshtein.rs`, module `Levenshtein`). Three versions are modelled:
  - the full-grid version `vecvec_lev`, filling an `array2`;
  - the two-row version `twovec_lev`, which uses two `array` buffers that swap roles by row parity and are written in place by the free `fill_row`;
  - the weighted `Differencer`, which runs the same two-row scheme with insert, delete and substitution weights.
- **Needleman-Wunsch global alignment** (`src/global_alignment.rs`, module `GlobalAlignment`). Two parts are modelled:
  - the table fill of `vecvec_nw`, over the table kept as a vector of rows (`seq<seq<int>>`, reassigned cell by cell);
  - the traceback `walk_back`, as a single-cursor loop that pushes one column per step onto two buffers and reverses them at the end.

Each loop is proved against a recursive function of the inputs:
- `Lev` gives the unit-cost table.
- `Differencer.Cell` gives the weighted table.
- `Nw` gives the alignment table.
- `Trace` gives the traceback.

Properties of these functions are then proved as lemmas:
- symmetry;
- length bounds;
- the standard weights reducing to unit costs;
- the traceback emitting a true alignment whose score is the table's and which no other alignment beats;
- the tests' concrete values.

In every table, row `r` stands for the first `r` characters of the target and column `c` for the first `c` characters of the source, as in the source.

Strings are `seq<char>`. The source takes byte lengths (`len()`) as character counts, so the model is stated for ASCII text, where the two agree.

The weighted `Differencer` is asymmetric, and the model keeps that:
- `insert` weights the base row and the move from above;
- `delete` weights the base column and the move from the left.

Insert and delete weigh different moves, so the score is not symmetric in general: `CellTransposes` shows that exchanging the inputs is the same as exchanging the two weights, and `ScoreAsymmetricWhenInsertIsNotDelete` gives inputs whose score changes with their order.

The constructors `Differencer::new` and `SimpleScoringSystem::new` are the datatypes' own constructors, and `Differencer::standard` is `Differencer.Standard`.

## Model

| member | source | states |
|---|---|---|
| Levenshtein.FillRow | src/levenshtein.rs:80-91 | Cells 1..\|src\| of the current row each become the minimum of left + 1, above + 1 and diagonal + (0 when the characters agree, else 1). Cell 0 and all later cells keep their old values. The previous row is not written. |
| Levenshtein.FilledRowIsLevRow | src/levenshtein.rs:80-91 | A row written by `fill_row` over row r-1 of the table, with r in cell 0, is row r of the unit-cost table. |
| Levenshtein.TwovecLev | src/levenshtein.rs:93-128 | Returns cell (\|target\|, \|src\|) of the unit-cost table. The loop invariant is that the buffer picked by `last_row` (the parity of the row) holds the current row of the table. |
| Levenshtein.FillLevGrid | src/levenshtein.rs:134-158 | The grid has \|target\|+1 rows and \|src\|+1 columns. Its base row and base column hold their index, every interior cell is the minimum of its three moves, and every cell equals the matching cell of `Lev`. |
| Levenshtein.VecvecLev | src/levenshtein.rs:130-166 | Returns the bottom-right cell of the full grid, which is `Lev` of the two lengths. This is the same value TwovecLev returns. |
| Levenshtein.LevIdentical | src/levenshtein.rs:173-179 | A string is at distance 0 from itself. This is the value for identical inputs under both strategies (see also lines 206-212). |
| Levenshtein.LevAtMostLonger | src/levenshtein.rs:224-236 | The distance is at most the longer length. With one side empty it is at most the other side's length. |
| Levenshtein.LevAtLeastLengthGap | src/levenshtein.rs:191-203 | The distance is at least the difference of the lengths. Together with LevAtMostLonger, an empty side gives exactly the other side's length. |
| Levenshtein.LevSymmetric | src/levenshtein.rs:150-155 | The unit-cost distance of src against target equals that of target against src. |
| Levenshtein.AbcBcaIsTwo | src/levenshtein.rs:182-188 | "abc" against "bca" is at distance 2. The two strategies return this value, as the tests at lines 182-188 and 215-221 expect. |
| Levenshtein.Differencer.FillRow | src/levenshtein.rs:62-77 | Cells 1..\|src\| each become the minimum of left + `delete`, above + `insert` and diagonal + (0 or `substitution`). Cell 0 and later cells are unchanged. |
| Levenshtein.Differencer.FilledRowIsCellRow | src/levenshtein.rs:62-77 | A row written over row r-1 with r * `delete` in cell 0 is row r of the weighted table. |
| Levenshtein.Differencer.Score | src/levenshtein.rs:28-60 | Returns cell (\|target\|, \|source\|) of the weighted table. An empty target scores \|source\| * `insert`. An empty source scores \|target\| * `delete`. |
| Levenshtein.CellTransposes | src/levenshtein.rs:35-74 | Exchanging source and target is the same as exchanging the `insert` and `delete` weights: each table is the transpose of the other. |
| Levenshtein.ScoreSymmetricWhenInsertIsDelete | src/levenshtein.rs:28-77 | With `insert` == `delete`, the weighted score does not depend on which string is the source. |
| Levenshtein.ScoreAsymmetricWhenInsertIsNotDelete | src/levenshtein.rs:36-48 | With weights (1, 2, 1), "a" against "" scores 1 but "" against "a" scores 2. |
| Levenshtein.Differencer.Standard | src/levenshtein.rs:12-18 | The `standard()` preset weighs insertion, deletion and substitution at 1 each, as the test at lines 239-244 expects. |
| Levenshtein.StandardIsLev | src/levenshtein.rs:12-18 | With the `standard()` weights (1, 1, 1), every cell of the weighted table is the unit-cost cell, so `score` equals `twovec_lev`. |
| Levenshtein.StandardAbcBcaIsTwo | src/levenshtein.rs:247-254 | `Differencer::standard()` scores "abc" against "bca" as 2. |
| GlobalAlignment.FillNwGrid | src/global_alignment.rs:118-142 | The table is a Needleman-Wunsch table. Its base row and column hold index * `indel`, every interior cell is the maximum of left + `indel`, above + `indel` and diagonal + (`same` or `diff`), and every cell equals the matching cell of `Nw`. |
| GlobalAlignment.NwTableFromCells | src/global_alignment.rs:121-142 | A table of the right shape whose cells are those of `Nw` satisfies the base cases and the recurrence. |
| GlobalAlignment.VecvecNw | src/global_alignment.rs:114-154 | Returns the bottom-right cell, `Nw` of the two lengths. |
| GlobalAlignment.BaseSteps | src/global_alignment.rs:121-126 | Along the base column each cell is the one above plus `indel`. Along the base row each cell is the one to its left plus `indel`. |
| GlobalAlignment.ChooseMove | src/global_alignment.rs:82-100 | The chosen move never leaves the table: a diagonal only when row and column are both positive, a move from above only when the row is positive, and a move from the left only when the column is positive. So on a table built by `vecvec_nw` the move from the left is never taken in column 0, where the move from above always fits. |
| GlobalAlignment.WalkBack | src/global_alignment.rs:52-110 | The cursor loop ends at (0, 0). The reversed buffers are the traceback `Trace` and have equal length. When '-' occurs in neither input, the result aligns the two inputs, scores the bottom-right cell, and no alignment scores more. |
| GlobalAlignment.TraceShape | src/global_alignment.rs:86-99 | Every step pushes one character onto each buffer. The two strings have equal length, between the longer prefix and the sum of both. |
| GlobalAlignment.TraceIsAlignment | src/global_alignment.rs:86-99 | Removing the gaps from the traceback's strings gives back the source and target prefixes, and no column has two gaps. |
| GlobalAlignment.TraceScore | src/global_alignment.rs:82-100 | The traceback's alignment scores exactly the table cell it starts from. |
| GlobalAlignment.NwIsOptimal | src/global_alignment.rs:129-142 | No alignment of two prefixes scores more than the table cell for them. |
| GlobalAlignment.Dominates | src/global_alignment.rs:136-140 | Each cell is at least each of the moves into it. |
| GlobalAlignment.TraceIsBest | src/global_alignment.rs:52-110 | The traceback from the bottom-right cell is a best alignment of the two inputs when '-' occurs in neither. |
| GlobalAlignment.Reverse | src/global_alignment.rs:106-109 | The reversed buffer has the same length and reads the characters in the opposite order. |
| GlobalAlignment.WrittenChooseMove | src/global_alignment.rs:78-100 | As written, the up-left cell is read before the guard, so the step fails on the base row or base column. The diagonal is taken exactly when the cell is the up-left cell plus `same` or plus `diff`. |
| GlobalAlignment.WrittenPush | src/global_alignment.rs:86-98 | As written, the move from above takes a character from the source iterator, and the move from the left takes one from the target iterator. The step fails when that iterator is exhausted. |
| GlobalAlignment.WrittenReadsAboveTable | src/global_alignment.rs:80 | For "a" against "", the as-written step fails at the start cell, while the corrected traceback gives ("a", "-"). |
| GlobalAlignment.WrittenDiagonalIgnoresCharacters | src/global_alignment.rs:82 | For "ab" against "a", the as-written test takes the diagonal at cell (1, 2), although 'a' and 'b' differ and the cell was not built from that move. |
| GlobalAlignment.WrittenUpTakesFromSource | src/global_alignment.rs:92 | For "ab" against "ba", the as-written step at the start cell (2, 2) passes both guards, moves up and pushes the source's 'b' over a gap. The corrected traceback moves up too but ends with a gap over the target's 'a'. |
| GlobalAlignment.SameStringScoresLength | src/global_alignment.rs:160-167 | Under (1, -1, -1), "abc" aligned with itself scores 3, its length. |
| GlobalAlignment.WikipediaExampleScoresZero | src/global_alignment.rs:170-179 | Under (1, -1, -1), "GCATGCG" against "GATTACA" scores 0. |

## Left out

- Benchmarks: the benchmark harness `benches/my_benchmark.rs` is not modelled. It only times calls into the library.
- Tracing: all `println!` output is left out. It has no effect on results.
- `VecvecNw` discards the alignment that `WalkBack` returns. The source only prints it.
- Float weights: `Differencer` uses `int` weights instead of `f32`, so rounding, NaN and infinities are not modelled.
- Overflow: integers are unbounded. Overflow of `usize` cells and of `i32` products and sums (`ii as i32 * ss.indel` and the cell sums) is not modelled.
- Non-ASCII text: strings are sequences of characters, and the ASCII assumption makes byte length and character count agree. For non-ASCII input the source reads cells its loops never wrote. That case is not modelled.
- The `walk_back` work queue: the `VecDeque<AlignmentNode>` queue and `Vec<Alignment>` store (src/global_alignment.rs:66-77, 84) are replaced by a single cursor loop. As written:
  - line 84 destructures a struct as a tuple, so the function does not compile;
  - the queue receives one node and is never refilled, so the loop body would run at most once.

  The defects of one step are modelled separately; see Findings.
- WalkBack: the alignment and optimality promises are stated only for inputs that contain no '-'. A '-' in the input cannot be told apart from a gap.
- Only symmetry and the length bounds are proved about the distances. Other metric laws, such as the triangle inequality, are not proved.

## Findings

| source | as written | input that shows it | evidently intended | confidence | as-written member | corrected member |
|---|---|---|---|---|---|---|
| src/global_alignment.rs:80 | reads `vecvec[ii - 1][jj - 1]` before the `ii > 0 && jj > 0` guard of line 82, so the index underflows on the base row or base column | src "a", target "" (the traceback starts in cell (0, 1)) | test the guard first and read the neighbours only when they exist | not executed | GlobalAlignment.WrittenReadsAboveTable | GlobalAlignment.ChooseMove |
| src/global_alignment.rs:82 | takes the diagonal when the cell equals the up-left cell plus `same` or plus `diff`, whether or not the two characters agree | src "ab", target "a", rewards (1, -1, -1), cell (1, 2) | compare with the up-left cell plus `same` when the characters agree and plus `diff` otherwise | not executed | GlobalAlignment.WrittenDiagonalIgnoresCharacters | GlobalAlignment.TraceScore |
| src/global_alignment.rs:92-98 | the move from above (one target character used) pushes a source character over a gap, and the move from the left (one source character used) pushes a gap over a target character | src "ab", target "ba", rewards (1, -1, -1): at the start cell (2, 2) the written step moves up and pushes ('b', '-'), while the column used is ('-', 'a') | the move from above writes a gap over the target character, and the move from the left writes the source character over a gap | not executed | GlobalAlignment.WrittenUpTakesFromSource | GlobalAlignment.TraceIsAlignment |
