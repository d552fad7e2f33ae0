/** Needleman-Wunsch global alignment: a table of best alignment scores under a
    maximising policy, and a traceback that reads one best alignment off it.

    As in the edit-distance tables, row `row` stands for the first `row`
    characters of the target and column `col` for the first `col` characters
    of the source. Strings are sequences of characters; the source program
    measures them in bytes, which agrees with |s| for ASCII text. */
module GlobalAlignment {

  datatype Option<T> = None | Some(value: T)

  /** Rewards for a pair of equal characters (`same`), a pair of different
      characters (`diff`) and a character against a gap (`indel`).
      The source's `SimpleScoringSystem::new` is this constructor. */
  datatype SimpleScoringSystem = SimpleScoringSystem(same: int, diff: int, indel: int)

  /** The character written on the side of an alignment that has a gap. */
  const Gap: char := '-'

  function Max(a: int, b: int): int {
    if a >= b then a else b
  }

  /** Reward of the diagonal move: `same` when the characters agree, `diff` otherwise. */
  function MatchScore(ss: SimpleScoringSystem, tChar: char, sChar: char): int {
    if tChar == sChar then ss.same else ss.diff
  }

  /** Cell (row, col) of the score table: the base row and base column hold
      index * indel, every interior cell is the best of the move from the left,
      the move from above (both add `indel`) and the diagonal move. */
  function Nw(ss: SimpleScoringSystem, src: string, target: string, row: nat, col: nat): int
    requires row <= |target| && col <= |src|
    decreases row + col
  {
    if row == 0 then col * ss.indel
    else if col == 0 then row * ss.indel
    else Max(Max(Nw(ss, src, target, row, col - 1) + ss.indel, Nw(ss, src, target, row - 1, col) + ss.indel),
             Nw(ss, src, target, row - 1, col - 1) + MatchScore(ss, target[row - 1], src[col - 1]))
  }

  /** A table as the source keeps it: a vector of rows. */
  type Table = seq<seq<int>>

  /** `g` has one row per target prefix and one column per source prefix. */
  ghost predicate IsShaped(g: Table, src: string, target: string) {
    |g| == |target| + 1 && forall row :: 0 <= row < |g| ==> |g[row]| == |src| + 1
  }

  /** Interior cell (row, col) of `g` is the best of its three predecessor moves. */
  ghost predicate TableStep(ss: SimpleScoringSystem, g: Table, src: string, target: string, row: nat, col: nat)
    requires IsShaped(g, src, target)
    requires 1 <= row <= |target| && 1 <= col <= |src|
  {
    g[row][col] == Max(Max(g[row][col - 1] + ss.indel, g[row - 1][col] + ss.indel),
                       g[row - 1][col - 1] + MatchScore(ss, target[row - 1], src[col - 1]))
  }

  /** `g` is a Needleman-Wunsch table of `src` against `target`, stated cell by
      cell: base row and column hold index * indel, and every interior cell
      follows the recurrence over its neighbours. */
  ghost predicate IsNwTable(ss: SimpleScoringSystem, g: Table, src: string, target: string) {
    && IsShaped(g, src, target)
    && (forall col :: 0 <= col <= |src| ==> g[0][col] == col * ss.indel)
    && (forall row :: 0 <= row <= |target| ==> g[row][0] == row * ss.indel)
    && (forall row, col :: 1 <= row <= |target| && 1 <= col <= |src| ==> TableStep(ss, g, src, target, row, col))
  }

  /** The table filled by the source's `vecvec_nw`: a Needleman-Wunsch table
      whose every cell is the corresponding cell of Nw. */
  method FillNwGrid(ss: SimpleScoringSystem, src: string, target: string) returns (grid: Table)
    ensures IsNwTable(ss, grid, src, target)
    ensures forall row, col {:trigger grid[row][col]} :: 0 <= row <= |target| && 0 <= col <= |src| ==>
      grid[row][col] == Nw(ss, src, target, row, col)
  {
    var width := |src|;
    var height := |target|;
    grid := seq(height + 1, _ => seq(width + 1, _ => 0));

    // base cases
    for ii := 0 to width + 1
      invariant IsShaped(grid, src, target)
      invariant forall c {:trigger grid[0][c]} :: 0 <= c < ii ==> grid[0][c] == Nw(ss, src, target, 0, c)
    {
      grid := grid[0 := grid[0][ii := ii * ss.indel]];
    }
    for ii := 0 to height + 1
      invariant IsShaped(grid, src, target)
      invariant forall r, c {:trigger grid[r][c]} :: 0 <= r <= height && 0 <= c <= width && (r == 0 || (c == 0 && r < ii)) ==>
        grid[r][c] == Nw(ss, src, target, r, c)
    {
      grid := grid[ii := grid[ii][0 := ii * ss.indel]];
    }

    // fill in table
    for ii := 0 to height
      invariant IsShaped(grid, src, target)
      invariant forall r, c {:trigger grid[r][c]} :: 0 <= r <= height && 0 <= c <= width && (r <= ii || c == 0) ==>
        grid[r][c] == Nw(ss, src, target, r, c)
    {
      var row := ii + 1;
      for jj := 0 to width
        invariant IsShaped(grid, src, target)
        invariant forall r, c {:trigger grid[r][c]} :: 0 <= r <= height && 0 <= c <= width && (r <= ii || (r == row && c <= jj) || c == 0) ==>
          grid[r][c] == Nw(ss, src, target, r, c)
      {
        var col := jj + 1;
        var matchCost := if target[ii] == src[jj] then ss.same else ss.diff;
        var indelLeftCost := grid[row][col - 1] + ss.indel;
        var indelUpCost := grid[row - 1][col] + ss.indel;
        var diagCost := grid[row - 1][col - 1] + matchCost;
        NwUnfold(ss, src, target, row, col, grid[row][col - 1], grid[row - 1][col], grid[row - 1][col - 1]);
        ghost var before := grid;
        grid := grid[row := grid[row][col := Max(Max(indelLeftCost, indelUpCost), diagCost)]];
        forall r, c | 0 <= r <= height && 0 <= c <= width && (r <= ii || (r == row && c <= col) || c == 0)
          ensures grid[r][c] == Nw(ss, src, target, r, c)
        {
          if r != row || c != col {
            assert grid[r][c] == before[r][c];
          }
        }
      }
    }
    NwTableFromCells(ss, grid, src, target);
  }

  /** An interior cell of Nw from the values of its three neighbours. */
  lemma NwUnfold(ss: SimpleScoringSystem, src: string, target: string, row: nat, col: nat, left: int, up: int, diag: int)
    requires 1 <= row <= |target| && 1 <= col <= |src|
    requires left == Nw(ss, src, target, row, col - 1)
    requires up == Nw(ss, src, target, row - 1, col)
    requires diag == Nw(ss, src, target, row - 1, col - 1)
    ensures Nw(ss, src, target, row, col)
         == Max(Max(left + ss.indel, up + ss.indel), diag + MatchScore(ss, target[row - 1], src[col - 1]))
  {
  }

  /** A shaped table whose every cell is the matching cell of Nw is a
      Needleman-Wunsch table. */
  lemma NwTableFromCells(ss: SimpleScoringSystem, g: Table, src: string, target: string)
    requires IsShaped(g, src, target)
    requires forall row, col {:trigger g[row][col]} :: 0 <= row <= |target| && 0 <= col <= |src| ==>
      g[row][col] == Nw(ss, src, target, row, col)
    ensures IsNwTable(ss, g, src, target)
  {
    forall row, col | 1 <= row <= |target| && 1 <= col <= |src|
      ensures TableStep(ss, g, src, target, row, col)
    {
      assert g[row][col - 1] == Nw(ss, src, target, row, col - 1);
      assert g[row - 1][col] == Nw(ss, src, target, row - 1, col);
      assert g[row - 1][col - 1] == Nw(ss, src, target, row - 1, col - 1);
    }
  }

  /** The alignment score of `src` against `target`: fills the table, runs the
      traceback over it (whose result the source only prints) and returns the
      bottom-right cell. */
  method VecvecNw(ss: SimpleScoringSystem, src: string, target: string) returns (score: int)
    ensures score == Nw(ss, src, target, |target|, |src|)
  {
    var grid := FillNwGrid(ss, src, target);
    var aAlign, bAlign := WalkBack(ss, grid, src, target);
    // answer is final cell of grid
    score := grid[|grid| - 1][|grid[0]| - 1];
  }

  /** Along the base column each cell is the one above plus `indel`, along the
      base row each cell is the one to its left plus `indel`. */
  lemma BaseSteps(ss: SimpleScoringSystem, g: Table, src: string, target: string, row: nat, col: nat)
    requires IsNwTable(ss, g, src, target)
    requires row <= |target| && col <= |src|
    ensures 0 < row ==> g[row][0] == g[row - 1][0] + ss.indel
    ensures 0 < col ==> g[0][col] == g[0][col - 1] + ss.indel
  {
    assert row * ss.indel == (row - 1) * ss.indel + ss.indel;
    assert col * ss.indel == (col - 1) * ss.indel + ss.indel;
  }

  /** The three moves of the traceback. */
  datatype Move = Diagonal | Up | Left

  /** The move the traceback takes from cell (row, col) of a Needleman-Wunsch
      table, tried in a fixed order: the diagonal when the cell is reached from
      it, else the move from above when there is a row above and the cell is
      reached from it, else the move from the left. The move from the left is
      never chosen in column 0, because there the move from above always fits. */
  function ChooseMove(ss: SimpleScoringSystem, g: Table, src: string, target: string, row: nat, col: nat): (m: Move)
    requires IsNwTable(ss, g, src, target)
    requires row <= |target| && col <= |src| && (row > 0 || col > 0)
    ensures m == Diagonal ==> row > 0 && col > 0
    ensures m == Up ==> row > 0
    ensures m == Left ==> col > 0
  {
    if row > 0 && col > 0 && g[row][col] == g[row - 1][col - 1] + MatchScore(ss, target[row - 1], src[col - 1])
    then Diagonal
    else if row > 0 && g[row][col] == g[row - 1][col] + ss.indel
    then Up
    else
      assert col > 0 by {
        if col == 0 {
          BaseSteps(ss, g, src, target, row, col);
        }
      }
      Left
  }

  /** The alignment of the first `col` source characters against the first
      `row` target characters that the traceback from (row, col) produces,
      read left to right: the first string holds source characters and gaps,
      the second target characters and gaps. */
  function Trace(ss: SimpleScoringSystem, g: Table, src: string, target: string, row: nat, col: nat): (string, string)
    requires IsNwTable(ss, g, src, target)
    requires row <= |target| && col <= |src|
    decreases row + col
  {
    if row == 0 && col == 0 then ([], [])
    else match ChooseMove(ss, g, src, target, row, col)
      case Diagonal =>
        var t := Trace(ss, g, src, target, row - 1, col - 1);
        (t.0 + [src[col - 1]], t.1 + [target[row - 1]])
      case Up =>
        var t := Trace(ss, g, src, target, row - 1, col);
        (t.0 + [Gap], t.1 + [target[row - 1]])
      case Left =>
        var t := Trace(ss, g, src, target, row, col - 1);
        (t.0 + [src[col - 1]], t.1 + [Gap])
  }

  /** `s` read right to left. */
  function Reverse(s: string): (r: string)
    ensures |r| == |s|
    ensures forall k :: 0 <= k < |s| ==> r[k] == s[|s| - 1 - k]
  {
    if |s| == 0 then [] else [s[|s| - 1]] + Reverse(s[..|s| - 1])
  }

  lemma ReverseSnoc(s: string, c: char)
    ensures Reverse(s + [c]) == [c] + Reverse(s)
  {
    assert (s + [c])[..|s|] == s;
  }

  /** The traceback over a Needleman-Wunsch table: a cursor starts at the
      bottom-right cell and moves to (0, 0), each move pushing one column onto
      two buffers, which are reversed at the end. The result is Trace's
      alignment; when the gap character occurs in neither input it aligns
      the two strings and no alignment of them scores more. */
  method WalkBack(ss: SimpleScoringSystem, grid: Table, strA: string, strB: string)
    returns (upper: string, left: string)
    requires IsNwTable(ss, grid, strA, strB)
    ensures (upper, left) == Trace(ss, grid, strA, strB, |strB|, |strA|)
    ensures |upper| == |left|
    ensures Gap !in strA && Gap !in strB ==>
      IsAlignment(upper, left, strA, strB) && AlignScore(ss, upper, left) == grid[|strB|][|strA|]
    ensures Gap !in strA && Gap !in strB ==>
      forall a, b :: IsAlignment(a, b, strA, strB) ==> AlignScore(ss, a, b) <= AlignScore(ss, upper, left)
  {
    var upperAlign: string := [];
    var leftAlign: string := [];

    var jj: nat := |grid[0]| - 1;
    var ii: nat := |grid| - 1;

    ghost var whole := Trace(ss, grid, strA, strB, |strB|, |strA|);
    while ii != 0 || jj != 0
      invariant ii <= |strB| && jj <= |strA|
      invariant Trace(ss, grid, strA, strB, ii, jj).0 + Reverse(upperAlign) == whole.0
      invariant Trace(ss, grid, strA, strB, ii, jj).1 + Reverse(leftAlign) == whole.1
      decreases ii + jj
    {
      var cellScore := grid[ii][jj];
      if ii > 0 && jj > 0 && cellScore == grid[ii - 1][jj - 1] + MatchScore(ss, strB[ii - 1], strA[jj - 1]) {
        DiagonalPushes(ss, grid, strA, strB, ii, jj, upperAlign, leftAlign, whole);
        upperAlign := upperAlign + [strA[jj - 1]];
        leftAlign := leftAlign + [strB[ii - 1]];
        ii := ii - 1;
        jj := jj - 1;
      } else if ii > 0 && cellScore == grid[ii - 1][jj] + ss.indel {
        UpPushes(ss, grid, strA, strB, ii, jj, upperAlign, leftAlign, whole);
        upperAlign := upperAlign + [Gap];
        leftAlign := leftAlign + [strB[ii - 1]];
        ii := ii - 1;
      } else {
        LeftPushes(ss, grid, strA, strB, ii, jj, upperAlign, leftAlign, whole);
        upperAlign := upperAlign + [strA[jj - 1]];
        leftAlign := leftAlign + [Gap];
        jj := jj - 1;
      }
    }

    upper := Reverse(upperAlign);
    left := Reverse(leftAlign);
    TraceFromOrigin(ss, grid, strA, strB, upper, left, whole);
    TraceIsBest(ss, grid, strA, strB);
  }

  /** A diagonal step of the traceback: pushing the two characters onto the
      reversed buffers and moving up-left keeps the traceback from the cursor
      followed by the buffers read backwards unchanged. */
  lemma DiagonalPushes(ss: SimpleScoringSystem, g: Table, src: string, target: string, row: nat, col: nat,
                       u: string, l: string, whole: (string, string))
    requires IsNwTable(ss, g, src, target)
    requires 0 < row <= |target| && 0 < col <= |src|
    requires g[row][col] == g[row - 1][col - 1] + MatchScore(ss, target[row - 1], src[col - 1])
    requires Trace(ss, g, src, target, row, col).0 + Reverse(u) == whole.0
    requires Trace(ss, g, src, target, row, col).1 + Reverse(l) == whole.1
    ensures Trace(ss, g, src, target, row - 1, col - 1).0 + Reverse(u + [src[col - 1]])
         == whole.0
    ensures Trace(ss, g, src, target, row - 1, col - 1).1 + Reverse(l + [target[row - 1]])
         == whole.1
  {
    ReverseSnoc(u, src[col - 1]);
    ReverseSnoc(l, target[row - 1]);
  }

  /** A step from above: a gap against the target character. */
  lemma UpPushes(ss: SimpleScoringSystem, g: Table, src: string, target: string, row: nat, col: nat,
                 u: string, l: string, whole: (string, string))
    requires IsNwTable(ss, g, src, target)
    requires 0 < row <= |target| && col <= |src|
    requires !(0 < col && g[row][col] == g[row - 1][col - 1] + MatchScore(ss, target[row - 1], src[col - 1]))
    requires g[row][col] == g[row - 1][col] + ss.indel
    requires Trace(ss, g, src, target, row, col).0 + Reverse(u) == whole.0
    requires Trace(ss, g, src, target, row, col).1 + Reverse(l) == whole.1
    ensures Trace(ss, g, src, target, row - 1, col).0 + Reverse(u + [Gap])
         == whole.0
    ensures Trace(ss, g, src, target, row - 1, col).1 + Reverse(l + [target[row - 1]])
         == whole.1
  {
    ReverseSnoc(u, Gap);
    ReverseSnoc(l, target[row - 1]);
  }

  /** A step from the left: the source character against a gap. */
  lemma LeftPushes(ss: SimpleScoringSystem, g: Table, src: string, target: string, row: nat, col: nat,
                   u: string, l: string, whole: (string, string))
    requires IsNwTable(ss, g, src, target)
    requires row <= |target| && col <= |src| && (row > 0 || col > 0)
    requires !(0 < row && 0 < col && g[row][col] == g[row - 1][col - 1] + MatchScore(ss, target[row - 1], src[col - 1]))
    requires !(0 < row && g[row][col] == g[row - 1][col] + ss.indel)
    requires Trace(ss, g, src, target, row, col).0 + Reverse(u) == whole.0
    requires Trace(ss, g, src, target, row, col).1 + Reverse(l) == whole.1
    ensures 0 < col
    ensures Trace(ss, g, src, target, row, col - 1).0 + Reverse(u + [src[col - 1]])
         == whole.0
    ensures Trace(ss, g, src, target, row, col - 1).1 + Reverse(l + [Gap])
         == whole.1
  {
    assert ChooseMove(ss, g, src, target, row, col) == Left;
    ReverseSnoc(u, src[col - 1]);
    ReverseSnoc(l, Gap);
  }

  /** At the origin the traceback is empty, so the buffers read backwards
      are the whole traceback. */
  lemma TraceFromOrigin(ss: SimpleScoringSystem, g: Table, src: string, target: string,
                        u: string, l: string, whole: (string, string))
    requires IsNwTable(ss, g, src, target)
    requires Trace(ss, g, src, target, 0, 0).0 + u == whole.0
    requires Trace(ss, g, src, target, 0, 0).1 + l == whole.1
    ensures (u, l) == whole
  {
    assert Trace(ss, g, src, target, 0, 0) == ([], []);
    assert [] + u == u && [] + l == l;
  }

  /** The traceback from the bottom-right cell gives two strings of equal
      length; when the gap character occurs in neither input they align the
      two inputs, score the bottom-right cell, and no alignment scores more. */
  lemma TraceIsBest(ss: SimpleScoringSystem, g: Table, src: string, target: string)
    requires IsNwTable(ss, g, src, target)
    ensures var t := Trace(ss, g, src, target, |target|, |src|);
      && |t.0| == |t.1|
      && (Gap !in src && Gap !in target ==>
            IsAlignment(t.0, t.1, src, target) && AlignScore(ss, t.0, t.1) == g[|target|][|src|])
      && (Gap !in src && Gap !in target ==>
            forall a, b :: IsAlignment(a, b, src, target) ==> AlignScore(ss, a, b) <= AlignScore(ss, t.0, t.1))
  {
    TraceShape(ss, g, src, target, |target|, |src|);
    if Gap !in src && Gap !in target {
      TraceIsAlignment(ss, g, src, target, |target|, |src|);
      TraceScore(ss, g, src, target, |target|, |src|);
      assert src[..|src|] == src && target[..|target|] == target;
      forall a, b | IsAlignment(a, b, src, target)
        ensures AlignScore(ss, a, b) <= g[|target|][|src|]
      {
        NwIsOptimal(ss, g, src, target, |target|, |src|, a, b);
      }
    }
  }

  /** `s` with every gap character removed. */
  function RemoveGaps(s: string): (r: string)
    ensures Gap !in r
    ensures |r| <= |s|
  {
    if |s| == 0 then []
    else RemoveGaps(s[..|s| - 1]) + (if s[|s| - 1] == Gap then [] else [s[|s| - 1]])
  }

  /** A pair of strings that align `src` with `target`: of equal length, no
      column with two gaps, and each string is its sequence with gaps put in. */
  ghost predicate IsAlignment(a: string, b: string, src: string, target: string) {
    |a| == |b|
    && (forall k :: 0 <= k < |a| ==> a[k] != Gap || b[k] != Gap)
    && RemoveGaps(a) == src
    && RemoveGaps(b) == target
  }

  /** Reward of one column of an alignment. */
  function ColumnScore(ss: SimpleScoringSystem, x: char, y: char): int {
    if x == Gap || y == Gap then ss.indel else MatchScore(ss, y, x)
  }

  /** Total reward of an alignment: the sum of its column rewards. */
  function AlignScore(ss: SimpleScoringSystem, a: string, b: string): int
    requires |a| == |b|
  {
    if |a| == 0 then 0
    else AlignScore(ss, a[..|a| - 1], b[..|b| - 1]) + ColumnScore(ss, a[|a| - 1], b[|b| - 1])
  }

  /** Every traceback step emits one character to each side, two for a diagonal
      and one for a gap move: the two strings have equal length, between the
      longer prefix and the sum of both. */
  lemma {:induction false} TraceShape(ss: SimpleScoringSystem, g: Table, src: string, target: string, row: nat, col: nat)
    requires IsNwTable(ss, g, src, target)
    requires row <= |target| && col <= |src|
    ensures |Trace(ss, g, src, target, row, col).0| == |Trace(ss, g, src, target, row, col).1|
    ensures row <= |Trace(ss, g, src, target, row, col).0| <= row + col
    ensures col <= |Trace(ss, g, src, target, row, col).0|
    decreases row + col
  {
    if row > 0 || col > 0 {
      match ChooseMove(ss, g, src, target, row, col)
      case Diagonal => TraceShape(ss, g, src, target, row - 1, col - 1);
      case Up => TraceShape(ss, g, src, target, row - 1, col);
      case Left => TraceShape(ss, g, src, target, row, col - 1);
    }
  }

  lemma RemoveGapsSnoc(s: string, c: char)
    ensures RemoveGaps(s + [c]) == RemoveGaps(s) + (if c == Gap then [] else [c])
  {
    assert (s + [c])[..|s|] == s;
  }

  /** Appending one column without two gaps to an alignment aligns the
      sequences extended by that column's non-gap characters. */
  lemma AlignmentSnoc(a: string, b: string, src: string, target: string, x: char, y: char)
    requires IsAlignment(a, b, src, target)
    requires x != Gap || y != Gap
    ensures IsAlignment(a + [x], b + [y], src + (if x == Gap then [] else [x]), target + (if y == Gap then [] else [y]))
  {
    RemoveGapsSnoc(a, x);
    RemoveGapsSnoc(b, y);
    var a', b' := a + [x], b + [y];
    forall k | 0 <= k < |a'|
      ensures a'[k] != Gap || b'[k] != Gap
    {
      if k < |a| {
        assert a'[k] == a[k] && b'[k] == b[k];
      }
    }
  }

  /** The traceback from (row, col) aligns the first `col` source characters
      with the first `row` target characters. */
  ghost predicate TraceAlignsAt(ss: SimpleScoringSystem, g: Table, src: string, target: string, row: nat, col: nat)
    requires IsNwTable(ss, g, src, target)
    requires row <= |target| && col <= |src|
  {
    IsAlignment(Trace(ss, g, src, target, row, col).0, Trace(ss, g, src, target, row, col).1,
                src[..col], target[..row])
  }

  /** When neither input contains the gap character, the traceback's strings
      align the two prefixes: removing the gaps gives them back. */
  lemma {:induction false} TraceIsAlignment(ss: SimpleScoringSystem, g: Table, src: string, target: string,
                                            row: nat, col: nat)
    requires IsNwTable(ss, g, src, target)
    requires row <= |target| && col <= |src|
    requires Gap !in src && Gap !in target
    ensures IsAlignment(Trace(ss, g, src, target, row, col).0, Trace(ss, g, src, target, row, col).1,
                        src[..col], target[..row])
  {
    TraceAlignsEverywhere(ss, g, src, target, row, col);
  }

  /** TraceIsAlignment stated cell by cell, by induction over row + col. */
  lemma {:induction false} TraceAlignsEverywhere(ss: SimpleScoringSystem, g: Table, src: string, target: string,
                                                 row: nat, col: nat)
    requires IsNwTable(ss, g, src, target)
    requires row <= |target| && col <= |src|
    requires Gap !in src && Gap !in target
    ensures TraceAlignsAt(ss, g, src, target, row, col)
    decreases row + col
  {
    if row > 0 || col > 0 {
      var m := ChooseMove(ss, g, src, target, row, col);
      if m == Diagonal {
        TraceAlignsEverywhere(ss, g, src, target, row - 1, col - 1);
        DiagonalKeepsAlignment(ss, g, src, target, row, col);
      } else if m == Up {
        TraceAlignsEverywhere(ss, g, src, target, row - 1, col);
        UpKeepsAlignment(ss, g, src, target, row, col);
      } else {
        TraceAlignsEverywhere(ss, g, src, target, row, col - 1);
        LeftKeepsAlignment(ss, g, src, target, row, col);
      }
    }
  }

  /** A diagonal move of the traceback extends an alignment of the up-left
      prefixes to one of the prefixes of (row, col). */
  lemma DiagonalKeepsAlignment(ss: SimpleScoringSystem, g: Table, src: string, target: string, row: nat, col: nat)
    requires IsNwTable(ss, g, src, target)
    requires 0 < row <= |target| && 0 < col <= |src|
    requires Gap !in src && Gap !in target
    requires ChooseMove(ss, g, src, target, row, col) == Diagonal
    requires TraceAlignsAt(ss, g, src, target, row - 1, col - 1)
    ensures TraceAlignsAt(ss, g, src, target, row, col)
  {
    var p := Trace(ss, g, src, target, row - 1, col - 1);
    assert src[col - 1] in src && target[row - 1] in target;
    AlignmentSnoc(p.0, p.1, src[..col - 1], target[..row - 1], src[col - 1], target[row - 1]);
    PrefixExtend(src, col);
    PrefixExtend(target, row);
  }

  /** A move from above extends an alignment of the prefixes of the cell
      above to one of the prefixes of (row, col). */
  lemma UpKeepsAlignment(ss: SimpleScoringSystem, g: Table, src: string, target: string, row: nat, col: nat)
    requires IsNwTable(ss, g, src, target)
    requires 0 < row <= |target| && col <= |src|
    requires Gap !in target
    requires ChooseMove(ss, g, src, target, row, col) == Up
    requires TraceAlignsAt(ss, g, src, target, row - 1, col)
    ensures TraceAlignsAt(ss, g, src, target, row, col)
  {
    var p := Trace(ss, g, src, target, row - 1, col);
    assert target[row - 1] in target;
    AlignmentSnoc(p.0, p.1, src[..col], target[..row - 1], Gap, target[row - 1]);
    PrefixExtend(target, row);
  }

  /** A move from the left extends an alignment of the prefixes of the cell
      to the left to one of the prefixes of (row, col). */
  lemma LeftKeepsAlignment(ss: SimpleScoringSystem, g: Table, src: string, target: string, row: nat, col: nat)
    requires IsNwTable(ss, g, src, target)
    requires row <= |target| && 0 < col <= |src|
    requires Gap !in src
    requires ChooseMove(ss, g, src, target, row, col) == Left
    requires TraceAlignsAt(ss, g, src, target, row, col - 1)
    ensures TraceAlignsAt(ss, g, src, target, row, col)
  {
    var p := Trace(ss, g, src, target, row, col - 1);
    assert src[col - 1] in src;
    AlignmentSnoc(p.0, p.1, src[..col - 1], target[..row], src[col - 1], Gap);
    PrefixExtend(src, col);
  }

  lemma AlignScoreSnoc(ss: SimpleScoringSystem, a: string, b: string, x: char, y: char)
    requires |a| == |b|
    ensures AlignScore(ss, a + [x], b + [y]) == AlignScore(ss, a, b) + ColumnScore(ss, x, y)
  {
    assert (a + [x])[..|a|] == a;
    assert (b + [y])[..|b|] == b;
  }

  /** When the traceback moves left, the cell is the one to its left plus
      `indel`: it is the best of three candidates and neither of the other two. */
  lemma LeftFitsWhenOthersDoNot(ss: SimpleScoringSystem, g: Table, src: string, target: string, row: nat, col: nat)
    requires IsNwTable(ss, g, src, target)
    requires row <= |target| && 0 < col <= |src|
    requires ChooseMove(ss, g, src, target, row, col) == Left
    ensures g[row][col] == g[row][col - 1] + ss.indel
  {
    if row == 0 {
      BaseSteps(ss, g, src, target, row, col);
    } else {
      assert TableStep(ss, g, src, target, row, col);
    }
  }

  /** The traceback from (row, col) gives two strings of equal length whose
      alignment score is the cell's value. */
  ghost predicate TraceScoresAt(ss: SimpleScoringSystem, g: Table, src: string, target: string, row: nat, col: nat)
    requires IsNwTable(ss, g, src, target)
    requires row <= |target| && col <= |src|
  {
    && |Trace(ss, g, src, target, row, col).0| == |Trace(ss, g, src, target, row, col).1|
    && AlignScore(ss, Trace(ss, g, src, target, row, col).0, Trace(ss, g, src, target, row, col).1) == g[row][col]
  }

  /** When neither input contains the gap character, the alignment the
      traceback produces scores exactly the table cell it started from. */
  lemma {:induction false} TraceScore(ss: SimpleScoringSystem, g: Table, src: string, target: string, row: nat, col: nat)
    requires IsNwTable(ss, g, src, target)
    requires row <= |target| && col <= |src|
    requires Gap !in src && Gap !in target
    ensures |Trace(ss, g, src, target, row, col).0| == |Trace(ss, g, src, target, row, col).1|
    ensures AlignScore(ss, Trace(ss, g, src, target, row, col).0, Trace(ss, g, src, target, row, col).1)
         == g[row][col]
  {
    TraceScoresEverywhere(ss, g, src, target, row, col);
  }

  /** TraceScore stated cell by cell, by induction over row + col. */
  lemma {:induction false} TraceScoresEverywhere(ss: SimpleScoringSystem, g: Table, src: string, target: string,
                                                 row: nat, col: nat)
    requires IsNwTable(ss, g, src, target)
    requires row <= |target| && col <= |src|
    requires Gap !in src && Gap !in target
    ensures TraceScoresAt(ss, g, src, target, row, col)
    decreases row + col
  {
    if row > 0 || col > 0 {
      var m := ChooseMove(ss, g, src, target, row, col);
      if m == Diagonal {
        TraceScoresEverywhere(ss, g, src, target, row - 1, col - 1);
        DiagonalKeepsScore(ss, g, src, target, row, col);
      } else if m == Up {
        TraceScoresEverywhere(ss, g, src, target, row - 1, col);
        UpKeepsScore(ss, g, src, target, row, col);
      } else {
        TraceScoresEverywhere(ss, g, src, target, row, col - 1);
        LeftKeepsScore(ss, g, src, target, row, col);
      }
    }
  }

  /** A diagonal move adds the column of two characters, whose reward is the
      step from the up-left cell to (row, col). */
  lemma DiagonalKeepsScore(ss: SimpleScoringSystem, g: Table, src: string, target: string, row: nat, col: nat)
    requires IsNwTable(ss, g, src, target)
    requires 0 < row <= |target| && 0 < col <= |src|
    requires Gap !in src && Gap !in target
    requires ChooseMove(ss, g, src, target, row, col) == Diagonal
    requires TraceScoresAt(ss, g, src, target, row - 1, col - 1)
    ensures TraceScoresAt(ss, g, src, target, row, col)
  {
    var p := Trace(ss, g, src, target, row - 1, col - 1);
    AlignScoreSnoc(ss, p.0, p.1, src[col - 1], target[row - 1]);
    assert src[col - 1] in src && target[row - 1] in target;
  }

  /** A move from above adds a gap against a target character, rewarded
      `indel`, the step from the cell above to (row, col). */
  lemma UpKeepsScore(ss: SimpleScoringSystem, g: Table, src: string, target: string, row: nat, col: nat)
    requires IsNwTable(ss, g, src, target)
    requires 0 < row <= |target| && col <= |src|
    requires ChooseMove(ss, g, src, target, row, col) == Up
    requires TraceScoresAt(ss, g, src, target, row - 1, col)
    ensures TraceScoresAt(ss, g, src, target, row, col)
  {
    var p := Trace(ss, g, src, target, row - 1, col);
    AlignScoreSnoc(ss, p.0, p.1, Gap, target[row - 1]);
  }

  /** A move from the left adds a source character against a gap, rewarded
      `indel`, the step from the cell to the left to (row, col). */
  lemma LeftKeepsScore(ss: SimpleScoringSystem, g: Table, src: string, target: string, row: nat, col: nat)
    requires IsNwTable(ss, g, src, target)
    requires row <= |target| && 0 < col <= |src|
    requires ChooseMove(ss, g, src, target, row, col) == Left
    requires TraceScoresAt(ss, g, src, target, row, col - 1)
    ensures TraceScoresAt(ss, g, src, target, row, col)
  {
    var p := Trace(ss, g, src, target, row, col - 1);
    AlignScoreSnoc(ss, p.0, p.1, src[col - 1], Gap);
    LeftFitsWhenOthersDoNot(ss, g, src, target, row, col);
  }

  /** A non-empty prefix is the shorter prefix followed by its last character. */
  lemma PrefixExtend(s: string, k: nat)
    requires 0 < k <= |s|
    ensures s[..k] == s[..k - 1] + [s[k - 1]]
  {
  }

  /** If a prefix of `s` ends in `x`, `x` is its last character and the rest is the shorter prefix. */
  lemma PrefixSnoc(s: string, k: nat, p: string, x: char)
    requires k <= |s| && s[..k] == p + [x]
    ensures 0 < k && s[k - 1] == x && s[..k - 1] == p
  {
    assert s[..k - 1] == s[..k][..k - 1];
  }

  /** The last column of an alignment of two prefixes: its reward is the
      last term of the score, a non-gap character in it is the last character
      of its prefix, and the columns before it align the prefixes shortened
      by those characters. */
  lemma LastColumn(ss: SimpleScoringSystem, a: string, b: string, src: string, target: string, row: nat, col: nat)
    requires row <= |target| && col <= |src|
    requires IsAlignment(a, b, src[..col], target[..row]) && 0 < |a|
    ensures var n := |a| - 1;
      && AlignScore(ss, a, b) == AlignScore(ss, a[..n], b[..n]) + ColumnScore(ss, a[n], b[n])
      && (a[n] != Gap || b[n] != Gap)
      && (a[n] != Gap ==> 0 < col && a[n] == src[col - 1])
      && (b[n] != Gap ==> 0 < row && b[n] == target[row - 1])
      && (a[n] != Gap && b[n] != Gap ==> IsAlignment(a[..n], b[..n], src[..col - 1], target[..row - 1]))
      && (a[n] == Gap ==> IsAlignment(a[..n], b[..n], src[..col], target[..row - 1]))
      && (b[n] == Gap ==> IsAlignment(a[..n], b[..n], src[..col - 1], target[..row]))
  {
    var n := |a| - 1;
    var a', b', x, y := a[..n], b[..n], a[n], b[n];
    PrefixExtend(a, |a|);
    PrefixExtend(b, |b|);
    assert a[..|a|] == a && b[..|b|] == b;
    RemoveGapsSnoc(a', x);
    RemoveGapsSnoc(b', y);
    AlignScoreSnoc(ss, a', b', x, y);
    if x != Gap {
      PrefixSnoc(src, col, RemoveGaps(a'), x);
    }
    if y != Gap {
      PrefixSnoc(target, row, RemoveGaps(b'), y);
    }
    forall k | 0 <= k < |a'|
      ensures a'[k] != Gap || b'[k] != Gap
    {
      assert a'[k] == a[k] && b'[k] == b[k];
    }
  }

  /** No alignment of the two prefixes scores more than the table cell: the
      table holds the best score, so the traceback's alignment is a best one. */
  lemma {:induction false} NwIsOptimal(ss: SimpleScoringSystem, g: Table, src: string, target: string,
                                       row: nat, col: nat, a: string, b: string)
    requires IsNwTable(ss, g, src, target)
    requires row <= |target| && col <= |src|
    requires Gap !in src && Gap !in target
    requires IsAlignment(a, b, src[..col], target[..row])
    ensures AlignScore(ss, a, b) <= g[row][col]
    decreases |a|
  {
    if |a| == 0 {
      assert |src[..col]| == 0 && |target[..row]| == 0;
    } else {
      var n := |a| - 1;
      var row', col' := LastColumnMove(ss, g, src, target, row, col, a, b);
      NwIsOptimal(ss, g, src, target, row', col', a[..n], b[..n]);
    }
  }

  /** Dropping the last column of an alignment of the prefixes of (row, col)
      leaves an alignment of the prefixes of a neighbouring cell (row', col'),
      and the dropped column's reward is at most the step from that
      neighbour to (row, col). */
  lemma LastColumnMove(ss: SimpleScoringSystem, g: Table, src: string, target: string,
                       row: nat, col: nat, a: string, b: string)
    returns (row': nat, col': nat)
    requires IsNwTable(ss, g, src, target)
    requires row <= |target| && col <= |src|
    requires Gap !in src && Gap !in target
    requires IsAlignment(a, b, src[..col], target[..row]) && 0 < |a|
    ensures row' <= row && col' <= col
    ensures IsAlignment(a[..|a| - 1], b[..|a| - 1], src[..col'], target[..row'])
    ensures AlignScore(ss, a, b) - AlignScore(ss, a[..|a| - 1], b[..|a| - 1]) + g[row'][col'] <= g[row][col]
  {
    LastColumn(ss, a, b, src, target, row, col);
    Dominates(ss, g, src, target, row, col);
    var n := |a| - 1;
    if a[n] != Gap && b[n] != Gap {
      row', col' := row - 1, col - 1;
    } else if a[n] == Gap {
      row', col' := row - 1, col;
    } else {
      row', col' := row, col - 1;
    }
  }

  /** Each cell of a Needleman-Wunsch table is at least each of the moves
      into it: the diagonal move, the move from above and the move from the
      left, wherever the neighbour exists. */
  lemma Dominates(ss: SimpleScoringSystem, g: Table, src: string, target: string, row: nat, col: nat)
    requires IsNwTable(ss, g, src, target)
    requires row <= |target| && col <= |src|
    ensures 0 < row && 0 < col ==> g[row - 1][col - 1] + MatchScore(ss, target[row - 1], src[col - 1]) <= g[row][col]
    ensures 0 < row ==> g[row - 1][col] + ss.indel <= g[row][col]
    ensures 0 < col ==> g[row][col - 1] + ss.indel <= g[row][col]
  {
    BaseSteps(ss, g, src, target, row, col);
    if 0 < row && 0 < col {
      assert TableStep(ss, g, src, target, row, col);
    }
  }

  /** The diagonal test of the published traceback (global_alignment.rs:80-82):
      it reads the up-left cell before checking that there is one (None: the
      index underflows), and accepts the diagonal when the cell equals that
      neighbour plus `same` or plus `diff`, whatever the two characters are. */
  function WrittenChooseMove(ss: SimpleScoringSystem, g: Table, src: string, target: string, row: nat, col: nat): (r: Option<Move>)
    requires IsShaped(g, src, target)
    requires row <= |target| && col <= |src|
    ensures r.None? <==> row == 0 || col == 0
    ensures r == Some(Diagonal) <==>
      0 < row && 0 < col && (g[row][col] - g[row - 1][col - 1] == ss.same || g[row][col] - g[row - 1][col - 1] == ss.diff)
  {
    if row == 0 || col == 0 then None
    else if g[row][col] == g[row - 1][col - 1] + ss.same || g[row][col] == g[row - 1][col - 1] + ss.diff
    then Some(Diagonal)
    else if g[row][col] == g[row - 1][col] + ss.indel
    then Some(Up)
    else Some(Left)
  }

  /** The pair of characters the published traceback pushes onto (upper, left)
      for a move, given what the reversed source and target iterators yield
      next (None: `unwrap` on an exhausted iterator). The move from above
      takes from the source and the move from the left from the target
      (global_alignment.rs:92, 98). */
  function WrittenPush(m: Move, nextSrc: Option<char>, nextTarget: Option<char>): (r: Option<(char, char)>)
    ensures m == Up ==> (r.Some? <==> nextSrc.Some?)
    ensures m == Left ==> (r.Some? <==> nextTarget.Some?)
    ensures m == Up && r.Some? ==> r.value.1 == Gap
    ensures m == Left && r.Some? ==> r.value.0 == Gap
  {
    match m
    case Diagonal => if nextSrc.Some? && nextTarget.Some? then Some((nextSrc.value, nextTarget.value)) else None
    case Up => if nextSrc.Some? then Some((nextSrc.value, Gap)) else None
    case Left => if nextTarget.Some? then Some((Gap, nextTarget.value)) else None
  }

  /** "a" against "": the traceback starts in row 0, where the published code
      reads a cell above the table, while ChooseMove moves left. */
  lemma WrittenReadsAboveTable()
    ensures var ss, g := SimpleScoringSystem(1, -1, -1), [[0, -1]];
      && IsNwTable(ss, g, "a", "")
      && WrittenChooseMove(ss, g, "a", "", 0, 1) == None
      && ChooseMove(ss, g, "a", "", 0, 1) == Left
      && Trace(ss, g, "a", "", 0, 1) == ("a", "-")
  {
    var ss, g := SimpleScoringSystem(1, -1, -1), [[0, -1]];
    assert IsNwTable(ss, g, "a", "");
    assert ChooseMove(ss, g, "a", "", 0, 1) == Left;
    var p := Trace(ss, g, "a", "", 0, 0);
    assert p == ([], []);
    assert Trace(ss, g, "a", "", 0, 1) == (p.0 + ['a'], p.1 + [Gap]);
    assert p.0 + ['a'] == "a" && p.1 + [Gap] == "-";
    assert Trace(ss, g, "a", "", 0, 1) == ("a", "-");
  }

  /** "ab" against "a" with rewards (1, -1, -1): in cell (1, 2) the characters
      'a' and 'b' differ and the cell (0) is not the diagonal neighbour (-1)
      plus `diff`, yet it is that neighbour plus `same`, so the published test
      takes the diagonal; ChooseMove moves left, the move the cell was built from. */
  lemma WrittenDiagonalIgnoresCharacters()
    ensures var ss, g := SimpleScoringSystem(1, -1, -1), [[0, -1, -2], [-1, 1, 0]];
      && IsNwTable(ss, g, "ab", "a")
      && WrittenChooseMove(ss, g, "ab", "a", 1, 2) == Some(Diagonal)
      && g[1][2] != g[0][1] + MatchScore(ss, 'a', 'b')
      && ChooseMove(ss, g, "ab", "a", 1, 2) == Left
  {
    var ss, g := SimpleScoringSystem(1, -1, -1), [[0, -1, -2], [-1, 1, 0]];
    assert TableStep(ss, g, "ab", "a", 1, 1);
    assert TableStep(ss, g, "ab", "a", 1, 2);
    assert IsNwTable(ss, g, "ab", "a");
  }

  /** "ab" against "ba" with rewards (1, -1, -1): at the start cell (2, 2)
      both guards pass and the cell was built from the move from above, which
      uses the target's 'a'. The published step pushes the source's next
      character 'b' over a gap; Trace ends with a gap over the target's 'a'. */
  lemma WrittenUpTakesFromSource()
    ensures var ss, g := SimpleScoringSystem(1, -1, -1), [[0, -1, -2], [-1, -1, 0], [-2, 0, -1]];
      && IsNwTable(ss, g, "ab", "ba")
      && WrittenChooseMove(ss, g, "ab", "ba", 2, 2) == Some(Up)
      && WrittenPush(Up, Some('b'), Some('a')) == Some(('b', Gap))
      && ChooseMove(ss, g, "ab", "ba", 2, 2) == Up
      && var t := Trace(ss, g, "ab", "ba", 2, 2);
         0 < |t.0| == |t.1| && t.0[|t.0| - 1] == Gap && t.1[|t.1| - 1] == 'a'
  {
    var ss, g := SimpleScoringSystem(1, -1, -1), [[0, -1, -2], [-1, -1, 0], [-2, 0, -1]];
    assert TableStep(ss, g, "ab", "ba", 1, 1);
    assert TableStep(ss, g, "ab", "ba", 1, 2);
    assert TableStep(ss, g, "ab", "ba", 2, 1);
    assert TableStep(ss, g, "ab", "ba", 2, 2);
    assert IsNwTable(ss, g, "ab", "ba");
    assert ChooseMove(ss, g, "ab", "ba", 2, 2) == Up;
    TraceShape(ss, g, "ab", "ba", 1, 2);
  }

  /** "abc" aligned with itself under rewards (1, -1, -1) scores its length. */
  lemma SameStringScoresLength()
    ensures Nw(SimpleScoringSystem(1, -1, -1), "abc", "abc", 3, 3) == 3
  {
  }

  /** The introductory example of the Needleman-Wunsch algorithm: "GCATGCG"
      against "GATTACA" under rewards (1, -1, -1) scores 0. */
  lemma WikipediaExampleScoresZero(ss: SimpleScoringSystem, src: string, target: string)
    requires ss == SimpleScoringSystem(1, -1, -1) && src == "GCATGCG" && target == "GATTACA"
    ensures Nw(ss, src, target, |target|, |src|) == 0
  {
    assert Nw(ss, src, target, 1, 1) == 1;
    assert Nw(ss, src, target, 1, 2) == 0;
    assert Nw(ss, src, target, 1, 3) == -1;
    assert Nw(ss, src, target, 1, 4) == -2;
    assert Nw(ss, src, target, 1, 5) == -3;
    assert Nw(ss, src, target, 1, 6) == -4;
    assert Nw(ss, src, target, 1, 7) == -5;
    assert Nw(ss, src, target, 2, 1) == 0;
    assert Nw(ss, src, target, 2, 2) == 0;
    assert Nw(ss, src, target, 2, 3) == 1;
    assert Nw(ss, src, target, 2, 4) == 0;
    assert Nw(ss, src, target, 2, 5) == -1;
    assert Nw(ss, src, target, 2, 6) == -2;
    assert Nw(ss, src, target, 2, 7) == -3;
    assert Nw(ss, src, target, 3, 1) == -1;
    assert Nw(ss, src, target, 3, 2) == -1;
    assert Nw(ss, src, target, 3, 3) == 0;
    assert Nw(ss, src, target, 3, 4) == 2;
    assert Nw(ss, src, target, 3, 5) == 1;
    assert Nw(ss, src, target, 3, 6) == 0;
    assert Nw(ss, src, target, 3, 7) == -1;
    assert Nw(ss, src, target, 4, 1) == -2;
    assert Nw(ss, src, target, 4, 2) == -2;
    assert Nw(ss, src, target, 4, 3) == -1;
    assert Nw(ss, src, target, 4, 4) == 1;
    assert Nw(ss, src, target, 4, 5) == 1;
    assert Nw(ss, src, target, 4, 6) == 0;
    assert Nw(ss, src, target, 4, 7) == -1;
    assert Nw(ss, src, target, 5, 1) == -3;
    assert Nw(ss, src, target, 5, 2) == -3;
    assert Nw(ss, src, target, 5, 3) == -1;
    assert Nw(ss, src, target, 5, 4) == 0;
    assert Nw(ss, src, target, 5, 5) == 0;
    assert Nw(ss, src, target, 5, 6) == 0;
    assert Nw(ss, src, target, 5, 7) == -1;
    assert Nw(ss, src, target, 6, 1) == -4;
    assert Nw(ss, src, target, 6, 2) == -2;
    assert Nw(ss, src, target, 6, 3) == -2;
    assert Nw(ss, src, target, 6, 4) == -1;
    assert Nw(ss, src, target, 6, 5) == -1;
    assert Nw(ss, src, target, 6, 6) == 1;
    assert Nw(ss, src, target, 6, 7) == 0;
    assert Nw(ss, src, target, 7, 1) == -5;
    assert Nw(ss, src, target, 7, 2) == -3;
    assert Nw(ss, src, target, 7, 3) == -1;
    assert Nw(ss, src, target, 7, 4) == -2;
    assert Nw(ss, src, target, 7, 5) == -2;
    assert Nw(ss, src, target, 7, 6) == 0;
  }
}
