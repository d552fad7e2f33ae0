/** Edit distance between two character sequences by dynamic programming.

    The table has |target|+1 rows and |src|+1 columns: cell (row, col) stands
    for the first `row` characters of the target against the first `col`
    characters of the source. Strings are sequences of characters; the source
    program measures them in bytes, which agrees with |s| for ASCII text. */
module Levenshtein {

  function Min(a: int, b: int): int {
    if a <= b then a else b
  }

  /** Cost of the diagonal move under unit costs: 0 when the characters agree. */
  function SubCost(tChar: char, sChar: char): nat {
    if tChar == sChar then 0 else 1
  }

  /** Cell (row, col) of the unit-cost table: the base row and base column hold
      their index, every interior cell is the cheapest of the move from the left,
      the move from above and the diagonal move. */
  function Lev(src: string, target: string, row: nat, col: nat): nat
    requires row <= |target| && col <= |src|
    decreases row + col
  {
    if row == 0 then col
    else if col == 0 then row
    else Min(Min(Lev(src, target, row, col - 1) + 1, Lev(src, target, row - 1, col) + 1),
             Lev(src, target, row - 1, col - 1) + SubCost(target[row - 1], src[col - 1]))
  }

  /** Cell `col` of `cur` is the cheapest of the move from the left (`cur[col - 1]`),
      the move from above (`prev[col]`) and the diagonal move (`prev[col - 1]`). */
  ghost predicate UnitStep(tChar: char, src: string, prev: seq<nat>, cur: seq<nat>, col: nat)
    requires 1 <= col <= |src| && |src| < |prev| && |src| < |cur|
  {
    cur[col] == Min(Min(cur[col - 1] + 1, prev[col] + 1), prev[col - 1] + SubCost(tChar, src[col - 1]))
  }

  /** Writes cells 1..|src| of `curRow`, left to right, from `prevRow` and the
      cell just written. Cell 0 and `prevRow` are left alone. */
  method FillRow(tChar: char, src: string, prevRow: array<nat>, curRow: array<nat>)
    requires prevRow != curRow
    requires |src| < prevRow.Length && |src| < curRow.Length
    modifies curRow
    ensures curRow[0] == old(curRow[0])
    ensures forall col :: |src| < col < curRow.Length ==> curRow[col] == old(curRow[col])
    ensures forall col :: 1 <= col <= |src| ==> UnitStep(tChar, src, prevRow[..], curRow[..], col)
  {
    for jj := 0 to |src|
      invariant curRow[0] == old(curRow[0])
      invariant forall col :: jj < col < curRow.Length ==> curRow[col] == old(curRow[col])
      invariant forall col :: 1 <= col <= jj ==> UnitStep(tChar, src, prevRow[..], curRow[..], col)
    {
      var col := jj + 1;
      var subCost := if tChar == src[jj] then 0 else 1;
      var deleteCost := curRow[col - 1] + 1;
      var insertCost := prevRow[col] + 1;
      var diagCost := prevRow[col - 1] + subCost;
      ghost var before := curRow[..];
      curRow[col] := Min(Min(deleteCost, insertCost), diagCost);
      forall c | 1 <= c <= col
        ensures UnitStep(tChar, src, prevRow[..], curRow[..], c)
      {
        if c < col {
          assert UnitStep(tChar, src, prevRow[..], before, c);
        }
      }
    }
  }

  /** `a` holds row `row` of the unit-cost table in its cells 0..|src|. */
  ghost predicate IsLevRow(src: string, target: string, row: nat, a: seq<nat>)
    requires row <= |target|
  {
    |src| < |a| && forall c :: 0 <= c <= |src| ==> a[c] == Lev(src, target, row, c)
  }

  /** A row written by FillRow over row `row - 1` of the table, starting from
      `row` in cell 0, is row `row` of the table. */
  lemma {:induction false} FilledRowIsLevRow(src: string, target: string, row: nat, tChar: char,
                                             prev: seq<nat>, cur: seq<nat>, col: nat)
    requires 0 < row <= |target| && col <= |src| && tChar == target[row - 1]
    requires IsLevRow(src, target, row - 1, prev) && |src| < |cur|
    requires cur[0] == row
    requires forall c :: 1 <= c <= |src| ==> UnitStep(tChar, src, prev, cur, c)
    ensures forall c :: 0 <= c <= col ==> cur[c] == Lev(src, target, row, c)
  {
    if col > 0 {
      FilledRowIsLevRow(src, target, row, tChar, prev, cur, col - 1);
      assert UnitStep(tChar, src, prev, cur, col);
    }
  }

  /** Edit distance with two row buffers that swap roles by the parity of the row. */
  method TwovecLev(src: string, target: string) returns (d: nat)
    ensures d == Lev(src, target, |target|, |src|)
  {
    var width := |src|;
    var row0 := new nat[width + 1];
    var row1 := new nat[width + 1];

    // base case
    for ii := 0 to row0.Length
      invariant forall c :: 0 <= c < ii ==> row0[c] == c
    {
      row0[ii] := ii;
    }

    var lastRow := 0;
    for ii := 0 to |target|
      invariant lastRow == ii % 2
      invariant lastRow == 0 ==> IsLevRow(src, target, ii, row0[..])
      invariant lastRow == 1 ==> IsLevRow(src, target, ii, row1[..])
    {
      var row := ii + 1;
      if row % 2 == 1 {
        row1[0] := row;
        FillRow(target[ii], src, row0, row1);
        FilledRowIsLevRow(src, target, row, target[ii], row0[..], row1[..], width);
        lastRow := 1;
      } else {
        row0[0] := row;
        FillRow(target[ii], src, row1, row0);
        FilledRowIsLevRow(src, target, row, target[ii], row1[..], row0[..], width);
        lastRow := 0;
      }
    }

    if lastRow == 0 {
      d := row0[row0.Length - 1];
    } else {
      d := row1[row1.Length - 1];
    }
  }

  /** Interior cell (row, col) of `grid` is the cheapest of its three predecessor moves. */
  ghost predicate GridStep(src: string, target: string, grid: array2<nat>, row: nat, col: nat)
    requires 1 <= row <= |target| && 1 <= col <= |src|
    requires grid.Length0 == |target| + 1 && grid.Length1 == |src| + 1
    reads grid
  {
    grid[row, col] == Min(Min(grid[row, col - 1] + 1, grid[row - 1, col] + 1),
                          grid[row - 1, col - 1] + SubCost(target[row - 1], src[col - 1]))
  }

  /** The full table: base row and column hold their index, every interior cell
      satisfies the recurrence over the grid's own neighbours, so every cell is
      the corresponding cell of Lev. */
  method FillLevGrid(src: string, target: string) returns (grid: array2<nat>)
    ensures fresh(grid)
    ensures grid.Length0 == |target| + 1 && grid.Length1 == |src| + 1
    ensures forall col :: 0 <= col <= |src| ==> grid[0, col] == col
    ensures forall row :: 0 <= row <= |target| ==> grid[row, 0] == row
    ensures forall row, col :: 1 <= row <= |target| && 1 <= col <= |src| ==> GridStep(src, target, grid, row, col)
    ensures forall row, col {:trigger grid[row, col]} :: 0 <= row <= |target| && 0 <= col <= |src| ==>
      grid[row, col] == Lev(src, target, row, col)
  {
    var width := |src|;
    var height := |target|;
    grid := new nat[height + 1, width + 1];

    // base cases
    for ii := 0 to width + 1
      invariant forall c {:trigger grid[0, c]} :: 0 <= c < ii ==> grid[0, c] == Lev(src, target, 0, c)
    {
      grid[0, ii] := ii;
    }
    for ii := 0 to height + 1
      invariant forall r, c {:trigger grid[r, c]} :: 0 <= r <= height && 0 <= c <= width && (r == 0 || (c == 0 && r < ii)) ==>
        grid[r, c] == Lev(src, target, r, c)
    {
      grid[ii, 0] := ii;
    }

    // fill in table
    for ii := 0 to height
      invariant forall r, c {:trigger grid[r, c]} :: 0 <= r <= height && 0 <= c <= width && (r <= ii || c == 0) ==>
        grid[r, c] == Lev(src, target, r, c)
    {
      var row := ii + 1;
      for jj := 0 to width
        invariant forall r, c {:trigger grid[r, c]} :: 0 <= r <= height && 0 <= c <= width && (r <= ii || (r == row && c <= jj) || c == 0) ==>
          grid[r, c] == Lev(src, target, r, c)
      {
        var col := jj + 1;
        var subCost := if target[ii] == src[jj] then 0 else 1;
        var deleteCost := grid[row, col - 1] + 1;
        var insertCost := grid[row - 1, col] + 1;
        var diagCost := grid[row - 1, col - 1] + subCost;
        LevUnfold(src, target, row, col, grid[row, col - 1], grid[row - 1, col], grid[row - 1, col - 1]);
        label Before:
        grid[row, col] := Min(Min(deleteCost, insertCost), diagCost);
        forall r, c | 0 <= r <= height && 0 <= c <= width && (r <= ii || (r == row && c <= col) || c == 0)
          ensures grid[r, c] == Lev(src, target, r, c)
        {
          if r != row || c != col {
            assert grid[r, c] == old@Before(grid[r, c]);
          }
        }
      }
    }
    LevGridFromCells(src, target, grid);
  }

  /** An interior cell of Lev from the values of its three neighbours. */
  lemma LevUnfold(src: string, target: string, row: nat, col: nat, left: nat, up: nat, diag: nat)
    requires 1 <= row <= |target| && 1 <= col <= |src|
    requires left == Lev(src, target, row, col - 1)
    requires up == Lev(src, target, row - 1, col)
    requires diag == Lev(src, target, row - 1, col - 1)
    ensures Lev(src, target, row, col) == Min(Min(left + 1, up + 1), diag + SubCost(target[row - 1], src[col - 1]))
  {
  }

  /** A grid whose every cell is the matching cell of Lev has the base row and
      column of Lev and satisfies the recurrence at every interior cell. */
  lemma LevGridFromCells(src: string, target: string, grid: array2<nat>)
    requires grid.Length0 == |target| + 1 && grid.Length1 == |src| + 1
    requires forall row, col {:trigger grid[row, col]} :: 0 <= row <= |target| && 0 <= col <= |src| ==>
      grid[row, col] == Lev(src, target, row, col)
    ensures forall col :: 0 <= col <= |src| ==> grid[0, col] == col
    ensures forall row :: 0 <= row <= |target| ==> grid[row, 0] == row
    ensures forall row, col :: 1 <= row <= |target| && 1 <= col <= |src| ==> GridStep(src, target, grid, row, col)
  {
    forall row, col | 1 <= row <= |target| && 1 <= col <= |src|
      ensures GridStep(src, target, grid, row, col)
    {
      assert grid[row, col - 1] == Lev(src, target, row, col - 1);
      assert grid[row - 1, col] == Lev(src, target, row - 1, col);
      assert grid[row - 1, col - 1] == Lev(src, target, row - 1, col - 1);
    }
  }

  /** Edit distance read off the bottom-right cell of the full table. */
  method VecvecLev(src: string, target: string) returns (d: nat)
    ensures d == Lev(src, target, |target|, |src|)
  {
    var grid := FillLevGrid(src, target);
    // answer is final cell of grid
    d := grid[grid.Length0 - 1, grid.Length1 - 1];
  }

  /** A string is at distance 0 from itself. */
  lemma {:induction false} LevIdentical(s: string, i: nat)
    requires i <= |s|
    ensures Lev(s, s, i, i) == 0
  {
    if i > 0 {
      LevIdentical(s, i - 1);
    }
  }

  /** The distance is at most the longer length: substitute along the shorter
      string, insert or delete the rest. */
  lemma {:induction false} LevAtMostLonger(src: string, target: string, row: nat, col: nat)
    requires row <= |target| && col <= |src|
    ensures Lev(src, target, row, col) <= if row <= col then col else row
  {
    if row > 0 && col > 0 {
      LevAtMostLonger(src, target, row - 1, col - 1);
      assert Lev(src, target, row, col) <= Lev(src, target, row - 1, col - 1) + 1;
    }
  }

  /** Cell (row, col) of Lev is at least the difference of row and col. */
  ghost predicate AtLeastGapAt(src: string, target: string, row: nat, col: nat)
    requires row <= |target| && col <= |src|
  {
    Lev(src, target, row, col) >= if row <= col then col - row else row - col
  }

  /** The distance is at least the difference of the lengths; with an empty
      side it is the other side's length. */
  lemma {:induction false} LevAtLeastLengthGap(src: string, target: string, row: nat, col: nat)
    requires row <= |target| && col <= |src|
    ensures Lev(src, target, row, col) >= if row <= col then col - row else row - col
  {
    AtLeastGapEverywhere(src, target, row, col);
  }

  /** LevAtLeastLengthGap stated cell by cell, by induction over row + col. */
  lemma {:induction false} AtLeastGapEverywhere(src: string, target: string, row: nat, col: nat)
    requires row <= |target| && col <= |src|
    ensures AtLeastGapAt(src, target, row, col)
    decreases row + col
  {
    if row > 0 && col > 0 {
      AtLeastGapEverywhere(src, target, row, col - 1);
      AtLeastGapEverywhere(src, target, row - 1, col);
      AtLeastGapEverywhere(src, target, row - 1, col - 1);
      LengthGapStep(src, target, row, col);
    }
  }

  /** One interior cell of LevAtLeastLengthGap, given its three neighbours. */
  lemma LengthGapStep(src: string, target: string, row: nat, col: nat)
    requires 0 < row <= |target| && 0 < col <= |src|
    requires AtLeastGapAt(src, target, row, col - 1)
    requires AtLeastGapAt(src, target, row - 1, col)
    requires AtLeastGapAt(src, target, row - 1, col - 1)
    ensures AtLeastGapAt(src, target, row, col)
  {
  }

  /** Unit edit distance does not depend on which string is the source. */
  lemma LevSymmetric(src: string, target: string, row: nat, col: nat)
    requires row <= |target| && col <= |src|
    ensures Lev(src, target, row, col) == Lev(target, src, col, row)
  {
    var d := Differencer.Standard();
    StandardIsLev(src, target, row, col);
    StandardIsLev(target, src, col, row);
    CellTransposes(d, src, target, row, col);
  }

  /** "abc" against "bca": drop the leading 'a' and append one. */
  lemma AbcBcaIsTwo()
    ensures Lev("abc", "bca", 3, 3) == 2
  {
  }

  /** Edit distance with separate weights for insertion, deletion and
      substitution. `Differencer(i, d, s)` is the source's `Differencer::new`. */
  datatype Differencer = Differencer(insert: int, delete: int, substitution: int)
  {
    /** The unit-weight preset: every edit costs 1. */
    static function Standard(): (r: Differencer)
      ensures r.insert == 1 && r.delete == 1 && r.substitution == 1
    {
      Differencer(1, 1, 1)
    }

    function DiagCost(tChar: char, sChar: char): int {
      if tChar == sChar then 0 else substitution
    }

    /** Cell (row, col) of the weighted table. The base row is weighted by
        `insert` and the base column by `delete`; the move from the left adds
        `delete` and the move from above adds `insert`. */
    function Cell(src: string, target: string, row: nat, col: nat): int
      requires row <= |target| && col <= |src|
      decreases row + col
    {
      if row == 0 then col * insert
      else if col == 0 then row * delete
      else Min(Min(Cell(src, target, row, col - 1) + delete, Cell(src, target, row - 1, col) + insert),
               Cell(src, target, row - 1, col - 1) + DiagCost(target[row - 1], src[col - 1]))
    }

    /** Cell `col` of `cur` is the cheapest of the move from the left (adds
        `delete`), the move from above (adds `insert`) and the diagonal move. */
    ghost predicate WeightedStep(tChar: char, src: string, prev: seq<int>, cur: seq<int>, col: nat)
      requires 1 <= col <= |src| && |src| < |prev| && |src| < |cur|
    {
      cur[col] == Min(Min(cur[col - 1] + delete, prev[col] + insert), prev[col - 1] + DiagCost(tChar, src[col - 1]))
    }

    /** `a` holds row `row` of the weighted table in its cells 0..|src|. */
    ghost predicate IsCellRow(src: string, target: string, row: nat, a: seq<int>)
      requires row <= |target|
    {
      |src| < |a| && forall c :: 0 <= c <= |src| ==> a[c] == Cell(src, target, row, c)
    }

    /** The weighted counterpart of the free FillRow. */
    method FillRow(tChar: char, src: string, prevRow: array<int>, curRow: array<int>)
      requires prevRow != curRow
      requires |src| < prevRow.Length && |src| < curRow.Length
      modifies curRow
      ensures curRow[0] == old(curRow[0])
      ensures forall col :: |src| < col < curRow.Length ==> curRow[col] == old(curRow[col])
      ensures forall col :: 1 <= col <= |src| ==> WeightedStep(tChar, src, prevRow[..], curRow[..], col)
    {
      for jj := 0 to |src|
        invariant curRow[0] == old(curRow[0])
        invariant forall col :: jj < col < curRow.Length ==> curRow[col] == old(curRow[col])
        invariant forall col :: 1 <= col <= jj ==> WeightedStep(tChar, src, prevRow[..], curRow[..], col)
      {
        var col := jj + 1;
        var subCost := if tChar == src[jj] then 0 else substitution;
        var deleteCost := curRow[col - 1] + delete;
        var insertCost := prevRow[col] + insert;
        var diagCost := prevRow[col - 1] + subCost;
        ghost var before := curRow[..];
        curRow[col] := Min(Min(deleteCost, insertCost), diagCost);
        forall c | 1 <= c <= col
          ensures WeightedStep(tChar, src, prevRow[..], curRow[..], c)
        {
          if c < col {
            assert WeightedStep(tChar, src, prevRow[..], before, c);
          }
        }
      }
    }

    /** A row written by FillRow over row `row - 1`, starting from
        `row * delete` in cell 0, is row `row` of the weighted table. */
    lemma {:induction false} FilledRowIsCellRow(src: string, target: string, row: nat, tChar: char,
                                                prev: seq<int>, cur: seq<int>, col: nat)
      requires 0 < row <= |target| && col <= |src| && tChar == target[row - 1]
      requires IsCellRow(src, target, row - 1, prev) && |src| < |cur|
      requires cur[0] == row * delete
      requires forall c :: 1 <= c <= |src| ==> WeightedStep(tChar, src, prev, cur, c)
      ensures forall c :: 0 <= c <= col ==> cur[c] == Cell(src, target, row, c)
    {
      if col > 0 {
        FilledRowIsCellRow(src, target, row, tChar, prev, cur, col - 1);
        assert WeightedStep(tChar, src, prev, cur, col);
      }
    }

    /** Weighted distance with two row buffers, as in TwovecLev. */
    method Score(source: string, target: string) returns (r: int)
      ensures r == Cell(source, target, |target|, |source|)
      ensures |target| == 0 ==> r == |source| * insert
      ensures |source| == 0 ==> r == |target| * delete
    {
      var width := |source|;
      var row0 := new int[width + 1];
      var row1 := new int[width + 1];

      // base case
      for ii := 0 to row0.Length
        invariant forall c :: 0 <= c < ii ==> row0[c] == c * insert
      {
        row0[ii] := ii * insert;
      }

      var lastRow := 0;
      for ii := 0 to |target|
        invariant lastRow == ii % 2
        invariant lastRow == 0 ==> IsCellRow(source, target, ii, row0[..])
        invariant lastRow == 1 ==> IsCellRow(source, target, ii, row1[..])
      {
        var row := ii + 1;
        if row % 2 == 1 {
          row1[0] := row * delete;
          FillRow(target[ii], source, row0, row1);
          FilledRowIsCellRow(source, target, row, target[ii], row0[..], row1[..], width);
          lastRow := 1;
        } else {
          row0[0] := row * delete;
          FillRow(target[ii], source, row1, row0);
          FilledRowIsCellRow(source, target, row, target[ii], row1[..], row0[..], width);
          lastRow := 0;
        }
      }

      if lastRow == 0 {
        r := row0[row0.Length - 1];
      } else {
        r := row1[row1.Length - 1];
      }
    }

    /** The same weights with the roles of insertion and deletion exchanged. */
    function Swapped(): (d: Differencer)
      ensures d.insert == delete && d.delete == insert && d.substitution == substitution
    {
      Differencer(delete, insert, substitution)
    }
  }

  /** Cell (row, col) of `d`'s table is cell (col, row) of the table with the
      inputs exchanged and the insert and delete weights swapped. */
  ghost predicate TransposesAt(d: Differencer, src: string, target: string, row: nat, col: nat)
    requires row <= |target| && col <= |src|
  {
    d.Cell(src, target, row, col) == d.Swapped().Cell(target, src, col, row)
  }

  /** Exchanging source and target is the same as exchanging the insert and
      delete weights: the table is the transpose of the other one. */
  lemma {:induction false} CellTransposes(d: Differencer, src: string, target: string, row: nat, col: nat)
    requires row <= |target| && col <= |src|
    ensures d.Cell(src, target, row, col) == d.Swapped().Cell(target, src, col, row)
  {
    TransposesEverywhere(d, src, target, row, col);
  }

  /** CellTransposes stated cell by cell, by induction over row + col. */
  lemma {:induction false} TransposesEverywhere(d: Differencer, src: string, target: string, row: nat, col: nat)
    requires row <= |target| && col <= |src|
    ensures TransposesAt(d, src, target, row, col)
    decreases row + col
  {
    if row > 0 && col > 0 {
      TransposesEverywhere(d, src, target, row, col - 1);
      TransposesEverywhere(d, src, target, row - 1, col);
      TransposesEverywhere(d, src, target, row - 1, col - 1);
      TransposedStep(d, src, target, row, col);
    }
  }

  /** One interior cell of CellTransposes, given its three neighbours. */
  lemma TransposedStep(d: Differencer, src: string, target: string, row: nat, col: nat)
    requires 0 < row <= |target| && 0 < col <= |src|
    requires TransposesAt(d, src, target, row, col - 1)
    requires TransposesAt(d, src, target, row - 1, col)
    requires TransposesAt(d, src, target, row - 1, col - 1)
    ensures TransposesAt(d, src, target, row, col)
  {
    var e := d.Swapped();
    assert e.DiagCost(src[col - 1], target[row - 1]) == d.DiagCost(target[row - 1], src[col - 1]);
  }

  /** When insertion and deletion weigh the same, the score is symmetric. */
  lemma ScoreSymmetricWhenInsertIsDelete(d: Differencer, src: string, target: string)
    requires d.insert == d.delete
    ensures d.Cell(src, target, |target|, |src|) == d.Cell(target, src, |src|, |target|)
  {
    CellTransposes(d, src, target, |target|, |src|);
    assert d.Swapped() == d;
  }

  /** With different insert and delete weights the score is not symmetric:
      "a" against "" costs one insertion, "" against "a" one deletion. */
  lemma ScoreAsymmetricWhenInsertIsNotDelete()
    ensures Differencer(1, 2, 1).Cell("a", "", 0, 1) == 1
    ensures Differencer(1, 2, 1).Cell("", "a", 1, 0) == 2
  {
  }

  /** Cell (row, col) of the standard preset's table is that of the unit-cost table. */
  ghost predicate StandardAgreesAt(src: string, target: string, row: nat, col: nat)
    requires row <= |target| && col <= |src|
  {
    Differencer.Standard().Cell(src, target, row, col) == Lev(src, target, row, col)
  }

  /** The standard preset computes the unit-cost table. */
  lemma {:induction false} StandardIsLev(src: string, target: string, row: nat, col: nat)
    requires row <= |target| && col <= |src|
    ensures Differencer.Standard().Cell(src, target, row, col) == Lev(src, target, row, col)
    decreases row + col
  {
    StandardAgrees(src, target, row, col);
  }

  /** StandardIsLev stated cell by cell, by induction over row + col. */
  lemma {:induction false} StandardAgrees(src: string, target: string, row: nat, col: nat)
    requires row <= |target| && col <= |src|
    ensures StandardAgreesAt(src, target, row, col)
    decreases row + col
  {
    if row == 0 || col == 0 {
      StandardBase(src, target, row, col);
    } else {
      StandardAgrees(src, target, row, col - 1);
      StandardAgrees(src, target, row - 1, col);
      StandardAgrees(src, target, row - 1, col - 1);
      StandardStep(src, target, row, col);
    }
  }

  /** The base row and column of StandardIsLev. */
  lemma StandardBase(src: string, target: string, row: nat, col: nat)
    requires row <= |target| && col <= |src| && (row == 0 || col == 0)
    ensures StandardAgreesAt(src, target, row, col)
  {
    var d := Differencer.Standard();
    if row == 0 {
      assert d.Cell(src, target, row, col) == col * d.insert;
    } else {
      assert d.Cell(src, target, row, col) == row * d.delete;
    }
  }

  /** One interior cell of StandardIsLev, given its three neighbours. */
  lemma StandardStep(src: string, target: string, row: nat, col: nat)
    requires 0 < row <= |target| && 0 < col <= |src|
    requires StandardAgreesAt(src, target, row, col - 1)
    requires StandardAgreesAt(src, target, row - 1, col)
    requires StandardAgreesAt(src, target, row - 1, col - 1)
    ensures StandardAgreesAt(src, target, row, col)
  {
    assert Differencer.Standard().DiagCost(target[row - 1], src[col - 1]) == SubCost(target[row - 1], src[col - 1]);
  }

  /** The standard preset scores "abc" against "bca" as 2. */
  lemma StandardAbcBcaIsTwo()
    ensures Differencer.Standard().Cell("abc", "bca", 3, 3) == 2
  {
    StandardIsLev("abc", "bca", 3, 3);
    AbcBcaIsTwo();
  }
}
