/** Model of the 9x9 Sudoku grid validator, class `SudokuSolver`.

    A grid is a sequence of rows, each a sequence of integer cells. The
    validator cuts a filled grid into 27 validation groups (9 rows, then 9
    columns, then 9 3x3 blocks) and accepts the grid exactly when every
    group, once sorted, is the sequence 1, 2, ..., 9.
 */
module Sudoku {

  type Grid = seq<seq<int>>

  /** What every group must equal once sorted: [1, 2, 3, 4, 5, 6, 7, 8, 9]. */
  function ValidNumbers(): (digits: seq<int>) { seq(9, i => i + 1) }

  /** The three bands of indices that cut the grid into 3x3 areas. */
  const SudokuAreas: seq<seq<int>> := [[0, 1, 2], [3, 4, 5], [6, 7, 8]]

  /** What the validator needs so that none of its indexing fails: at least
      9 rows (the blocks read rows 0..8) and at least 9 cells in every row
      (the columns read cells 0..8 of every row). */
  predicate Shaped(g: Grid) {
    |g| >= 9 && forall r :: 0 <= r < |g| ==> |g[r]| >= 9
  }

  /** A grid of exactly 9 rows of exactly 9 cells. */
  predicate IsSquare(g: Grid) {
    |g| == 9 && forall r :: 0 <= r < |g| ==> |g[r]| == 9
  }

  // ---------------------------------------------------------------------
  // Sorting (the built-in `sorted` used on each group)
  // ---------------------------------------------------------------------

  predicate Sorted(s: seq<int>) {
    forall i, j :: 0 <= i < j < |s| ==> s[i] <= s[j]
  }

  /** Inserts `x` before the first element not smaller than it. */
  function Insert(x: int, s: seq<int>): (r: seq<int>)
  {
    if s == [] || x <= s[0] then [x] + s else [s[0]] + Insert(x, s[1..])
  }

  /** The ascending rearrangement of `s` (insertion sort). */
  function Sort(s: seq<int>): (r: seq<int>)
  {
    if s == [] then [] else Insert(s[0], Sort(s[1..]))
  }

  /** Inserting adds exactly `x`. */
  lemma {:induction false} InsertPermutation(x: int, s: seq<int>)
    ensures multiset(Insert(x, s)) == multiset(s) + multiset{x}
  {
    if s != [] && x > s[0] {
      assert s == [s[0]] + s[1..];
      InsertPermutation(x, s[1..]);
    }
  }

  /** Inserting into a sorted sequence keeps it sorted, and the smaller of
      `x` and the old head comes first. */
  lemma {:induction false} InsertSorted(x: int, s: seq<int>)
    requires Sorted(s)
    ensures |Insert(x, s)| == |s| + 1
    ensures Insert(x, s)[0] == if s == [] || x <= s[0] then x else s[0]
    ensures Sorted(Insert(x, s))
  {
    if s != [] && x > s[0] {
      var t := Insert(x, s[1..]);
      InsertSorted(x, s[1..]);
      var r := [s[0]] + t;
      assert Insert(x, s) == r;
      assert s[0] <= t[0];
      forall i, j | 0 <= i < j < |r| ensures r[i] <= r[j] {
        if i == 0 {
          assert t[0] <= t[j - 1];
        }
      }
    }
  }

  /** `Sort(s)` is sorted and holds exactly the elements of `s`. */
  lemma {:induction false} SortSortedPermutation(s: seq<int>)
    ensures Sorted(Sort(s))
    ensures multiset(Sort(s)) == multiset(s)
  {
    if s != [] {
      assert s == [s[0]] + s[1..];
      SortSortedPermutation(s[1..]);
      InsertPermutation(s[0], Sort(s[1..]));
      InsertSorted(s[0], Sort(s[1..]));
    }
  }

  /** The head of a sorted sequence is no larger than any of its elements. */
  lemma SortedHeadIsLeast(a: seq<int>, v: int)
    requires Sorted(a) && v in multiset(a)
    ensures a != [] && a[0] <= v
  {
    var i :| 0 <= i < |a| && a[i] == v;
  }

  /** Dropping the head drops one copy of it. */
  lemma TailMultiset(a: seq<int>)
    requires a != []
    ensures multiset(a[1..]) == multiset(a) - multiset{a[0]}
  {
    assert a == [a[0]] + a[1..];
  }

  /** Two sorted sequences with the same elements are equal: sorting has
      exactly one possible result. */
  lemma {:induction false} SortedUnique(a: seq<int>, b: seq<int>)
    requires Sorted(a) && Sorted(b)
    requires multiset(a) == multiset(b)
    ensures a == b
  {
    assert |a| == |b| by {
      assert |a| == |multiset(a)| && |b| == |multiset(b)|;
    }
    if a != [] {
      assert a[0] == b[0] by {
        assert a[0] in multiset(a) && b[0] in multiset(b);
        SortedHeadIsLeast(a, b[0]);
        SortedHeadIsLeast(b, a[0]);
      }
      assert multiset(a[1..]) == multiset(b[1..]) by {
        TailMultiset(a);
        TailMultiset(b);
      }
      SortedUnique(a[1..], b[1..]);
      assert a == [a[0]] + a[1..];
    }
  }

  // ---------------------------------------------------------------------
  // What a valid group is
  // ---------------------------------------------------------------------

  /** A group that holds each of the digits 1..9 exactly once. */
  ghost predicate DigitPermutation(s: seq<int>) {
    multiset(s) == multiset(ValidNumbers())
  }

  /** The comparison `sorted(group) == [1, ..., 9]` holds exactly when the
      group is a permutation of 1..9. */
  lemma ValidGroupIff(s: seq<int>)
    ensures IsValidGroup(s) <==> DigitPermutation(s)
  {
    var t := Sort(s);
    SortSortedPermutation(s);
    if DigitPermutation(s) {
      ValidNumbersSorted();
      SortedUnique(t, ValidNumbers());
    }
  }

  lemma ValidNumbersSorted()
    ensures Sorted(ValidNumbers())
  {
  }

  /** The test `is_valid` applies to each group: sorted, it is 1..9. */
  predicate IsValidGroup(group: seq<int>) {
    Sort(group) == ValidNumbers()
  }

  /** Each digit 1..9 occurs once in `ValidNumbers()`, and nothing else. */
  lemma ValidNumbersCount(v: int)
    ensures multiset(ValidNumbers())[v] == if 1 <= v <= 9 then 1 else 0
  {
    DistinctCountsAtMostOne(ValidNumbers(), v);
    if 1 <= v <= 9 {
      assert ValidNumbers()[v - 1] == v;
    } else {
      assert v !in ValidNumbers();
    }
  }

  /** `a` is contained in `b` and as large as `b`, so it is `b`. */
  lemma SubMultisetOfSameSize(a: multiset<int>, b: multiset<int>)
    requires a <= b && |a| == |b|
    ensures a == b
  {
    assert (b - a) + a == b;
    assert |b - a| == 0;
    assert b - a == multiset{};
  }

  /** No value occurs twice in a sequence with distinct entries. */
  lemma {:induction false} DistinctCountsAtMostOne(s: seq<int>, v: int)
    requires forall i, j :: 0 <= i < j < |s| ==> s[i] != s[j]
    ensures multiset(s)[v] <= 1
  {
    if s != [] {
      assert s == [s[0]] + s[1..];
      DistinctCountsAtMostOne(s[1..], v);
      if s[0] == v {
        assert v !in s[1..];
      }
    }
  }

  /** A value held at two positions occurs at least twice. */
  lemma TwoPositionsCountTwice(s: seq<int>, i: int, j: int)
    requires 0 <= i < j < |s| && s[i] == s[j]
    ensures multiset(s)[s[i]] >= 2
  {
    assert s == s[..i] + [s[i]] + s[i + 1..j] + [s[j]] + s[j + 1..];
    assert multiset(s) == multiset(s[..i]) + multiset{s[i]} + multiset(s[i + 1..j])
      + multiset{s[j]} + multiset(s[j + 1..]);
  }

  /** A group is a permutation of 1..9 exactly when it has nine cells, every
      cell is a digit 1..9, and no digit repeats. */
  lemma DigitPermutationIff(s: seq<int>)
    ensures DigitPermutation(s) <==>
      && |s| == 9
      && (forall i :: 0 <= i < |s| ==> 1 <= s[i] <= 9)
      && (forall i, j :: 0 <= i < j < |s| ==> s[i] != s[j])
  {
    var m := multiset(ValidNumbers());
    if DigitPermutation(s) {
      assert |s| == |multiset(s)| == |m| == 9;
      forall i | 0 <= i < |s| ensures 1 <= s[i] <= 9 {
        assert s[i] in multiset(s);
        ValidNumbersCount(s[i]);
      }
      forall i, j | 0 <= i < j < |s| ensures s[i] != s[j] {
        ValidNumbersCount(s[i]);
        if s[i] == s[j] {
          TwoPositionsCountTwice(s, i, j);
        }
      }
    }
    if && |s| == 9
       && (forall i :: 0 <= i < |s| ==> 1 <= s[i] <= 9)
       && (forall i, j :: 0 <= i < j < |s| ==> s[i] != s[j])
    {
      forall v ensures multiset(s)[v] <= m[v] {
        ValidNumbersCount(v);
        DistinctCountsAtMostOne(s, v);
        if v in multiset(s) {
          assert v in s;
        }
      }
      SubMultisetOfSameSize(multiset(s), m);
    }
  }

  /** Nine cells that between them show every digit 1..9 form a permutation
      of 1..9 (the pigeonhole principle). */
  lemma NineCellsCoveringDigits(s: seq<int>)
    requires |s| == 9
    requires forall d :: 1 <= d <= 9 ==> d in s
    ensures DigitPermutation(s)
  {
    var m := multiset(ValidNumbers());
    forall v ensures m[v] <= multiset(s)[v] {
      ValidNumbersCount(v);
      if 1 <= v <= 9 {
        assert v in s;
      }
    }
    SubMultisetOfSameSize(m, multiset(s));
  }

  // ---------------------------------------------------------------------
  // The validation groups, as a reference definition
  // ---------------------------------------------------------------------

  /** Column `c`: cell `c` of every row, top to bottom. */
  function Column(g: Grid, c: int): (column: seq<int>)
    requires Shaped(g) && 0 <= c < 9
  {
    seq(|g|, r requires 0 <= r < |g| => g[r][c])
  }

  /** The nine columns, left to right. */
  function Columns(g: Grid): (columns: seq<seq<int>>)
    requires Shaped(g)
  {
    seq(9, c requires 0 <= c < 9 => Column(g, c))
  }

  /** The three cells of column `c` that lie in row band `rb`, top to
      bottom. */
  function BandColumn(g: Grid, c: int, rb: int): (cells: seq<int>)
    requires Shaped(g) && 0 <= c < 9 && 0 <= rb < 3
  {
    [g[3 * rb][c], g[3 * rb + 1][c], g[3 * rb + 2][c]]
  }

  /** The 3x3 block in column band `cb` and row band `rb`, read column by
      column. */
  function Block(g: Grid, cb: int, rb: int): (block: seq<int>)
    requires Shaped(g) && 0 <= cb < 3 && 0 <= rb < 3
  {
    BandColumn(g, 3 * cb, rb) + BandColumn(g, 3 * cb + 1, rb) + BandColumn(g, 3 * cb + 2, rb)
  }

  /** The nine blocks; the column band varies slowest. */
  function Blocks(g: Grid): (blocks: seq<seq<int>>)
    requires Shaped(g)
  {
    seq(9, b requires 0 <= b < 9 => Block(g, b / 3, b % 3))
  }

  /** All validation groups: the rows, then the columns, then the blocks. */
  function Groups(g: Grid): (groups: seq<seq<int>>)
    requires Shaped(g)
  {
    g + Columns(g) + Blocks(g)
  }

  /** The acceptance condition: every group, once sorted, is 1..9. */
  predicate ValidGrid(g: Grid)
    requires Shaped(g)
  {
    forall k :: 0 <= k < |Groups(g)| ==> IsValidGroup(Groups(g)[k])
  }

  // ---------------------------------------------------------------------
  // Shape and contents of the groups
  // ---------------------------------------------------------------------

  /** A 9x9 grid yields exactly 27 groups of 9 cells each. */
  lemma GroupsShape(g: Grid)
    requires IsSquare(g)
    ensures Shaped(g)
    ensures |Groups(g)| == 27
    ensures forall k :: 0 <= k < 27 ==> |Groups(g)[k]| == 9
  {
  }

  /** Group `r` is row `r`, for every row. */
  lemma RowAt(g: Grid, r: int)
    requires Shaped(g) && 0 <= r < |g|
    ensures Groups(g)[r] == g[r]
  {
  }

  /** Element `r` of the group that follows the rows by `c` is the cell in
      row `r`, column `c`; that group has one element per row. */
  lemma ColumnAt(g: Grid, c: int, r: int)
    requires Shaped(g) && 0 <= c < 9 && 0 <= r < |g|
    ensures |Groups(g)[|g| + c]| == |g|
    ensures Groups(g)[|g| + c][r] == g[r][c]
  {
  }

  /** Band `a` of the areas holds the indices `3 * a`, `3 * a + 1`, `3 * a + 2`. */
  lemma AreaAt(a: int, x: int)
    requires 0 <= a < 3 && 0 <= x < 3
    ensures |SudokuAreas| == 3 && |SudokuAreas[a]| == 3
    ensures SudokuAreas[a][x] == 3 * a + x
  {
  }

  /** Block group `3 * cb + rb` is the block in bands `cb`, `rb`. */
  lemma BlocksAt(g: Grid, cb: int, rb: int)
    requires Shaped(g) && 0 <= cb < 3 && 0 <= rb < 3
    ensures |Blocks(g)| == 9
    ensures Blocks(g)[3 * cb + rb] == Block(g, cb, rb)
  {
    var b := 3 * cb + rb;
    assert b / 3 == cb && b % 3 == rb;
  }

  /** Element `3 * ci + ri` of the block in bands `cb`, `rb` is the cell in
      row `3 * rb + ri`, column `3 * cb + ci`. */
  lemma BlockElement(g: Grid, cb: int, rb: int, ci: int, ri: int)
    requires Shaped(g)
    requires 0 <= cb < 3 && 0 <= rb < 3 && 0 <= ci < 3 && 0 <= ri < 3
    ensures |Block(g, cb, rb)| == 9
    ensures Block(g, cb, rb)[3 * ci + ri] == g[3 * rb + ri][3 * cb + ci]
  {
    var block := Block(g, cb, rb);
    var c := 3 * cb + ci;
    assert block[3 * ci..3 * ci + 3] == BandColumn(g, c, rb) by {
      if ci == 0 {
      } else if ci == 1 {
      } else {
      }
    }
  }

  /** Element `3 * ci + ri` of block group `3 * cb + rb` (counted after the
      rows and the columns) is the cell in row `3 * rb + ri`, column
      `3 * cb + ci`. */
  lemma BlockAt(g: Grid, cb: int, rb: int, ci: int, ri: int)
    requires Shaped(g)
    requires 0 <= cb < 3 && 0 <= rb < 3 && 0 <= ci < 3 && 0 <= ri < 3
    ensures |Groups(g)[|g| + 9 + 3 * cb + rb]| == 9
    ensures Groups(g)[|g| + 9 + 3 * cb + rb][3 * ci + ri] == g[3 * rb + ri][3 * cb + ci]
  {
    BlocksAt(g, cb, rb);
    BlockElement(g, cb, rb, ci, ri);
  }

  /** Every cell of a 9x9 grid lies in its row group, its column group and
      the block group of its two bands, at the position the grouping gives
      it; so the blocks between them cover every cell. */
  lemma CellGroups(g: Grid, r: int, c: int)
    requires IsSquare(g) && 0 <= r < 9 && 0 <= c < 9
    ensures Shaped(g)
    ensures Groups(g)[r][c] == g[r][c]
    ensures Groups(g)[9 + c][r] == g[r][c]
    ensures Groups(g)[18 + 3 * (c / 3) + r / 3][3 * (c % 3) + r % 3] == g[r][c]
  {
    var cb, rb, ci, ri := c / 3, r / 3, c % 3, r % 3;
    BlockAt(g, cb, rb, ci, ri);
    ColumnAt(g, c, r);
  }

  // ---------------------------------------------------------------------
  // Validity
  // ---------------------------------------------------------------------

  /** A valid grid is exactly 9x9 and each of its 27 groups holds every
      digit 1..9 exactly once; conversely such a grid is valid. */
  lemma ValidGridIff(g: Grid)
    requires Shaped(g)
    ensures ValidGrid(g) <==>
      IsSquare(g) && forall k :: 0 <= k < 27 ==> DigitPermutation(Groups(g)[k])
  {
    var groups := Groups(g);
    forall k | 0 <= k < |groups|
      ensures IsValidGroup(groups[k]) <==> DigitPermutation(groups[k])
    {
      ValidGroupIff(groups[k]);
    }
    if ValidGrid(g) {
      forall k | 0 <= k < |groups| ensures |groups[k]| == 9 {
        DigitPermutationIff(groups[k]);
      }
      assert groups[|g|] == Column(g, 0);
      forall r | 0 <= r < |g| ensures |g[r]| == 9 {
        assert groups[r] == g[r];
      }
    }
  }

  /** Every group of a valid grid has nine distinct digits 1..9. */
  lemma ValidGridGroup(g: Grid, k: int)
    requires Shaped(g) && ValidGrid(g) && 0 <= k < |Groups(g)|
    ensures |Groups(g)[k]| == 9
    ensures forall i :: 0 <= i < 9 ==> 1 <= Groups(g)[k][i] <= 9
    ensures forall i, j :: 0 <= i < j < 9 ==> Groups(g)[k][i] != Groups(g)[k][j]
  {
    ValidGroupIff(Groups(g)[k]);
    DigitPermutationIff(Groups(g)[k]);
  }

  /** A valid grid is 9x9 and every cell holds a digit 1..9. */
  lemma ValidGridCells(g: Grid)
    requires Shaped(g) && ValidGrid(g)
    ensures IsSquare(g)
    ensures forall r, c :: 0 <= r < 9 && 0 <= c < 9 ==> 1 <= g[r][c] <= 9
  {
    ValidGridIff(g);
    forall r, c | 0 <= r < 9 && 0 <= c < 9 ensures 1 <= g[r][c] <= 9 {
      ValidGridGroup(g, r);
      RowAt(g, r);
    }
  }

  /** No digit repeats within a row of a valid grid. */
  lemma ValidGridRowsDistinct(g: Grid)
    requires Shaped(g) && ValidGrid(g)
    ensures forall r, c1, c2 :: 0 <= r < 9 && 0 <= c1 < c2 < 9 ==> g[r][c1] != g[r][c2]
  {
    forall r, c1, c2 | 0 <= r < 9 && 0 <= c1 < c2 < 9 ensures g[r][c1] != g[r][c2] {
      ValidGridGroup(g, r);
      RowAt(g, r);
    }
  }

  /** No digit repeats within a column of a valid grid. */
  lemma ValidGridColumnsDistinct(g: Grid)
    requires Shaped(g) && ValidGrid(g)
    ensures forall c, r1, r2 :: 0 <= c < 9 && 0 <= r1 < r2 < 9 ==> g[r1][c] != g[r2][c]
  {
    ValidGridIff(g);
    forall c, r1, r2 | 0 <= c < 9 && 0 <= r1 < r2 < 9 ensures g[r1][c] != g[r2][c] {
      ValidGridGroup(g, 9 + c);
      ColumnAt(g, c, r1);
      ColumnAt(g, c, r2);
    }
  }

  /** Two different cells of one 3x3 block of a valid grid differ. */
  lemma ValidGridBlockCellsDiffer(g: Grid, r1: int, c1: int, r2: int, c2: int)
    requires Shaped(g) && ValidGrid(g)
    requires 0 <= r1 < 9 && 0 <= c1 < 9 && 0 <= r2 < 9 && 0 <= c2 < 9
    requires r1 / 3 == r2 / 3 && c1 / 3 == c2 / 3 && (r1, c1) != (r2, c2)
    ensures g[r1][c1] != g[r2][c2]
  {
    var cb, rb := c1 / 3, r1 / 3;
    var ci1, ri1, ci2, ri2 := c1 - 3 * cb, r1 - 3 * rb, c2 - 3 * cb, r2 - 3 * rb;
    assert 0 <= ci1 < 3 && 0 <= ri1 < 3 && 0 <= ci2 < 3 && 0 <= ri2 < 3;
    assert 3 * ci1 + ri1 != 3 * ci2 + ri2;
    BlockAt(g, cb, rb, ci1, ri1);
    BlockAt(g, cb, rb, ci2, ri2);
    ValidGridGroup(g, |g| + 9 + 3 * cb + rb);
  }

  /** No digit repeats within a 3x3 block of a valid grid: two different
      cells in the same row band and column band differ. */
  lemma ValidGridBlocksDistinct(g: Grid)
    requires Shaped(g) && ValidGrid(g)
    ensures forall r1, c1, r2, c2 ::
      && 0 <= r1 < 9 && 0 <= c1 < 9 && 0 <= r2 < 9 && 0 <= c2 < 9
      && r1 / 3 == r2 / 3 && c1 / 3 == c2 / 3 && (r1, c1) != (r2, c2)
      ==> g[r1][c1] != g[r2][c2]
  {
    forall r1, c1, r2, c2 |
      && 0 <= r1 < 9 && 0 <= c1 < 9 && 0 <= r2 < 9 && 0 <= c2 < 9
      && r1 / 3 == r2 / 3 && c1 / 3 == c2 / 3 && (r1, c1) != (r2, c2)
      ensures g[r1][c1] != g[r2][c2]
    {
      ValidGridBlockCellsDiffer(g, r1, c1, r2, c2);
    }
  }

  // ---------------------------------------------------------------------
  // The solver object
  // ---------------------------------------------------------------------

  /** Holds the grid it validates. Neither method has a modifies clause, so
      neither can change `grid`. */
  class SudokuSolver {
    var grid: Grid

    constructor (grid: Grid)
      ensures this.grid == grid
    {
      this.grid := grid;
    }

    /** The 27 groups, built as the rows, the columns, and then the blocks
        assembled cell by cell over the bands. */
    method ValidationGroups() returns (groups: seq<seq<int>>)
      requires Shaped(grid)
      ensures groups == Groups(grid)
    {
      groups := [];
      var rows := grid;
      groups := groups + rows;
      var columns := Columns(grid);
      groups := groups + columns;

      ghost var blocks := Blocks(grid);
      var cb := 0;
      while cb < |SudokuAreas|
        invariant 0 <= cb <= 3
        invariant groups == grid + columns + blocks[..3 * cb]
      {
        var rb := 0;
        while rb < |SudokuAreas|
          invariant 0 <= rb <= 3
          invariant groups == grid + columns + blocks[..3 * cb + rb]
        {
          var group := AreaGroup(cb, rb);
          BlocksAt(grid, cb, rb);
          assert group == blocks[3 * cb + rb];
          assert blocks[..3 * cb + rb + 1] == blocks[..3 * cb + rb] + [group];
          groups := groups + [group];
          rb := rb + 1;
        }
        cb := cb + 1;
      }
      assert blocks[..9] == blocks;
    }

    /** The block for column area `cb` and row area `rb`: for each column
        of the area, its cells in the area's rows, top to bottom. */
    method AreaGroup(cb: int, rb: int) returns (group: seq<int>)
      requires Shaped(grid) && 0 <= cb < 3 && 0 <= rb < 3
      ensures group == Block(grid, cb, rb)
    {
      var columnArea := SudokuAreas[cb];
      var rowArea := SudokuAreas[rb];
      ghost var block := Block(grid, cb, rb);
      group := [];
      var ci := 0;
      while ci < |columnArea|
        invariant 0 <= ci <= 3
        invariant group == block[..3 * ci]
      {
        var column := columnArea[ci];
        var ri := 0;
        while ri < |rowArea|
          invariant 0 <= ri <= 3
          invariant group == block[..3 * ci + ri]
        {
          var row := rowArea[ri];
          AreaAt(cb, ci);
          AreaAt(rb, ri);
          BlockElement(grid, cb, rb, ci, ri);
          group := group + [grid[row][column]];
          ri := ri + 1;
        }
        ci := ci + 1;
      }
    }

    /** Checks the groups in order and stops at the first one that, sorted,
        is not 1..9. The ghost result `inspected` is the number of groups
        passed before stopping, so on rejection it is the index of the first
        failing group and no later group matters. */
    method IsValid() returns (ok: bool, ghost inspected: nat)
      requires Shaped(grid)
      ensures ok <==> ValidGrid(grid)
      ensures inspected <= |Groups(grid)|
      ensures forall k :: 0 <= k < inspected ==> IsValidGroup(Groups(grid)[k])
      ensures ok ==> inspected == |Groups(grid)|
      ensures !ok ==> inspected < |Groups(grid)| && !IsValidGroup(Groups(grid)[inspected])
    {
      var groups := ValidationGroups();
      var i := 0;
      while i < |groups|
        invariant 0 <= i <= |groups|
        invariant forall k :: 0 <= k < i ==> IsValidGroup(groups[k])
      {
        if !IsValidGroup(groups[i]) {
          return false, i;
        }
        i := i + 1;
      }
      return true, |groups|;
    }
  }

  // ---------------------------------------------------------------------
  // The example grid
  // ---------------------------------------------------------------------

  const ExampleGrid: Grid := [
    [7, 8, 4,  1, 5, 9,  3, 2, 6],
    [5, 3, 9,  6, 7, 2,  8, 4, 1],
    [6, 1, 2,  4, 3, 8,  7, 5, 9],

    [9, 2, 8,  7, 1, 5,  4, 6, 3],
    [3, 5, 7,  8, 4, 6,  1, 9, 2],
    [4, 6, 1,  9, 2, 3,  5, 8, 7],

    [8, 7, 6,  3, 9, 4,  2, 1, 5],
    [2, 4, 3,  5, 6, 1,  9, 7, 8],
    [1, 9, 5,  2, 8, 7,  6, 3, 4]
  ]

  /** The columns of the example grid. */
  const ExampleColumns: seq<seq<int>> := [
    [7, 5, 6, 9, 3, 4, 8, 2, 1], [8, 3, 1, 2, 5, 6, 7, 4, 9], [4, 9, 2, 8, 7, 1, 6, 3, 5],
    [1, 6, 4, 7, 8, 9, 3, 5, 2], [5, 7, 3, 1, 4, 2, 9, 6, 8], [9, 2, 8, 5, 6, 3, 4, 1, 7],
    [3, 8, 7, 4, 1, 5, 2, 9, 6], [2, 4, 5, 6, 9, 8, 1, 7, 3], [6, 1, 9, 3, 2, 7, 5, 8, 4]
  ]

  /** The blocks of the example grid, in validation order. */
  const ExampleBlocks: seq<seq<int>> := [
    [7, 5, 6, 8, 3, 1, 4, 9, 2], [9, 3, 4, 2, 5, 6, 8, 7, 1], [8, 2, 1, 7, 4, 9, 6, 3, 5],
    [1, 6, 4, 5, 7, 3, 9, 2, 8], [7, 8, 9, 1, 4, 2, 5, 6, 3], [3, 5, 2, 9, 6, 8, 4, 1, 7],
    [3, 8, 7, 2, 4, 5, 6, 1, 9], [4, 1, 5, 6, 9, 8, 3, 2, 7], [2, 9, 6, 1, 7, 3, 5, 8, 4]
  ]

  lemma ExampleColumnsAre()
    ensures Shaped(ExampleGrid) && Columns(ExampleGrid) == ExampleColumns
  {
    assert IsSquare(ExampleGrid);
    forall c | 0 <= c < 9 ensures Columns(ExampleGrid)[c] == ExampleColumns[c] {
      assert |Column(ExampleGrid, c)| == 9;
    }
  }

  lemma ExampleLeftBlocks()
    ensures Shaped(ExampleGrid)
    ensures Blocks(ExampleGrid)[0..3] == ExampleBlocks[0..3]
  {
    assert IsSquare(ExampleGrid);
    assert Block(ExampleGrid, 0, 0) == ExampleBlocks[0];
    assert Block(ExampleGrid, 0, 1) == ExampleBlocks[1];
    assert Block(ExampleGrid, 0, 2) == ExampleBlocks[2];
  }

  lemma ExampleMiddleBlocks()
    ensures Shaped(ExampleGrid)
    ensures Blocks(ExampleGrid)[3..6] == ExampleBlocks[3..6]
  {
    assert IsSquare(ExampleGrid);
    assert Block(ExampleGrid, 1, 0) == ExampleBlocks[3];
    assert Block(ExampleGrid, 1, 1) == ExampleBlocks[4];
    assert Block(ExampleGrid, 1, 2) == ExampleBlocks[5];
  }

  lemma ExampleRightBlocks()
    ensures Shaped(ExampleGrid)
    ensures Blocks(ExampleGrid)[6..9] == ExampleBlocks[6..9]
  {
    assert IsSquare(ExampleGrid);
    assert Block(ExampleGrid, 2, 0) == ExampleBlocks[6];
    assert Block(ExampleGrid, 2, 1) == ExampleBlocks[7];
    assert Block(ExampleGrid, 2, 2) == ExampleBlocks[8];
  }

  lemma ExampleBlocksAre()
    ensures Shaped(ExampleGrid) && Blocks(ExampleGrid) == ExampleBlocks
  {
    ExampleLeftBlocks();
    ExampleMiddleBlocks();
    ExampleRightBlocks();
    var blocks := Blocks(ExampleGrid);
    assert blocks == blocks[0..3] + blocks[3..6] + blocks[6..9];
    assert ExampleBlocks == ExampleBlocks[0..3] + ExampleBlocks[3..6] + ExampleBlocks[6..9];
  }

  /** Every one of the nine groups in `groups` shows every digit 1..9. */
  ghost predicate NineGroupsShowAllDigits(groups: seq<seq<int>>) {
    |groups| == 9 &&
    forall k, d :: 0 <= k < 9 && 1 <= d <= 9 ==> |groups[k]| == 9 && d in groups[k]
  }

  lemma ExampleRowsShowAllDigits()
    ensures NineGroupsShowAllDigits(ExampleGrid)
  {
  }

  lemma ExampleColumnsShowAllDigits()
    ensures NineGroupsShowAllDigits(ExampleColumns)
  {
  }

  lemma ExampleBlocksShowAllDigits()
    ensures NineGroupsShowAllDigits(ExampleBlocks)
  {
  }

  /** The example grid is a solved Sudoku. */
  lemma ExampleGridIsValid()
    ensures Shaped(ExampleGrid) && ValidGrid(ExampleGrid)
  {
    ExampleColumnsAre();
    ExampleBlocksAre();
    ExampleRowsShowAllDigits();
    ExampleColumnsShowAllDigits();
    ExampleBlocksShowAllDigits();
    var groups := Groups(ExampleGrid);
    assert groups == ExampleGrid + ExampleColumns + ExampleBlocks;
    forall k | 0 <= k < 27 ensures DigitPermutation(groups[k]) {
      NineCellsCoveringDigits(groups[k]);
    }
    assert IsSquare(ExampleGrid);
    ValidGridIff(ExampleGrid);
  }

  /** Running the validator on the example grid, as the program's entry
      point does, accepts it. */
  method ValidateExampleGrid() returns (ok: bool)
    ensures ok
  {
    var sudoku := new SudokuSolver(ExampleGrid);
    ExampleGridIsValid();
    ghost var inspected;
    ok, inspected := sudoku.IsValid();
  }
}
