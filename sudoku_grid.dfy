/**
 * The integer grid a Sudoku board is generated from: the row/column/box
 * validity check and the backtracking fill of `SudokuBoard`.
 * A grid is a 9×9 `seq<seq<int>>` in which 0 stands for an empty entry.
 * Swift passes the grid `inout`, which is copy-in/copy-out: the fill takes
 * the grid as a value and returns the grid it leaves behind.
 */
module SudokuGrid {

  type Grid = seq<seq<int>>

  predicate InRange(i: int) { 0 <= i < 9 }

  /** Nine rows of nine entries each. */
  predicate IsGrid(g: Grid) {
    |g| == 9 && forall r :: 0 <= r < 9 ==> |g[r]| == 9
  }

  /** Two positions share a row, a column or a 3×3 box. */
  predicate SameUnit(r1: int, c1: int, r2: int, c2: int) {
    r1 == r2 || c1 == c2 || (r1 / 3 == r2 / 3 && c1 / 3 == c2 / 3)
  }

  /** Every entry is 0 (empty) or a digit, and no digit is repeated in a row, column or box. */
  predicate Consistent(g: Grid) {
    && IsGrid(g)
    && (forall r, c :: 0 <= r < 9 && 0 <= c < 9 ==> 0 <= g[r][c] <= 9)
    && (forall r1, c1, r2, c2 ::
          0 <= r1 < 9 && 0 <= c1 < 9 && 0 <= r2 < 9 && 0 <= c2 < 9 &&
          (r1 != r2 || c1 != c2) && SameUnit(r1, c1, r2, c2) && g[r1][c1] != 0
          ==> g[r1][c1] != g[r2][c2])
  }

  predicate NoZeros(g: Grid)
    requires IsGrid(g)
  {
    forall r, c :: 0 <= r < 9 && 0 <= c < 9 ==> g[r][c] != 0
  }

  /** A completely filled grid that satisfies the Sudoku constraints. */
  predicate IsSolution(g: Grid) {
    Consistent(g) && NoZeros(g)
  }

  /** `s` agrees with every non-empty entry of `g`. */
  predicate Extends(s: Grid, g: Grid) {
    && IsGrid(s) && IsGrid(g)
    && forall r, c :: 0 <= r < 9 && 0 <= c < 9 && g[r][c] != 0 ==> s[r][c] == g[r][c]
  }

  /** Some solution agrees with every non-empty entry of `g`. */
  ghost predicate Solvable(g: Grid) {
    exists s :: IsSolution(s) && Extends(s, g)
  }

  /** The grid with the entry at (row, col) replaced by `n` and every other entry kept. */
  function Place(g: Grid, row: int, col: int, n: int): (p: Grid)
    requires IsGrid(g) && InRange(row) && InRange(col)
    ensures IsGrid(p) && p[row][col] == n
    ensures forall r, c :: 0 <= r < 9 && 0 <= c < 9 && (r != row || c != col) ==> p[r][c] == g[r][c]
  {
    g[row := g[row][col := n]]
  }

  function EmptyGrid(): (g: Grid)
    ensures IsGrid(g) && forall r, c :: 0 <= r < 9 && 0 <= c < 9 ==> g[r][c] == 0
  {
    seq(9, _ => seq(9, _ => 0))
  }

  /** The positions still holding 0; each level of the fill removes one. */
  function ZeroCells(g: Grid): set<(int, int)>
    requires IsGrid(g)
  {
    set r, c | 0 <= r < 9 && 0 <= c < 9 && g[r][c] == 0 :: (r, c)
  }

  // ---------------------------------------------------------------------
  // isValid
  // ---------------------------------------------------------------------

  /** The entries of column `col`, top to bottom. */
  function Column(g: Grid, col: int): (column: seq<int>)
    requires IsGrid(g) && InRange(col)
    ensures |column| == 9 && forall r :: 0 <= r < 9 ==> column[r] == g[r][col]
  {
    seq(9, r requires 0 <= r < 9 => g[r][col])
  }

  /** The double loop over the 3×3 box whose top-left corner is (br, bc). */
  predicate BoxContains(g: Grid, br: int, bc: int, num: int)
    requires IsGrid(g) && 0 <= br <= 6 && 0 <= bc <= 6
  {
    exists r, c :: br <= r < br + 3 && bc <= c < bc + 3 && g[r][c] == num
  }

  /**
   * `num` may be written at (row, col): it occurs nowhere in that row, that
   * column, or the box starting at (row / 3 * 3, col / 3 * 3).
   */
  function IsValid(g: Grid, row: int, col: int, num: int): (ok: bool)
    requires IsGrid(g) && InRange(row) && InRange(col)
    ensures ok <==> forall r, c :: 0 <= r < 9 && 0 <= c < 9 && SameUnit(row, col, r, c) ==> g[r][c] != num
  {
    if num in g[row] then false
    else if num in Column(g, col) then false
    else !BoxContains(g, row / 3 * 3, col / 3 * 3, num)
  }

  // ---------------------------------------------------------------------
  // Lemmas the fill needs
  // ---------------------------------------------------------------------

  /** Writing a valid digit into an empty entry keeps the grid consistent. */
  lemma PlaceValidKeepsConsistent(g: Grid, row: int, col: int, n: int)
    requires Consistent(g) && InRange(row) && InRange(col) && g[row][col] == 0
    requires 1 <= n <= 9 && IsValid(g, row, col, n)
    ensures Consistent(Place(g, row, col, n))
  {
    var p := Place(g, row, col, n);
    forall r1, c1, r2, c2 |
      0 <= r1 < 9 && 0 <= c1 < 9 && 0 <= r2 < 9 && 0 <= c2 < 9 &&
      (r1 != r2 || c1 != c2) && SameUnit(r1, c1, r2, c2) && p[r1][c1] != 0
      ensures p[r1][c1] != p[r2][c2]
    {
      if r1 == row && c1 == col {
        assert p[r2][c2] == g[r2][c2];
      } else if r2 == row && c2 == col {
        assert SameUnit(row, col, r1, c1);
      }
    }
  }

  /** A solution of `g` writes at an empty entry a digit that passes `IsValid`. */
  lemma SolutionDigitIsValid(g: Grid, s: Grid, row: int, col: int)
    requires IsSolution(s) && Extends(s, g) && InRange(row) && InRange(col) && g[row][col] == 0
    ensures 1 <= s[row][col] <= 9 && IsValid(g, row, col, s[row][col])
    ensures Extends(s, Place(g, row, col, s[row][col]))
  {
    forall r, c | 0 <= r < 9 && 0 <= c < 9 && SameUnit(row, col, r, c)
      ensures g[r][c] != s[row][col]
    {
      if g[r][c] != 0 {
        assert s[r][c] == g[r][c];
      }
    }
  }

  /** A digit rejected by `IsValid` leaves no solution. */
  lemma InvalidIsUnsolvable(g: Grid, row: int, col: int, n: int)
    requires IsGrid(g) && InRange(row) && InRange(col) && g[row][col] == 0 && n != 0
    ensures Solvable(Place(g, row, col, n)) ==> IsValid(g, row, col, n)
  {
    if Solvable(Place(g, row, col, n)) {
      var s :| IsSolution(s) && Extends(s, Place(g, row, col, n));
      assert Extends(s, g);
      SolutionDigitIsValid(g, s, row, col);
    }
  }

  /** If `g` is solvable, some digit at an empty entry keeps it solvable. */
  lemma SolvableHasDigit(g: Grid, row: int, col: int)
    requires IsGrid(g) && InRange(row) && InRange(col) && g[row][col] == 0
    ensures Solvable(g) ==> exists n :: 1 <= n <= 9 && Solvable(Place(g, row, col, n))
  {
    if Solvable(g) {
      var s :| IsSolution(s) && Extends(s, g);
      SolutionDigitIsValid(g, s, row, col);
    }
  }

  lemma PlaceShrinksZeroCells(g: Grid, row: int, col: int, n: int)
    requires IsGrid(g) && InRange(row) && InRange(col) && g[row][col] == 0 && n != 0
    ensures ZeroCells(Place(g, row, col, n)) < ZeroCells(g)
  {
    assert (row, col) in ZeroCells(g);
    assert (row, col) !in ZeroCells(Place(g, row, col, n));
  }

  /** The nine digits in ascending order, once each. */
  const Ascending: seq<int> := [1, 2, 3, 4, 5, 6, 7, 8, 9]

  /** A shuffle of 1 through 9: nine entries, all digits, that between them cover every digit. */
  predicate IsDigitOrder(order: seq<int>) {
    && |order| == 9
    && (forall k :: 0 <= k < |order| ==> 1 <= order[k] <= 9)
    && (forall d :: 1 <= d <= 9 ==> d in order)
  }

  /** The digits in ascending order are one of the orders a shuffle can give. */
  lemma AscendingIsDigitOrder()
    ensures IsDigitOrder(Ascending)
  {
    forall d | 1 <= d <= 9 ensures d in Ascending {
      assert Ascending[d - 1] == d;
    }
  }

  /** Shuffling 1 through 9: some order of the nine digits, chosen freely. */
  method ShuffledDigits() returns (order: seq<int>)
    ensures IsDigitOrder(order)
  {
    AscendingIsDigitOrder();
    order :| IsDigitOrder(order);
  }

  // ---------------------------------------------------------------------
  // fillGrid
  // ---------------------------------------------------------------------

  /**
   * Backtracking fill: find the first 0 in row-major order, try the digits
   * in a shuffled order, recurse after each valid write and reset the entry
   * to 0 when the recursion fails.
   */
  method FillGrid(grid: Grid) returns (ok: bool, filled: Grid)
    requires IsGrid(grid)
    ensures IsGrid(filled)
    ensures ok ==> NoZeros(filled) && Extends(filled, grid)
    ensures ok && Consistent(grid) ==> IsSolution(filled)
    ensures !ok ==> filled == grid && !Solvable(grid)
    decreases ZeroCells(grid)
  {
    filled := grid;
    var r := 0;
    while r < 9
      invariant 0 <= r <= 9 && filled == grid
      invariant forall r', c' :: 0 <= r' < r && 0 <= c' < 9 ==> grid[r'][c'] != 0
    {
      var c := 0;
      while c < 9
        invariant 0 <= c <= 9 && filled == grid
        invariant forall c' :: 0 <= c' < c ==> grid[r][c'] != 0
      {
        if filled[r][c] == 0 {
          var order := ShuffledDigits();
          var i := 0;
          while i < 9
            invariant 0 <= i <= 9 && filled == grid
            invariant forall k :: 0 <= k < i ==> !Solvable(Place(grid, r, c, order[k]))
          {
            var n := order[i];
            InvalidIsUnsolvable(grid, r, c, n);
            if IsValid(filled, r, c, n) {
              filled := Place(filled, r, c, n);
              PlaceShrinksZeroCells(grid, r, c, n);
              var sub;
              sub, filled := FillGrid(filled);
              if sub {
                if Consistent(grid) {
                  PlaceValidKeepsConsistent(grid, r, c, n);
                }
                return true, filled;
              }
              filled := Place(filled, r, c, 0);
              assert filled == grid by {
                assert forall r' :: 0 <= r' < 9 ==> filled[r'] == grid[r'];
              }
            }
            i := i + 1;
          }
          forall n | 1 <= n <= 9 ensures !Solvable(Place(grid, r, c, n)) {
            assert n in order;
            var k :| 0 <= k < 9 && order[k] == n;
          }
          SolvableHasDigit(grid, r, c);
          return false, filled;
        }
        c := c + 1;
      }
      r := r + 1;
    }
    ok := true;
  }

  // ---------------------------------------------------------------------
  // The empty grid can be filled
  // ---------------------------------------------------------------------

  /** A fixed Latin-square pattern that satisfies the box constraint too. */
  function Pattern(): (g: Grid)
    ensures IsGrid(g)
  {
    seq(9, r => seq(9, c => (3 * (r % 3) + r / 3 + c) % 9 + 1))
  }

  /** Below 18, equal residues modulo 9 are 9 apart or equal. */
  lemma SmallModNine(a: int, b: int)
    requires 0 <= a < 18 && 0 <= b < 18
    ensures a % 9 == b % 9 <==> (a == b || a == b + 9 || b == a + 9)
  {
    assert a % 9 == (if a < 9 then a else a - 9);
    assert b % 9 == (if b < 9 then b else b - 9);
  }

  lemma PatternCellsDiffer(r1: int, c1: int, r2: int, c2: int)
    requires InRange(r1) && InRange(c1) && InRange(r2) && InRange(c2)
    requires (r1 != r2 || c1 != c2) && SameUnit(r1, c1, r2, c2)
    ensures Pattern()[r1][c1] != Pattern()[r2][c2]
  {
    var x1, y1, x2, y2 := r1 % 3, r1 / 3, r2 % 3, r2 / 3;
    assert r1 == 3 * y1 + x1 && 0 <= x1 < 3 && 0 <= y1 < 3;
    assert r2 == 3 * y2 + x2 && 0 <= x2 < 3 && 0 <= y2 < 3;
    var a := 3 * x1 + y1 + c1;
    var b := 3 * x2 + y2 + c2;
    assert Pattern()[r1][c1] == a % 9 + 1 && Pattern()[r2][c2] == b % 9 + 1;
    SmallModNine(a, b);
    if r1 != r2 && c1 != c2 {
      assert -2 <= c1 - c2 <= 2;
    }
  }

  lemma PatternIsSolution()
    ensures IsSolution(Pattern())
  {
    var p := Pattern();
    forall r1, c1, r2, c2 |
      0 <= r1 < 9 && 0 <= c1 < 9 && 0 <= r2 < 9 && 0 <= c2 < 9 &&
      (r1 != r2 || c1 != c2) && SameUnit(r1, c1, r2, c2) && p[r1][c1] != 0
      ensures p[r1][c1] != p[r2][c2]
    {
      PatternCellsDiffer(r1, c1, r2, c2);
    }
  }

  lemma EmptyGridSolvable()
    ensures Solvable(EmptyGrid())
  {
    PatternIsSolution();
    assert Extends(Pattern(), EmptyGrid());
  }

  /** The fill that `generatePuzzle` runs always succeeds, with a full valid grid. */
  method FillEmptyGrid() returns (solution: Grid)
    ensures IsSolution(solution)
  {
    var ok;
    ok, solution := FillGrid(EmptyGrid());
    EmptyGridSolvable();
    assert Consistent(EmptyGrid());
  }
}
