/**
 * The Sudoku board: cells with their derived properties, difficulty levels,
 * puzzle generation, the player's placement and clearing driven by the
 * selection, and the solved check.
 */
module SudokuBoard {

  import opened Optional
  import opened SudokuGrid

  /** A single cell; `id` (a UUID) is not modelled. */
  datatype SudokuCell = SudokuCell(
    row: int,
    col: int,
    solution: int,          // the correct value, 1..9
    isGiven: bool,          // pre-filled clue
    playerValue: Option<int>,
    isSelected: bool)
  {
    predicate IsEmpty()
      ensures IsEmpty() <==> !IsFilled()
    {
      !isGiven && playerValue == None
    }

    /** The player's answer is present and equals the solution; a correct cell is filled and not empty. */
    predicate IsCorrect()
      ensures IsCorrect() ==> IsFilled() && !IsEmpty()
    {
      playerValue == Some(solution)
    }

    predicate IsFilled() {
      isGiven || playerValue != None
    }

    /** A given cell shows its solution, any other cell the player's answer, if any. */
    function DisplayValue(): (v: Option<int>)
      ensures v == None <==> IsEmpty()
      ensures IsCorrect() ==> v == Some(solution)
      ensures isGiven ==> v == Some(solution)
      ensures !isGiven ==> v == playerValue
    {
      if isGiven then Some(solution) else playerValue
    }
  }

  /** A cell is filled exactly when it displays a value. */
  lemma FilledIffDisplayed(cell: SudokuCell)
    ensures cell.IsFilled() <==> cell.DisplayValue() != None
  {
  }

  datatype Difficulty = Easy | Medium | Hard
  {
    /** How many of the 81 cells the generator turns into non-given cells. */
    function CellsToRemove(): (n: nat)
      ensures 0 < n < 81
    {
      match this
      case Easy => 35
      case Medium => 45
      case Hard => 55
    }
  }

  type Cells = seq<seq<SudokuCell>>

  predicate IsCellGrid(cells: Cells) {
    |cells| == 9 && forall r :: 0 <= r < 9 ==> |cells[r]| == 9
  }

  /** Every cell of the row is a given or holds its own solution as the answer. */
  predicate RowSolved(row: seq<SudokuCell>)
    ensures RowSolved(row) <==>
      forall c :: 0 <= c < |row| ==> row[c].isGiven || row[c].playerValue == Some(row[c].solution)
  {
    if row == [] then true
    else (row[0].isGiven || row[0].playerValue == Some(row[0].solution)) && RowSolved(row[1..])
  }

  /** Every row of the cells is solved. */
  predicate AllSolved(cells: Cells)
    ensures AllSolved(cells) <==>
      forall r, c :: 0 <= r < |cells| && 0 <= c < |cells[r]| ==>
        cells[r][c].isGiven || cells[r][c].playerValue == Some(cells[r][c].solution)
  {
    if cells == [] then true
    else RowSolved(cells[0]) && AllSolved(cells[1..])
  }

  /** The solution values, as the integer grid they were generated from. */
  function Solutions(cells: Cells): (g: Grid)
    requires IsCellGrid(cells)
    ensures IsGrid(g) && forall r, c :: 0 <= r < 9 && 0 <= c < 9 ==> g[r][c] == cells[r][c].solution
  {
    seq(9, r requires 0 <= r < 9 => seq(9, c requires 0 <= c < 9 => cells[r][c].solution))
  }

  /** The flat indices `r * 9 + c` of the cells that are not given. */
  function NonGivenIndices(cells: Cells): set<int>
    requires IsCellGrid(cells)
  {
    set r, c | 0 <= r < 9 && 0 <= c < 9 && !cells[r][c].isGiven :: r * 9 + c
  }

  /**
   * What `generatePuzzle` leaves in `cells`: cell [r][c] knows its own row
   * and column, is unselected and unanswered, the solutions form a valid
   * completed Sudoku, and exactly `CellsToRemove` cells are not given.
   */
  predicate FreshPuzzle(cells: Cells, difficulty: Difficulty) {
    && IsCellGrid(cells)
    && (forall r, c :: 0 <= r < 9 && 0 <= c < 9 ==>
          cells[r][c].row == r && cells[r][c].col == c &&
          cells[r][c].playerValue == None && !cells[r][c].isSelected)
    && IsSolution(Solutions(cells))
    && |NonGivenIndices(cells)| == difficulty.CellsToRemove()
  }

  /**
   * `after` is `before` with only the player value of (row, col) replaced by `v`:
   * no other cell and no other field of that cell changes.
   */
  predicate PlayerValueSet(before: Cells, after: Cells, row: int, col: int, v: Option<int>)
    requires InRange(row) && InRange(col)
  {
    && IsCellGrid(before) && IsCellGrid(after)
    && after[row][col] == before[row][col].(playerValue := v)
    && forall r, c :: 0 <= r < 9 && 0 <= c < 9 && (r != row || c != col) ==> after[r][c] == before[r][c]
  }

  /** A player write never touches the puzzle itself: solutions and givens stay as they were. */
  lemma PlayerValueSetKeepsPuzzle(before: Cells, after: Cells, row: int, col: int, v: Option<int>)
    requires InRange(row) && InRange(col) && PlayerValueSet(before, after, row, col, v)
    requires !before[row][col].isGiven
    ensures Solutions(after) == Solutions(before)
    ensures NonGivenIndices(after) == NonGivenIndices(before)
    ensures forall r, c :: 0 <= r < 9 && 0 <= c < 9 && before[r][c].isGiven ==> after[r][c] == before[r][c]
  {
    assert forall r :: 0 <= r < 9 ==> Solutions(after)[r] == Solutions(before)[r];
    forall x ensures x in NonGivenIndices(after) <==> x in NonGivenIndices(before) {
      if x in NonGivenIndices(before) {
        var r, c :| 0 <= r < 9 && 0 <= c < 9 && !before[r][c].isGiven && x == r * 9 + c;
        assert !after[r][c].isGiven;
      }
      if x in NonGivenIndices(after) {
        var r, c :| 0 <= r < 9 && 0 <= c < 9 && !after[r][c].isGiven && x == r * 9 + c;
        assert !before[r][c].isGiven;
      }
    }
  }

  /** A set of indices below `n` with fewer than `n` members misses one of them. */
  lemma {:induction false} SomeIndexLeft(removed: set<int>, n: nat)
    requires forall i :: i in removed ==> 0 <= i < n
    requires |removed| < n
    ensures exists i :: 0 <= i < n && i !in removed
  {
    if n - 1 in removed {
      SomeIndexLeft(removed - {n - 1}, n - 1);
    }
  }

  lemma SplitIndex(x: int)
    requires 0 <= x < 81
    ensures 0 <= x / 9 < 9 && 0 <= x % 9 < 9 && (x / 9) * 9 + x % 9 == x
  {
  }

  /** The cells `generatePuzzle` builds from a solution grid and a set of removed indices. */
  predicate BuiltFrom(cells: Cells, grid: Grid, removed: set<int>)
    requires IsGrid(grid)
  {
    && IsCellGrid(cells)
    && forall r, c :: 0 <= r < 9 && 0 <= c < 9 ==>
         cells[r][c] == SudokuCell(r, c, grid[r][c], r * 9 + c !in removed, None, false)
  }

  lemma BuiltSolutions(cells: Cells, grid: Grid, removed: set<int>)
    requires IsGrid(grid) && BuiltFrom(cells, grid, removed)
    ensures Solutions(cells) == grid
  {
    assert forall r :: 0 <= r < 9 ==> Solutions(cells)[r] == grid[r];
  }

  lemma BuiltNonGiven(cells: Cells, grid: Grid, removed: set<int>)
    requires IsGrid(grid) && BuiltFrom(cells, grid, removed)
    requires forall i :: i in removed ==> 0 <= i < 81
    ensures NonGivenIndices(cells) == removed
  {
    forall x | x in removed ensures x in NonGivenIndices(cells) {
      SplitIndex(x);
      var r, c := x / 9, x % 9;
      assert !cells[r][c].isGiven;
    }
  }

  /** A removed index leaves an unanswered, non-given cell, so the new puzzle is not solved. */
  lemma BuiltNotSolved(cells: Cells, grid: Grid, removed: set<int>, x: int)
    requires IsGrid(grid) && BuiltFrom(cells, grid, removed)
    requires (forall i :: i in removed ==> 0 <= i < 81) && x in removed
    ensures !AllSolved(cells)
  {
    SplitIndex(x);
    var r, c := x / 9, x % 9;
    assert cells[r][c] == SudokuCell(r, c, grid[r][c], x !in removed, None, false);
  }

  lemma BuiltCellsArePuzzle(cells: Cells, grid: Grid, removed: set<int>, difficulty: Difficulty, x: int)
    requires IsSolution(grid) && BuiltFrom(cells, grid, removed)
    requires (forall i :: i in removed ==> 0 <= i < 81) && |removed| == difficulty.CellsToRemove()
    requires x in removed
    ensures FreshPuzzle(cells, difficulty) && !AllSolved(cells)
  {
    BuiltSolutions(cells, grid, removed);
    BuiltNonGiven(cells, grid, removed);
    BuiltNotSolved(cells, grid, removed, x);
  }

  class Board {
    var cells: Cells
    var selectedCell: Option<(int, int)>
    const difficulty: Difficulty

    predicate Valid()
      reads this
    {
      IsCellGrid(cells)
    }

    constructor (difficulty: Difficulty)
      ensures Valid() && this.difficulty == difficulty
      ensures selectedCell == None && FreshPuzzle(cells, difficulty) && !IsSolved()
    {
      this.difficulty := difficulty;
      cells := seq(9, _ => seq(9, _ => SudokuCell(0, 0, 0, false, None, false)));
      selectedCell := None;
      new;
      GeneratePuzzle();
    }

    /**
     * Fill a grid, pick `CellsToRemove` distinct flat indices, and build
     * the cells: those indices are not given, every other cell is.
     * `Int.random` is a choice of an index; a draw of an index already in
     * the set inserts nothing, so only the draws that grow the set are kept.
     */
    method GeneratePuzzle()
      modifies this`cells
      ensures Valid() && FreshPuzzle(cells, difficulty) && !IsSolved()
    {
      var grid := FillEmptyGrid();

      var removed: set<int> := {};
      ghost var drawn := 0;   // some member of `removed`, once it has one
      while |removed| < difficulty.CellsToRemove()
        invariant forall i :: i in removed ==> 0 <= i < 81
        invariant |removed| <= difficulty.CellsToRemove()
        invariant |removed| > 0 ==> drawn in removed
        decreases difficulty.CellsToRemove() - |removed|
      {
        SomeIndexLeft(removed, 81);
        var idx :| 0 <= idx < 81 && idx !in removed;
        removed := removed + {idx};
        drawn := idx;
      }

      var newCells: Cells := [];
      for r := 0 to 9
        invariant |newCells| == r
        invariant forall r' :: 0 <= r' < r ==> |newCells[r']| == 9
        invariant forall r', c :: 0 <= r' < r && 0 <= c < 9 ==>
          newCells[r'][c] == SudokuCell(r', c, grid[r'][c], r' * 9 + c !in removed, None, false)
      {
        var row: seq<SudokuCell> := [];
        for c := 0 to 9
          invariant |row| == c
          invariant forall c' :: 0 <= c' < c ==>
            row[c'] == SudokuCell(r, c', grid[r][c'], r * 9 + c' !in removed, None, false)
        {
          var idx := r * 9 + c;
          var isGiven := idx !in removed;
          row := row + [SudokuCell(r, c, grid[r][c], isGiven, None, false)];
        }
        newCells := newCells + [row];
      }
      cells := newCells;

      BuiltCellsArePuzzle(cells, grid, removed, difficulty, drawn);
    }

    method Select(row: int, col: int)
      modifies this`selectedCell
      ensures selectedCell == Some((row, col))
    {
      selectedCell := Some((row, col));
    }

    /** `placeNumber(_:atRow:col:)`: a given cell is left alone. */
    method PlaceNumberAt(number: int, row: int, col: int)
      requires Valid() && InRange(row) && InRange(col)
      modifies this`cells
      ensures Valid()
      ensures old(cells[row][col].isGiven) ==> cells == old(cells)
      ensures !old(cells[row][col].isGiven) ==> PlayerValueSet(old(cells), cells, row, col, Some(number))
    {
      if cells[row][col].isGiven {
        return;
      }
      cells := cells[row := cells[row][col := cells[row][col].(playerValue := Some(number))]];
    }

    /** `placeNumber(_:)`: writes into the selected cell, if there is one. */
    method PlaceNumber(number: int)
      requires Valid()
      requires selectedCell != None ==> InRange(selectedCell.value.0) && InRange(selectedCell.value.1)
      modifies this`cells
      ensures Valid()
      ensures selectedCell == None ==> cells == old(cells)
      ensures selectedCell != None ==>
        var (row, col) := selectedCell.value;
        && (old(cells[row][col].isGiven) ==> cells == old(cells))
        && (!old(cells[row][col].isGiven) ==> PlayerValueSet(old(cells), cells, row, col, Some(number)))
    {
      if selectedCell == None {
        return;
      }
      var (row, col) := selectedCell.value;
      PlaceNumberAt(number, row, col);
    }

    /** `clearSelected`: empties the selected cell unless it is given. */
    method ClearSelected()
      requires Valid()
      requires selectedCell != None ==> InRange(selectedCell.value.0) && InRange(selectedCell.value.1)
      modifies this`cells
      ensures Valid()
      ensures selectedCell == None ==> cells == old(cells)
      ensures selectedCell != None ==>
        var (row, col) := selectedCell.value;
        && (old(cells[row][col].isGiven) ==> cells == old(cells))
        && (!old(cells[row][col].isGiven) ==> PlayerValueSet(old(cells), cells, row, col, None))
    {
      if selectedCell == None {
        return;
      }
      var (row, col) := selectedCell.value;
      if cells[row][col].isGiven {
        return;
      }
      cells := cells[row := cells[row][col := cells[row][col].(playerValue := None)]];
    }

    method NewGame()
      modifies this`cells, this`selectedCell
      ensures Valid() && selectedCell == None && FreshPuzzle(cells, difficulty) && !IsSolved()
    {
      selectedCell := None;
      GeneratePuzzle();
    }

    /** Every cell is given or holds its solution. */
    predicate IsSolved()
      reads this
      ensures IsSolved() <==>
        forall r, c :: 0 <= r < |cells| && 0 <= c < |cells[r]| ==> cells[r][c].isGiven || cells[r][c].IsCorrect()
    {
      AllSolved(cells)
    }
  }
}
