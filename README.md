# Sudoku with pencil input — a verified model of its core

This project models the core of a Sudoku app for iPad in Dafny. In the app, the player writes digits into cells with a pencil. The model covers four parts of the Swift sources:

- **The board** (`Sources/Models/SudokuBoard.swift`):
  - the cells and their derived properties (empty, correct, filled, displayed value);
  - the three difficulty levels;
  - the backtracking `fillGrid` and the `isValid` placement check;
  - puzzle generation, which fills a grid and then marks 35, 45 or 55 distinct cells as not given;
  - the player actions, which assign through the selection and never touch a given cell;
  - the solved check.
- **Digit fusion** (`Sources/Recognition/DigitRecognizer.swift`). One pass over the text recogniser's `(text, confidence)` candidates keeps the best digit.
  - Each text is trimmed first.
  - A text reading directly as an integer 1..9 scores its confidence.
  - A single character found in the misread table scores 0.9 times its confidence. The table maps each digit "1".."9" to itself and 15 look-alike letters and symbols to digits: "l", "I", "|" and "i" to 1, "Z" and "z" to 2, "A" to 4, "S" and "s" to 5, "G" and "b" to 6, "T" to 7, "B" to 8, and "g" and "q" to 9.
  - The running best, which starts at score 0, changes only on strict improvement, so any positive score can win.
  - Empty drawing bounds, or a render that produces no bitmap, give no digit.
- **The saved-game history** (`Sources/Models/GameHistory.swift`):
  - `progress`, the number of given or answered cells followed by `/81`;
  - the store, which keeps the newest game first and at most fifty games;
  - removal of the games at a set of offsets.
- **Note mode** (`Sources/Models/NoteMode.swift`): a three-field state (active, colour, erasing) with four transitions.

Modules, one file each:

| file | module |
|---|---|
| `optional.dfy` | `Optional` |
| `decimal.dfy` | `Decimal` (the digits of `Int(String)` and of `"\(n)"`) |
| `sudoku_grid.dfy` | `SudokuGrid` (integer grids) |
| `sudoku_board.dfy` | `SudokuBoard` |
| `digit_recognizer.dfy` | `DigitRecognizer` |
| `game_history.dfy` | `GameHistory` |
| `note_mode.dfy` | `NoteMode` |

Each part takes the form of its Swift code:

- **Board.** `SudokuBoard` is a class whose methods reassign `cells` and `selectedCell`.
  - `fillGrid` takes its grid `inout`, which Swift passes as copy-in/copy-out. The model therefore takes the grid and returns the new one together with the success flag.
  - `fillGrid` is proved sound: on success the grid is complete and extends the input, and it is a valid Sudoku when the input was consistent.
  - It is also proved complete: on failure no solution extends the input, and the grid comes back unchanged.
  - A concrete solution shows that the empty grid can always be filled, so generation always gets a full solution.
- **Recognizer.** `recognize`'s loop is a method, proved against the left fold `Fuse`. `Fuse` in turn is proved to be exactly "the earliest candidate with the highest positive effective score".
- **History.** The store is a class over a `seq` of games. `progress` is a pure function.

## Model

| member | source | states |
|---|---|---|
| SudokuGrid.Place | Sources/Models/SudokuBoard.swift:85-87 | the assignment `grid[r][c] = n`: that entry becomes `n` and every other entry is kept |
| SudokuGrid.Column | Sources/Models/SudokuBoard.swift:101 | `grid.map { $0[col] }`: nine entries, entry `r` being row `r`'s entry in the column |
| SudokuGrid.AscendingIsDigitOrder | Sources/Models/SudokuBoard.swift:83 | 1 through 9 in order is one of the orders a shuffle can give, so a shuffle always exists |
| SudokuGrid.ShuffledDigits | Sources/Models/SudokuBoard.swift:83 | nine entries, all digits 1..9, together covering every digit |
| SudokuGrid.IsValid | Sources/Models/SudokuBoard.swift:97-110 | true exactly when no cell in the same row, column or 3×3 box holds `num`; the box scan is `BoxContains` |
| SudokuGrid.PlaceValidKeepsConsistent | Sources/Models/SudokuBoard.swift:84-85 | writing a digit that `isValid` accepts into an empty cell keeps a consistent grid consistent |
| SudokuGrid.SolutionDigitIsValid | Sources/Models/SudokuBoard.swift:83-86 | the digit any solution has at an empty cell passes `isValid` there, and the solution still extends the grid after it is written |
| SudokuGrid.InvalidIsUnsolvable | Sources/Models/SudokuBoard.swift:84 | skipping a digit that `isValid` rejects never loses a solution |
| SudokuGrid.SolvableHasDigit | Sources/Models/SudokuBoard.swift:83-90 | if some solution extends the grid, some digit 1..9 at the first empty cell keeps it solvable, so trying all nine is complete |
| SudokuGrid.PlaceShrinksZeroCells | Sources/Models/SudokuBoard.swift:82-86 | each recursive call has strictly fewer empty cells, so the recursion ends |
| SudokuGrid.FillGrid | Sources/Models/SudokuBoard.swift:79-95 | on `true`, the grid is complete and keeps every nonzero input entry, and it is a valid Sudoku when the input was consistent; on `false`, the grid is unchanged and no solution extends it |
| SudokuGrid.EmptyGrid | Sources/Models/SudokuBoard.swift:51 | a 9×9 grid of zeros |
| SudokuGrid.PatternCellsDiffer | Sources/Models/SudokuBoard.swift:51-52 | in the fixed pattern grid, two distinct cells of one row, column or box differ |
| SudokuGrid.PatternIsSolution | Sources/Models/SudokuBoard.swift:51-52 | the pattern grid is a complete valid Sudoku |
| SudokuGrid.EmptyGridSolvable | Sources/Models/SudokuBoard.swift:51-52 | some solution extends the empty grid, so `fillGrid` on it cannot fail |
| SudokuGrid.FillEmptyGrid | Sources/Models/SudokuBoard.swift:51-52 | filling the empty grid yields a complete valid Sudoku |
| SudokuBoard.SudokuCell.IsCorrect | Sources/Models/SudokuBoard.swift:18 | a correct cell holds an answer, so it is filled and not empty |
| SudokuBoard.FilledIffDisplayed | Sources/Models/SudokuBoard.swift:19-20 | `SudokuCell.IsFilled` (given, or holding an answer) holds exactly when the cell displays a value |
| SudokuBoard.SudokuCell.IsEmpty | Sources/Models/SudokuBoard.swift:17-19 | a cell is empty exactly when it is not filled |
| SudokuBoard.SudokuCell.DisplayValue | Sources/Models/SudokuBoard.swift:17-20 | a given cell shows its solution and any other cell its player value; nil exactly for an empty cell |
| SudokuBoard.Difficulty.CellsToRemove | Sources/Models/SudokuBoard.swift:32-38 | every level removes at least one and fewer than 81 cells |
| SudokuBoard.RowSolved | Sources/Models/SudokuBoard.swift:141-143 | `allSatisfy` over a row: every cell is given or its answer equals its solution |
| SudokuBoard.AllSolved | Sources/Models/SudokuBoard.swift:139-145 | the nested `allSatisfy`: every cell of every row is given or answered correctly |
| SudokuBoard.Board.IsSolved | Sources/Models/SudokuBoard.swift:139-145 | the board is solved exactly when every cell is given or answered correctly |
| SudokuBoard.Solutions | Sources/Models/SudokuBoard.swift:69 | the cells' solution values, as the grid they were built from |
| SudokuBoard.PlayerValueSetKeepsPuzzle | Sources/Models/SudokuBoard.swift:123-132 | writing or clearing a non-given cell keeps the solutions, the set of non-given cells and every given cell |
| SudokuBoard.SomeIndexLeft | Sources/Models/SudokuBoard.swift:57-59 | while fewer than 81 indices are removed, an index outside the set remains to be drawn |
| SudokuBoard.BuiltSolutions | Sources/Models/SudokuBoard.swift:61-76 | the built cells carry the filled grid as their solutions |
| SudokuBoard.BuiltNonGiven | Sources/Models/SudokuBoard.swift:61-76 | the non-given cells are exactly the removed indices |
| SudokuBoard.BuiltNotSolved | Sources/Models/SudokuBoard.swift:61-76 | a removed cell has no answer, so a fresh puzzle is not solved |
| SudokuBoard.BuiltCellsArePuzzle | Sources/Models/SudokuBoard.swift:50-77 | the built cells form a fresh puzzle of the difficulty: each cell knows its own position and holds no answer, the solutions are a valid Sudoku, exactly `cellsToRemove` cells are not given, and the puzzle is unsolved |
| SudokuBoard.Board.constructor | Sources/Models/SudokuBoard.swift:41-46 | a new board has the difficulty, no selection and a fresh unsolved puzzle |
| SudokuBoard.Board.GeneratePuzzle | Sources/Models/SudokuBoard.swift:50-77 | the cells become a fresh unsolved puzzle of the board's difficulty |
| SudokuBoard.Board.Select | Sources/Models/SudokuBoard.swift:114-116 | the selection becomes the given position |
| SudokuBoard.Board.PlaceNumberAt | Sources/Models/SudokuBoard.swift:123-126 | a given cell leaves the cells unchanged; otherwise only that cell's player value changes, to the number |
| SudokuBoard.Board.PlaceNumber | Sources/Models/SudokuBoard.swift:118-121 | no selection changes nothing; otherwise it is `PlaceNumberAt` on the selected cell |
| SudokuBoard.Board.ClearSelected | Sources/Models/SudokuBoard.swift:128-132 | no selection, or a given selected cell, changes nothing; otherwise only the selected cell's player value becomes nil |
| SudokuBoard.Board.NewGame | Sources/Models/SudokuBoard.swift:134-137 | the selection is cleared and the cells become a fresh unsolved puzzle |
| Decimal.ShowNat | Sources/Models/GameHistory.swift:23 | the interpolated number is a nonempty run of digits that reads back as the number, with no leading zero |
| DigitRecognizer.Trim | Sources/Recognition/DigitRecognizer.swift:98 | the trimmed text is no longer than the input and neither starts nor ends with whitespace |
| DigitRecognizer.TrimLeft | Sources/Recognition/DigitRecognizer.swift:98 | what is left does not start with whitespace |
| DigitRecognizer.TrimRight | Sources/Recognition/DigitRecognizer.swift:98 | what is left does not end with whitespace |
| DigitRecognizer.TrimSplits | Sources/Recognition/DigitRecognizer.swift:98 | the text is all-whitespace, then the trimmed text, then all-whitespace, and the trimmed text begins and ends with non-whitespace |
| DigitRecognizer.TrimCanonical | Sources/Recognition/DigitRecognizer.swift:98 | a text with no outer whitespace, padded with whitespace, trims back to itself |
| DigitRecognizer.TrimIgnoresPadding | Sources/Recognition/DigitRecognizer.swift:98 | extra whitespace on either side does not change what a text trims to |
| DigitRecognizer.TrimDecompose | Sources/Recognition/DigitRecognizer.swift:98 | a text is whitespace, then what it trims to, then whitespace |
| DigitRecognizer.ParseInt | Sources/Recognition/DigitRecognizer.swift:100 | `Int(cleaned)`: a parsed value lies in the 64-bit range |
| DigitRecognizer.ParseIntShape | Sources/Recognition/DigitRecognizer.swift:100 | only a nonempty run of ASCII digits, bare or after one "+" or "-", parses; any other text gives nil |
| DigitRecognizer.DirectTexts | Sources/Recognition/DigitRecognizer.swift:100-103 | a direct reading exists exactly for an optional "+", any zeros and then one digit 1..9, and it is that digit |
| DigitRecognizer.DirectMatchIsDirectText | Sources/Recognition/DigitRecognizer.swift:100-103 | a text read directly is an optional "+", zeros and the digit read |
| DigitRecognizer.DirectTextParses | Sources/Recognition/DigitRecognizer.swift:100 | zeros and a digit 1..9, bare or after "+", parse to that digit |
| Decimal.ZeroValueIsZeros | Sources/Recognition/DigitRecognizer.swift:100 | a run of digits with value 0 is all zeros |
| Decimal.DigitRunBelowTen | Sources/Recognition/DigitRecognizer.swift:100 | a run of digits whose value is 1..9 is zeros followed by that digit |
| DigitRecognizer.ParseShowNat | Sources/Recognition/DigitRecognizer.swift:100 | the decimal text of any number up to the 64-bit maximum parses back to it, also after "+" or leading zeros, and after "-" to its negation |
| DigitRecognizer.ParseDigits | Sources/Recognition/DigitRecognizer.swift:100 | a nonempty run of ASCII digits whose value is in range parses to that value, bare, after "+", and after "-" negated |
| DigitRecognizer.ParseUnsigned | Sources/Recognition/DigitRecognizer.swift:100 | an unsigned run of digits in range parses to its value |
| DigitRecognizer.ParsePlus | Sources/Recognition/DigitRecognizer.swift:100 | "+" then a run of digits in range parses to their value |
| DigitRecognizer.ParseMinus | Sources/Recognition/DigitRecognizer.swift:100 | "-" then a run of digits in range parses to the negated value |
| Decimal.Zeros | Sources/Recognition/DigitRecognizer.swift:100 | `k` characters, every one the digit 0 |
| Decimal.LeadingZeros | Sources/Recognition/DigitRecognizer.swift:100 | digits after any number of leading zeros are still digits with the same value |
| Decimal.ZerosValue | Sources/Recognition/DigitRecognizer.swift:100 | a run of zeros has value 0 |
| DigitRecognizer.ParseOneChar | Sources/Recognition/DigitRecognizer.swift:100 | a one-character text parses exactly when it is an ASCII digit, to that digit |
| DigitRecognizer.TableIsDigits | Sources/Recognition/DigitRecognizer.swift:9-19 | every key of the misread table is one character and maps to a digit 1..9 |
| DigitRecognizer.LookupGlyph | Sources/Recognition/DigitRecognizer.swift:9-19 | a lookup succeeds exactly for a single-character text that is a table key, and then gives that key's digit, which is in 1..9 |
| DigitRecognizer.DirectMatch | Sources/Recognition/DigitRecognizer.swift:100-103 | a direct reading exists exactly when the text parses to 1..9, and then it is the parsed digit at the raw confidence |
| DigitRecognizer.TableMatch | Sources/Recognition/DigitRecognizer.swift:105-108 | a table reading exists exactly when the text is one character in the table, and then it is the table's digit at 0.9 times the confidence |
| DigitRecognizer.Improve | Sources/Recognition/DigitRecognizer.swift:100-108 | the best is kept, or replaced by a strictly better reading |
| DigitRecognizer.Step | Sources/Recognition/DigitRecognizer.swift:97-109 | one iteration keeps the best or raises its score with a digit 1..9 |
| DigitRecognizer.StepIsImproveByEffective | Sources/Recognition/DigitRecognizer.swift:99-108 | from a best that is not negative, the two `if`s in a row act as one strict-improvement step by the candidate's better reading |
| DigitRecognizer.Fuse | Sources/Recognition/DigitRecognizer.swift:93-109 | after the loop, the score is not negative; a digit is always in 1..9 with a positive score; no digit means score 0 |
| DigitRecognizer.FuseIsEarliestBest | Sources/Recognition/DigitRecognizer.swift:93-109 | the loop's result has the highest effective score of all candidates and comes from the first candidate that reaches it |
| DigitRecognizer.EarliestMaxIsUnique | Sources/Recognition/DigitRecognizer.swift:93-109 | only one outcome fits that description |
| DigitRecognizer.FuseIsExactlyEarliestBest | Sources/Recognition/DigitRecognizer.swift:93-109 | the loop yields `b` exactly when `b` is the earliest best, in both directions |
| DigitRecognizer.UnmatchedCandidateIsIgnored | Sources/Recognition/DigitRecognizer.swift:97-109 | a candidate that neither parses to 1..9 nor is a single table character changes nothing |
| DigitRecognizer.TableReadingIsDiscounted | Sources/Recognition/DigitRecognizer.swift:105-107 | a table reading scores 0.9 times the confidence, strictly less than a positive confidence |
| DigitRecognizer.PaddedDigitReadsItself | Sources/Recognition/DigitRecognizer.swift:97-108 | a digit "1".."9" with any whitespace around it reads as that digit at its own confidence (when not negative) |
| DigitRecognizer.PaddedCandidateScoresAlike | Sources/Recognition/DigitRecognizer.swift:98 | whitespace around a candidate's text changes neither its reading nor the loop step |
| DigitRecognizer.MisreadSGivesFive | Sources/Recognition/DigitRecognizer.swift:9-19 | "S" at 0.80 fuses to 5 at score 0.72 |
| DigitRecognizer.DirectSevenWins | Sources/Recognition/DigitRecognizer.swift:100-103 | "7" at 0.95 fuses to 7 at score 0.95 |
| DigitRecognizer.Bounds.IsEmpty | Sources/Recognition/DigitRecognizer.swift:24 | drawing bounds are empty exactly when they are null or have zero area |
| DigitRecognizer.Recognize | Sources/Recognition/DigitRecognizer.swift:22-111 | empty bounds or no bitmap give nil; otherwise the result is the fused digit of all candidates, always in 1..9 |
| GameHistory.SavedGame.ZipLength | Sources/Models/GameHistory.swift:22 | `zip` stops at the shorter array: its length is at most both lengths and equals one of them |
| GameHistory.SavedGame.FilledCount | Sources/Models/GameHistory.swift:22 | the count of zipped positions passing the filter's test `IsFilledAt` (given, or holding a player value) is at most their number |
| GameHistory.SavedGame.FilledCountIsCardinality | Sources/Models/GameHistory.swift:22 | the count equals the size of the set of zipped positions passing the filter's test `IsFilledAt`, that is, given or answered |
| GameHistory.SavedGame.Progress | Sources/Models/GameHistory.swift:21-24 | decimal digits, then "/81"; the digits read as the number of given-or-answered zipped positions, with no leading zero |
| GameHistory.ProgressOfFullArrays | Sources/Models/GameHistory.swift:21-24 | on 81-entry arrays the count is at most 81, and a fully filled game shows "81/81" |
| GameHistory.Pushed | Sources/Models/GameHistory.swift:36-37 | the new game first, then the older ones in order, with length `min(count + 1, 50)` |
| GameHistory.RemoveOffsets | Sources/Models/GameHistory.swift:42 | removal never lengthens the list |
| GameHistory.KeptOffsetsEnumerate | Sources/Models/GameHistory.swift:42 | the surviving offsets are increasing, in range, not removed, and include every offset that was not removed |
| GameHistory.RemoveOffsetsKeepsOrder | Sources/Models/GameHistory.swift:41-42 | the list after removal is the old list at the surviving offsets, in their original order |
| GameHistory.RemoveOffsetsLength | Sources/Models/GameHistory.swift:41-42 | with every offset in range, exactly one element goes per offset |
| GameHistory.RemoveAfterSave | Sources/Models/GameHistory.swift:34-44 | removing offset 0 right after a save below the cap gives back the earlier list |
| GameHistory.GameHistoryStore.constructor | Sources/Models/GameHistory.swift:32-56 | the list is the decoded stored list, or empty when there is none |
| GameHistory.GameHistoryStore.Save | Sources/Models/GameHistory.swift:34-39 | the list becomes `Pushed(old list, game)`: the game is at index 0 and at most 50 games are kept |
| GameHistory.GameHistoryStore.Remove | Sources/Models/GameHistory.swift:41-44 | the list loses exactly the games at the offsets, its length drops by their number, and the cap of 50 is preserved |
| NoteMode.NoteModeState.constructor | Sources/Models/NoteMode.swift:4-10 | inactive, orange, not erasing; orange is one of the six offered colours |
| NoteMode.NoteModeState.Activate | Sources/Models/NoteMode.swift:12 | active, not erasing, colour kept |
| NoteMode.NoteModeState.Deactivate | Sources/Models/NoteMode.swift:13 | inactive, not erasing, colour kept |
| NoteMode.NoteModeState.ToggleEraser | Sources/Models/NoteMode.swift:14 | only the erasing flag flips |
| NoteMode.NoteModeState.SelectColor | Sources/Models/NoteMode.swift:15-18 | colour set, not erasing, active flag kept |
| NoteMode.ToggleEraserTwice | Sources/Models/NoteMode.swift:14 | two toggles restore all three fields |
| NoteMode.EraseAfterSelect | Sources/Views/NoteModePanel.swift:20-27 | tapping an offered colour and then the eraser leaves that colour selected, erasing on, and the mode as it was |

## Left out

- Rendering the drawing (`UIGraphicsImageRenderer`, scaling, centring) is not modelled. Whether the render produced a bitmap is the `rendered` parameter of `Recognize`.
- The Vision text recognisers are foreign code. The candidates they collect from both passes are the `allCandidates` parameter.
- The dispatch group, the lock and the main-queue hop are concurrency and are not modelled.
- DigitRecognizer.Recognize: the order in which the two concurrent passes append their candidates is nondeterministic. The model takes whatever order the list has.
- DigitRecognizer.Recognize: the Swift `Float` confidences are modelled as exact reals, so rounding of `conf * 0.9` is not modelled.
- DigitRecognizer.TableMatch: `cleaned.count == 1` counts grapheme clusters in Swift, and the model counts characters, so the guard differs for one base character plus combining marks. The outcome does not differ: every table key is a single ASCII character, and Swift compares strings by canonical equivalence, so such a text has no table reading either way.
- DigitRecognizer.ParseInt: it models `Int(String)` as accepting exactly an optional sign followed by ASCII digits within the 64-bit range, which are the only texts Swift parses; the rejecting side is stated by `ParseIntShape` and `DirectTexts`.
- SudokuBoard.Board.GeneratePuzzle: `Int.random` is modelled as a choice of an index not yet removed. A random draw of an index already in the set inserts nothing, so such draws are not modelled. The loop's termination is therefore not subject to chance.
- SudokuGrid.ShuffledDigits: `shuffled()` is modelled as an arbitrary order of nine entries that are all digits and cover every digit 1..9. Random choice is not modelled, and that each digit occurs once is not stated separately.
- SudokuBoard.Board.PlaceNumberAt: requires the row and column to be in 0..8. Swift traps on an out-of-range subscript, and that trap is not modelled.
- SudokuBoard.Board.PlaceNumber: requires a selection, if there is one, to be in 0..8. The out-of-range trap is not modelled.
- SudokuBoard.Board.ClearSelected: requires a selection, if there is one, to be in 0..8. The out-of-range trap is not modelled.
- GameHistory.GameHistoryStore.Remove: requires every offset to be within the list. The trap of `remove(atOffsets:)` on an out-of-range offset is not modelled.
- SudokuBoard.Board.constructor: Swift's default argument `difficulty = .medium` is not modelled. The constructor always takes the difficulty, as the app's callers pass it.
- SudokuCell: the `id` UUID is not modelled, and `Equatable` comparison is structural.
- SavedGame: `id`, `date` and `dateFormatted` are not modelled. They are UUID generation and Foundation date formatting.
- GameHistoryStore: `persist` and `load` go through JSON and `UserDefaults`, which is I/O. The constructor takes the already decoded list, or None.
- GameHistory.GameHistoryStore.constructor: the list it loads is not capped at 50, because `load` does not cap it. Only `Save` establishes the cap.
- Color: SwiftUI colours are modelled as the six named ones plus any other colour. Colour rendering is not modelled.
- The SwiftUI views and `Package.swift` are not modelled. The views are layout and presentation; `Package.swift` is build configuration.
