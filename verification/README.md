# Sudoku solver core, modelled in Dafny

This project models the core of a console Sudoku solver and generator written in C++. It covers:

- the board (`SBoard`): 81 cells of value 0..9 and a provenance state (Fixed, Solved, New, Free); row, column and block views; the line checks; the placement check; and the character codec;
- the solver (`SudokuSolver`):
  - the elimination pass, which fills any value that has exactly one Free holder in a 3x3 block;
  - the loop that repeats it;
  - the backtracking search;
  - `ReverseSolve`, which thins a full board into a puzzle;
  - the 81-character layout codec;
- from the console program:
  - the framed text writer;
  - the text reader used for files and the clipboard;
  - the generate and solve actions that compose the solver calls.

## Modules

- `options.dfy`: `Options`. An `Option` type.
- `cells.dfy`: `Cells`. Cell values, states, positions and cells, plus the board constants 9, 3 and 81.
- `board.dfy`: `Board`. A board is a sequence of 81 cells in which slot `i` holds the cell at column `i % 9`, row `i / 9`. The module also holds:
  - `GetCell`/`SetCell`, which ignore out-of-range coordinates as the source does;
  - the lines and blocks;
  - `IsSolved`, `IsValid`, `IsValueValidAt` and `IsBoardSolved`;
  - the Free and non-Free position lists;
  - `CharacterToCell`/`CellToCharacter`.
- `solver.dfy`: `Solver`. The elimination pass as a fold over a candidate table, the elimination loop (stated for any operation that behaves as a pass, then applied to the elimination pass), the recursive search, `ReverseSolve`, and the solve composition.
- `layout.dfy`: `Layout`. `LoadBoardFromStringLayout`, `GetBoardAsStringLayout`, their round trips, and the worked block example from the header.
- `lines.dfy`: `Lines`. Line splitting as `std::getline` does it, the reader's choice of content rows, and the cell characters of a row.
- `text_board.dfy`: `TextBoard`. The framed text writer, the reader loop, and the proof that reading back what was written restores the board.
- `app.dfy`: `App`. The generate and solve actions, and how the two encodings relate.

Randomness is passed in as parameters:

- `shuffle` is the value order tried at each branching frame of the search. It is keyed by the step counter and must be a permutation of 1..9.
- `visit` is the order in which `ReverseSolve` visits the non-Free cells. It must be a permutation of `GetSolvedCells`.

The program's single global board becomes an explicit parameter and result.

## Behaviour as written

The model follows the code where the code and its comments disagree. Where a lemma exhibits a point, it is named:

- `SBoard::IsSolved` compares only adjacent values: `std::unique` collapses runs and does not detect repeats. A line `1,2,1,2,...` passes (`Board.IsSolvedMissesDistantRepeats`).
- `SBoard::IsBoardSolved` calls `GetCol` in all three of its loops, so it checks only the columns (`Board.IsBoardSolvedChecksColumnsOnly`). A board whose rows each repeat one value passes (`Board.IsBoardSolvedMissesRows`).
- `SBoard::GetBlock` walks a block column by column. The header's example lists block 4 row by row (`9,6,5,4,1,8,7,2,3`), but `GetBlock` returns `9,4,7,6,1,2,5,8,3` (`Layout.GetBlockExample`).
- `IsValueValidAt` also looks at the target cell itself.
- An elimination pass computes every candidate set first and then commits them. When two values are forced into one cell, the later one wins.
- `ReverseSolve` empties a cell when no value at all is accepted there any more, not only when exactly one is.
- The text reader:
  - counts lines before it drops blank and divider lines, so nine divider lines are accepted and write nothing (`TextBoard.NoContentRowsLoads`);
  - stops only once its row counter passes nine, so a tenth content row is still scanned, and a short one makes the whole read fail (`TextBoard.ShortTenthRowFails`).
- The layout functions `LoadBoardFromStringLayout`/`GetBoardAsStringLayout` are declared in `SudokuSolver.h`, but their bodies are not part of this model. Their behaviour follows the header comment and the unit tests:
  - they accept 81 characters from `1`-`9`, `.`, ` ` and `0`, the set the header comment lists;
  - empty cells are written as `0`, which the tests at `tests/unit_test/unit_test.cpp:90-98` require (a `.` would not round-trip those layouts). `CellToCharacter` writes `.` for an empty cell instead (`sudoku_solver/SBoard.h:219-224`).

## Model

| member | source | states |
|---|---|---|
| Cells.IndexBijection | sudoku_solver/SBoard.h:48-51 | The board index `9*row+col` maps in-range positions one-to-one onto slots 0..80, and `PosOf` inverts it |
| Cells.LessIsStrictTotalOrder | sudoku_solver/SBoard.h:44-46 | `SPos::operator<` is irreflexive, asymmetric, transitive and total, ordering by column and then by row |
| Cells.CellConstructors | sudoku_solver/SBoard.h:64-103 | The default cell is an empty Free cell at (0,0). A value-only cell is Free. `IsSolved` holds exactly for the Fixed, Solved and New states |
| Board.ClearBoard | sudoku_solver/SBoard.cpp:16-26 | Every cell is empty and Free and carries its own position |
| Board.GetCell | sudoku_solver/SBoard.cpp:59-65 | In range, it is the stored cell at `9*row+col`. Out of range, it is a default cell |
| Board.SetCell | sudoku_solver/SBoard.cpp:67-74 | The written cell reads back with its position set to (col,row). Every other cell is unchanged. Out-of-range writes leave the board as it was |
| Board.GetRow | sudoku_solver/SBoard.cpp:41-48 | Cell k of row r is the cell at (k,r). Out-of-range rows are all default cells |
| Board.GetCol | sudoku_solver/SBoard.cpp:50-57 | Cell k of column c is the cell at (c,k). Out-of-range columns are all default cells |
| Board.GetBlock | sudoku_solver/SBoard.cpp:76-90 | The nine cells of the block in column-major order, each inside that block. Index 9 and above gives default cells |
| Board.BlockCoversItsPositions | sudoku_solver/SBoard.cpp:76-90 | Every position whose block is `index` appears in `GetBlock(index)` |
| Board.GetBlockIndexFrom | sudoku_solver/SBoard.cpp:183-190 | For an in-range cell, the result is the 0..8 number of its 3x3 block, counted row-major over the blocks |
| Board.BlockIndexArithmetic | sudoku_solver/SBoard.cpp:183-190 | The source's formula, applied to the flat index, gives the block column `col/3` and the block row `row/3` |
| Board.UniqueKeepsLengthIff | sudoku_solver/SBoard.cpp:106 | `std::unique` keeps the full length exactly when no two adjacent values are equal |
| Board.IsSolvedMeaning | sudoku_solver/SBoard.cpp:95-108 | A line passes exactly when it has nine cells, none empty, and no two adjacent cells share a value |
| Board.PermutationIsSolved | sudoku_solver/SBoard.cpp:95-108 | Nine filled cells with pairwise distinct values pass the line check |
| Board.IsSolvedMissesDistantRepeats | sudoku_solver/SBoard.cpp:105-107 | A line alternating 1 and 2 passes the check while repeating values |
| Board.IsValid | sudoku_solver/SBoard.cpp:116-130 | Valid exactly when no two non-empty cells share a value. Empty cells never conflict |
| Board.InvalidStaysInvalid | sudoku_solver/SBoard.cpp:116-130 | Adding cells around an invalid line never makes it valid |
| Board.IsValueValidAtMeaning | sudoku_solver/SBoard.cpp:135-178 | `v` is accepted at (col,row) exactly when no non-empty cell holding `v` shares that cell's row, column or block. The cell itself counts |
| Board.EmptyBoardAcceptsEverything | sudoku_solver/SBoard.cpp:135-178 | On an empty board every value is accepted everywhere. The empty value is accepted on any board |
| Board.IsBoardSolvedChecksColumnsOnly | sudoku_solver/SBoard.cpp:216-238 | The whole-board check holds exactly when every column passes the line check |
| Board.IsBoardSolvedMissesRows | sudoku_solver/SBoard.cpp:227-230 | A board whose row 0 repeats one value passes the whole-board check, although that row fails both the line check and the duplicate check |
| Board.SolvedBoardIsFilled | sudoku_solver/SBoard.cpp:216-238 | A board that passes the whole-board check has no empty cell |
| Board.GetFreeCells | sudoku_solver/SBoard.cpp:192-201 | It contains exactly the in-range positions whose cell is Free, in strictly increasing slot order |
| Board.GetSolvedCells | sudoku_solver/SBoard.cpp:204-213 | It contains exactly the in-range positions whose cell is not Free, in strictly increasing slot order |
| Board.FreeSolvedPartition | sudoku_solver/SBoard.cpp:192-213 | The two lists together hold 81 positions, and every position is in exactly one of them |
| Board.CharacterToCell | sudoku_solver/SBoard.cpp:241-258 | '1'..'9' give a Fixed cell holding that digit. Any other character gives an empty Free cell |
| Board.CellToCharacter | sudoku_solver/SBoard.cpp:261-282 | A filled cell gives its digit. An empty cell gives '.' |
| Board.CharacterRoundTrip | sudoku_solver/SBoard.cpp:241-282 | Digits survive decoding and re-encoding, and every other character comes back as '.'. Encoding and then decoding keeps the value, and the state becomes Fixed, or Free for an empty cell |
| Solver.Holders | sudoku_solver/SudokuSolver.cpp:25-53 | The candidate set for (block, value) is exactly the Free cells of that block where the value is accepted, with no repeats |
| Solver.ForcedCell | sudoku_solver/SudokuSolver.cpp:55-69 | A cell receives the largest value whose only holder in its block is that cell. Such a cell was Free, and the value was accepted there |
| Solver.FindByElimination | sudoku_solver/SudokuSolver.cpp:15-70 | Every cell becomes its forced value as a Solved cell, or stays unchanged. The pass reports a change exactly when some candidate set is a singleton, which is exactly when the board changed. Only Free cells change, each to an accepted value, and the Free count then drops |
| Solver.EliminationProgress | sudoku_solver/SudokuSolver.cpp:55-69 | A pass reports a change exactly when it wrote a cell, and then the number of Free cells falls |
| Solver.SolveBoardByElimination | sudoku_solver/SudokuSolver.cpp:136-151 | Reports solved exactly when the final board passes the whole-board check. Otherwise no further pass can change the board. The final board is the board after `n >= 1` elimination passes, and the loop went on after each of the first `n-1`: each reported a change and left the board unsolved. The step count grows by `n`, or by `n-1` when the loop stopped on a pass that changed nothing. Non-Free cells are kept, and changed cells went from Free to a filled Solved cell. Steps grow by at most one plus the number of cells filled. When the first pass already solves the board, the loop reports solved with exactly that pass's board after one step |
| Solver.RunPasses | sudoku_solver/SudokuSolver.cpp:136-151 | For any operation that keeps non-Free cells, changes only Free cells into filled Solved cells, reports a change exactly when it made one and then lowers the Free count, the loop stops after `n` passes as above, and the step count is bounded by the cells filled. A first pass that finishes the board ends the loop with its board |
| Solver.PassLoop | sudoku_solver/SudokuSolver.cpp:139-150 | The loop stops when the test for a finished board holds, or after a pass that changed nothing, and the board is then the `n`-th iterate of the pass with the step count raised once per pass that did not end it stuck. When the first pass finishes the board, that pass's board is the result after one step |
| Solver.FirstPassDone | sudoku_solver/SudokuSolver.cpp:139-150 | A loop whose first pass leaves a finished board has run exactly one pass, and its board is that pass's board |
| Solver.WentOnPrefix | sudoku_solver/SudokuSolver.cpp:139-150 | A loop that went on after `n` passes also went on after every smaller number of passes |
| Solver.EliminationIsAPass | sudoku_solver/SudokuSolver.cpp:15-70 | One elimination pass keeps the non-Free cells, changes only Free cells into filled Solved cells, reports a change exactly when it made one, and then lowers the Free count |
| Solver.PassesFillFreeCells | sudoku_solver/SudokuSolver.cpp:139-150 | Any number of passes keeps the non-Free cells and changes cells only from Free to filled Solved cells |
| Solver.PassesFreeCount | sudoku_solver/SudokuSolver.cpp:139-150 | After `n` passes that the loop went on from, at least `n` Free cells have been filled |
| Solver.WentOnBound | sudoku_solver/SudokuSolver.cpp:139-150 | The loop cannot go on after more passes than the board has Free cells, so it terminates |
| Solver.RanPassesFacts | sudoku_solver/SudokuSolver.cpp:139-150 | After `k` passes, the last possibly without change, the board keeps the input's non-Free cells, changed only Free cells, and has at least `k-1` fewer Free cells |
| Solver.FirstFree | sudoku_solver/SudokuSolver.cpp:94-98 | The first Free cell in row-major order, or None exactly when no cell is Free |
| Solver.Trial | sudoku_solver/SudokuSolver.cpp:108-113 | The tried value is written at the branching cell in the New state. Nothing else changes |
| Solver.SolveBoardByRecursion | sudoku_solver/SudokuSolver.cpp:75-134 | On success the stored board passes the whole-board check. Any stored board keeps the input's non-Free cells; every cell it changes was Free in the input and now holds a value as a Solved or New cell, or is the reset empty Free cell. A stored board after a failure does not pass the check. On failure the last stored board is the input after one elimination pass with its first Free cell reset to an empty Free cell, or nothing is stored when that board has no Free cell. A board solved by one pass is returned with the step count unchanged; otherwise the count rises. A success found by branching holds, at the first Free cell of the eliminated board, a New cell whose value the placement check accepted there: it conflicts with no filled cell of a shared row, column or block once that cell is emptied |
| Solver.AcceptedTrialIsConflictFree | sudoku_solver/SudokuSolver.cpp:108-113 | A value accepted at the branching cell of a board that differs from the eliminated board only there conflicts with nothing in the eliminated board's units once that cell is emptied |
| Solver.TrialWrites | sudoku_solver/SudokuSolver.cpp:108-113 | Trying a digit at a cell that was Free in the frame's input keeps every change a Free cell receiving a value |
| Solver.BranchCellWasFree | sudoku_solver/SudokuSolver.cpp:77-98 | The cell the search branches on after the pass was already Free before it |
| Solver.ResetIsCleared | sudoku_solver/SudokuSolver.cpp:122-127 | The board a frame stores when it gives up is the eliminated board with the branching cell cleared, and it changes only Free cells of the input |
| Solver.ResetLeavesUnsolved | sudoku_solver/SudokuSolver.cpp:122-127 | The board stored when a frame gives up keeps the input's non-Free cells and fails the whole-board check |
| Solver.OnlyOneFrom | sudoku_solver/SudokuSolver.cpp:175-185 | The flag stays true exactly when every accepted value from `v` to 9 equals the previous value |
| Solver.Cleared | sudoku_solver/SudokuSolver.cpp:172-173 | The visited cell becomes an empty Free cell at its position. All other cells are kept |
| Solver.ReverseStep | sudoku_solver/SudokuSolver.cpp:171-195 | The cell stays emptied exactly when every value accepted there, once it is emptied, is the value it held. Otherwise the board is restored |
| Solver.RestoreUndoesClear | sudoku_solver/SudokuSolver.cpp:172-194 | Writing the saved cell back after clearing restores the board exactly |
| Solver.ReverseSolve | sudoku_solver/SudokuSolver.cpp:153-199 | Always reports true. Each cell is either unchanged or was non-Free and is now an empty Free cell, and every cell still non-Free afterwards is as it was. Every non-Free cell it keeps is contested: with that cell emptied, the final board accepts some other digit there. The final board is the fold of the one-cell step over `visit` in order, so a visited cell stays empty exactly when, at its turn and once emptied, the board then current accepts no value there other than the one it held |
| Solver.ReverseLoop | sudoku_solver/SudokuSolver.cpp:166-196 | The loop over the visit order gives the board of the fold of the one-cell step over that order |
| Solver.ReverseStepsSnoc | sudoku_solver/SudokuSolver.cpp:166-196 | Visiting one more position applies one more step to the board after the earlier visits |
| Solver.ReverseStepsEmpty | sudoku_solver/SudokuSolver.cpp:166-195 | After any number of visits every cell is unchanged or was non-Free and is now an empty Free cell |
| Solver.ReverseStepsContest | sudoku_solver/SudokuSolver.cpp:166-195 | After the first `k` visits the cells still to visit are unchanged, and every visited cell that was kept is contested |
| Solver.VisitCoversSolvedCells | sudoku_solver/SudokuSolver.cpp:158-164 | The shuffled list of non-Free cells visits each of them exactly once, and only them |
| Solver.VisitedIsSolved | sudoku_solver/SudokuSolver.cpp:158-164 | Each visited position is on the board and holds a non-Free cell |
| Solver.VisitedOnce | sudoku_solver/SudokuSolver.cpp:158-164 | No position appears twice in the visit order |
| Solver.ReverseStepKeeps | sudoku_solver/SudokuSolver.cpp:166-195 | A step leaves the cells not yet visited as they were, and keeps every kept visited cell contested |
| Solver.ContestedStays | sudoku_solver/SudokuSolver.cpp:172-195 | Emptying other cells keeps a contested cell contested |
| Solver.AcceptedStaysAccepted | sudoku_solver/SBoard.cpp:135-178 | Emptying cells never withdraws a value the placement check accepted |
| Solver.Solve | sudoku_solver/sudoku_solver.cpp:142-152 | Reports solved exactly when the result passes the whole-board check. A solved result keeps every non-Free cell of the input. When one elimination pass already solves the board, the result is that pass's board. The ghost result names the board the elimination loop ended with: it keeps the input's non-Free cells and is the board after some run of the loop. When that board passes the check it is the result. Otherwise the loop was stuck on it and the search ran from it: a failed search leaves its give-up board, or the empty board when it stored none, and a successful one keeps that board's non-Free cells |
| Solver.SearchInto | sudoku_solver/sudoku_solver.cpp:151 | With the target starting as an empty board, success holds exactly when the target afterwards passes the check. A solved target keeps the input's non-Free cells. An unsolved target is the search's give-up board: the eliminated board with its first Free cell emptied, or the empty board when elimination left no Free cell |
| Solver.EmptyBoardIsNotSolved | sudoku_solver/SBoard.cpp:216-238 | An empty board fails the whole-board check |
| Layout.LoadBoardFromStringLayout | sudoku_solver/SudokuSolver.h:52-62 | Succeeds exactly when the text has 81 characters, each from '1'-'9', '.', ' ' or '0'. On failure the board is unchanged. On success each digit gives a Fixed cell holding it, and every other character an empty Free cell |
| Layout.GetBoardAsStringLayout | sudoku_solver/SudokuSolver.h:65-70 | 81 characters. Character i is the digit of the value of cell i, with '0' for an empty cell |
| Layout.LayoutRoundTrip | sudoku_solver/SudokuSolver.h:52-70 | Any accepted layout loads, and writing it back gives the layout with '.' and ' ' written as '0' |
| Layout.DigitLayoutRoundTrip | tests/unit_test/unit_test.cpp:90-98 | A layout of 81 digits '0'-'9' loads and writes back identically |
| Layout.BoardRoundTrip | sudoku_solver/SudokuSolver.h:52-70 | Writing any board and loading the layout succeeds and keeps every value. Filled cells come back Fixed and empty ones Free |
| Layout.LoadsTestLayout | tests/unit_test/unit_test.cpp:18-35 | The first layout of the unit tests loads and writes back unchanged |
| Layout.GetBlockExample | sudoku_solver/SBoard.h:122-145 | For the documented grid, block 4 holds 9,6,5 / 4,1,8 / 7,2,3 row by row, but `GetBlock` returns it column by column as 9,4,7,6,1,2,5,8,3 |
| Lines.SplitLines | sudoku_solver/sudoku_solver.cpp:443-445 | No extracted line contains a newline |
| Lines.SplitTerminated | sudoku_solver/sudoku_solver.cpp:443-445 | Splitting lines that were each written with a trailing newline gives back exactly those lines |
| Lines.ContentRows | sudoku_solver/sudoku_solver.cpp:457-459 | The rows kept are the lines that are not empty and do not start with '+' or '-', in order |
| Lines.CellChars | sudoku_solver/sudoku_solver.cpp:462-464 | The characters taken as cells contain no '\|' and are no longer than the line |
| Lines.BandedCells | sudoku_solver/sudoku_solver.cpp:302-314 | Nine characters without '\|' that are written in three bands separated by '\|' read back as the nine characters |
| TextBoard.RowChars | sudoku_solver/sudoku_solver.cpp:302-314 | The nine characters written for row r are the cells' characters in column order. None is '\|', a newline, '+' or '-' |
| TextBoard.ParseRow | sudoku_solver/sudoku_solver.cpp:461-472 | The columns filled are the row's cell characters, capped at nine |
| TextBoard.ParseRowMeaning | sudoku_solver/sudoku_solver.cpp:461-472 | The inner loop decodes the row's k-th cell character into column `col+k` of the row, for every filled column, and writes no other cell |
| TextBoard.ParseLinesMeaning | sudoku_solver/sudoku_solver.cpp:456-482 | The outer loop succeeds exactly when every content row it reaches, up to and including a tenth, has nine cell characters. On success board row r holds the r-th content row's cells, and rows past the content are unchanged |
| TextBoard.LoadBoardState | sudoku_solver/sudoku_solver.cpp:451-485 | Fewer than nine lines fail and write nothing. Otherwise success holds exactly when every reached content row is complete, and then the board holds the decoded content rows |
| TextBoard.NoContentRowsLoads | sudoku_solver/sudoku_solver.cpp:451-459 | Nine or more lines that are all blank or dividers are accepted and leave the board as it was |
| TextBoard.ShortTenthRowFails | sudoku_solver/sudoku_solver.cpp:474-482 | With more than nine content rows, a tenth row of fewer than nine cell characters makes the read fail |
| TextBoard.WrittenLines | sudoku_solver/sudoku_solver.cpp:291-317 | The written text splits into the nine banded rows with a divider before rows 3 and 6, followed by one empty line |
| TextBoard.WrittenRows | sudoku_solver/sudoku_solver.cpp:291-317 | The reader finds exactly the nine written rows, in order |
| TextBoard.TextRoundTrip | sudoku_solver/sudoku_solver.cpp:291-317 | Reading back the written text succeeds into any board and keeps every value. Filled cells come back Fixed and empty ones Free |
| App.Generate | sudoku_solver/sudoku_solver.cpp:108-119 | When the search solves the empty board, the solution passes the whole-board check. The puzzle's non-Free cells are all cells of the solution, and every other puzzle cell is an empty Free cell. Every non-Free solution cell the puzzle keeps is contested in the puzzle. The puzzle is the fold of the one-cell step of `ReverseSolve` over the visit order of the solution, so each visited cell is emptied exactly when its old value is the only one accepted there at its turn. Otherwise the action fails |
| App.SolveText | sudoku_solver/sudoku_solver.cpp:134-152 | Loading succeeds exactly when the text has nine lines and complete content rows, and the loaded board holds them. A failed load solves nothing. Solved holds exactly when the result passes the whole-board check, and a solved result keeps every loaded non-Free cell. A loaded board that one elimination pass solves yields that pass's board. For a loaded board the ghost result names the elimination loop's board, and the result relates to it as in `Solver.Solve` |
| App.TextAndLayoutAgree | sudoku_solver/sudoku_solver.cpp:291-317 | Reading back the framed text and reading back the layout of the same board give the same board |
| App.LineVerdictByValues | sudoku_solver/SBoard.cpp:95-108 | Two lines with the same values get the same verdict from the line check |
| App.VerdictByValues | sudoku_solver/SBoard.cpp:216-238 | Two boards with the same values get the same verdict from the whole-board check |
| App.SavedSolutionReloads | sudoku_solver/sudoku_solver.cpp:451-485 | A solved board written as text reads back as a board that passes the whole-board check, with every cell Fixed |

## Left out

- Random number generation (`std::random_device`, `std::mt19937`, `std::shuffle`) is replaced by the parameters `shuffle` and `visit`. The model covers every order those calls could produce.
- Console output, colour, screen clearing, file and clipboard access, and the `wifstream` newline handling are left out. The reader is modelled from the collected lines on, and a text is split into lines as `std::getline` splits it. A `\r` before a newline is kept as an ordinary character.
- Command-line parsing and the timer are left out, because they do not affect the board.
- `GetCellDirect` returns a reference into the board. The elimination pass uses it only to read cells, so it is modelled as a read.
- Coordinates are `nat`. The source takes `int` coordinates and checks only their upper bound, and no caller passes a negative one.
- `IsValueValidAt` and `GetBlockIndexFrom` require in-range coordinates. The source indexes the cell array without a check there (and asserts in `GetCellIndexFrom`).
- The bodies of `LoadBoardFromStringLayout` and `GetBoardAsStringLayout` are not part of this model. They are modelled from their header comments and from the unit tests.
- Layout.LoadBoardFromStringLayout: two behaviours are choices of this model, not documented by `sudoku_solver/SudokuSolver.h:52-62`. A layout of another length, or with a character outside the listed set, is rejected. A rejected layout leaves the board untouched.
- The step counter is a C++ `int` (`_iteration` at `sudoku_solver/sudoku_solver.cpp:29`, passed by reference at `sudoku_solver/SudokuSolver.cpp:75` and `:136`). The model counts with unbounded integers and does not model overflow.
- Text is `std::wstring`, whose `wchar_t` is a UTF-16 code unit on Windows (`wmain`, and `CF_UNICODETEXT` at `sudoku_solver/sudoku_solver.cpp:404`). A model string is a sequence of characters. A character outside the Basic Multilingual Plane therefore counts as one cell character in the model, but as two in the reader loop at `sudoku_solver/sudoku_solver.cpp:461-472`.
- The `Solve` entry point the unit tests call is not part of this model. `Solver.Solve` models the same composition as the solve action: the elimination loop first, then the search.
- Solver.Solve: does not prove that the test puzzle at `tests/unit_test/unit_test.cpp:51-60` is solved to the expected grid. The search depends on the value orders, and the proof would have to evaluate the whole search.
- Solver.SolveBoardByRecursion: does not state that the search finds a solution whenever one exists. Completeness of the backtracking search is not proved.
- App.Generate: does not prove that the search always solves the empty board, so `ok` may be false. It also does not prove that the puzzle has a unique solution, which the source does not promise either.
- TextBoard.LoadBoardState: after a failed read it does not say which rows were written. The source leaves the rows read before the failure in place, and the program exits on failure.
- The CSV-driven solution tests and the older `sudoko_solver` program are left out. The CSV tests are file-driven, and the older program is not part of the core.
