# Sudoku engine model

A Dafny model of the game engine shared by two Java Sudoku projects,
`JavaApplication31` and `sssoduku`. Both keep a 9x9 `int[][]` board in
which 0 marks an empty cell. The model covers six parts and proves
properties of each:

- **Rules.** The two classifiers are kept apart. `JavaApplication31`
  (`Verifier.verifyState`, `Verifier.verify`, and `Controller.verifyState`,
  whose body is `Verifier.verifyState`'s, so `JaVerifier.VerifyState` models both)
  calls a board INVALID when a nonzero value is out of 1..9 or repeats in a
  unit. `sssoduku` (`Verifier.verify`) looks only for repeats. The
  placement tests are `isValid`, `isValidPlacement` and
  `isPossibleVirtual`. The per-cell masks are `Controller.verifyGame` and
  `ControllerFacade.verifyGame`.
- **Backtracking in `Controller`.** `generateSolvedPuzzle`, `solveSudoku`,
  `countSolutions` and `removeNumbers` work in place on an `array2<int>`.
  Each is specified against `Search.Leaves`, the number of leaves of the
  search tree they all walk, and `Search` relates that number to the
  puzzle's solutions: a leaf exists iff a solution does, and exactly one
  leaf means a unique solution.
- **5-blank solvers.** The three odometers are the two
  `PermutationIterator` classes and the counter iterator inside
  `PermutationSolveStrategy`. All produce `Odometer.Combo(k)` on call k.
  The solvers are `FlyweightBoard` with `PermutationSolveStrategy`,
  `SudokuSolver` with `Verifier.isValidWithPermutation`, and `GameSolver`.
  Each returns the first reading its check accepts, or fails unless
  exactly five cells are empty.
- **Puzzle derivation.** `Controller.getGame` and
  `generateFromSolvedBoard` remove 10, 20 or 25 cells for E, M or H: exactly
  that many unless the supplied lists of cells run out first.
  `GameGenerator` exists in both projects; in `sssoduku` it shuffles the
  digit cells and blanks the first k.
- **Sessions.**
  - `Controller.setCellValue` keeps the given cells fixed and counts
    faults.
  - `Game.setCellValue` returns the previous value.
  - The `sssoduku` move log is popped by `undo`, which is proved to invert
    `processMove`, for one move and for any sequence of moves.
- **Text codecs.** Round trips are proved for:
  - the board and mask lines and the five-section save record of
    `Controller`;
  - the digit rows of `StorageService`;
  - the `(x, y, value, previousValue)` log line of `UserAction`: both its
    readers recover what was written.

**How the model is written.**
- *Boards and state.* A Java board is an `array2<int>`. Its value is the
  grid `Cells(a)`, a `seq<seq<int>>`, and the specifications are functions
  on that grid. Classes whose fields the source updates are Dafny classes:
  `Controller`, `ControllerFacade`, `FlyweightBoard`, the iterators,
  `Game`, `StorageService`, `GameController` and `GameGenerator`.
- *Files.* Files become fields:
  - the `Controller` level files are a map from path to board;
  - the save file and log file are optional strings;
  - the `StorageService` files are its current text, its log lines and its
    list of saved games.
- *Randomness.* `java.util.Random` is a tape of integers (`Random.Rng`).
  `RandomPairs`, which is not part of this model, is the list of pairs it
  would hand out.
- *Exceptions and clock.* An exception is an `Err` of `Base.Error`. The
  clock is a time-stamp parameter.

## Model

| member | source | states |
|---|---|---|
| Rules.ClassifyAgree | sssoduku/src/Verifier.java:24-42 | On boards with every value in 0..9, the sssoduku classification equals the JavaApplication31 one (INVALID before INCOMPLETE before VALID) |
| Rules.ClassifyDisagree | sssoduku/src/Verifier.java:24-42 | A lone 10 on an otherwise empty board is INCOMPLETE for sssoduku but INVALID for JavaApplication31: sssoduku has no range check |
| Rules.NoBadIff | JavaApplication31/src/Verifier.java:4-19 | No cell is out of range or clashing exactly when the board is conflict-free, so the first bad cell exists iff the board is INVALID |
| Rules.NoClashIff | sssoduku/src/Verifier.java:75-95 | The list of clashing cells is empty exactly when no nonzero value repeats in a unit |
| Rules.UnitsOkIff | JavaApplication31/src/Verifier.java:21-83 | Every row, column and box passing its seen-array scan is the same as the board being conflict-free (values in 0..9, no repeat among peers) |
| Rules.FamiliesOk | JavaApplication31/src/Verifier.java:21-83 | The board is conflict-free iff the row pass, the column pass and the box pass all succeed |
| Rules.UnitCellsArePeers | JavaApplication31/src/Verifier.java:21-83 | Two different cells of one unit share a row, a column or a box |
| Rules.PeersShareUnit | JavaApplication31/src/Verifier.java:21-83 | Any two peer cells lie together in some row, column or box unit, at different places in it |
| Rules.PlaceKeepsConflictFree | JavaApplication31/src/Controller.java:432-460 | Writing a digit that `isValid` accepts into a conflict-free board keeps it conflict-free |
| Rules.FreeWhenBlanked | JavaApplication31/src/Controller.java:333-348 | With the cell set to 0, `isValid` for its value is exactly "no other cell of its row, column or box holds that value" |
| Rules.OverlayRepeatedCell | JavaApplication31/src/Verifier.java:113-118 | With a cell listed twice, the overlay lookup takes the first listed value while the write loop of sssoduku leaves the last |
| Rules.OverlayFillsEmpty | JavaApplication31/src/FlyweightBoard.java:20-29 | Overlaying digits on all the empty cells leaves no zero |
| Rules.VirtualAtListed | JavaApplication31/src/FlyweightBoard.java:20-29 | On distinct listed cells, the overlay value of the k-th listed cell is the k-th value |
| Rules.ZeroedCount | JavaApplication31/src/GameGenerator.java:43-54 | Zeroing distinct nonzero cells on the board removes exactly as many digits as cells were listed |
| Rules.Overlay | JavaApplication31/src/FlyweightBoard.java:20-29 | Each cell of the overlaid board is the entry of the first listed cell equal to it, else the board's value |
| Rules.Zeroed | JavaApplication31/src/GameGenerator.java:47-51 | A listed cell is 0 and every other cell keeps its value |
| Rules.BadMask | JavaApplication31/src/Verifier.java:4-19 | A cell is marked iff its value is out of range or repeated by a peer |
| Rules.ClashMask | sssoduku/src/Verifier.java:85-94 | A cell is marked iff its nonzero value is repeated by a peer |
| Scans.ValueAt | JavaApplication31/src/Verifier.java:113-118 | The value the lookup returns is the entry of the first listed cell equal to (r, c), else the board's value: the overlay's cell |
| Scans.LinesAvoid | JavaApplication31/src/Verifier.java:97-100 | True iff no other cell of the row or column of the overlaid board holds the value |
| Scans.BoxAvoid | JavaApplication31/src/Verifier.java:101-110 | True iff no other cell of the box of the overlaid board holds the value |
| Scans.PeersAvoid | JavaApplication31/src/Verifier.java:96-111 | The answer is true iff the value occurs at no other cell of the row, column or box on the overlaid board |
| Scans.Free | JavaApplication31/src/Controller.java:482-505 | The answer is true iff the digit occurs nowhere in the row, the column or the box of the cell, the cell itself included |
| Scans.ScanUnit | JavaApplication31/src/Verifier.java:21-83 | One seen-array scan passes iff the unit has no value outside 0..9 and no repeated digit, and when it passes it reports whether the unit holds a 0 |
| Scans.Pass | JavaApplication31/src/Verifier.java:21-83 | One family's pass (rows, columns or boxes) succeeds iff every unit of it is free of bad values and repeats, and then reports whether any unit holds a 0 |
| Scans.ThreePass | JavaApplication31/src/Verifier.java:21-83 | The three passes succeed iff the overlaid board is conflict-free, and then report exactly whether it has a zero |
| Scans.CollectEmpty | JavaApplication31/src/PermutationSolveStrategy.java:12-18 | The collected list is the board's zero cells in row-major order |
| Scans.CountEmpty | JavaApplication31/src/Controller.java:688-702 | The count is the number of zero cells |
| Scans.WriteCells | sssoduku/src/Verifier.java:100-116 | The board afterwards is the old board with the listed cells written in list order (a later write wins) |
| Search.LeavesIffSolvable | JavaApplication31/src/Controller.java:462-480 | From a duplicate-free grid, the search has a leaf exactly when the puzzle has a solution |
| Search.SolutionOfLeaves | JavaApplication31/src/Controller.java:462-480 | From a duplicate-free grid with a leaf, a full conflict-free grid keeping every given exists |
| Search.LeavesCoverSolutions | JavaApplication31/src/Controller.java:507-544 | The leaves are at least the number of solutions, counted up to two |
| Search.UniqueSolution | JavaApplication31/src/Controller.java:546-598 | A grid with exactly one leaf has at most one solution |
| Search.SolvesBlanked | JavaApplication31/src/Controller.java:546-598 | A solved grid solves every puzzle made from it by blanking cells |
| Search.WitnessSolved | JavaApplication31/src/Controller.java:192-195 | A fixed shifted-rows grid has no zero and no repeat in any row, column or box |
| Search.EmptySolvable | JavaApplication31/src/Controller.java:192-195 | The search from the empty board has a leaf, so `generateSolvedPuzzle` on it succeeds |
| JaBacktrack.ShuffledDigits | JavaApplication31/src/Controller.java:447-448 | Any permutation of 1..9 holds each digit once, all in 1..9 |
| JaBacktrack.ShuffledNums | JavaApplication31/src/Controller.java:447-448 | The shuffled candidate array is an order of the digits 1..9 |
| JaBacktrack.GenerateSolvedPuzzle | JavaApplication31/src/Controller.java:432-460 | True iff the search from the input has a leaf; then the grid is full, keeps the givens and is conflict-free when the input was; on false the grid is exactly as on entry |
| JaBacktrack.FilledPut | JavaApplication31/src/Controller.java:432-460 | A completion of the grid with one more accepted digit is a completion of the grid itself |
| JaBacktrack.DeadAll | JavaApplication31/src/Controller.java:432-460 | When every digit of the shuffled order led nowhere, the cell has no leaves at all |
| JaBacktrack.SolveSudoku | JavaApplication31/src/Controller.java:462-480 | True iff the search has a leaf; then the grid is a full completion keeping the givens; on false the grid is restored |
| JaBacktrack.CountSolutions | JavaApplication31/src/Controller.java:507-544 | The grid is exactly as on entry, and the count is 1 for a full grid, else the number of leaves cut off at the limit |
| JaBacktrack.CountedRange | JavaApplication31/src/Controller.java:507-544 | For a limit of at least 1 the count lies in 0..limit |
| JaBacktrack.CappedStep | JavaApplication31/src/Controller.java:527-541 | Adding one digit's capped count to the running count keeps it equal to the capped sum so far |
| JaBacktrack.UniqueOnCopy | JavaApplication31/src/Controller.java:550-572 | The check on a copy is true iff the search from the grid has exactly one leaf; the grid is untouched |
| JaBacktrack.TryBlank | JavaApplication31/src/Controller.java:550-572 | A digit cell is left blank iff the puzzle with it blanked has exactly one leaf; otherwise the grid is unchanged |
| JaBacktrack.BlankStep | JavaApplication31/src/Controller.java:550-572 | A kept blank adds one removed digit and keeps "one leaf" |
| JaBacktrack.RemoveNumbers | JavaApplication31/src/Controller.java:546-598 | Only digits turn into 0, the count returned is the number of digits removed, once any is removed the puzzle has exactly one leaf, and at most count cells are removed; either count is reached or the pairs ran out |
| JaBacktrack.Batch | JavaApplication31/src/Controller.java:575-597 | The k-th request for n pairs yields a prefix of the k-th list: its first n cells, or all of it when it is shorter; past the end of the lists it yields none |
| Random.Rng.NextInt | JavaApplication31/src/Controller.java:730-737 | A draw is below its bound and uses up one entry of the tape |
| Random.Shuffle | JavaApplication31/src/Controller.java:730-737 | The array becomes the Fisher-Yates shuffle of its old contents under the tape's draws, a permutation of them, and uses one draw per swap |
| Random.FisherYatesPerm | JavaApplication31/src/Controller.java:730-737 | The shuffle keeps the length and the multiset of entries |
| Odometer.ComboSpec | JavaApplication31/src/PermutationSolveStrategy.java:59-69 | Reading k is five digits in 1..9 whose base-9 value (each minus 1) is k |
| Odometer.ComboOfVal | sssoduku/src/PermutationIterator.java:28-55 | Every five-digit reading over 1..9 is produced, at the index equal to its base-9 value |
| Odometer.ComboIncreasing | JavaApplication31/src/PermutationIterator.java:13-22 | Readings are strictly increasing in lexicographic order |
| Odometer.ComboEnds | JavaApplication31/src/PermutationIterator.java:11-24 | The first reading is 1,1,1,1,1 and the last is 9,9,9,9,9 |
| Odometer.DigitsOfSpec | JavaApplication31/src/PermutationSolveStrategy.java:63-67 | The digit loop on a counter below 9^n yields digits 1..9 whose base-9 value is the counter |
| Odometer.Carry | JavaApplication31/src/PermutationIterator.java:13-22 | The carry loop adds one to the base-9 value, or wraps 9,9,9,9,9 to 1,1,1,1,1 |
| Odometer.NextIndex | JavaApplication31/src/PermutationIterator.java:11-24 | One step moves the reading of call n to the reading of call n + 1, and it wraps exactly after the 59049th call |
| Odometer.Copy | JavaApplication31/src/PermutationIterator.java:12 | The clone is a fresh array with the same contents |
| JaIterator.PermutationIterator.constructor | JavaApplication31/src/PermutationIterator.java:4-5 | A new iterator stands at reading 0 with `hasNext` set |
| JaIterator.PermutationIterator.HasNext | JavaApplication31/src/PermutationIterator.java:8 | `hasNext` holds iff fewer than 59049 readings were handed out |
| JaIterator.PermutationIterator.Next | JavaApplication31/src/PermutationIterator.java:11-24 | Call n returns a fresh copy of reading n modulo 59049 and never throws; past the end it starts over at 1,1,1,1,1 |
| JaStrategy.CounterIterator.constructor | JavaApplication31/src/PermutationSolveStrategy.java:50-51 | A new iterator has counter 0 and its own fresh values array |
| JaStrategy.CounterIterator.HasNext | JavaApplication31/src/PermutationSolveStrategy.java:54-56 | True iff the counter is below 59049 |
| JaStrategy.CounterIterator.Next | JavaApplication31/src/PermutationSolveStrategy.java:59-69 | Exhausted: NoSuchElement and nothing changes. Otherwise the counter advances and the same array is returned, overwritten with reading k |
| JaStrategy.Decode | JavaApplication31/src/PermutationSolveStrategy.java:63-67 | The array receives the five base-9 digits of x, each plus 1, most significant first |
| JaStrategy.Solve | JavaApplication31/src/PermutationSolveStrategy.java:8-42 | Unsupported iff not exactly five zeros, with the game unchanged; NoSolution iff no reading is valid; otherwise the same game comes back with its empty cells filled by the first valid reading |
| JaStrategy.Apply | JavaApplication31/src/PermutationSolveStrategy.java:31-37 | Only the empty cells are written, each with its entry of the candidate |
| JaStrategy.PassesFills | JavaApplication31/src/PermutationSolveStrategy.java:29-41 | A reading the flyweight accepts fills the puzzle into a board classified VALID |
| JaFlyweight.FlyweightBoard.constructor | JavaApplication31/src/FlyweightBoard.java:12-15 | The board and cell list are kept by reference, not copied |
| JaFlyweight.FlyweightBoard.GetValue | JavaApplication31/src/FlyweightBoard.java:20-29 | The value is the permutation entry of the first matching listed cell, else the board's own value |
| JaFlyweight.FlyweightBoard.IsValid | JavaApplication31/src/FlyweightBoard.java:34-76 | True iff the overlaid board has values in 0..9 and no repeated digit in a unit, zeros ignored |
| JaFlyweight.FlyweightBoard.OriginalBoard | JavaApplication31/src/FlyweightBoard.java:81-83 | Returns the constructor's board itself |
| JaFlyweight.FlyweightBoard.EmptyCellList | JavaApplication31/src/FlyweightBoard.java:88-90 | Returns the constructor's list itself |
| JaFlyweight.IsValidNotInvalid | JavaApplication31/src/FlyweightBoard.java:34-76 | `isValid` holds iff `verifyState` of the overlay is not INVALID, and with no zero left iff it is VALID |
| JaVerifier.InvalidAt | JavaApplication31/src/Verifier.java:4-19 | The invalid verdict starts with "invalid " |
| JaVerifier.Verify | JavaApplication31/src/Verifier.java:4-19 | The string names the first bad cell in row-major order, else "incomplete" with a zero, else "valid" |
| JaVerifier.VerifyAgree | JavaApplication31/src/Verifier.java:4-83 | The string starts with "invalid ", is "incomplete" or is "valid" exactly when `verifyState` is INVALID, INCOMPLETE or VALID |
| JaVerifier.VerifyState | JavaApplication31/src/Verifier.java:21-83 | The result is the JavaApplication31 classification of the board |
| JaVerifier.IsValidWithPermutation | JavaApplication31/src/Verifier.java:86-94 | True iff every listed cell's value has no other occurrence among its peers on the overlaid board; only listed cells are checked |
| JaVerifier.PermOkFull | JavaApplication31/src/Verifier.java:86-111 | On a conflict-free board with digits for all its empty cells, the check passes iff the filled board is VALID |
| JaVerifier.ListedCellsClear | JavaApplication31/src/Verifier.java:86-111 | When the check passes, every nonzero cell of the filled board passes the placement test |
| JaVerifier.PermOkIgnoresGivens | JavaApplication31/src/Verifier.java:86-94 | Two equal givens in a row go unnoticed when no cell is listed: the check passes on an INVALID board |
| JaSudokuSolver.Solve | JavaApplication31/src/SudokuSolver.java:9-30 | Unsupported iff not exactly five zeros; otherwise the first reading the check passes, or NoSolution iff none passes; the board is only read |
| JaSudokuSolver.PassesIffSolved | JavaApplication31/src/SudokuSolver.java:21-28 | On a conflict-free five-blank board, a reading passes iff the filled board is VALID |
| JaSudokuSolver.NoneSolves | JavaApplication31/src/SudokuSolver.java:29 | When no reading passes, no digit assignment of the five empty cells makes the board VALID |
| JaGameGenerator.CellsToRemove | JavaApplication31/src/GameGenerator.java:28-36 | Each level removes between 10 and 25 cells |
| JaGameGenerator.CreateDifficultyBoard | JavaApplication31/src/GameGenerator.java:43-54 | A fresh copy with every listed cell set to 0 and the others as in the source; a pair off the board throws |
| JaGameGenerator.ExactRemovals | JavaApplication31/src/GameGenerator.java:43-53 | On a board without zeros, blanking distinct cells leaves exactly as many zeros as cells listed |
| JaGameGenerator.GameGenerator.GenerateFromSolved | JavaApplication31/src/GameGenerator.java:20-38 | Nothing is saved unless the board is VALID; otherwise the Easy, Medium and Hard puzzles are saved in that order |
| JaGameGenerator.LevelsExact | JavaApplication31/src/GameGenerator.java:47-51 | Each saved puzzle of a VALID board has exactly its level's count of blanks and keeps every unlisted cell |
| JaControllerText.BoardLines | JavaApplication31/src/Controller.java:84-94 | Nine lines, line i being row i's numbers joined by spaces |
| JaControllerText.NumberTexts | JavaApplication31/src/Controller.java:84-94 | Each value of a row becomes its decimal text, in order |
| JaControllerText.Bits | JavaApplication31/src/Controller.java:96-106 | The mask written as 1 for a given and 0 otherwise |
| JaControllerText.NonZero | JavaApplication31/src/ControllerFacade.java:234-242 | The mask marks exactly the nonzero cells |
| JaControllerText.NonZeroBits | JavaApplication31/src/Controller.java:96-128 | The mask of nonzero cells of a written mask is the mask itself |
| JaControllerText.ParseBoard | JavaApplication31/src/Controller.java:108-117 | A board parsed without error is 9x9 |
| JaControllerText.ParseOriginal | JavaApplication31/src/Controller.java:119-128 | A mask parsed without error is 9x9 |
| JaControllerText.BoardRoundTrip | JavaApplication31/src/Controller.java:84-117 | `parseBoard` of the lines of `boardToString(b)` is b, for every board of Java ints |
| JaControllerText.OriginalRoundTrip | JavaApplication31/src/Controller.java:96-128 | `parseOriginal` of the lines of `originalToString(m)` is m, for every mask |
| JaControllerText.ParseCellsText | JavaApplication31/src/Controller.java:108-117 | Parsing the number texts of a row gives the row back |
| JaControllerText.RowTokens | JavaApplication31/src/Controller.java:108-117 | Trimming and cutting a row line at white space gives back its number texts |
| JaControllerText.ReadBoard | JavaApplication31/src/Controller.java:155-166 | A board read without error is 9x9 |
| JaControllerText.WriteRead | JavaApplication31/src/Controller.java:143-166 | `readBoard` of what `writeBoard` wrote gives the board back |
| JaControllerText.LoadRecordLines | JavaApplication31/src/Controller.java:620-666 | Reading the recorded lines back restores faults, current, solution and mask, and a blank source path becomes null |
| JaControllerText.SaveLoad | JavaApplication31/src/Controller.java:600-666 | What `saveGame` writes, `loadGame` reads back: the same faults, boards and mask, the path with a blank one turned into null |
| JaController.DifficultyFolder | JavaApplication31/src/Controller.java:130-141 | A folder exists iff the letter is e, m or h in either case; any other letter throws |
| JaController.RemovalCount | JavaApplication31/src/Controller.java:299-310 | A count exists iff the letter is e, m or h in either case; other letters throw |
| JaController.LevelsOrdered | JavaApplication31/src/Controller.java:299-310 | The counts are 10, 20 and 25, and 10, 20, 25 go with the folders easy, medium, hard respectively |
| JaController.GivensKept | JavaApplication31/src/Controller.java:714-728 | No sequence of moves changes a given cell |
| JaController.FaultsCount | JavaApplication31/src/Controller.java:714-728 | After any sequence of moves the faults rose by exactly the number of wrong writes to non-given cells |
| JaController.ThirdFaultRefused | JavaApplication31/src/Controller.java:714-728 | With two faults already, a wrong write is refused; a right write never adds a fault |
| JaController.ClashPaired | JavaApplication31/src/Controller.java:333-348 | A clashing cell has a peer holding the same value that clashes too |
| JaController.OriginalMask | JavaApplication31/src/Controller.java:233-239 | The fresh mask marks exactly the nonzero cells |
| JaController.Blank | JavaApplication31/src/Controller.java:192-194 | The board a solution is generated into when there is no source file: every cell 0 |
| JaController.CheckCell | JavaApplication31/src/Controller.java:337-344 | The board is restored, and the result is true iff the cell's value is repeated by no peer |
| JaController.CheckRow | JavaApplication31/src/Controller.java:335-346 | One row of the mask is true exactly where no clash is; other rows are untouched |
| JaController.Puzzles | JavaApplication31/src/Controller.java:198-205 | Three fresh copies, each with only digits removed and the search unique once any is removed, with exactly 10, 20 and 25 removals unless that level's lists of cells were all taken, and never more |
| JaController.ReadSave | JavaApplication31/src/Controller.java:620-666 | The stage a load reaches: it completes iff no error is met, and each section read is a 9x9 grid |
| JaController.ReadSaveAgrees | JavaApplication31/src/Controller.java:620-666 | The staged load completes iff the record parses, fails with the record's error, and on success holds the record's fields |
| JaController.Controller.constructor | JavaApplication31/src/Controller.java:20-26 | A new controller has no game, no solution, no mask, no faults and no source path |
| JaController.Controller.SetCellValue | JavaApplication31/src/Controller.java:714-728 | The fields are read in the source's order. With no mask it throws NullPointer, and off the board OutOfBounds, both changing nothing. On a free cell with no game it throws NullPointer. With no solution, a nonzero value is written and then NullPointer is thrown. With all three fields set: on a given cell nothing changes and false is returned; otherwise the cell is written, a wrong nonzero value adds one fault, and false is returned iff that brings the faults to 3 or more |
| JaController.Controller.SetFaults | JavaApplication31/src/Controller.java:710-712 | The counter becomes the value, or 0 when it is negative |
| JaController.Controller.GetRemainingCells | JavaApplication31/src/Controller.java:688-702 | 0 without a game, else the number of zero cells |
| JaController.Controller.SaveGame | JavaApplication31/src/Controller.java:600-617 | With a game, the save file becomes the record text and the log is created if missing; without one nothing is written |
| JaController.Controller.DeleteCurrentGame | JavaApplication31/src/Controller.java:669-685 | The game state is cleared, the save file and log are gone, and the source file is deleted when a nonblank path was set |
| JaController.Controller.VerifyGame | JavaApplication31/src/Controller.java:333-348 | The board is as on entry, and a cell is true iff its value is 0 or repeated by no cell of its row, column or box |
| JaController.Controller.LoadGame | JavaApplication31/src/Controller.java:620-666 | No save file throws NotFound and deletes the log, changing nothing else; otherwise the log is created if missing, the fields read so far are set, the error is the first one met, and a full read installs the saved record |
| JaController.Controller.Take | JavaApplication31/src/Controller.java:632-660 | Each section a load reached is installed in its field |
| JaController.Controller.Install | JavaApplication31/src/Controller.java:232-244 | The game becomes current, its fresh mask and the source path are set, and the save file holds the record |
| JaController.Controller.GenerateFromSolvedBoard | JavaApplication31/src/Controller.java:287-330 | A bad level throws and changes nothing else; otherwise the solution is a fresh copy, the new game a puzzle of it with exactly the level's count of cells removed unless the lists of cells were all taken, and the level file and save file are written |
| JaController.Controller.DriveGames | JavaApplication31/src/Controller.java:272-285 | Fails with the read error, or SourceInvalid unless the source is VALID, changing nothing; otherwise an Easy, a Medium and a Hard puzzle of the source are generated in that order, with exactly 10, 20 and 25 cells removed unless a level's lists of cells were all taken |
| JaController.Controller.GenerateLevels | JavaApplication31/src/Controller.java:282-284 | The three calls of `generateFromSolvedBoard` for E, M and H, in that order, leaving puzzles with exactly 10, 20 and 25 cells removed unless a level's lists of cells were all taken |
| JaController.Controller.SolvedBoard | JavaApplication31/src/Controller.java:184-196 | With a source file: its board if it reads and is VALID, else its error or SourceInvalid. Without one: always a board, with no zero and no repeat, that `generateSolvedPuzzle` filled in from the empty board |
| JaController.Controller.GetGame | JavaApplication31/src/Controller.java:175-246 | A letter other than e, m or h throws; a source file that is unreadable or not VALID throws and changes nothing; without a source file the solution is generated, a full conflict-free board; otherwise three puzzles with exactly 10, 20 and 25 cells removed (unless a level's lists of cells were all taken) are written, the requested one becomes current with faults 0, and the save file is written |
| JaController.Controller.Start | JavaApplication31/src/Controller.java:198-244 | The puzzles are dealt with exactly 10, 20 and 25 cells removed unless a level's lists of cells were all taken, faults reset and the selected puzzle installed |
| JaController.Controller.Deal | JavaApplication31/src/Controller.java:198-231 | The three level files hold puzzles of the solved board with exactly 10, 20 and 25 removals unless a level's lists of cells were all taken, never more; the selected one matches the level; the solution is a copy |
| JaFacade.LevelOf | JavaApplication31/src/ControllerFacade.java:96-103 | Only the lower-case letters e, m, h and i map to a level, in that order; anything else throws |
| JaFacade.LevelsComparedWithController | JavaApplication31/src/ControllerFacade.java:96-103 | The facade and the controller agree on e, m and h; only the controller takes upper case, and only the facade takes i |
| JaFacade.FilledMask | JavaApplication31/src/ControllerFacade.java:244-254 | A cell is selected iff it is 0 in the original and nonzero in the solved board |
| JaFacade.ExtractSolution | JavaApplication31/src/ControllerFacade.java:244-254 | The list is the solved values of the selected cells, in row-major order |
| JaFacade.ExtractOverlay | JavaApplication31/src/ControllerFacade.java:244-254 | Extracting from a board filled at its empty cells returns the values filled in |
| JaFacade.VerdictInvalid | JavaApplication31/src/ControllerFacade.java:140-150 | An INVALID board's verdict names a cell on the board that is bad |
| JaFacade.VerdictParts | JavaApplication31/src/ControllerFacade.java:139-145 | Cutting "invalid r,c" at the space and the comma and parsing gives back r and c |
| JaFacade.MarkReported | JavaApplication31/src/ControllerFacade.java:140-150 | Only the reported cell is set to false |
| JaFacade.VerifyGame | JavaApplication31/src/ControllerFacade.java:128-153 | As written: every entry is true iff the board is not INVALID, so an INVALID board gives all false |
| JaFacade.VerifyGameMarksAll | JavaApplication31/src/ControllerFacade.java:128-153 | A board with two 5s in row 0 is INVALID while its centre cell is not bad, yet that cell is marked false |
| JaFacade.VerifyGameMarked | JavaApplication31/src/ControllerFacade.java:128-153 | Corrected: all true unless INVALID; then false exactly at the reported cell, which is bad |
| JaFacade.Fill | JavaApplication31/src/ControllerFacade.java:132-137 | Every entry becomes the given value |
| JaFacade.SolveGame | JavaApplication31/src/ControllerFacade.java:58-65 | The strategy runs on a fresh copy; the caller's board is untouched |
| JaFacade.SolveAndExtract | JavaApplication31/src/ControllerFacade.java:159-161 | On success the list is the first valid reading and filling it in gives a VALID board |
| JaFacade.EmptyNotValid | JavaApplication31/src/ControllerFacade.java:118-126 | The empty board is INCOMPLETE, never VALID |
| JaFacade.ControllerFacade.constructor | JavaApplication31/src/ControllerFacade.java:18-24 | A new facade has no board, no mask and the given store |
| JaFacade.ControllerFacade.Load | JavaApplication31/src/ControllerFacade.java:32-44 | A missing level throws and changes nothing; otherwise the stored board becomes current with its mask of givens |
| JaFacade.ControllerFacade.GetGame | JavaApplication31/src/ControllerFacade.java:95-116 | Letters other than e, m, h and i throw; otherwise a deep copy of the loaded board comes back |
| JaFacade.ControllerFacade.GetGameByLevel | JavaApplication31/src/ControllerFacade.java:32-44 | The loaded board itself comes back, shared with the facade |
| JaFacade.ControllerFacade.LoadGame | JavaApplication31/src/ControllerFacade.java:185-188 | Loads the stored in-progress game |
| JaFacade.ControllerFacade.SaveGame | JavaApplication31/src/ControllerFacade.java:179-183 | With a board, the store holds it as the in-progress game |
| JaFacade.ControllerFacade.DeleteCurrentGame | JavaApplication31/src/ControllerFacade.java:190-195 | The in-progress game is removed and the board and mask cleared |
| JaFacade.ControllerFacade.GetCurrentGame | JavaApplication31/src/ControllerFacade.java:171-173 | A deep copy of the board, or null without one |
| JaFacade.ControllerFacade.GetIsOriginal | JavaApplication31/src/ControllerFacade.java:175-177 | A deep copy of the mask, or null without one |
| JaFacade.ControllerFacade.GetRemainingCells | JavaApplication31/src/ControllerFacade.java:197-206 | 0 without a board, else the number of zero cells |
| JaFacade.ControllerFacade.GetFaults | JavaApplication31/src/ControllerFacade.java:208-210 | Always 0 |
| JaFacade.ControllerFacade.GetCatalogArray | JavaApplication31/src/ControllerFacade.java:90-93 | Whether an in-progress game is stored and whether all three levels are |
| JaFacade.ControllerFacade.DriveGames | JavaApplication31/src/ControllerFacade.java:46-52 | The generator saves the three puzzles iff the board is VALID |
| JaFacade.ControllerFacade.DriveGamesFromFile | JavaApplication31/src/ControllerFacade.java:118-126 | The placeholder empty board is never VALID, so the call throws and saves nothing |
| SsGame.Game.Copy | sssoduku/src/Game.java:6-12 | A fresh board equal to the other's, with the same level |
| SsGame.Game.constructor | sssoduku/src/Game.java:14-18 | The board array is kept by reference |
| SsGame.Game.GetCellValue | sssoduku/src/Game.java:20-22 | The value at the cell |
| SsGame.Game.SetCellValue | sssoduku/src/Game.java:25-29 | Returns the old value, writes only that cell, and writing the old value back restores the board |
| SsGame.Game.IsCompleted | sssoduku/src/Game.java:39-48 | True iff no cell is 0, iff the empty count is 0 |
| SsGame.Game.CountEmptyCells | sssoduku/src/Game.java:50-60 | The number of zero cells |
| SsIterator.PermutationIterator.constructor | sssoduku/src/PermutationIterator.java:16-20 | Starts at 1,1,1,1,1 with `hasNext` set |
| SsIterator.PermutationIterator.HasNext | sssoduku/src/PermutationIterator.java:23-25 | True iff fewer than 59049 readings were handed out |
| SsIterator.PermutationIterator.Next | sssoduku/src/PermutationIterator.java:28-55 | Exhausted: throws and changes nothing. Otherwise call n returns a fresh copy of reading n |
| SsVerifier.Verify | sssoduku/src/Verifier.java:24-42 | The sssoduku classification: INVALID iff a digit repeats in a unit, else INCOMPLETE iff a zero, else VALID |
| SsVerifier.VerifySourceSolution | sssoduku/src/Verifier.java:12-18 | Throws SourceInvalid iff the board is not VALID |
| SsVerifier.GetVerificationResult | sssoduku/src/Verifier.java:75-95 | The report text: "VALID", "INCOMPLETE", or the list of clashing cells |
| SsVerifier.Duplicates | sssoduku/src/Verifier.java:85-94 | Lists, in row-major order, exactly the nonzero cells failing the placement test, and says whether there is one |
| SsVerifier.Names | sssoduku/src/Verifier.java:85-94 | Each clashing cell is named as "(r,c)", in order |
| SsVerifier.InvalidReportJoin | sssoduku/src/Verifier.java:85-94 | A nonempty list is reported as the header and the cell names joined by spaces |
| SsVerifier.ReportListsClashes | sssoduku/src/Verifier.java:75-95 | An INVALID board always has a clashing cell, so the "unknown reason" text is never produced |
| SsVerifier.IsValidWithPermutation | sssoduku/src/Verifier.java:100-116 | True iff the copy with the first five listed cells written classifies VALID; the board is only read |
| SsVerifier.PermutationOnEmpty | sssoduku/src/Verifier.java:100-116 | On the five empty cells, writing equals the overlay, and on boards in 0..9 the two classifications agree |
| SsGameSolver.Solve | sssoduku/src/GameSolver.java:16-52 | Throws unless exactly five cells are 0; otherwise the first reading that passes, or NoSolution iff none passes; the board is only read |
| SsGameSolver.Check | sssoduku/src/GameSolver.java:36-49 | One check of reading n, as the verifier does it |
| SsGameSolver.PassesFills | sssoduku/src/GameSolver.java:36-49 | A passing reading fills the puzzle with no zero, no repeat and the givens kept |
| SsGameSolver.NoneSolves | sssoduku/src/GameSolver.java:51 | When no reading passes, no digit assignment of the empty cells makes the board VALID |
| SsGameSolver.FormatSolutionForView | sssoduku/src/GameSolver.java:58-70 | Row k is the k-th empty cell in row-major order and its value; too many empty cells or too short a solution throw |
| SsGameSolver.ViewRows | sssoduku/src/GameSolver.java:58-70 | The view has five rows of three numbers: row, column and value |
| SsGameSolver.PutRow | sssoduku/src/GameSolver.java:62-66 | Writing one row keeps the rows written so far and adds the next empty cell with its value |
| SsUserAction.ActionText | sssoduku/src/UserAction.java:15-18 | The line is in parentheses |
| SsUserAction.StrippedText | sssoduku/src/GameController.java:97-103 | Removing the brackets and white space leaves the four numbers joined by commas |
| SsUserAction.LogPartsText | sssoduku/src/GameController.java:97-103 | Cutting the stripped line at commas gives the four number texts |
| SsUserAction.ParseActionText | sssoduku/src/GameController.java:97-103 | Parsing the line of a move with Java int fields gives the same move back |
| SsUserAction.UndoFieldsText | sssoduku/src/StorageService.java:106-116 | The undo reader takes the row, the column and the previous value (field 3) from the line |
| SsUserAction.UndoAcceptsParsed | sssoduku/src/StorageService.java:106-116 | Every line the move parser accepts, the undo reader accepts with the same fields |
| SsStorage.BoardLines | sssoduku/src/StorageService.java:156-165 | Nine lines, one per row |
| SsStorage.ReadBoardText | sssoduku/src/StorageService.java:167-177 | A board read without error is 9x9 |
| SsStorage.RowTextDigits | sssoduku/src/StorageService.java:156-165 | A row of values 0..9 is written as one digit character per cell |
| SsStorage.BoardRoundTrip | sssoduku/src/StorageService.java:156-177 | Reading back a written board with values 0..9 gives the board |
| SsStorage.WriteBoardToFile | sssoduku/src/StorageService.java:156-165 | The text written is the rows' digits, each row followed by a line break |
| SsStorage.PrintRow | sssoduku/src/StorageService.java:158-162 | One row's values concatenated |
| SsStorage.ReadBoardFromFile | sssoduku/src/StorageService.java:167-177 | A fresh board with the numeric values of the first nine characters of each line; a short file or line throws |
| SsStorage.ReadRow | sssoduku/src/StorageService.java:170-175 | One row set from the numeric values of a line; other rows untouched |
| SsStorage.UndoSession | sssoduku/src/StorageService.java:99-123 | An undo that succeeds leaves a 9x9 board |
| SsStorage.UndoPops | sssoduku/src/StorageService.java:99-123 | Undo removes exactly the last log line, sets its cell to its previous value and leaves every other cell |
| SsStorage.FirstSaved | sssoduku/src/StorageService.java:62-76 | None iff no game of that level is saved, else the first one saved |
| SsStorage.DropFirst | sssoduku/src/StorageService.java:128-143 | Removes one game when the level has one, else nothing |
| SsStorage.StorageService.constructor | sssoduku/src/StorageService.java:46-60 | The storage starts with the given files |
| SsStorage.StorageService.SaveGame | sssoduku/src/StorageService.java:46-54 | Adds the board's text under its level and changes nothing else |
| SsStorage.StorageService.SaveCurrentGame | sssoduku/src/StorageService.java:56-60 | The current game's file holds the board's text |
| SsStorage.StorageService.LoadGame | sssoduku/src/StorageService.java:62-76 | NotFound without a matching file; otherwise the read of the current or first saved file, with the level set |
| SsStorage.StorageService.LoadCurrentGame | sssoduku/src/StorageService.java:78-86 | NotFound without a current file; otherwise its read, as INCOMPLETE |
| SsStorage.StorageService.LogUserAction | sssoduku/src/StorageService.java:90-97 | Appends exactly one line, the move's text, creating the log if absent |
| SsStorage.StorageService.UndoLastMove | sssoduku/src/StorageService.java:99-123 | The board and log become the undo of the session, or an error with nothing changed; no log or an empty one changes nothing |
| SsStorage.StorageService.DeleteGameFromFolder | sssoduku/src/StorageService.java:128-143 | Removes the first saved game of the level |
| SsStorage.StorageService.DeleteCurrentGame | sssoduku/src/StorageService.java:145-152 | The current game and the log are gone |
| SsGameGenerator.CodeDecode | sssoduku/src/GameGenerator.java:144-164 | Position i * 9 + j decodes back to the cell (i, j) |
| SsGameGenerator.PositionsSpec | sssoduku/src/GameGenerator.java:144-151 | The position list has no repeats and lists only digit cells |
| SsGameGenerator.PositionsFull | sssoduku/src/GameGenerator.java:144-151 | A board without zeros lists all 81 positions |
| SsGameGenerator.PermNoRepeats | sssoduku/src/GameGenerator.java:157 | Shuffling keeps the list free of repeats |
| SsGameGenerator.RemovalCount | sssoduku/src/GameGenerator.java:154 | The count is at most the number available and never negative |
| SsGameGenerator.LevelRemoves | sssoduku/src/GameGenerator.java:140-168 | Exactly min(k, digit count) digits are blanked and every other cell is unchanged |
| SsGameGenerator.ValidLevelCounts | sssoduku/src/GameGenerator.java:115-125 | From a VALID source a level blanks exactly its count |
| SsGameGenerator.CollectPositions | sssoduku/src/GameGenerator.java:144-151 | The digit cells' positions in row-major order |
| SsGameGenerator.GenerateLevel | sssoduku/src/GameGenerator.java:140-168 | The passed board is blanked in place as the level board, one draw is used per swap, and a new game shares that board |
| SsGameGenerator.RemoveFirst | sssoduku/src/GameGenerator.java:160-165 | The first n listed positions are zeroed |
| SsGameGenerator.CountRemovedCells | sssoduku/src/GameGenerator.java:170-183 | The number of cells nonzero in the source and zero in the modified board |
| SsGameGenerator.GenerateGames | sssoduku/src/GameGenerator.java:106-138 | An empty map unless the source is VALID; otherwise HARD, MEDIUM and EASY games on fresh boards, made in that order with 25, 20 and 10 removals |
| SsGameGenerator.Level | sssoduku/src/GameGenerator.java:115-125 | A level game made from a fresh copy; the source is untouched |
| SsGameController.MoveSession | sssoduku/src/GameController.java:110-120 | A move writes the cell and appends its log line |
| SsGameController.UndoInvertsMove | sssoduku/src/GameController.java:110-125 | Undo after a move restores the board and the log |
| SsGameController.MoveKeepsInt32 | sssoduku/src/GameController.java:110-120 | A move keeps every value a Java int |
| SsGameController.UndoAllMoves | sssoduku/src/GameController.java:110-125 | Undoing as many times as moves were made restores the board and the log |
| SsGameController.UndoTimesSnoc | sssoduku/src/GameController.java:123-125 | n + 1 undos are n undos followed by one more |
| SsGameController.UndoSameLines | sssoduku/src/StorageService.java:99-123 | Undo depends only on the board and the log's lines, not on whether the log was created empty |
| SsGameController.GameController.GetGame | sssoduku/src/GameController.java:27-36 | NotFound without a file; otherwise the loaded game, saved as the current game |
| SsGameController.GameController.DriveGames | sssoduku/src/GameController.java:39-56 | SourceInvalid and nothing saved unless VALID; otherwise the EASY, MEDIUM and HARD puzzles are saved in that order |
| SsGameController.GameController.SaveLevels | sssoduku/src/GameController.java:47-53 | Saves the three boards in the order Easy, Medium, Hard |
| SsGameController.GameController.VerifyGame | sssoduku/src/GameController.java:59-83 | The report text; a VALID game also deletes the current game, the log and its level's file |
| SsGameController.GameController.SolveGame | sssoduku/src/GameController.java:86-89 | The solver's result: exactly five empty cells required |
| SsGameController.GameController.LogUserAction | sssoduku/src/GameController.java:92-107 | Logs the parsed move iff the line parses; otherwise the parse error and no change |
| SsGameController.GameController.ProcessMove | sssoduku/src/GameController.java:110-120 | Off the board throws and changes nothing; otherwise the board and log become the move's session and the current game is saved |
| SsGameController.GameController.Undo | sssoduku/src/GameController.java:123-125 | The board and log become the undo of the session, or the undo's error |
| Base.CopyBoard | JavaApplication31/src/Controller.java:248-254 | A fresh board equal to the source |
| Text.ParseIntText | JavaApplication31/src/Controller.java:108-117 | `Integer.parseInt` of a Java int's decimal text gives the int back |
| Text.LinesRoundTrip | JavaApplication31/src/Controller.java:155-166 | Reading the lines of written lines gives back the lines, when none holds a line break |
| Text.SplitJoin | JavaApplication31/src/ControllerFacade.java:140-150 | Splitting text joined by a separator gives the pieces back |

## Left out

- I/O, the clock and randomness are parameters or fields. The file system is a set of fields, the clock a time stamp, `java.util.Random` a tape of draws. `RandomPairs` is a list of pairs. No distribution is modelled.
- The Swing GUIs and launchers are not part of this model. They duplicate the session rules that `Controller.setCellValue` and `GameController` model.
- JavaApplication31's `GameController`, `GameStorage`, `GameLogger` and `UserAction` are not part of this model. They are file and serialisation glue, and `GameStorage` is a map in `JaFacade.ControllerFacade`.
- `ensureGameDirs` and directory listing are not modelled: they only create folders and list them. `enforceIncompleteFolderState` and `resetIncompleteLog` are modelled only through their effect on the log: `JaController.Controller.SaveGame` and `LoadGame` delete it or create it empty, and an installed game has an empty log (`Installed`). `Controller.logUserAction` is left out: it only appends a line to the log.
- The unused `SaveState`/`Serializable` machinery, the commented-out first sssoduku `GameGenerator` and all console printing are not part of this model.
- Text.Lines: `Files.readAllLines` also ends a line at '\r' and at "\r\n"; the model ends lines only at '\n'. JaControllerText.ReadBoard likewise models `split("\\R")` as a split on '\n' only.
- JaControllerText.SaveLoad: the round trip is stated for any text without '\n' in the source path. A path holding '\r' would break the source's read-back, which the model does not show.
- Text.LinesRoundTrip: lines may hold '\r' in the model; the source would split them there.
- Text.IsBlank: only the ASCII whitespace of `Character.isWhitespace`; a text of other Unicode spaces, such as U+2003, is blank for `String.isBlank` but not in the model, so `JaControllerText.SourceField` keeps it as a path.
- Text.ParseInt: only ASCII digits are digits. `Integer.parseInt` also accepts other Unicode decimal digits, such as Arabic-Indic ones.
- Text.NumericValue: `Character.getNumericValue` on ASCII only; non-ASCII digits and letters, which Java maps to values, give -1.
- JaController.GameFile: the separator is '/', where `Paths.get` uses the platform's separator.
- SsStorage.WriteBoardToFile: lines end in '\n', where `println` writes the platform's line separator.
- Java int overflow is not modelled.
  - The codec round trips require every value to be a Java int (`IsInt32`), because `Integer.parseInt` refuses anything else.
  - The fault counter is unbounded.
- JaBacktrack.RemoveNumbers: the retry loop has no termination guarantee. It runs over a finite list of pair batches, and the contract promises "count reached, or batches used up" instead of "count reached".
- JaController.Puzzles: inherits the gap of `JaBacktrack.RemoveNumbers`. A level has exactly its count of cells removed unless its lists of cells were all taken (`Cut.used == |Cut.batches|`). The source's loop runs until the count is reached.
- JaController.Controller.GenerateFromSolvedBoard: same gap as `JaController.Puzzles`, through its `Cut`.
- JaController.Controller.DriveGames: same gap as `JaController.Puzzles`, for each of the three levels.
- JaController.Controller.GenerateLevels: same gap as `JaController.Puzzles`, for each of the three levels.
- JaController.Controller.GetGame: same gap as `JaController.Puzzles`, for the three dealt puzzles.
- JaController.Controller.Start: same gap as `JaController.Puzzles`, for the three dealt puzzles.
- JaController.Controller.Deal: same gap as `JaController.Puzzles`, for the three dealt puzzles.
- JaBacktrack.GenerateSolvedPuzzle: shuffles are from the tape. The contract says what any tape gives, not the probability of a particular grid.
- JaController.Controller.GetGame: a missing source file is `None`. A file that exists is its text, and `readBoard` errors are the model's `Err` values.
- JaController.Controller.DeleteCurrentGame: deleting the folder's other files is not modelled. Only the save file, the log and the source path's entry are removed.
- JaFacade.ControllerFacade.GetGame: loading the first file of a folder is reading the map entry of the level.
- JaFacade.ControllerFacade.DriveGames: the `Game` class of JavaApplication31 is not part of this model. A game is its board.
- JaFacade.ControllerFacade.DriveGames: the generator's saved list (`generator.saved`) is kept apart from the facade's store (`games`). In the source both `GameStorage` objects write to the same `sudoku_games` folders, so a generated puzzle can later be loaded through the facade; the model does not connect the two.
- JaFacade.ControllerFacade.LoadGame: the store's first-file choice is the single map entry.
- `ControllerFacade.getSolution` has the same body as `getCurrentGame`, and `setFaults` does nothing, so neither has a member of its own.
- `ControllerFacade.verifyState(int[][])` delegates to `JaVerifier.VerifyState`.
- `ControllerFacade.createOriginalMask` and `deepCopyBoard`/`deepCopyBooleanArray` are the loops of `JaController.OriginalMask` and `Base.CopyBoard`, and are used through them.
- `ControllerFacade.logUserAction` and the `GameLogger` it writes to are left out: they append timestamped lines to a file.
- SsGameController.GameController.VerifyGame: the deletions that follow a VALID verdict are taken as the storage calls; the listing of folders behind them is not modelled.
- SsStorage.StorageService.LoadGame: the "first file of the folder" is the first saved game of the level, in saving order.

## Findings

| source | as written | input that shows it | evidently intended | confidence | as-written member | corrected member |
|---|---|---|---|---|---|---|
| JavaApplication31/src/ControllerFacade.java:128-153 | The mask is a fresh `boolean[9][9]`, so it starts all false, and an "invalid r,c" verdict only writes false at (r, c): every cell of an INVALID board comes back false | The empty board with 5 at (0,0) and (0,1): INVALID, yet the empty centre cell (4,4), which is not bad, is marked false | Every cell true except the one the verifier reports | not executed | JaFacade.VerifyGame | JaFacade.VerifyGameMarked |
