# Sudoku solving engine, modelled in Dafny

This project models the engine of `sudoku.py`. It describes:

- **Cells.** A cell holds a value in `0..N`, an editable flag and a set of candidate values.
- **Regions.** The rows, the columns and the rectangular boxes of the board.
- **The undo/redo log.** Every write to the board is logged in it.
- **The `Sudoku` board.** Its constructor, `set_cell_value`, the candidate update, `is_solved`,
  `is_wrong`, `to_string` and `copy_from`.
- **Two deduction patterns.** `OnePossibility` writes the only candidate of a cell (a naked single).
  `Exclusion` writes a value that only one cell of a region still offers (a hidden single).
- **The solver.** `SudokuSolver.solve` applies the patterns in rounds, then falls back to the
  `BruteForce` search.
- **The brute-force search.** It works on a tree of `SudokuNode` board copies.
- **The factory.** `SudokuFactory.create_from_string` reads a board from text.

Module layout, following the source's classes:

| module | file | what it holds |
|---|---|---|
| `Wrappers` | `wrappers.dfy` | `Result`, `Outcome` and the error kinds, which model the raised exceptions |
| `Cells` | `cells.dfy` | the `Cell` value and its operations |
| `Layout` | `layout.dfy` | positions, box shapes, the region lists the board constructor builds, and `Region.add` |
| `History` | `history.dfy` | `UndoRedo`, a class with two sequence fields |
| `Grids` | `grids.dfy` | the grid of cells, `set_cell_value` as a value-level function `Assign`, and the replay of a logged history |
| `Regions` | `regions.dfy` | the per-region checks and the candidate narrowing of `Region.update_possible_values` |
| `Board` | `board.dfy` | class `Sudoku` |
| `Patterns` | `patterns.dfy` | `OnePossibility` and `Exclusion` |
| `Search` | `search.dfy` | `BruteForce` and `SudokuNode` |
| `Solver` | `solver.dfy` | `SudokuSolver` |
| `Factory` | `factory.dfy` | `SudokuFactory` |

**The board class.** `Board.Sudoku` is a class. Its cells are a `seq<seq<Cell>>` field that the
methods reassign, and its history is an `UndoRedo` object.

- A region is a list of positions. In the source, a region holds the very cell objects of the grid,
  so positions say the same thing.
- Every board method keeps `Valid()`. That means:
  - every cell is well formed: a value in `0..N`, candidates in `1..N`, no candidates once a value
    is placed, and a clue always holds a value;
  - no empty cell offers a value already placed in one of its regions.

**How the passes are specified.** Each deduction pass is specified by a ghost function that computes
the pass on plain values. That function gives the grid the pass leaves and the log of writes it
makes. The method that runs the pass is proved to end with exactly that grid and that history.

**What each pass is proved to keep.** The predicate `Grids.SoundRun` collects it:

- the grid stays well formed and consistent;
- the logged writes, replayed from the old grid, reach the new one;
- filled cells stay filled;
- no duplicate is introduced;
- a pass reports a change exactly when it lowered the number of empty cells.

**How the search and the solver are specified.** They too are computed first on plain values:

- `Search.Settled` runs each pattern to its own fixpoint, in turn (`Patterns.Fixpoint`).
- `Search.Search` is `SudokuNode.solve`. It settles the board, answers a solved board with itself
  and a wrong one with nothing, and otherwise answers with the search of its first child. That
  child holds the smallest candidate of the first empty cell.
- `Search.BruteForced` is `BruteForce.solve`.
- `Solver.RoundOf`, `Solver.RoundsFrom` and `Solver.SolverRun` are one round of the patterns, the
  rounds while one asks for another, and `SudokuSolver.solve` as a whole.

Each method is proved to leave exactly the board and history its function gives, and to return
exactly its answer. Lemmas beside the functions state what they promise. Histories are related
to the old history by `Grids.Extends`: the log only grew, and replaying the new entries reaches
the new board. The search terminates because each child has fewer empty cells than its parent.

**Choices the source leaves open:**

- **Candidate order.** The model picks ascending order (`Search.Ascending`); CPython's order
  follows the hash table and is not ascending in general. The order decides which child the
  brute-force search explores, and the order of Exclusion's dictionary keys.
  (`list(possibilities)[0]` in OnePossibility reads a one-element set, so no order is involved
  there.)
- **Exclusion's dictionary.** It keeps insertion order, as Python dictionaries do. Its keys are the
  values first met while walking the region's cells, each cell's candidates in the model's
  ascending order.
- **The solver's pattern list.** The methods of `Solver.SudokuSolver` are proved for any list of
  deduction patterns that holds both singles (`Solver.SolverPatterns`). The constructor fixes the
  list to `get_patterns_without_brute_force`, as the source does.
- **Box shapes.** The board is built for shapes whose boxes tile it (`w * h == N`). The factory's
  three sizes 4, 6 and 9 are such shapes.
- **`MAX_VALUE`.** `Cell.MAX_VALUE` is the board size, passed as a parameter.
- **Where the code and its documentation disagree, the model follows the code.**
  - The factory's docstring promises a `ValueError` for a bad string. A text with no digit line at
    all instead fails at the size lookup (a `KeyError` at `sudoku.py:833`). The model reports it as
    its own error, `UnknownSize`.
  - `SudokuNode.solve`'s docstring says it goes through the children. As written it returns the
    first child's result (`sudoku.py:767-771`), so the search is sound but not complete, and
    `Search.SudokuNode.Branch` models that.
  - Exclusion's `solve_one` parameter is never read.
  - A cell that is the only holder of two values in one region is written twice, the second write
    replacing the first.

## Model

| member | source | states |
|---|---|---|
| Cells.NewCell | sudoku.py:18-49 | A clue without a value fails with MissingValue. A value outside 0..max fails with InvalidValue. A position outside 0..max-1 fails. Otherwise the cell keeps its row, column, flag and value; an editable cell gets every candidate 1..max, and a clue gets none. |
| Cells.SetValue | sudoku.py:85-95 | A clue refuses every write, and a value outside 0..max is refused; neither changes the cell. On success the value is stored, a non-zero value empties the candidates and 0 keeps them. The cell invariant is kept. |
| Cells.InitCandidates | sudoku.py:97-99 | The candidates become exactly 1..max. The value and the flag are unchanged. |
| Cells.IntersectCandidates | sudoku.py:101-107 | The new candidates are exactly the old ones that are also in the given set. Nothing else changes. |
| Cells.Clear | sudoku.py:109-112 | An editable cell becomes empty; a clue keeps its value. The candidates are untouched. |
| Cells.RemoveCandidate | sudoku.py:114-121 | The value is no longer a candidate, and every other candidate stays. Nothing else changes. |
| Layout.Add | sudoku.py:150-157 | After adding, the region holds the position. The set of members is the old one plus the position. A region without repeats keeps none, and a new position is appended at the end. |
| Layout.BoxRowsFacts | sudoku.py:324-329 | The box loop lists count*w distinct positions, exactly those in the rectangle it spans. |
| Layout.RegionsAreOk | sudoku.py:311-329 | There are 3N regions, each holding N distinct positions on the board. |
| Layout.PositionRegions | sudoku.py:315-329 | A position lies in region k exactly when k is its row, N plus its column, or 2N plus the index of its box. |
| Board.RowsAndColumns | sudoku.py:315-319 | The first loop fills region r with row r and region N+c with column c, in order, and leaves the box regions empty. |
| Board.FillBox | sudoku.py:326-329 | The two inner box loops fill exactly one region with the box's positions and leave the others alone. |
| Board.FillBand | sudoku.py:323-329 | One pass of the x_start loop fills the next regions with the boxes of one band. |
| Board.BuildRegions | sudoku.py:311-329 | The constructor's loops build exactly the layout's regions: rows, then columns, then boxes. |
| History.UndoRedo.constructor | sudoku.py:234-236 | Both lists start empty. |
| History.UndoRedo.AddAction | sudoku.py:238-249 | The action is appended to the undo list and the redo list is emptied. |
| History.RedoAfterThen | sudoku.py:238-249 | Since each recorded action clears the redo list, recording two runs of writes one after the other leaves the redo list that recording them together leaves: emptied if either run wrote something, kept otherwise. |
| History.UndoRedo.Undo | sudoku.py:259-271 | On an empty undo list it fails and changes nothing. Otherwise the newest action moves to the redo list and is returned with both new lengths. |
| History.UndoRedo.Redo | sudoku.py:273-284 | The mirror image of Undo, from the redo list to the undo list. |
| History.UndoThenRedo | sudoku.py:259-284 | Undo followed by redo returns the same action and restores both lists exactly. |
| History.RedoThenUndo | sudoku.py:259-284 | Redo followed by undo returns the same action and restores both lists exactly. |
| Grids.RemoveAround | sudoku.py:396-404 | Every cell that shares a region with the position loses the value as a candidate. Every other cell is unchanged. |
| Grids.Assign | sudoku.py:374-394 | An off-board position fails with OutOfRange before any change. A clue fails with NotEditable. A value outside 0..N fails with InvalidValue. Every other write succeeds. |
| Grids.AssignEffect | sudoku.py:374-404 | After an accepted write the cell holds the value, and every peer has lost it as a candidate. No other value, flag or position changes, and non-peers are untouched. |
| Grids.AssignKeepsInvariants | sudoku.py:374-404 | A write keeps every cell well formed and keeps the candidates consistent with the placed values. |
| Grids.AssignKeepsNoDuplicates | sudoku.py:374-404 | Writing a value that no peer holds introduces no duplicate in any region. |
| Grids.CandidateWrite | sudoku.py:374-404 | Writing a candidate of an empty cell: is accepted; keeps the invariants; introduces no duplicate; keeps filled cells filled; lowers the number of empty cells. |
| Grids.ReplayRelog | sudoku.py:478-486 | The history a replay logs, replayed itself, reaches the same board. |
| Grids.ExtendsTrans | sudoku.py:478-486 | A history extending one that extends a third also extends the third. |
| Grids.ExtendsKeepsClues | sudoku.py:85-95 | A board reached by replaying logged writes keeps every clue's value and flag. |
| Grids.ReachedStops | sudoku.py:484-486 | A replay refused at some write ends on the board it reached just before, having logged only the writes before that one, whatever follows it. |
| Regions.ScanSolved | sudoku.py:190-204 | Region.is_solved holds exactly when every value lies in 1..len and no two cells share one. |
| Regions.SolvedIff | sudoku.py:190-204 | Comparing the value set with {1..len} is the same as "all values in 1..len, pairwise different". |
| Regions.ScanWrong | sudoku.py:206-221 | is_not_possible_to_solve holds exactly when some empty cell has no candidate or some non-zero value occurs twice. |
| Regions.Allowed | sudoku.py:180-184 | The allowed values are exactly those in 1..len that no cell of the region holds. |
| Regions.NarrowEffect | sudoku.py:170-188 | Region.update_possible_values: an empty cell keeps exactly its old candidates that are allowed. Filled cells and cells elsewhere are untouched. |
| Regions.NarrowAllConsistent | sudoku.py:432-438 | Updating every region makes the board consistent: no empty cell offers a value placed among its peers. |
| Regions.NarrowAllBlank | sudoku.py:298-331 | On an empty board, the update leaves every candidate set 1..N. |
| Regions.BoardWrongIff | sudoku.py:451-463 | The board is wrong exactly when some empty cell has no candidate or two peers hold the same value. |
| Regions.BoardSolvedIff | sudoku.py:440-449 | The board is solved exactly when every cell is filled and no region repeats a value. |
| Regions.SolvedBoardIsFull | sudoku.py:440-463 | A solved board holds a value in 1..N everywhere, has no duplicate and is not wrong. |
| Regions.FullBoardIsSolved | sudoku.py:440-449 | A full board without duplicates is solved. |
| Regions.OpenBoardCanBranch | sudoku.py:749-766 | A consistent board that is neither solved nor wrong has an empty cell, and every empty cell still has a candidate. So SudokuNode.solve always has a child to branch on. |
| Board.Sudoku.Empty | sudoku.py:298-331 | An empty board: every cell editable, value 0, candidates 1..N; an empty history; the board is valid. |
| Board.Sudoku.FromCells | sudoku.py:298-331 | A board over given cells: its regions are the layout's and its cells are the narrowed ones. Candidates only shrink, and the board is valid. |
| Board.Sudoku.Copy | sudoku.py:723 | The deep copy has the same cells, regions and shape, and a fresh history with the same actions. |
| Board.Sudoku.GetCellValue | sudoku.py:361-372 | An off-board position fails. On the board the result is the cell's value, in 0..N. |
| Board.Sudoku.GetCellPossibilities | sudoku.py:406-417 | An off-board position fails. On the board the result is a subset of 1..N, and it is non-empty only for an empty editable cell. |
| Board.Sudoku.IsEditable | sudoku.py:419-430 | The intended is_editable: an off-board position fails, and a clue reports false with a non-zero value. |
| Board.Sudoku.IsEditableAsWritten | sudoku.py:419-430 | is_editable as written: it succeeds for indices in -N..N-1, with negative indices wrapping around, and fails only beyond either end. |
| Board.Sudoku.EditableWrapsAround | sudoku.py:429 | At (-1, -1) the written version answers for the bottom-right cell, while the intended one fails. |
| Board.Sudoku.RemovePossibleValue | sudoku.py:396-404 | _remove_possible_value leaves exactly RemoveAround of the old cells. |
| Board.Sudoku.SetCellValue | sudoku.py:374-394 | A refused write returns its error and changes neither the cells nor the history. An accepted one leaves the cells Assign computes and logs one action with the replaced value, which empties the redo list. The board stays valid. |
| Board.Sudoku.UpdateRegion | sudoku.py:170-188 | The region's update leaves exactly Narrow of the old cells. |
| Board.Sudoku.UpdateAllRegions | sudoku.py:432-438 | Every region in order: the result is NarrowAll of the old cells, and the board is valid. |
| Board.AllSolved | sudoku.py:440-449 | The loop's answer is true exactly when every region is solved. |
| Board.AnyWrong | sudoku.py:451-463 | The loop's answer is true exactly when some region is wrong. |
| Board.Sudoku.IsSolved | sudoku.py:440-449 | True exactly when the board is full and has no duplicate. |
| Board.Sudoku.IsWrong | sudoku.py:451-463 | True exactly when some empty cell has no candidate or two peers share a value. |
| Board.Sudoku.ToString | sudoku.py:465-476 | The text is each row's values, followed by a newline. |
| Board.Sudoku.CopyFrom | sudoku.py:478-486 | The source's actions beyond this board's history length are replayed in order. If all are accepted, the board is the replay's result and the history grows by the replayed writes. Otherwise the first refused write's error is returned, and the writes accepted before it stay applied and logged. The board is then the one the replay had reached, and the history has grown by exactly those writes. In both cases the redo list is emptied when a write was logged, and kept when none was. |
| Patterns.OneScanSound | sudoku.py:587-611 | The OnePossibility pass is a sound run tagged "OnePossibility", and with solve_one it writes at most once. |
| Patterns.OneScanIdle | sudoku.py:587-611 | The pass writes nothing exactly when no visited cell has a single candidate. |
| Patterns.SolveOnePossibility | sudoku.py:587-611 | The method leaves exactly the pass's grid and appends the pass's writes to the history. It returns true exactly when something was written. |
| Patterns.KeysFacts | sudoku.py:646-652 | The dictionary's keys are distinct. They are exactly the values in 1..N that some cell of the region offers. |
| Patterns.AddCell | sudoku.py:649-652 | One cell's candidates are added to the dictionary: each candidate's entry gains the cell, and new keys are appended in ascending order. |
| Patterns.CountCandidates | sudoku.py:647-652 | Each value's entry is its count and its holders in region order, keys in insertion order. |
| Patterns.WriteSinglesSound | sudoku.py:654-657 | The writes of one region are accepted and keep the invariants and the history's replay. The first write fills an empty cell. |
| Patterns.ExcludeInRegion | sudoku.py:646-657 | One region's turn leaves exactly the value-level result for that region and logs its writes. |
| Patterns.ExclusionScanSound | sudoku.py:621-659 | The Exclusion pass is a sound run tagged "Exclusion". |
| Patterns.ExclusionScanIdle | sudoku.py:621-659 | The pass writes nothing exactly when no region has a value offered by exactly one of its cells. |
| Patterns.SolveExclusion | sudoku.py:621-659 | The method leaves exactly the pass's grid and appends the pass's writes. It returns true exactly when something was written. |
| Patterns.PassSound | sudoku.py:541-659 | A pattern's pass is a sound run, and it writes nothing exactly when the board has no single of that pattern's kind. |
| Patterns.FixpointSound | sudoku.py:745-747 | Repeating a pass while it reports a change is a sound run and ends on a board with no single of that pattern's kind. |
| Patterns.Apply | sudoku.py:541-659 | Pattern.solve with solve_one false, dispatched on the pattern: the board becomes exactly the pass's grid and the history grows by exactly the pass's writes. The answer is whether the pass wrote something. The writes replay to the new board; filled cells stay filled; no duplicate appears. A reported change lowers the number of empty cells, and no change leaves the board as it was with no single of that pattern's kind. |
| Search.FirstEmpty | sudoku.py:755-766 | It finds the first empty cell in row-major order, and finds one exactly when the board has an empty cell. |
| Search.SettleFromSound | sudoku.py:744-747 | Running each pattern to its fixpoint, in turn, advances the board: the writes replay to it, no duplicate appears, and a write lowers the number of empty cells. |
| Search.SettleFromExhausts | sudoku.py:744-747 | After the patterns have each run to their fixpoint, the last pattern has nothing left to write. |
| Search.SettledSound | sudoku.py:744-747 | The settled board advances from the old one, has no more empty cells than it, and has no hidden single left, Exclusion being the last pattern run. |
| Search.SolvedPassIdle | sudoku.py:541-659 | A pass over a solved board writes nothing. |
| Search.SettleSolved | sudoku.py:744-747 | Settling a solved board writes nothing. |
| Search.Ascending | sudoku.py:759 | The candidates listed in the model's iteration order: exactly the members of the set within the bounds, strictly increasing. |
| Search.SearchSound | sudoku.py:728-771 | What the search finds is a solved board, and replaying the writes it logged from the start reaches it. |
| Search.SearchStops | sudoku.py:744-753 | A node whose settled board is solved answers with that board; one whose settled board is wrong and not solved answers with nothing. |
| Search.SearchKeepsSolved | sudoku.py:686-751 | On a solved board the search and brute force answer with that board and log no write. |
| Search.BruteForcedSound | sudoku.py:686-692 | What brute force leaves is solved and is reached by replaying the writes it logged. |
| Search.SudokuNode.constructor | sudoku.py:712-726 | A deep copy of the parent, with the requested write applied when row, column and value are given. |
| Search.SudokuNode.NewChild | sudoku.py:759-761 | A child for a candidate of an empty cell is a valid board: the parent's grid with that write, the parent's history plus the write, and fewer empty cells. |
| Search.SudokuNode.MakeChildren | sudoku.py:755-766 | One child per candidate of the cell, in ascending order of the candidates. Each child is a fresh valid board holding this board with its candidate written, and this history with that write logged. The first child is for the smallest candidate. |
| Search.SudokuNode.NewChildren | sudoku.py:759-761 | The child loop: one fresh child for each listed candidate, in the listed order. |
| Search.SudokuNode.Settle | sudoku.py:744-747 | The board becomes exactly the settled board (each pattern to its own fixpoint, in turn), and the history grows by exactly the writes that settled it. The number of empty cells never rises, and no hidden single is left on exit. The redo list is emptied when a write was logged, and kept when none was. |
| Search.SudokuNode.SettleWith | sudoku.py:744-747 | The outer loop over the patterns: the board and history become those of running each pattern to its fixpoint in turn. The redo list is emptied if anything was written, and kept otherwise. |
| Search.SudokuNode.Saturate | sudoku.py:745-747 | The inner while loop: the board and history become those of the pattern's fixpoint, and the pattern has nothing left to write. The redo list is emptied if anything was written, and kept otherwise. |
| Search.SudokuNode.Solve | sudoku.py:728-771 | The node's board becomes the settled board. The node finds a board exactly when Search does: the board found holds Search's solved grid, and its history extends this node's by Search's writes. The board found is this node's own or a fresh one from below it. The node's redo list is emptied when settling wrote something, and kept otherwise. |
| Search.SudokuNode.Decide | sudoku.py:749-771 | Exactly Conclude on the node's board. A solved board is answered with the node's own board (Found(sudoku)). A wrong, unsolved board is answered with Unsolvable. Otherwise the answer is the first child's. |
| Search.SudokuNode.Branch | sudoku.py:755-771 | The result is exactly the first child's search: the search of this board with the smallest candidate of the cell written. A board found has this history extended by that write and by the child's writes. |
| Search.BruteForceSolve | sudoku.py:672-692 | Exactly BruteForced. A wrong board is left alone. Otherwise the root is searched, and the answer is true exactly when a board is found; the board and history then hold it, copied through the history. When nothing is found, the board, undo list and redo list are unchanged. When a board is found, the redo list is emptied if the copy logged a write, and kept otherwise. |
| Solver.RoundRestarts | sudoku.py:514-521 | A round asks for another exactly when it ends on an unsolved board with fewer empty cells than it started with. |
| Solver.RoundSound | sudoku.py:512-521 | A round advances the board. A round that ends unsolved and asks for no other changed nothing and left neither a naked nor a hidden single. |
| Solver.RoundsSound | sudoku.py:512-521 | The rounds advance the board and end on one that is solved or has neither a naked nor a hidden single. |
| Solver.SolverRunSound | sudoku.py:506-528 | The solver advances the board. It ends solved exactly when the rounds solved it or brute force found a solution for the board they left. |
| Solver.SolverRunKeeps | sudoku.py:506-528 | The solver's history extends the old one, every clue keeps its value, and no duplicate is introduced. |
| Solver.SolverKeepsSolved | sudoku.py:512-528 | A solved board is left as it is, and nothing is logged. |
| Solver.SudokuSolver.constructor | sudoku.py:497-504 | The solver holds the board and the two patterns without brute force. |
| Solver.SudokuSolver.Round | sudoku.py:514-521 | The board and history become exactly those of one round, which stops early on a solved board. Another round is asked for exactly when the board ends unsolved with fewer empty cells than before. The redo list is emptied if the round wrote something, and kept otherwise. |
| Solver.SudokuSolver.RoundPasses | sudoku.py:515-521 | The for loop over the patterns, with its break: the board, the history and the restart flag are exactly the round's. The redo list is emptied if the round wrote something, and kept otherwise. |
| Solver.SudokuSolver.PassInRound | sudoku.py:516-521 | One iteration: the pattern's pass, then the solved check. A solved board ends the round with no restart; otherwise a change asks for one, and the rest of the round is unchanged. The redo list is emptied once any write of the round so far is logged, and kept otherwise. |
| Solver.SudokuSolver.Rounds | sudoku.py:512-521 | The board and history become exactly those of the rounds. On exit the board is solved, or no cell has a single candidate and no region has a hidden single. The redo list is emptied if any round wrote something, and kept otherwise. |
| Solver.SudokuSolver.Solve | sudoku.py:506-528 | The board and history become exactly those of the rounds followed, on an unsolved board, by brute force. The result is exactly whether the board ends solved. The history extends by writes that replay from the old board, the clues stay, and no duplicate is introduced. The redo list is emptied if anything was written, and kept otherwise. |
| Solver.SudokuSolver.ToString | sudoku.py:530-536 | The text of the board. |
| Factory.StripLeft | sudoku.py:814 | The stripped string is a suffix; everything dropped is white space, and it does not start with white space. |
| Factory.StripRight | sudoku.py:814 | The mirror image of StripLeft, at the end of the string. |
| Factory.SplitLines | sudoku.py:813 | No line holds a line boundary. |
| Factory.SplitJoin | sudoku.py:813 | Splitting the rows written out one per line gives the rows back. |
| Factory.KeptLines | sudoku.py:813-817 | At most as many kept lines as lines, each all digits. |
| Factory.DigitLines | sudoku.py:812-817 | The first loop keeps exactly the stripped all-digit lines, in order. |
| Factory.ReadBack | sudoku.py:813-817 | Reading back the text of digit rows gives exactly those rows. |
| Factory.CheckFormat | sudoku.py:819-821 | The check passes exactly when there is no line, or every line is as long as there are lines and that count is 4, 6 or 9. |
| Factory.BuildCells | sudoku.py:824-829 | Success exactly when no digit exceeds the size. Each digit becomes its cell: a zero an editable empty cell with every value of 1..size as candidate, any other digit a clue holding it with no candidate. The grid is exactly `LinesGrid` of the lines. |
| Factory.FactoryCellIs | sudoku.py:826-828 | The cell the constructor accepts for a digit character is that character's factory cell: for '0' an editable empty cell with every value of 1..size as candidate, otherwise a clue holding the digit with no candidate. |
| Factory.FromLines | sudoku.py:819-834 | No line gives UnknownSize. A badly shaped set of lines gives InvalidFormat, and a digit above the size gives InvalidValue. Otherwise the result is a valid board of that size, with the listed box shape, an empty history, the digits as its values and flags, and its text equal to the lines. Its candidates are those of `LinesGrid` narrowed against every region (`FactoryBoard`). |
| Factory.NewBoard | sudoku.py:833-834 | The board over the parsed cells is valid, keeps every digit and flag, and writes out as the accepted lines. Its candidates are the given cells' narrowed against every region. |
| Factory.CreateFromString | sudoku.py:784-834 | create_from_string: the error cases as for FromLines, on the stripped digit lines of the text. On success, to_string gives back those lines, each followed by a newline. The board is `FactoryBoard` of those lines, so its candidates are those of the factory's cells narrowed against every region. |

## Left out

- The `__main__` demonstration and `Cell.to_string` (`sudoku.py:123-129`, `837-852`) are printing only.
- `Cell.MAX_VALUE` is a class-wide variable that the factory overwrites. It is modelled as the board size, passed as a parameter.
- `copy.deepcopy` is modelled by the copy constructors `Board.Sudoku.Copy` and `History.UndoRedo.Copy`, which build a fresh board and a fresh history.
- The static `SudokuNode.sudoku_solved` is modelled as the search's return value, `Search.NodeResult`. `BruteForce._root` is a local of `Search.BruteForceSolve`.
- Exceptions are modelled as `Result`/`Outcome` values carrying the error. A caller that would let one propagate stops there.
- Set iteration order: the model iterates a set of candidates in ascending order. CPython's order follows the hash table and is not ascending in general. Where the two differ, the source's search explores another first child than the model's and may give another answer.
- `str.isdigit` covers only the ASCII digits; the other Unicode digits, which `int()` would also read, are not modelled. `str.strip` removes the characters `str.isspace` accepts, listed as a fixed set.
- Patterns.SolveExclusion: `solve_one` is accepted and ignored, as in the source. Every caller passes false, so `Patterns.Apply` only models the false case.
- Patterns.Apply: dispatches the two deduction patterns only. `BruteForce.solve` is never reached through a pattern list in the solver; `Search.BruteForceSolve` models it directly.
- Board.Sudoku.FromCells: requires well-formed cells, which are what the factory makes. An editable cell constructed with a non-zero value (which keeps every candidate) is not accepted.
- Board.Sudoku.Empty: requires a supported shape (`w * h == N`). Other shapes, which the source would build with missing or overlapping boxes, are not modelled.
- Search.SudokuNode.constructor: requires that a requested write is accepted by the board, which every call in `SudokuNode.solve` satisfies.
- Search.SudokuNode.Decide: the source returns `None` when no child is made. `Regions.OpenBoardCanBranch` shows this cannot happen on a valid board, so the model has no such path.
- The 4×4 end-to-end example of the solver (`sudoku_test.py:551-569`) is not stated as a lemma. Evaluating the solver's passes over that concrete board inside the verifier is far beyond its per-proof resource budget; the general properties of `Solver.SolverRun` are stated instead.
- `Region.cells`, `Sudoku.size`, `Sudoku.regions`, `undo_length` and `redo_length` are plain accessors of fields the model exposes directly.

## Findings

| source | as written | input that shows it | evidently intended | confidence | as-written member | corrected member |
|---|---|---|---|---|---|---|
| sudoku.py:429 | `if self._is_row_and_column_in_range:` tests the method object, which is always true, so the range check never runs | `is_editable(-1, -1)` answers for the bottom-right cell, and `is_editable(N, 0)` raises IndexError | call the check, then raise the same range error as the other getters | not executed | Board.Sudoku.IsEditableAsWritten | Board.Sudoku.IsEditable |
