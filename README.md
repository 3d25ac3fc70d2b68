# Sudoku engines in Dafny

The repository has one Sudoku engine written twice. The Rust version is `Sudoku` in
`src/main.rs`. The Python version is class `Sudoku` in `main.py`. This project models both
and proves what each promises.

Both engines share a grid vocabulary and a search specification:

- `seqs.dfy` (module `Seqs`): `Option`, lists without duplicates, and Python's `list.remove`.
- `grids.dfy` (module `Grids`): the 9×9 grid as `seq<seq<int>>`, with 0 for a blank.
  - Cell (x, y) is column x, row y, read as `g[y][x]`.
  - The row/column/box conflict test (`Conflict`).
  - The first blank in row-major order (`FirstBlank`).
  - What a completion of a grid is (`Completion`): it keeps every filled cell and puts in each
    blank a digit 1..9 that no other cell of its row, column or box holds.
- `search.dfy` (module `Backtracking`): the depth-first search both `solve`s perform, as ghost
  functions on grid values.
  - `Search` is the first completion found, trying digits 1..9 at the first blank.
  - `Count` is the number of completions reached.
  - The lemmas show `Search` is sound and complete for `Completion`.
  - They also show that the count is 1 exactly when the grid has exactly one completion, and
    that a count of 2 or more means two different completions.
- `grid_arrays.dfy` (module `GridArrays`): 9×9 `array2<int>` boards.
  - `Snapshot` reads a board as a grid.
  - Helpers write one cell and copy a board.

Each engine is a class over boards updated in place:

- `rust_engine.dfy` (module `RustEngine`): `Sudoku` holds the three boards `board`,
  `initialBoard` and `solvedBoard`.
  - `Solve` and `NoOfSolns` place a digit and undo it while recursing. They are proved against
    `Search` and `Count`: on failure the board is exactly as before, and `no_of_solns` always
    leaves the board as before.
  - `CreateBoard` takes its random draws as parameters. Its result is given by two ghost
    functions: `SeedOutcome` for the seeding loop and `CarveOutcome` for the carving loop. It
    is proved to yield a puzzle whose stored solution is its only completion whenever that
    solution is full.
  - `new` stores the input itself as the solution when the input cannot be solved, because
    `solve` undoes every placement before it returns false.
  - The carving loop of `create_board` goes on clearing cells until a clearing breaks
    uniqueness. It then restores that one cell and stops.
- `python_engine.dfy` (module `PythonEngine`): `Sudoku` holds `board`, `fixed`, `selected` and
  `penciled`.
  - The two position conventions of `main.py` are kept as written:
    - `selected`, the pencil keys and `is_valid_on` in checking mode use (column, row);
    - `fixed`, `find_empty`, `solve` and `is_valid_on` in solving mode use (row, column).
  - The pencil-mark state machine of `put_text` is the ghost function `PencilStep`. Its lemmas
    show that a pencil list never holds a digit twice. They also show that entering a digit
    directly has the same effect on the board as pencilling it twice.

Random choices are inputs:

- Rust: each seed is a cell and an index into its candidate list. The carved cells come as a
  list.
- Python: the seeded row, its digits, the number of cells kept, and the indices `choice` draws.

## Model

| member | source | states |
|---|---|---|
| Seqs.RemoveFirst | main.py:284 | `list.remove` drops one occurrence of the value: one element fewer, the same multiset minus that value, and every other element kept |
| Seqs.RemoveFirstNoDup | main.py:284 | removing from a list without duplicates keeps it without duplicates, and the value is gone |
| Grids.ConflictUnit | src/main.rs:95-120 | the row, column and box checks together are one test: some cell sharing a row, column or box with (x, y) holds n |
| Grids.FirstBlank | src/main.rs:75-84 | a position it returns is on the board and blank |
| Grids.FirstBlankFromSpec | src/main.rs:75-84 | the scan from (x, y) finds nothing exactly when every cell from there on is filled; otherwise it stops at a blank at or after (x, y) with only filled cells between |
| Grids.FirstBlankSpec | src/main.rs:75-84 | none exactly when no cell is 0; otherwise every cell before the returned one in row-major order is non-zero |
| Grids.FirstBlankIs | src/main.rs:75-84 | a blank with only filled cells before it is the first blank |
| Grids.BoxSpan | src/main.rs:108-109 | `v / 3 * 3` is the first row or column of v's box, the box spans three rows or columns from there, and it lies on the board |
| Grids.DivMod9 | main.py:75 | index i * 9 + j of the string is row i, column j |
| Grids.FitsIff | src/main.rs:95-120 | scanning every cell in row-major order for n in a cell sharing a row, column or box with (x, y) agrees with the row, column and box checks |
| Grids.FillShrinksBlanks | src/main.rs:122-139 | writing a digit into a blank strictly shrinks the set of blanks, which is what makes the recursion terminate |
| Grids.PlaceKeepsConsistent | src/main.rs:44-51 | writing 0, or a digit that passes the conflict test, keeps every filled cell alone in its row, column and box |
| Grids.CompletionConsistent | src/main.rs:122-139 | a completion of a consistent grid is consistent |
| Grids.CompletionDigits | src/main.rs:53-55 | a completion of a grid of digits 0..9 is one too |
| Grids.SolutionIsCompletion | src/main.rs:56-67 | a full consistent grid of digits that keeps a puzzle's clues is a completion of that puzzle |
| Backtracking.CompletionStep | src/main.rs:129-136 | the digit a completion holds at a blank passes the conflict test there, and the completion still completes the grid with that digit placed |
| Backtracking.CompletionBack | src/main.rs:129-136 | a completion of the grid with a non-conflicting digit placed is a completion of the grid |
| Backtracking.Search | src/main.rs:122-139 | defines the grid a successful `solve` leaves (the same search as main.py:212-228): the grid itself when it has no blank, otherwise the digits tried in order at its first blank; `SearchSound` and `SearchComplete` give its meaning |
| Backtracking.TryDigits | src/main.rs:129-138 | defines the search at a blank over the digits n..9, with none once the digits run out |
| Backtracking.TryDigit | src/main.rs:130-136 | defines one digit's turn: its branch when the digit fits and the branch succeeds, otherwise the next digit |
| Backtracking.Count | src/main.rs:141-157 | defines the number `no_of_solns` returns: 1 for a grid without blanks, otherwise the counts summed over the fitting digits at the first blank; `CountPositive` and `CountOneIffUnique` give its meaning |
| Backtracking.CountFrom | src/main.rs:149-155 | defines the count at a blank over the digits n..9 |
| Backtracking.SolveOutcome | src/main.rs:30-32 | defines the grid `solve` leaves behind: the search's result, or the grid unchanged when the search fails |
| Backtracking.SearchSound | src/main.rs:122-139 | whatever the search returns completes its input |
| Backtracking.SearchComplete | src/main.rs:122-139 | when the grid has a completion the search succeeds |
| Backtracking.SearchIffCompletion | src/main.rs:122-139 | the search succeeds exactly when a completion exists |
| Backtracking.SearchSolves | src/main.rs:122-139 | on a consistent grid a successful search returns a full consistent grid keeping every clue |
| Backtracking.CountPositive | src/main.rs:141-157 | the solution count is positive exactly when the search succeeds |
| Backtracking.TryDigitsNext | src/main.rs:129-137 | one digit of the search: a conflicting digit is skipped; a fitting digit whose branch succeeds ends the search with that branch; otherwise the search goes on with the next digit |
| Backtracking.CountFromNext | src/main.rs:149-155 | one digit of the count: a conflicting digit adds nothing; a fitting digit adds the count of its branch |
| Backtracking.CountFromMono | src/main.rs:149-155 | trying more digits never lowers the count |
| Backtracking.CountFromSplit | src/main.rs:148-155 | the count from digit m on includes the count under any later non-conflicting digit n plus the count from n + 1 on |
| Backtracking.BranchCounts | src/main.rs:149-153 | the digit a completion holds at a blank fits there, and the branch that places it counts at least one solution |
| Backtracking.TwoDigitsCountTwo | src/main.rs:149-155 | two different fitting digits whose branches both count make the count at least 2 |
| Backtracking.TwoCompletionsCountTwo | src/main.rs:141-157 | two different completions make the count at least 2 |
| Backtracking.CountOneUnique | src/main.rs:56-67 | when the count is 1, a completion is the only completion and it is what the search returns |
| Backtracking.CountUniqueAtMostOne | src/main.rs:141-157 | a grid whose only completion is c counts at most one solution |
| Backtracking.CountFromUnique | src/main.rs:148-156 | over the digits n..9 at the first blank, a grid with a single completion counts at most one solution, and none unless that completion's digit is among them |
| Backtracking.CountFromUniqueStep | src/main.rs:149-155 | the same bound carried from digit n + 1 back to digit n |
| Backtracking.OwnBranchCountsOne | src/main.rs:150-153 | the branch placing the single completion's own digit counts at most one solution |
| Backtracking.BranchOnlyCompletion | src/main.rs:150-153 | every completion of a branch is a completion of the grid, so with a single completion c it can only be c |
| Backtracking.OtherBranchCountsNone | src/main.rs:150-153 | a branch placing any other digit counts no solution |
| Backtracking.UniqueCountOne | src/main.rs:141-157 | a grid with exactly one completion counts exactly 1 solution |
| Backtracking.CountOneIffUnique | src/main.rs:141-157 | the count is 1 exactly when some completion is the grid's only completion |
| Backtracking.CountTwoTwoCompletions | src/main.rs:141-157 | a count of 2 or more means two different completions exist |
| Backtracking.CountFull | src/main.rs:143-146 | a grid without blanks counts 1 solution and the search returns it unchanged |
| GridArrays.Put | src/main.rs:162-166 | writing one cell of a board changes the board's grid by exactly that cell |
| GridArrays.NewBoard | src/main.rs:37-41 | a fresh 9×9 board whose grid is the given one, as `vec![vec![0; 9]; 9]` and `clone` build |
| GridArrays.CopyInto | src/main.rs:71-73 | the cell-by-cell copy makes the destination's grid equal the source's |
| RustEngine.Sudoku.constructor | src/main.rs:23-34 | board and given grid are the input, and the solution is the search's result, or the input itself when the search fails |
| RustEngine.Sudoku.Zeroed | src/main.rs:37-42 | three separate all-zero boards |
| RustEngine.Sudoku.CreateBoard | src/main.rs:36-69 | the solution is what `solve` leaves on the seeded grid, and the puzzle is what carving leaves of that solution; board equals the puzzle; the puzzle's clues agree with the stored solution, which is consistent; when the solution is full, the puzzle has exactly one solution and the search finds it |
| RustEngine.Sudoku.Seed | src/main.rs:44-51 | board and puzzle both become `SeedOutcome` of the old board, and stay consistent and made of digits 0..9 |
| RustEngine.Sudoku.Carve | src/main.rs:56-67 | the puzzle becomes `CarveOutcome` of the old puzzle; board equals puzzle, the clues agree with the solution, and a full solution stays the unique one |
| RustEngine.CandidatesBelow | src/main.rs:87-88 | defines the digits below n that `retain` keeps, in ascending order |
| RustEngine.ValidNums | src/main.rs:86-93 | defines what `get_valid_nums` returns: the kept digits, or [0] when none is kept |
| RustEngine.SeedOutcome | src/main.rs:44-51 | defines what the seeding loop leaves: at each seed cell in order, entry k (taken cyclically) of `ValidNums` there is written |
| RustEngine.CarveOutcome | src/main.rs:56-67 | defines what the carving loop leaves: the listed cells are cleared in order while the count stays 1, and the first cell whose clearing breaks that is restored from the solution and ends the loop |
| RustEngine.CandidatesBelowSpec | src/main.rs:87-88 | the digits below n that pass the conflict test, each once, in ascending order |
| RustEngine.ValidNumsSpec | src/main.rs:86-93 | never empty; ascending, holding exactly the digits that pass the conflict test when one does; [0] when none does |
| RustEngine.SeedKeepsConsistent | src/main.rs:44-51 | seeding keeps a consistent grid of digits consistent and made of digits, and leaves every cell outside the seeds as it was |
| RustEngine.CarveKeepsUnique | src/main.rs:56-67 | carving a puzzle with one solution keeps exactly one solution and only ever removes clues |
| RustEngine.Sudoku.CarveCell | src/main.rs:57-66 | the cell stays cleared exactly when the puzzle with it cleared has one solution, and is otherwise restored from the solution; board equals puzzle and a full solution stays the unique one |
| RustEngine.Sudoku.Reset | src/main.rs:71-73 | the board becomes the puzzle; puzzle and solution unchanged |
| RustEngine.Sudoku.GetEmpty | src/main.rs:75-84 | returns the first blank in row-major order as (column, row), none exactly when the board is full |
| RustEngine.Sudoku.GetValidNums | src/main.rs:86-93 | returns `ValidNums` of the board: the digits that pass the conflict test in ascending order, or [0] |
| RustEngine.Sudoku.IsValid | src/main.rs:95-120 | true exactly when num occurs nowhere in row y, column x or the box of (x, y); the board is only read |
| RustEngine.Sudoku.BoxFree | src/main.rs:108-119 | true exactly when no cell of the box of (x, y) holds num |
| RustEngine.Sudoku.Solve | src/main.rs:122-139 | true exactly when the search succeeds, leaving its completion on the board; on false the board is as before |
| RustEngine.Sudoku.SolveWith | src/main.rs:130-136 | when the turn ends the search, the board holds the search's result; otherwise the board is as before and the search goes on with the next digit |
| RustEngine.Sudoku.NoOfSolns | src/main.rs:141-157 | returns the number of completions the search reaches, and the board ends as it started |
| RustEngine.Sudoku.CountWith | src/main.rs:151-153 | returns the count of the branch with n placed, and the board ends as it started |
| RustEngine.Sudoku.SetCell | src/main.rs:159-167 | no change when num > 9 or the cell is a clue; otherwise only that cell becomes num, with no conflict check; puzzle and solution unchanged |
| RustEngine.TestGrid | src/main.rs:385-395 | the unit test's puzzle, a 9×9 grid |
| RustEngine.TestGridQueries | src/main.rs:384-401 | on the unit test's grid: first blank (1, 0); 5 at (1, 0), 4 at (2, 3) and 4 at (4, 6) conflict; 6 at (1, 1) does not |
| PythonEngine.IsDigitChar | main.py:267 | defines the characters `int(text)` is modelled on: '0'..'9' |
| PythonEngine.DigitValue | main.py:75 | the value `int` gives a digit character, a number 0..9 |
| PythonEngine.Parse81 | main.py:69-77 | a result exactly when the first 81 characters exist and are digits; cell [i][j] is the value of character i * 9 + j |
| PythonEngine.ParseRender | main.py:69-77 | every grid of digits is read back from its own 81-character text |
| PythonEngine.RenderParse | main.py:69-77 | a string that parses has the parsed grid's text as its first 81 characters |
| PythonEngine.GivenCells | main.py:60-65 | the (row, column) of exactly the non-zero cells |
| PythonEngine.KeepFixed | main.py:319-324 | a cell listed in `fixed` keeps its current value; every other cell is 0 |
| PythonEngine.KeepFixedIdempotent | main.py:319-324 | clearing twice is clearing once |
| PythonEngine.KeepFixedRestores | main.py:319-324 | while every clue is still on the board, clearing brings back the original puzzle |
| PythonEngine.ConflictElsewhere | main.py:248-263 | defines solving mode's test: num in a cell other than (x, y) of its row, column or box; `ModesAgree` relates it to checking mode |
| PythonEngine.ModesAgree | main.py:230-263 | checking mode conflicts exactly when solving mode conflicts or the cell itself already holds the digit |
| PythonEngine.MarksAt | main.py:278-282 | defines `penciled.get((x, y), [])`: the cell's pencil list, or the empty list when it has none |
| PythonEngine.PencilStep | main.py:265-284 | only the selected cell and its pencil list can change, and the cell ends as 0, as before, or as the digit |
| PythonEngine.PencilKeepsNoDup | main.py:277-284 | no pencil list ever holds a digit twice |
| PythonEngine.PencilKeepsConsistent | main.py:265-284 | a digit is written only where it conflicts with nothing, so a consistent board stays consistent |
| PythonEngine.DirectStep | main.py:286-298 | only the selected cell can change, to 0, to its old value or to the digit |
| PythonEngine.DirectIsPencilTwice | main.py:265-298 | entering a digit directly changes the board as pencilling it twice does, whatever the pencil marks hold |
| PythonEngine.DirectKeepsConsistent | main.py:286-298 | direct entry never creates a conflict on a consistent board |
| PythonEngine.Moved | main.py:307-317 | the cursor keeps its length and stays on the board |
| PythonEngine.MovedBack | main.py:307-317 | away from the edges, opposite arrow keys undo each other |
| PythonEngine.SeedGrid | main.py:81-83 | defines the seeded grid of `random_board`: all blank except row `index`, which holds the sampled digits; `SeedConsistent` shows it is consistent |
| PythonEngine.SeedConsistent | main.py:81-83 | a blank grid with one row of distinct digits is consistent |
| PythonEngine.AllCells | main.py:88 | 81 distinct positions, exactly the in-range ones |
| PythonEngine.Sudoku.constructor | main.py:58-67 | keeps the given board object; `fixed` lists its non-zero cells; no cursor, no marks |
| PythonEngine.Sudoku.Convert81StringToArr | main.py:69-77 | none exactly where Python raises; otherwise a fresh board holding the parsed grid |
| PythonEngine.Sudoku.RandomBoard | main.py:79-102 | exactly `keep` distinct cells keep the solved seed grid's value and all others are 0; the board is consistent; `fixed` lists the non-zero cells |
| PythonEngine.Sudoku.ClearCells | main.py:87-93 | blanks distinct candidates until `keep` remain; those keep their value, all others are 0, and consistency is kept |
| PythonEngine.Sudoku.FindEmpty | main.py:205-210 | the first blank in row-major order as (row, column), none exactly when the board is full |
| PythonEngine.Sudoku.IsValidOn | main.py:230-263 | checking mode, pos = (column, row): true exactly when no conflict, counting the cell; solving mode, pos = (row, column): true exactly when no other cell conflicts |
| PythonEngine.Sudoku.ValidChecking | main.py:234-247 | true exactly when num is in none of row y, column x and the box of (x, y) |
| PythonEngine.Sudoku.BoxFree | main.py:242-247 | true exactly when no cell of the box of (x, y) holds num |
| PythonEngine.Sudoku.ValidSolving | main.py:248-263 | true exactly when no cell other than (row, column) in its row, column or box holds num |
| PythonEngine.Sudoku.BoxFreeElsewhere | main.py:257-263 | true exactly when no cell of the box other than (row, column) holds num |
| PythonEngine.Sudoku.Solve | main.py:212-228 | true exactly when the search succeeds, leaving its completion; on false the board is as before |
| PythonEngine.Sudoku.SolveWith | main.py:220-226 | when the turn ends the search, the board holds the search's result; otherwise the board is as before and the search goes on with the next digit |
| PythonEngine.Sudoku.PutText | main.py:265-284 | board and pencil marks become `PencilStep` of the old ones; cursor, `fixed` and the board object are unchanged, and pencil lists stay duplicate-free |
| PythonEngine.Sudoku.DirectlyPutText | main.py:286-298 | the board becomes `DirectStep` of the old board |
| PythonEngine.Sudoku.ChangeSelected | main.py:307-317 | the cursor becomes `Moved` of the old cursor; nothing else changes |
| PythonEngine.Sudoku.Clear | main.py:319-324 | a fresh board holding `KeepFixed` of the old one; no pencil marks; `fixed` and cursor unchanged |

## Left out

- Rendering and input handling are not modelled, because they draw pixels and read devices:
  - Rust: `draw_selected`, `draw`, `window_conf`, and the `main` loop with its timer and widgets.
  - Python: `display`, `update`, `print`, and the `__main__` loop.
- `help_player` is not modelled; only the renderer reads it.
- The Python pickle file functions are not modelled because they are file I/O: `save_puzzle`,
  `how_many_levels`, `load_puzzle` and `random_premade_puzzle`.
- `puzzle_editor.py` and `download_puzzles.py` are not part of this model. One is an event loop
  and the other does HTTP requests.
- Random number generators are not modelled; their draws are parameters. The uniform
  distribution of `thread_rng`, `randint`, `choice` and `sample` is not modelled.
- RustEngine.Sudoku.CreateBoard: its carving loop runs over a supplied finite list of cells.
  The Rust loop draws cells for as long as every clearing keeps one solution, with no bound.
  When the list runs out the model stops, a case the Rust loop does not have.
- Cells are unbounded integers, not `u8`, and coordinates are not `u8`/`usize`. The engines
  never do arithmetic on a cell's value, so no wrap-around arises. The Rust constructor accepts
  any integer where Rust takes a `u8`.
- The solution count is an unbounded `nat`, where `no_of_solns` sums into a `usize`. Overflow
  would take more than 2^64 completions counted one by one, which no run reaches, so it is not
  modelled.
- RustEngine.Sudoku.SetCell takes a `nat` for the `u8` digit, so values above 255 are not excluded.
- RustEngine.Sudoku.SetCell requires a cell on the board. The main loop's click test uses
  `x <= W`, so a click on the board's right edge selects column 9, and a digit key then makes
  Rust panic on the out-of-range index. The model does not include that panic.
- PythonEngine.Sudoku.Convert81StringToArr: `int` also accepts non-ASCII decimal digits; the
  model accepts only '0'..'9'. Both Python exceptions (too short, not a digit) become `None`.
- PythonEngine.Sudoku.IsValidOn: a `for_what` string other than "checking" or "solving" makes
  Python return `None`. Only the two named modes are modelled.
- PythonEngine.Sudoku.PutText: `int(text)` on the key's character is modelled for '0'..'9'
  only; the main loop also passes key 58 (':'), on which Python raises.
- PythonEngine.Sudoku.DirectlyPutText: likewise modelled for '0'..'9' only. Its caller, the
  puzzle editor's event loop, passes the character of keys 48..58, which includes ':' and
  shifted keys such as '!', on which `int(text)` raises `ValueError`.
- PythonEngine.Sudoku.PutText and PythonEngine.Sudoku.DirectlyPutText require a selected cell.
  Before the first click `selected` is empty, and Python raises `ValueError` when a key is
  pressed then. The model does not include that error.
- The Python cursor is required to be on the board. A click above the board gives a negative
  row, which Python would read from the end of the list.
- The Python `fixed` list is a set here, since only membership is asked of it.
- PythonEngine.Sudoku.RandomBoard requires the seeded row's digits to be distinct digits 1..9.
  `sample(range(1, 10), 9)` guarantees this.
