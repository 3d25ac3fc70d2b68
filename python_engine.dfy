/** The Python engine: class `Sudoku` in main.py. The board is a list of rows, so the cell in
    row r, column c is `board[r][c]`, which is `Board()[r][c]` here as well.
    Positions are written two ways: `selected`, the pencil-mark keys and `is_valid_on` in
    checking mode use (column, row); `fixed`, `find_empty`, `solve` and `is_valid_on` in
    solving mode use (row, column). */
module PythonEngine {
  import opened Seqs
  import opened Grids
  import opened Backtracking
  import opened GridArrays

  /** The two `for_what` strings `is_valid_on` understands. */
  datatype Mode = Checking | Solving

  /** The arrow keys `change_selected` reacts to; every other key is `Other`. */
  datatype Key = Up | Down | Left | Right | Other

  type Marks = map<(int, int), seq<int>>

  // ---------------------------------------------------------------------------
  // Text of a puzzle

  /** A character `int` accepts on its own. */
  predicate IsDigitChar(c: char) {
    '0' <= c <= '9'
  }

  function DigitValue(c: char): (d: int)
    requires IsDigitChar(c)
    ensures 0 <= d <= 9
  {
    c as int - '0' as int
  }

  function DigitChar(d: int): (c: char)
    requires 0 <= d <= 9
    ensures IsDigitChar(c) && DigitValue(c) == d
  {
    ('0' as int + d) as char
  }

  /** `convert_81_string_to_arr` on values: cell [i][j] is the digit at index i * 9 + j.
      `int` raises on a character that is not a digit and indexing raises on a string
      shorter than 81; both are `None`. Characters after the 81st are ignored. */
  function Parse81(s: string): (r: Option<Grid>)
    ensures r.Some? <==> |s| >= 81 && forall k :: 0 <= k < 81 ==> IsDigitChar(s[k])
    ensures r.Some? ==> IsGrid(r.value) && Digits(r.value)
    ensures r.Some? ==> forall i, j :: 0 <= i < 9 && 0 <= j < 9 ==> r.value[i][j] == DigitValue(s[i * 9 + j])
  {
    if |s| >= 81 && forall k :: 0 <= k < 81 ==> IsDigitChar(s[k]) then
      var g := seq(9, i requires 0 <= i < 9 => seq(9, j requires 0 <= j < 9 => DigitValue(s[i * 9 + j])));
      assert forall i, j :: 0 <= i < 9 && 0 <= j < 9 ==> g[i][j] == DigitValue(s[i * 9 + j]);
      Some(g)
    else
      None
  }

  /** The 81-character text of a grid of digits, row after row. */
  function Render81(g: Grid): (s: string)
    requires IsGrid(g) && Digits(g)
    ensures |s| == 81
  {
    seq(81, k requires 0 <= k < 81 => DigitChar(g[k / 9][k % 9]))
  }

  /** Every grid of digits is read back from its own text. */
  lemma ParseRender(g: Grid)
    requires IsGrid(g) && Digits(g)
    ensures Parse81(Render81(g)) == Some(g)
  {
    var s := Render81(g);
    forall k | 0 <= k < 81
      ensures IsDigitChar(s[k])
    {
    }
    var r := Parse81(s).value;
    forall i, j | 0 <= i < 9 && 0 <= j < 9
      ensures r[i][j] == g[i][j]
    {
      assert (i * 9 + j) / 9 == i && (i * 9 + j) % 9 == j;
    }
    SameCells(r, g);
  }

  /** Text that parses is, in its first 81 characters, the text of the grid it parses to. */
  lemma RenderParse(s: string)
    requires Parse81(s).Some?
    ensures Render81(Parse81(s).value) == s[..81]
  {
    var t := Render81(Parse81(s).value);
    forall k | 0 <= k < 81
      ensures t[k] == s[k]
    {
      assert k == k / 9 * 9 + k % 9;
    }
  }

  // ---------------------------------------------------------------------------
  // The given cells and `clear`

  /** The `fixed` comprehension: the (row, column) of every non-zero cell. */
  function GivenCells(g: Grid): (r: set<(int, int)>)
    requires IsGrid(g)
    ensures forall row, col :: (row, col) in r <==> InRange(col, row) && g[row][col] != 0
  {
    set row, col | 0 <= row < 9 && 0 <= col < 9 && g[row][col] != 0 :: (row, col)
  }

  /** The board `clear` builds: cells listed in `fixed` keep their value, every other is 0. */
  function KeepFixed(g: Grid, fixed: set<(int, int)>): (r: Grid)
    requires IsGrid(g)
    ensures IsGrid(r)
    ensures forall y, x :: InRange(x, y) ==> r[y][x] == if (y, x) in fixed then g[y][x] else 0
  {
    seq(9, j requires 0 <= j < 9 => seq(9, i requires 0 <= i < 9 => if (j, i) in fixed then g[j][i] else 0))
  }

  /** Clearing twice is clearing once. */
  lemma KeepFixedIdempotent(g: Grid, fixed: set<(int, int)>)
    requires IsGrid(g)
    ensures KeepFixed(KeepFixed(g, fixed), fixed) == KeepFixed(g, fixed)
  {
    SameCells(KeepFixed(KeepFixed(g, fixed), fixed), KeepFixed(g, fixed));
  }

  /** As long as every given digit is still in place, clearing brings back the puzzle. */
  lemma KeepFixedRestores(puzzle: Grid, g: Grid)
    requires IsGrid(puzzle) && IsGrid(g) && Extends(puzzle, g)
    ensures KeepFixed(g, GivenCells(puzzle)) == puzzle
  {
    SameCells(KeepFixed(g, GivenCells(puzzle)), puzzle);
  }

  // ---------------------------------------------------------------------------
  // Validity in the two modes

  /** Solving mode of `is_valid_on`: n occurs in a cell other than (x, y) of the row, column
      or box of (x, y). */
  ghost predicate ConflictElsewhere(g: Grid, n: int, x: int, y: int)
    requires IsGrid(g) && InRange(x, y)
  {
    exists j, i :: InRange(i, j) && SameUnit(i, j, x, y) && (i, j) != (x, y) && g[j][i] == n
  }

  /** The checking mode also counts the cell itself, and that is the only difference. */
  lemma ModesAgree(g: Grid, n: int, x: int, y: int)
    requires IsGrid(g) && InRange(x, y)
    ensures Conflict(g, n, x, y) <==> ConflictElsewhere(g, n, x, y) || g[y][x] == n
  {
    ConflictUnit(g, n, x, y);
    if g[y][x] == n {
      assert SameUnit(x, y, x, y);
    }
  }

  // ---------------------------------------------------------------------------
  // Pencil marks and direct entry

  /** `self.penciled.get((x, y), [])`. */
  function MarksAt(pen: Marks, x: int, y: int): seq<int> {
    if (x, y) in pen then pen[(x, y)] else []
  }

  ghost predicate MarksNoDup(pen: Marks) {
    forall k :: k in pen ==> NoDup(pen[k])
  }

  /** `put_text` with digit n and the cursor on column x, row y, on the board and the marks. */
  ghost function PencilStep(g: Grid, fixed: set<(int, int)>, pen: Marks, x: int, y: int, n: int): (r: (Grid, Marks))
    requires IsGrid(g) && InRange(x, y)
    ensures IsGrid(r.0)
    ensures forall j, i :: InRange(i, j) && (i, j) != (x, y) ==> r.0[j][i] == g[j][i]
    ensures forall k :: k != (x, y) ==> (k in r.1 <==> k in pen) && (k in pen ==> r.1[k] == pen[k])
    ensures r.0[y][x] in {0, g[y][x], n}
  {
    var marks := MarksAt(pen, x, y);
    if n == 0 then (Update(g, x, y, 0), pen[(x, y) := []])
    else if (y, x) in fixed || g[y][x] != 0 then (g, pen)
    else if !Conflict(g, n, x, y) then
      if n in marks then (Update(g, x, y, n), pen[(x, y) := []])
      else (g, pen[(x, y) := marks + [n]])
    else if n in marks then (g, pen[(x, y) := RemoveFirst(marks, n)])
    else (g, pen)
  }

  /** A pencil list never holds a digit twice. */
  lemma PencilKeepsNoDup(g: Grid, fixed: set<(int, int)>, pen: Marks, x: int, y: int, n: int)
    requires IsGrid(g) && InRange(x, y) && MarksNoDup(pen)
    ensures MarksNoDup(PencilStep(g, fixed, pen, x, y, n).1)
  {
    var marks := MarksAt(pen, x, y);
    if n != 0 && (y, x) !in fixed && g[y][x] == 0 {
      if !Conflict(g, n, x, y) && n !in marks {
        AppendNoDup(marks, n);
      } else if Conflict(g, n, x, y) && n in marks {
        RemoveFirstNoDup(marks, n);
      }
    }
  }

  /** A digit goes on the board only where it conflicts with nothing, so a consistent board stays so. */
  lemma PencilKeepsConsistent(g: Grid, fixed: set<(int, int)>, pen: Marks, x: int, y: int, n: int)
    requires IsGrid(g) && InRange(x, y) && Consistent(g)
    ensures Consistent(PencilStep(g, fixed, pen, x, y, n).0)
  {
    if n == 0 {
      PlaceKeepsConsistent(g, x, y, 0);
    } else if (y, x) !in fixed && g[y][x] == 0 && !Conflict(g, n, x, y) {
      PlaceKeepsConsistent(g, x, y, n);
    }
  }

  /** `directly_put_text` with digit n and the cursor on column x, row y. */
  ghost function DirectStep(g: Grid, fixed: set<(int, int)>, x: int, y: int, n: int): (r: Grid)
    requires IsGrid(g) && InRange(x, y)
    ensures IsGrid(r)
    ensures forall j, i :: InRange(i, j) && (i, j) != (x, y) ==> r[j][i] == g[j][i]
    ensures r[y][x] in {0, g[y][x], n}
  {
    if n == 0 then Update(g, x, y, 0)
    else if (y, x) in fixed || g[y][x] != 0 then g
    else if !Conflict(g, n, x, y) then Update(g, x, y, n)
    else g
  }

  /** Entering a digit directly does to the board what pencilling it twice does: the first
      step pencils the digit (or places it, when it was pencilled already) and the second
      places it (or finds the cell filled). */
  lemma DirectIsPencilTwice(g: Grid, fixed: set<(int, int)>, pen: Marks, x: int, y: int, n: int)
    requires IsGrid(g) && InRange(x, y)
    ensures var once := PencilStep(g, fixed, pen, x, y, n);
            PencilStep(once.0, fixed, once.1, x, y, n).0 == DirectStep(g, fixed, x, y, n)
  {
    var once := PencilStep(g, fixed, pen, x, y, n);
    if n == 0 {
      UpdateTwice(g, x, y, 0, 0);
    } else if (y, x) !in fixed && g[y][x] == 0 && !Conflict(g, n, x, y) && n !in MarksAt(pen, x, y) {
      assert once == (g, pen[(x, y) := MarksAt(pen, x, y) + [n]]);
      assert n in MarksAt(once.1, x, y);
    }
  }

  /** Entering a digit directly never creates a conflict on a consistent board. */
  lemma DirectKeepsConsistent(g: Grid, fixed: set<(int, int)>, x: int, y: int, n: int)
    requires IsGrid(g) && InRange(x, y) && Consistent(g)
    ensures Consistent(DirectStep(g, fixed, x, y, n))
  {
    if n == 0 {
      PlaceKeepsConsistent(g, x, y, 0);
    } else if (y, x) !in fixed && g[y][x] == 0 && !Conflict(g, n, x, y) {
      PlaceKeepsConsistent(g, x, y, n);
    }
  }

  // ---------------------------------------------------------------------------
  // The cursor

  /** `change_selected`: an arrow key moves the cursor one cell unless it is at that edge. */
  function Moved(sel: seq<int>, key: Key): (r: seq<int>)
    requires |sel| == 0 || |sel| == 2
    ensures |r| == |sel|
    ensures |sel| == 2 && InRange(sel[0], sel[1]) ==> InRange(r[0], r[1])
  {
    if |sel| == 0 then sel
    else match key
      case Up => if sel[1] > 0 then [sel[0], sel[1] - 1] else sel
      case Down => if sel[1] < 8 then [sel[0], sel[1] + 1] else sel
      case Left => if sel[0] > 0 then [sel[0] - 1, sel[1]] else sel
      case Right => if sel[0] < 8 then [sel[0] + 1, sel[1]] else sel
      case Other => sel
  }

  /** Away from the edges, opposite arrows undo each other. */
  lemma MovedBack(sel: seq<int>)
    requires |sel| == 2 && 0 < sel[0] < 8 && 0 < sel[1] < 8
    ensures Moved(Moved(sel, Up), Down) == sel && Moved(Moved(sel, Down), Up) == sel
    ensures Moved(Moved(sel, Left), Right) == sel && Moved(Moved(sel, Right), Left) == sel
  {
    assert sel == [sel[0], sel[1]];
  }

  // ---------------------------------------------------------------------------
  // `random_board`

  /** A blank grid whose row `index` holds `digits`. */
  function SeedGrid(index: int, digits: seq<int>): (g: Grid)
    requires 0 <= index < 9 && |digits| == 9
    ensures IsGrid(g)
  {
    Zeros()[index := digits]
  }

  /** One row of distinct digits and nothing else conflicts nowhere. */
  lemma SeedConsistent(index: int, digits: seq<int>)
    requires 0 <= index < 9 && |digits| == 9 && NoDup(digits)
    ensures Consistent(SeedGrid(index, digits))
  {
    var g := SeedGrid(index, digits);
    forall y, x | InRange(x, y) && g[y][x] != 0
      ensures Alone(g, x, y)
    {
      assert y == index;
      forall j, i | InRange(i, j) && (i, j) != (x, y) && SameUnit(i, j, x, y)
        ensures g[j][i] != g[y][x]
      {
        if j == index {
          assert digits[i] != digits[x];
        }
      }
    }
  }

  /** `[(x, y) for x in range(9) for y in range(9)]`. */
  function AllCells(): (r: seq<(int, int)>)
    ensures |r| == 81 && NoDup(r)
    ensures forall p :: p in r <==> InRange(p.0, p.1)
  {
    var r := seq(81, k requires 0 <= k < 81 => (k / 9, k % 9));
    AllCellsFacts(r);
    r
  }

  lemma AllCellsFacts(r: seq<(int, int)>)
    requires |r| == 81 && forall k :: 0 <= k < 81 ==> r[k] == (k / 9, k % 9)
    ensures NoDup(r) && forall p :: p in r <==> InRange(p.0, p.1)
  {
    forall p: (int, int) | InRange(p.0, p.1)
      ensures p in r
    {
      DivMod9(p.0, p.1);
      assert r[p.0 * 9 + p.1] == p;
    }
    forall a, b | 0 <= a < b < 81
      ensures r[a] != r[b]
    {
      assert a == a / 9 * 9 + a % 9 && b == b / 9 * 9 + b % 9;
    }
  }

  // ---------------------------------------------------------------------------
  // The class

  class Sudoku {
    /** The board as a list of rows. */
    var board: array2<int>
    /** The (row, column) of each given digit. */
    var fixed: set<(int, int)>
    /** The cursor as [column, row], or empty before the first click. */
    var selected: seq<int>
    /** Pencil marks, keyed by (column, row). */
    var penciled: Marks

    ghost predicate Valid()
      reads this, board
    {
      && Is9x9(board)
      && (|selected| == 0 || (|selected| == 2 && InRange(selected[0], selected[1])))
      && MarksNoDup(penciled)
    }

    ghost function Board(): Grid
      requires Is9x9(board)
      reads this, board
    {
      Snapshot(board)
    }

    /** `__init__`: keeps the given board (no copy) and records its non-zero cells as fixed. */
    constructor (b: array2<int>)
      requires Is9x9(b)
      ensures Valid() && board == b
      ensures fixed == GivenCells(Board()) && selected == [] && penciled == map[]
    {
      board := b;
      fixed := set row, col | 0 <= row < 9 && 0 <= col < 9 && b[row, col] != 0 :: (row, col);
      selected := [];
      penciled := map[];
      new;
      assert fixed == GivenCells(Board());
    }

    /** The first n characters are digits, and the board holds their values in row-major order. */
    static ghost predicate ReadUpTo(a: array2<int>, s: string, n: int)
      requires Is9x9(a) && n <= 81
      reads a
    {
      n <= |s| && forall k :: 0 <= k < n ==> IsDigitChar(s[k]) && a[k / 9, k % 9] == DigitValue(s[k])
    }

    /** `convert_81_string_to_arr`: fills a fresh board character by character; `None` where
        Python raises. */
    static method Convert81StringToArr(s: string) returns (r: Option<Sudoku>)
      ensures r.None? <==> Parse81(s).None?
      ensures r.Some? ==> fresh(r.value) && fresh(r.value.board) && r.value.Valid()
      ensures r.Some? ==> r.value.Board() == Parse81(s).value
      ensures r.Some? ==> r.value.fixed == GivenCells(r.value.Board())
      ensures r.Some? ==> r.value.selected == [] && r.value.penciled == map[]
    {
      var a := new int[9, 9];
      for i := 0 to 9
        invariant ReadUpTo(a, s, i * 9)
      {
        for j := 0 to 9
          invariant ReadUpTo(a, s, i * 9 + j)
        {
          if i * 9 + j >= |s| || !IsDigitChar(s[i * 9 + j]) {
            return None;
          }
          DivMod9(i, j);
          forall k | 0 <= k < i * 9 + j
            ensures (k / 9, k % 9) != (i, j)
          {
            assert k == k / 9 * 9 + k % 9;
          }
          a[i, j] := DigitValue(s[i * 9 + j]);
        }
      }
      forall row, col | 0 <= row < 9 && 0 <= col < 9
        ensures a[row, col] == Parse81(s).value[row][col]
      {
        DivMod9(row, col);
        assert a[(row * 9 + col) / 9, (row * 9 + col) % 9] == DigitValue(s[row * 9 + col]);
      }
      SameCells(Snapshot(a), Parse81(s).value);
      var sudoku := new Sudoku(a);
      return Some(sudoku);
    }

    /** `random_board`. The random draws are supplied: `index` is the row filled with `digits`
        (the `sample` of 1..9), `keep` is how many cells stay candidates, and each entry of
        `picks` chooses among the remaining candidates modulo their number. The cells still
        listed at the end are returned as `remaining`. */
    static method RandomBoard(index: int, digits: seq<int>, keep: int, picks: seq<nat>)
      returns (s: Sudoku, ghost remaining: seq<(int, int)>)
      requires 0 <= index < 9 && |digits| == 9 && NoDup(digits)
      requires forall k :: 0 <= k < 9 ==> 1 <= digits[k] <= 9
      requires 0 <= keep <= 81 && |picks| >= 81 - keep
      ensures fresh(s) && s.Valid() && s.selected == [] && s.penciled == map[]
      ensures s.fixed == GivenCells(s.Board())
      ensures |remaining| == keep && NoDup(remaining) && forall p :: p in remaining ==> InRange(p.0, p.1)
      ensures forall y, x :: InRange(x, y) ==>
                s.Board()[y][x] == if (x, y) in remaining then SolveOutcome(SeedGrid(index, digits))[y][x] else 0
      ensures Consistent(s.Board())
    {
      var a := NewBoard(SeedGrid(index, digits));
      s := new Sudoku(a);
      var solved := s.Solve();
      ghost var solution := s.Board();
      assert solution == SolveOutcome(SeedGrid(index, digits));
      SeedConsistent(index, digits);
      if solved {
        SearchSolves(SeedGrid(index, digits));
      }
      assert Consistent(solution);
      remaining := s.ClearCells(keep, picks);
      s.fixed := set row, col | 0 <= row < 9 && 0 <= col < 9 && a[row, col] != 0 :: (row, col);
      assert s.fixed == GivenCells(s.Board());
    }

    /** The loop of `random_board`: while more than `keep` cells are candidates, the picked
        candidate is blanked and dropped from the list. */
    method ClearCells(keep: int, picks: seq<nat>) returns (ghost remaining: seq<(int, int)>)
      requires Is9x9(board) && Consistent(Board()) && 0 <= keep <= 81 && |picks| >= 81 - keep
      modifies board
      ensures Consistent(Board())
      ensures |remaining| == keep && NoDup(remaining) && forall p :: p in remaining ==> InRange(p.0, p.1)
      ensures forall y, x :: InRange(x, y) ==> Board()[y][x] == if (x, y) in remaining then old(Board())[y][x] else 0
    {
      ghost var start := Board();
      var options := AllCells();
      var k := 0;
      while |options| > keep
        invariant Is9x9(board)
        invariant keep <= |options| && k + |options| == 81 && NoDup(options) && forall p :: p in options ==> InRange(p.0, p.1)
        invariant forall y, x :: InRange(x, y) ==> Board()[y][x] == if (x, y) in options then start[y][x] else 0
        invariant Consistent(Board())
      {
        var cell := options[picks[k] % |options|];
        var x, y := cell.0, cell.1;
        PlaceKeepsConsistent(Board(), x, y, 0);
        Put(board, x, y, 0);
        RemoveFirstNoDup(options, cell);
        options := RemoveFirst(options, cell);
        k := k + 1;
      }
      remaining := options;
    }

    /** `find_empty`: the first blank in row-major order, as (row, column). */
    method FindEmpty() returns (pos: Option<(int, int)>)
      requires Is9x9(board)
      ensures pos.None? <==> FirstBlank(Board()).None?
      ensures pos.Some? ==> FirstBlank(Board()) == Some((pos.value.1, pos.value.0))
    {
      for i := 0 to 9
        invariant forall j, c :: InRange(c, j) && j < i ==> board[j, c] != 0
      {
        for j := 0 to 9
          invariant forall r, c :: InRange(c, r) && Before(c, r, j, i) ==> board[r, c] != 0
        {
          if board[i, j] == 0 {
            FirstBlankIs(Board(), j, i);
            return Some((i, j));
          }
        }
      }
      return None;
    }

    /** `is_valid_on`. Checking mode reads pos as (column, row) and counts the cell itself;
        solving mode reads pos as (row, column) and skips it. The board is only read. */
    method IsValidOn(pos: (int, int), num: int, mode: Mode) returns (ok: bool)
      requires Is9x9(board) && InRange(pos.0, pos.1)
      ensures mode == Checking ==> (ok <==> !Conflict(Board(), num, pos.0, pos.1))
      ensures mode == Solving ==> (ok <==> !ConflictElsewhere(Board(), num, pos.1, pos.0))
    {
      if mode == Checking {
        ok := ValidChecking(pos.0, pos.1, num);
      } else {
        ok := ValidSolving(pos.0, pos.1, num);
      }
    }

    /** The checking branch of `is_valid_on`, with pos = (x, y) = (column, row). */
    method ValidChecking(x: int, y: int, num: int) returns (ok: bool)
      requires Is9x9(board) && InRange(x, y)
      ensures ok <==> !Conflict(Board(), num, x, y)
    {
      for i := 0 to 9
        invariant forall k :: 0 <= k < i ==> board[y, k] != num
      {
        if board[y, i] == num {
          assert Board()[y][i] == num;
          return false;
        }
      }
      for i := 0 to 9
        invariant forall k :: 0 <= k < i ==> board[k, x] != num
      {
        if num == board[i, x] {
          assert Board()[i][x] == num;
          return false;
        }
      }
      ok := BoxFree(x, y, num);
    }

    /** The box pass of the checking branch: true exactly when num is nowhere in the box of
        (x, y) = (column, row). */
    method BoxFree(x: int, y: int, num: int) returns (ok: bool)
      requires Is9x9(board) && InRange(x, y)
      ensures ok <==> forall j, i :: InRange(i, j) && BoxOrigin(i) == BoxOrigin(x) && BoxOrigin(j) == BoxOrigin(y) ==> board[j, i] != num
    {
      var y0, x0 := y / 3 * 3, x / 3 * 3;
      BoxSpan(x, x);
      BoxSpan(y, y);
      for ybox := y0 to y0 + 3
        invariant forall b, a :: y0 <= b < ybox && x0 <= a < x0 + 3 ==> board[b, a] != num
      {
        for xbox := x0 to x0 + 3
          invariant forall a :: x0 <= a < xbox ==> board[ybox, a] != num
        {
          if num == board[ybox, xbox] {
            BoxSpan(x, xbox);
            BoxSpan(y, ybox);
            return false;
          }
        }
      }
      forall j, i | InRange(i, j) && BoxOrigin(i) == BoxOrigin(x) && BoxOrigin(j) == BoxOrigin(y)
        ensures board[j, i] != num
      {
        BoxSpan(x, i);
        BoxSpan(y, j);
      }
      return true;
    }

    /** The solving branch of `is_valid_on`, with pos = (x, y) = (row, column). */
    method ValidSolving(x: int, y: int, num: int) returns (ok: bool)
      requires Is9x9(board) && InRange(y, x)
      ensures ok <==> !ConflictElsewhere(Board(), num, y, x)
    {
      for i := 0 to 9
        invariant forall k :: 0 <= k < i && k != y ==> board[x, k] != num
      {
        if board[x, i] == num && y != i {
          assert SameUnit(i, x, y, x) && Board()[x][i] == num;
          return false;
        }
      }
      for i := 0 to 9
        invariant forall k :: 0 <= k < i && k != x ==> board[k, y] != num
      {
        if board[i, y] == num && x != i {
          assert SameUnit(y, i, y, x) && Board()[i][y] == num;
          return false;
        }
      }
      ok := BoxFreeElsewhere(x, y, num);
      if ok {
        forall j, i | InRange(i, j) && SameUnit(i, j, y, x) && (i, j) != (y, x)
          ensures Board()[j][i] != num
        {
          if j != x && i != y {
            assert BoxOrigin(i) == BoxOrigin(y) && BoxOrigin(j) == BoxOrigin(x);
          }
        }
      }
    }

    /** The box pass of the solving branch, with (x, y) = (row, column): true exactly when num
        is in no cell of the box other than (x, y) itself. */
    method BoxFreeElsewhere(x: int, y: int, num: int) returns (ok: bool)
      requires Is9x9(board) && InRange(y, x)
      ensures ok <==> forall j, i :: InRange(i, j) && BoxOrigin(i) == BoxOrigin(y) && BoxOrigin(j) == BoxOrigin(x) && (i != y || j != x) ==> board[j, i] != num
    {
      var boxX, boxY := y / 3, x / 3;
      BoxSpan(x, x);
      BoxSpan(y, y);
      for i := boxY * 3 to boxY * 3 + 3
        invariant forall b, a :: boxY * 3 <= b < i && boxX * 3 <= a < boxX * 3 + 3 && (b != x || a != y) ==> board[b, a] != num
      {
        for j := boxX * 3 to boxX * 3 + 3
          invariant forall a :: boxX * 3 <= a < j && (i != x || a != y) ==> board[i, a] != num
        {
          if board[i, j] == num && (i, j) != (x, y) {
            BoxSpan(y, j);
            BoxSpan(x, i);
            return false;
          }
        }
      }
      forall j, i | InRange(i, j) && BoxOrigin(i) == BoxOrigin(y) && BoxOrigin(j) == BoxOrigin(x) && (i != y || j != x)
        ensures board[j, i] != num
      {
        BoxSpan(y, i);
        BoxSpan(x, j);
      }
      return true;
    }

    /** `solve`: the same depth-first search as the Rust engine, on (row, column) positions and
        the solving-mode test. On success the board is the search's completion of the old
        board; on failure the board is exactly as it was. */
    method Solve() returns (ok: bool)
      requires Is9x9(board)
      modifies board
      ensures ok ==> Search(old(Board())) == Some(Board())
      ensures !ok ==> Search(old(Board())) == None && Board() == old(Board())
      decreases Blanks(Board()), 1
    {
      var find := FindEmpty();
      if find.None? {
        return true;
      }
      var row, col := find.value.0, find.value.1;
      ghost var g := Board();
      for i := 1 to 10
        invariant Is9x9(board) && Board() == g
        invariant Search(g) == TryDigits(g, col, row, i)
      {
        ok := SolveWith(i, row, col);
        if ok {
          return true;
        }
      }
      return false;
    }

    /** One turn of `solve`'s loop: when i fits the blank (row, col) in solving mode, place it
        and solve the rest, and blank the cell again when that fails. The search then either
        ends with the board or moves on to i + 1. */
    method SolveWith(i: int, row: int, col: int) returns (ok: bool)
      requires Is9x9(board) && InRange(col, row) && Board()[row][col] == 0 && 1 <= i <= 9
      modifies board
      ensures ok ==> TryDigits(old(Board()), col, row, i) == Some(Board())
      ensures !ok ==> Board() == old(Board()) && TryDigits(old(Board()), col, row, i) == TryDigits(old(Board()), col, row, i + 1)
      decreases Blanks(Board()), 0
    {
      ghost var g := Board();
      var fits := IsValidOn((row, col), i, Solving);
      ModesAgree(g, i, col, row);
      TryDigitsNext(g, col, row, i);
      ok := false;
      if fits {
        Put(board, col, row, i);
        FillShrinksBlanks(g, col, row, i);
        ok := Solve();
        if !ok {
          Put(board, col, row, 0);
          UpdateTwice(g, col, row, i, 0);
          UpdateSame(g, col, row);
        }
      }
    }

    /** `put_text`: one keystroke of the pencil-mark state machine on the selected cell. */
    method PutText(text: char)
      requires Valid() && |selected| == 2 && IsDigitChar(text)
      modifies this, board
      ensures Valid() && board == old(board) && fixed == old(fixed) && selected == old(selected)
      ensures (Board(), penciled) == PencilStep(old(Board()), fixed, old(penciled), selected[0], selected[1], DigitValue(text))
    {
      var x, y := selected[0], selected[1];
      var num := DigitValue(text);
      ghost var g, pen := Board(), penciled;
      PencilKeepsNoDup(g, fixed, pen, x, y, num);
      var marks := MarksAt(penciled, x, y);
      if num == 0 {
        Put(board, x, y, 0);
        penciled := penciled[(x, y) := []];
      } else if (y, x) in fixed || board[y, x] != 0 {
      } else {
        var ok := IsValidOn((x, y), num, Checking);
        if ok {
          if num in marks {
            Put(board, x, y, num);
            penciled := penciled[(x, y) := []];
          } else {
            penciled := penciled[(x, y) := marks + [num]];
          }
        } else if num in marks {
          penciled := penciled[(x, y) := RemoveFirst(penciled[(x, y)], num)];
        }
      }
    }

    /** `directly_put_text`: writes the digit on the selected cell with no pencil marks. */
    method DirectlyPutText(text: char)
      requires Valid() && |selected| == 2 && IsDigitChar(text)
      modifies board
      ensures Valid()
      ensures Board() == DirectStep(old(Board()), fixed, selected[0], selected[1], DigitValue(text))
    {
      var x, y := selected[0], selected[1];
      var num := DigitValue(text);
      if num == 0 {
        Put(board, x, y, 0);
        return;
      }
      if (y, x) in fixed || board[y, x] != 0 {
        return;
      }
      var ok := IsValidOn((x, y), num, Checking);
      if ok {
        Put(board, x, y, num);
      }
    }

    /** `change_selected`. */
    method ChangeSelected(key: Key)
      requires Valid()
      modifies this
      ensures Valid() && board == old(board) && fixed == old(fixed) && penciled == old(penciled)
      ensures selected == Moved(old(selected), key)
    {
      if |selected| == 0 {
        return;
      }
      if key == Up && selected[1] > 0 {
        selected := selected[1 := selected[1] - 1];
      } else if key == Down && selected[1] < 8 {
        selected := selected[1 := selected[1] + 1];
      } else if key == Left && selected[0] > 0 {
        selected := selected[0 := selected[0] - 1];
      } else if key == Right && selected[0] < 8 {
        selected := selected[0 := selected[0] + 1];
      }
    }

    /** `clear`: drops every pencil mark and puts a new board in place, keeping only the cells
        listed in `fixed`. */
    method Clear()
      requires Valid()
      modifies this
      ensures Valid() && fresh(board) && fixed == old(fixed) && selected == old(selected)
      ensures penciled == map[]
      ensures Board() == KeepFixed(old(Board()), fixed)
    {
      penciled := map[];
      var b, f := board, fixed;
      board := new int[9, 9]((j, i) reads b requires 0 <= j < 9 && 0 <= i < 9 => if (j, i) in f then b[j, i] else 0);
      SameCells(Board(), KeepFixed(old(Board()), fixed));
    }
  }
}
