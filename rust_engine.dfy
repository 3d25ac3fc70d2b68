/** The Rust engine: `Sudoku` in src/main.rs, three 9×9 grids updated in place.
    Coordinates are (x = column, y = row) and the cell is `board[y][x]`. */
module RustEngine {
  import opened Seqs
  import opened Grids
  import opened Backtracking
  import opened GridArrays

  class Sudoku {
    /** The player's grid. */
    const board: array2<int>
    /** The puzzle as given; a non-zero cell here cannot be overwritten. */
    const initialBoard: array2<int>
    /** One solution, computed when the puzzle is made. */
    const solvedBoard: array2<int>

    /** Three separate 9×9 grids, and every given digit is still on the board. */
    ghost predicate Valid()
      reads board, initialBoard, solvedBoard
    {
      && Is9x9(board) && Is9x9(initialBoard) && Is9x9(solvedBoard)
      && board != initialBoard && board != solvedBoard && initialBoard != solvedBoard
      && Extends(Snapshot(initialBoard), Snapshot(board))
    }

    ghost function Board(): Grid
      requires Is9x9(board)
      reads board
    {
      Snapshot(board)
    }

    ghost function Initial(): Grid
      requires Is9x9(initialBoard)
      reads initialBoard
    {
      Snapshot(initialBoard)
    }

    ghost function Solved(): Grid
      requires Is9x9(solvedBoard)
      reads solvedBoard
    {
      Snapshot(solvedBoard)
    }

    /** `Sudoku::new`: the board and the given grid are the input; the solved grid is what
        `solve` leaves on a copy, which is the input itself when the search fails. */
    constructor (g: Grid)
      requires IsGrid(g)
      ensures Valid() && fresh(board) && fresh(initialBoard) && fresh(solvedBoard)
      ensures Board() == g && Initial() == g
      ensures Solved() == SolveOutcome(g)
    {
      var b := NewBoard(g);
      var i := NewBoard(g);
      var s := NewBoard(Zeros());
      board, initialBoard, solvedBoard := b, i, s;
      new;
      var solved := Solve();
      CopyInto(board, solvedBoard);
      CopyInto(initialBoard, board);
    }

    /** Three all-zero grids, the starting point of `create_board`. */
    constructor Zeroed()
      ensures Valid() && fresh(board) && fresh(initialBoard) && fresh(solvedBoard)
      ensures Board() == Zeros() && Initial() == Zeros() && Solved() == Zeros()
    {
      var b := NewBoard(Zeros());
      var i := NewBoard(Zeros());
      var s := NewBoard(Zeros());
      board, initialBoard, solvedBoard := b, i, s;
    }

    /** `create_board`. The random draws are supplied: each seed is a cell and an index into
        that cell's candidate list (reduced modulo its length), and `carves` lists the cells the
        carving loop clears, in order; the loop ends at its first failed clearing or when the
        list runs out. */
    static method CreateBoard(seeds: seq<(int, int, nat)>, carves: seq<(int, int)>) returns (s: Sudoku)
      requires |seeds| == 10 && forall k :: 0 <= k < 10 ==> InRange(seeds[k].0, seeds[k].1)
      requires forall k :: 0 <= k < |carves| ==> InRange(carves[k].0, carves[k].1)
      ensures fresh(s) && fresh(s.board) && fresh(s.initialBoard) && fresh(s.solvedBoard) && s.Valid()
      ensures s.Board() == s.Initial()
      ensures s.Solved() == SolveOutcome(SeedOutcome(Zeros(), seeds))
      ensures s.Initial() == CarveOutcome(s.Solved(), s.Solved(), carves)
      ensures Extends(s.Initial(), s.Solved()) && Consistent(s.Solved()) && Digits(s.Solved())
      ensures NoBlanks(s.Solved()) ==> Count(s.Initial()) == 1 && Search(s.Initial()) == Some(s.Solved())
    {
      s := new Sudoku.Zeroed();
      s.Seed(seeds);
      ghost var seeded := s.Board();
      assert seeded == SeedOutcome(Zeros(), seeds);
      var ok := s.Solve();
      if ok {
        SearchSolves(seeded);
        SearchSound(seeded);
        CompletionDigits(seeded, s.Board());
      }
      CopyInto(s.board, s.solvedBoard);
      CopyInto(s.board, s.initialBoard);
      if NoBlanks(s.Solved()) {
        CountFull(s.Solved());
      }
      s.Carve(carves);
      if NoBlanks(s.Solved()) {
        SolutionIsCompletion(s.Initial(), s.Solved());
        CountOneUnique(s.Initial(), s.Solved());
      }
    }

    /** The seeding loop of `create_board`: at each seed cell, one of the digits that fit there
        (or 0 when none does) goes on both the board and the given grid. */
    method Seed(seeds: seq<(int, int, nat)>)
      requires Valid() && Board() == Initial() && Consistent(Board()) && Digits(Board())
      requires forall k :: 0 <= k < |seeds| ==> InRange(seeds[k].0, seeds[k].1)
      modifies board, initialBoard
      ensures Valid() && Board() == Initial() && Solved() == old(Solved())
      ensures Board() == SeedOutcome(old(Board()), seeds)
      ensures Consistent(Board()) && Digits(Board())
    {
      ghost var g := Board();
      for k := 0 to |seeds|
        invariant Valid() && Board() == Initial() && Solved() == old(Solved())
        invariant SeedOutcome(g, seeds) == SeedOutcome(Board(), seeds[k..])
      {
        var x, y, choice := seeds[k].0, seeds[k].1, seeds[k].2;
        var nums := GetValidNums(x, y);
        var num := nums[choice % |nums|];
        assert seeds[k..][0] == seeds[k] && seeds[k..][1..] == seeds[k + 1..];
        Put(board, x, y, num);
        Put(initialBoard, x, y, num);
      }
      assert seeds[|seeds|..] == [];
      SeedKeepsConsistent(g, seeds);
    }

    /** The carving loop of `create_board`: each listed cell is cleared on both grids, and put
        back from the solution, ending the loop, when the puzzle then has other than one solution. */
    method Carve(carves: seq<(int, int)>)
      requires Valid() && Board() == Initial()
      requires Extends(Initial(), Solved())
      requires NoBlanks(Solved()) ==> Count(Initial()) == 1
      requires forall k :: 0 <= k < |carves| ==> InRange(carves[k].0, carves[k].1)
      modifies board, initialBoard
      ensures Valid() && Board() == Initial() && Solved() == old(Solved())
      ensures Initial() == CarveOutcome(old(Initial()), Solved(), carves)
      ensures Extends(Initial(), Solved())
      ensures NoBlanks(Solved()) ==> Count(Initial()) == 1
    {
      ghost var g := Initial();
      var k := 0;
      while k < |carves|
        invariant 0 <= k <= |carves|
        invariant Valid() && Board() == Initial() && Solved() == old(Solved())
        invariant Extends(Initial(), Solved())
        invariant NoBlanks(Solved()) ==> Count(Initial()) == 1
        invariant CarveOutcome(g, Solved(), carves) == CarveOutcome(Initial(), Solved(), carves[k..])
      {
        assert carves[k..][0] == carves[k] && carves[k..][1..] == carves[k + 1..];
        var cleared := CarveCell(carves[k].0, carves[k].1);
        if !cleared {
          return;
        }
        k := k + 1;
      }
      assert carves[k..] == [];
    }

    /** One step of the carving loop: the cell is cleared on both grids, and restored from the
        solution when the puzzle then has other than one solution. */
    method CarveCell(x: int, y: int) returns (cleared: bool)
      requires Valid() && Board() == Initial() && InRange(x, y)
      requires Extends(Initial(), Solved())
      requires NoBlanks(Solved()) ==> Count(Initial()) == 1
      modifies board, initialBoard
      ensures Valid() && Board() == Initial() && Extends(Initial(), Solved())
      ensures NoBlanks(Solved()) ==> Count(Initial()) == 1
      ensures Initial() == Update(old(Initial()), x, y, if cleared then 0 else Solved()[y][x])
      ensures cleared <==> Count(Update(old(Initial()), x, y, 0)) == 1
    {
      ghost var before := Board();
      Put(board, x, y, 0);
      Put(initialBoard, x, y, 0);
      var count := NoOfSolns();
      cleared := count == 1;
      if !cleared {
        var v := solvedBoard[y, x];
        Put(board, x, y, v);
        Put(initialBoard, x, y, v);
        UpdateTwice(before, x, y, 0, v);
        UpdateSame(before, x, y);
      }
    }

    /** `reset`: the board becomes the given grid. */
    method Reset()
      requires Valid()
      modifies board
      ensures Valid() && Board() == Initial()
      ensures Initial() == old(Initial()) && Solved() == old(Solved())
    {
      CopyInto(initialBoard, board);
    }

    /** `get_empty`: the first blank in row-major order, as (column, row). */
    method GetEmpty() returns (pos: Option<(int, int)>)
      requires Is9x9(board)
      ensures pos == FirstBlank(Board())
    {
      for y := 0 to 9
        invariant forall j, i :: InRange(i, j) && j < y ==> board[j, i] != 0
      {
        for x := 0 to 9
          invariant forall j, i :: InRange(i, j) && Before(i, j, x, y) ==> board[j, i] != 0
        {
          if board[y, x] == 0 {
            FirstBlankIs(Board(), x, y);
            return Some((x, y));
          }
        }
      }
      return None;
    }

    /** `get_valid_nums`: the digits that fit at (x, y) in ascending order, or [0] when none does. */
    method GetValidNums(x: int, y: int) returns (nums: seq<int>)
      requires Is9x9(board) && InRange(x, y)
      ensures nums == ValidNums(Board(), x, y)
    {
      ghost var g := Board();
      nums := [];
      for n := 1 to 10
        invariant nums == CandidatesBelow(g, x, y, n)
      {
        var ok := IsValid(n, x, y);
        assert ok == Fits(g, n, x, y) by {
          FitsIff(g, n, x, y);
        }
        if ok {
          nums := nums + [n];
        }
      }
      if |nums| == 0 {
        nums := [0];
      }
    }

    /** `is_valid`: false exactly when num already occurs in row y, in column x or in the
        box of (x, y). The board is only read. */
    method IsValid(num: int, x: int, y: int) returns (ok: bool)
      requires Is9x9(board) && InRange(x, y)
      ensures ok <==> !Conflict(Board(), num, x, y)
    {
      for i := 0 to 9
        invariant forall k :: 0 <= k < i ==> board[y, k] != num && board[k, x] != num
      {
        if board[y, i] == num {
          assert Board()[y][i] == num;
          return false;
        }
        if board[i, x] == num {
          assert Board()[i][x] == num;
          return false;
        }
      }
      ok := BoxFree(num, x, y);
    }

    /** The box pass of `is_valid`: true exactly when num is nowhere in the box of (x, y). */
    method BoxFree(num: int, x: int, y: int) returns (ok: bool)
      requires Is9x9(board) && InRange(x, y)
      ensures ok <==> forall j, i :: InRange(i, j) && BoxOrigin(i) == BoxOrigin(x) && BoxOrigin(j) == BoxOrigin(y) ==> board[j, i] != num
    {
      var x0 := x / 3 * 3;
      var y0 := y / 3 * 3;
      BoxSpan(x, x);
      BoxSpan(y, y);
      for j := y0 to y0 + 3
        invariant forall b, a :: y0 <= b < j && x0 <= a < x0 + 3 ==> board[b, a] != num
      {
        for i := x0 to x0 + 3
          invariant forall a :: x0 <= a < i ==> board[j, a] != num
        {
          if board[j, i] == num {
            BoxSpan(x, i);
            BoxSpan(y, j);
            return false;
          }
        }
      }
      forall j, i | InRange(i, j) && BoxOrigin(i) == BoxOrigin(x) && BoxOrigin(j) == BoxOrigin(y)
        ensures board[j, i] != num
      {
        BoxSpan(x, i);
        BoxSpan(y, j);
      }
      return true;
    }

    /** `solve`: depth-first search over the first blank, placing and undoing digits on the
        board. On success the board is the search's completion of the old board; on failure
        the board is exactly as it was. */
    method Solve() returns (ok: bool)
      requires Valid()
      modifies board
      ensures Valid() && Initial() == old(Initial()) && Solved() == old(Solved())
      ensures ok ==> Search(old(Board())) == Some(Board())
      ensures !ok ==> Search(old(Board())) == None && Board() == old(Board())
      decreases Blanks(Board()), 1
    {
      var empty := GetEmpty();
      if empty.None? {
        return true;
      }
      var x, y := empty.value.0, empty.value.1;
      ghost var g := Board();
      for n := 1 to 10
        invariant Valid() && Board() == g
        invariant Search(g) == TryDigits(g, x, y, n)
      {
        ok := SolveWith(n, x, y);
        if ok {
          return true;
        }
      }
      return false;
    }

    /** One turn of `solve`'s loop: when n fits the blank (x, y), place it and solve the
        rest, and blank the cell again when that fails. The search then either ends with the
        board or moves on to n + 1. */
    method SolveWith(n: int, x: int, y: int) returns (ok: bool)
      requires Valid() && InRange(x, y) && Board()[y][x] == 0 && 1 <= n <= 9
      modifies board
      ensures Valid() && Initial() == old(Initial()) && Solved() == old(Solved())
      ensures ok ==> TryDigits(old(Board()), x, y, n) == Some(Board())
      ensures !ok ==> Board() == old(Board()) && TryDigits(old(Board()), x, y, n) == TryDigits(old(Board()), x, y, n + 1)
      decreases Blanks(Board()), 0
    {
      ghost var g := Board();
      var fits := IsValid(n, x, y);
      TryDigitsNext(g, x, y, n);
      ok := false;
      if fits {
        Put(board, x, y, n);
        FillShrinksBlanks(g, x, y, n);
        ok := Solve();
        if !ok {
          Put(board, x, y, 0);
          UpdateTwice(g, x, y, n, 0);
          UpdateSame(g, x, y);
        }
      }
    }

    /** `no_of_solns`: the number of completions the search reaches. Every placement is
        undone, so the board ends as it started. */
    method NoOfSolns() returns (count: nat)
      requires Valid()
      modifies board
      ensures Valid() && Board() == old(Board())
      ensures count == Count(old(Board()))
      decreases Blanks(Board()), 1
    {
      var empty := GetEmpty();
      if empty.None? {
        return 1;
      }
      var x, y := empty.value.0, empty.value.1;
      ghost var g := Board();
      count := 0;
      for n := 1 to 10
        invariant Valid() && Board() == g
        invariant count + CountFrom(g, x, y, n) == CountFrom(g, x, y, 1)
      {
        var fits := IsValid(n, x, y);
        CountFromNext(g, x, y, n);
        if fits {
          var c := CountWith(n, x, y);
          count := count + c;
        }
      }
    }

    /** One turn of `no_of_solns`' loop: place n at the blank (x, y), count the completions
        below, and blank the cell again. */
    method CountWith(n: int, x: int, y: int) returns (count: nat)
      requires Valid() && InRange(x, y) && Board()[y][x] == 0 && 1 <= n <= 9
      modifies board
      ensures Valid() && Board() == old(Board())
      ensures count == Count(Update(old(Board()), x, y, n))
      decreases Blanks(Board()), 0
    {
      ghost var g := Board();
      Put(board, x, y, n);
      FillShrinksBlanks(g, x, y, n);
      count := NoOfSolns();
      Put(board, x, y, 0);
      UpdateTwice(g, x, y, n, 0);
      UpdateSame(g, x, y);
    }

    /** `set_cell`: writes num at (x, y) unless num > 9 or the cell is given; no conflict check. */
    method SetCell(num: nat, x: int, y: int)
      requires Valid() && InRange(x, y)
      modifies board
      ensures Valid() && Initial() == old(Initial()) && Solved() == old(Solved())
      ensures Board() == if num > 9 || Initial()[y][x] != 0 then old(Board()) else Update(old(Board()), x, y, num)
    {
      if num > 9 {
        return;
      }
      if initialBoard[y, x] == 0 {
        Put(board, x, y, num);
      }
    }
  }

  /** The digits 1..n-1 that fit at (x, y), in ascending order. */
  ghost function CandidatesBelow(g: Grid, x: int, y: int, n: int): seq<int>
    requires IsGrid(g) && InRange(x, y) && 1 <= n <= 10
  {
    if n == 1 then []
    else CandidatesBelow(g, x, y, n - 1) + if Fits(g, n - 1, x, y) then [n - 1] else []
  }

  /** What `get_valid_nums` returns on grid g. */
  ghost function ValidNums(g: Grid, x: int, y: int): seq<int>
    requires IsGrid(g) && InRange(x, y)
  {
    var c := CandidatesBelow(g, x, y, 10);
    if |c| == 0 then [0] else c
  }

  /** The list holds each digit below n that passes the conflict test, once, ascending. */
  lemma {:induction false} CandidatesBelowSpec(g: Grid, x: int, y: int, n: int)
    requires IsGrid(g) && InRange(x, y) && 1 <= n <= 10
    ensures forall d :: d in CandidatesBelow(g, x, y, n) <==> 1 <= d < n && Candidate(g, d, x, y)
    ensures Increasing(CandidatesBelow(g, x, y, n))
    ensures forall k :: 0 <= k < |CandidatesBelow(g, x, y, n)| ==> CandidatesBelow(g, x, y, n)[k] < n
  {
    if n > 1 {
      CandidatesBelowSpec(g, x, y, n - 1);
      FitsIff(g, n - 1, x, y);
    }
  }

  /** `get_valid_nums` never returns an empty list: the digits that fit at (x, y) in ascending
      order, or [0] when none does. */
  lemma ValidNumsSpec(g: Grid, x: int, y: int)
    requires IsGrid(g) && InRange(x, y)
    ensures |ValidNums(g, x, y)| > 0
    ensures forall k :: 0 <= k < |ValidNums(g, x, y)| ==>
              ValidNums(g, x, y)[k] == 0 || Candidate(g, ValidNums(g, x, y)[k], x, y)
    ensures (exists d :: Candidate(g, d, x, y)) ==>
              Increasing(ValidNums(g, x, y)) && forall d :: d in ValidNums(g, x, y) <==> Candidate(g, d, x, y)
    ensures (forall d :: !Candidate(g, d, x, y)) ==> ValidNums(g, x, y) == [0]
  {
    var c := CandidatesBelow(g, x, y, 10);
    CandidatesBelowSpec(g, x, y, 10);
    if |c| > 0 {
      assert c[0] in c;
    }
  }

  /** What the seeding loop of `create_board` leaves on g: for each seed (x, y, k) in order,
      entry k (taken cyclically) of the digits that fit at (x, y), or 0 when none does, is
      written at (x, y). */
  ghost function SeedOutcome(g: Grid, seeds: seq<(int, int, nat)>): (r: Grid)
    requires IsGrid(g) && forall k :: 0 <= k < |seeds| ==> InRange(seeds[k].0, seeds[k].1)
    ensures IsGrid(r)
    decreases |seeds|
  {
    if |seeds| == 0 then g
    else
      var x := seeds[0].0;
      var y := seeds[0].1;
      var nums := ValidNums(g, x, y);
      SeedOutcome(Update(g, x, y, nums[seeds[0].2 % |nums|]), seeds[1..])
  }

  /** Seeding never breaks a consistent grid of digits, and leaves every cell outside the
      seeds as it was. */
  lemma {:induction false} SeedKeepsConsistent(g: Grid, seeds: seq<(int, int, nat)>)
    requires IsGrid(g) && forall k :: 0 <= k < |seeds| ==> InRange(seeds[k].0, seeds[k].1)
    requires Consistent(g) && Digits(g)
    ensures Consistent(SeedOutcome(g, seeds)) && Digits(SeedOutcome(g, seeds))
    ensures forall y, x :: InRange(x, y) && (forall k :: 0 <= k < |seeds| ==> (seeds[k].0, seeds[k].1) != (x, y))
              ==> SeedOutcome(g, seeds)[y][x] == g[y][x]
    decreases |seeds|
  {
    if |seeds| > 0 {
      var x, y := seeds[0].0, seeds[0].1;
      var nums := ValidNums(g, x, y);
      var g' := Update(g, x, y, nums[seeds[0].2 % |nums|]);
      ValidNumsSpec(g, x, y);
      PlaceKeepsConsistent(g, x, y, nums[seeds[0].2 % |nums|]);
      SeedKeepsConsistent(g', seeds[1..]);
    }
  }

  /** What the carving loop of `create_board` leaves on the puzzle g, with sol its solution:
      the listed cells are cleared in order while the puzzle keeps exactly one solution; the
      first cell whose clearing breaks that is restored from sol, and carving stops there. */
  ghost function CarveOutcome(g: Grid, sol: Grid, carves: seq<(int, int)>): (r: Grid)
    requires IsGrid(g) && IsGrid(sol)
    requires forall k :: 0 <= k < |carves| ==> InRange(carves[k].0, carves[k].1)
    ensures IsGrid(r)
    decreases |carves|
  {
    if |carves| == 0 then g
    else
      var x := carves[0].0;
      var y := carves[0].1;
      if Count(Update(g, x, y, 0)) == 1 then CarveOutcome(Update(g, x, y, 0), sol, carves[1..])
      else Update(g, x, y, sol[y][x])
  }

  /** Carving a puzzle with exactly one solution, using that solution to restore, keeps exactly
      one solution and only ever removes digits. */
  lemma {:induction false} CarveKeepsUnique(g: Grid, sol: Grid, carves: seq<(int, int)>)
    requires IsGrid(g) && IsGrid(sol) && Extends(g, sol) && Count(g) == 1
    requires forall k :: 0 <= k < |carves| ==> InRange(carves[k].0, carves[k].1)
    ensures Count(CarveOutcome(g, sol, carves)) == 1
    ensures Extends(CarveOutcome(g, sol, carves), g)
    decreases |carves|
  {
    if |carves| > 0 {
      var x, y := carves[0].0, carves[0].1;
      var g' := Update(g, x, y, 0);
      if Count(g') == 1 {
        CarveKeepsUnique(g', sol, carves[1..]);
      } else {
        UpdateSame(g, x, y);
      }
    }
  }

  /** The grid of the unit test in src/main.rs. */
  function TestGrid(): (g: Grid)
    ensures IsGrid(g)
  {
    [ [5, 0, 0, 9, 0, 0, 0, 0, 1],
      [9, 0, 4, 7, 0, 1, 0, 0, 0],
      [0, 7, 2, 0, 0, 0, 0, 0, 0],
      [0, 0, 0, 5, 0, 0, 2, 0, 7],
      [0, 0, 7, 0, 0, 6, 0, 4, 0],
      [3, 0, 0, 0, 0, 0, 6, 0, 0],
      [0, 0, 6, 0, 0, 0, 9, 3, 0],
      [0, 1, 0, 0, 0, 9, 4, 0, 0],
      [8, 0, 0, 4, 2, 0, 0, 0, 0] ]
  }

  /** What the unit test expects of that grid: the first blank is (1, 0); 5 clashes in row 0,
      4 in column 2, 4 in the centre-bottom box; 6 fits at (1, 1). */
  lemma TestGridQueries()
    ensures FirstBlank(TestGrid()) == Some((1, 0))
    ensures Conflict(TestGrid(), 5, 1, 0)
    ensures Conflict(TestGrid(), 4, 2, 3)
    ensures Conflict(TestGrid(), 4, 4, 6)
    ensures !Conflict(TestGrid(), 6, 1, 1)
  {
    var g := TestGrid();
    FirstBlankIs(g, 1, 0);
    assert g[0][0] == 5;
    assert g[1][2] == 4;
    assert g[8][3] == 4 && BoxOrigin(3) == BoxOrigin(4) && BoxOrigin(8) == BoxOrigin(6);
    assert 6 !in g[1];
    assert forall j :: 0 <= j < 9 ==> g[j][1] != 6;
    assert forall j, i :: 0 <= j < 3 && 0 <= i < 3 ==> g[j][i] != 6;
  }
}
