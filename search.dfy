/** The backtracking search both engines run, written as functions on grid values.

    `Search` is the value that `solve` leaves behind: it fills the first blank (row-major)
    with the digits 1..9 in ascending order, skipping digits that conflict, and keeps the
    first branch that succeeds. `Count` is the number `no_of_solns` returns: the same
    exploration summed over every branch. Both recurse on the set of blank cells, which
    every placement shrinks. */
module Backtracking {
  import opened Seqs
  import opened Grids

  ghost function Search(g: Grid): (r: Option<Grid>)
    requires IsGrid(g)
    decreases Blanks(g), 10
    ensures r.Some? ==> IsGrid(r.value)
  {
    match FirstBlank(g)
    case None => Some(g)
    case Some((x, y)) => TryDigits(g, x, y, 1)
  }

  /** The search at blank (x, y), trying the digits n..9 in order. */
  ghost function TryDigits(g: Grid, x: int, y: int, n: int): (r: Option<Grid>)
    requires IsGrid(g) && InRange(x, y) && g[y][x] == 0 && 1 <= n <= 10
    decreases Blanks(g), 10 - n, 1
    ensures r.Some? ==> IsGrid(r.value)
  {
    if n == 10 then None else TryDigit(g, x, y, n)
  }

  /** The search's turn for digit n at blank (x, y): its branch when n fits and that branch
      succeeds, otherwise the digits after n. */
  ghost function TryDigit(g: Grid, x: int, y: int, n: int): (r: Option<Grid>)
    requires IsGrid(g) && InRange(x, y) && g[y][x] == 0 && 1 <= n <= 9
    decreases Blanks(g), 10 - n, 0
    ensures r.Some? ==> IsGrid(r.value)
  {
    if Fits(g, n, x, y) then
      FillShrinksBlanks(g, x, y, n);
      match Search(Update(g, x, y, n))
      case Some(r) => Some(r)
      case None => TryDigits(g, x, y, n + 1)
    else TryDigits(g, x, y, n + 1)
  }

  ghost function Count(g: Grid): nat
    requires IsGrid(g)
    decreases Blanks(g), 10
  {
    match FirstBlank(g)
    case None => 1
    case Some((x, y)) => CountFrom(g, x, y, 1)
  }

  /** The completions found at blank (x, y) over the digits n..9. */
  ghost function CountFrom(g: Grid, x: int, y: int, n: int): nat
    requires IsGrid(g) && InRange(x, y) && g[y][x] == 0 && 1 <= n <= 10
    decreases Blanks(g), 10 - n
  {
    if n == 10 then 0
    else if Fits(g, n, x, y) then
      FillShrinksBlanks(g, x, y, n);
      Count(Update(g, x, y, n)) + CountFrom(g, x, y, n + 1)
    else CountFrom(g, x, y, n + 1)
  }

  /** The grid `solve` leaves: the search's result, or the grid unchanged when it fails. */
  ghost function SolveOutcome(g: Grid): Grid
    requires IsGrid(g)
  {
    match Search(g)
    case Some(r) => r
    case None => g
  }

  // ---------------------------------------------------------------------------
  // One step of the search

  /** The digit a completion holds at a blank fits there, and the grid with it placed
      still has that completion. */
  lemma {:induction false} CompletionStep(g: Grid, c: Grid, x: int, y: int)
    requires Completion(g, c) && InRange(x, y) && g[y][x] == 0
    ensures 1 <= c[y][x] <= 9 && !Conflict(g, c[y][x], x, y)
    ensures Completion(Update(g, x, y, c[y][x]), c)
  {
    var n := c[y][x];
    ConflictUnit(g, n, x, y);
    assert Alone(c, x, y);
    forall j, i | InRange(i, j) && SameUnit(i, j, x, y) ensures g[j][i] != n {
      if (i, j) != (x, y) && g[j][i] != 0 {
        assert c[j][i] == g[j][i];
      }
    }
    var g' := Update(g, x, y, n);
    assert Extends(g', c);
    assert PlacedOk(g', c);
  }

  /** A completion of the grid with a fitting digit placed is a completion of the grid. */
  lemma {:induction false} CompletionBack(g: Grid, x: int, y: int, n: int, r: Grid)
    requires IsGrid(g) && InRange(x, y) && g[y][x] == 0 && 1 <= n <= 9 && !Conflict(g, n, x, y)
    requires Completion(Update(g, x, y, n), r)
    ensures Completion(g, r)
  {
    var g' := Update(g, x, y, n);
    ConflictUnit(g, n, x, y);
    assert r[y][x] == n;
    forall j, i | InRange(i, j) && g[j][i] == 0 ensures 1 <= r[j][i] <= 9 && Alone(r, i, j) {
      if (i, j) == (x, y) {
        forall b, a | InRange(a, b) && (a, b) != (x, y) && SameUnit(a, b, x, y) ensures r[b][a] != n {
          if g'[b][a] == 0 {
            assert Alone(r, a, b);
            assert SameUnit(x, y, a, b);
          } else {
            assert g[b][a] != n;
          }
        }
      }
    }
  }

  // ---------------------------------------------------------------------------
  // Soundness and completeness of the search

  /** What the search returns completes the grid: every blank is filled with a digit that
      conflicts with no other cell, and the filled cells are kept. */
  lemma {:induction false} SearchSound(g: Grid)
    requires IsGrid(g) && Search(g).Some?
    ensures Completion(g, Search(g).value)
    decreases Blanks(g), 10
  {
    match FirstBlank(g)
    case None => FirstBlankSpec(g);
    case Some((x, y)) => TryDigitsSound(g, x, y, 1);
  }

  lemma {:induction false} TryDigitsSound(g: Grid, x: int, y: int, n: int)
    requires IsGrid(g) && InRange(x, y) && g[y][x] == 0 && 1 <= n <= 10
    requires TryDigits(g, x, y, n).Some?
    ensures Completion(g, TryDigits(g, x, y, n).value)
    decreases Blanks(g), 10 - n
  {
    if n < 10 {
      FitsIff(g, n, x, y);
      if Fits(g, n, x, y) && Search(Update(g, x, y, n)).Some? {
        var g' := Update(g, x, y, n);
        FillShrinksBlanks(g, x, y, n);
        assert TryDigits(g, x, y, n) == Search(g');
        SearchSound(g');
        CompletionBack(g, x, y, n, Search(g').value);
      } else {
        assert TryDigits(g, x, y, n) == TryDigits(g, x, y, n + 1);
        TryDigitsSound(g, x, y, n + 1);
      }
    }
  }

  /** If the grid has any completion, the search finds one. */
  lemma {:induction false} SearchComplete(g: Grid, c: Grid)
    requires Completion(g, c)
    ensures Search(g).Some?
    decreases Blanks(g)
  {
    match FirstBlank(g)
    case None =>
    case Some((x, y)) =>
      CompletionStep(g, c, x, y);
      var n := c[y][x];
      FillShrinksBlanks(g, x, y, n);
      SearchComplete(Update(g, x, y, n), c);
      TryDigitsReach(g, x, y, 1, n);
  }

  /** Trying digits from m on succeeds when a later fitting digit n leads to success. */
  lemma {:induction false} TryDigitsReach(g: Grid, x: int, y: int, m: int, n: int)
    requires IsGrid(g) && InRange(x, y) && g[y][x] == 0 && 1 <= m <= n <= 9
    requires !Conflict(g, n, x, y) && Search(Update(g, x, y, n)).Some?
    ensures TryDigits(g, x, y, m).Some?
    decreases n - m
  {
    if m < n {
      TryDigitsReach(g, x, y, m + 1, n);
    } else {
      FitsIff(g, n, x, y);
    }
  }

  /** The search succeeds exactly when the grid has a completion. */
  lemma SearchIffCompletion(g: Grid)
    requires IsGrid(g)
    ensures Search(g).Some? <==> exists c :: Completion(g, c)
  {
    if Search(g).Some? {
      SearchSound(g);
    }
    if exists c :: Completion(g, c) {
      var c :| Completion(g, c);
      SearchComplete(g, c);
    }
  }

  /** On a consistent grid the search returns a full consistent grid keeping its clues. */
  lemma SearchSolves(g: Grid)
    requires IsGrid(g) && Consistent(g)
    ensures Search(g).Some? ==>
      NoBlanks(Search(g).value) && Consistent(Search(g).value) && Extends(g, Search(g).value)
  {
    if Search(g).Some? {
      SearchSound(g);
      CompletionConsistent(g, Search(g).value);
    }
  }

  // ---------------------------------------------------------------------------
  // Counting

  /** The count is non-zero exactly when the search succeeds. */
  lemma {:induction false} CountPositive(g: Grid)
    requires IsGrid(g)
    ensures Count(g) > 0 <==> Search(g).Some?
    decreases Blanks(g), 10
  {
    match FirstBlank(g)
    case None =>
    case Some((x, y)) => CountFromPositive(g, x, y, 1);
  }

  lemma {:induction false} CountFromPositive(g: Grid, x: int, y: int, n: int)
    requires IsGrid(g) && InRange(x, y) && g[y][x] == 0 && 1 <= n <= 10
    ensures CountFrom(g, x, y, n) > 0 <==> TryDigits(g, x, y, n).Some?
    decreases Blanks(g), 10 - n
  {
    if n < 10 {
      TryDigitsNext(g, x, y, n);
      CountFromNext(g, x, y, n);
      if !Conflict(g, n, x, y) {
        FillShrinksBlanks(g, x, y, n);
        CountPositive(Update(g, x, y, n));
      }
      CountFromPositive(g, x, y, n + 1);
    }
  }

  /** The count from digit m on includes the branch of any fitting digit n >= m, and the
      digits after it. */
  lemma CountFromSplit(g: Grid, x: int, y: int, m: int, n: int)
    requires IsGrid(g) && InRange(x, y) && g[y][x] == 0 && 1 <= m <= n <= 9
    requires !Conflict(g, n, x, y)
    ensures CountFrom(g, x, y, m) >= Count(Update(g, x, y, n)) + CountFrom(g, x, y, n + 1)
  {
    CountFromMono(g, x, y, m, n);
    CountFromNext(g, x, y, n);
  }

  /** Trying more digits never lowers the count. */
  lemma {:induction false} CountFromMono(g: Grid, x: int, y: int, m: int, n: int)
    requires IsGrid(g) && InRange(x, y) && g[y][x] == 0 && 1 <= m <= n <= 10
    ensures CountFrom(g, x, y, m) >= CountFrom(g, x, y, n)
    decreases n - m
  {
    if m < n {
      CountFromMono(g, x, y, m + 1, n);
    }
  }

  /** One digit of the search at a blank: a conflicting digit is skipped; a fitting one
      ends the search when its branch succeeds and passes on to the next digit otherwise. */
  lemma TryDigitsNext(g: Grid, x: int, y: int, n: int)
    requires IsGrid(g) && InRange(x, y) && g[y][x] == 0 && 1 <= n <= 9
    ensures Conflict(g, n, x, y) ==> TryDigits(g, x, y, n) == TryDigits(g, x, y, n + 1)
    ensures !Conflict(g, n, x, y) && Search(Update(g, x, y, n)).Some? ==>
              TryDigits(g, x, y, n) == Search(Update(g, x, y, n))
    ensures !Conflict(g, n, x, y) && Search(Update(g, x, y, n)).None? ==>
              TryDigits(g, x, y, n) == TryDigits(g, x, y, n + 1)
  {
    FitsIff(g, n, x, y);
  }

  /** One digit of the count at a blank: a conflicting digit adds nothing, a fitting one
      adds the count of its branch. */
  lemma CountFromNext(g: Grid, x: int, y: int, n: int)
    requires IsGrid(g) && InRange(x, y) && g[y][x] == 0 && 1 <= n <= 9
    ensures Conflict(g, n, x, y) ==> CountFrom(g, x, y, n) == CountFrom(g, x, y, n + 1)
    ensures !Conflict(g, n, x, y) ==>
              CountFrom(g, x, y, n) == Count(Update(g, x, y, n)) + CountFrom(g, x, y, n + 1)
  {
    FitsIff(g, n, x, y);
  }

  /** Two different completions make the count at least 2. */
  lemma {:induction false} TwoCompletionsCountTwo(g: Grid, c1: Grid, c2: Grid)
    requires Completion(g, c1) && Completion(g, c2) && c1 != c2
    ensures Count(g) >= 2
    decreases Blanks(g), 1
  {
    match FirstBlank(g)
    case None =>
      FirstBlankSpec(g);
      SameCells(c1, c2);
    case Some((x, y)) =>
      assert Count(g) == CountFrom(g, x, y, 1);
      if c1[y][x] == c2[y][x] {
        SameDigitCountTwo(g, c1, c2, x, y);
      } else {
        BranchCounts(g, c1, x, y);
        BranchCounts(g, c2, x, y);
        if c1[y][x] < c2[y][x] {
          TwoDigitsCountTwo(g, x, y, c1[y][x], c2[y][x]);
        } else {
          TwoDigitsCountTwo(g, x, y, c2[y][x], c1[y][x]);
        }
      }
  }

  /** Two different completions agreeing at blank (x, y) both continue its branch. */
  lemma {:induction false} SameDigitCountTwo(g: Grid, c1: Grid, c2: Grid, x: int, y: int)
    requires Completion(g, c1) && Completion(g, c2) && c1 != c2
    requires InRange(x, y) && g[y][x] == 0 && c1[y][x] == c2[y][x]
    ensures CountFrom(g, x, y, 1) >= 2
    decreases Blanks(g), 0
  {
    CompletionStep(g, c1, x, y);
    CompletionStep(g, c2, x, y);
    var n := c1[y][x];
    FillShrinksBlanks(g, x, y, n);
    TwoCompletionsCountTwo(Update(g, x, y, n), c1, c2);
    CountFromSplit(g, x, y, 1, n);
  }

  /** The digit a completion holds at a blank fits there, and its branch counts. */
  lemma BranchCounts(g: Grid, c: Grid, x: int, y: int)
    requires Completion(g, c) && InRange(x, y) && g[y][x] == 0
    ensures 1 <= c[y][x] <= 9 && !Conflict(g, c[y][x], x, y)
    ensures Count(Update(g, x, y, c[y][x])) >= 1
  {
    CompletionStep(g, c, x, y);
    SearchComplete(Update(g, x, y, c[y][x]), c);
    CountPositive(Update(g, x, y, c[y][x]));
  }

  /** Two different fitting digits whose branches both count make the count at least 2. */
  lemma TwoDigitsCountTwo(g: Grid, x: int, y: int, lo: int, hi: int)
    requires IsGrid(g) && InRange(x, y) && g[y][x] == 0 && 1 <= lo < hi <= 9
    requires !Conflict(g, lo, x, y) && !Conflict(g, hi, x, y)
    requires Count(Update(g, x, y, lo)) >= 1 && Count(Update(g, x, y, hi)) >= 1
    ensures CountFrom(g, x, y, 1) >= 2
  {
    CountFromSplit(g, x, y, 1, lo);
    CountFromSplit(g, x, y, lo + 1, hi);
  }

  /** When the count is 1, a grid has exactly one completion and the search returns it. */
  lemma CountOneUnique(g: Grid, c: Grid)
    requires Completion(g, c) && Count(g) == 1
    ensures Search(g) == Some(c)
    ensures forall d :: Completion(g, d) ==> d == c
  {
    SearchComplete(g, c);
    SearchSound(g);
    var r := Search(g).value;
    if r != c {
      TwoCompletionsCountTwo(g, r, c);
    }
    forall d | Completion(g, d) ensures d == c {
      if d != c {
        TwoCompletionsCountTwo(g, d, c);
      }
    }
  }

  /** c is a completion of g, and g has no other. */
  ghost predicate OnlyCompletion(g: Grid, c: Grid) {
    Completion(g, c) && forall d :: Completion(g, d) ==> d == c
  }

  /** A grid whose only completion is c counts at most one solution. */
  lemma {:induction false} CountUniqueAtMostOne(g: Grid, c: Grid)
    requires OnlyCompletion(g, c)
    ensures Count(g) <= 1
    decreases Blanks(g), 1
  {
    match FirstBlank(g)
    case None =>
    case Some((x, y)) => CountFromUnique(g, c, x, y, 1);
  }

  /** Over the digits n..9 at blank (x, y), a grid whose only completion is c counts at most
      one solution, and none unless c's digit at (x, y) is among those digits. */
  lemma {:induction false} CountFromUnique(g: Grid, c: Grid, x: int, y: int, n: int)
    requires OnlyCompletion(g, c)
    requires InRange(x, y) && g[y][x] == 0 && 1 <= n <= 10
    ensures CountFrom(g, x, y, n) <= 1
    ensures CountFrom(g, x, y, n) == 1 ==> n <= c[y][x]
    decreases Blanks(g), 0, 10 - n, 1
  {
    if n < 10 {
      CountFromUnique(g, c, x, y, n + 1);
      CountFromUniqueStep(g, c, x, y, n);
    }
  }

  /** The step of `CountFromUnique` from digit n + 1 back to digit n. */
  lemma {:induction false} CountFromUniqueStep(g: Grid, c: Grid, x: int, y: int, n: int)
    requires OnlyCompletion(g, c)
    requires InRange(x, y) && g[y][x] == 0 && 1 <= n <= 9
    requires CountFrom(g, x, y, n + 1) <= 1
    requires CountFrom(g, x, y, n + 1) == 1 ==> n + 1 <= c[y][x]
    ensures CountFrom(g, x, y, n) <= 1
    ensures CountFrom(g, x, y, n) == 1 ==> n <= c[y][x]
    decreases Blanks(g), 0, 10 - n, 0
  {
    CountFromNext(g, x, y, n);
    if !Conflict(g, n, x, y) {
      if c[y][x] == n {
        OwnBranchCountsOne(g, c, x, y);
      } else {
        OtherBranchCountsNone(g, c, x, y, n);
      }
    }
  }

  /** The branch for the only completion's own digit at (x, y) counts at most one solution. */
  lemma {:induction false} OwnBranchCountsOne(g: Grid, c: Grid, x: int, y: int)
    requires OnlyCompletion(g, c)
    requires InRange(x, y) && g[y][x] == 0
    ensures 1 <= c[y][x] <= 9 && Count(Update(g, x, y, c[y][x])) <= 1
    decreases Blanks(g), 0, 0
  {
    var n := c[y][x];
    CompletionStep(g, c, x, y);
    FillShrinksBlanks(g, x, y, n);
    BranchOnlyCompletion(g, c, x, y, n);
    CountUniqueAtMostOne(Update(g, x, y, n), c);
  }

  /** Every completion of a branch at (x, y) completes the grid, so it too can only be c. */
  lemma BranchOnlyCompletion(g: Grid, c: Grid, x: int, y: int, n: int)
    requires OnlyCompletion(g, c)
    requires InRange(x, y) && g[y][x] == 0 && 1 <= n <= 9 && !Conflict(g, n, x, y)
    ensures forall d :: Completion(Update(g, x, y, n), d) ==> d == c
  {
    forall d | Completion(Update(g, x, y, n), d) ensures d == c {
      CompletionBack(g, x, y, n, d);
    }
  }

  /** When the only completion holds another digit at (x, y), the branch for n counts nothing. */
  lemma OtherBranchCountsNone(g: Grid, c: Grid, x: int, y: int, n: int)
    requires OnlyCompletion(g, c)
    requires InRange(x, y) && g[y][x] == 0 && 1 <= n <= 9 && !Conflict(g, n, x, y)
    requires c[y][x] != n
    ensures Count(Update(g, x, y, n)) == 0
  {
    var g' := Update(g, x, y, n);
    CountPositive(g');
    if Search(g').Some? {
      SearchSound(g');
      CompletionBack(g, x, y, n, Search(g').value);
      assert false;
    }
  }

  /** A grid with exactly one completion counts exactly one solution. */
  lemma UniqueCountOne(g: Grid, c: Grid)
    requires OnlyCompletion(g, c)
    ensures Count(g) == 1
  {
    CountUniqueAtMostOne(g, c);
    SearchComplete(g, c);
    CountPositive(g);
  }

  /** The count is 1 exactly when the grid has exactly one completion. */
  lemma CountOneIffUnique(g: Grid)
    requires IsGrid(g)
    ensures Count(g) == 1 <==> exists c :: OnlyCompletion(g, c)
  {
    if Count(g) == 1 {
      CountPositive(g);
      SearchSound(g);
      CountOneUnique(g, Search(g).value);
      assert OnlyCompletion(g, Search(g).value);
    }
    if exists c :: OnlyCompletion(g, c) {
      var c :| OnlyCompletion(g, c);
      UniqueCountOne(g, c);
    }
  }

  /** A count of 2 or more means the grid has two different completions. */
  lemma CountTwoTwoCompletions(g: Grid)
    requires IsGrid(g) && Count(g) >= 2
    ensures exists c1, c2 :: Completion(g, c1) && Completion(g, c2) && c1 != c2
  {
    CountPositive(g);
    SearchSound(g);
    var c := Search(g).value;
    if forall d :: Completion(g, d) ==> d == c {
      UniqueCountOne(g, c);
    }
    var d :| Completion(g, d) && d != c;
  }

  /** A grid with no blank has exactly one completion, itself. */
  lemma CountFull(g: Grid)
    requires IsGrid(g) && NoBlanks(g)
    ensures Count(g) == 1 && Search(g) == Some(g)
  {
  }
}
