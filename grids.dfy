/** The 9×9 grid both engines share: cells, units, the row/column/box conflict test,
    the first blank in row-major order, and what it means to complete a grid.

    Coordinates follow the Rust engine: `x` is the column and `y` the row, so the
    cell (x, y) is `g[y][x]`. Value 0 marks a blank cell. */
module Grids {
  import opened Seqs

  type Grid = seq<seq<int>>

  predicate InRange(x: int, y: int) {
    0 <= x < 9 && 0 <= y < 9
  }

  predicate IsGrid(g: Grid) {
    |g| == 9 && forall y :: 0 <= y < 9 ==> |g[y]| == 9
  }

  /** Every cell holds 0 (blank) or a digit 1..9. */
  ghost predicate Digits(g: Grid)
    requires IsGrid(g)
  {
    forall y, x :: InRange(x, y) ==> 0 <= g[y][x] <= 9
  }

  /** The grid with every cell blank. */
  function Zeros(): (g: Grid)
    ensures IsGrid(g) && forall y, x :: InRange(x, y) ==> g[y][x] == 0
  {
    seq(9, _ => seq(9, _ => 0))
  }

  /** The grid with cell (x, y) set to v. */
  function Update(g: Grid, x: int, y: int, v: int): (r: Grid)
    requires IsGrid(g) && InRange(x, y)
    ensures IsGrid(r) && r[y][x] == v
    ensures forall j, i :: InRange(i, j) && (i, j) != (x, y) ==> r[j][i] == g[j][i]
  {
    g[y := g[y][x := v]]
  }

  /** Two grids with the same cells are the same grid. */
  lemma SameCells(a: Grid, b: Grid)
    requires IsGrid(a) && IsGrid(b)
    requires forall j, i :: InRange(i, j) ==> a[j][i] == b[j][i]
    ensures a == b
  {
    forall j | 0 <= j < 9 ensures a[j] == b[j] {
      assert forall i :: 0 <= i < 9 ==> a[j][i] == b[j][i];
    }
  }

  /** Rewriting a cell with the value it had before leaves the grid as it was. */
  lemma UpdateSame(g: Grid, x: int, y: int)
    requires IsGrid(g) && InRange(x, y)
    ensures Update(g, x, y, g[y][x]) == g
  {
    SameCells(Update(g, x, y, g[y][x]), g);
  }

  /** Only the last of two writes to one cell counts. */
  lemma UpdateTwice(g: Grid, x: int, y: int, u: int, v: int)
    requires IsGrid(g) && InRange(x, y)
    ensures Update(Update(g, x, y, u), x, y, v) == Update(g, x, y, v)
  {
    SameCells(Update(Update(g, x, y, u), x, y, v), Update(g, x, y, v));
  }

  // ---------------------------------------------------------------------------
  // Rows, columns and boxes

  /** The column (or row) at which the 3×3 box holding column (or row) v starts. */
  function BoxOrigin(v: int): int {
    v / 3 * 3
  }

  /** The box holding row or column v spans BoxOrigin(v) to BoxOrigin(v) + 2. */
  lemma BoxSpan(v: int, i: int)
    requires 0 <= v < 9 && 0 <= i < 9
    ensures 0 <= BoxOrigin(v) <= 6
    ensures BoxOrigin(i) == BoxOrigin(v) <==> BoxOrigin(v) <= i < BoxOrigin(v) + 3
  {
  }

  /** The cells (x1, y1) and (x2, y2) lie in one row, one column or one 3×3 box. */
  predicate SameUnit(x1: int, y1: int, x2: int, y2: int) {
    y1 == y2 || x1 == x2 || (BoxOrigin(x1) == BoxOrigin(x2) && BoxOrigin(y1) == BoxOrigin(y2))
  }

  ghost predicate InRow(g: Grid, n: int, y: int)
    requires IsGrid(g) && 0 <= y < 9
  {
    exists i :: 0 <= i < 9 && g[y][i] == n
  }

  ghost predicate InCol(g: Grid, n: int, x: int)
    requires IsGrid(g) && 0 <= x < 9
  {
    exists j :: 0 <= j < 9 && g[j][x] == n
  }

  /** n occurs in the 3×3 box whose origin is (BoxOrigin(x), BoxOrigin(y)). */
  ghost predicate InBox(g: Grid, n: int, x: int, y: int)
    requires IsGrid(g) && InRange(x, y)
  {
    exists j, i :: InRange(i, j) && BoxOrigin(i) == BoxOrigin(x) && BoxOrigin(j) == BoxOrigin(y) && g[j][i] == n
  }

  /** n already occurs in row y, in column x, or in the box of (x, y); the cell (x, y) itself
      is not excluded. Writing n at (x, y) is allowed exactly when this is false. */
  ghost predicate Conflict(g: Grid, n: int, x: int, y: int)
    requires IsGrid(g) && InRange(x, y)
  {
    InRow(g, n, y) || InCol(g, n, x) || InBox(g, n, x, y)
  }

  /** The conflict test read as one quantifier over the cells sharing a unit with (x, y). */
  lemma ConflictUnit(g: Grid, n: int, x: int, y: int)
    requires IsGrid(g) && InRange(x, y)
    ensures Conflict(g, n, x, y) <==> exists j, i :: InRange(i, j) && SameUnit(i, j, x, y) && g[j][i] == n
  {
    if exists j, i :: InRange(i, j) && SameUnit(i, j, x, y) && g[j][i] == n {
      var j, i :| InRange(i, j) && SameUnit(i, j, x, y) && g[j][i] == n;
      if j == y {
        assert InRow(g, n, y);
      } else if i == x {
        assert InCol(g, n, x);
      } else {
        assert InBox(g, n, x, y);
      }
    }
  }

  /** Cell k of the row-major order is column k % 9 of row k / 9, and only that k reaches it. */
  lemma DivMod9(a: int, b: int)
    requires 0 <= a && 0 <= b < 9
    ensures (a * 9 + b) / 9 == a && (a * 9 + b) % 9 == b
  {
  }

  /** No cell from position k on, in row-major order, shares a unit with (x, y) and holds n. */
  predicate FreeFrom(g: Grid, n: int, x: int, y: int, k: int)
    requires IsGrid(g) && 0 <= k <= 81
    decreases 81 - k
  {
    k == 81 || ((!SameUnit(k % 9, k / 9, x, y) || g[k / 9][k % 9] != n) && FreeFrom(g, n, x, y, k + 1))
  }

  /** The conflict test as the scan the search performs, one cell at a time. */
  predicate Fits(g: Grid, n: int, x: int, y: int)
    requires IsGrid(g)
  {
    FreeFrom(g, n, x, y, 0)
  }

  lemma {:induction false} FreeFromAll(g: Grid, n: int, x: int, y: int, k: int)
    requires IsGrid(g) && 0 <= k <= 81
    ensures FreeFrom(g, n, x, y, k) <==>
              forall c :: k <= c < 81 ==> !SameUnit(c % 9, c / 9, x, y) || g[c / 9][c % 9] != n
    decreases 81 - k
  {
    if k < 81 {
      FreeFromAll(g, n, x, y, k + 1);
    }
  }

  /** The scan agrees with the conflict test. */
  lemma FitsIff(g: Grid, n: int, x: int, y: int)
    requires IsGrid(g) && InRange(x, y)
    ensures Fits(g, n, x, y) <==> !Conflict(g, n, x, y)
  {
    FreeFromAll(g, n, x, y, 0);
    ConflictUnit(g, n, x, y);
    if Conflict(g, n, x, y) {
      var j, i :| InRange(i, j) && SameUnit(i, j, x, y) && g[j][i] == n;
      DivMod9(j, i);
      assert g[(j * 9 + i) / 9][(j * 9 + i) % 9] == n;
    } else {
      forall c | 0 <= c < 81
        ensures !SameUnit(c % 9, c / 9, x, y) || g[c / 9][c % 9] != n
      {
        assert InRange(c % 9, c / 9);
      }
    }
  }

  /** The value at (x, y) appears in no other cell of its row, column or box. */
  ghost predicate Alone(g: Grid, x: int, y: int)
    requires IsGrid(g) && InRange(x, y)
  {
    forall j, i :: InRange(i, j) && (i, j) != (x, y) && SameUnit(i, j, x, y) ==> g[j][i] != g[y][x]
  }

  /** No filled cell repeats a value within its row, column or box. */
  ghost predicate Consistent(g: Grid)
    requires IsGrid(g)
  {
    forall y, x :: InRange(x, y) && g[y][x] != 0 ==> Alone(g, x, y)
  }

  // ---------------------------------------------------------------------------
  // Blanks and the first blank in row-major order

  ghost predicate NoBlanks(g: Grid)
    requires IsGrid(g)
  {
    forall y, x :: InRange(x, y) ==> g[y][x] != 0
  }

  /** The blank cells, as (x, y) pairs. The search shrinks this set at every placement. */
  ghost function Blanks(g: Grid): set<(int, int)>
    requires IsGrid(g)
  {
    set y, x | 0 <= y < 9 && 0 <= x < 9 && g[y][x] == 0 :: (x, y)
  }

  /** Filling a blank with a non-zero value removes it from the blanks and adds none. */
  lemma FillShrinksBlanks(g: Grid, x: int, y: int, v: int)
    requires IsGrid(g) && InRange(x, y) && g[y][x] == 0 && v != 0
    ensures Blanks(Update(g, x, y, v)) < Blanks(g)
  {
    var r := Update(g, x, y, v);
    assert (x, y) in Blanks(g);
    assert (x, y) !in Blanks(r);
    assert Blanks(r) <= Blanks(g);
  }

  /** (x1, y1) comes strictly before (x2, y2) when the grid is read row by row. */
  predicate Before(x1: int, y1: int, x2: int, y2: int) {
    y1 < y2 || (y1 == y2 && x1 < x2)
  }

  /** The first blank at or after (x, y) in row-major order; y == 9 is the end of the grid. */
  function FirstBlankFrom(g: Grid, x: int, y: int): (r: Option<(int, int)>)
    requires IsGrid(g) && 0 <= x < 9 && 0 <= y <= 9
    decreases 9 - y, 9 - x
    ensures r.Some? ==> InRange(r.value.0, r.value.1) && g[r.value.1][r.value.0] == 0
  {
    if y == 9 then None
    else if g[y][x] == 0 then Some((x, y))
    else if x == 8 then FirstBlankFrom(g, 0, y + 1)
    else FirstBlankFrom(g, x + 1, y)
  }

  /** The scan from (x, y) finds nothing exactly when every cell from there on is filled, and
      otherwise stops at a blank at or after (x, y) with only filled cells between. */
  lemma {:induction false} FirstBlankFromSpec(g: Grid, x: int, y: int)
    requires IsGrid(g) && 0 <= x < 9 && 0 <= y <= 9
    decreases 9 - y, 9 - x
    ensures FirstBlankFrom(g, x, y).None? ==>
              forall j, i :: InRange(i, j) && !Before(i, j, x, y) ==> g[j][i] != 0
    ensures FirstBlankFrom(g, x, y).Some? ==>
              var b := FirstBlankFrom(g, x, y).value;
              !Before(b.0, b.1, x, y) &&
              forall j, i :: InRange(i, j) && !Before(i, j, x, y) && Before(i, j, b.0, b.1) ==> g[j][i] != 0
  {
    if y < 9 && g[y][x] != 0 {
      if x == 8 {
        FirstBlankFromSpec(g, 0, y + 1);
      } else {
        FirstBlankFromSpec(g, x + 1, y);
      }
    }
  }

  /** The first blank of the grid in row-major order, as (column, row). */
  function FirstBlank(g: Grid): (r: Option<(int, int)>)
    requires IsGrid(g)
    ensures r.Some? ==> InRange(r.value.0, r.value.1) && g[r.value.1][r.value.0] == 0
  {
    FirstBlankFrom(g, 0, 0)
  }

  /** There is no first blank exactly when the grid has no blank; otherwise every cell
      before the first blank is filled. */
  lemma FirstBlankSpec(g: Grid)
    requires IsGrid(g)
    ensures FirstBlank(g).None? <==> NoBlanks(g)
    ensures FirstBlank(g).Some? ==>
              forall j, i :: InRange(i, j) && Before(i, j, FirstBlank(g).value.0, FirstBlank(g).value.1) ==> g[j][i] != 0
  {
    FirstBlankFromSpec(g, 0, 0);
  }

  /** A blank with only filled cells before it is the first blank. */
  lemma FirstBlankIs(g: Grid, x: int, y: int)
    requires IsGrid(g) && InRange(x, y) && g[y][x] == 0
    requires forall j, i :: InRange(i, j) && Before(i, j, x, y) ==> g[j][i] != 0
    ensures FirstBlank(g) == Some((x, y))
  {
    FirstBlankSpec(g);
  }

  // ---------------------------------------------------------------------------
  // Completions

  /** Every filled cell of g holds the same value in r. */
  ghost predicate Extends(g: Grid, r: Grid)
    requires IsGrid(g) && IsGrid(r)
  {
    forall y, x :: InRange(x, y) && g[y][x] != 0 ==> r[y][x] == g[y][x]
  }

  /** Every cell blank in g holds in r a digit 1..9 found nowhere else in its row, column or box of r. */
  ghost predicate PlacedOk(g: Grid, r: Grid)
    requires IsGrid(g) && IsGrid(r)
  {
    forall y, x :: InRange(x, y) && g[y][x] == 0 ==> 1 <= r[y][x] <= 9 && Alone(r, x, y)
  }

  /** c fills every blank of g with a digit that conflicts with no other cell of c,
      keeping g's filled cells. */
  ghost predicate Completion(g: Grid, c: Grid) {
    IsGrid(g) && IsGrid(c) && Extends(g, c) && NoBlanks(c) && PlacedOk(g, c)
  }

  /** A completion of a consistent grid is a full, consistent grid. */
  lemma {:induction false} CompletionConsistent(g: Grid, c: Grid)
    requires IsGrid(g) && Consistent(g) && Completion(g, c)
    ensures Consistent(c)
  {
    forall y, x | InRange(x, y) && c[y][x] != 0 ensures Alone(c, x, y) {
      if g[y][x] != 0 {
        forall j, i | InRange(i, j) && (i, j) != (x, y) && SameUnit(i, j, x, y) ensures c[j][i] != c[y][x] {
          if g[j][i] == 0 {
            assert Alone(c, i, j);
            assert SameUnit(x, y, i, j);
          } else {
            assert Alone(g, x, y);
          }
        }
      }
    }
  }

  /** A completion of a grid of digits is a grid of digits. */
  lemma CompletionDigits(g: Grid, c: Grid)
    requires Completion(g, c) && Digits(g)
    ensures Digits(c)
  {
  }

  /** n is a digit 1..9 that can be written at (x, y) without conflict. */
  ghost predicate Candidate(g: Grid, n: int, x: int, y: int)
    requires IsGrid(g) && InRange(x, y)
  {
    1 <= n <= 9 && !Conflict(g, n, x, y)
  }

  /** A full consistent grid of digits that keeps g's filled cells is a completion of g. */
  lemma {:induction false} SolutionIsCompletion(g: Grid, c: Grid)
    requires IsGrid(g) && IsGrid(c) && Extends(g, c) && NoBlanks(c) && Consistent(c) && Digits(c)
    ensures Completion(g, c)
  {
    forall y, x | InRange(x, y) && g[y][x] == 0 ensures 1 <= c[y][x] <= 9 && Alone(c, x, y) {
      assert c[y][x] != 0;
    }
  }

  /** Writing a digit that does not conflict, or clearing a cell, keeps a grid consistent. */
  lemma {:induction false} PlaceKeepsConsistent(g: Grid, x: int, y: int, d: int)
    requires IsGrid(g) && InRange(x, y) && Consistent(g)
    requires d == 0 || !Conflict(g, d, x, y)
    ensures Consistent(Update(g, x, y, d))
  {
    var r := Update(g, x, y, d);
    ConflictUnit(g, d, x, y);
    forall j, i | InRange(i, j) && r[j][i] != 0 ensures Alone(r, i, j) {
      if (i, j) == (x, y) {
        forall b, a | InRange(a, b) && (a, b) != (x, y) && SameUnit(a, b, x, y) ensures r[b][a] != d {
          assert r[b][a] == g[b][a];
        }
      } else {
        assert Alone(g, i, j);
        forall b, a | InRange(a, b) && (a, b) != (i, j) && SameUnit(a, b, i, j) ensures r[b][a] != r[j][i] {
          if (a, b) == (x, y) {
            assert SameUnit(i, j, x, y);
          }
        }
      }
    }
  }
}
