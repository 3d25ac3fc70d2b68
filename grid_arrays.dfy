/** 9×9 boards held in two-dimensional arrays, read as `Grid` values.
    `a[y, x]` is the cell in row y, column x. */
module GridArrays {
  import opened Grids

  predicate Is9x9(a: array2<int>) {
    a.Length0 == 9 && a.Length1 == 9
  }

  /** The grid value the array currently holds. */
  ghost function Snapshot(a: array2<int>): (g: Grid)
    requires Is9x9(a)
    reads a
    ensures IsGrid(g)
    ensures forall y, x :: InRange(x, y) ==> g[y][x] == a[y, x]
  {
    RowsFrom(a, 0)
  }

  /** Rows y..8 of the array, top to bottom. */
  ghost function RowsFrom(a: array2<int>, y: int): (rs: seq<seq<int>>)
    requires Is9x9(a) && 0 <= y <= 9
    reads a
    decreases 9 - y
    ensures |rs| == 9 - y
    ensures forall j :: 0 <= j < 9 - y ==> |rs[j]| == 9
    ensures forall j, x :: 0 <= j < 9 - y && 0 <= x < 9 ==> rs[j][x] == a[y + j, x]
  {
    if y == 9 then [] else [CellsFrom(a, y, 0)] + RowsFrom(a, y + 1)
  }

  /** Cells x..8 of row y, left to right. */
  ghost function CellsFrom(a: array2<int>, y: int, x: int): (r: seq<int>)
    requires Is9x9(a) && 0 <= y < 9 && 0 <= x <= 9
    reads a
    decreases 9 - x
    ensures |r| == 9 - x
    ensures forall i :: 0 <= i < 9 - x ==> r[i] == a[y, x + i]
  {
    if x == 9 then [] else [a[y, x]] + CellsFrom(a, y, x + 1)
  }

  /** A fresh array holding the grid. */
  method NewBoard(g: Grid) returns (a: array2<int>)
    requires IsGrid(g)
    ensures fresh(a) && Is9x9(a) && Snapshot(a) == g
  {
    a := new int[9, 9]((y, x) requires 0 <= y < 9 && 0 <= x < 9 => g[y][x]);
    SameCells(Snapshot(a), g);
  }

  /** `a[y][x] = v`. */
  method Put(a: array2<int>, x: int, y: int, v: int)
    requires Is9x9(a) && InRange(x, y)
    modifies a
    ensures Snapshot(a) == Update(old(Snapshot(a)), x, y, v)
  {
    a[y, x] := v;
    SameCells(Snapshot(a), Update(old(Snapshot(a)), x, y, v));
  }

  /** `dst = src.clone()`, copying cell by cell. */
  method CopyInto(src: array2<int>, dst: array2<int>)
    requires Is9x9(src) && Is9x9(dst) && src != dst
    modifies dst
    ensures Snapshot(dst) == Snapshot(src)
  {
    var y := 0;
    while y < 9
      invariant 0 <= y <= 9
      invariant forall j, i :: InRange(i, j) && j < y ==> dst[j, i] == src[j, i]
    {
      var x := 0;
      while x < 9
        invariant 0 <= x <= 9
        invariant forall j, i :: InRange(i, j) && Before(i, j, x, y) ==> dst[j, i] == src[j, i]
      {
        dst[y, x] := src[y, x];
        x := x + 1;
      }
      y := y + 1;
    }
    SameCells(Snapshot(dst), Snapshot(src));
  }
}
