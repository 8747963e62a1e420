/**
 `_GrowAndGet`: the strawberry table is a two-dimensional array indexed by
 checkpoint and order that grows on demand. The copy into the larger array
 goes through `Array.Copy`, which sees a multi-dimensional array as one
 row-major run of cells, so the table is modelled by its dimensions and its
 flat cell sequence.

 Source: Celeste.Mod.mm/Patches/MapData.cs.
 */
module Grid {
  import opened Wrappers

  /** `rows` is `GetLength(0)`, `cols` is `GetLength(1)`; `None` is null. */
  datatype Grid<T> = Grid(rows: nat, cols: nat, cells: seq<Option<T>>)

  /** `ArgumentException` from `Array.Copy` when a row does not fit. */
  datatype GrowError = CopyOutOfRange

  predicate Valid<T>(g: Grid<T>) {
    |g.cells| == g.rows * g.cols
  }

  function Abs(i: int): (r: nat)
    ensures r == i || r == -i
  {
    if i < 0 then -i else i
  }

  /** `co * ho + ho` cells lie within `wo` rows of `ho` cells while `co < wo`. */
  lemma RowFits(co: nat, wo: nat, ho: nat)
    requires co < wo
    ensures co * ho + ho <= wo * ho
  {
    assert co * ho + ho == (co + 1) * ho;
  }

  /** The cell at row `r` and column `c` of a row-major run of rows `w`
      cells long; `None` past the end. */
  function Cell<T>(cells: seq<Option<T>>, w: nat, r: nat, c: nat): Option<T> {
    if r * w + c < |cells| then cells[r * w + c] else None
  }

  /** `g[r, c]`. */
  function At<T>(g: Grid<T>, r: nat, c: nat): Option<T>
    requires Valid(g) && r < g.rows && c < g.cols
  {
    Cell(g.cells, g.cols, r, c)
  }

  /** `g[r, c] = v`. */
  function Put<T>(g: Grid<T>, r: nat, c: nat, v: T): (h: Grid<T>)
    requires Valid(g) && r < g.rows && c < g.cols
    ensures Valid(h) && h.rows == g.rows && h.cols == g.cols
    ensures At(h, r, c) == Some(v)
    ensures forall r': nat, c': nat {:trigger At(h, r', c')} :: r' < g.rows && c' < g.cols && (r', c') != (r, c) ==>
              At(h, r', c') == At(g, r', c')
  {
    CellInRange(r, c, g.rows, g.cols);
    var h := g.(cells := g.cells[r * g.cols + c := Some(v)]);
    forall r': nat, c': nat | r' < g.rows && c' < g.cols && (r', c') != (r, c)
      ensures r' * g.cols + c' != r * g.cols + c
    {
      CellsApart(r', c', r, c, g.cols);
    }
    h
  }

  lemma CellsApart(r1: nat, c1: nat, r2: nat, c2: nat, w: nat)
    requires c1 < w && c2 < w && (r1, c1) != (r2, c2)
    ensures r1 * w + c1 != r2 * w + c2
  {
    if r1 * w + c1 == r2 * w + c2 {
      RowsApart(r1, c1, r2, c2, w);
      assert false;
    }
  }

  /** A fresh array of nulls. */
  function Blank<T>(rows: nat, cols: nat): (g: Grid<T>)
    ensures Valid(g) && g.rows == rows && g.cols == cols
    ensures forall p :: 0 <= p < |g.cells| ==> g.cells[p].None?
  {
    Grid(rows, cols, seq(rows * cols, _ => None))
  }

  /** `Array.Copy(src, i, dst, j, n)` on flat cells. */
  function CopyRange<T>(src: seq<Option<T>>, i: nat, dst: seq<Option<T>>, j: nat, n: nat): (r: seq<Option<T>>)
    requires i + n <= |src| && j + n <= |dst|
    ensures |r| == |dst|
    ensures forall p :: 0 <= p < |r| ==> r[p] == (if j <= p < j + n then src[i + p - j] else dst[p])
  {
    dst[..j] + src[i..i + n] + dst[j + n..]
  }

  /** The copy loop: row `co` of the old array, `ho` cells long, goes to flat
      index `co * hn` of the new one, for every old row from `co` on. */
  function CopyRows<T>(src: seq<Option<T>>, ho: nat, wo: nat, dst: seq<Option<T>>, hn: nat, co: nat)
    : Result<seq<Option<T>>, GrowError>
    requires |src| == wo * ho && co <= wo
    decreases wo - co
  {
    if co == wo then Success(dst)
    else if co * hn + ho > |dst| then Failure(CopyOutOfRange)
    else
      RowFits(co, wo, ho);
      CopyRows(src, ho, wo, CopyRange(src, co * ho, dst, co * hn, ho), hn, co + 1)
  }

  /** `_GrowAndGet(ref map, y, x)`: negative indices are taken as their
      absolute values; when either is out of range the array is replaced by
      one of `|y| + 10` rows and `|x| + 25` columns holding the old rows; the
      result is the cell at the (absolute) indices with the array after it. */
  function GrowAndGet<T>(g: Grid<T>, y: int, x: int): (r: Result<(Grid<T>, Option<T>), GrowError>)
    requires Valid(g)
    ensures r.Success? ==> && Valid(r.value.0)
                           && Abs(y) < r.value.0.rows && Abs(x) < r.value.0.cols
                           && r.value.1 == At(r.value.0, Abs(y), Abs(x))
    ensures Abs(y) < g.rows && Abs(x) < g.cols ==> r == Success((g, At(g, Abs(y), Abs(x))))
    ensures !(Abs(y) < g.rows && Abs(x) < g.cols) && r.Success? ==>
              r.value.0.rows == Abs(y) + 10 && r.value.0.cols == Abs(x) + 25
  {
    var y := Abs(y);
    var x := Abs(x);
    if g.rows <= y || g.cols <= x then
      var blank: Grid<T> := Blank(y + 10, x + 25);
      var cells :- CopyRows(g.cells, g.cols, g.rows, blank.cells, x + 25, 0);
      CopyRowsLength(g.cells, g.cols, g.rows, blank.cells, x + 25, 0);
      var grown := Grid(y + 10, x + 25, cells);
      Success((grown, At(grown, y, x)))
    else
      Success((g, At(g, y, x)))
  }

  lemma {:induction false} CopyRowsLength<T>(src: seq<Option<T>>, ho: nat, wo: nat, dst: seq<Option<T>>, hn: nat, co: nat)
    requires |src| == wo * ho && co <= wo
    ensures CopyRows(src, ho, wo, dst, hn, co).Success? ==> |CopyRows(src, ho, wo, dst, hn, co).value| == |dst|
    decreases wo - co
  {
    if co < wo && co * hn + ho <= |dst| {
      RowFits(co, wo, ho);
      CopyRowsLength(src, ho, wo, CopyRange(src, co * ho, dst, co * hn, ho), hn, co + 1);
    }
  }

  // ---------------------------------------------------------------------
  // Growing keeps the old cells when no dimension shrinks
  // ---------------------------------------------------------------------

  lemma RowsApart(r1: nat, c1: nat, r2: nat, c2: nat, w: nat)
    requires c1 < w && c2 < w && r1 * w + c1 == r2 * w + c2
    ensures r1 == r2 && c1 == c2
  {
    if r1 < r2 {
      RowStep(r1, r2, w);
      assert false;
    } else if r2 < r1 {
      RowStep(r2, r1, w);
      assert false;
    }
  }

  lemma {:induction false} RowStep(a: nat, b: nat, w: nat)
    requires a < b
    ensures a * w + w <= b * w
    decreases b - a
  {
    assert b * w == (b - 1) * w + w;
    if a + 1 < b {
      RowStep(a, b - 1, w);
    }
  }

  /** One `Array.Copy` of row `co` when the old rows are no longer than the
      new ones: it fills exactly the first `ho` cells of new row `co`. */
  lemma CopyOneRow<T>(src: seq<Option<T>>, ho: nat, wo: nat, dst: seq<Option<T>>, hn: nat, co: nat, r: nat, c: nat)
    requires |src| == wo * ho && co < wo && ho <= hn && co * hn + ho <= |dst| && c < hn
    requires co * ho + ho <= |src|
    ensures Cell(CopyRange(src, co * ho, dst, co * hn, ho), hn, r, c)
            == if r == co && c < ho then Cell(src, ho, co, c) else Cell(dst, hn, r, c)
  {
    RowFits(co, wo, ho);
    var p := r * hn + c;
    if co * hn <= p < co * hn + ho {
      RowsApart(r, c, co, p - co * hn, hn);
      CellInRange(co, c, wo, ho);
    } else if r == co && c < ho {
      assert false;
    }
  }

  lemma CellInRange(r: nat, c: nat, rows: nat, cols: nat)
    requires r < rows && c < cols
    ensures r * cols + c < rows * cols
  {
    RowFits(r, rows, cols);
  }

  /** With old rows no longer than the new ones and a destination holding at
      least the old row count, the copy loop from row `co` on puts every old
      cell of those rows at its old row and column and writes nothing else. */
  lemma {:induction false} CopyRowsAligned<T>(src: seq<Option<T>>, ho: nat, wo: nat, dst: seq<Option<T>>, hn: nat, rn: nat, co: nat)
    requires |src| == wo * ho && co <= wo && ho <= hn && wo <= rn && |dst| == rn * hn
    ensures CopyRows(src, ho, wo, dst, hn, co).Success?
    ensures var res := CopyRows(src, ho, wo, dst, hn, co).value;
            && |res| == |dst|
            && forall r: nat, c: nat {:trigger Cell(res, hn, r, c)} :: c < hn ==>
                 Cell(res, hn, r, c) == if co <= r < wo && c < ho then Cell(src, ho, r, c) else Cell(dst, hn, r, c)
    decreases wo - co
  {
    if co < wo {
      RowFits(co, rn, hn);
      assert co * hn + ho <= rn * hn;
      RowFits(co, wo, ho);
      var next := CopyRange(src, co * ho, dst, co * hn, ho);
      CopyRowsAligned(src, ho, wo, next, hn, rn, co + 1);
      var res := CopyRows(src, ho, wo, next, hn, co + 1).value;
      forall r: nat, c: nat | c < hn
        ensures Cell(res, hn, r, c) == if co <= r < wo && c < ho then Cell(src, ho, r, c) else Cell(dst, hn, r, c)
      {
        CopyOneRow(src, ho, wo, dst, hn, co, r, c);
      }
    }
  }

  /** Growing an array whose dimensions both fit the new ones keeps every old
      cell at its row and column, leaves the new cells null, and so returns
      null for the cell asked for. */
  lemma GrowKeepsCells<T>(g: Grid<T>, y: int, x: int)
    requires Valid(g) && !(Abs(y) < g.rows && Abs(x) < g.cols)
    requires g.rows <= Abs(y) + 10 && g.cols <= Abs(x) + 25
    ensures GrowAndGet(g, y, x).Success?
    ensures var (grown, v) := GrowAndGet(g, y, x).value;
            && v.None?
            && forall r: nat, c: nat {:trigger At(grown, r, c)} :: r < grown.rows && c < grown.cols ==>
                 At(grown, r, c) == if r < g.rows && c < g.cols then At(g, r, c) else None
  {
    var (rn, hn) := (Abs(y) + 10, Abs(x) + 25);
    var blank: Grid<T> := Blank(rn, hn);
    CopyRowsAligned(g.cells, g.cols, g.rows, blank.cells, hn, rn, 0);
    var cells := CopyRows(g.cells, g.cols, g.rows, blank.cells, hn, 0).value;
    var grown := Grid(rn, hn, cells);
    GrowAndGetGrown(g, y, x, cells);
    forall r: nat, c: nat | r < rn && c < hn
      ensures At(grown, r, c) == if r < g.rows && c < g.cols then At(g, r, c) else None
    {
      BlankCell<T>(rn, hn, r, c);
    }
  }

  /** Every cell of a fresh array is null. */
  lemma BlankCell<T>(rows: nat, cols: nat, r: nat, c: nat)
    ensures Cell(Blank<T>(rows, cols).cells, cols, r, c).None?
  {
    var cells := Blank<T>(rows, cols).cells;
    var p := r * cols + c;
    if p < |cells| {
      assert cells[p].None?;
    }
  }

  /** An out-of-range access whose copy succeeds yields the grown array. */
  lemma GrowAndGetGrown<T>(g: Grid<T>, y: int, x: int, cells: seq<Option<T>>)
    requires Valid(g) && !(Abs(y) < g.rows && Abs(x) < g.cols)
    requires CopyRows(g.cells, g.cols, g.rows, Blank<T>(Abs(y) + 10, Abs(x) + 25).cells, Abs(x) + 25, 0) == Success(cells)
    ensures |cells| == (Abs(y) + 10) * (Abs(x) + 25)
    ensures var grown := Grid(Abs(y) + 10, Abs(x) + 25, cells);
            GrowAndGet(g, y, x) == Success((grown, At(grown, Abs(y), Abs(x))))
  {
    CopyRowsLength(g.cells, g.cols, g.rows, Blank<T>(Abs(y) + 10, Abs(x) + 25).cells, Abs(x) + 25, 0);
  }

  /** The copy loop fails once it reaches a row that does not fit. */
  lemma {:induction false} CopyRowsFailsAt<T>(src: seq<Option<T>>, ho: nat, wo: nat, dst: seq<Option<T>>, hn: nat, co: nat, bad: nat)
    requires |src| == wo * ho && co <= bad < wo && bad * hn + ho > |dst|
    ensures CopyRows(src, ho, wo, dst, hn, co).Failure?
    decreases wo - co
  {
    if co * hn + ho <= |dst| {
      RowFits(co, wo, ho);
      if co == bad { assert false; }
      CopyRowsFailsAt(src, ho, wo, CopyRange(src, co * ho, dst, co * hn, ho), hn, co + 1, bad);
    }
  }

  /** Growing only the columns of an array that has more than `|y| + 10`
      non-empty rows throws: the new array has fewer rows than the old one
      and the copy of the first row past its end does not fit. */
  lemma GrowFailsWhenRowsShrink<T>(g: Grid<T>, y: int, x: int)
    requires Valid(g) && g.cols > 0 && Abs(x) >= g.cols && g.rows > Abs(y) + 10
    ensures GrowAndGet(g, y, x).Failure?
  {
    var (rn, hn) := (Abs(y) + 10, Abs(x) + 25);
    var blank: Grid<T> := Blank(rn, hn);
    assert rn * hn + g.cols > |blank.cells|;
    CopyRowsFailsAt(g.cells, g.cols, g.rows, blank.cells, hn, 0, rn);
  }
}
