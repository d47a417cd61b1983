/** Axis-aligned rectangles (`Bounds`), their row-major iteration, and the
    rectangles and point lists built from pairs of points. */
module Geometry {
  import opened Common
  import opened Coordinates
  import opened Dimensions

  /** A rectangle anchored at its top-left corner. `Binding` bounds constrain
      movement; `Free` bounds only describe an area. */
  datatype Bounds = Binding(pos: Position2D, dim: Dimension) | Free(pos: Position2D, dim: Dimension) {

    /** Number of cells, `dim.w * dim.h`. */
    function Size(): (n: nat)
      requires dim.SizeFits()
      ensures n == dim.w * dim.h
    {
      dim.Size()
    }

    /** The last column inside the rectangle. */
    function Right(): int
    {
      pos.x + dim.w - 1
    }

    /** The last row inside the rectangle. */
    function Bottom(): int
    {
      pos.y + dim.h - 1
    }

    /** Half-open containment: `[x, x + w) x [y, y + h)`. */
    predicate Contains(q: Position2D)
    {
      q.x >= pos.x && q.x < pos.x + dim.w && q.y >= pos.y && q.y < pos.y + dim.h
    }

    /** Overlap test against the rectangle `(p, d)`, strict on all four sides. */
    predicate Intersects(p: Position2D, d: Dimension)
    {
      var bottomEdge1 := pos.y + dim.h;
      var rightEdge1 := pos.x + dim.w;
      var leftEdge1 := pos.x;
      var topEdge1 := pos.y;
      var bottomEdge2 := p.y + d.h;
      var rightEdge2 := p.x + d.w;
      var leftEdge2 := p.x;
      var topEdge2 := p.y;
      leftEdge1 < rightEdge2 && rightEdge1 > leftEdge2 && topEdge1 < bottomEdge2 && bottomEdge1 > topEdge2
    }

    /** `Bounds - Position2D`: moves the anchor, keeps the kind and the size. */
    function Minus(o: Position2D): (r: Bounds)
      ensures r.Binding? == Binding? && r.dim == dim
      ensures r.pos.Plus(o) == pos
    {
      match this
      case Binding(p, d) => Binding(p.Minus(o), d)
      case Free(p, d) => Free(p.Minus(o), d)
    }

    /** The sequence the iterator of these bounds yields. */
    function Positions(): (ps: seq<Position2D>)
      requires dim.SizeFits()
      ensures |ps| == Size()
    {
      seq(Size(), i requires 0 <= i < Size() => CoordsFromIndex(i, dim).value.Plus(pos))
    }
  }

  /** `Bounds::empty()`: free, anchored at (0, 0), with no cells. */
  function Empty(): (b: Bounds)
    ensures b.Free? && b.pos == Origin2D && b.dim == Zero
    ensures b.dim.SizeFits() && b.Size() == 0
    ensures forall q :: !b.Contains(q)
  {
    Free(Origin2D, Zero)
  }

  /** `Bounds::point(p)`: a binding single cell. */
  function Point(p: Position2D): (b: Bounds)
    ensures b.Binding? && b.dim.SizeFits() && b.Size() == 1
    ensures forall q :: b.Contains(q) <==> q == p
  {
    Binding(p, Unit())
  }

  /** Decodes a cursor index into row-major coordinates relative to the anchor. */
  function CoordsFromIndex(index: nat, dim: Dimension): (r: Option<Position2D>)
    ensures r.Some? <==> index < dim.w * dim.h
  {
    if index < dim.w * dim.h then Some(Position2D(index % dim.w, index / dim.w)) else None
  }

  /** Proof helper for `ContainedIsYielded`: the quotient and remainder of
      a division are unique. */
  lemma DivModUnique(k: int, n: int, q: int, r: int)
    requires n > 0 && 0 <= r < n && k == q * n + r
    ensures k / n == q && k % n == r
  {
    var q', r' := k / n, k % n;
    assert k == q' * n + r';
    if q' > q {
      var d := q' - q;
      MulMonotone(1, d, n);
      assert false;
    } else if q' < q {
      var d := q - q';
      MulMonotone(1, d, n);
      assert false;
    }
  }

  /** Proof helper for `DivModUnique`, `RowBelowHeight`,
      `ContainedIsYielded` and `PositionsRowMajor`: a larger factor gives a
      larger product. */
  lemma MulMonotone(a: int, b: int, n: nat)
    requires a <= b
    ensures a * n <= b * n
  {
  }

  /** Index i of the iteration is the cell `(x + i % w, y + i / w)`, and it lies
      inside the bounds. */
  lemma {:induction false} PositionAt(b: Bounds, i: nat)
    requires b.dim.SizeFits() && i < b.Size()
    ensures b.Positions()[i] == Position2D(b.pos.x + i % b.dim.w, b.pos.y + i / b.dim.w)
    ensures b.Contains(b.Positions()[i])
  {
    PositionFormula(b, i);
    CellInside(b, i);
  }

  lemma PositionFormula(b: Bounds, i: nat)
    requires b.dim.SizeFits() && i < b.Size()
    ensures b.Positions()[i] == Position2D(b.pos.x + i % b.dim.w, b.pos.y + i / b.dim.w)
  {
    var w, h := b.dim.w, b.dim.h;
    RowBelowHeight(i, w, h);
    var col, row := i % w, i / w;
    assert CoordsFromIndex(i, b.dim) == Some(Position2D(col, row));
  }

  lemma CellInside(b: Bounds, i: nat)
    requires b.dim.SizeFits() && i < b.Size()
    ensures b.Contains(Position2D(b.pos.x + i % b.dim.w, b.pos.y + i / b.dim.w))
  {
    RowBelowHeight(i, b.dim.w, b.dim.h);
  }

  lemma RowBelowHeight(i: nat, w: nat, h: nat)
    requires i < w * h
    ensures w > 0 && 0 <= i / w < h && 0 <= i % w < w
  {
    if i / w >= h {
      MulMonotone(h, i / w, w);
      assert false;
    }
  }

  /** Every cell contained in the bounds is yielded, at index `row * w + col`. */
  lemma ContainedIsYielded(b: Bounds, q: Position2D)
    requires b.dim.SizeFits() && b.Contains(q)
    ensures exists i :: 0 <= i < b.Size() && b.Positions()[i] == q
  {
    var w, h := b.dim.w, b.dim.h;
    var row, col := q.y - b.pos.y, q.x - b.pos.x;
    var i := row * w + col;
    MulMonotone(row, h - 1, w);
    assert i < w * h;
    DivModUnique(i, w, row, col);
    PositionAt(b, i);
  }

  /** Iterating the bounds yields exactly the contained cells. */
  lemma PositionsAreContents(b: Bounds, q: Position2D)
    requires b.dim.SizeFits()
    ensures q in b.Positions() <==> b.Contains(q)
  {
    if q in b.Positions() {
      var i :| 0 <= i < |b.Positions()| && b.Positions()[i] == q;
      PositionAt(b, i);
    }
    if b.Contains(q) {
      ContainedIsYielded(b, q);
    }
  }

  /** The iteration runs row by row, left to right inside a row; in
      particular no cell is yielded twice. */
  lemma PositionsRowMajor(b: Bounds, i: nat, j: nat)
    requires b.dim.SizeFits() && i < j < b.Size()
    ensures b.Positions()[i].y < b.Positions()[j].y ||
      (b.Positions()[i].y == b.Positions()[j].y && b.Positions()[i].x < b.Positions()[j].x)
  {
    PositionAt(b, i);
    PositionAt(b, j);
    var w := b.dim.w;
    assert b.Size() == b.dim.Size() > 0;
    if i / w > j / w {
      MulMonotone(j / w + 1, i / w, w);
      assert false;
    }
    if i / w == j / w {
      assert i % w < j % w;
    }
  }

  lemma PositionsDistinct(b: Bounds, i: nat, j: nat)
    requires b.dim.SizeFits() && i < b.Size() && j < b.Size() && i != j
    ensures b.Positions()[i] != b.Positions()[j]
  {
    if i < j { PositionsRowMajor(b, i, j); } else { PositionsRowMajor(b, j, i); }
  }

  /** Containment is preserved by shifting the bounds and the point alike. */
  lemma MinusContains(b: Bounds, o: Position2D, q: Position2D)
    ensures b.Minus(o).Contains(q.Minus(o)) <==> b.Contains(q)
  {
  }

  /** `right()` and `bottom()` are the last column and row inside. */
  lemma ContainsWithinEdges(b: Bounds, q: Position2D)
    ensures b.Contains(q) <==> b.pos.x <= q.x <= b.Right() && b.pos.y <= q.y <= b.Bottom()
  {
  }

  /** A shared cell makes two rectangles intersect; for rectangles with
      positive width and height the converse holds too. */
  lemma IntersectsIffOverlap(b: Bounds, p: Position2D, d: Dimension)
    ensures (exists q :: b.Contains(q) && Free(p, d).Contains(q)) ==> b.Intersects(p, d)
    ensures b.Intersects(p, d) && b.dim.w > 0 && b.dim.h > 0 && d.w > 0 && d.h > 0 ==>
      b.Contains(Position2D(Max(b.pos.x, p.x), Max(b.pos.y, p.y))) &&
      Free(p, d).Contains(Position2D(Max(b.pos.x, p.x), Max(b.pos.y, p.y)))
  {
  }

  /** A rectangle of width 0 still "intersects" one that spans its column. */
  lemma IntersectsZeroWidth()
    ensures Free(Position2D(5, 0), Dimension(0, 1)).Intersects(Position2D(4, 0), Dimension(3, 1))
    ensures forall q :: !Free(Position2D(5, 0), Dimension(0, 1)).Contains(q)
  {
  }

  /** The cursor `into_iter` returns: yields the cells of `bounds` one by one. */
  class BoundsIterator {
    const bounds: Bounds
    var index: nat

    constructor (b: Bounds)
      ensures bounds == b && index == 0
    {
      bounds := b;
      index := 0;
    }

    /** Yields the cell at the cursor and advances it; `None` once exhausted. */
    method Next() returns (item: Option<Position2D>)
      requires bounds.dim.SizeFits()
      modifies this
      ensures old(index) < bounds.Size() ==>
        index == old(index) + 1 && item == Some(bounds.Positions()[old(index)])
      ensures old(index) >= bounds.Size() ==> index == old(index) && item.None?
    {
      if index >= bounds.Size() {
        return None;
      }
      var oldIndex := index;
      index := index + 1;
      var coords := CoordsFromIndex(oldIndex, bounds.dim);
      if coords.Some? {
        item := Some(coords.value.Plus(bounds.pos));
      } else {
        item := None;
      }
    }
  }

  /** Drains a fresh iterator over `b`, as `for pos in b.into_iter()` does. */
  method Collect(b: Bounds) returns (ps: seq<Position2D>)
    requires b.dim.SizeFits()
    ensures ps == b.Positions()
  {
    var it := new BoundsIterator(b);
    ps := [];
    var item := it.Next();
    while item.Some?
      invariant it.bounds == b && it.index <= b.Size()
      invariant item.Some? ==>
        1 <= it.index && ps == b.Positions()[..it.index - 1] && item.value == b.Positions()[it.index - 1]
      invariant item.None? ==> it.index == b.Size() && ps == b.Positions()[..it.index]
      decreases b.Size() - it.index + (if item.Some? then 1 else 0)
    {
      ps := ps + [item.value];
      assert ps == b.Positions()[..it.index];
      item := it.Next();
    }
    assert b.Positions()[..b.Size()] == b.Positions();
  }

  /** Scenario: a 2x2 binding area at (2, 3) iterates row by row. */
  lemma IterationExample()
    ensures Binding(Position2D(2, 3), Dimension(2, 2)).Positions() ==
      [Position2D(2, 3), Position2D(3, 3), Position2D(2, 4), Position2D(3, 4)]
  {
    var b := Binding(Position2D(2, 3), Dimension(2, 2));
    var ps := b.Positions();
    assert ps[0] == Position2D(2, 3);
    assert ps[1] == Position2D(3, 3);
    assert ps[2] == Position2D(2, 4);
    assert ps[3] == Position2D(3, 4);
  }

  /** `Position2D::area`: the binding rectangle spanned by two corners. */
  function Area(a: Position2D, b: Position2D): (r: Bounds)
    ensures r.Binding?
    ensures r.pos == Position2D(Min(a.x, b.x), Min(a.y, b.y))
  {
    var topLeft := Position2D(Min(a.x, b.x), Min(a.y, b.y));
    var bottomRight := Position2D(Max(a.x, b.x), Max(a.y, b.y));
    Binding(topLeft, ForArea(topLeft, bottomRight))
  }

  /** Two corners whose spans fit the 16-bit dimension. */
  predicate SpanFits(a: Position2D, b: Position2D)
  {
    Max(a.x, b.x) - Min(a.x, b.x) < U16_MAX && Max(a.y, b.y) - Min(a.y, b.y) < U16_MAX
  }

  /** The area of two corners holds both, measures `|dx| + 1` by `|dy| + 1`,
      and lies inside every rectangle that holds both corners. */
  lemma AreaEncloses(a: Position2D, b: Position2D)
    requires SpanFits(a, b)
    ensures Area(a, b).Contains(a) && Area(a, b).Contains(b)
    ensures Area(a, b).dim.w == Max(a.x, b.x) - Min(a.x, b.x) + 1
    ensures Area(a, b).dim.h == Max(a.y, b.y) - Min(a.y, b.y) + 1
    ensures forall c: Bounds, q :: c.Contains(a) && c.Contains(b) && Area(a, b).Contains(q) ==> c.Contains(q)
  {
  }

  /** One column of `area_texels`: x fixed, y running down `h` cells. */
  function Column(x: int, top: int, h: nat): (r: seq<Position2D>)
    ensures |r| == h
  {
    seq(h, j requires 0 <= j < h => Position2D(x, top + j))
  }

  /** The list `area_texels` builds: column after column, each top to bottom. */
  function Columns(p: Position2D, w: nat, h: nat): (r: seq<Position2D>)
  {
    if w == 0 then [] else Columns(p, w - 1, h) + Column(p.x + w - 1, p.y, h)
  }

  /** `Position2D::area_texels`: every cell of the `dim` rectangle at `p`, x in
      the outer loop and y in the inner one. */
  method AreaTexels(p: Position2D, dim: Dimension) returns (result: seq<Position2D>)
    ensures result == Columns(p, dim.w, dim.h)
  {
    result := [];
    var x := p.x;
    while x < p.x + dim.w
      invariant p.x <= x <= p.x + dim.w
      invariant result == Columns(p, x - p.x, dim.h)
    {
      var y := p.y;
      while y < p.y + dim.h
        invariant p.y <= y <= p.y + dim.h
        invariant result == Columns(p, x - p.x, dim.h) + Column(x, p.y, y - p.y)
      {
        result := result + [Position2D(x, y)];
        assert Column(x, p.y, y + 1 - p.y) == Column(x, p.y, y - p.y) + [Position2D(x, y)];
        y := y + 1;
      }
      x := x + 1;
    }
  }

  /** `area_texels` lists `w * h` cells, exactly those of the rectangle. */
  lemma {:induction false} ColumnsAreContents(p: Position2D, w: u16, h: u16, q: Position2D)
    ensures |Columns(p, w, h)| == w * h
    ensures q in Columns(p, w, h) <==> Binding(p, Dimension(w, h)).Contains(q)
  {
    if w > 0 {
      ColumnsAreContents(p, w - 1, h, q);
      var col := Column(p.x + w - 1, p.y, h);
      if q in col {
        var j :| 0 <= j < h && col[j] == q;
      }
      if q.x == p.x + w - 1 && p.y <= q.y < p.y + h {
        assert col[q.y - p.y] == q;
      }
    }
  }
}
