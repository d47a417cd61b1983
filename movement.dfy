/** Moving a position by a `Translation`, constrained by `Binding` bounds. */
module Movement {
  import opened Common
  import opened Coordinates
  import opened Dimensions
  import opened Geometry

  datatype Direction = Left | Top | Bottom | Right

  /** What a move does; `NoMove` is the original's `Translation::None`. */
  datatype Translation =
    | NoMove
    | Relative(dx: int, dy: int, dz: int)
    | Absolute(ax: int, ay: int, az: Option<int>)
    | ToEdge(dir: Direction)

  /** `Translation::default()`. */
  const DefaultTranslation: Translation := NoMove

  /** The position after the translation step, before any clamping. Edges
      are taken from the bounds whatever their kind. */
  function Translated(p: Position, t: Translation, b: Bounds): (q: Position)
    ensures t.NoMove? ==> q == p
    ensures t.Relative? ==> q == Position(p.x + t.dx, p.y + t.dy, p.z + t.dz)
    ensures t.Absolute? ==> q.x == t.ax && q.y == t.ay && q.z == (if t.az.Some? then t.az.value else p.z)
    ensures t.ToEdge? ==> q.z == p.z
    ensures t.ToEdge? && (t.dir.Left? || t.dir.Right?) ==> q.y == p.y
    ensures t.ToEdge? && (t.dir.Top? || t.dir.Bottom?) ==> q.x == p.x
    ensures t == ToEdge(Left) ==> q == p.(x := b.pos.x)
    ensures t == ToEdge(Right) ==> q == p.(x := b.Right())
    ensures t == ToEdge(Top) ==> q == p.(y := b.pos.y)
    ensures t == ToEdge(Bottom) ==> q == p.(y := b.Bottom())
  {
    match t
    case NoMove => p
    case Relative(dx, dy, dz) => Position(p.x + dx, p.y + dy, p.z + dz)
    case Absolute(x, y, z) => Position(x, y, if z.Some? then z.value else p.z)
    case ToEdge(dir) =>
      match dir
      case Left => p.(x := b.pos.x)
      case Top => p.(y := b.pos.y)
      case Bottom => p.(y := b.Bottom())
      case Right => p.(x := b.Right())
  }

  /** The clamp chain of `Position::apply` as written: for binding bounds it
      tests left, top, right, bottom in that order and repairs only the first
      side that is violated. */
  function Clamp(q: Position, b: Bounds): (Position, bool)
  {
    if b.Free? then (q, true)
    else if q.x < b.pos.x then (q.(x := b.pos.x), false)
    else if q.y < b.pos.y then (q.(y := b.pos.y), false)
    else if q.x > b.Right() then (q.(x := b.Right()), false)
    else if q.y > b.Bottom() then (q.(y := b.Bottom()), false)
    else (q, true)
  }

  /** Inside the closed box `[x, right] x [y, bottom]`. */
  predicate WithinEdges(q: Position, b: Bounds)
  {
    b.pos.x <= q.x <= b.Right() && b.pos.y <= q.y <= b.Bottom()
  }

  /** `Position::apply`: translates, then clamps against binding bounds.
      The result is `true` exactly when no clamp fired. */
  method Apply(p: Position, t: Translation, b: Bounds) returns (moved: Position, ok: bool)
    ensures (moved, ok) == Clamp(Translated(p, t, b), b)
    ensures ok <==> b.Free? || WithinEdges(Translated(p, t, b), b)
    ensures ok ==> moved == Translated(p, t, b)
    ensures moved.z == Translated(p, t, b).z
  {
    var x, y, z := p.x, p.y, p.z;
    match t {
      case NoMove =>
      case Relative(dx, dy, dz) =>
        x := x + dx;
        y := y + dy;
        z := z + dz;
      case Absolute(ax, ay, az) =>
        x := ax;
        y := ay;
        if az.Some? {
          z := az.value;
        }
      case ToEdge(dir) =>
        match dir {
          case Left => x := b.pos.x;
          case Top => y := b.pos.y;
          case Bottom => y := b.Bottom();
          case Right => x := b.Right();
        }
    }
    match b {
      case Binding(anchor, _) =>
        if x < anchor.x {
          x := anchor.x;
          ok := false;
        } else if y < anchor.y {
          y := anchor.y;
          ok := false;
        } else if x > b.Right() {
          x := b.Right();
          ok := false;
        } else if y > b.Bottom() {
          y := b.Bottom();
          ok := false;
        } else {
          ok := true;
        }
      case Free(_, _) =>
        ok := true;
    }
    moved := Position(x, y, z);
  }

  /** Clamping never touches z, changes at most one of x and y, and reports
      `true` exactly when it changed nothing. */
  lemma ClampTouchesOneCoordinate(q: Position, b: Bounds)
    ensures Clamp(q, b).0.z == q.z
    ensures Clamp(q, b).0.x == q.x || Clamp(q, b).0.y == q.y
    ensures Clamp(q, b).1 <==> Clamp(q, b).0 == q
  {
  }

  /** The order of the tests: left before top before right before bottom. */
  lemma ClampOrder(q: Position, b: Bounds)
    requires b.Binding?
    ensures q.x < b.pos.x ==> Clamp(q, b) == (q.(x := b.pos.x), false)
    ensures q.x >= b.pos.x && q.y < b.pos.y ==> Clamp(q, b) == (q.(y := b.pos.y), false)
    ensures q.x >= b.pos.x && q.y >= b.pos.y && q.x > b.Right() ==> Clamp(q, b) == (q.(x := b.Right()), false)
    ensures WithinEdges(q, b) ==> Clamp(q, b) == (q, true)
  {
  }

  /** Free bounds never clamp: the translated position is kept, even when a
      `ToEdge` moved it to one of their edges. */
  lemma FreeNeverClamps(p: Position, t: Translation, b: Bounds)
    requires b.Free?
    ensures Clamp(Translated(p, t, b), b) == (Translated(p, t, b), true)
  {
  }

  /** A move that violates two sides is repaired on one side only, so the
      result stays outside the bounds. */
  lemma ClampLeavesOutside()
    ensures Clamp(Position(-1, -1, 0), Binding(Position2D(0, 0), Dimension(3, 3))) == (Position(0, -1, 0), false)
    ensures !Binding(Position2D(0, 0), Dimension(3, 3)).Contains(Position2D(0, -1))
  {
  }

  /** Repair of every violated side: x and y are each pulled into range. */
  function ClampInside(q: Position, b: Bounds): (r: (Position, bool))
    ensures r.0.z == q.z
    ensures r.1 <==> b.Free? || WithinEdges(q, b)
    ensures r.1 ==> r.0 == q
    ensures b.Binding? && b.dim.w > 0 && b.dim.h > 0 ==> b.Contains(r.0.Flat())
  {
    if b.Free? then (q, true)
    else
      var x := if q.x < b.pos.x then b.pos.x else if q.x > b.Right() then b.Right() else q.x;
      var y := if q.y < b.pos.y then b.pos.y else if q.y > b.Bottom() then b.Bottom() else q.y;
      (Position(x, y, q.z), x == q.x && y == q.y)
  }

  /** The original chain and the full repair agree on the verdict, agree on
      the position whenever the move was honoured, and agree also when only
      one side was violated. */
  lemma ClampAgreement(q: Position, b: Bounds)
    ensures Clamp(q, b).1 == ClampInside(q, b).1
    ensures Clamp(q, b).1 ==> Clamp(q, b).0 == ClampInside(q, b).0
    ensures b.Binding? && b.dim.w > 0 && b.dim.h > 0 && (b.pos.x <= q.x <= b.Right() || b.pos.y <= q.y <= b.Bottom()) ==>
      Clamp(q, b) == ClampInside(q, b)
  {
  }

  /** `Position2D::apply`: runs the 3D apply at z = 0 and keeps the new x and
      y only when it reported `true`; otherwise the position does not move. */
  method Apply2D(p: Position2D, t: Translation, b: Bounds) returns (moved: Position2D, ok: bool)
    ensures ok <==> b.Free? || WithinEdges(Translated(Position(p.x, p.y, 0), t, b), b)
    ensures ok ==> moved == Translated(Position(p.x, p.y, 0), t, b).Flat()
    ensures !ok ==> moved == p
  {
    var pos3d := Position(p.x, p.y, 0);
    var result, applied := Apply(pos3d, t, b);
    if applied {
      moved := result.Flat();
      ok := true;
    } else {
      moved := p;
      ok := false;
    }
  }

  /** The planar apply gives the same answer whichever clamp the 3D apply
      used, since a clamped result is thrown away. */
  lemma Apply2DIndependentOfClamp(p: Position2D, t: Translation, b: Bounds)
    ensures var q := Translated(Position(p.x, p.y, 0), t, b);
      Clamp(q, b).1 == ClampInside(q, b).1 &&
      (Clamp(q, b).1 ==> Clamp(q, b).0.Flat() == ClampInside(q, b).0.Flat())
  {
    ClampAgreement(Translated(Position(p.x, p.y, 0), t, b), b);
  }

  /** Scenario: a move left past the edge is refused at the edge. */
  lemma ClampedMoveExample()
    ensures var b := Binding(Position2D(0, 0), Dimension(3, 3));
      Clamp(Translated(Position(0, 0, 0), Relative(-5, 0, 0), b), b) == (Position(0, 0, 0), false)
  {
  }

  /** Scenario: moving to the right edge of a 4x4 area lands on column 3. */
  lemma ToEdgeExample()
    ensures var b := Binding(Position2D(0, 0), Dimension(4, 4));
      Clamp(Translated(Position(1, 1, 0), ToEdge(Right), b), b) == (Position(3, 1, 0), true)
  {
  }
}
