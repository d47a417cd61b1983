/** Integer points in space (`Position`) and in the plane (`Position2D`) with
    their arithmetic. Coordinates are unbounded integers: the i32 overflow of
    the original is outside the model. */
module Coordinates {

  /** 3D position; z orders sprites in a scene. */
  datatype Position = Position(x: int, y: int, z: int) {

    /** `Position + Position2D`: moves in the plane, keeps z. */
    function Plus2D(d: Position2D): (r: Position)
      ensures r.z == z && r.Flat() == Flat().Plus(d)
    {
      Position(x + d.x, y + d.y, z)
    }

    /** `Position + i32`: adds the same amount to x and y, keeps z. */
    function PlusScalar(c: int): (r: Position)
      ensures r == Plus2D(Position2D(c, c))
    {
      Position(x + c, y + c, z)
    }

    /** Componentwise 3D difference. */
    function Minus(o: Position): (r: Position)
      ensures r.Plus2D(o.Flat()).Flat() == Flat() && r.z + o.z == z
    {
      Position(x - o.x, y - o.y, z - o.z)
    }

    /** `From<Position> for Position2D`: drops z. */
    function Flat(): Position2D
    {
      Position2D(x, y)
    }
  }

  /** 2D position. */
  datatype Position2D = Position2D(x: int, y: int) {

    function Plus(o: Position2D): (r: Position2D)
      ensures r.x - o.x == x && r.y - o.y == y
    {
      Position2D(x + o.x, y + o.y)
    }

    function Minus(o: Position2D): (r: Position2D)
      ensures r.x + o.x == x && r.y + o.y == y
    {
      Position2D(x - o.x, y - o.y)
    }

    /** `Position2D - Position`: z of the subtrahend is ignored. */
    function Minus3D(o: Position): (r: Position2D)
      ensures r == Minus(o.Flat())
    {
      Position2D(x - o.x, y - o.y)
    }
  }

  /** `Position::default()` and `Position2D::default()`. */
  const Origin: Position := Position(0, 0, 0)
  const Origin2D: Position2D := Position2D(0, 0)

  /** `Position2D::from_xy`. */
  function FromXY(x: int, y: int): (r: Position2D)
    ensures r.x == x && r.y == y
  {
    Position2D(x, y)
  }

  lemma PlusMinusInverse(a: Position2D, b: Position2D)
    ensures a.Plus(b).Minus(b) == a && a.Minus(b).Plus(b) == a
  {
  }

  lemma PlusCommutes(a: Position2D, b: Position2D)
    ensures a.Plus(b) == b.Plus(a)
  {
  }

  lemma MinusOrigin(a: Position2D)
    ensures a.Minus(Origin2D) == a && a.Plus(Origin2D) == a
  {
  }
}
