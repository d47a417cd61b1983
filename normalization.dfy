/** What `calculate_bounds` does to a sprite's frames: it finds the top-left
    corner of all texels of all frames, moves every texel so that corner
    becomes (0, 0), and reports the old corner with the new extent. */
module Normalization {
  import opened Common
  import opened Coordinates
  import opened Texels
  import opened Dimensions
  import opened Geometry
  import opened FrameEdits

  /** `Sprite::is_empty`: no frames, or every frame empty. */
  predicate NoTexels(frames: seq<Frame>)
  {
    |frames| == 0 || forall i :: 0 <= i < |frames| ==> frames[i] == []
  }

  lemma NoTexelsIffFlattenEmpty(frames: seq<Frame>)
    ensures NoTexels(frames) <==> Flatten(frames) == []
  {
    FlattenEmpty(frames);
  }

  /** The running minimum of x over `ts`, starting from `i32::MAX`. */
  function MinX(ts: Frame): int
  {
    if ts == [] then I32_MAX
    else
      var m := MinX(ts[..|ts| - 1]);
      if ts[|ts| - 1].pos.x < m then ts[|ts| - 1].pos.x else m
  }

  /** The running minimum of y over `ts`, starting from `i32::MAX`. */
  function MinY(ts: Frame): int
  {
    if ts == [] then I32_MAX
    else
      var m := MinY(ts[..|ts| - 1]);
      if ts[|ts| - 1].pos.y < m then ts[|ts| - 1].pos.y else m
  }

  /** `MinX` is `min(i32::MAX, smallest x)`. */
  lemma {:induction false} MinXIsMinimum(ts: Frame)
    ensures MinX(ts) <= I32_MAX
    ensures forall i :: 0 <= i < |ts| ==> MinX(ts) <= ts[i].pos.x
    ensures MinX(ts) == I32_MAX || exists i :: 0 <= i < |ts| && ts[i].pos.x == MinX(ts)
  {
    if ts != [] {
      var init := ts[..|ts| - 1];
      MinXIsMinimum(init);
      assert forall i :: 0 <= i < |init| ==> init[i] == ts[i];
      if MinX(ts) != I32_MAX && MinX(ts) == MinX(init) {
        var i :| 0 <= i < |init| && init[i].pos.x == MinX(init);
        assert ts[i].pos.x == MinX(ts);
      }
    }
  }

  /** `MinY` is `min(i32::MAX, smallest y)`. */
  lemma {:induction false} MinYIsMinimum(ts: Frame)
    ensures MinY(ts) <= I32_MAX
    ensures forall i :: 0 <= i < |ts| ==> MinY(ts) <= ts[i].pos.y
    ensures MinY(ts) == I32_MAX || exists i :: 0 <= i < |ts| && ts[i].pos.y == MinY(ts)
  {
    if ts != [] {
      var init := ts[..|ts| - 1];
      MinYIsMinimum(init);
      assert forall i :: 0 <= i < |init| ==> init[i] == ts[i];
      if MinY(ts) != I32_MAX && MinY(ts) == MinY(init) {
        var i :| 0 <= i < |init| && init[i].pos.y == MinY(init);
        assert ts[i].pos.y == MinY(ts);
      }
    }
  }

  /** A frame whose smallest coordinate is 0 has running minimum 0. */
  lemma MinAtZero(ts: Frame, i: nat)
    requires i < |ts| && forall j :: 0 <= j < |ts| ==> ts[j].pos.x >= 0 && ts[j].pos.y >= 0
    ensures ts[i].pos.x == 0 ==> MinX(ts) == 0
    ensures ts[i].pos.y == 0 ==> MinY(ts) == 0
  {
    MinXIsMinimum(ts);
    MinYIsMinimum(ts);
  }

  /** The corner `calculate_bounds` finds. */
  function Corner(frames: seq<Frame>): Position2D
  {
    Position2D(MinX(Flatten(frames)), MinY(Flatten(frames)))
  }

  /** Every texel of a frame re-expressed relative to `d`. */
  function ShiftFrame(ts: Frame, d: Position2D): (r: Frame)
    ensures |r| == |ts|
  {
    seq(|ts|, i requires 0 <= i < |ts| => ts[i].MovedFrom(d))
  }

  function Shift(frames: seq<Frame>, d: Position2D): (r: seq<Frame>)
    ensures |r| == |frames|
  {
    seq(|frames|, i requires 0 <= i < |frames| => ShiftFrame(frames[i], d))
  }

  /** The frames after `calculate_bounds`. */
  function Normalized(frames: seq<Frame>): seq<Frame>
  {
    if NoTexels(frames) then frames else Shift(frames, Corner(frames))
  }

  /** The bounds `calculate_bounds` returns: `Bounds::empty()` for a sprite
      without texels, otherwise free bounds at the old corner with the
      extent of the re-anchored frames. */
  function BoundsOf(frames: seq<Frame>): (b: Bounds)
    ensures b.Free?
  {
    if NoTexels(frames) then Empty() else Free(Corner(frames), SpriteExtent(Normalized(frames)))
  }

  /** The returned corner is exactly the amount every texel was moved by. */
  lemma NormalizedIsShiftByCorner(frames: seq<Frame>)
    ensures Normalized(frames) == Shift(frames, BoundsOf(frames).pos)
  {
    if NoTexels(frames) {
      assert Shift(frames, Origin2D) == frames;
    }
  }

  /** Flattening and shifting commute. */
  lemma {:induction false} FlattenShift(frames: seq<Frame>, d: Position2D)
    ensures Flatten(Shift(frames, d)) == ShiftFrame(Flatten(frames), d)
  {
    if frames != [] {
      var init := frames[..|frames| - 1];
      FlattenShift(init, d);
      assert Shift(frames, d)[..|frames| - 1] == Shift(init, d);
    }
  }

  /** Coordinates the original can hold: the corner search starts from
      `i32::MAX`, so larger values would be missed. */
  predicate CoordsInRange(frames: seq<Frame>)
  {
    forall t :: t in Flatten(frames) ==> t.pos.x <= I32_MAX && t.pos.y <= I32_MAX
  }

  /** Inside a sprite with texels, the smallest coordinates are attained. */
  lemma CornerAttained(frames: seq<Frame>)
    requires !NoTexels(frames) && CoordsInRange(frames)
    ensures forall t :: t in Flatten(frames) ==> Corner(frames).x <= t.pos.x && Corner(frames).y <= t.pos.y
    ensures exists i :: 0 <= i < |Flatten(frames)| && Flatten(frames)[i].pos.x == Corner(frames).x
    ensures exists i :: 0 <= i < |Flatten(frames)| && Flatten(frames)[i].pos.y == Corner(frames).y
  {
    var all := Flatten(frames);
    NoTexelsIffFlattenEmpty(frames);
    MinXIsMinimum(all);
    MinYIsMinimum(all);
    assert all[0] in all;
    if MinX(all) == I32_MAX {
      assert all[0].pos.x == MinX(all);
    }
    if MinY(all) == I32_MAX {
      assert all[0].pos.y == MinY(all);
    }
  }

  /** After `calculate_bounds` no coordinate is negative and some texel sits
      in column 0 and some in row 0. */
  lemma NormalizedAtOrigin(frames: seq<Frame>)
    requires !NoTexels(frames) && CoordsInRange(frames)
    ensures forall t :: t in Flatten(Normalized(frames)) ==> t.pos.x >= 0 && t.pos.y >= 0
    ensures MinX(Flatten(Normalized(frames))) == 0 && MinY(Flatten(Normalized(frames))) == 0
  {
    var c := Corner(frames);
    var all := Flatten(frames);
    CornerAttained(frames);
    FlattenShift(frames, c);
    var shifted := ShiftFrame(all, c);
    assert forall j :: 0 <= j < |shifted| ==> shifted[j].pos.x >= 0 && shifted[j].pos.y >= 0 by {
      forall j | 0 <= j < |shifted|
        ensures shifted[j].pos.x >= 0 && shifted[j].pos.y >= 0
      {
        assert all[j] in all;
      }
    }
    var ix :| 0 <= ix < |all| && all[ix].pos.x == c.x;
    var iy :| 0 <= iy < |all| && all[iy].pos.y == c.y;
    MinAtZero(shifted, ix);
    MinAtZero(shifted, iy);
  }

  lemma ShiftZero(frames: seq<Frame>)
    ensures Shift(frames, Origin2D) == frames
  {
    forall i | 0 <= i < |frames|
      ensures ShiftFrame(frames[i], Origin2D) == frames[i]
    {
    }
  }

  lemma ShiftKeepsEmptiness(frames: seq<Frame>, d: Position2D)
    ensures NoTexels(Shift(frames, d)) <==> NoTexels(frames)
  {
    forall i | 0 <= i < |frames|
      ensures Shift(frames, d)[i] == [] <==> frames[i] == []
    {
      assert |Shift(frames, d)[i]| == |frames[i]|;
    }
  }

  /** Recomputing the bounds of a sprite whose bounds were just computed
      moves nothing and reports the same extent at the origin. */
  lemma NormalizedIdempotent(frames: seq<Frame>)
    requires CoordsInRange(frames)
    ensures Normalized(Normalized(frames)) == Normalized(frames)
    ensures BoundsOf(Normalized(frames)) == Free(Origin2D, BoundsOf(frames).dim)
  {
    if !NoTexels(frames) {
      var n := Normalized(frames);
      ShiftKeepsEmptiness(frames, Corner(frames));
      NormalizedAtOrigin(frames);
      assert Corner(n) == Origin2D;
      ShiftZero(n);
    }
  }

  /** Shifting keeps every frame free of stacked texels. */
  lemma ShiftDistinct(ts: Frame, d: Position2D)
    requires DistinctPositions(ts)
    ensures DistinctPositions(ShiftFrame(ts, d))
  {
    var r := ShiftFrame(ts, d);
    forall i, j | 0 <= i < j < |r|
      ensures r[i].pos != r[j].pos
    {
      PlusMinusInverse(ts[i].pos, d);
      PlusMinusInverse(ts[j].pos, d);
    }
  }

  /** In the frame's own coordinates the reported bounds enclose every texel
      of every frame, provided the extent fits in 16 bits. */
  lemma BoundsOfEncloses(frames: seq<Frame>, t: Texel)
    requires CoordsInRange(frames) && t in Flatten(frames)
    requires MaxX(Flatten(Normalized(frames))) < U16_MAX && MaxY(Flatten(Normalized(frames))) < U16_MAX
    ensures BoundsOf(frames).Contains(t.pos)
  {
    NoTexelsIffFlattenEmpty(frames);
    var c := Corner(frames);
    var all := Flatten(frames);
    FlattenShift(frames, c);
    var i :| 0 <= i < |all| && all[i] == t;
    assert ShiftFrame(all, c)[i] == t.MovedFrom(c);
    assert t.MovedFrom(c) in Flatten(Normalized(frames));
    ForSpriteEncloses(Normalized(frames));
    NormalizedAtOrigin(frames);
  }

  lemma FlattenSingle(t: Texel)
    ensures Flatten([[t]]) == [t]
  {
    assert [[t]][..0] == [];
  }

  /** A sprite of one texel is moved to (0, 0), and the bounds report the
      texel's old position with a unit extent. */
  lemma NormalizeSingle(t: Texel)
    requires t.pos.x <= I32_MAX && t.pos.y <= I32_MAX
    ensures Normalized([[t]]) == [[t.(pos := Origin2D)]]
    ensures BoundsOf([[t]]) == Free(t.pos, Dimension(1, 1))
  {
    var u := t.(pos := Origin2D);
    SingleCorner(t);
    SingleShift(t, t.pos);
    assert t.MovedFrom(t.pos) == u;
    WithTexels([[t]]);
    SingleExtent(u);
  }

  lemma WithTexels(frames: seq<Frame>)
    requires !NoTexels(frames)
    ensures Normalized(frames) == Shift(frames, Corner(frames))
    ensures BoundsOf(frames) == Free(Corner(frames), SpriteExtent(Normalized(frames)))
  {
  }

  lemma SingleCorner(t: Texel)
    requires t.pos.x <= I32_MAX && t.pos.y <= I32_MAX
    ensures !NoTexels([[t]]) && Corner([[t]]) == t.pos
  {
    FlattenSingle(t);
    assert [t][..0] == [];
    assert MinX([t]) == t.pos.x && MinY([t]) == t.pos.y;
    assert [[t]][0] != [];
  }

  lemma SingleShift(t: Texel, d: Position2D)
    ensures Shift([[t]], d) == [[t.MovedFrom(d)]]
  {
    assert ShiftFrame([t], d) == [t.MovedFrom(d)];
  }

  lemma SingleExtent(u: Texel)
    requires u.pos == Origin2D
    ensures SpriteExtent([[u]]) == Dimension(1, 1)
  {
    FlattenSingle(u);
    MaxAtOrigin(u);
  }

  lemma MaxAtOrigin(u: Texel)
    requires u.pos == Origin2D
    ensures MaxX([u]) == 0 && MaxY([u]) == 0
  {
    assert [u][..0] == [];
  }
}
