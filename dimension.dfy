/** Width and height of an area, each an unsigned 16-bit number. */
module Dimensions {
  import opened Common
  import opened Coordinates
  import opened Texels

  datatype Dimension = Dimension(w: u16, h: u16) {

    /** Subtraction that stops at 0 in each axis separately. */
    function Minus(o: Dimension): (r: Dimension)
      ensures o.w <= w ==> r.w + o.w == w
      ensures o.w > w ==> r.w == 0
      ensures o.h <= h ==> r.h + o.h == h
      ensures o.h > h ==> r.h == 0
    {
      Dimension(if o.w > w then 0 else w - o.w, if o.h > h then 0 else h - o.h)
    }

    /** The number of unit cells, `w * h`. The original multiplies in 16 bits,
        so the product must stay below 2^16. */
    function Size(): (n: nat)
      requires SizeFits()
      ensures n < 0x1_0000
      ensures n == 0 <==> w == 0 || h == 0
    {
      w * h
    }

    predicate SizeFits()
    {
      w * h < 0x1_0000
    }
  }

  /** `Dimension::default()`. */
  const Zero: Dimension := Dimension(0, 0)

  /** The dimension of a single cell. */
  function Unit(): (d: Dimension)
    ensures d.SizeFits() && d.Size() == 1
  {
    Dimension(1, 1)
  }

  /** `Dimension::from_wh`. */
  function FromWH(w: u16, h: u16): (d: Dimension)
    ensures d.w == w && d.h == h
  {
    Dimension(w, h)
  }

  /** Rust's `as u16` on a signed value: keeps the low 16 bits. */
  function AsU16(v: int): (r: u16)
    ensures 0 <= v <= U16_MAX ==> r == v
  {
    v % 0x1_0000
  }

  /** The dimension spanned by two corners, both included. */
  function ForArea(topLeft: Position2D, bottomRight: Position2D): (d: Dimension)
    ensures 0 <= bottomRight.x - topLeft.x < U16_MAX ==> d.w == bottomRight.x - topLeft.x + 1
    ensures 0 <= bottomRight.y - topLeft.y < U16_MAX ==> d.h == bottomRight.y - topLeft.y + 1
  {
    Dimension(AsU16(bottomRight.x - topLeft.x + 1), AsU16(bottomRight.y - topLeft.y + 1))
  }

  lemma ForAreaSamePoint(p: Position2D)
    ensures ForArea(p, p) == Unit()
  {
  }

  /** A span of exactly 2^16 wraps to 0 in the 16-bit cast. */
  lemma ForAreaWraps(p: Position2D)
    ensures ForArea(p, Position2D(p.x + U16_MAX, p.y)).w == 0
  {
  }

  /** The fold `for_sprite` runs over every texel: the largest x seen,
      starting from 0. */
  function MaxX(ts: Frame): int
  {
    if ts == [] then 0
    else
      var m := MaxX(ts[..|ts| - 1]);
      if ts[|ts| - 1].pos.x > m then ts[|ts| - 1].pos.x else m
  }

  function MaxY(ts: Frame): int
  {
    if ts == [] then 0
    else
      var m := MaxY(ts[..|ts| - 1]);
      if ts[|ts| - 1].pos.y > m then ts[|ts| - 1].pos.y else m
  }

  /** `u16::try_from`, with 0 on failure. */
  function TryU16(v: int): (r: u16)
    ensures 0 <= v <= U16_MAX ==> r == v
    ensures !(0 <= v <= U16_MAX) ==> r == 0
  {
    if 0 <= v <= U16_MAX then v else 0
  }

  /** What `Dimension::for_sprite` computes from the frames of a sprite. */
  function SpriteExtent(frames: seq<Frame>): Dimension
  {
    Dimension(TryU16(MaxX(Flatten(frames)) + 1), TryU16(MaxY(Flatten(frames)) + 1))
  }

  /** The smallest dimension, anchored at the origin, that encloses every
      texel of every frame; an axis that does not fit in 16 bits becomes 0. */
  method ForSprite(frames: seq<Frame>) returns (d: Dimension)
    ensures d == SpriteExtent(frames)
  {
    var all := Flatten(frames);
    var w32, h32 := 0, 0;
    for k := 0 to |all|
      invariant w32 == MaxX(all[..k]) && h32 == MaxY(all[..k])
    {
      assert all[..k + 1][..k] == all[..k];
      var t := all[k];
      if t.pos.x > w32 {
        w32 := t.pos.x;
      }
      if t.pos.y > h32 {
        h32 := t.pos.y;
      }
    }
    assert all[..|all|] == all;
    w32 := w32 + 1;
    h32 := h32 + 1;
    d := Dimension(TryU16(w32), TryU16(h32));
  }

  /** `MaxX` is `max(0, largest x)`. */
  lemma {:induction false} MaxXIsMaximum(ts: Frame)
    ensures MaxX(ts) >= 0
    ensures forall i :: 0 <= i < |ts| ==> ts[i].pos.x <= MaxX(ts)
    ensures MaxX(ts) == 0 || exists i :: 0 <= i < |ts| && ts[i].pos.x == MaxX(ts)
  {
    if ts != [] {
      var init := ts[..|ts| - 1];
      MaxXIsMaximum(init);
      assert forall i :: 0 <= i < |init| ==> init[i] == ts[i];
      if MaxX(ts) != 0 && MaxX(ts) == MaxX(init) {
        var i :| 0 <= i < |init| && init[i].pos.x == MaxX(init);
        assert ts[i].pos.x == MaxX(ts);
      }
    }
  }

  /** `MaxY` is `max(0, largest y)`. */
  lemma {:induction false} MaxYIsMaximum(ts: Frame)
    ensures MaxY(ts) >= 0
    ensures forall i :: 0 <= i < |ts| ==> ts[i].pos.y <= MaxY(ts)
    ensures MaxY(ts) == 0 || exists i :: 0 <= i < |ts| && ts[i].pos.y == MaxY(ts)
  {
    if ts != [] {
      var init := ts[..|ts| - 1];
      MaxYIsMaximum(init);
      assert forall i :: 0 <= i < |init| ==> init[i] == ts[i];
      if MaxY(ts) != 0 && MaxY(ts) == MaxY(init) {
        var i :| 0 <= i < |init| && init[i].pos.y == MaxY(init);
        assert ts[i].pos.y == MaxY(ts);
      }
    }
  }

  /** A sprite without texels has the unit extent, not an empty one. */
  lemma ForSpriteNoTexels(frames: seq<Frame>)
    requires forall i :: 0 <= i < |frames| ==> frames[i] == []
    ensures SpriteExtent(frames) == Unit()
  {
    FlattenEmpty(frames);
  }

  /** When both axes fit, every texel with non-negative coordinates lies
      strictly inside the extent, and the extent is the tightest one: some
      texel touches its right edge unless the width is 1, and likewise for
      the bottom edge. */
  lemma ForSpriteEncloses(frames: seq<Frame>)
    requires MaxX(Flatten(frames)) < U16_MAX && MaxY(Flatten(frames)) < U16_MAX
    ensures forall t :: t in Flatten(frames) ==>
      t.pos.x < SpriteExtent(frames).w && t.pos.y < SpriteExtent(frames).h
    ensures SpriteExtent(frames).w == 1 ||
      exists t :: t in Flatten(frames) && t.pos.x == SpriteExtent(frames).w - 1
    ensures SpriteExtent(frames).h == 1 ||
      exists t :: t in Flatten(frames) && t.pos.y == SpriteExtent(frames).h - 1
  {
    var all := Flatten(frames);
    MaxXIsMaximum(all);
    MaxYIsMaximum(all);
  }

  /** An axis whose largest coordinate reaches 2^16 - 1 collapses to 0. */
  lemma ForSpriteTooWide(frames: seq<Frame>, t: Texel)
    requires t in Flatten(frames) && t.pos.x >= U16_MAX
    ensures SpriteExtent(frames).w == 0
  {
    MaxXIsMaximum(Flatten(frames));
  }
}
