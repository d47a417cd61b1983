/** The sprite: an animated picture made of frames of texels, with a current
    frame index, and the editing operations that work on it in place. */
module Sprites {
  import opened Common
  import opened Coordinates
  import opened Texels
  import opened Dimensions
  import opened Geometry
  import opened FrameEdits
  import opened Normalization

  /** The first sprite format, kept for reading old scenes. */
  datatype SpriteV1 = SpriteV1(frames: seq<Frame>, index: nat)

  /** The value of a sprite: what a scene stores and what equality compares. */
  datatype SpriteData = SpriteData(frames: seq<Frame>, index: nat, id: Option<u32>, labels: seq<string>)

  /** `From<SpriteV1> for Sprite`: the frames and the index carry over, the
      sprite gets no id and no labels. */
  function Lift(v1: SpriteV1): SpriteData
  {
    SpriteData(v1.frames, v1.index, None, [])
  }

  /** The parts of a sprite the first format can hold. */
  function Project(s: SpriteData): SpriteV1
  {
    SpriteV1(s.frames, s.index)
  }

  /** Lifting keeps everything the old sprite had and adds nothing else. */
  lemma LiftRoundTrip(v1: SpriteV1)
    ensures Project(Lift(v1)) == v1
    ensures Lift(v1).id.None? && Lift(v1).labels == []
    ensures Lift(Project(Lift(v1))) == Lift(v1)
  {
  }

  /** The new index and the value `apply_frame_change(which)` returns on a
      sprite of `count` frames; a failed `set_frame` leaves the index alone. */
  function FrameChange(index: nat, count: nat, which: Which<nat>): (nat, nat)
  {
    match which
    case All => (index, index)
    case Next => if index + 1 < count then (index + 1, index + 1) else (index, Max(count, 1) - 1)
    case Previous =>
      var target := Max(index, 1) - 1;
      if target < count then (target, target) else (index, 0)
    case At(i) => if i < count then (i, i) else (index, index)
  }

  /** From a valid index every change keeps the index valid and returns it;
      `All`, an out-of-range `At` and `Next` on the last frame do not move. */
  lemma FrameChangeStaysValid(index: nat, count: nat, which: Which<nat>)
    requires index < count
    ensures FrameChange(index, count, which).0 < count
    ensures FrameChange(index, count, which).1 == FrameChange(index, count, which).0
    ensures which.All? ==> FrameChange(index, count, which).0 == index
    ensures which.At? && which.at >= count ==> FrameChange(index, count, which).0 == index
    ensures which.Next? && index == count - 1 ==> FrameChange(index, count, which).0 == index
  {
  }

  /** `Previous` undoes a successful `Next`. */
  lemma NextThenPrevious(index: nat, count: nat)
    requires index + 1 < count
    ensures FrameChange(FrameChange(index, count, Next).0, count, Previous).0 == index
  {
  }

  /** The frames after `new_frame` at index `i`: the current frame doubled. */
  function InsertCopy(frames: seq<Frame>, i: nat): seq<Frame>
    requires i < |frames|
  {
    frames[..i] + [frames[i]] + frames[i..]
  }

  lemma InsertCopyShape(frames: seq<Frame>, i: nat)
    requires i < |frames|
    ensures var r := InsertCopy(frames, i);
      |r| == |frames| + 1 && r[i] == frames[i] && r[i + 1] == frames[i] &&
      r[..i] == frames[..i] && r[i + 1..] == frames[i..]
  {
    var r := InsertCopy(frames, i);
    assert r[i + 1..] == frames[i..];
  }

  /** The frames after `delete_frame` at index `i`. */
  function RemoveAt(frames: seq<Frame>, i: nat): seq<Frame>
    requires i < |frames|
  {
    frames[..i] + frames[i + 1..]
  }

  /** Deleting the current frame from a sprite with more than one frame
      leaves the index `max(i, 1) - 1` valid, and the other frames in order. */
  lemma RemoveAtShape(frames: seq<Frame>, i: nat)
    requires 1 < |frames| && i < |frames|
    ensures var r := RemoveAt(frames, i);
      |r| == |frames| - 1 && Max(i, 1) - 1 < |r| &&
      r[..i] == frames[..i] && r[i..] == frames[i + 1..]
  {
  }

  /** A frame with each texel re-expressed relative to `d`, computed as the
      in-place loop of `calculate_bounds` does it: only a non-zero component
      is subtracted. */
  method ShiftFrameLoop(f: Frame, minX: int, minY: int) returns (nf: Frame)
    ensures nf == ShiftFrame(f, Position2D(minX, minY))
  {
    nf := [];
    for j := 0 to |f|
      invariant |nf| == j
      invariant forall m :: 0 <= m < j ==> nf[m] == f[m].MovedFrom(Position2D(minX, minY))
    {
      var t := f[j];
      if minX != 0 {
        t := t.(pos := t.pos.(x := t.pos.x - minX));
      }
      if minY != 0 {
        t := t.(pos := t.pos.(y := t.pos.y - minY));
      }
      nf := nf + [t];
    }
  }

  /** The loop of `apply_color` over the cells `ps`: recolours the first
      texel found at each cell and collects a blank for each cell where none
      is found; `changed` is set at every cell. */
  method ColorCells(original: Frame, ps: seq<Position2D>, cm: ColorMode, color: u8)
    returns (cur: Frame, newTexels: Frame, changed: bool)
    ensures cur == ColorPass(original, ps, cm, color)
    ensures newTexels == Missing(original, ps, cm, color)
    ensures changed <==> |ps| > 0
  {
    changed := false;
    newTexels := [];
    cur := original;
    for k := 0 to |ps|
      invariant cur == ColorPass(original, ps[..k], cm, color)
      invariant newTexels == Missing(original, ps[..k], cm, color)
      invariant changed <==> k > 0
    {
      var p := ps[k];
      ColorCellsStep(original, ps, k, cm, color);
      match FindAt(cur, p) {
        case Some(i) =>
          cur := cur[i := Recolor(cur[i], cm, color)];
          changed := true;
        case None =>
          newTexels := newTexels + [Background(p, cm, color)];
          changed := true;
      }
    }
    assert ps[..|ps|] == ps;
  }

  /** Proof helper for the loop of `ColorCells`, one more cell: the search in the frame
      recoloured so far finds the same index as in the original frame. */
  lemma ColorCellsStep(original: Frame, ps: seq<Position2D>, k: nat, cm: ColorMode, color: u8)
    requires k < |ps|
    ensures var cur := ColorPass(original, ps[..k], cm, color);
      ColorPass(original, ps[..k + 1], cm, color) == ColorStep(cur, ps[k], cm, color) &&
      Missing(original, ps[..k + 1], cm, color) ==
        Missing(original, ps[..k], cm, color) + (if FindAt(cur, ps[k]).None? then [Background(ps[k], cm, color)] else [])
  {
    assert ps[..k + 1][..k] == ps[..k];
    FindAtSamePositions(original, ColorPass(original, ps[..k], cm, color), ps[k]);
  }

  class Sprite {
    /** The frames; each is a list of texels. */
    var frames: seq<Frame>
    /** The current frame. */
    var index: nat
    /** Optional number identifying the sprite in a scene. */
    var id: Option<u32>
    /** Labels grouping sprites in a scene. */
    var labels: seq<string>

    /** The sprite as a value. */
    function Data(): SpriteData
      reads this
    {
      SpriteData(frames, index, id, labels)
    }

    /** The current index names a frame. */
    predicate Valid()
      reads this
    {
      index < |frames|
    }

    /** `Sprite::default()`: one empty frame. */
    constructor Default()
      ensures Data() == SpriteData([[]], 0, None, [])
      ensures Valid()
    {
      frames := [[]];
      index := 0;
      id := None;
      labels := [];
    }

    /** `Sprite::from_texels`: a single frame holding `texels`. */
    constructor FromTexels(texels: Frame)
      ensures Data() == SpriteData([texels], 0, None, [])
      ensures Valid()
    {
      frames := [texels];
      index := 0;
      id := None;
      labels := [];
    }

    /** `Sprite::is_empty`: true when no frame holds a texel. */
    function IsEmpty(): (r: bool)
      reads this
      ensures r <==> Flatten(frames) == []
    {
      NoTexelsIffFlattenEmpty(frames);
      NoTexels(frames)
    }

    /** `set_frame`: moves to `i` when it is a valid index, otherwise reports
        failure and leaves the index as it was. */
    method SetFrame(i: nat) returns (r: Option<nat>)
      modifies this`index
      ensures i < |frames| ==> r == Some(i) && index == i
      ensures i >= |frames| ==> r.None? && index == old(index)
      ensures old(Valid()) ==> Valid()
    {
      if i >= |frames| {
        return None;
      }
      index := i;
      r := Some(index);
    }

    /** `apply_frame_change`. */
    method ApplyFrameChange(which: Which<nat>) returns (r: nat)
      modifies this`index
      ensures (index, r) == FrameChange(old(index), |frames|, which)
      ensures old(Valid()) ==> Valid()
    {
      if index < |frames| {
        FrameChangeStaysValid(index, |frames|, which);
      }
      match which {
        case All =>
          r := index;
        case Next =>
          var res := SetFrame(index + 1);
          r := if res.Some? then res.value else Max(|frames|, 1) - 1;
        case Previous =>
          var res := SetFrame(Max(index, 1) - 1);
          r := if res.Some? then res.value else 0;
        case At(i) =>
          var res := SetFrame(i);
          r := if res.Some? then res.value else index;
      }
    }

    /** `new_frame`: inserts a copy of the current frame and moves to it. */
    method NewFrame()
      requires index < |frames|
      modifies this`frames, this`index
      ensures frames == InsertCopy(old(frames), old(index))
      ensures index == old(index) + 1
      ensures Valid()
    {
      frames := frames[..index] + [frames[index]] + frames[index..];
      var _ := ApplyFrameChange(Next);
    }

    /** `delete_frame`: removes the current frame unless it is the only one. */
    method DeleteFrame() returns (deleted: bool)
      requires |frames| > 1 ==> index < |frames|
      modifies this`frames, this`index
      ensures deleted <==> |old(frames)| > 1
      ensures deleted ==> frames == RemoveAt(old(frames), old(index)) && index == Max(old(index), 1) - 1
      ensures !deleted ==> frames == old(frames) && index == old(index)
      ensures old(Valid()) ==> Valid()
    {
      if |frames| > 1 {
        frames := frames[..index] + frames[index + 1..];
        var _ := ApplyFrameChange(Previous);
        deleted := true;
      } else {
        deleted := false;
      }
    }

    /** `copy_area`: the current-frame texels inside `area`, relative to its
        corner; nothing changes. */
    method CopyArea(area: Bounds) returns (result: Frame)
      requires index < |frames|
      ensures result == Copied(frames[index], area)
    {
      var f := frames[index];
      result := [];
      for k := 0 to |f|
        invariant result == Copied(f[..k], area)
      {
        assert f[..k + 1][..k] == f[..k];
        if area.Contains(f[k].pos) {
          result := result + [f[k].MovedFrom(area.pos)];
        }
      }
      assert f[..|f|] == f;
    }

    /** `calculate_bounds`: moves every texel of every frame so the top-left
        corner of the sprite is (0, 0), and returns the old corner with the
        new extent. */
    method CalculateBounds() returns (b: Bounds)
      modifies this`frames
      ensures frames == Normalized(old(frames))
      ensures b == BoundsOf(old(frames))
      ensures |frames| == |old(frames)|
    {
      if IsEmpty() {
        NoTexelsIffFlattenEmpty(frames);
        return Empty();
      }
      NoTexelsIffFlattenEmpty(frames);
      var all := Flatten(frames);
      var minX, minY := I32_MAX, I32_MAX;
      for k := 0 to |all|
        invariant minX == MinX(all[..k]) && minY == MinY(all[..k])
      {
        assert all[..k + 1][..k] == all[..k];
        var t := all[k];
        if t.pos.x < minX {
          minX := t.pos.x;
        }
        if t.pos.y < minY {
          minY := t.pos.y;
        }
      }
      assert all[..|all|] == all;
      ghost var corner := Position2D(minX, minY);
      assert corner == Corner(old(frames));
      if minX != 0 || minY != 0 {
        var fi := 0;
        while fi < |frames|
          invariant 0 <= fi <= |frames| == |old(frames)|
          invariant forall i :: 0 <= i < fi ==> frames[i] == ShiftFrame(old(frames)[i], corner)
          invariant forall i :: fi <= i < |frames| ==> frames[i] == old(frames)[i]
        {
          var nf := ShiftFrameLoop(frames[fi], minX, minY);
          frames := frames[fi := nf];
          fi := fi + 1;
        }
        assert frames == Shift(old(frames), corner);
      } else {
        ShiftZero(frames);
      }
      var d := ForSprite(frames);
      b := Free(Position2D(minX, minY), d);
    }

    /** `apply_symbol`: the texels inside `area` are replaced by fresh texels
        with the given symbol and colours, one per cell; then the bounds are
        recomputed. */
    method ApplySymbol(symbol: char, bg: u8, fg: u8, area: Bounds) returns (b: Bounds)
      requires index < |frames| && area.dim.SizeFits()
      modifies this`frames
      ensures frames == Normalized(old(frames)[old(index) := Symbolled(old(frames)[old(index)], area, symbol, bg, fg)])
      ensures b == BoundsOf(old(frames)[old(index) := Symbolled(old(frames)[old(index)], area, symbol, bg, fg)])
      ensures Valid()
    {
      var kept := Outside(frames[index], area);
      var ps := Collect(area);
      var cur := kept;
      for k := 0 to |ps|
        invariant cur == kept + Painted(ps[..k], symbol, bg, fg)
      {
        assert Painted(ps[..k + 1], symbol, bg, fg) == Painted(ps[..k], symbol, bg, fg) + [Texel(ps[k], symbol, {}, fg, bg)];
        cur := cur + [Texel(ps[k], symbol, {}, fg, bg)];
      }
      assert ps[..|ps|] == ps;
      frames := frames[index := cur];
      b := CalculateBounds();
    }

    /** `apply_texels`: each texel, moved by `pos`, overwrites the first
        texel at its cell or is appended; then the bounds are recomputed. */
    method ApplyTexels(texels: Frame, pos: Position2D) returns (b: Bounds)
      requires index < |frames|
      modifies this`frames
      ensures frames == Normalized(old(frames)[old(index) := PlaceAll(old(frames)[old(index)], texels, pos)])
      ensures b == BoundsOf(old(frames)[old(index) := PlaceAll(old(frames)[old(index)], texels, pos)])
      ensures Valid()
    {
      var cur := frames[index];
      for k := 0 to |texels|
        invariant cur == PlaceAll(old(frames)[index], texels[..k], pos)
      {
        assert texels[..k + 1][..k] == texels[..k];
        var localized := texels[k];
        localized := localized.(pos := localized.pos.Plus(pos));
        match FindAt(cur, localized.pos) {
          case Some(i) =>
            cur := cur[i := localized];
          case None =>
            cur := cur + [localized];
        }
      }
      assert texels[..|texels|] == texels;
      frames := frames[index := cur];
      b := CalculateBounds();
    }

    /** `apply_color`: every cell of `area` gets the colour in channel `cm`,
        on the texel found there or on a blank texel added for it; then the
        blanks are applied, which recomputes the bounds. Reports whether the
        area had any cell. */
    method ApplyColor(cm: ColorMode, color: u8, area: Bounds) returns (changed: bool)
      requires index < |frames| && area.dim.SizeFits()
      modifies this`frames
      ensures frames == Normalized(old(frames)[old(index) := Colored(old(frames)[old(index)], area, cm, color)])
      ensures changed <==> area.Size() > 0
      ensures Valid()
    {
      var original := frames[index];
      var ps := Collect(area);
      var cur, newTexels;
      cur, newTexels, changed := ColorCells(original, ps, cm, color);
      ghost var target := Colored(original, area, cm, color);
      assert PlaceAll(cur, newTexels, Origin2D) == target;
      UpdateTwice(frames, index, cur, target);
      frames := frames[index := cur];
      var _ := ApplyTexels(newTexels, Origin2D);
    }

    /** `apply_style`: flips `style` on every current-frame texel inside
        `area`; no bounds are recomputed. Reports whether any texel was
        inside. */
    method ApplyStyle(style: SymbolStyle, area: Bounds) returns (changed: bool)
      requires index < |frames|
      modifies this`frames
      ensures frames == old(frames)[index := StyleToggled(old(frames)[index], area, style)]
      ensures changed <==> exists t :: t in old(frames)[index] && area.Contains(t.pos)
      ensures Valid()
    {
      changed := false;
      var f := frames[index];
      var out := f;
      for k := 0 to |f|
        invariant |out| == |f|
        invariant forall m :: 0 <= m < k ==> out[m] == StyleToggled(f, area, style)[m]
        invariant forall m :: k <= m < |f| ==> out[m] == f[m]
        invariant changed <==> exists m :: 0 <= m < k && area.Contains(f[m].pos)
      {
        if area.Contains(f[k].pos) {
          out := out[k := f[k].(styles := Toggle(f[k].styles, style))];
          changed := true;
        }
      }
      assert out == StyleToggled(f, area, style);
      frames := frames[index := out];
    }

    /** `clear_symbol`: removes the current-frame texels inside `area`; when
        that removed something the bounds are recomputed and returned. */
    method ClearSymbol(area: Bounds) returns (r: Option<Bounds>)
      requires index < |frames|
      modifies this`frames
      ensures r.None? <==> forall t :: t in old(frames)[index] ==> !area.Contains(t.pos)
      ensures r.None? ==> frames == old(frames)
      ensures r.Some? ==> frames == Normalized(old(frames)[index := Outside(old(frames)[index], area)])
      ensures r.Some? ==> r.value == BoundsOf(old(frames)[index := Outside(old(frames)[index], area)])
      ensures Valid()
    {
      var count := |frames[index]|;
      OutsideLength(frames[index], area);
      if forall t :: t in frames[index] ==> !area.Contains(t.pos) {
        OutsideNothingInside(frames[index], area);
      }
      frames := frames[index := Outside(frames[index], area)];
      if count != |frames[index]| {
        var b := CalculateBounds();
        return Some(b);
      }
      r := None;
    }

    /** `fill_color` as written: recomputes the bounds, then colours the
        area they describe. That area is anchored at the corner the texels
        were just moved away from. */
    method FillColor(cm: ColorMode, color: u8) returns (changed: bool)
      requires index < |frames| && BoundsOf(frames).dim.SizeFits()
      modifies this`frames
      ensures var n := Normalized(old(frames));
        frames == Normalized(n[old(index) := Colored(n[old(index)], BoundsOf(old(frames)), cm, color)])
      ensures changed <==> BoundsOf(old(frames)).Size() > 0
      ensures Valid()
    {
      var bounds := CalculateBounds();
      changed := ApplyColor(cm, color, bounds);
    }

    /** `fill_style` as written: recomputes the bounds, then toggles the
        style inside them, with the same misplaced anchor. */
    method FillStyle(style: SymbolStyle) returns (changed: bool)
      requires index < |frames|
      modifies this`frames
      ensures var n := Normalized(old(frames));
        frames == n[old(index) := StyleToggled(n[old(index)], BoundsOf(old(frames)), style)]
      ensures changed <==> exists t :: t in Normalized(old(frames))[old(index)] && BoundsOf(old(frames)).Contains(t.pos)
      ensures Valid()
    {
      var bounds := CalculateBounds();
      changed := ApplyStyle(style, bounds);
    }

    /** `fill_color` with the area taken in the sprite's new coordinates. */
    method FillColorAnchored(cm: ColorMode, color: u8) returns (changed: bool)
      requires index < |frames| && BoundsOf(frames).dim.SizeFits()
      modifies this`frames
      ensures var n := Normalized(old(frames));
        frames == Normalized(n[old(index) := Colored(n[old(index)], Free(Origin2D, BoundsOf(old(frames)).dim), cm, color)])
      ensures changed <==> BoundsOf(old(frames)).Size() > 0
      ensures Valid()
    {
      var bounds := CalculateBounds();
      changed := ApplyColor(cm, color, Free(Origin2D, bounds.dim));
    }

    /** `fill_style` with the area taken in the sprite's new coordinates. */
    method FillStyleAnchored(style: SymbolStyle) returns (changed: bool)
      requires index < |frames|
      modifies this`frames
      ensures var n := Normalized(old(frames));
        frames == n[old(index) := StyleToggled(n[old(index)], Free(Origin2D, BoundsOf(old(frames)).dim), style)]
      ensures changed <==> exists t :: t in Normalized(old(frames))[old(index)] && Free(Origin2D, BoundsOf(old(frames)).dim).Contains(t.pos)
      ensures Valid()
    {
      var bounds := CalculateBounds();
      changed := ApplyStyle(style, Free(Origin2D, bounds.dim));
    }
  }

  /** Proof helper for `ApplyColor`: a second write to the same frame hides
      the first. */
  lemma UpdateTwice(frames: seq<Frame>, i: nat, a: Frame, b: Frame)
    requires i < |frames|
    ensures frames[i := a][i := b] == frames[i := b]
  {
  }

  // ----- fill_color and fill_style -----

  /** After `calculate_bounds` every texel of every frame lies inside the
      returned extent placed at the origin, when that extent fits in 16 bits. */
  lemma NormalizedInsideExtent(frames: seq<Frame>, i: nat, u: Texel)
    requires CoordsInRange(frames) && i < |frames|
    requires MaxX(Flatten(Normalized(frames))) < U16_MAX && MaxY(Flatten(Normalized(frames))) < U16_MAX
    requires u in Normalized(frames)[i]
    ensures Free(Origin2D, BoundsOf(frames).dim).Contains(u.pos)
  {
    var n := Normalized(frames);
    FlattenMember(n, u);
    NormalizedAtOrigin(frames);
    ForSpriteEncloses(n);
  }

  /** Corrected `fill_style`: with the area at the origin, every texel of the
      current frame has the style flipped, and the result is true exactly
      when the frame has a texel. */
  lemma FillStyleAnchoredTogglesAll(frames: seq<Frame>, i: nat, style: SymbolStyle)
    requires CoordsInRange(frames) && i < |frames|
    requires MaxX(Flatten(Normalized(frames))) < U16_MAX && MaxY(Flatten(Normalized(frames))) < U16_MAX
    ensures var f := Normalized(frames)[i];
      StyleToggled(f, Free(Origin2D, BoundsOf(frames).dim), style) ==
      seq(|f|, k requires 0 <= k < |f| => f[k].(styles := Toggle(f[k].styles, style)))
    ensures var f := Normalized(frames)[i];
      (exists t :: t in f && Free(Origin2D, BoundsOf(frames).dim).Contains(t.pos)) <==> f != []
  {
    var f := Normalized(frames)[i];
    var area := Free(Origin2D, BoundsOf(frames).dim);
    forall k | 0 <= k < |f|
      ensures area.Contains(f[k].pos)
    {
      NormalizedInsideExtent(frames, i, f[k]);
    }
    if f != [] {
      assert f[0] in f && area.Contains(f[0].pos);
    }
  }

  /** Corrected `fill_color`: with the area at the origin, every texel of
      the current frame is found recoloured, its symbol and styles kept. */
  lemma FillColorAnchoredCoversAll(frames: seq<Frame>, i: nat, cm: ColorMode, color: u8, u: Texel)
    requires CoordsInRange(frames) && i < |frames| && BoundsOf(frames).dim.SizeFits()
    requires MaxX(Flatten(Normalized(frames))) < U16_MAX && MaxY(Flatten(Normalized(frames))) < U16_MAX
    requires u in Normalized(frames)[i]
    ensures var f := Normalized(frames)[i];
      TexelAt(Colored(f, Free(Origin2D, BoundsOf(frames).dim), cm, color), u.pos) ==
      Some(Recolor(TexelAt(f, u.pos).value, cm, color))
  {
    NormalizedInsideExtent(frames, i, u);
    ColoredAt(Normalized(frames)[i], Free(Origin2D, BoundsOf(frames).dim), cm, color, u.pos);
  }

  /** `fill_style` as written on a sprite whose only texel is not in column
      0, for instance at (1, 0): the texel is moved to the origin but the
      style is applied at its old cell, so nothing is toggled and the call
      reports false. */
  lemma FillStyleMissesTexel(t: Texel, style: SymbolStyle)
    requires 0 < t.pos.x <= I32_MAX && t.pos.y <= I32_MAX
    ensures Normalized([[t]]) == [[t.(pos := Origin2D)]]
    ensures StyleToggled([t.(pos := Origin2D)], BoundsOf([[t]]), style) == [t.(pos := Origin2D)]
    ensures !exists u :: u in [t.(pos := Origin2D)] && BoundsOf([[t]]).Contains(u.pos)
  {
    NormalizeSingle(t);
    var u := t.(pos := Origin2D);
    assert StyleToggled([u], BoundsOf([[t]]), style)[0] == u;
  }

  /** `fill_color` as written on the same sprites: the texel keeps its
      colour and a blank texel carrying the colour is added at the texel's
      old cell. */
  lemma FillColorMissesTexel(t: Texel, cm: ColorMode, color: u8)
    requires 0 < t.pos.x <= I32_MAX && t.pos.y <= I32_MAX
    ensures Normalized([[t]]) == [[t.(pos := Origin2D)]]
    ensures BoundsOf([[t]]).dim.SizeFits()
    ensures TexelAt(Colored([t.(pos := Origin2D)], BoundsOf([[t]]), cm, color), Origin2D) == Some(t.(pos := Origin2D))
    ensures TexelAt(Colored([t.(pos := Origin2D)], BoundsOf([[t]]), cm, color), t.pos) == Some(Background(t.pos, cm, color))
  {
    NormalizeSingle(t);
    ColorMissesCell(t.(pos := Origin2D), t.pos, cm, color);
  }

  /** Proof helper for `FillColorMissesTexel`: colouring the single cell
      `p`, off the origin, of a frame whose only texel sits at the origin
      adds a blank at `p` and leaves the texel. */
  lemma ColorMissesCell(u: Texel, p: Position2D, cm: ColorMode, color: u8)
    requires u.pos == Origin2D && p.x > 0
    ensures var area := Free(p, Dimension(1, 1));
      area.dim.SizeFits() &&
      TexelAt(Colored([u], area, cm, color), Origin2D) == Some(u) &&
      TexelAt(Colored([u], area, cm, color), p) == Some(Background(p, cm, color))
  {
    var area := Free(p, Dimension(1, 1));
    ColoredAt([u], area, cm, color, Origin2D);
    ColoredAt([u], area, cm, color, p);
    assert TexelAt([u], p).None?;
  }
}
