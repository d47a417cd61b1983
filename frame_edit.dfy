/** What the editing operations of a sprite do to one frame, as functions on
    the frame's texel list. The sprite's methods are proved equal to these,
    and the lemmas here say what the edits mean cell by cell. */
module FrameEdits {
  import opened Common
  import opened Coordinates
  import opened Texels
  import opened Dimensions
  import opened Geometry

  /** No two texels of the frame share a cell. */
  predicate DistinctPositions(ts: Frame)
  {
    forall i, j :: 0 <= i < j < |ts| ==> ts[i].pos != ts[j].pos
  }

  /** Index of the first texel of `ts` at `q`: what a front-to-back `find`
      on positions returns. */
  function FindAt(ts: Frame, q: Position2D): (r: Option<nat>)
    ensures r.Some? ==> r.value < |ts| && ts[r.value].pos == q
    ensures r.Some? ==> forall j :: 0 <= j < r.value ==> ts[j].pos != q
    ensures r.None? <==> forall j :: 0 <= j < |ts| ==> ts[j].pos != q
  {
    if ts == [] then None
    else if ts[0].pos == q then Some(0)
    else
      match FindAt(ts[1..], q)
      case None => None
      case Some(i) => Some(i + 1)
  }

  /** The texel a `find` at `q` sees, if any. */
  function TexelAt(ts: Frame, q: Position2D): (r: Option<Texel>)
    ensures r.Some? ==> r.value in ts && r.value.pos == q
    ensures r.None? <==> forall t :: t in ts ==> t.pos != q
  {
    match FindAt(ts, q)
    case None => None
    case Some(i) => Some(ts[i])
  }

  /** `find` only looks at positions. */
  lemma {:induction false} FindAtSamePositions(a: Frame, b: Frame, q: Position2D)
    requires |a| == |b| && forall i :: 0 <= i < |a| ==> a[i].pos == b[i].pos
    ensures FindAt(a, q) == FindAt(b, q)
  {
    if a != [] {
      FindAtSamePositions(a[1..], b[1..], q);
    }
  }

  /** Past a head at another cell, the search continues in the tail. */
  lemma TexelAtTail(ts: Frame, q: Position2D)
    requires ts != [] && ts[0].pos != q
    ensures TexelAt(ts, q) == TexelAt(ts[1..], q)
  {
    match FindAt(ts[1..], q)
    case None =>
    case Some(i) => assert ts[i + 1] == ts[1..][i];
  }

  /** In a concatenation the left part is searched first. */
  lemma {:induction false} TexelAtConcat(a: Frame, b: Frame, q: Position2D)
    ensures TexelAt(a + b, q) == if TexelAt(a, q).Some? then TexelAt(a, q) else TexelAt(b, q)
  {
    if a == [] {
      assert a + b == b;
    } else if a[0].pos != q {
      assert (a + b)[1..] == a[1..] + b;
      TexelAtConcat(a[1..], b, q);
      TexelAtTail(a + b, q);
      TexelAtTail(a, q);
    }
  }

  /** In a distinct frame a texel is the one found at its own cell. */
  lemma TexelAtDistinct(ts: Frame, i: nat)
    requires DistinctPositions(ts) && i < |ts|
    ensures TexelAt(ts, ts[i].pos) == Some(ts[i])
  {
  }

  // ----- retain: removing the texels inside an area -----

  /** The texels of `ts` lying outside `area`, in their order (`retain`). */
  function Outside(ts: Frame, area: Bounds): (r: Frame)
    ensures |r| <= |ts|
    ensures forall t :: t in r <==> t in ts && !area.Contains(t.pos)
  {
    if ts == [] then []
    else (if area.Contains(ts[0].pos) then [] else [ts[0]]) + Outside(ts[1..], area)
  }

  /** Removal with nothing inside keeps the frame. */
  lemma {:induction false} OutsideNothingInside(ts: Frame, area: Bounds)
    requires forall t :: t in ts ==> !area.Contains(t.pos)
    ensures Outside(ts, area) == ts
  {
    if ts != [] {
      assert ts[0] in ts;
      assert forall t :: t in ts[1..] ==> t in ts;
      OutsideNothingInside(ts[1..], area);
      assert ts == [ts[0]] + ts[1..];
    }
  }

  /** Removal changes the length exactly when some texel lay inside. */
  lemma {:induction false} OutsideLength(ts: Frame, area: Bounds)
    ensures |Outside(ts, area)| == |ts| <==> forall t :: t in ts ==> !area.Contains(t.pos)
  {
    if ts != [] {
      OutsideLength(ts[1..], area);
      assert forall t :: t in ts[1..] ==> t in ts;
      assert forall t :: t in ts ==> t == ts[0] || t in ts[1..];
    }
  }

  /** After removal nothing is found inside the area and everything else is
      found as before. */
  lemma {:induction false} TexelAtOutside(ts: Frame, area: Bounds, q: Position2D)
    ensures TexelAt(Outside(ts, area), q) == if area.Contains(q) then None else TexelAt(ts, q)
  {
    if ts != [] {
      TexelAtOutside(ts[1..], area, q);
      var head := if area.Contains(ts[0].pos) then [] else [ts[0]];
      TexelAtConcat(head, Outside(ts[1..], area), q);
      assert ts == [ts[0]] + ts[1..];
      TexelAtConcat([ts[0]], ts[1..], q);
    }
  }

  /** A sub-list of a distinct frame is distinct. */
  lemma {:induction false} OutsideDistinct(ts: Frame, area: Bounds)
    requires DistinctPositions(ts)
    ensures DistinctPositions(Outside(ts, area))
  {
    if ts != [] {
      OutsideDistinct(ts[1..], area);
      if !area.Contains(ts[0].pos) {
        var rest := Outside(ts[1..], area);
        forall t | t in rest
          ensures t.pos != ts[0].pos
        {
          var j :| 0 <= j < |ts[1..]| && ts[1..][j] == t;
          assert ts[j + 1] == t;
        }
      }
    }
  }

  // ----- apply_symbol -----

  /** Fresh texels, one per listed cell, with the given symbol and colours. */
  function Painted(ps: seq<Position2D>, symbol: char, bg: u8, fg: u8): (r: Frame)
    ensures |r| == |ps|
  {
    seq(|ps|, i requires 0 <= i < |ps| => Texel(ps[i], symbol, {}, fg, bg))
  }

  /** The frame after `apply_symbol`, before the sprite is re-anchored: the
      texels inside the area are dropped and the area is repainted cell by
      cell in iteration order. */
  function Symbolled(ts: Frame, area: Bounds, symbol: char, bg: u8, fg: u8): Frame
    requires area.dim.SizeFits()
  {
    Outside(ts, area) + Painted(area.Positions(), symbol, bg, fg)
  }

  lemma TexelAtPainted(ps: seq<Position2D>, symbol: char, bg: u8, fg: u8, q: Position2D)
    ensures TexelAt(Painted(ps, symbol, bg, fg), q) == if q in ps then Some(Texel(q, symbol, {}, fg, bg)) else None
  {
    var r := Painted(ps, symbol, bg, fg);
    if q in ps {
      var j :| 0 <= j < |ps| && ps[j] == q;
      assert r[j].pos == q;
    }
  }

  /** Every cell of the area now holds the new symbol with the new colours
      and no style; every other cell is as it was. */
  lemma SymbolledAt(ts: Frame, area: Bounds, symbol: char, bg: u8, fg: u8, q: Position2D)
    requires area.dim.SizeFits()
    ensures TexelAt(Symbolled(ts, area, symbol, bg, fg), q) ==
      if area.Contains(q) then Some(Texel(q, symbol, {}, fg, bg)) else TexelAt(ts, q)
  {
    TexelAtConcat(Outside(ts, area), Painted(area.Positions(), symbol, bg, fg), q);
    TexelAtOutside(ts, area, q);
    TexelAtPainted(area.Positions(), symbol, bg, fg, q);
    PositionsAreContents(area, q);
  }

  /** Repainting keeps a frame free of stacked texels. */
  lemma SymbolledDistinct(ts: Frame, area: Bounds, symbol: char, bg: u8, fg: u8)
    requires area.dim.SizeFits() && DistinctPositions(ts)
    ensures DistinctPositions(Symbolled(ts, area, symbol, bg, fg))
  {
    var a := Outside(ts, area);
    var ps := area.Positions();
    var b := Painted(ps, symbol, bg, fg);
    var r: Frame := a + b;
    OutsideDistinct(ts, area);
    forall i, j | 0 <= i < j < |r|
      ensures r[i].pos != r[j].pos
    {
      if j < |a| {
      } else if i >= |a| {
        PositionsDistinct(area, i - |a|, j - |a|);
      } else {
        assert a[i] in a;
        PositionAt(area, j - |a|);
      }
    }
  }

  // ----- apply_texels -----

  /** One step of `apply_texels`: the first texel at the same cell is
      overwritten, or the texel is appended. */
  function Place(ts: Frame, t: Texel): (r: Frame)
    ensures |r| == |ts| || r == ts + [t]
  {
    match FindAt(ts, t.pos)
    case Some(i) => ts[i := t]
    case None => ts + [t]
  }

  /** `t` translated by `off`, as `localized.pos += pos` makes it. */
  function Localized(t: Texel, off: Position2D): (r: Texel)
    ensures r.pos.Minus(off) == t.pos
    ensures r.symbol == t.symbol && r.styles == t.styles && r.fg == t.fg && r.bg == t.bg
  {
    t.(pos := t.pos.Plus(off))
  }

  /** The frame after `apply_texels(xs, off)`, before re-anchoring. */
  function PlaceAll(ts: Frame, xs: Frame, off: Position2D): Frame
  {
    if xs == [] then ts
    else Place(PlaceAll(ts, xs[..|xs| - 1], off), Localized(xs[|xs| - 1], off))
  }

  /** The last texel of `xs` that lands on `q` once translated by `off`. */
  function LastAt(xs: Frame, off: Position2D, q: Position2D): (r: Option<Texel>)
    ensures r.Some? ==> r.value.pos == q
  {
    if xs == [] then None
    else if Localized(xs[|xs| - 1], off).pos == q then Some(Localized(xs[|xs| - 1], off))
    else LastAt(xs[..|xs| - 1], off, q)
  }

  lemma TexelAtPlace(ts: Frame, t: Texel, q: Position2D)
    ensures TexelAt(Place(ts, t), q) == if q == t.pos then Some(t) else TexelAt(ts, q)
  {
    match FindAt(ts, t.pos)
    case Some(i) =>
      var r := ts[i := t];
      FindAtSamePositions(ts, r, q);
    case None =>
      TexelAtConcat(ts, [t], q);
  }

  /** After `apply_texels` a cell holds the last applied texel that landed
      on it, and cells no applied texel reaches are untouched. */
  lemma {:induction false} TexelAtPlaceAll(ts: Frame, xs: Frame, off: Position2D, q: Position2D)
    ensures TexelAt(PlaceAll(ts, xs, off), q) == if LastAt(xs, off, q).Some? then LastAt(xs, off, q) else TexelAt(ts, q)
  {
    if xs != [] {
      TexelAtPlaceAll(ts, xs[..|xs| - 1], off, q);
      TexelAtPlace(PlaceAll(ts, xs[..|xs| - 1], off), Localized(xs[|xs| - 1], off), q);
    }
  }

  lemma PlaceDistinct(ts: Frame, t: Texel)
    requires DistinctPositions(ts)
    ensures DistinctPositions(Place(ts, t))
  {
  }

  /** `apply_texels` never stacks two texels on one cell of a distinct frame. */
  lemma {:induction false} PlaceAllDistinct(ts: Frame, xs: Frame, off: Position2D)
    requires DistinctPositions(ts)
    ensures DistinctPositions(PlaceAll(ts, xs, off))
  {
    if xs != [] {
      PlaceAllDistinct(ts, xs[..|xs| - 1], off);
      PlaceDistinct(PlaceAll(ts, xs[..|xs| - 1], off), Localized(xs[|xs| - 1], off));
    }
  }

  // ----- apply_color -----

  /** Sets the channel `cm` of `t` to `color`. */
  function Recolor(t: Texel, cm: ColorMode, color: u8): (r: Texel)
    ensures r.pos == t.pos && r.symbol == t.symbol && r.styles == t.styles
    ensures cm.Bg? ==> r.bg == color && r.fg == t.fg
    ensures cm.Fg? ==> r.fg == color && r.bg == t.bg
  {
    match cm
    case Bg => t.(bg := color)
    case Fg => t.(fg := color)
  }

  /** The blank texel `apply_color` adds at an empty cell: the chosen channel
      gets the colour, the other one its default. */
  function Background(p: Position2D, cm: ColorMode, color: u8): (r: Texel)
    ensures r.pos == p && r.symbol == ' ' && r.styles == {}
    ensures cm.Bg? ==> r.bg == color && r.fg == DEFAULT_FG
    ensures cm.Fg? ==> r.fg == color && r.bg == DEFAULT_BG
  {
    match cm
    case Bg => Texel(p, ' ', {}, DEFAULT_FG, color)
    case Fg => Texel(p, ' ', {}, color, DEFAULT_BG)
  }

  /** The colour channel `cm` of `t`. */
  function Channel(t: Texel, cm: ColorMode): u8
  {
    match cm
    case Bg => t.bg
    case Fg => t.fg
  }

  /** One cell of the in-place part of `apply_color`: the first texel found
      at `p`, if any, is recoloured. */
  function ColorStep(cur: Frame, p: Position2D, cm: ColorMode, color: u8): (r: Frame)
    ensures |r| == |cur| && forall i :: 0 <= i < |cur| ==> r[i].pos == cur[i].pos
  {
    match FindAt(cur, p)
    case Some(i) => cur[i := Recolor(cur[i], cm, color)]
    case None => cur
  }

  /** The in-place part of `apply_color`, cell after cell. */
  function ColorPass(ts: Frame, ps: seq<Position2D>, cm: ColorMode, color: u8): (r: Frame)
    ensures |r| == |ts| && forall i :: 0 <= i < |ts| ==> r[i].pos == ts[i].pos
  {
    if ps == [] then ts
    else ColorStep(ColorPass(ts, ps[..|ps| - 1], cm, color), ps[|ps| - 1], cm, color)
  }

  /** The texels `apply_color` collects for the cells where nothing is found. */
  function Missing(ts: Frame, ps: seq<Position2D>, cm: ColorMode, color: u8): (r: Frame)
    ensures |r| <= |ps|
  {
    if ps == [] then []
    else
      Missing(ts, ps[..|ps| - 1], cm, color) +
      (if FindAt(ts, ps[|ps| - 1]).None? then [Background(ps[|ps| - 1], cm, color)] else [])
  }

  /** The frame after `apply_color`, before re-anchoring: the recoloured
      frame with the collected blanks applied at offset (0, 0). */
  function Colored(ts: Frame, area: Bounds, cm: ColorMode, color: u8): Frame
    requires area.dim.SizeFits()
  {
    var ps := area.Positions();
    PlaceAll(ColorPass(ts, ps, cm, color), Missing(ts, ps, cm, color), Origin2D)
  }

  lemma {:induction false} TexelAtColorPass(ts: Frame, ps: seq<Position2D>, cm: ColorMode, color: u8, q: Position2D)
    ensures TexelAt(ColorPass(ts, ps, cm, color), q) ==
      if q in ps && TexelAt(ts, q).Some? then Some(Recolor(TexelAt(ts, q).value, cm, color)) else TexelAt(ts, q)
  {
    if ps != [] {
      var init := ps[..|ps| - 1];
      var p := ps[|ps| - 1];
      var cur := ColorPass(ts, init, cm, color);
      TexelAtColorPass(ts, init, cm, color, q);
      assert q in ps <==> q in init || q == p;
      FindAtSamePositions(ts, cur, q);
      FindAtSamePositions(ts, cur, p);
      match FindAt(cur, p)
      case None =>
      case Some(i) =>
        FindAtSamePositions(cur, ColorStep(cur, p, cm, color), q);
    }
  }

  lemma LastAtSnoc(xs: Frame, t: Texel, off: Position2D, q: Position2D)
    ensures LastAt(xs + [t], off, q) == if Localized(t, off).pos == q then Some(Localized(t, off)) else LastAt(xs, off, q)
  {
    assert (xs + [t])[..|xs|] == xs;
  }

  lemma {:induction false} LastAtMissing(ts: Frame, ps: seq<Position2D>, cm: ColorMode, color: u8, q: Position2D)
    ensures LastAt(Missing(ts, ps, cm, color), Origin2D, q) ==
      if q in ps && TexelAt(ts, q).None? then Some(Background(q, cm, color)) else None
  {
    if ps != [] {
      var init := ps[..|ps| - 1];
      var p := ps[|ps| - 1];
      LastAtMissing(ts, init, cm, color, q);
      assert ps == init + [p];
      var m := Missing(ts, init, cm, color);
      if FindAt(ts, p).None? {
        var b := Background(p, cm, color);
        assert Missing(ts, ps, cm, color) == m + [b];
        LastAtSnoc(m, b, Origin2D, q);
        assert Localized(b, Origin2D) == b;
      } else {
        assert Missing(ts, ps, cm, color) == m;
        assert TexelAt(ts, p).Some?;
      }
    }
  }

  /** After `apply_color` every cell of the area holds a texel whose channel
      has the colour: the old texel recoloured, or a blank if there was none.
      Cells outside the area are untouched. */
  lemma ColoredAt(ts: Frame, area: Bounds, cm: ColorMode, color: u8, q: Position2D)
    requires area.dim.SizeFits()
    ensures !area.Contains(q) ==> TexelAt(Colored(ts, area, cm, color), q) == TexelAt(ts, q)
    ensures area.Contains(q) && TexelAt(ts, q).Some? ==>
      TexelAt(Colored(ts, area, cm, color), q) == Some(Recolor(TexelAt(ts, q).value, cm, color))
    ensures area.Contains(q) && TexelAt(ts, q).None? ==>
      TexelAt(Colored(ts, area, cm, color), q) == Some(Background(q, cm, color))
    ensures area.Contains(q) ==>
      TexelAt(Colored(ts, area, cm, color), q).Some? && Channel(TexelAt(Colored(ts, area, cm, color), q).value, cm) == color
  {
    var ps := area.Positions();
    PositionsAreContents(area, q);
    TexelAtPlaceAll(ColorPass(ts, ps, cm, color), Missing(ts, ps, cm, color), Origin2D, q);
    LastAtMissing(ts, ps, cm, color, q);
    TexelAtColorPass(ts, ps, cm, color, q);
  }

  // ----- apply_style -----

  /** The frame after `apply_style`: every texel inside the area has the
      style flipped, the others are unchanged. */
  function StyleToggled(ts: Frame, area: Bounds, style: SymbolStyle): (r: Frame)
    ensures |r| == |ts|
  {
    seq(|ts|, i requires 0 <= i < |ts| =>
      if area.Contains(ts[i].pos) then ts[i].(styles := Toggle(ts[i].styles, style)) else ts[i])
  }

  /** Applying the same style to the same area twice restores the frame. */
  lemma StyleToggledTwice(ts: Frame, area: Bounds, style: SymbolStyle)
    ensures StyleToggled(StyleToggled(ts, area, style), area, style) == ts
  {
    var r := StyleToggled(StyleToggled(ts, area, style), area, style);
    forall i | 0 <= i < |ts|
      ensures r[i] == ts[i]
    {
      ToggleInvolution(ts[i].styles, style);
    }
  }

  /** Only styles change: positions, symbols and colours stay. */
  lemma StyleToggledKeeps(ts: Frame, area: Bounds, style: SymbolStyle, i: nat)
    requires i < |ts|
    ensures var r := StyleToggled(ts, area, style);
      r[i].pos == ts[i].pos && r[i].symbol == ts[i].symbol && r[i].fg == ts[i].fg && r[i].bg == ts[i].bg
    ensures var r := StyleToggled(ts, area, style);
      area.Contains(ts[i].pos) <==> (style in r[i].styles <==> style !in ts[i].styles)
  {
  }

  // ----- copy_area -----

  /** The copy `copy_area` returns: the texels inside the area, in frame
      order, re-expressed relative to the area's corner. */
  function Copied(ts: Frame, area: Bounds): (r: Frame)
    ensures |r| <= |ts|
  {
    if ts == [] then []
    else
      Copied(ts[..|ts| - 1], area) +
      (if area.Contains(ts[|ts| - 1].pos) then [ts[|ts| - 1].MovedFrom(area.pos)] else [])
  }

  /** A copied texel is a texel of the area moved to the area's frame of
      reference, and every texel inside the area is copied. */
  lemma {:induction false} CopiedContents(ts: Frame, area: Bounds, t: Texel)
    ensures t in Copied(ts, area) <==> exists u :: u in ts && area.Contains(u.pos) && t == u.MovedFrom(area.pos)
  {
    if ts != [] {
      var init := ts[..|ts| - 1];
      CopiedContents(init, area, t);
      assert ts == init + [ts[|ts| - 1]];
      if t in Copied(init, area) {
        var u :| u in init && area.Contains(u.pos) && t == u.MovedFrom(area.pos);
        assert u in ts;
      }
    }
  }

  /** The copy lies inside the area moved to the origin. */
  lemma CopiedWithinArea(ts: Frame, area: Bounds, t: Texel)
    requires t in Copied(ts, area)
    ensures area.Minus(area.pos).Contains(t.pos)
  {
    CopiedContents(ts, area, t);
    var u :| u in ts && area.Contains(u.pos) && t == u.MovedFrom(area.pos);
    MinusContains(area, area.pos, u.pos);
  }

  lemma {:induction false} LastAtCopied(ts: Frame, area: Bounds, q: Position2D)
    requires DistinctPositions(ts)
    ensures LastAt(Copied(ts, area), area.pos, q) == if area.Contains(q) then TexelAt(ts, q) else None
  {
    if ts != [] {
      var init := ts[..|ts| - 1];
      var l := ts[|ts| - 1];
      assert ts == init + [l];
      LastAtCopied(init, area, q);
      TexelAtConcat(init, [l], q);
      var c := Copied(init, area);
      if area.Contains(l.pos) {
        var c' := c + [l.MovedFrom(area.pos)];
        assert c'[..|c'| - 1] == c;
        assert Localized(l.MovedFrom(area.pos), area.pos) == l;
        if l.pos == q {
          assert TexelAt(init, q).None?;
        }
      } else {
        assert Copied(ts, area) == c;
      }
    }
  }

  /** Copy and paste: applying a copy of an area at the area's own corner
      leaves a distinct frame looking the same in every cell. */
  lemma CopyPasteRestores(ts: Frame, area: Bounds, q: Position2D)
    requires DistinctPositions(ts)
    ensures TexelAt(PlaceAll(ts, Copied(ts, area), area.pos), q) == TexelAt(ts, q)
  {
    TexelAtPlaceAll(ts, Copied(ts, area), area.pos, q);
    LastAtCopied(ts, area, q);
  }
}
