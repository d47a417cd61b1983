/** The texel ("text pixel") record and the helpers that build and rewrite
    rows of texels from strings. */
module Texels {
  import opened Common
  import opened Coordinates

  /** Colours given to texels that carry no explicit colour. */
  const DEFAULT_BG: u8 := 16
  const DEFAULT_FG: u8 := 0xE8 + 16

  /** A positioned character with a style set and two colour indices. */
  datatype Texel = Texel(pos: Position2D, symbol: char, styles: SymbolStyles, fg: u8, bg: u8) {

    /** A copy re-expressed relative to `origin`. */
    function MovedFrom(origin: Position2D): (r: Texel)
      ensures r.pos.Plus(origin) == pos
      ensures r.symbol == symbol && r.styles == styles && r.fg == fg && r.bg == bg
    {
      this.(pos := pos.Minus(origin))
    }
  }

  /** One frame of a sprite. */
  type Frame = seq<Texel>

  /** A texel with the default colours and no style. */
  function Plain(pos: Position2D, symbol: char): (t: Texel)
    ensures t.pos == pos && t.symbol == symbol
    ensures t.styles == {} && t.fg == DEFAULT_FG && t.bg == DEFAULT_BG
  {
    Texel(pos, symbol, {}, DEFAULT_FG, DEFAULT_BG)
  }

  lemma MovedFromRoundTrip(t: Texel, origin: Position2D)
    ensures t.MovedFrom(origin).MovedFrom(Position2D(-origin.x, -origin.y)) == t
  {
  }

  /** Every texel of every frame, frame by frame (the order of `all_iter`). */
  function Flatten(frames: seq<Frame>): (r: Frame)
    ensures frames == [] ==> r == []
  {
    if frames == [] then [] else Flatten(frames[..|frames| - 1]) + frames[|frames| - 1]
  }

  lemma {:induction false} FlattenEmpty(frames: seq<Frame>)
    ensures Flatten(frames) == [] <==> forall i :: 0 <= i < |frames| ==> frames[i] == []
  {
    if frames != [] {
      var init := frames[..|frames| - 1];
      FlattenEmpty(init);
      assert forall i :: 0 <= i < |init| ==> init[i] == frames[i];
    }
  }

  lemma {:induction false} FlattenMember(frames: seq<Frame>, t: Texel)
    ensures t in Flatten(frames) <==> exists i :: 0 <= i < |frames| && t in frames[i]
  {
    if frames != [] {
      var init := frames[..|frames| - 1];
      FlattenMember(init, t);
      assert forall i :: 0 <= i < |init| ==> init[i] == frames[i];
      if t in frames[|frames| - 1] {
        assert t in Flatten(frames);
      }
    }
  }

  /** The row `texels_from_str` builds: one texel per character, spaces
      included, laid out to the right of `start`. */
  function TextRow(s: string, start: Position2D): (r: Frame)
    ensures |r| == |s|
  {
    seq(|s|, i requires 0 <= i < |s| => Plain(Position2D(start.x + i, start.y), s[i]))
  }

  /** The symbols of a row, in order. */
  function Symbols(ts: Frame): (r: string)
    ensures |r| == |ts|
  {
    seq(|ts|, i requires 0 <= i < |ts| => ts[i].symbol)
  }

  /** Builds a row of plain texels from `s`, the i-th at `start + (i, 0)`. */
  method TexelsFromStr(s: string, start: Position2D) returns (result: Frame)
    ensures |result| == |s|
    ensures forall i :: 0 <= i < |s| ==>
      result[i].pos == Position2D(start.x + i, start.y) && result[i].symbol == s[i]
    ensures forall i :: 0 <= i < |s| ==>
      result[i].styles == {} && result[i].fg == DEFAULT_FG && result[i].bg == DEFAULT_BG
    ensures result == TextRow(s, start)
  {
    result := [];
    var i := 0;
    while i < |s|
      invariant 0 <= i <= |s|
      invariant result == TextRow(s[..i], start)
    {
      result := result + [Texel(Position2D(start.x + i, start.y), s[i], {}, DEFAULT_FG, DEFAULT_BG)];
      i := i + 1;
    }
    assert s[..i] == s;
  }

  lemma TextRowSymbols(s: string, start: Position2D)
    ensures Symbols(TextRow(s, start)) == s
  {
  }

  /** `ts` with the characters of `s` written into the symbols of the texels
      from index `startX` on; `None` when `s` (in bytes) does not fit. */
  function Overwritten(ts: Frame, s: string, startX: nat): (r: Option<Frame>)
    ensures r.Some? <==> startX + Utf8Length(s) <= |ts|
    ensures r.Some? ==> |r.value| == |ts|
    ensures r.Some? ==> forall k :: 0 <= k < |ts| ==>
      r.value[k] == if startX <= k < startX + |s| then ts[k].(symbol := s[k - startX]) else ts[k]
  {
    if startX + Utf8Length(s) > |ts| then None
    else Some(seq(|ts|, k requires 0 <= k < |ts| =>
      if startX <= k < startX + |s| then ts[k].(symbol := s[k - startX]) else ts[k]))
  }

  /** Writes `s` over the symbols of `texels` from `startX` on, never growing
      the row. The bound is checked against the byte length of `s`. */
  method WriteToTexels(s: string, texels: array<Texel>, startX: nat) returns (ok: bool)
    modifies texels
    ensures ok <==> startX + Utf8Length(s) <= texels.Length
    ensures !ok ==> texels[..] == old(texels[..])
    ensures ok ==> Overwritten(old(texels[..]), s, startX) == Some(texels[..])
  {
    if startX + Utf8Length(s) > texels.Length {
      return false;
    }
    var i := 0;
    while i < |s|
      invariant 0 <= i <= |s|
      invariant forall k :: 0 <= k < texels.Length ==>
        texels[k] == if startX <= k < startX + i then old(texels[k]).(symbol := s[k - startX]) else old(texels[k])
    {
      texels[startX + i] := texels[startX + i].(symbol := s[i]);
      i := i + 1;
    }
    ok := true;
    assert texels[..] == Overwritten(old(texels[..]), s, startX).value;
  }

  /** Over a row built by `texels_from_str`, writing a string of the same
      length (in characters and bytes) yields the row of that string. */
  lemma OverwriteTextRow(old_s: string, s: string, start: Position2D)
    requires |s| == |old_s| && Utf8Length(s) == |s|
    ensures Overwritten(TextRow(old_s, start), s, 0) == Some(TextRow(s, start))
  {
    var r := Overwritten(TextRow(old_s, start), s, 0);
    assert r.Some?;
    forall k | 0 <= k < |s|
      ensures r.value[k] == TextRow(s, start)[k]
    {
      assert r.value[k] == TextRow(old_s, start)[k].(symbol := s[k]);
    }
    assert r.value == TextRow(s, start);
  }
}
