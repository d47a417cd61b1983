/** Importing a sprite from plain text: every visible character becomes a
    texel at its column and line, spaces only advance the column and line
    breaks start a new line. */
module TextImport {
  import opened Common
  import opened Coordinates
  import opened Texels
  import opened Sprites

  /** Largest text accepted, in bytes. */
  const SPRITE_MAX_BYTES: nat := U16_MAX

  /** Why an import fails. */
  datatype ImportError = InvalidInput

  /** A character that becomes a texel. */
  predicate IsGlyph(c: char)
  {
    c != ' ' && c != '\n'
  }

  /** Index just after the last line break of `s`, or 0 without one. */
  function LineStart(s: string): (r: nat)
    ensures r <= |s|
  {
    if s == [] then 0
    else if s[|s| - 1] == '\n' then |s|
    else LineStart(s[..|s| - 1])
  }

  /** The line start follows a line break, and no break comes after it. */
  lemma {:induction false} LineStartIsLastBreak(s: string)
    ensures LineStart(s) > 0 ==> s[LineStart(s) - 1] == '\n'
    ensures forall j :: LineStart(s) <= j < |s| ==> s[j] != '\n'
    decreases |s|
  {
    if s != [] && s[|s| - 1] != '\n' {
      var init := s[..|s| - 1];
      LineStartIsLastBreak(init);
      assert forall j :: 0 <= j < |init| ==> s[j] == init[j];
    }
  }

  /** Characters since the last line break: the column the next one gets. */
  function Col(s: string): nat
  {
    |s| - LineStart(s)
  }

  /** Line breaks in `s`: the line the next character gets. */
  function Newlines(s: string): nat
  {
    if s == [] then 0
    else Newlines(s[..|s| - 1]) + if s[|s| - 1] == '\n' then 1 else 0
  }

  /** The line counter is the number of line breaks in the text. */
  lemma {:induction false} NewlinesCount(s: string)
    ensures Newlines(s) == multiset(s)['\n']
    decreases |s|
  {
    if s != [] {
      var init := s[..|s| - 1];
      NewlinesCount(init);
      assert s == init + [s[|s| - 1]];
      assert multiset(s) == multiset(init) + multiset{s[|s| - 1]};
    }
  }

  /** The texels the import yields, one per glyph of `s` in text order,
      each placed at the column and line that precede it. */
  function Glyphs(s: string): (r: Frame)
    ensures |r| <= |s|
  {
    if s == [] then []
    else
      var init, c := s[..|s| - 1], s[|s| - 1];
      Glyphs(init) + (if IsGlyph(c) then [Plain(Position2D(Col(init), Newlines(init)), c)] else [])
  }

  /** How one more character moves the column and the line. */
  lemma StepCursor(s: string, c: char)
    ensures Col(s + [c]) == if c == '\n' then 0 else Col(s) + 1
    ensures Newlines(s + [c]) == Newlines(s) + if c == '\n' then 1 else 0
    ensures Glyphs(s + [c]) == Glyphs(s) + if IsGlyph(c) then [Plain(Position2D(Col(s), Newlines(s)), c)] else []
  {
    var t := s + [c];
    assert t[..|t| - 1] == s;
  }

  /** The character walk of the text importer over the decoded text. It
      keeps a column and a line counter in step with the characters read. */
  method WalkChars(buf: string) returns (texels: Frame)
    ensures texels == Glyphs(buf)
  {
    texels := [];
    var x, y := 0, 0;
    var i := 0;
    while i < |buf|
      invariant 0 <= i <= |buf|
      invariant x == Col(buf[..i]) && y == Newlines(buf[..i])
      invariant texels == Glyphs(buf[..i])
    {
      var c := buf[i];
      ghost var read := buf[..i];
      StepCursor(read, c);
      if c == ' ' {
        x := x + 1;
      } else if c == '\n' {
        x := 0;
        y := y + 1;
      } else {
        texels := texels + [Texel(Position2D(x, y), c, {}, DEFAULT_FG, DEFAULT_BG)];
        x := x + 1;
      }
      assert buf[..i + 1] == read + [c];
      i := i + 1;
    }
    assert buf[..i] == buf;
  }

  /** `Sprite::from_txt_file` once the file is read into `buf`: text over
      the size limit is refused, otherwise a one-frame sprite holds the
      glyphs. */
  method FromTxt(buf: string) returns (r: Option<Sprite>, err: Option<ImportError>)
    ensures Utf8Length(buf) > SPRITE_MAX_BYTES <==> err == Some(InvalidInput)
    ensures err.Some? <==> r.None?
    ensures r.Some? ==> fresh(r.value) && r.value.Data() == SpriteData([Glyphs(buf)], 0, None, [])
  {
    if Utf8Length(buf) > SPRITE_MAX_BYTES {
      return None, Some(InvalidInput);
    }
    var texels := WalkChars(buf);
    var sprite := new Sprite.FromTexels(texels);
    return Some(sprite), None;
  }

  /** A glyph of the text: the character at `i` is visible, and the texel
      sits at the column and line before it. */
  predicate GlyphOf(s: string, i: int, t: Texel)
  {
    0 <= i < |s| && IsGlyph(s[i]) && t == Plain(Position2D(Col(s[..i]), Newlines(s[..i])), s[i])
  }

  /** The imported texels are exactly the glyphs of the text. */
  lemma {:induction false} GlyphsMembers(s: string, t: Texel)
    ensures t in Glyphs(s) <==> exists i :: GlyphOf(s, i, t)
    decreases |s|
  {
    if s != [] {
      var init, c := s[..|s| - 1], s[|s| - 1];
      GlyphsMembers(init, t);
      assert forall i :: 0 <= i < |init| ==> s[..i] == init[..i] && s[i] == init[i];
      if exists i :: GlyphOf(s, i, t) {
        var i :| GlyphOf(s, i, t);
        if i < |init| {
          assert GlyphOf(init, i, t);
        } else {
          assert s[..i] == init;
        }
      }
      if exists i :: GlyphOf(init, i, t) {
        var i :| GlyphOf(init, i, t);
        assert GlyphOf(s, i, t);
      }
      if IsGlyph(c) && t == Plain(Position2D(Col(init), Newlines(init)), c) {
        assert s[..|s| - 1] == init;
        assert GlyphOf(s, |s| - 1, t);
      }
    }
  }

  /** One texel per character other than space and line break. */
  lemma {:induction false} GlyphsCount(s: string)
    ensures |Glyphs(s)| == |s| - multiset(s)[' '] - multiset(s)['\n']
    decreases |s|
  {
    if s != [] {
      var init, c := s[..|s| - 1], s[|s| - 1];
      GlyphsCount(init);
      assert s == init + [c];
      assert multiset(s) == multiset(init) + multiset{c};
    }
  }

  /** Every imported texel is visible, unstyled, in default colours and at
      a non-negative column and line. */
  lemma {:induction false} GlyphsArePlain(s: string)
    ensures forall t :: t in Glyphs(s) ==>
      IsGlyph(t.symbol) && t.styles == {} && t.fg == DEFAULT_FG && t.bg == DEFAULT_BG &&
      t.pos.x >= 0 && t.pos.y >= 0
    decreases |s|
  {
    if s != [] {
      GlyphsArePlain(s[..|s| - 1]);
    }
  }

  /** Text without line breaks imports onto line 0, each glyph at its
      index. */
  lemma {:induction false} SingleLine(s: string)
    requires forall i :: 0 <= i < |s| ==> s[i] != '\n'
    ensures Col(s) == |s| && Newlines(s) == 0
    ensures forall t :: t in Glyphs(s) ==> t.pos.y == 0 && t.pos.x < |s|
    decreases |s|
  {
    if s != [] {
      var init := s[..|s| - 1];
      SingleLine(init);
    }
  }

  /** The first line of the scenario below: a space, then a glyph. */
  lemma ExampleFirstLine(a: char)
    requires IsGlyph(a)
    ensures Col([' ', a]) == 2 && Newlines([' ', a]) == 0
    ensures Glyphs([' ', a]) == [Plain(Position2D(1, 0), a)]
  {
    var s1: string := [' '];
    assert [] + [' '] == s1 && s1 + [a] == [' ', a];
    StepCursor([], ' ');
    StepCursor(s1, a);
  }

  /** A line break followed by two glyphs starts a new line at column 0. */
  lemma AfterBreak(p: string, b: char, c: char)
    requires IsGlyph(b) && IsGlyph(c)
    ensures Glyphs(p + ['\n', b, c]) ==
      Glyphs(p) + [Plain(Position2D(0, Newlines(p) + 1), b), Plain(Position2D(1, Newlines(p) + 1), c)]
  {
    var p1, p2 := p + ['\n'], p + ['\n', b];
    assert p1 + [b] == p2 && p2 + [c] == p + ['\n', b, c];
    StepCursor(p, '\n');
    StepCursor(p1, b);
    StepCursor(p2, c);
  }

  /** Scenario: in the text " a", line break, "bc" a leading space shifts
      the first glyph and the line break starts line 1 at column 0. */
  lemma ImportExample(a: char, b: char, c: char)
    requires IsGlyph(a) && IsGlyph(b) && IsGlyph(c)
    ensures Glyphs([' ', a, '\n', b, c]) ==
      [Plain(Position2D(1, 0), a), Plain(Position2D(0, 1), b), Plain(Position2D(1, 1), c)]
  {
    assert [' ', a] + ['\n', b, c] == [' ', a, '\n', b, c];
    ExampleFirstLine(a);
    AfterBreak([' ', a], b, c);
  }
}
