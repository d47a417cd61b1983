/** Shared vocabulary of the library: machine integer ranges, the style flags,
    the colour channel selector, the generic selector and an Option type. */
module Common {

  /** Unsigned machine integers of the widths the library uses. */
  type u8 = x: int | 0 <= x < 0x100
  type u16 = x: int | 0 <= x < 0x1_0000
  type u32 = x: int | 0 <= x < 0x1_0000_0000

  const I32_MIN: int := -0x8000_0000
  const I32_MAX: int := 0x7FFF_FFFF
  const U16_MAX: int := 0xFFFF

  datatype Option<T> = None | Some(value: T)

  /** A single text style flag. */
  datatype SymbolStyle = Bold | Italic | Underline

  /** The set of style flags carried by one texel. */
  type SymbolStyles = set<SymbolStyle>

  /** Background or foreground colour channel. */
  datatype ColorMode = Bg | Fg

  /** Generic selector over an ordered collection. */
  datatype Which<P> = All | Next | Previous | At(at: P)

  /** Flips one flag: removes it when present, inserts it otherwise. */
  function Toggle(styles: SymbolStyles, style: SymbolStyle): (r: SymbolStyles)
    ensures style in r <==> style !in styles
    ensures forall s :: s != style ==> (s in r <==> s in styles)
  {
    if style in styles then styles - {style} else styles + {style}
  }

  lemma ToggleInvolution(styles: SymbolStyles, style: SymbolStyle)
    ensures Toggle(Toggle(styles, style), style) == styles
  {
  }

  /** Number of bytes `c` takes in UTF-8. */
  function Utf8Width(c: char): (n: nat)
    ensures 1 <= n <= 4
  {
    if c as int < 0x80 then 1
    else if c as int < 0x800 then 2
    else if c as int < 0x1_0000 then 3
    else 4
  }

  /** Byte length of a string in UTF-8, as Rust's `str::len` reports it. */
  function Utf8Length(s: string): (n: nat)
    ensures |s| <= n <= 4 * |s|
  {
    if s == [] then 0 else Utf8Length(s[..|s| - 1]) + Utf8Width(s[|s| - 1])
  }

  lemma {:induction false} Utf8LengthAscii(s: string)
    requires forall i :: 0 <= i < |s| ==> s[i] as int < 0x80
    ensures Utf8Length(s) == |s|
  {
    if s != [] {
      Utf8LengthAscii(s[..|s| - 1]);
    }
  }

  function Max(a: int, b: int): int { if a < b then b else a }
  function Min(a: int, b: int): int { if a < b then a else b }
}
