/** Per-paragraph text styling: the scaled font size, the bold flag, the
    substitute typeface, the `#RRGGBB` colour parse, and how a text frame
    splits its text into paragraphs. */
module Styling {
  import opened Layout

  /** Font size used when the block's size is present but zero. */
  const DEFAULT_SIZE: real := 12.0
  const SERIF_FACE: string := "MS Mincho"
  const SANS_FACE: string := "Meiryo"
  const DEFAULT_COLOR_HEX: string := "#000000"
  const DEFAULT_FAMILY: string := "sans"

  /** Character properties of a paragraph; `None` leaves the property
      unset, so the presentation's default applies. */
  datatype Font = Font(size: Option<real>, bold: Option<bool>, name: Option<string>, color: Option<RGB>)

  const INHERITED: Font := Font(None, None, None, None)

  datatype Paragraph = Paragraph(text: string, font: Font)

  /** The one style a text block carries, applied to each of its paragraphs:
      `None` for a property the builder leaves alone. */
  datatype BlockStyle = BlockStyle(size: real, setBold: bool, name: Option<string>, color: Option<RGB>)

  // ---------------------------------------------------------------------
  // Font size and typeface

  /** `(font_size * font_scale) if font_size else 12`, where a missing key
      has already become 12 (which is then scaled) and a zero size is falsy. */
  function ScaledFontSize(size: Option<real>, scale: real): (pt: real)
    ensures size.None? ==> pt == DEFAULT_SIZE * scale
    ensures size == Some(0.0) ==> pt == DEFAULT_SIZE
    ensures size.Some? && size.value != 0.0 ==> pt == size.value * scale
    ensures 0.0 <= scale && (size.None? || 0.0 <= size.value) ==> 0.0 <= pt
  {
    match size
    case None => DEFAULT_SIZE * scale
    case Some(v) => if v != 0.0 then v * scale else DEFAULT_SIZE
  }

  /** The substitute typeface: "serif" maps to the serif face, anything
      else (a missing key reads as "sans") to the sans face. */
  function FontName(family: Option<string>): (face: string)
    ensures face == SERIF_FACE || face == SANS_FACE
    ensures face == SERIF_FACE <==> family == Some("serif")
  {
    var name := if family.Some? then family.value else DEFAULT_FAMILY;
    if name == "serif" then SERIF_FACE else SANS_FACE
  }

  // ---------------------------------------------------------------------
  // Python's int(s, 16) on short strings

  /** The characters `int()` skips around a number: the ASCII white space
      `\t \n \v \f \r` and space, and the non-ASCII white space, which it
      first turns into a space.  The ASCII separators U+001C..U+001F are not
      among them: `int()` refuses them. */
  predicate IsSpace(c: char) {
    var n := c as int;
    (9 <= n <= 13) || n == 32 || n == 0x85 || n == 0xA0 || n == 0x1680 ||
    (0x2000 <= n <= 0x200A) || n == 0x2028 || n == 0x2029 || n == 0x202F ||
    n == 0x205F || n == 0x3000
  }

  predicate IsHexDigit(c: char) {
    ('0' <= c <= '9') || ('a' <= c <= 'f') || ('A' <= c <= 'F')
  }

  function DigitValue(c: char): (v: nat)
    requires IsHexDigit(c)
    ensures v < 16
  {
    if '0' <= c <= '9' then c as nat - '0' as nat
    else if 'a' <= c <= 'f' then c as nat - 'a' as nat + 10
    else c as nat - 'A' as nat + 10
  }

  predicate AllHex(s: string) {
    forall i :: 0 <= i < |s| ==> IsHexDigit(s[i])
  }

  /** The value of a string of hex digits, most significant first. */
  function HexValue(s: string): (v: nat)
    requires AllHex(s)
  {
    if s == [] then 0 else HexValue(s[..|s| - 1]) * 16 + DigitValue(s[|s| - 1])
  }

  /** `str.lstrip()`: leading white space removed (StripLeftDrops). */
  function StripLeft(s: string): (t: string)
    ensures |t| <= |s|
    ensures t != [] ==> !IsSpace(t[0])
  {
    if s != [] && IsSpace(s[0]) then StripLeft(s[1..]) else s
  }

  /** `str.rstrip()`: trailing white space removed (StripRightDrops). */
  function StripRight(s: string): (t: string)
    ensures |t| <= |s|
    ensures t != [] ==> !IsSpace(t[|t| - 1])
  {
    if s != [] && IsSpace(s[|s| - 1]) then StripRight(s[..|s| - 1]) else s
  }

  /** StripLeft keeps a suffix of s and drops only white space: together
      with its own contract, it removes exactly the leading run of white
      space. */
  lemma {:induction false} StripLeftDrops(s: string)
    ensures StripLeft(s) == s[|s| - |StripLeft(s)|..]
    ensures forall i :: 0 <= i < |s| - |StripLeft(s)| ==> IsSpace(s[i])
    decreases |s|
  {
    if s != [] && IsSpace(s[0]) {
      StripLeftDrops(s[1..]);
      assert s[1..][|s| - 1 - |StripLeft(s)|..] == s[|s| - |StripLeft(s)|..];
      forall i | 0 <= i < |s| - |StripLeft(s)| ensures IsSpace(s[i]) {
        if i > 0 { assert s[i] == s[1..][i - 1]; }
      }
    }
  }

  /** StripRight keeps a prefix of s and drops only white space: it
      removes exactly the trailing run of white space. */
  lemma {:induction false} StripRightDrops(s: string)
    ensures StripRight(s) == s[..|StripRight(s)|]
    ensures forall i :: |StripRight(s)| <= i < |s| ==> IsSpace(s[i])
    decreases |s|
  {
    if s != [] && IsSpace(s[|s| - 1]) {
      StripRightDrops(s[..|s| - 1]);
      assert s[..|s| - 1][..|StripRight(s)|] == s[..|StripRight(s)|];
      forall i | |StripRight(s)| <= i < |s| ensures IsSpace(s[i]) {
        if i < |s| - 1 { assert s[i] == s[..|s| - 1][i]; }
      }
    }
  }

  /** `int(s, 16)`: surrounding white space, an optional sign, then one or
      more hex digits; anything else raises (`None`). */
  function ParseHexInt(s: string): Option<int> {
    ParseSigned(StripRight(StripLeft(s)))
  }

  /** The stripped text of `int(s, 16)`: an optional sign, then one or
      more hex digits. */
  function ParseSigned(t: string): Option<int> {
    var neg := t != [] && t[0] == '-';
    var digits := if t != [] && (t[0] == '+' || t[0] == '-') then t[1..] else t;
    if digits != [] && AllHex(digits) then
      Some(if neg then -(HexValue(digits) as int) else HexValue(digits))
    else None
  }

  predicate AllSpace(s: string) {
    forall i :: 0 <= i < |s| ==> IsSpace(s[i])
  }

  lemma {:induction false} StripLeftSpaces(pre: string, x: string)
    requires AllSpace(pre) && (x == [] || !IsSpace(x[0]))
    ensures StripLeft(pre + x) == x
    decreases |pre|
  {
    if pre == [] {
      assert pre + x == x;
    } else {
      assert (pre + x)[0] == pre[0];
      assert (pre + x)[1..] == pre[1..] + x;
      StripLeftSpaces(pre[1..], x);
    }
  }

  lemma {:induction false} StripRightSpaces(x: string, post: string)
    requires AllSpace(post) && (x == [] || !IsSpace(x[|x| - 1]))
    ensures StripRight(x + post) == x
    decreases |post|
  {
    if post == [] {
      assert x + post == x;
    } else {
      var s := x + post;
      assert s[|s| - 1] == post[|post| - 1];
      assert s[..|s| - 1] == x + post[..|post| - 1];
      StripRightSpaces(x, post[..|post| - 1]);
    }
  }

  /** `int(s, 16)` ignores white space around the number. */
  lemma ParseHexIntPadded(pre: string, x: string, post: string)
    requires AllSpace(pre) && AllSpace(post)
    requires x != [] && !IsSpace(x[0]) && !IsSpace(x[|x| - 1])
    ensures ParseHexInt(pre + x + post) == ParseHexInt(x)
  {
    assert pre + x + post == pre + (x + post);
    assert (x + post)[0] == x[0];
    StripLeftSpaces(pre, x + post);
    StripRightSpaces(x, post);
    Unpadded(x);
  }

  /** A string with no white space at either end is left alone by strip. */
  lemma Unpadded(x: string)
    requires x != [] && !IsSpace(x[0]) && !IsSpace(x[|x| - 1])
    ensures StripRight(StripLeft(x)) == x
  {
  }

  /** A run of hex digits parses to its value, with or without a '+', and
      to minus its value after a '-'. */
  lemma ParseHexIntSigned(d: string)
    requires d != [] && AllHex(d)
    ensures ParseHexInt(d) == Some(HexValue(d))
    ensures ParseHexInt("+" + d) == Some(HexValue(d))
    ensures ParseHexInt("-" + d) == Some(-(HexValue(d) as int))
  {
    HexNotSpace(d[0]);
    HexNotSpace(d[|d| - 1]);
    Unpadded(d);
    Unpadded("+" + d);
    Unpadded("-" + d);
    ParseSignedDigits(d);
  }

  lemma HexNotSpace(c: char)
    requires IsHexDigit(c)
    ensures !IsSpace(c) && c != '+' && c != '-'
  {
  }

  lemma ParseSignedDigits(d: string)
    requires d != [] && AllHex(d)
    requires d[0] != '+' && d[0] != '-'
    ensures ParseSigned(d) == Some(HexValue(d))
    ensures ParseSigned("+" + d) == Some(HexValue(d))
    ensures ParseSigned("-" + d) == Some(-(HexValue(d) as int))
  {
    SignedDigits(d, '+');
    SignedDigits(d, '-');
  }

  lemma SignedDigits(d: string, sign: char)
    requires d != [] && AllHex(d) && (sign == '+' || sign == '-')
    ensures ParseSigned([sign] + d) == Some(if sign == '-' then -(HexValue(d) as int) else HexValue(d))
  {
    var t := [sign] + d;
    assert t[0] == sign && t[1..] == d;
  }

  /** Python's slice `s[i:j]` for 0 <= i <= j: both ends cut at the length. */
  function Slice(s: string, i: nat, j: nat): (t: string)
    requires i <= j
    ensures |t| <= j - i
  {
    if |s| <= i then [] else if |s| <= j then s[i..] else s[i..j]
  }

  /** `RGBColor` accepts only values 0..255 and raises otherwise. */
  function ToChannel(v: Option<int>): Option<Channel> {
    if v.Some? && 0 <= v.value < 256 then Some(v.value) else None
  }

  /** The colour logic: a string that starts with '#' and whose slices
      [1:3], [3:5] and [5:7] parse as hex gives a colour; anything else
      (the exception is swallowed) leaves the colour unset. */
  function ParseColor(hex: string): Option<RGB> {
    if |hex| > 0 && hex[0] == '#' then
      var r, g, b := ToChannel(ParseHexInt(Slice(hex, 1, 3))),
                     ToChannel(ParseHexInt(Slice(hex, 3, 5))),
                     ToChannel(ParseHexInt(Slice(hex, 5, 7)));
      if r.Some? && g.Some? && b.Some? then Some(RGB(r.value, g.value, b.value)) else None
    else None
  }

  // ---------------------------------------------------------------------
  // The block's style and its application to one paragraph

  /** The style of a block: missing keys take the builder's defaults (size
      12, colour "#000000", family "sans", not bold); the typeface is only
      substituted in text-focus mode. */
  function StyleOf(block: TextBlock, textFocus: bool, scale: real): BlockStyle {
    BlockStyle(
      ScaledFontSize(block.fontSizePt, scale),
      block.isBold == Some(true),
      if textFocus then Some(FontName(block.fontFamily)) else None,
      ParseColor(match block.fontColorHex case Some(h) => h case None => DEFAULT_COLOR_HEX))
  }

  /** One pass of the paragraph loop: the size is always assigned, bold only
      ever to true, the typeface and the colour only when the style has one. */
  function Restyle(f: Font, st: BlockStyle): (g: Font)
    ensures g.size == Some(st.size)
    ensures g.bold == Some(false) ==> f.bold == Some(false) && !st.setBold
    ensures st.setBold ==> g.bold == Some(true)
    ensures !st.setBold ==> g.bold == f.bold
    ensures st.name.Some? ==> g.name == st.name
    ensures st.name.None? ==> g.name == f.name
    ensures st.color.Some? ==> g.color == st.color
    ensures st.color.None? ==> g.color == f.color
  {
    Font(Some(st.size),
         if st.setBold then Some(true) else f.bold,
         if st.name.Some? then st.name else f.name,
         if st.color.Some? then st.color else f.color)
  }

  /** A block's style: the scaled size, bold set iff `is_bold` is true, the
      substitute for the block's family as typeface iff text-focus, and the colour parsed from the colour string,
      black when the key is missing. */
  lemma StyleOfFacts(block: TextBlock, textFocus: bool, scale: real)
    ensures var st := StyleOf(block, textFocus, scale);
      st.size == ScaledFontSize(block.fontSizePt, scale) &&
      (st.setBold <==> block.isBold == Some(true)) &&
      (st.name.Some? <==> textFocus) &&
      (textFocus ==> st.name == Some(FontName(block.fontFamily))) &&
      (block.fontColorHex.None? ==> st.color == Some(RGB(0, 0, 0))) &&
      (block.fontColorHex.Some? ==> st.color == ParseColor(block.fontColorHex.value))
  {
    DefaultColorIsBlack();
  }

  // ---------------------------------------------------------------------
  // Paragraphs of a text frame

  /** The text frame's setter: one paragraph per '\n'-separated line. */
  function SplitLines(t: string): (ls: seq<string>)
    ensures |ls| >= 1
    decreases |t|
  {
    if t == [] then [""]
    else
      var rest := SplitLines(t[1..]);
      if t[0] == '\n' then [""] + rest else [[t[0]] + rest[0]] + rest[1..]
  }

  function JoinLines(ls: seq<string>): string
    requires |ls| >= 1
  {
    if |ls| == 1 then ls[0] else ls[0] + "\n" + JoinLines(ls[1..])
  }

  predicate NoNewline(s: string) {
    forall i :: 0 <= i < |s| ==> s[i] != '\n'
  }

  /** The text of a block, one paragraph per line, with nothing set yet. */
  function FrameParagraphs(t: string): (ps: seq<Paragraph>)
    ensures |ps| == |SplitLines(t)|
  {
    var ls := SplitLines(t);
    seq(|ls|, i requires 0 <= i < |ls| => Paragraph(ls[i], INHERITED))
  }

  // ---------------------------------------------------------------------
  // Properties

  /** Splitting then joining gives the text back, and no paragraph holds a
      line break. */
  lemma {:induction false} SplitJoin(t: string)
    ensures JoinLines(SplitLines(t)) == t
    ensures forall i :: 0 <= i < |SplitLines(t)| ==> NoNewline(SplitLines(t)[i])
    decreases |t|
  {
    if t != [] {
      SplitJoin(t[1..]);
      var rest := SplitLines(t[1..]);
      if t[0] == '\n' {
        assert [""] + rest == [""] + rest;
        assert JoinLines([""] + rest) == "" + "\n" + JoinLines(rest);
      } else {
        var ls := [[t[0]] + rest[0]] + rest[1..];
        if |rest| == 1 {
          assert JoinLines(ls) == [t[0]] + rest[0];
        } else {
          assert ls[1..] == rest[1..];
          assert JoinLines(rest) == rest[0] + "\n" + JoinLines(rest[1..]);
          assert JoinLines(ls) == [t[0]] + rest[0] + "\n" + JoinLines(rest[1..]);
        }
        assert t == [t[0]] + t[1..];
        forall i | 0 <= i < |ls| ensures NoNewline(ls[i]) {
          if i == 0 {
            assert NoNewline(rest[0]);
          } else {
            assert ls[i] == rest[i];
          }
        }
      }
    }
  }

  /** Joining lines that hold no line break and splitting again gives the
      same lines. */
  lemma {:induction false} JoinSplit(ls: seq<string>)
    requires |ls| >= 1
    requires forall i :: 0 <= i < |ls| ==> NoNewline(ls[i])
    ensures SplitLines(JoinLines(ls)) == ls
    decreases |ls|, |ls[0]|
  {
    if ls[0] != [] {
      var c, tail := ls[0][0], [ls[0][1..]] + ls[1..];
      JoinSplit(tail);
      assert JoinLines(ls) == [c] + JoinLines(tail) by {
        if |ls| > 1 {
          assert tail[1..] == ls[1..];
        }
      }
      assert ([c] + JoinLines(tail))[1..] == JoinLines(tail);
      assert ls[0] == [c] + tail[0];
      assert tail[1..] == ls[1..];
      assert ls == [[c] + tail[0]] + tail[1..];
    } else if |ls| > 1 {
      JoinSplit(ls[1..]);
      assert JoinLines(ls) == "\n" + JoinLines(ls[1..]);
    }
  }

  lemma {:induction false} HexValueBound(s: string)
    requires AllHex(s)
    ensures HexValue(s) < Pow16(|s|)
  {
    if s != [] {
      HexValueBound(s[..|s| - 1]);
    }
  }

  function Pow16(n: nat): nat {
    if n == 0 then 1 else 16 * Pow16(n - 1)
  }

  /** The two upper-case hex digits of a channel. */
  function HexByte(v: Channel): string {
    [HexChar(v / 16), HexChar(v % 16)]
  }

  function HexChar(d: nat): (c: char)
    requires d < 16
    ensures IsHexDigit(c) && DigitValue(c) == d
  {
    if d < 10 then ('0' as nat + d) as char else ('A' as nat + d - 10) as char
  }

  /** The `#RRGGBB` spelling of a colour. */
  function ColorHex(c: RGB): string {
    "#" + HexByte(c.r) + HexByte(c.g) + HexByte(c.b)
  }

  /** Two hex digits parse to their value. */
  lemma HexPairParses(a: char, b: char)
    requires IsHexDigit(a) && IsHexDigit(b)
    ensures ParseHexInt([a, b]) == Some(DigitValue(a) * 16 + DigitValue(b))
  {
    var s := [a, b];
    assert !IsSpace(a) && !IsSpace(b) && a != '+' && a != '-';
    assert StripLeft(s) == s;
    assert StripRight(s) == s;
    assert AllHex(s);
    assert s[..1] == [a] && [a][..0] == [];
    assert HexValue(s) == HexValue([a]) * 16 + DigitValue(b);
  }

  /** One hex digit parses to its value. */
  lemma HexDigitParses(a: char)
    requires IsHexDigit(a)
    ensures ParseHexInt([a]) == Some(DigitValue(a))
  {
    assert !IsSpace(a) && a != '+' && a != '-';
    assert StripLeft([a]) == [a];
    assert StripRight([a]) == [a];
    assert AllHex([a]) && [a][..0] == [];
    assert HexValue([a]) == HexValue([]) * 16 + DigitValue(a);
  }

  lemma HexByteParses(v: Channel)
    ensures ParseHexInt(HexByte(v)) == Some(v)
  {
    HexPairParses(HexChar(v / 16), HexChar(v % 16));
  }

  /** Parsing the `#RRGGBB` spelling of a colour gives the colour back. */
  lemma ColorRoundTrip(c: RGB)
    ensures ParseColor(ColorHex(c)) == Some(c)
  {
    var h := ColorHex(c);
    assert Slice(h, 1, 3) == HexByte(c.r);
    assert Slice(h, 3, 5) == HexByte(c.g);
    assert Slice(h, 5, 7) == HexByte(c.b);
    HexByteParses(c.r);
    HexByteParses(c.g);
    HexByteParses(c.b);
  }

  /** A slice parses to a channel value, i.e. to a number that is not
      negative. */
  predicate ParsesUnsigned(s: string) {
    ParseHexInt(s).Some? && ParseHexInt(s).value >= 0
  }

  /** A slice of at most two characters that parses to a non-negative
      number is below 256, so only the sign can make RGBColor refuse it. */
  lemma ShortSliceFitsChannel(s: string)
    requires |s| <= 2 && ParsesUnsigned(s)
    ensures ParseHexInt(s).value < 256
    ensures ToChannel(ParseHexInt(s)) == Some(ParseHexInt(s).value)
  {
    var t := StripRight(StripLeft(s));
    var digits := if t != [] && (t[0] == '+' || t[0] == '-') then t[1..] else t;
    HexValueBound(digits);
    assert |digits| <= 2;
    assert Pow16(|digits|) <= 256 by {
      assert Pow16(0) == 1 && Pow16(1) == 16 && Pow16(2) == 256;
    }
  }

  /** A colour is set exactly when the string starts with '#' and each of
      the slices [1:3], [3:5] and [5:7] is a (space-padded, optionally
      signed) hex number that is not negative; its channels are those
      numbers. */
  lemma ParseColorCases(hex: string)
    ensures ParseColor(hex).Some? <==>
      |hex| > 0 && hex[0] == '#' &&
      ParsesUnsigned(Slice(hex, 1, 3)) && ParsesUnsigned(Slice(hex, 3, 5)) && ParsesUnsigned(Slice(hex, 5, 7))
    ensures ParseColor(hex).Some? ==>
      ParseColor(hex).value == RGB(ParseHexInt(Slice(hex, 1, 3)).value,
                                   ParseHexInt(Slice(hex, 3, 5)).value,
                                   ParseHexInt(Slice(hex, 5, 7)).value)
  {
    if |hex| > 0 && hex[0] == '#' {
      if ParsesUnsigned(Slice(hex, 1, 3)) { ShortSliceFitsChannel(Slice(hex, 1, 3)); }
      if ParsesUnsigned(Slice(hex, 3, 5)) { ShortSliceFitsChannel(Slice(hex, 3, 5)); }
      if ParsesUnsigned(Slice(hex, 5, 7)) { ShortSliceFitsChannel(Slice(hex, 5, 7)); }
    }
  }

  /** The default colour string gives black. */
  lemma DefaultColorIsBlack()
    ensures ParseColor(DEFAULT_COLOR_HEX) == Some(RGB(0, 0, 0))
  {
    assert Slice(DEFAULT_COLOR_HEX, 1, 3) == ['0', '0'];
    assert Slice(DEFAULT_COLOR_HEX, 3, 5) == ['0', '0'];
    assert Slice(DEFAULT_COLOR_HEX, 5, 7) == ['0', '0'];
    HexPairParses('0', '0');
  }

  /** A negative slice is refused by RGBColor, so the colour stays unset. */
  lemma NegativeChannelIsUnset()
    ensures ParseColor("#-1FFFF") == None
  {
    var h := "#-1FFFF";
    assert Slice(h, 1, 3) == ['-', '1'];
    assert !IsSpace('-') && !IsSpace('1');
    assert StripLeft(['-', '1']) == ['-', '1'];
    assert StripRight(['-', '1']) == ['-', '1'];
    HexDigitParses('1');
    assert ParseHexInt(['-', '1']) == Some(-1) by {
      assert ['-', '1'][1..] == ['1'];
      assert AllHex(['1']) && ['1'][..0] == [];
      assert HexValue(['1']) == 1;
    }
  }

  /** A six-digit colour is never needed: "#12345" still parses, its last
      slice being the single digit "5". */
  lemma ShortHexParses()
    ensures ParseColor("#12345") == Some(RGB(0x12, 0x34, 0x5))
  {
    var h := "#12345";
    assert Slice(h, 1, 3) == ['1', '2'] && Slice(h, 3, 5) == ['3', '4'] && Slice(h, 5, 7) == ['5'];
    HexPairParses('1', '2');
    HexPairParses('3', '4');
    HexDigitParses('5');
  }

  /** "#FF0000" is pure red. */
  lemma RedParses()
    ensures ParseColor("#FF0000") == Some(RGB(255, 0, 0))
  {
    var h := "#FF0000";
    assert Slice(h, 1, 3) == ['F', 'F'];
    assert Slice(h, 3, 5) == ['0', '0'];
    assert Slice(h, 5, 7) == ['0', '0'];
    HexPairParses('F', 'F');
    HexPairParses('0', '0');
  }

  lemma FullByteParses()
    ensures ParseHexInt("FF") == Some(255)
  {
    HexPairParses('F', 'F');
  }

  /** A text without a line break is one paragraph. */
  lemma OneLine(t: string)
    requires NoNewline(t)
    ensures FrameParagraphs(t) == [Paragraph(t, INHERITED)]
  {
    JoinSplit([t]);
  }

  /** A string that does not start with '#' leaves the colour unset. */
  lemma NotAColorIsUnset()
    ensures ParseColor("not-a-color") == None
  {
  }

  /** The file separator U+001C is not white space to `int()`: a slice that
      holds one does not parse, and the colour stays unset. */
  lemma SeparatorIsNotPadding()
    ensures ParseHexInt("\U{1C}F") == None
    ensures ParseColor("#\U{1C}F0000") == None
  {
    var h := "#\U{1C}F0000";
    assert Slice(h, 1, 3) == ['\U{1C}', 'F'];
    assert !IsSpace('\U{1C}') && !IsHexDigit('\U{1C}');
  }
}
