/**
 * The documentation payload both providers build (`buildClassDoc`,
 * `buildPropDoc`), `shortSummary` and `toHex`. The HTML template is kept as
 * its fragments: which of them is present, and the escaped text each holds.
 */
module DocRender {
  import opened Options
  import opened Text
  import opened Html
  import opened Catalog

  /**
   * A rendered doc. `title` is the `<h3>` text, `swatch` the colour of the
   * swatch `<div>` (absent when there is none), `description` the body of the
   * description `<div>` (empty when there is no description), `code` the text
   * of the `<pre><code>` block and `origin` the text after "Origin: ".
   */
  datatype Doc =
    | ClassDoc(title: string, swatch: Option<ColorObject>, description: string,
               code: Option<string>, origin: Option<string>)
    | PropDoc(title: string, description: string, code: Option<string>, origin: Option<string>)

  /** `x?.let { escapeHtml(it) }`: the fragment is there iff the field is. */
  function EscapeOpt(x: Option<string>): (r: Option<string>)
    ensures r.Some? <==> x.Some?
    ensures r.Some? ==> IsEscaped(r.value) && Unescape(r.value) == x.value
  {
    match x
    case None => None
    case Some(v) => EscapeHtmlSound(v); Some(EscapeHtml(v))
  }

  /**
   * `description?.let { escapeHtml(it).replace("\n", "<br/>") } ?: ""`: no raw
   * newline or quote; with its `<br/>` marks turned back into newlines it is
   * escaped text that decodes to the description.
   */
  function DescriptionFragment(description: Option<string>): (r: string)
    ensures '\n' !in r && '"' !in r && '\'' !in r
    ensures IsEscaped(UnBreak(r)) && Unescape(UnBreak(r)) == description.GetOr("")
  {
    var d := description.GetOr("");
    DescriptionHtmlSound(d);
    DescriptionHtml(d)
  }

  /**
   * `buildClassDoc`: the name, description, code and origin are escaped;
   * the swatch is there iff a preview colour is, and the code and origin
   * blocks iff those fields are present.
   */
  function BuildClassDoc(name: string, description: Option<string>, color: Option<ColorObject>,
                         code: Option<string>, origin: Option<string>): (d: Doc)
    ensures d.ClassDoc?
    ensures IsEscaped(d.title) && Unescape(d.title) == name
    ensures d.swatch == color
    ensures '\n' !in d.description && IsEscaped(UnBreak(d.description))
    ensures Unescape(UnBreak(d.description)) == description.GetOr("")
    ensures d.code.Some? <==> code.Some?
    ensures d.code.Some? ==> IsEscaped(d.code.value) && Unescape(d.code.value) == code.value
    ensures d.origin.Some? <==> origin.Some?
    ensures d.origin.Some? ==> IsEscaped(d.origin.value) && Unescape(d.origin.value) == origin.value
  {
    EscapeHtmlSound(name);
    ClassDoc(EscapeHtml(name), color, DescriptionFragment(description), EscapeOpt(code), EscapeOpt(origin))
  }

  /** `buildPropDoc`: as `buildClassDoc`, without a swatch. */
  function BuildPropDoc(name: string, description: Option<string>, code: Option<string>,
                        origin: Option<string>): (d: Doc)
    ensures d.PropDoc?
    ensures IsEscaped(d.title) && Unescape(d.title) == name
    ensures '\n' !in d.description && IsEscaped(UnBreak(d.description))
    ensures Unescape(UnBreak(d.description)) == description.GetOr("")
    ensures d.code.Some? <==> code.Some?
    ensures d.code.Some? ==> IsEscaped(d.code.value) && Unescape(d.code.value) == code.value
    ensures d.origin.Some? <==> origin.Some?
    ensures d.origin.Some? ==> IsEscaped(d.origin.value) && Unescape(d.origin.value) == origin.value
  {
    EscapeHtmlSound(name);
    PropDoc(EscapeHtml(name), DescriptionFragment(description), EscapeOpt(code), EscapeOpt(origin))
  }

  /** The class doc of a catalog entry. */
  function ClassDocOf(c: HyClass): Doc {
    BuildClassDoc(c.className, c.description, c.previewColor, c.code, c.origin)
  }

  /** The prop doc of a catalog entry. */
  function PropDocOf(p: HyProp): Doc {
    BuildPropDoc(p.propName, p.description, p.code, p.origin)
  }

  /**
   * `shortSummary(desc)`: "" for a null description, otherwise the first
   * line, trimmed and escaped; it never holds a line break or markup, and
   * decodes to the trimmed first line.
   */
  function ShortSummary(desc: Option<string>): (r: string)
    ensures desc.None? ==> r == ""
    ensures forall i :: 0 <= i < |r| ==> !IsLineBreak(r[i])
    ensures IsEscaped(r)
    ensures desc.Some? ==> Unescape(r) == Trim(FirstLine(desc.value))
  {
    if desc.None? then ""
    else
      var line := Trim(FirstLine(desc.value));
      EscapeHtmlSound(line);
      EscapeHtmlKeepsNoLineBreak(line);
      EscapeHtml(line)
  }

  /** The digit of `%X` for a value below 16: 0-9, then upper-case A-F. */
  function HexDigit(n: nat): (c: char)
    requires n < 16
  {
    if n < 10 then ('0' as int + n) as char else ('A' as int + n - 10) as char
  }

  predicate IsUpperHexDigit(c: char) {
    ('0' <= c <= '9') || ('A' <= c <= 'F')
  }

  /** The value of an upper-case hex digit. */
  function HexValue(c: char): (n: nat)
    requires IsUpperHexDigit(c)
  {
    if c <= '9' then c as int - '0' as int else c as int - 'A' as int + 10
  }

  lemma HexDigitRoundTrip(n: nat)
    requires n < 16
    ensures IsUpperHexDigit(HexDigit(n)) && HexValue(HexDigit(n)) == n
  {
  }

  /** The hexadecimal digits of `n`, most significant first, without leading zeros. */
  function HexDigits(n: nat): (ds: string)
    ensures |ds| >= 1
    ensures forall i :: 0 <= i < |ds| ==> IsUpperHexDigit(ds[i])
  {
    if n < 16 then [HexDigit(n)] else HexDigits(n / 16) + [HexDigit(n % 16)]
  }

  /**
   * `String.format("%02X", n)` for a Kotlin `Int`: a negative value is shown
   * as its 32-bit two's complement; at least two digits, zero-padded.
   */
  function Hex02(n: int): (h: string)
    ensures |h| >= 2 && forall i :: 0 <= i < |h| ==> IsUpperHexDigit(h[i])
  {
    var ds := HexDigits(n % 0x1_0000_0000);
    if |ds| < 2 then "0" + ds else ds
  }

  /**
   * `toHex(r, g, b)`: `String.format("#%02X%02X%02X", r, g, b)`; for any
   * `Int` channels, "#" and then at least six upper-case hex digits.
   */
  function ToHex(r: int, g: int, b: int): (t: string)
    ensures |t| >= 7 && t[0] == '#' && forall i :: 1 <= i < |t| ==> IsUpperHexDigit(t[i])
  {
    var hr, hg, hb := Hex02(r), Hex02(g), Hex02(b);
    var t := "#" + hr + hg + hb;
    assert forall i :: 1 <= i < |t| ==> t[i] == (hr + hg + hb)[i - 1];
    t
  }

  /** For a channel in 0..255, `%02X` is exactly two digits, high nibble first. */
  lemma Hex02Channel(n: int)
    requires 0 <= n <= 255
    ensures Hex02(n) == [HexDigit(n / 16), HexDigit(n % 16)]
  {
    assert n % 0x1_0000_0000 == n;
    if n < 16 {
      assert HexDigits(n) == [HexDigit(n)];
    } else {
      assert HexDigits(n / 16) == [HexDigit(n / 16)];
    }
  }

  /** Reads "#RRGGBB" back into three channels. */
  function DecodeHex(t: string): Option<(int, int, int)> {
    if |t| == 7 && t[0] == '#' && forall i :: 1 <= i < 7 ==> IsUpperHexDigit(t[i]) then
      Some((HexValue(t[1]) * 16 + HexValue(t[2]),
            HexValue(t[3]) * 16 + HexValue(t[4]),
            HexValue(t[5]) * 16 + HexValue(t[6])))
    else None
  }

  /** For a channel in 0..255, `%02X` is two upper-case digits that read back as the channel. */
  lemma Hex02Decode(n: int)
    requires 0 <= n <= 255
    ensures var h := Hex02(n);
      |h| == 2 && IsUpperHexDigit(h[0]) && IsUpperHexDigit(h[1]) && HexValue(h[0]) * 16 + HexValue(h[1]) == n
  {
    Hex02Channel(n);
    HexDigitRoundTrip(n / 16);
    HexDigitRoundTrip(n % 16);
  }

  /**
   * For channels in 0..255, `toHex` is "#" and six upper-case hex digits,
   * two per channel in r, g, b order, and decoding them gives the channels back.
   */
  lemma ToHexRoundTrip(r: int, g: int, b: int)
    requires 0 <= r <= 255 && 0 <= g <= 255 && 0 <= b <= 255
    ensures var t := ToHex(r, g, b);
      |t| == 7 && t[0] == '#' && (forall i :: 1 <= i < 7 ==> IsUpperHexDigit(t[i])) &&
      DecodeHex(t) == Some((r, g, b))
  {
    var hr, hg, hb := Hex02(r), Hex02(g), Hex02(b);
    Hex02Decode(r);
    Hex02Decode(g);
    Hex02Decode(b);
    var t := ToHex(r, g, b);
    assert t == ['#', hr[0], hr[1], hg[0], hg[1], hb[0], hb[1]];
  }
}
