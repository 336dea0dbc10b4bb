/**
 * `escapeHtml` of both documentation providers: `&`, `<`, `>`, `"`, `'` are
 * replaced, in that order, by their HTML entities. Also the `\n` -> `<br/>`
 * step applied to descriptions after escaping, and the decoders that undo both.
 */
module Html {
  import opened Text

  /** The five characters that `escapeHtml` rewrites. */
  predicate IsSpecial(c: char) {
    c == '&' || c == '<' || c == '>' || c == '"' || c == '\''
  }

  /**
   * `escapeHtml(s)`: the chain of five `replace` calls, `&` first. None of
   * `<`, `>`, `"`, `'` survives, since no later replacement puts one back.
   */
  function EscapeHtml(s: string): (r: string)
    ensures '<' !in r && '>' !in r && '"' !in r && '\'' !in r
  {
    assert '<' !in "&gt;" && '<' !in "&quot;" && '<' !in "&#39;";
    assert '>' !in "&quot;" && '>' !in "&#39;" && '"' !in "&#39;";
    var amp := ReplaceChar(s, '&', "&amp;");
    var lt := ReplaceChar(amp, '<', "&lt;");
    assert '<' !in lt;
    var gt := ReplaceChar(lt, '>', "&gt;");
    assert '<' !in gt && '>' !in gt;
    var quot := ReplaceChar(gt, '"', "&quot;");
    assert '<' !in quot && '>' !in quot && '"' !in quot;
    ReplaceChar(quot, '\'', "&#39;")
  }

  /** The entity a single character becomes. */
  function EscapeChar(c: char): string {
    if c == '&' then "&amp;"
    else if c == '<' then "&lt;"
    else if c == '>' then "&gt;"
    else if c == '"' then "&quot;"
    else if c == '\'' then "&#39;"
    else [c]
  }

  /** Character-by-character escaping: the reference definition of `EscapeHtml`. */
  function EscapeEach(s: string): string {
    if |s| == 0 then "" else EscapeChar(s[0]) + EscapeEach(s[1..])
  }

  /** No character that could open a tag or close an attribute value. */
  predicate NoMarkup(t: string) {
    forall i :: 0 <= i < |t| ==> t[i] != '<' && t[i] != '>' && t[i] != '"' && t[i] != '\''
  }

  /** An entity produced by `escapeHtml` begins at index `i` of `t`. */
  predicate EntityAt(t: string, i: nat)
    requires i < |t|
  {
    var rest := t[i..];
    "&amp;" <= rest || "&lt;" <= rest || "&gt;" <= rest || "&quot;" <= rest || "&#39;" <= rest
  }

  /** Every `&` in `t` begins one of the five entities. */
  predicate AmpersandsAreEntities(t: string) {
    forall i :: 0 <= i < |t| && t[i] == '&' ==> EntityAt(t, i)
  }

  /** What escaped text is: nothing that can inject markup, and every `&` an entity. */
  predicate IsEscaped(t: string) {
    NoMarkup(t) && AmpersandsAreEntities(t)
  }

  /** Decodes the five entities left to right (the replacements undone). */
  function Unescape(t: string): string {
    if |t| == 0 then ""
    else if "&amp;" <= t then "&" + Unescape(t[5..])
    else if "&lt;" <= t then "<" + Unescape(t[4..])
    else if "&gt;" <= t then ">" + Unescape(t[4..])
    else if "&quot;" <= t then "\"" + Unescape(t[6..])
    else if "&#39;" <= t then "'" + Unescape(t[5..])
    else [t[0]] + Unescape(t[1..])
  }

  /** The replacements after the one that produced `e` leave it alone. */
  lemma ReplaceAbsent(e: string, c: char, rep: string)
    requires c !in e
    ensures ReplaceChar(e, c, rep) == e
  {
  }

  /** The chain of replacements applied to one character gives its entity. */
  lemma EscapeHtmlOneChar(c: char)
    ensures EscapeHtml([c]) == EscapeChar(c)
  {
    if IsSpecial(c) {
      EscapeSpecialOneChar(c);
    } else {
      var s := [c];
      ReplaceAbsent(s, '&', "&amp;");
      ReplaceAbsent(s, '<', "&lt;");
      ReplaceAbsent(s, '>', "&gt;");
      ReplaceAbsent(s, '"', "&quot;");
      ReplaceAbsent(s, '\'', "&#39;");
    }
  }

  /** A special character is replaced by its own stage and left alone by the others. */
  lemma EscapeSpecialOneChar(c: char)
    requires IsSpecial(c)
    ensures EscapeHtml([c]) == EscapeChar(c)
  {
    var s := [c];
    if c == '&' {
      ReplaceCharOne(c, '&', "&amp;");
      EscapeTail("&amp;", 1);
    } else {
      ReplaceAbsent(s, '&', "&amp;");
      if c == '<' {
        ReplaceCharOne(c, '<', "&lt;");
        EscapeTail("&lt;", 2);
      } else {
        ReplaceAbsent(s, '<', "&lt;");
        if c == '>' {
          ReplaceCharOne(c, '>', "&gt;");
          EscapeTail("&gt;", 3);
        } else {
          ReplaceAbsent(s, '>', "&gt;");
          if c == '"' {
            ReplaceCharOne(c, '"', "&quot;");
            ReplaceAbsent("&quot;", '\'', "&#39;");
          } else {
            ReplaceAbsent(s, '"', "&quot;");
            ReplaceCharOne(c, '\'', "&#39;");
          }
        }
      }
    }
  }

  /** The replacements after stage `k` do not touch a string free of their characters. */
  lemma EscapeTail(e: string, k: nat)
    requires 1 <= k <= 3
    requires k <= 1 ==> '<' !in e
    requires k <= 2 ==> '>' !in e
    requires '"' !in e && '\'' !in e
    ensures k == 1 ==> ReplaceChar(ReplaceChar(ReplaceChar(ReplaceChar(e, '<', "&lt;"), '>', "&gt;"), '"', "&quot;"), '\'', "&#39;") == e
    ensures k == 2 ==> ReplaceChar(ReplaceChar(ReplaceChar(e, '>', "&gt;"), '"', "&quot;"), '\'', "&#39;") == e
    ensures k == 3 ==> ReplaceChar(ReplaceChar(e, '"', "&quot;"), '\'', "&#39;") == e
  {
  }

  /** `EscapeHtml` distributes over concatenation. */
  lemma EscapeHtmlConcat(a: string, b: string)
    ensures EscapeHtml(a + b) == EscapeHtml(a) + EscapeHtml(b)
  {
    var a1, b1 := ReplaceChar(a, '&', "&amp;"), ReplaceChar(b, '&', "&amp;");
    ReplaceCharConcat(a, b, '&', "&amp;");
    var a2, b2 := ReplaceChar(a1, '<', "&lt;"), ReplaceChar(b1, '<', "&lt;");
    ReplaceCharConcat(a1, b1, '<', "&lt;");
    var a3, b3 := ReplaceChar(a2, '>', "&gt;"), ReplaceChar(b2, '>', "&gt;");
    ReplaceCharConcat(a2, b2, '>', "&gt;");
    var a4, b4 := ReplaceChar(a3, '"', "&quot;"), ReplaceChar(b3, '"', "&quot;");
    ReplaceCharConcat(a3, b3, '"', "&quot;");
    ReplaceCharConcat(a4, b4, '\'', "&#39;");
  }

  /** The ordered chain of replacements equals character-by-character escaping. */
  lemma {:induction false} EscapeHtmlIsEscapeEach(s: string)
    ensures EscapeHtml(s) == EscapeEach(s)
  {
    if |s| == 0 {
      EscapeHtmlEmpty();
    } else {
      assert s == [s[0]] + s[1..];
      EscapeHtmlConcat([s[0]], s[1..]);
      EscapeHtmlOneChar(s[0]);
      EscapeHtmlIsEscapeEach(s[1..]);
      assert EscapeEach(s) == EscapeChar(s[0]) + EscapeEach(s[1..]);
    }
  }

  /** Escaping the empty string gives the empty string. */
  lemma EscapeHtmlEmpty()
    ensures EscapeHtml("") == ""
  {
    assert ReplaceChar("", '&', "&amp;") == "";
  }

  /** Escaped text is free of markup characters and every `&` begins an entity. */
  lemma {:induction false} EscapeEachIsEscaped(s: string)
    ensures IsEscaped(EscapeEach(s))
  {
    if |s| > 0 {
      EscapeEachIsEscaped(s[1..]);
      var e, rest := EscapeChar(s[0]), EscapeEach(s[1..]);
      var t := e + rest;
      EscapeCharShape(s[0], rest);
      assert t == EscapeEach(s);
      forall i | 0 <= i < |t|
        ensures t[i] != '<' && t[i] != '>' && t[i] != '"' && t[i] != '\''
        ensures t[i] == '&' ==> EntityAt(t, i)
      {
        if i >= |e| {
          assert t[i] == rest[i - |e|];
          assert t[i..] == rest[i - |e|..];
        }
      }
    }
  }

  /** The escape of one character: markup-free, with an `&` only in front, starting an entity. */
  lemma EscapeCharShape(c: char, rest: string)
    ensures NoMarkup(EscapeChar(c))
    ensures forall i :: 0 < i < |EscapeChar(c)| ==> EscapeChar(c)[i] != '&'
    ensures EscapeChar(c)[0] == '&' ==> EntityAt(EscapeChar(c) + rest, 0)
  {
    var t := EscapeChar(c) + rest;
    assert t[0..] == t;
  }

  /** Decoding undoes the escaping of one character. */
  lemma UnescapeEscapeChar(c: char, rest: string)
    ensures Unescape(EscapeChar(c) + rest) == [c] + Unescape(rest)
  {
    if c == '&' || c == '"' || c == '\'' {
      UnescapeLongEntity(c, rest);
    } else if c == '<' || c == '>' {
      UnescapeShortEntity(c, rest);
    } else {
      var t := EscapeChar(c) + rest;
      assert t[0] == c;
      assert t[1..] == rest;
    }
  }

  lemma UnescapeLongEntity(c: char, rest: string)
    requires c == '&' || c == '"' || c == '\''
    ensures Unescape(EscapeChar(c) + rest) == [c] + Unescape(rest)
  {
    var t := EscapeChar(c) + rest;
    if c == '&' {
      assert "&amp;" <= t;
      assert t[5..] == rest;
    } else if c == '"' {
      assert t[1] == 'q';
      assert "&quot;" <= t;
      assert t[6..] == rest;
    } else {
      assert t[1] == '#';
      assert "&#39;" <= t;
      assert t[5..] == rest;
    }
  }

  lemma UnescapeShortEntity(c: char, rest: string)
    requires c == '<' || c == '>'
    ensures Unescape(EscapeChar(c) + rest) == [c] + Unescape(rest)
  {
    var t := EscapeChar(c) + rest;
    if c == '<' {
      assert t[1] == 'l';
      assert "&lt;" <= t;
      assert t[4..] == rest;
    } else {
      assert t[1] == 'g';
      assert "&gt;" <= t;
      assert t[4..] == rest;
    }
  }

  lemma {:induction false} UnescapeEscapeEach(s: string)
    ensures Unescape(EscapeEach(s)) == s
  {
    if |s| > 0 {
      UnescapeEscapeChar(s[0], EscapeEach(s[1..]));
      UnescapeEscapeEach(s[1..]);
    }
  }

  /**
   * The properties `escapeHtml` exists for: its output cannot inject markup,
   * every `&` in it begins an entity, and decoding the entities gives the
   * input back (so no two inputs escape alike).
   */
  lemma EscapeHtmlSound(s: string)
    ensures IsEscaped(EscapeHtml(s))
    ensures Unescape(EscapeHtml(s)) == s
  {
    EscapeHtmlIsEscapeEach(s);
    EscapeEachIsEscaped(s);
    UnescapeEscapeEach(s);
  }

  /** Escaping introduces no line break. */
  lemma EscapeHtmlKeepsNoLineBreak(s: string)
    requires forall i :: 0 <= i < |s| ==> !IsLineBreak(s[i])
    ensures forall i :: 0 <= i < |EscapeHtml(s)| ==> !IsLineBreak(EscapeHtml(s)[i])
  {
    EscapeHtmlIsEscapeEach(s);
    EscapeEachNoLineBreak(s);
  }

  lemma {:induction false} EscapeEachNoLineBreak(s: string)
    requires forall i :: 0 <= i < |s| ==> !IsLineBreak(s[i])
    ensures forall i :: 0 <= i < |EscapeEach(s)| ==> !IsLineBreak(EscapeEach(s)[i])
  {
    if |s| > 0 {
      EscapeEachNoLineBreak(s[1..]);
      var e, rest := EscapeChar(s[0]), EscapeEach(s[1..]);
      assert forall i :: 0 <= i < |e| ==> !IsLineBreak(e[i]);
      assert EscapeEach(s) == e + rest;
    }
  }

  /** The description of a doc: escaped, then each `\n` turned into `<br/>`. */
  function DescriptionHtml(d: string): string {
    ReplaceChar(EscapeHtml(d), '\n', "<br/>")
  }

  /** Turns each `<br/>` back into a newline. */
  function UnBreak(t: string): string {
    if |t| == 0 then ""
    else if "<br/>" <= t then "\n" + UnBreak(t[5..])
    else [t[0]] + UnBreak(t[1..])
  }

  lemma {:induction false} UnBreakReplace(s: string)
    requires '<' !in s
    ensures UnBreak(ReplaceChar(s, '\n', "<br/>")) == s
  {
    if |s| > 0 {
      var rest := ReplaceChar(s[1..], '\n', "<br/>");
      UnBreakReplace(s[1..]);
      if s[0] == '\n' {
        var t := "<br/>" + rest;
        assert "<br/>" <= t && t[5..] == rest;
      } else {
        var t := [s[0]] + rest;
        assert t[0] == s[0] && t[1..] == rest;
      }
    }
  }

  /**
   * Descriptions are escaped BEFORE newlines become `<br/>`: the result has no
   * raw newline, its `<br/>` marks are exactly the description's newlines,
   * with those marks decoded it is escaped text, and decoding that gives the
   * description back.
   */
  lemma DescriptionHtmlSound(d: string)
    ensures '\n' !in DescriptionHtml(d) && '"' !in DescriptionHtml(d) && '\'' !in DescriptionHtml(d)
    ensures UnBreak(DescriptionHtml(d)) == EscapeHtml(d) && IsEscaped(UnBreak(DescriptionHtml(d)))
    ensures Unescape(UnBreak(DescriptionHtml(d))) == d
  {
    var e := EscapeHtml(d);
    EscapeHtmlSound(d);
    NoMarkupNotIn(e);
    var r := ReplaceChar(e, '\n', "<br/>");
    assert r == DescriptionHtml(d);
    assert '"' !in "<br/>" && '\'' !in "<br/>" && '\n' !in "<br/>";
    assert '"' !in r && '\'' !in r && '\n' !in r;
    UnBreakReplace(e);
  }

  /** Text without markup characters holds none of `<`, `>`, `"` and `'`. */
  lemma NoMarkupNotIn(t: string)
    requires NoMarkup(t)
    ensures '<' !in t && '>' !in t && '"' !in t && '\'' !in t
  {
  }
}
