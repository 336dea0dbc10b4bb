/**
 * The Kotlin string primitives the plugin relies on, over `seq<char>`:
 * the token character class `[A-Za-z0-9:_-]`, `trim()`, `trim('"', '\'')`,
 * `isBlank()`, `lines().first()`, `indexOf`, `contains`, `replace` of one
 * character, and `split(Regex("\\s+"))`.
 */
module Text {
  import opened Options
  import opened Lists

  /** One character of the regex class `[A-Za-z0-9:_-]`. */
  predicate IsTokenChar(c: char) {
    ('A' <= c <= 'Z') || ('a' <= c <= 'z') || ('0' <= c <= '9') || c == ':' || c == '_' || c == '-'
  }

  /** `s.matches("[A-Za-z0-9:_-]+".toRegex())`: non-empty and only token characters. */
  predicate IsToken(s: string) {
    |s| > 0 && forall i :: 0 <= i < |s| ==> IsTokenChar(s[i])
  }

  /** Java's regex `\s` without the Unicode flag: space, \t, \n, \u000B, \f, \r. */
  predicate IsRegexSpace(c: char) {
    c == ' ' || c == '\t' || c == '\n' || c == '\U{B}' || c == '\U{C}' || c == '\r'
  }

  /**
   * Kotlin's `Char.isWhitespace()` on the JVM (used by `trim()` and `isBlank()`):
   * the ASCII controls U+0009..U+000D and U+001C..U+001F, and the Unicode
   * space separators, line separator and paragraph separator.
   */
  predicate IsWhitespace(c: char) {
    ('\t' <= c <= '\r') || ('\U{1C}' <= c <= ' ') || c == '\U{A0}' || c == '\U{1680}' ||
    ('\U{2000}' <= c <= '\U{200A}') || c == '\U{2028}' || c == '\U{2029}' || c == '\U{202F}' ||
    c == '\U{205F}' || c == '\U{3000}'
  }

  /** The two line terminators recognised by Kotlin's `lines()`. */
  predicate IsLineBreak(c: char) {
    c == '\n' || c == '\r'
  }

  /** Kotlin's `isBlank()`: empty or whitespace only. */
  predicate IsBlank(s: string) {
    forall i :: 0 <= i < |s| ==> IsWhitespace(s[i])
  }

  /** Kotlin's `isNullOrBlank()`. */
  predicate IsNullOrBlank(s: Option<string>) {
    s.None? || IsBlank(s.value)
  }

  /** `"` or `'`, the characters removed by `trim('"', '\'')`. */
  predicate IsQuote(c: char) {
    c == '"' || c == '\''
  }

  /** Drops the longest prefix of characters satisfying `p`. */
  function TrimStart(s: string, p: char -> bool): (r: string)
    ensures |r| <= |s| && r == s[|s| - |r|..]
    ensures forall i :: 0 <= i < |s| - |r| ==> p(s[i])
    ensures |r| > 0 ==> !p(r[0])
  {
    if |s| > 0 && p(s[0]) then TrimStart(s[1..], p) else s
  }

  /** Drops the longest suffix of characters satisfying `p`. */
  function TrimEnd(s: string, p: char -> bool): (r: string)
    ensures |r| <= |s| && r == s[..|r|]
    ensures forall i :: |r| <= i < |s| ==> p(s[i])
    ensures |r| > 0 ==> !p(r[|r| - 1])
  {
    if |s| > 0 && p(s[|s| - 1]) then TrimEnd(s[..|s| - 1], p) else s
  }

  /** Kotlin's `trim { p(it) }`: both ends, leaving a contiguous slice of `s`. */
  function TrimBy(s: string, p: char -> bool): (r: string)
    ensures exists a, b :: 0 <= a <= b <= |s| && r == s[a..b] &&
                          (forall i :: 0 <= i < a ==> p(s[i])) &&
                          (forall i :: b <= i < |s| ==> p(s[i]))
    ensures |r| > 0 ==> !p(r[0]) && !p(r[|r| - 1])
  {
    var t := TrimStart(s, p);
    var r := TrimEnd(t, p);
    var a := |s| - |t|;
    assert r == s[a..a + |r|];
    r
  }

  /** Kotlin's `trim()`: no whitespace left at either end, and "" exactly for a blank string. */
  function Trim(s: string): (r: string)
    ensures |r| <= |s|
    ensures |r| > 0 ==> !IsWhitespace(r[0]) && !IsWhitespace(r[|r| - 1])
    ensures r == "" <==> IsBlank(s)
  {
    var r := TrimBy(s, IsWhitespace);
    assert |r| > 0 ==> r[0] in s && !IsWhitespace(r[0]);
    r
  }

  /** `trim()` keeps a contiguous slice of its input, and everything it cuts off is whitespace. */
  lemma TrimIsSlice(s: string) returns (a: nat, b: nat)
    ensures a <= b <= |s| && Trim(s) == s[a..b]
    ensures forall i :: 0 <= i < a ==> IsWhitespace(s[i])
    ensures forall i :: b <= i < |s| ==> IsWhitespace(s[i])
  {
    a, b :| 0 <= a <= b <= |s| && TrimBy(s, IsWhitespace) == s[a..b] &&
            (forall i :: 0 <= i < a ==> IsWhitespace(s[i])) &&
            (forall i :: b <= i < |s| ==> IsWhitespace(s[i]));
  }

  /** Trimming a text without line breaks introduces none. */
  lemma TrimKeepsNoLineBreak(s: string)
    requires forall i :: 0 <= i < |s| ==> !IsLineBreak(s[i])
    ensures forall i :: 0 <= i < |Trim(s)| ==> !IsLineBreak(Trim(s)[i])
  {
    var a, b := TrimIsSlice(s);
    assert forall i :: 0 <= i < |Trim(s)| ==> Trim(s)[i] == s[a + i];
  }

  /** Kotlin's `trim('"', '\'')`: no quote left at either end. */
  function TrimQuotes(s: string): (r: string)
    ensures |r| <= |s|
    ensures |r| > 0 ==> !IsQuote(r[0]) && !IsQuote(r[|r| - 1])
  {
    TrimBy(s, IsQuote)
  }

  /** `trim('"', '\'')` keeps a contiguous slice of its input, and everything it cuts off is a quote. */
  lemma TrimQuotesIsSlice(s: string) returns (a: nat, b: nat)
    ensures a <= b <= |s| && TrimQuotes(s) == s[a..b]
    ensures forall i :: 0 <= i < a ==> IsQuote(s[i])
    ensures forall i :: b <= i < |s| ==> IsQuote(s[i])
  {
    a, b :| 0 <= a <= b <= |s| && TrimBy(s, IsQuote) == s[a..b] &&
            (forall i :: 0 <= i < a ==> IsQuote(s[i])) &&
            (forall i :: b <= i < |s| ==> IsQuote(s[i]));
  }

  /** `t.trim().trim('"', '\'')`: how both providers clean a hovered text before matching it. */
  function CleanToken(t: string): (r: string)
    ensures |r| <= |t|
    ensures |r| > 0 ==> !IsQuote(r[0]) && !IsQuote(r[|r| - 1])
    ensures IsBlank(t) ==> r == ""
  {
    TrimQuotes(Trim(t))
  }

  /** Trimming a string whose two ends do not satisfy `p` is the identity. */
  lemma TrimByNothing(s: string, p: char -> bool)
    requires |s| > 0 ==> !p(s[0]) && !p(s[|s| - 1])
    ensures TrimBy(s, p) == s
  {
    if |s| > 0 {
      assert TrimStart(s, p) == s;
      assert TrimEnd(s, p) == s;
    }
  }

  /** Cleaning leaves a token untouched: tokens have neither whitespace nor quotes. */
  lemma CleanKeepsToken(t: string)
    requires IsToken(t)
    ensures CleanToken(t) == t
  {
    assert forall i :: 0 <= i < |t| ==> !IsWhitespace(t[i]) && !IsQuote(t[i]);
    TrimByNothing(t, IsWhitespace);
    TrimByNothing(t, IsQuote);
  }

  /** `desc.lines().first()`: the text before the first \n or \r. */
  function FirstLine(s: string): (r: string)
    ensures r <= s
    ensures forall i :: 0 <= i < |r| ==> !IsLineBreak(r[i])
    ensures |r| < |s| ==> IsLineBreak(s[|r|])
  {
    if |s| == 0 || IsLineBreak(s[0]) then "" else [s[0]] + FirstLine(s[1..])
  }

  /** `pat` occurs in `text` starting at index `i`. */
  predicate OccursAt(text: string, pat: string, i: int) {
    0 <= i && i + |pat| <= |text| && text[i..i + |pat|] == pat
  }

  /** First occurrence of `pat` at or after `from`, or -1. */
  function IndexFrom(text: string, pat: string, from: nat): (r: int)
    requires from <= |text|
    ensures r == -1 || from <= r
    ensures r >= 0 ==> OccursAt(text, pat, r)
    ensures r >= 0 ==> forall i :: from <= i < r ==> !OccursAt(text, pat, i)
    ensures r == -1 <==> forall i :: from <= i <= |text| ==> !OccursAt(text, pat, i)
    decreases |text| - from
  {
    if OccursAt(text, pat, from) then from
    else if from == |text| then -1
    else IndexFrom(text, pat, from + 1)
  }

  /** Kotlin's `text.indexOf(pat)`: the first occurrence, or -1 when there is none. */
  function IndexOf(text: string, pat: string): (r: int)
    ensures r >= 0 ==> OccursAt(text, pat, r) && forall i :: 0 <= i < r ==> !OccursAt(text, pat, i)
    ensures r < 0 <==> forall i :: 0 <= i <= |text| ==> !OccursAt(text, pat, i)
    ensures r >= -1
  {
    IndexFrom(text, pat, 0)
  }

  /** Kotlin's `s.contains(sub)`, which is `indexOf(sub) >= 0`: `sub` occurs somewhere in `s`. */
  predicate Contains(s: string, sub: string): (b: bool)
    ensures b <==> exists i :: 0 <= i <= |s| && OccursAt(s, sub, i)
  {
    IndexOf(s, sub) >= 0
  }

  /** Kotlin's `s.replace(c.toString(), rep)`: every occurrence of `c` becomes `rep`. */
  function ReplaceChar(s: string, c: char, rep: string): (r: string)
    ensures c !in rep ==> c !in r
    ensures c !in s ==> r == s
    ensures forall d :: d !in s && d !in rep ==> d !in r
  {
    if |s| == 0 then "" else (if s[0] == c then rep else [s[0]]) + ReplaceChar(s[1..], c, rep)
  }

  /** Replacing in a one-character string. */
  lemma ReplaceCharOne(x: char, c: char, rep: string)
    ensures ReplaceChar([x], c, rep) == if x == c then rep else [x]
  {
    assert [x][1..] == "";
  }

  /** Replacing a character distributes over concatenation. */
  lemma {:induction false} ReplaceCharConcat(a: string, b: string, c: char, rep: string)
    ensures ReplaceChar(a + b, c, rep) == ReplaceChar(a, c, rep) + ReplaceChar(b, c, rep)
  {
    if |a| > 0 {
      assert (a + b)[1..] == a[1..] + b;
      ReplaceCharConcat(a[1..], b, c, rep);
    } else {
      assert a + b == b;
    }
  }

  /** End (exclusive) of the run of regex-space characters starting at `i`. */
  function SpaceRunEnd(s: string, i: nat): (j: nat)
    requires i <= |s|
    ensures i <= j <= |s|
    ensures forall k :: i <= k < j ==> IsRegexSpace(s[k])
    ensures j == |s| || !IsRegexSpace(s[j])
    decreases |s| - i
  {
    if i < |s| && IsRegexSpace(s[i]) then SpaceRunEnd(s, i + 1) else i
  }

  /**
   * Kotlin's `s.split(Regex("\\s+"))`: the pieces between maximal runs of
   * `\s`, keeping a leading and a trailing empty piece; never an empty list.
   */
  function Split(s: string): (parts: seq<string>)
    ensures |parts| >= 1
    ensures forall k :: 0 <= k < |parts| ==> forall i :: 0 <= i < |parts[k]| ==> !IsRegexSpace(parts[k][i])
    decreases |s|
  {
    match FirstIndex(s, IsRegexSpace)
    case None => [s]
    case Some(i) =>
      var j := SpaceRunEnd(s, i);
      [s[..i]] + Split(s[j..])
  }

  /** Splitting a string without any `\s` character gives back the string alone. */
  lemma SplitNoSpace(s: string)
    requires forall i :: 0 <= i < |s| ==> !IsRegexSpace(s[i])
    ensures Split(s) == [s]
  {
  }

  /** The bounds `[lo, hi)` of one part inside the split string. */
  datatype Cut = Cut(lo: nat, hi: nat)

  /** Each piece is the slice of `s` its cut names. */
  predicate Slices(s: string, parts: seq<string>, cuts: seq<Cut>) {
    |parts| == |cuts| &&
    forall k :: 0 <= k < |cuts| ==> cuts[k].lo <= cuts[k].hi <= |s| && parts[k] == s[cuts[k].lo..cuts[k].hi]
  }

  /** The cuts run left to right with a gap between any two. */
  predicate Ordered(cuts: seq<Cut>) {
    forall k, l :: 0 <= k < l < |cuts| ==> cuts[k].hi < cuts[l].lo
  }

  /** Only the first and the last piece may be empty. */
  predicate InnerNonEmpty(cuts: seq<Cut>) {
    forall k :: 0 < k < |cuts| - 1 ==> cuts[k].lo < cuts[k].hi
  }

  /** Every gap between neighbouring cuts is made of `\s` characters. */
  predicate GapsAreSpace(s: string, cuts: seq<Cut>)
    requires forall k :: 0 <= k < |cuts| ==> cuts[k].hi <= |s|
  {
    forall k, p :: 0 <= k < |cuts| - 1 && cuts[k].hi <= p < cuts[k + 1].lo && p < |s| ==> IsRegexSpace(s[p])
  }

  /**
   * `parts` are the pieces of `s` between maximal runs of `\s`: they are the
   * slices `cuts` of `s`, left to right, from index 0 to the end; between
   * two neighbours lies a non-empty run of `\s`; and only the first and the
   * last piece can be empty.
   */
  predicate IsSplit(s: string, parts: seq<string>, cuts: seq<Cut>) {
    |cuts| > 0 && cuts[0].lo == 0 && cuts[|cuts| - 1].hi == |s| &&
    Slices(s, parts, cuts) && Ordered(cuts) && InnerNonEmpty(cuts) && GapsAreSpace(s, cuts)
  }

  /** `cuts` moved `d` places to the right. */
  function ShiftCuts(cuts: seq<Cut>, d: nat): (r: seq<Cut>)
    ensures |r| == |cuts| && forall k :: 0 <= k < |cuts| ==> r[k] == Cut(cuts[k].lo + d, cuts[k].hi + d)
  {
    seq(|cuts|, k requires 0 <= k < |cuts| => Cut(cuts[k].lo + d, cuts[k].hi + d))
  }

  /**
   * What `Split` computes: the pieces between the maximal `\s` runs of `s`,
   * with their positions; a piece is empty only at the ends, and the first
   * piece is non-empty when `s` starts with a non-`\s` character.
   */
  lemma {:induction false} SplitSlices(s: string) returns (cuts: seq<Cut>)
    ensures IsSplit(s, Split(s), cuts)
    ensures |s| > 0 && !IsRegexSpace(s[0]) ==> cuts[0].lo < cuts[0].hi
    decreases |s|
  {
    match FirstIndex(s, IsRegexSpace)
    case None =>
      assert Split(s) == [s];
      cuts := [Cut(0, |s|)];
      assert s[0..|s|] == s;
    case Some(i) =>
      var j := SpaceRunEnd(s, i);
      var rest := s[j..];
      assert Split(s) == [s[..i]] + Split(rest);
      var rc := SplitSlices(rest);
      assert |rc| > 1 ==> |rest| > 0 && !IsRegexSpace(rest[0]);
      cuts := [Cut(0, i)] + ShiftCuts(rc, j);
      SplitCons(s, i, j, Split(rest), rc);
  }

  /** A first piece `s[..i]`, a `\s` run `s[i..j]`, then a layout of `s[j..]`, make a layout of `s`. */
  lemma SplitCons(s: string, i: nat, j: nat, rparts: seq<string>, rc: seq<Cut>)
    requires i < j <= |s| && forall p :: i <= p < j ==> IsRegexSpace(s[p])
    requires IsSplit(s[j..], rparts, rc)
    requires |rc| > 1 ==> rc[0].lo < rc[0].hi
    ensures IsSplit(s, [s[..i]] + rparts, [Cut(0, i)] + ShiftCuts(rc, j))
  {
    var cuts := [Cut(0, i)] + ShiftCuts(rc, j);
    SlicesCons(s, i, j, rparts, rc);
    OrderedCons(i, j, rc);
    GapsCons(s, i, j, rc);
    InnerCons(i, j, rc);
    assert cuts[|cuts| - 1].hi == rc[|rc| - 1].hi + j == |s|;
  }

  lemma InnerCons(i: nat, j: nat, rc: seq<Cut>)
    requires InnerNonEmpty(rc) && (|rc| > 1 ==> rc[0].lo < rc[0].hi)
    ensures InnerNonEmpty([Cut(0, i)] + ShiftCuts(rc, j))
  {
    var cuts := [Cut(0, i)] + ShiftCuts(rc, j);
    forall k | 0 < k < |cuts| - 1
      ensures cuts[k].lo < cuts[k].hi
    {
      assert cuts[k] == Cut(rc[k - 1].lo + j, rc[k - 1].hi + j);
    }
  }

  lemma SlicesCons(s: string, i: nat, j: nat, rparts: seq<string>, rc: seq<Cut>)
    requires i <= j <= |s| && Slices(s[j..], rparts, rc)
    ensures Slices(s, [s[..i]] + rparts, [Cut(0, i)] + ShiftCuts(rc, j))
  {
    var cuts := [Cut(0, i)] + ShiftCuts(rc, j);
    var parts := [s[..i]] + rparts;
    forall k | 0 < k < |cuts|
      ensures cuts[k].lo <= cuts[k].hi <= |s| && parts[k] == s[cuts[k].lo..cuts[k].hi]
    {
      var c := rc[k - 1];
      assert parts[k] == s[j..][c.lo..c.hi] == s[j + c.lo..j + c.hi];
    }
  }

  lemma OrderedCons(i: nat, j: nat, rc: seq<Cut>)
    requires i < j && Ordered(rc)
    ensures Ordered([Cut(0, i)] + ShiftCuts(rc, j))
  {
  }

  lemma GapsCons(s: string, i: nat, j: nat, rc: seq<Cut>)
    requires i < j <= |s| && forall p :: i <= p < j ==> IsRegexSpace(s[p])
    requires |rc| > 0 && rc[0].lo == 0
    requires forall k :: 0 <= k < |rc| ==> rc[k].hi <= |s| - j
    requires GapsAreSpace(s[j..], rc)
    ensures GapsAreSpace(s, [Cut(0, i)] + ShiftCuts(rc, j))
  {
    var cuts := [Cut(0, i)] + ShiftCuts(rc, j);
    forall k, p | 0 <= k < |cuts| - 1 && cuts[k].hi <= p < cuts[k + 1].lo && p < |s|
      ensures IsRegexSpace(s[p])
    {
      if k > 0 {
        assert s[j..][p - j] == s[p];
        assert rc[k - 1].hi <= p - j < rc[k].lo;
      }
    }
  }

  /**
   * The converse: pieces laid out as `IsSplit` says, none holding a `\s`
   * character, are exactly what `Split` returns. Together with `SplitSlices`
   * this pins `Split(s)` down completely.
   */
  lemma {:induction false} SplitUnique(s: string, parts: seq<string>, cuts: seq<Cut>)
    requires IsSplit(s, parts, cuts)
    requires forall k, i :: 0 <= k < |parts| && 0 <= i < |parts[k]| ==> !IsRegexSpace(parts[k][i])
    ensures parts == Split(s)
    decreases |s|
  {
    if |cuts| == 1 {
      assert parts[0] == s;
      SplitNoSpace(s);
    } else {
      var rc := DropFirst(s, parts, cuts);
      SplitUnique(s[cuts[1].lo..], parts[1..], rc);
    }
  }

  /**
   * `Split` cuts a layout at its first gap: the first piece comes first, and
   * what follows the gap is laid out by the remaining pieces.
   */
  lemma DropFirst(s: string, parts: seq<string>, cuts: seq<Cut>) returns (rc: seq<Cut>)
    requires IsSplit(s, parts, cuts) && |cuts| > 1
    requires forall k, i :: 0 <= k < |parts| && 0 <= i < |parts[k]| ==> !IsRegexSpace(parts[k][i])
    ensures cuts[1].lo <= |s| && IsSplit(s[cuts[1].lo..], parts[1..], rc)
    ensures forall k, i :: 0 <= k < |parts[1..]| && 0 <= i < |parts[1..][k]| ==> !IsRegexSpace(parts[1..][k][i])
    ensures Split(s) == [parts[0]] + Split(s[cuts[1].lo..])
  {
    var lo := cuts[1].lo;
    FirstGap(s, parts, cuts);
    assert forall k :: 1 <= k < |cuts| ==> lo <= cuts[k].lo <= cuts[k].hi;
    rc := UnshiftCuts(cuts[1..], lo);
    RestIsSplit(s, parts, cuts, rc);
  }

  /** In a layout as `IsSplit` says, the first gap is where `Split` cuts first. */
  lemma FirstGap(s: string, parts: seq<string>, cuts: seq<Cut>)
    requires IsSplit(s, parts, cuts) && |cuts| > 1
    requires forall k, i :: 0 <= k < |parts| && 0 <= i < |parts[k]| ==> !IsRegexSpace(parts[k][i])
    ensures cuts[0].hi < |s| && FirstIndex(s, IsRegexSpace) == Some(cuts[0].hi)
    ensures SpaceRunEnd(s, cuts[0].hi) == cuts[1].lo && s[..cuts[0].hi] == parts[0]
  {
    var h := cuts[0].hi;
    assert h < cuts[1].lo;
    assert IsRegexSpace(s[h]);
    assert forall p :: 0 <= p < h ==> s[p] == parts[0][p];
    FirstSpaceAt(s, h);
    SpaceRunEndAt(s, parts, cuts);
  }

  /** `cuts` moved `d` places to the left; every cut starts at `d` or later. */
  function UnshiftCuts(cuts: seq<Cut>, d: nat): (r: seq<Cut>)
    requires forall k :: 0 <= k < |cuts| ==> d <= cuts[k].lo <= cuts[k].hi
    ensures |r| == |cuts| && forall k :: 0 <= k < |cuts| ==> r[k] == Cut(cuts[k].lo - d, cuts[k].hi - d)
  {
    seq(|cuts|, k requires 0 <= k < |cuts| => Cut(cuts[k].lo - d, cuts[k].hi - d))
  }

  /** Dropping the first piece and its gap leaves a layout of the rest. */
  lemma RestIsSplit(s: string, parts: seq<string>, cuts: seq<Cut>, rc: seq<Cut>)
    requires IsSplit(s, parts, cuts) && |cuts| > 1
    requires forall k :: 1 <= k < |cuts| ==> cuts[1].lo <= cuts[k].lo
    requires rc == UnshiftCuts(cuts[1..], cuts[1].lo)
    ensures IsSplit(s[cuts[1].lo..], parts[1..], rc)
  {
    SlicesRest(s, parts, cuts, rc);
    GapsRest(s, cuts, rc);
    assert Ordered(rc) by {
      assert Ordered(cuts);
    }
    assert InnerNonEmpty(rc) by {
      assert InnerNonEmpty(cuts);
    }
  }

  lemma SlicesRest(s: string, parts: seq<string>, cuts: seq<Cut>, rc: seq<Cut>)
    requires Slices(s, parts, cuts) && |cuts| > 1
    requires forall k :: 1 <= k < |cuts| ==> cuts[1].lo <= cuts[k].lo
    requires rc == UnshiftCuts(cuts[1..], cuts[1].lo)
    ensures Slices(s[cuts[1].lo..], parts[1..], rc)
  {
    var lo := cuts[1].lo;
    var rest := s[lo..];
    forall k | 0 <= k < |rc|
      ensures rc[k].lo <= rc[k].hi <= |rest| && parts[k + 1] == rest[rc[k].lo..rc[k].hi]
    {
      assert rest[rc[k].lo..rc[k].hi] == s[cuts[k + 1].lo..cuts[k + 1].hi];
    }
  }

  lemma GapsRest(s: string, cuts: seq<Cut>, rc: seq<Cut>)
    requires |cuts| > 1 && forall k :: 0 <= k < |cuts| ==> cuts[k].hi <= |s|
    requires GapsAreSpace(s, cuts)
    requires forall k :: 1 <= k < |cuts| ==> cuts[1].lo <= cuts[k].lo <= cuts[k].hi
    requires rc == UnshiftCuts(cuts[1..], cuts[1].lo)
    ensures forall k :: 0 <= k < |rc| ==> rc[k].hi <= |s| - cuts[1].lo
    ensures GapsAreSpace(s[cuts[1].lo..], rc)
  {
    var lo := cuts[1].lo;
    var rest := s[lo..];
    forall k, p | 0 <= k < |rc| - 1 && rc[k].hi <= p < rc[k + 1].lo && p < |rest|
      ensures IsRegexSpace(rest[p])
    {
      assert rest[p] == s[p + lo];
      assert cuts[k + 1].hi <= p + lo < cuts[k + 2].lo;
    }
  }

  /** When `s[h]` is the first `\s` character, the search for one stops there. */
  lemma FirstSpaceAt(s: string, h: nat)
    requires h < |s| && IsRegexSpace(s[h])
    requires forall p :: 0 <= p < h ==> !IsRegexSpace(s[p])
    ensures FirstIndex(s, IsRegexSpace) == Some(h)
  {
    var r := FirstIndex(s, IsRegexSpace);
    assert r.Some?;
    assert r.value <= h;
  }

  /** In a layout as `IsSplit` says, the first gap is a maximal `\s` run. */
  lemma SpaceRunEndAt(s: string, parts: seq<string>, cuts: seq<Cut>)
    requires IsSplit(s, parts, cuts) && |cuts| > 1
    requires forall k, i :: 0 <= k < |parts| && 0 <= i < |parts[k]| ==> !IsRegexSpace(parts[k][i])
    ensures SpaceRunEnd(s, cuts[0].hi) == cuts[1].lo
  {
    var h, lo := cuts[0].hi, cuts[1].lo;
    var j := SpaceRunEnd(s, h);
    assert forall p :: h <= p < lo ==> IsRegexSpace(s[p]);
    if lo < |s| {
      assert |cuts| == 2 ==> cuts[1].hi == |s|;
      assert cuts[1].lo < cuts[1].hi;
      assert parts[1][0] == s[lo];
      assert !IsRegexSpace(s[lo]);
    }
    assert j <= lo;
  }
}
