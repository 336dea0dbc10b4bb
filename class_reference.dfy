/**
 * Reference ranges of HywindClassReference.kt: every maximal run of
 * `[A-Za-z0-9:_-]` in an unquoted attribute value becomes one reference, with
 * a half-open range in value coordinates and the same range shifted into the
 * attribute's text.
 */
module ClassReference {
  import opened Options
  import opened Lists
  import opened Text

  /** A half-open range `[start, end)`. */
  datatype Span = Span(start: nat, end: nat)

  /** `sp` is a maximal run of token characters of `s`. */
  predicate IsRun(s: string, sp: Span) {
    sp.start < sp.end <= |s| &&
    (forall p :: sp.start <= p < sp.end ==> IsTokenChar(s[p])) &&
    (sp.start == 0 || !IsTokenChar(s[sp.start - 1])) &&
    (sp.end == |s| || !IsTokenChar(s[sp.end]))
  }

  predicate Covers(sp: Span, p: int) {
    sp.start <= p < sp.end
  }

  /** Left to right, with a gap between neighbours. */
  predicate Increasing(sps: seq<Span>) {
    forall k, l :: 0 <= k < l < |sps| ==> sps[k].end < sps[l].start
  }

  /** Some range of `sps` contains `p`. */
  predicate Covered(sps: seq<Span>, p: int) {
    exists k :: 0 <= k < |sps| && Covers(sps[k], p)
  }

  /** End (exclusive) of the run of token characters starting at `i`. */
  function RunEnd(s: string, i: nat): (j: nat)
    requires i <= |s|
    ensures i <= j <= |s|
    ensures forall k :: i <= k < j ==> IsTokenChar(s[k])
    ensures j == |s| || !IsTokenChar(s[j])
    decreases |s| - i
  {
    if i < |s| && IsTokenChar(s[i]) then RunEnd(s, i + 1) else i
  }

  /** The matches `findAll` reports from index `i` on. */
  function SpansFrom(s: string, i: nat): (sps: seq<Span>)
    requires i <= |s|
    ensures forall k :: 0 <= k < |sps| ==> i <= sps[k].start < sps[k].end <= |s|
    decreases |s| - i
  {
    if i == |s| then []
    else if !IsTokenChar(s[i]) then SpansFrom(s, i + 1)
    else [Span(i, RunEnd(s, i))] + SpansFrom(s, RunEnd(s, i))
  }

  /** `"[A-Za-z0-9:_-]+".toRegex().findAll(s)`, as ranges. */
  function TokenSpans(s: string): (sps: seq<Span>)
    ensures forall k :: 0 <= k < |sps| ==> sps[k].start < sps[k].end <= |s|
  {
    SpansFrom(s, 0)
  }

  /** `i` does not split a run of token characters. */
  predicate AtBoundary(s: string, i: nat)
    requires i <= |s|
  {
    i == 0 || i == |s| || !IsTokenChar(s[i - 1]) || !IsTokenChar(s[i])
  }

  /** The matches from a boundary `i` on are maximal runs starting at or after `i`. */
  lemma {:induction false} SpansFromRuns(s: string, i: nat)
    requires i <= |s| && AtBoundary(s, i)
    ensures forall k :: 0 <= k < |SpansFrom(s, i)| ==> IsRun(s, SpansFrom(s, i)[k]) && i <= SpansFrom(s, i)[k].start
    decreases |s| - i
  {
    if i < |s| && !IsTokenChar(s[i]) {
      SpansFromRuns(s, i + 1);
    } else if i < |s| {
      var j := RunEnd(s, i);
      SpansFromRuns(s, j);
      assert SpansFrom(s, i) == [Span(i, j)] + SpansFrom(s, j);
    }
  }

  /** Consecutive matches are separated by at least one non-token character. */
  lemma {:induction false} SpansFromOrdered(s: string, i: nat)
    requires i <= |s| && AtBoundary(s, i)
    ensures Increasing(SpansFrom(s, i))
    decreases |s| - i
  {
    if i < |s| && !IsTokenChar(s[i]) {
      SpansFromOrdered(s, i + 1);
      assert SpansFrom(s, i) == SpansFrom(s, i + 1);
    } else if i < |s| {
      var j := RunEnd(s, i);
      var rest := SpansFrom(s, j);
      var sps := SpansFrom(s, i);
      SpansFromOrdered(s, j);
      RestAfterRun(s, i);
      assert sps == [Span(i, j)] + rest;
      forall k, l | 0 <= k < l < |sps|
        ensures sps[k].end < sps[l].start
      {
        assert sps[l] == rest[l - 1];
        if k > 0 {
          assert sps[k] == rest[k - 1];
        }
      }
    }
  }

  /** The matches after the run starting at `i` all start past its end. */
  lemma RestAfterRun(s: string, i: nat)
    requires i < |s| && IsTokenChar(s[i])
    ensures forall m :: 0 <= m < |SpansFrom(s, RunEnd(s, i))| ==> RunEnd(s, i) < SpansFrom(s, RunEnd(s, i))[m].start
  {
    var j := RunEnd(s, i);
    var rest := SpansFrom(s, j);
    SpansFromRuns(s, j);
    forall m | 0 <= m < |rest|
      ensures j < rest[m].start
    {
      assert IsRun(s, rest[m]);
      assert IsTokenChar(s[rest[m].start]);
    }
  }

  /** The matches from `i` on cover exactly the token characters at or after `i`. */
  lemma {:induction false} SpansFromCover(s: string, i: nat)
    requires i <= |s|
    ensures forall p :: i <= p < |s| ==> (IsTokenChar(s[p]) <==> Covered(SpansFrom(s, i), p))
    decreases |s| - i
  {
    var sps := SpansFrom(s, i);
    if i < |s| && !IsTokenChar(s[i]) {
      SpansFromCover(s, i + 1);
      assert sps == SpansFrom(s, i + 1);
    } else if i < |s| {
      var j := RunEnd(s, i);
      var rest := SpansFrom(s, j);
      SpansFromCover(s, j);
      assert sps == [Span(i, j)] + rest;
      forall p | i <= p < |s|
        ensures IsTokenChar(s[p]) <==> Covered(sps, p)
      {
        if p < j {
          assert Covers(sps[0], p);
        } else if IsTokenChar(s[p]) {
          var k' :| 0 <= k' < |rest| && Covers(rest[k'], p);
          assert sps[k' + 1] == rest[k'];
        } else {
          forall k | 0 <= k < |sps|
            ensures !Covers(sps[k], p)
          {
            if k > 0 {
              assert sps[k] == rest[k - 1];
            }
          }
        }
      }
    }
  }

  /** Two maximal runs that share a position are the same run. */
  lemma RunsUnique(s: string, a: Span, b: Span, p: int)
    requires IsRun(s, a) && IsRun(s, b) && Covers(a, p) && Covers(b, p)
    ensures a == b
  {
  }

  /**
   * The tokenizer's whole contract: the ranges are exactly the maximal runs of
   * token characters, non-empty, left to right with a separator between
   * neighbours, and a position is inside some range iff it holds a token
   * character.
   */
  lemma TokenSpansCharacterization(s: string)
    ensures var sps := TokenSpans(s);
      (forall k :: 0 <= k < |sps| ==> IsRun(s, sps[k])) &&
      Increasing(sps) &&
      (forall p :: 0 <= p < |s| ==> (IsTokenChar(s[p]) <==> Covered(sps, p)))
    ensures forall sp :: IsRun(s, sp) ==> sp in TokenSpans(s)
  {
    SpansFromRuns(s, 0);
    SpansFromOrdered(s, 0);
    SpansFromCover(s, 0);
    var sps := TokenSpans(s);
    forall sp | IsRun(s, sp)
      ensures sp in sps
    {
      assert IsTokenChar(s[sp.start]);
      var k :| 0 <= k < |sps| && Covers(sps[k], sp.start);
      RunsUnique(s, sp, sps[k], sp.start);
    }
  }

  /** An empty value, or one without any token character, has no references. */
  lemma NoTokenCharsNoSpans(s: string)
    requires forall p :: 0 <= p < |s| ==> !IsTokenChar(s[p])
    ensures TokenSpans(s) == []
  {
    NoTokenCharsNoSpansFrom(s, 0);
  }

  lemma {:induction false} NoTokenCharsNoSpansFrom(s: string, i: nat)
    requires i <= |s|
    requires forall p :: i <= p < |s| ==> !IsTokenChar(s[p])
    ensures SpansFrom(s, i) == []
    decreases |s| - i
  {
    if i < |s| {
      NoTokenCharsNoSpansFrom(s, i + 1);
    }
  }

  /** For a position holding a token character, the range that contains it. */
  function SpanAt(s: string, p: int): Option<Span> {
    Find(TokenSpans(s), (sp: Span) => Covers(sp, p))
  }

  /** The range containing `p` is the maximal run around `p`, whichever way it was found. */
  lemma SpanAtIsRun(s: string, sp: Span, p: int)
    requires IsRun(s, sp) && Covers(sp, p)
    ensures SpanAt(s, p) == Some(sp)
  {
    TokenSpansCharacterization(s);
    var sps := TokenSpans(s);
    var k :| 0 <= k < |sps| && Covers(sps[k], p);
    var found := SpanAt(s, p);
    assert found.Some?;
    RunsUnique(s, sp, found.value, p);
  }

  /** One reference: its range in the value, its range in the attribute text, and its token. */
  datatype Reference = Reference(valueRange: Span, attrRange: Span, token: string)

  /** `HywindClassPsiElement(manager, language, token)`: name and text are the token. */
  datatype ClassPsiElement = ClassPsiElement(name: string) {
    function Text(): string { name }
  }

  /** `resolve()` of a reference. */
  function Resolve(ref: Reference): (e: ClassPsiElement)
    ensures e.name == ref.token && e.Text() == ref.token
  {
    ClassPsiElement(ref.token)
  }

  /** `attrText.indexOf(text).coerceAtLeast(0)`. */
  function ValueShift(attrText: string, value: string): (shift: nat)
    ensures IndexOf(attrText, value) >= 0 ==> shift == IndexOf(attrText, value) && OccursAt(attrText, value, shift)
    ensures IndexOf(attrText, value) < 0 ==> shift == 0
  {
    var i := IndexOf(attrText, value);
    if i < 0 then 0 else i
  }

  /** The reference built for one match: its range, that range shifted into the attribute text, its text. */
  function RefFor(value: string, attrText: string, sp: Span): Reference
    requires sp.start <= sp.end <= |value|
  {
    var shift := ValueShift(attrText, value);
    Reference(sp, Span(shift + sp.start, shift + sp.end), value[sp.start..sp.end])
  }

  /** `refs` holds, in order, the reference built for each match in `spans`. */
  predicate RefsFor(value: string, attrText: string, spans: seq<Span>, refs: seq<Reference>) {
    |refs| == |spans| &&
    forall k :: 0 <= k < |spans| ==>
      spans[k].start <= spans[k].end <= |value| && refs[k] == RefFor(value, attrText, spans[k])
  }

  /** Adding one match and its reference keeps the correspondence. */
  lemma RefsForAppend(value: string, attrText: string, spans: seq<Span>, refs: seq<Reference>, sp: Span)
    requires RefsFor(value, attrText, spans, refs)
    requires sp.start <= sp.end <= |value|
    ensures RefsFor(value, attrText, spans + [sp], refs + [RefFor(value, attrText, sp)])
  {
    var spans', refs' := spans + [sp], refs + [RefFor(value, attrText, sp)];
    forall k | 0 <= k < |spans'|
      ensures spans'[k].start <= spans'[k].end <= |value| && refs'[k] == RefFor(value, attrText, spans'[k])
    {
      if k < |spans| {
        assert spans'[k] == spans[k] && refs'[k] == refs[k];
      }
    }
  }

  /**
   * `getReferencesByElement`: one reference per `findAll` match of the token
   * regex in `value`, in order, each range shifted by where `value` sits in
   * `attrText`.
   */
  method GetReferences(value: string, attrText: string) returns (refs: seq<Reference>)
    ensures |refs| == |TokenSpans(value)|
    ensures forall k :: 0 <= k < |refs| ==>
      var sp := TokenSpans(value)[k];
      refs[k].valueRange == sp &&
      refs[k].token == value[sp.start..sp.end] &&
      refs[k].attrRange == Span(ValueShift(attrText, value) + sp.start, ValueShift(attrText, value) + sp.end)
  {
    var matches := TokenSpans(value);
    refs := [];
    for n := 0 to |matches|
      invariant RefsFor(value, attrText, matches[..n], refs)
    {
      var m := matches[n];
      var startInValue, endInValue := m.start, m.end;
      var token := value[startInValue..endInValue];
      var index := IndexOf(attrText, value);
      var valueIndexInAttr := if index < 0 then 0 else index;
      var rangeInAttr := Span(valueIndexInAttr + startInValue, valueIndexInAttr + endInValue);
      RefsForAppend(value, attrText, matches[..n], refs, m);
      assert matches[..n + 1] == matches[..n] + [m];
      refs := refs + [Reference(Span(startInValue, endInValue), rangeInAttr, token)];
    }
    assert matches[..|matches|] == matches;
  }

  /** The example of a value with three tokens and irregular separators. */
  lemma ThreeTokens()
    ensures TokenSpans("a b-c :d_e") == [Span(0, 1), Span(2, 5), Span(6, 10)]
  {
    var s := "a b-c :d_e";
    assert RunEnd(s, 0) == 1;
    assert RunEnd(s, 2) == 5;
    assert RunEnd(s, 6) == 10;
  }
}
