/**
 * HywindDocumentationProvider.kt: which token the caret is on
 * (`findTokenUnderCaret`, `extractToken`), and the name lookups of
 * `generateDoc` and `getQuickNavigateInfo`. The PSI tree is replaced by the
 * values the code reads from it.
 */
module DocumentationProvider {
  import opened Options
  import opened Lists
  import opened Text
  import opened Catalog
  import opened ClassReference
  import opened DocRender

  /** A PSI element as `findTokenUnderCaret` sees it: its text range and its text. */
  datatype ElementInfo = ElementInfo(startOffset: int, length: nat, text: string)

  /** An `XmlAttributeValue`: its unquoted `value` and where its text (opening quote included) starts. */
  datatype ValueInfo = ValueInfo(value: string, startOffset: int)

  /**
   * The caret index into `value`: the midpoint of the original element minus
   * the position just after the opening quote, clamped to 0 and then to
   * `|value| - 1` (so -1 for an empty value).
   */
  function CaretIndex(value: string, attrStart: int, orig: ElementInfo): (c: int)
    ensures var raw := orig.startOffset + orig.length / 2 - (attrStart + 1);
      (|value| == 0 ==> c == -1) &&
      (|value| > 0 ==> 0 <= c < |value|) &&
      (0 <= raw < |value| ==> c == raw) &&
      (|value| > 0 && raw < 0 ==> c == 0) &&
      (raw >= |value| ==> c == |value| - 1)
  {
    var raw := orig.startOffset + orig.length / 2 - (attrStart + 1);
    var c := if raw < 0 then 0 else raw;
    if c >= |value| then |value| - 1 else c
  }

  /**
   * What the caret scan accepts at index `caret`: the text of the reference
   * range (ClassReference) that contains the caret, when the caret is on a
   * token character; nothing otherwise.
   */
  function ScanResult(value: string, caret: int): Option<string> {
    if 0 <= caret < |value| && IsTokenChar(value[caret]) then
      match SpanAt(value, caret)
      case Some(sp) => Some(value[sp.start..sp.end])
      case None => None
    else None
  }

  /**
   * What the scan result is: for a non-empty value whose caret character is a
   * token character, the maximal run of token characters around the caret;
   * otherwise (an empty value, a separator under the caret) nothing.
   */
  lemma ScanResultIsMaximalRun(value: string, caret: int)
    ensures ScanResult(value, caret).Some? <==> 0 <= caret < |value| && IsTokenChar(value[caret])
    ensures ScanResult(value, caret).Some? ==>
      exists sp :: IsRun(value, sp) && Covers(sp, caret) && ScanResult(value, caret) == Some(value[sp.start..sp.end])
    ensures ScanResult(value, caret).Some? ==> IsToken(ScanResult(value, caret).value)
    ensures ScanResult(value, caret).Some? ==>
      exists k :: 0 <= k < |TokenSpans(value)| && Covers(TokenSpans(value)[k], caret) &&
                  ScanResult(value, caret) == Some(value[TokenSpans(value)[k].start..TokenSpans(value)[k].end])
  {
    if 0 <= caret < |value| && IsTokenChar(value[caret]) {
      var k := CoveringSpan(value, caret);
      var sp := TokenSpans(value)[k];
      assert ScanResult(value, caret) == Some(value[sp.start..sp.end]);
    }
  }

  /** The index of the reference range around a token character. */
  lemma CoveringSpan(value: string, caret: int) returns (k: nat)
    requires 0 <= caret < |value| && IsTokenChar(value[caret])
    ensures k < |TokenSpans(value)| && Covers(TokenSpans(value)[k], caret)
    ensures IsRun(value, TokenSpans(value)[k]) && SpanAt(value, caret) == Some(TokenSpans(value)[k])
  {
    TokenSpansCharacterization(value);
    var sps := TokenSpans(value);
    assert Covered(sps, caret);
    k :| 0 <= k < |sps| && Covers(sps[k], caret);
    SpanAtIsRun(value, sps[k], caret);
  }

  /**
   * The `try` block of `findTokenUnderCaret`: clamp the caret, scan left and
   * right over token characters, and accept the scanned text only if it is a
   * token. No index goes out of range, so the `catch` never fires. What it
   * accepts is the text of the reference range containing the caret.
   */
  method ScanAtCaret(value: string, attrStart: int, orig: ElementInfo) returns (token: Option<string>)
    ensures token == ScanResult(value, CaretIndex(value, attrStart, orig))
  {
    var origMid := orig.startOffset + orig.length / 2;
    var caretIndex := origMid - (attrStart + 1);
    if caretIndex < 0 {
      caretIndex := 0;
    }
    if caretIndex >= |value| {
      caretIndex := |value| - 1;
    }
    assert caretIndex == CaretIndex(value, attrStart, orig);

    var left := caretIndex;
    while left > 0
      invariant left <= caretIndex < |value|
      invariant caretIndex >= 0 ==> 0 <= left
      invariant caretIndex < 0 ==> left == caretIndex
      invariant forall p :: left <= p < caretIndex ==> IsTokenChar(value[p])
    {
      var ch := value[left - 1];
      if !IsTokenChar(ch) {
        break;
      }
      left := left - 1;
    }
    var right := caretIndex;
    while right < |value| - 1
      invariant -1 <= caretIndex <= right < |value|
      invariant forall p :: caretIndex < p <= right ==> IsTokenChar(value[p])
    {
      var ch := value[right + 1];
      if !IsTokenChar(ch) {
        break;
      }
      right := right + 1;
    }
    if left <= right && left >= 0 && right < |value| {
      var t := value[left..right + 1];
      ScanAccepts(value, left, caretIndex, right);
      if IsToken(t) {
        return Some(t);
      }
    }
    return None;
  }

  /**
   * What the final check of the scan decides, once the loops have stopped at
   * `left` and `right`: the text between them is a token exactly when the
   * caret character is a token character, and then it is the maximal run
   * around the caret.
   */
  lemma ScanAccepts(value: string, left: int, caret: int, right: int)
    requires 0 <= left <= caret <= right < |value|
    requires forall p :: left <= p < caret ==> IsTokenChar(value[p])
    requires forall p :: caret < p <= right ==> IsTokenChar(value[p])
    requires left == 0 || !IsTokenChar(value[left - 1])
    requires right == |value| - 1 || !IsTokenChar(value[right + 1])
    ensures IsToken(value[left..right + 1]) ==> ScanResult(value, caret) == Some(value[left..right + 1])
    ensures !IsToken(value[left..right + 1]) ==> ScanResult(value, caret).None?
  {
    var t := value[left..right + 1];
    assert t[caret - left] == value[caret];
    if IsTokenChar(value[caret]) {
      ScannedRun(value, left, caret, right);
      SpanAtIsRun(value, Span(left, right + 1), caret);
    }
  }

  /** With a token character under the caret, the scanned range is a maximal token run. */
  lemma ScannedRun(value: string, left: int, caret: int, right: int)
    requires 0 <= left <= caret <= right < |value| && IsTokenChar(value[caret])
    requires forall p :: left <= p < caret ==> IsTokenChar(value[p])
    requires forall p :: caret < p <= right ==> IsTokenChar(value[p])
    requires left == 0 || !IsTokenChar(value[left - 1])
    requires right == |value| - 1 || !IsTokenChar(value[right + 1])
    ensures IsRun(value, Span(left, right + 1)) && IsToken(value[left..right + 1])
  {
    assert forall p :: left <= p <= right ==> IsTokenChar(value[p]);
  }

  /** Step 1 of the value fallbacks (lines 188-191): the text is not blank and the cleaned text is a token. */
  predicate CleanedAccepted(origText: string) {
    !IsBlank(origText) && IsToken(CleanToken(origText))
  }

  /** Step 2 (line 193): `parts.firstOrNull { it == origText }`, which can only be the text itself. */
  function EqualPart(parts: seq<string>, origText: string): (r: Option<string>)
    ensures r.Some? <==> exists k :: 0 <= k < |parts| && parts[k] == origText
    ensures r.Some? ==> r == Some(origText)
  {
    Find(parts, (p: string) => p == origText)
  }

  /** Step 3 (line 194): the first part containing the text. */
  function ContainingPart(parts: seq<string>, origText: string): (r: Option<string>)
    ensures r.None? <==> forall k :: 0 <= k < |parts| ==> !Contains(parts[k], origText)
    ensures r.Some? ==> exists k :: 0 <= k < |parts| && r == Some(parts[k]) && Contains(parts[k], origText) &&
                                    forall j :: 0 <= j < k ==> !Contains(parts[j], origText)
  {
    Find(parts, (p: string) => Contains(p, origText))
  }

  /** Step 4 (lines 197-198): the first part that is a known class name. */
  function KnownPart(parts: seq<string>, known: set<string>): (r: Option<string>)
    ensures r.None? <==> forall k :: 0 <= k < |parts| ==> parts[k] !in known
    ensures r.Some? ==> exists k :: 0 <= k < |parts| && r == Some(parts[k]) && parts[k] in known &&
                                    forall j :: 0 <= j < k ==> parts[j] !in known
  {
    Find(parts, (p: string) => p in known)
  }

  /** Step 5 (line 201): the first part, unless it is blank. */
  function FirstPart(parts: seq<string>): (r: Option<string>)
    requires |parts| > 0
    ensures r.Some? <==> !IsBlank(parts[0])
    ensures r.Some? ==> r == Some(parts[0])
  {
    if !IsBlank(parts[0]) then Some(parts[0]) else None
  }

  /**
   * The fallbacks of `findTokenUnderCaret` inside an attribute value, in
   * order: the cleaned original text if it is a token; the first
   * whitespace-separated part equal to the original text; the first part
   * containing it; the first part that is a known class; the first part if
   * it is not blank. Each step is taken exactly when the earlier ones fail.
   */
  function ValueFallback(origText: string, value: string, known: set<string>): (r: Option<string>)
    ensures r.Some? ==> (r.value == CleanToken(origText) && IsToken(r.value)) || r.value in Split(value)
    ensures CleanedAccepted(origText) ==> r == Some(CleanToken(origText))
    ensures !CleanedAccepted(origText) ==> var parts := Split(value);
      if EqualPart(parts, origText).Some? then r == Some(origText)
      else if ContainingPart(parts, origText).Some? then r == ContainingPart(parts, origText)
      else if KnownPart(parts, known).Some? then r == KnownPart(parts, known)
      else r == FirstPart(parts)
  {
    if CleanedAccepted(origText) then Some(CleanToken(origText))
    else
      var parts := Split(value);
      EqualPart(parts, origText)
        .OrElse(ContainingPart(parts, origText))
        .OrElse(KnownPart(parts, known))
        .OrElse(FirstPart(parts))
  }

  /**
   * There is always a fallback result when the original text is empty: every
   * part contains "", so at the latest the search for a containing part
   * succeeds.
   */
  lemma ValueFallbackEmptyText(value: string, known: set<string>)
    ensures ValueFallback("", value, known).Some?
  {
    var parts := Split(value);
    assert OccursAt(parts[0], "", 0);
    assert Contains(parts[0], "");
  }

  /** A hovered text that is itself a token is accepted by the first fallback, before any part is looked at. */
  lemma ValueFallbackAcceptsToken(origText: string, value: string, known: set<string>)
    requires IsToken(origText)
    ensures ValueFallback(origText, value, known) == Some(origText)
  {
    CleanKeepsToken(origText);
    assert !IsBlank(origText) by { assert IsTokenChar(origText[0]); }
  }

  /**
   * When the cleaned text is not a token, the fallback prefers a part equal to
   * the original text over one that merely contains it, and either over a
   * known class name.
   */
  lemma ValueFallbackPrefersEqualPart(origText: string, value: string, known: set<string>, k: nat)
    requires !CleanedAccepted(origText)
    requires k < |Split(value)| && Split(value)[k] == origText
    ensures ValueFallback(origText, value, known) == Some(origText)
  {
    assert EqualPart(Split(value), origText).Some?;
  }

  /** Outside an attribute value: the element's own text if it is a token, else the enclosing attribute's name. */
  function ElementFallback(origText: string, attrParentName: Option<string>): (r: Option<string>)
    ensures r.Some? ==> IsToken(r.value) || r == attrParentName
    ensures r.None? ==> attrParentName.None?
  {
    if IsToken(origText) then Some(origText) else attrParentName
  }

  /**
   * `findTokenUnderCaret(originalElement, contextElement)`. The element used is
   * `originalElement ?: contextElement`; `attrValue` is the attribute value
   * found above it (directly, or as the value of an enclosing attribute),
   * `attrParentName` the name of an enclosing attribute, and `known` the
   * catalog's class names.
   */
  function TokenUnderCaret(original: Option<ElementInfo>, context: Option<ElementInfo>,
                           attrValue: Option<ValueInfo>, attrParentName: Option<string>,
                           known: set<string>): (r: Option<string>)
    ensures original.None? && context.None? ==> r.None?
    ensures r.Some? ==>
      IsToken(r.value) || (attrValue.Some? && r.value in Split(attrValue.value.value)) || r == attrParentName
    // the scan at the caret wins, then the value fallbacks, then the element's own fallbacks
    ensures (original.Some? || context.Some?) && attrValue.Some? ==>
      var e := original.OrElse(context).value;
      var scanned := ScanResult(attrValue.value.value, CaretIndex(attrValue.value.value, attrValue.value.startOffset, e));
      var fallback := ValueFallback(e.text, attrValue.value.value, known);
      (scanned.Some? ==> r == scanned) &&
      (scanned.None? && fallback.Some? ==> r == fallback) &&
      (scanned.None? && fallback.None? ==> r == ElementFallback(e.text, attrParentName))
    ensures (original.Some? || context.Some?) && attrValue.None? ==>
      r == ElementFallback(original.OrElse(context).value.text, attrParentName)
  {
    if original.None? && context.None? then None
    else
      var e := original.OrElse(context).value;
      var fromValue :=
        if attrValue.Some? then
          var caret := CaretIndex(attrValue.value.value, attrValue.value.startOffset, e);
          var scanned := ScanResult(attrValue.value.value, caret);
          ScanResultIsMaximalRun(attrValue.value.value, caret);
          if scanned.Some? then scanned else ValueFallback(e.text, attrValue.value.value, known)
        else None;
      if fromValue.Some? then fromValue else ElementFallback(e.text, attrParentName)
  }

  /** The same, step by step with early returns, as the source computes it. */
  method FindTokenUnderCaret(original: Option<ElementInfo>, context: Option<ElementInfo>,
                             attrValue: Option<ValueInfo>, attrParentName: Option<string>,
                             known: set<string>) returns (r: Option<string>)
    ensures r == TokenUnderCaret(original, context, attrValue, attrParentName, known)
  {
    if original.None? && context.None? {
      return None;
    }
    var origEl := if original.Some? then original.value else context.value;
    if attrValue.Some? {
      var value := attrValue.value.value;
      var scanned := ScanAtCaret(value, attrValue.value.startOffset, origEl);
      if scanned.Some? {
        return scanned;
      }
      var fallback := ValueFallback(origEl.text, value, known);
      if fallback.Some? {
        return fallback;
      }
    }
    if IsToken(origEl.text) {
      return Some(origEl.text);
    }
    return attrParentName;
  }

  /**
   * Caret containment: when the original element is a one-character leaf at
   * offset `o` of the value, and `o` lies in a reference range, the caret
   * resolves to that range's token, whatever the leaf's text.
   */
  lemma CaretOnTokenResolvesToIt(value: string, attrStart: int, sp: Span, o: nat, text: string,
                                 context: Option<ElementInfo>, attrParentName: Option<string>, known: set<string>)
    requires sp in TokenSpans(value) && Covers(sp, o)
    ensures TokenUnderCaret(Some(ElementInfo(attrStart + 1 + o, 1, text)), context,
                            Some(ValueInfo(value, attrStart)), attrParentName, known)
            == Some(value[sp.start..sp.end])
  {
    ScanOnRange(value, sp, o);
    assert CaretIndex(value, attrStart, ElementInfo(attrStart + 1 + o, 1, text)) == o;
  }

  /** The scan at an offset inside a reference range yields that range's token. */
  lemma ScanOnRange(value: string, sp: Span, o: nat)
    requires sp in TokenSpans(value) && Covers(sp, o)
    ensures ScanResult(value, o) == Some(value[sp.start..sp.end])
  {
    TokenSpansCharacterization(value);
    assert IsRun(value, sp);
    SpanAtIsRun(value, sp, o);
  }

  /** An empty attribute value never resolves through the scan, only through the fallbacks. */
  lemma EmptyValueSkipsScan(original: Option<ElementInfo>, context: Option<ElementInfo>,
                            attrStart: int, attrParentName: Option<string>, known: set<string>)
    requires original.Some? || context.Some?
    ensures var e := original.OrElse(context).value;
      TokenUnderCaret(original, context, Some(ValueInfo("", attrStart)), attrParentName, known) ==
      (var f := ValueFallback(e.text, "", known); if f.Some? then f else ElementFallback(e.text, attrParentName))
  {
  }

  /**
   * Hovering the attribute name of `class=" p-4"` (name at offsets 0-4, value
   * element from offset 6): the clamped caret lands on the leading space, so
   * the scan fails, and the first fallback accepts the hovered text "class"
   * itself, which is a token. The caret token is then "class", not a class
   * from the value.
   */
  lemma HoverOnClassNameWithLeadingSpace(known: set<string>)
    ensures TokenUnderCaret(Some(ElementInfo(0, 5, "class")), None, Some(ValueInfo(" p-4", 6)), Some("class"), known)
            == Some("class")
  {
    assert CaretIndex(" p-4", 6, ElementInfo(0, 5, "class")) == 0;
    assert !IsTokenChar(" p-4"[0]);
    ScanResultIsMaximalRun(" p-4", 0);
    assert IsTokenChar("class"[0]) && IsTokenChar("class"[1]) && IsTokenChar("class"[2]) &&
           IsTokenChar("class"[3]) && IsTokenChar("class"[4]);
    ValueFallbackAcceptsToken("class", " p-4", known);
  }

  /** `extractToken(text)`: the leftmost match of the token regex, or null. */
  function ExtractToken(text: Option<string>): (r: Option<string>)
    ensures text.None? ==> r.None?
    ensures r.Some? ==> IsToken(r.value)
  {
    if text.None? then None
    else
      var sps := TokenSpans(text.value);
      if |sps| == 0 then None
      else
        SpansFromRuns(text.value, 0);
        assert IsRun(text.value, sps[0]);
        Some(text.value[sps[0].start..sps[0].end])
  }

  /**
   * `extractToken` returns the leftmost maximal run of token characters:
   * no token character comes before it; and it returns null exactly when
   * the text has no token character.
   */
  lemma ExtractTokenLeftmost(text: string)
    ensures ExtractToken(Some(text)).None? <==> forall p :: 0 <= p < |text| ==> !IsTokenChar(text[p])
    ensures ExtractToken(Some(text)).Some? ==>
      exists sp :: IsRun(text, sp) && ExtractToken(Some(text)) == Some(text[sp.start..sp.end]) &&
                   forall p :: 0 <= p < sp.start ==> !IsTokenChar(text[p])
  {
    var sps := TokenSpans(text);
    SpansFromCover(text, 0);
    if |sps| > 0 {
      SpansFromRuns(text, 0);
      SpansFromOrdered(text, 0);
      var sp := sps[0];
      assert IsRun(text, sp);
      forall p | 0 <= p < sp.start
        ensures !IsTokenChar(text[p])
      {
        assert forall k :: 0 < k < |sps| ==> sps[0].end < sps[k].start;
        assert !Covered(sps, p);
      }
      assert IsTokenChar(text[sp.start]);
    }
  }

  /** The lookup at the end of `generateDoc`: props first, then classes, first exact match wins. */
  function LookupDoc(meta: HywindMeta, name: string): (r: Option<Doc>)
    ensures FindProp(meta.props, name).Some? ==> r == Some(PropDocOf(FindProp(meta.props, name).value))
    ensures FindProp(meta.props, name).None? && FindClass(meta.classes, name).Some? ==>
      r == Some(ClassDocOf(FindClass(meta.classes, name).value))
    ensures r.None? <==> FindProp(meta.props, name).None? && FindClass(meta.classes, name).None?
    ensures r.Some? ==> (exists c :: c in meta.classes && r == Some(ClassDocOf(c))) ||
                        (exists p :: p in meta.props && r == Some(PropDocOf(p)))
  {
    match FindProp(meta.props, name)
    case Some(p) => Some(PropDocOf(p))
    case None =>
      match FindClass(meta.classes, name)
      case Some(c) => Some(ClassDocOf(c))
      case None => None
  }

  /**
   * The lookup order of `generateDoc`, by position: the doc of the first
   * prop named `name`; when no prop has the name, the doc of the first class
   * named `name`; and no doc exactly when neither list has the name.
   */
  lemma LookupDocOrder(meta: HywindMeta, name: string)
    ensures LookupDoc(meta, name).None? <==>
      (forall j :: 0 <= j < |meta.props| ==> meta.props[j].propName != name) &&
      (forall j :: 0 <= j < |meta.classes| ==> meta.classes[j].className != name)
    ensures (exists j :: 0 <= j < |meta.props| && meta.props[j].propName == name) ==>
      exists i :: 0 <= i < |meta.props| && meta.props[i].propName == name &&
        (forall j :: 0 <= j < i ==> meta.props[j].propName != name) &&
        LookupDoc(meta, name) == Some(PropDocOf(meta.props[i]))
    ensures (forall j :: 0 <= j < |meta.props| ==> meta.props[j].propName != name) &&
            (exists j :: 0 <= j < |meta.classes| && meta.classes[j].className == name) ==>
      exists i :: 0 <= i < |meta.classes| && meta.classes[i].className == name &&
        (forall j :: 0 <= j < i ==> meta.classes[j].className != name) &&
        LookupDoc(meta, name) == Some(ClassDocOf(meta.classes[i]))
  {
    var fp := FindProp(meta.props, name);
    if fp.Some? {
      var i :| 0 <= i < |meta.props| && meta.props[i] == fp.value && fp.value.propName == name &&
               forall j :: 0 <= j < i ==> meta.props[j].propName != name;
      assert LookupDoc(meta, name) == Some(PropDocOf(meta.props[i]));
    } else {
      var fc := FindClass(meta.classes, name);
      if fc.Some? {
        var i :| 0 <= i < |meta.classes| && meta.classes[i] == fc.value && fc.value.className == name &&
                 forall j :: 0 <= j < i ==> meta.classes[j].className != name;
        assert LookupDoc(meta, name) == Some(ClassDocOf(meta.classes[i]));
      }
    }
  }

  /**
   * The first part of an attribute value that is a known class
   * (`parts.firstOrNull { it in known }`): null exactly when no part is a
   * catalog class name, and otherwise the first part that is, which the
   * class lookup then finds.
   */
  function FirstKnownPart(value: string, meta: HywindMeta): (r: Option<string>)
    ensures r.None? <==> forall k :: 0 <= k < |Split(value)| ==> Split(value)[k] !in ClassNames(meta.classes)
    ensures r.Some? ==> exists k :: 0 <= k < |Split(value)| && r == Some(Split(value)[k]) &&
                                    Split(value)[k] in ClassNames(meta.classes) &&
                                    forall j :: 0 <= j < k ==> Split(value)[j] !in ClassNames(meta.classes)
    ensures r.Some? ==> FindClass(meta.classes, r.value).Some?
  {
    KnownPartNone(value, meta);
    KnownPart(Split(value), ClassNames(meta.classes))
  }

  /** The null case of `KnownPart` on the parts of an attribute value and the catalog's class names. */
  lemma KnownPartNone(value: string, meta: HywindMeta)
    ensures KnownPart(Split(value), ClassNames(meta.classes)).None? <==>
            forall k :: 0 <= k < |Split(value)| ==> Split(value)[k] !in ClassNames(meta.classes)
  {
  }

  /** `classToken?.let { find class }?.let { buildClassDoc }`. */
  function ClassDocFor(meta: HywindMeta, classToken: Option<string>): (r: Option<Doc>)
    ensures r.None? <==> classToken.None? || FindClass(meta.classes, classToken.value).None?
    ensures r.Some? ==> r == Some(ClassDocOf(FindClass(meta.classes, classToken.value).value))
    ensures r.Some? ==> exists c :: c in meta.classes && r == Some(ClassDocOf(c))
  {
    if classToken.None? then None
    else match FindClass(meta.classes, classToken.value)
      case Some(c) => Some(ClassDocOf(c))
      case None => None
  }

  /** The element `generateDoc` is asked about, with what the code reads from it. */
  datatype HoverElement =
    | AttributeElement(name: string, valueElement: Option<string>)  // an XmlAttribute and its value's unquoted text
    | AttributeValueElement(value: string)                          // an XmlAttributeValue
    | OtherElement(text: string)                                    // any other element

  /**
   * One hover request: the element (null when absent), the original element's
   * text, the unquoted value of the attribute value found above the original
   * element or the element (lines 31-40), and what `findTokenUnderCaret`
   * returned for this request (it is called with the same arguments each time).
   */
  datatype HoverRequest = HoverRequest(
    element: Option<HoverElement>,
    originalText: Option<string>,
    enclosingValue: Option<string>,
    caretToken: Option<string>)

  /** `generateDoc` and `getQuickNavigateInfo` look at the `class` attribute first when it has a value. */
  predicate OnClassAttribute(element: HoverElement) {
    element.AttributeElement? && element.name == "class" && element.valueElement.Some?
  }

  /**
   * The by-kind fallback name when the caret gave no token: the first token
   * of an attribute value, an attribute's own name, or else the first token
   * of the original element's text (the element's text when there is none).
   */
  function FallbackName(element: HoverElement, originalText: Option<string>): (r: Option<string>)
    ensures element.AttributeValueElement? ==> r == ExtractToken(Some(element.value))
    ensures element.AttributeElement? ==> r == Some(element.name)
    ensures element.OtherElement? && originalText.Some? ==> r == ExtractToken(originalText)
    ensures element.OtherElement? && originalText.None? ==> r == ExtractToken(Some(element.text))
    ensures !element.AttributeElement? ==> r.Some? ==> IsToken(r.value)
  {
    match element
    case AttributeValueElement(v) => ExtractToken(Some(v))
    case AttributeElement(name, _) => Some(name)
    case OtherElement(text) => ExtractToken(Some(originalText.GetOr(text)))
  }

  /** Lines 15-28 of `generateDoc`: on the `class` attribute itself, classes only. */
  function AttributePhase(element: HoverElement, caretToken: Option<string>, meta: HywindMeta): (r: Option<Doc>)
    ensures !OnClassAttribute(element) ==> r.None?
    ensures r.Some? ==> exists c :: c in meta.classes && r == Some(ClassDocOf(c))
  {
    if OnClassAttribute(element) then
      ClassDocFor(meta, caretToken.OrElse(FirstKnownPart(element.valueElement.value, meta)))
    else None
  }

  /** Lines 30-54: inside (or on the attribute of) an attribute value, classes only. */
  function ValuePhase(enclosingValue: Option<string>, caretToken: Option<string>, meta: HywindMeta): (r: Option<Doc>)
    ensures enclosingValue.None? ==> r.None?
    ensures r.Some? ==> exists c :: c in meta.classes && r == Some(ClassDocOf(c))
  {
    if enclosingValue.Some? then
      ClassDocFor(meta, caretToken.OrElse(FirstKnownPart(enclosingValue.value, meta)))
    else None
  }

  /** Lines 56-84: the caret or fallback name against props, then classes. */
  function NamePhase(element: HoverElement, originalText: Option<string>, caretToken: Option<string>,
                     meta: HywindMeta): (r: Option<Doc>)
    ensures caretToken.Some? ==> r == LookupDoc(meta, caretToken.value)
    ensures r.Some? ==> (exists c :: c in meta.classes && r == Some(ClassDocOf(c))) ||
                        (exists p :: p in meta.props && r == Some(PropDocOf(p)))
  {
    var name := caretToken.OrElse(FallbackName(element, originalText));
    if name.None? then None else LookupDoc(meta, name.value)
  }

  /**
   * `generateDoc`: the three phases in order, the first that yields a doc
   * returning it. Null for a null element; any doc shown is the class doc
   * or prop doc of a catalog entry.
   */
  function GenerateDoc(req: HoverRequest, meta: HywindMeta): (r: Option<Doc>)
    ensures req.element.None? ==> r.None?
    ensures r.Some? ==> (exists c :: c in meta.classes && r == Some(ClassDocOf(c))) ||
                        (exists p :: p in meta.props && r == Some(PropDocOf(p)))
  {
    if req.element.None? then None
    else
      var a := AttributePhase(req.element.value, req.caretToken, meta);
      var v := ValuePhase(req.enclosingValue, req.caretToken, meta);
      var n := NamePhase(req.element.value, req.originalText, req.caretToken, meta);
      a.OrElse(v).OrElse(n)
  }

  /**
   * On the `class` attribute with a value, the caret token, or else the
   * value's first known class, names the class shown, before any other
   * phase is tried.
   */
  lemma GenerateDocOnClassAttribute(req: HoverRequest, meta: HywindMeta, v: string, t: string)
    requires req.element == Some(AttributeElement("class", Some(v)))
    requires req.caretToken.OrElse(FirstKnownPart(v, meta)) == Some(t)
    requires FindClass(meta.classes, t).Some?
    ensures GenerateDoc(req, meta) == Some(ClassDocOf(FindClass(meta.classes, t).value))
  {
    assert AttributePhase(req.element.value, req.caretToken, meta) == Some(ClassDocOf(FindClass(meta.classes, t).value));
  }

  /**
   * Inside an attribute value, a caret token that names a class shows that
   * class, before props are consulted.
   */
  lemma GenerateDocClassInValue(req: HoverRequest, meta: HywindMeta, t: string)
    requires req.element.Some? && req.caretToken == Some(t) && req.enclosingValue.Some?
    requires FindClass(meta.classes, t).Some?
    ensures GenerateDoc(req, meta) == Some(ClassDocOf(FindClass(meta.classes, t).value))
  {
    assert ClassDocFor(meta, req.caretToken) == Some(ClassDocOf(FindClass(meta.classes, t).value));
  }

  /** Outside any attribute, the caret token goes through the props-then-classes lookup. */
  lemma GenerateDocOutsideAttributes(req: HoverRequest, meta: HywindMeta, t: string)
    requires req.element.Some? && req.caretToken == Some(t)
    requires req.enclosingValue.None? && !req.element.value.AttributeElement?
    ensures GenerateDoc(req, meta) == LookupDoc(meta, t)
  {
  }

  /**
   * With a caret token, `generateDoc` shows the class of that name when it
   * is on the `class` attribute or inside an attribute value and such a
   * class exists; in every other case, a prop attribute without a value or a
   * token naming no class included, it falls through to the props-then-classes
   * lookup of the token.
   */
  lemma GenerateDocWithCaretToken(req: HoverRequest, meta: HywindMeta, t: string)
    requires req.element.Some? && req.caretToken == Some(t)
    ensures GenerateDoc(req, meta) ==
      if (OnClassAttribute(req.element.value) || req.enclosingValue.Some?) && FindClass(meta.classes, t).Some?
      then Some(ClassDocOf(FindClass(meta.classes, t).value))
      else LookupDoc(meta, t)
  {
  }

  /**
   * Without a caret token, `generateDoc` shows the first known class of the
   * `class` attribute's value, else the first known class of the enclosing
   * value, else the props-then-classes lookup of the by-kind fallback name,
   * and null when there is none.
   */
  lemma GenerateDocWithoutCaretToken(req: HoverRequest, meta: HywindMeta)
    requires req.element.Some? && req.caretToken.None?
    ensures var e := req.element.value;
      var fromAttribute := if OnClassAttribute(e) then FirstKnownPart(e.valueElement.value, meta) else None;
      var fromValue := if req.enclosingValue.Some? then FirstKnownPart(req.enclosingValue.value, meta) else None;
      var name := FallbackName(e, req.originalText);
      GenerateDoc(req, meta) ==
        if fromAttribute.Some? then Some(ClassDocOf(FindClass(meta.classes, fromAttribute.value).value))
        else if fromValue.Some? then Some(ClassDocOf(FindClass(meta.classes, fromValue.value).value))
        else if name.Some? then LookupDoc(meta, name.value)
        else None
  {
    var e := req.element.value;
    var fromAttribute := if OnClassAttribute(e) then FirstKnownPart(e.valueElement.value, meta) else None;
    var fromValue := if req.enclosingValue.Some? then FirstKnownPart(req.enclosingValue.value, meta) else None;
    var a := AttributePhase(e, req.caretToken, meta);
    var v := ValuePhase(req.enclosingValue, req.caretToken, meta);
    if fromAttribute.Some? {
      assert a == Some(ClassDocOf(FindClass(meta.classes, fromAttribute.value).value));
    } else {
      assert a.None?;
      if fromValue.Some? {
        assert v == Some(ClassDocOf(FindClass(meta.classes, fromValue.value).value));
      } else {
        assert v.None?;
      }
    }
  }

  /**
   * With that caret token, `generateDoc` on the `class` attribute never
   * falls back to the value's classes ("p-4" is not shown even when it is
   * in the catalog): unless a class is literally named "class", it ends in
   * the props-then-classes lookup of the name "class".
   */
  lemma GenerateDocOnClassNameWithLeadingSpace(meta: HywindMeta)
    requires FindClass(meta.classes, "class").None?
    ensures GenerateDoc(HoverRequest(Some(AttributeElement("class", Some(" p-4"))), Some("class"),
                                     Some(" p-4"), Some("class")), meta)
            == LookupDoc(meta, "class")
  {
  }

  /** `"$namePart — ${shortSummary(cls.description)}"`, with the hex colour after the name when there is one. */
  function ClassQuickInfo(token: string, c: HyClass): (q: string)
    ensures token <= q
    ensures |ShortSummary(c.description)| <= |q| && q[|q| - |ShortSummary(c.description)|..] == ShortSummary(c.description)
  {
    var colorHex := if c.previewColor.Some? then ToHex(c.previewColor.value.r, c.previewColor.value.g, c.previewColor.value.b) else "";
    var namePart := if |colorHex| > 0 then token + " (" + colorHex + ")" else token;
    namePart + " — " + ShortSummary(c.description)
  }

  /**
   * The quick info of a class starts with the token, shows "(#RRGGBB)" after
   * it exactly when the class has a preview colour, and ends with the
   * class's short summary.
   */
  lemma ClassQuickInfoShape(token: string, c: HyClass)
    ensures var q := ClassQuickInfo(token, c);
      var sep := " — ";
      var summary := ShortSummary(c.description);
      token <= q &&
      (c.previewColor.None? ==> q == token + sep + summary) &&
      (c.previewColor.Some? ==>
        q == token + " (" + ToHex(c.previewColor.value.r, c.previewColor.value.g, c.previewColor.value.b) + ")" + sep + summary)
  {
    if c.previewColor.Some? {
      var col := c.previewColor.value;
      assert |ToHex(col.r, col.g, col.b)| > 0;
    }
  }

  /** Lines 91-109 of `getQuickNavigateInfo`: on the `class` attribute, classes only. */
  function AttributeQuickInfo(element: HoverElement, caretToken: Option<string>, meta: HywindMeta): (r: Option<string>)
    ensures !OnClassAttribute(element) ==> r.None?
    ensures r.Some? ==> exists c :: c in meta.classes && r.value == ClassQuickInfo(c.className, c)
  {
    if OnClassAttribute(element) then
      var classToken := caretToken.OrElse(FirstKnownPart(element.valueElement.value, meta));
      if classToken.None? then None
      else match FindClass(meta.classes, classToken.value)
        case Some(c) => Some(ClassQuickInfo(classToken.value, c))
        case None => None
    else None
  }

  /** Lines 118-128: the name against props (their short summary), then classes (name, colour and summary). */
  function NameQuickInfo(meta: HywindMeta, token: string): (r: Option<string>)
    ensures FindProp(meta.props, token).Some? ==> r == Some(ShortSummary(FindProp(meta.props, token).value.description))
    ensures FindProp(meta.props, token).None? ==>
      r == (match FindClass(meta.classes, token) case Some(c) => Some(ClassQuickInfo(token, c)) case None => None)
    ensures r.Some? ==> (exists p :: p in meta.props && r.value == ShortSummary(p.description)) ||
                        (exists c :: c in meta.classes && r.value == ClassQuickInfo(c.className, c))
  {
    match FindProp(meta.props, token)
    case Some(p) => Some(ShortSummary(p.description))
    case None =>
      match FindClass(meta.classes, token)
      case Some(c) => Some(ClassQuickInfo(token, c))
      case None => None
  }

  /**
   * `getQuickNavigateInfo`: the class attribute first (classes only), then
   * the caret or fallback name against props and then classes. Null for a
   * null element; otherwise any quick info is a catalog prop's short summary
   * or a catalog class's name, colour and summary.
   */
  function QuickNavigateInfo(req: HoverRequest, meta: HywindMeta): (r: Option<string>)
    ensures req.element.None? ==> r.None?
    ensures r.Some? ==> (exists p :: p in meta.props && r.value == ShortSummary(p.description)) ||
                        (exists c :: c in meta.classes && r.value == ClassQuickInfo(c.className, c))
  {
    if req.element.None? then None
    else
      var element := req.element.value;
      var fromAttribute := AttributeQuickInfo(element, req.caretToken, meta);
      if fromAttribute.Some? then fromAttribute
      else
        var token := req.caretToken.OrElse(FallbackName(element, req.originalText));
        if token.None? then None else NameQuickInfo(meta, token.value)
  }

  /**
   * With a caret token, the quick info on the `class` attribute is that of
   * the class of that name when there is one; otherwise, and everywhere
   * else, it is the props-then-classes quick info of the token.
   */
  lemma QuickNavigateInfoWithCaretToken(req: HoverRequest, meta: HywindMeta, t: string)
    requires req.element.Some? && req.caretToken == Some(t)
    ensures QuickNavigateInfo(req, meta) ==
      if OnClassAttribute(req.element.value) && FindClass(meta.classes, t).Some?
      then Some(ClassQuickInfo(t, FindClass(meta.classes, t).value))
      else NameQuickInfo(meta, t)
  {
  }

  /**
   * Without a caret token, the quick info is that of the first known class
   * of the `class` attribute's value, else the props-then-classes quick info
   * of the by-kind fallback name, and null when there is none.
   */
  lemma QuickNavigateInfoWithoutCaretToken(req: HoverRequest, meta: HywindMeta)
    requires req.element.Some? && req.caretToken.None?
    ensures var e := req.element.value;
      var fromAttribute := if OnClassAttribute(e) then FirstKnownPart(e.valueElement.value, meta) else None;
      var name := FallbackName(e, req.originalText);
      QuickNavigateInfo(req, meta) ==
        if fromAttribute.Some? then Some(ClassQuickInfo(fromAttribute.value, FindClass(meta.classes, fromAttribute.value).value))
        else if name.Some? then NameQuickInfo(meta, name.value)
        else None
  {
    var e := req.element.value;
    var fromAttribute := if OnClassAttribute(e) then FirstKnownPart(e.valueElement.value, meta) else None;
    var a := AttributeQuickInfo(e, req.caretToken, meta);
    if fromAttribute.Some? {
      assert a == Some(ClassQuickInfo(fromAttribute.value, FindClass(meta.classes, fromAttribute.value).value));
    } else {
      assert a.None?;
    }
  }

  /**
   * Outside the class attribute, a prop's quick info is its short summary
   * and wins over a class of the same name.
   */
  lemma QuickNavigateInfoPrefersProps(req: HoverRequest, meta: HywindMeta, t: string, i: nat)
    requires req.element.Some? && req.caretToken == Some(t)
    requires !OnClassAttribute(req.element.value)
    requires i < |meta.props| && meta.props[i].propName == t
    requires forall j :: 0 <= j < i ==> meta.props[j].propName != t
    ensures QuickNavigateInfo(req, meta) == Some(ShortSummary(meta.props[i].description))
  {
    FindPropRoundTrip(meta.props, i);
  }

  /**
   * On the `class` attribute with a value, the caret token, or else the
   * value's first known class, decides the quick info when it names a class:
   * that class's name, colour and summary.
   */
  lemma QuickNavigateInfoOnClassAttribute(req: HoverRequest, meta: HywindMeta, v: string, t: string)
    requires req.element == Some(AttributeElement("class", Some(v)))
    requires req.caretToken.OrElse(FirstKnownPart(v, meta)) == Some(t)
    requires FindClass(meta.classes, t).Some?
    ensures QuickNavigateInfo(req, meta) == Some(ClassQuickInfo(t, FindClass(meta.classes, t).value))
  {
    AttributeQuickInfoFinds(req.element.value, req.caretToken, meta, v, t);
  }

  /** The class-attribute step alone: a token naming a class gives that class's quick info. */
  lemma AttributeQuickInfoFinds(element: HoverElement, caretToken: Option<string>, meta: HywindMeta, v: string, t: string)
    requires element == AttributeElement("class", Some(v))
    requires caretToken.OrElse(FirstKnownPart(v, meta)) == Some(t)
    requires FindClass(meta.classes, t).Some?
    ensures AttributeQuickInfo(element, caretToken, meta) == Some(ClassQuickInfo(t, FindClass(meta.classes, t).value))
  {
  }

  /**
   * Outside the class attribute, a name no prop carries shows the quick info
   * of the first class with that name, and nothing when there is none.
   */
  lemma QuickNavigateInfoFallsBackToClass(req: HoverRequest, meta: HywindMeta, t: string)
    requires req.element.Some? && req.caretToken == Some(t)
    requires !OnClassAttribute(req.element.value)
    requires FindProp(meta.props, t).None?
    ensures FindClass(meta.classes, t).Some? ==>
      QuickNavigateInfo(req, meta) == Some(ClassQuickInfo(t, FindClass(meta.classes, t).value))
    ensures FindClass(meta.classes, t).None? ==> QuickNavigateInfo(req, meta).None?
  {
  }
}
