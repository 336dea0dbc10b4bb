/**
 * HywindReferenceDocumentationProvider.kt: documentation for the element a
 * Hywind class reference resolves to. Only classes are consulted, and the
 * quick info is the raw first line of the description.
 */
module ReferenceDocProvider {
  import opened Options
  import opened Text
  import opened Html
  import opened Catalog
  import opened ClassReference
  import opened DocRender

  /** The hovered element: a resolved class element, or any other PSI element and its (possibly null) text. */
  datatype RefElement =
    | ClassElement(psi: ClassPsiElement)
    | OtherElement(text: Option<string>)

  /** `element.text` for a class element, else `originalElement?.text ?: element.text`. */
  function HoverText(element: RefElement, originalText: Option<string>): (r: Option<string>)
    ensures element.ClassElement? ==> r == Some(element.psi.name)
    ensures element.OtherElement? && originalText.Some? ==> r == originalText
    ensures r.None? <==> element.OtherElement? && originalText.None? && element.text.None?
  {
    match element
    case ClassElement(psi) => Some(psi.Text())
    case OtherElement(text) => originalText.OrElse(text)
  }

  /** `generateDoc`: the class doc of the first class named by the cleaned hover text, or null. */
  function GenerateDoc(element: Option<RefElement>, originalText: Option<string>, classes: seq<HyClass>): (r: Option<Doc>)
    ensures element.None? ==> r.None?
    ensures r.Some? ==> HoverText(element.value, originalText).Some?
    ensures r.Some? ==>
      exists c :: c in classes && c.className == CleanToken(HoverText(element.value, originalText).value) &&
                  r == Some(ClassDocOf(c))
  {
    if element.None? then None
    else
      var token := HoverText(element.value, originalText);
      if token.None? then None
      else
        match FindClass(classes, CleanToken(token.value))
        case Some(c) => Some(ClassDocOf(c))
        case None => None
  }

  /**
   * `generateDoc` shows a doc exactly when some class carries the cleaned
   * hover text as its name, and then it is the first such class's doc.
   */
  lemma GenerateDocFindsClass(element: RefElement, originalText: Option<string>, classes: seq<HyClass>)
    requires HoverText(element, originalText).Some?
    ensures var name := CleanToken(HoverText(element, originalText).value);
      var r := GenerateDoc(Some(element), originalText, classes);
      (r.Some? <==> exists j :: 0 <= j < |classes| && classes[j].className == name) &&
      (r.Some? ==> exists j :: 0 <= j < |classes| && classes[j].className == name &&
                     (forall i :: 0 <= i < j ==> classes[i].className != name) &&
                     r == Some(ClassDocOf(classes[j])))
  {
    var name := CleanToken(HoverText(element, originalText).value);
    var found := FindClass(classes, name);
    if found.Some? {
      var k :| 0 <= k < |classes| && classes[k] == found.value && found.value.className == name &&
               forall j :: 0 <= j < k ==> classes[j].className != name;
      assert GenerateDoc(Some(element), originalText, classes) == Some(ClassDocOf(classes[k]));
    }
  }

  /**
   * For an element a reference resolved to, the original element is ignored
   * and the doc is that of the class named by the reference's token.
   */
  lemma ResolvedReferenceDoc(ref: Reference, originalText: Option<string>, classes: seq<HyClass>)
    requires IsToken(ref.token)
    ensures GenerateDoc(Some(ClassElement(Resolve(ref))), originalText, classes) ==
      (match FindClass(classes, ref.token) case Some(c) => Some(ClassDocOf(c)) case None => None)
  {
    FindClassOfToken(classes, ref.token);
    GenerateDocOfText(ClassElement(Resolve(ref)), originalText, classes, ref.token);
  }

  /** Looking up a token needs no cleaning. */
  lemma FindClassOfToken(classes: seq<HyClass>, t: string)
    requires IsToken(t)
    ensures FindClass(classes, CleanToken(t)) == FindClass(classes, t)
  {
    CleanKeepsToken(t);
  }

  /** With hover text `t`, `generateDoc` looks up the class named by the cleaned `t`. */
  lemma GenerateDocOfText(element: RefElement, originalText: Option<string>, classes: seq<HyClass>, t: string)
    requires HoverText(element, originalText) == Some(t)
    ensures GenerateDoc(Some(element), originalText, classes) ==
      (match FindClass(classes, CleanToken(t)) case Some(c) => Some(ClassDocOf(c)) case None => None)
  {
  }

  /** Every reference `GetReferences` produces carries a token. */
  lemma ReferenceTokensAreTokens(value: string, k: nat)
    requires k < |TokenSpans(value)|
    ensures IsToken(value[TokenSpans(value)[k].start..TokenSpans(value)[k].end])
  {
    TokenSpansCharacterization(value);
    var sp := TokenSpans(value)[k];
    assert IsRun(value, sp);
  }

  /** The text `getQuickNavigateInfo` looks up: the hover text, or the original text for a null element. */
  function QuickToken(element: Option<RefElement>, originalText: Option<string>): (r: Option<string>)
    ensures element.None? ==> r == originalText
    ensures element.Some? ==> r == HoverText(element.value, originalText)
    ensures element.Some? && element.value.ClassElement? ==> r == Some(element.value.psi.name)
  {
    if element.Some? then HoverText(element.value, originalText) else originalText
  }

  /**
   * `getQuickNavigateInfo`: the trimmed first line of the first matching
   * class's description, not escaped; null when there is no hover text, no
   * such class or no description. A null element is not rejected here. The
   * result is one line with no whitespace at either end, taken from a
   * catalog class named by the cleaned text.
   */
  function QuickNavigateInfo(element: Option<RefElement>, originalText: Option<string>, classes: seq<HyClass>): (r: Option<string>)
    ensures r.Some? ==> forall i :: 0 <= i < |r.value| ==> !IsLineBreak(r.value[i])
    ensures r.Some? ==> |r.value| > 0 ==> !IsWhitespace(r.value[0]) && !IsWhitespace(r.value[|r.value| - 1])
    ensures r.Some? ==> QuickToken(element, originalText).Some?
    ensures r.Some? ==>
      exists c :: c in classes && c.className == CleanToken(QuickToken(element, originalText).value) && c.description.Some?
  {
    var token := QuickToken(element, originalText);
    if token.None? then None
    else
      match FindClass(classes, CleanToken(token.value))
      case Some(c) =>
        if c.description.Some? then
          TrimKeepsNoLineBreak(FirstLine(c.description.value));
          Some(Trim(FirstLine(c.description.value)))
        else None
      case None => None
  }

  /**
   * The quick info is shown exactly when the first class named by the
   * cleaned text has a description, and it is then what the main
   * documentation provider's short summary of that description shows once
   * its HTML escaping is undone.
   */
  lemma QuickNavigateInfoIsRawSummary(element: Option<RefElement>, originalText: Option<string>, classes: seq<HyClass>)
    ensures var t := QuickToken(element, originalText);
      var found := if t.Some? then FindClass(classes, CleanToken(t.value)) else None;
      var r := QuickNavigateInfo(element, originalText, classes);
      (r.Some? <==> found.Some? && found.value.description.Some?) &&
      (r.Some? ==> r.value == Unescape(ShortSummary(found.value.description)))
  {
    var t := QuickToken(element, originalText);
    if t.Some? {
      var found := FindClass(classes, CleanToken(t.value));
      if found.Some? && found.value.description.Some? {
        assert QuickNavigateInfo(element, originalText, classes) == Some(Trim(FirstLine(found.value.description.value)));
      }
    }
  }
}
