/**
 * MyHtmlCompletionContributor.kt: completion of Hywind class names inside a
 * `class` attribute value, and of prop names where an attribute name goes.
 */
module Completion {
  import opened Options
  import opened Lists
  import opened Text
  import opened Catalog

  /** A `LookupElementBuilder`: immutable, each `with...` returns a new one. */
  datatype LookupElement = LookupElement(
    lookupString: string,
    typeText: Option<string>,
    tailText: Option<string>,
    icon: Option<ColorObject>)  // the colour of the swatch `createColorIcon` builds
  {
    function WithTypeText(t: string): LookupElement { this.(typeText := Some(t)) }
    function WithTailText(t: string): LookupElement { this.(tailText := Some(t)) }
    function WithIcon(c: ColorObject): LookupElement { this.(icon := Some(c)) }
  }

  /** `LookupElementBuilder.create(s)`. */
  function Create(s: string): LookupElement {
    LookupElement(s, None, None, None)
  }

  /** `java.awt.Color(r, g, b)` accepts only channels in 0..255 and throws otherwise. */
  predicate IsAwtColor(c: ColorObject) {
    0 <= c.r <= 255 && 0 <= c.g <= 255 && 0 <= c.b <= 255
  }

  /** `createColorIcon` throws for this class: it has a preview colour with a channel outside 0..255. */
  predicate IconThrows(c: HyClass) {
    c.previewColor.Some? && !IsAwtColor(c.previewColor.value)
  }

  /**
   * The lookup element built for one class, or None when building its icon
   * throws. It shows the class name; on the right the origin when that is
   * not blank, else the description (or ""); a colour icon exactly when the
   * class has a preview colour; and as tail the first line of the
   * description, indented by two spaces, exactly when the description is
   * not blank.
   */
  function ClassElement(c: HyClass): (e: Option<LookupElement>)
    ensures e.None? <==> IconThrows(c)
    ensures e.Some? ==> e.value.lookupString == c.className
    ensures e.Some? ==>
      e.value.typeText == Some(if !IsNullOrBlank(c.origin) then c.origin.value else c.description.GetOr(""))
    ensures e.Some? ==> e.value.icon == c.previewColor
    ensures e.Some? ==> (e.value.tailText.Some? <==> !IsNullOrBlank(c.description))
    ensures e.Some? && e.value.tailText.Some? ==>
      e.value.tailText.value == "  " + FirstLine(c.description.value) &&
      forall i :: 2 <= i < |e.value.tailText.value| ==> !IsLineBreak(e.value.tailText.value[i])
  {
    var builder := Create(c.className).WithTypeText(c.description.GetOr(""));
    if IconThrows(c) then None
    else
      var builder := if c.previewColor.Some? then builder.WithIcon(c.previewColor.value) else builder;
      var builder := if !IsNullOrBlank(c.origin) then builder.WithTypeText(c.origin.value) else builder;
      Some(if !IsNullOrBlank(c.description) then builder.WithTailText("  " + FirstLine(c.description.value)) else builder)
  }

  /**
   * The lookup element built for one prop: the prop name, the description
   * (or "") on the right, no icon, and the origin indented by two spaces as
   * tail exactly when it is not blank.
   */
  function PropElement(p: HyProp): (e: LookupElement)
    ensures e.lookupString == p.propName
    ensures e.typeText == Some(p.description.GetOr(""))
    ensures e.icon.None?
    ensures e.tailText.Some? <==> !IsNullOrBlank(p.origin)
    ensures e.tailText.Some? ==> e.tailText.value == "  " + p.origin.value
  {
    var builder := Create(p.propName).WithTypeText(p.description.GetOr(""));
    if !IsNullOrBlank(p.origin) then builder.WithTailText("  " + p.origin.value) else builder
  }

  /**
   * How many classes the loop gets through: all of them, or those before
   * the first class whose icon throws.
   */
  function CompletedCount(classes: seq<HyClass>): (n: nat)
    ensures n <= |classes|
    ensures forall k :: 0 <= k < n ==> !IconThrows(classes[k])
    ensures n < |classes| ==> IconThrows(classes[n])
    ensures n == |classes| <==> forall k :: 0 <= k < |classes| ==> !IconThrows(classes[k])
  {
    match FirstIndex(classes, IconThrows)
    case None => |classes|
    case Some(k) => k
  }

  /**
   * The suggestions for a class attribute value: one per catalog class, in
   * catalog order, up to the first class whose icon throws.
   */
  function ClassElements(classes: seq<HyClass>): (es: seq<LookupElement>)
    ensures |es| == CompletedCount(classes)
    ensures forall k :: 0 <= k < |es| ==> ClassElement(classes[k]) == Some(es[k])
  {
    var n := CompletedCount(classes);
    seq(n, k requires 0 <= k < n => ClassElement(classes[k]).value)
  }

  /** The suggestions for an attribute name, one per catalog prop, in catalog order. */
  function PropElements(props: seq<HyProp>): (es: seq<LookupElement>)
    ensures |es| == |props|
    ensures forall k :: 0 <= k < |es| ==> es[k] == PropElement(props[k]) && es[k].lookupString == props[k].propName
  {
    seq(|props|, k requires 0 <= k < |props| => PropElement(props[k]))
  }

  /**
   * A name is offered inside a class attribute value exactly when it is the
   * name of a catalog class the loop reaches (all of them, the names
   * `generateDoc` can resolve, when no icon throws), and a name is offered
   * as an attribute exactly when some prop carries it.
   */
  lemma CompletionOffersCatalogNames(classes: seq<HyClass>, props: seq<HyProp>, name: string)
    ensures (exists k :: 0 <= k < |ClassElements(classes)| && ClassElements(classes)[k].lookupString == name)
            <==> name in ClassNames(classes[..CompletedCount(classes)])
    ensures CompletedCount(classes) == |classes| ==>
      ((exists k :: 0 <= k < |ClassElements(classes)| && ClassElements(classes)[k].lookupString == name)
       <==> name in ClassNames(classes))
    ensures (exists k :: 0 <= k < |PropElements(props)| && PropElements(props)[k].lookupString == name)
            <==> FindProp(props, name).Some?
  {
    ClassNamesOffered(classes, name);
    PropNamesOffered(props, name);
  }

  /** The class half: the names offered are those of the classes the loop reaches. */
  lemma ClassNamesOffered(classes: seq<HyClass>, name: string)
    ensures (exists k :: 0 <= k < |ClassElements(classes)| && ClassElements(classes)[k].lookupString == name)
            <==> name in ClassNames(classes[..CompletedCount(classes)])
  {
    var es := ClassElements(classes);
    var reached := classes[..CompletedCount(classes)];
    if name in ClassNames(reached) {
      var c := FindClass(reached, name).value;
      var k :| 0 <= k < |reached| && reached[k] == c && c.className == name;
      assert es[k].lookupString == name;
    }
    if exists k :: 0 <= k < |es| && es[k].lookupString == name {
      var k :| 0 <= k < |es| && es[k].lookupString == name;
      assert reached[k] in reached;
    }
  }

  /** The prop half: the names offered are exactly the props' names. */
  lemma PropNamesOffered(props: seq<HyProp>, name: string)
    ensures (exists k :: 0 <= k < |PropElements(props)| && PropElements(props)[k].lookupString == name)
            <==> FindProp(props, name).Some?
  {
    var ps := PropElements(props);
    if FindProp(props, name).Some? {
      var p := FindProp(props, name).value;
      var k :| 0 <= k < |props| && props[k] == p && p.propName == name;
      assert ps[k].lookupString == name;
    }
  }

  /** The `CompletionResultSet` the contributor adds to. */
  class ResultSet {
    var elements: seq<LookupElement>

    constructor ()
      ensures elements == []
    {
      elements := [];
    }

    /** `result.addElement(builder)`. */
    method AddElement(e: LookupElement)
      modifies this
      ensures elements == old(elements) + [e]
    {
      elements := elements + [e];
    }
  }

  /**
   * The attribute-value provider. `attrName` is the name of the attribute
   * that holds the value under the caret, or None when the value's parent is
   * not an attribute. Only a `class` attribute gets suggestions: one per
   * catalog class, in order. `completed` is false when `createColorIcon`
   * threw: the loop then stops at that class, and the suggestions added
   * before it stay in the result set.
   */
  method AddClassCompletions(attrName: Option<string>, classes: seq<HyClass>, result: ResultSet)
    returns (completed: bool)
    modifies result
    ensures attrName == Some("class") ==> result.elements == old(result.elements) + ClassElements(classes)
    ensures attrName == Some("class") ==> (completed <==> forall k :: 0 <= k < |classes| ==> !IconThrows(classes[k]))
    ensures attrName != Some("class") ==> completed && result.elements == old(result.elements)
  {
    if attrName.None? {
      return true;
    }
    if attrName.value == "class" {
      var n := CompletedCount(classes);
      for i := 0 to |classes|
        invariant i <= n
        invariant result.elements == old(result.elements) + ClassElements(classes)[..i]
      {
        var c := classes[i];
        var builder := Create(c.className).WithTypeText(c.description.GetOr(""));
        if c.previewColor.Some? {
          if !IsAwtColor(c.previewColor.value) {
            ClassElementsUpTo(classes, i);
            return false;
          }
          builder := builder.WithIcon(c.previewColor.value);
        }
        if !IsNullOrBlank(c.origin) {
          builder := builder.WithTypeText(c.origin.value);
        }
        if !IsNullOrBlank(c.description) {
          builder := builder.WithTailText("  " + FirstLine(c.description.value));
        }
        ClassElementsStep(classes, i);
        assert Some(builder) == ClassElement(classes[i]);
        result.AddElement(builder);
      }
      ClassElementsUpTo(classes, |classes|);
    }
    return true;
  }

  /** A class the loop reaches extends the suggestions by its element. */
  lemma ClassElementsStep(classes: seq<HyClass>, i: nat)
    requires i < |classes| && !IconThrows(classes[i])
    requires i <= CompletedCount(classes)
    ensures i < CompletedCount(classes)
    ensures ClassElement(classes[i]).Some?
    ensures ClassElements(classes)[..i + 1] == ClassElements(classes)[..i] + [ClassElement(classes[i]).value]
  {
  }

  /** Once the loop has reached the first throwing class, or the end, it has added every suggestion. */
  lemma ClassElementsUpTo(classes: seq<HyClass>, i: nat)
    requires i <= |classes| && i <= CompletedCount(classes)
    requires i == |classes| || IconThrows(classes[i])
    ensures ClassElements(classes)[..i] == ClassElements(classes)
  {
  }

  /**
   * A first class with the colour (300, 0, 0) makes `createColorIcon` throw
   * before anything is added: no class is suggested, not even a later one.
   */
  lemma OutOfRangeColourStopsCompletion(a: HyClass, b: HyClass)
    requires a.previewColor == Some(ColorObject(300, 0, 0))
    ensures CompletedCount([a, b]) == 0 && ClassElements([a, b]) == []
  {
    assert IconThrows([a, b][0]);
  }

  /** The attribute-name provider: one suggestion per catalog prop, in order. */
  method AddPropCompletions(props: seq<HyProp>, result: ResultSet)
    modifies result
    ensures result.elements == old(result.elements) + PropElements(props)
  {
    for i := 0 to |props|
      invariant result.elements == old(result.elements) + PropElements(props)[..i]
    {
      var p := props[i];
      var builder := Create(p.propName).WithTypeText(p.description.GetOr(""));
      if !IsNullOrBlank(p.origin) {
        builder := builder.WithTailText("  " + p.origin.value);
      }
      assert builder == PropElements(props)[i];
      assert PropElements(props)[..i + 1] == PropElements(props)[..i] + [builder];
      result.AddElement(builder);
    }
    assert PropElements(props)[..|props|] == PropElements(props);
  }
}
