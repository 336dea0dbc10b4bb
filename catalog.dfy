/**
 * The metadata catalog (HywindMetaLoader.kt): the records read from the JSON
 * manifest, the single replaceable snapshot `meta`, the origin override and
 * the publish / no-publish outcome of a remote reload.
 */
module Catalog {
  import opened Options
  import opened Lists
  import opened Text

  /** `ColorObject(r, g, b)`: Kotlin `Int` channels, not range-checked by the parser. */
  datatype ColorObject = ColorObject(r: int, g: int, b: int)

  /** `HyClass`: one utility class of the catalog. */
  datatype HyClass = HyClass(
    className: string,
    description: Option<string>,
    previewColor: Option<ColorObject>,
    code: Option<string>,
    origin: Option<string>)

  /** `HyProp`: one element property of the catalog. */
  datatype HyProp = HyProp(
    propName: string,
    description: Option<string>,
    code: Option<string>,
    origin: Option<string>)

  /** `HywindMeta`: a whole catalog snapshot. */
  datatype HywindMeta = HywindMeta(classes: seq<HyClass>, props: seq<HyProp>)

  /** `HywindMeta()`: both lists default to empty. */
  const EmptyMeta := HywindMeta([], [])

  /** The bundled `hywind-meta.json`, already handed to the JSON parser. */
  datatype BundledResource = Missing | Present(parsed: HywindMeta)

  /** What the HTTP request and JSON parse of a reload can end in. */
  datatype FetchResult =
    | NoResponse                              // the connection or the response code threw
    | Response(code: int, body: BodyOutcome)  // a status code was read

  datatype BodyOutcome =
    | ReadFailed                // copying the body to the temporary file threw
    | Malformed                 // the parser threw, or gave no catalog
    | Parsed(meta: HywindMeta)  // the parser produced a catalog

  /** `loadDefaultMeta()`: a missing resource yields the empty catalog. */
  function LoadDefaultMeta(resource: BundledResource): (m: HywindMeta)
    ensures resource.Missing? ==> m.classes == [] && m.props == []
    ensures resource.Present? ==> m == resource.parsed
  {
    match resource
    case Missing => EmptyMeta
    case Present(parsed) => parsed
  }

  /** `classes.map { it.copy(origin = origin) }`. */
  function StampClasses(cs: seq<HyClass>, origin: string): (r: seq<HyClass>)
    ensures |r| == |cs|
    ensures forall i :: 0 <= i < |cs| ==> r[i].origin == Some(origin)
    ensures forall i :: 0 <= i < |cs| ==>
      r[i].className == cs[i].className && r[i].description == cs[i].description &&
      r[i].previewColor == cs[i].previewColor && r[i].code == cs[i].code
  {
    if |cs| == 0 then [] else [cs[0].(origin := Some(origin))] + StampClasses(cs[1..], origin)
  }

  /** `props.map { it.copy(origin = origin) }`. */
  function StampProps(ps: seq<HyProp>, origin: string): (r: seq<HyProp>)
    ensures |r| == |ps|
    ensures forall i :: 0 <= i < |ps| ==> r[i].origin == Some(origin)
    ensures forall i :: 0 <= i < |ps| ==>
      r[i].propName == ps[i].propName && r[i].description == ps[i].description && r[i].code == ps[i].code
  {
    if |ps| == 0 then [] else [ps[0].(origin := Some(origin))] + StampProps(ps[1..], origin)
  }

  /**
   * The override step of `reloadFromRemote`: applied only when it is
   * non-blank. It never adds, drops, reorders or renames an entry.
   */
  function ApplyOriginOverride(parsed: HywindMeta, origin: Option<string>): (m: HywindMeta)
    ensures |m.classes| == |parsed.classes| && |m.props| == |parsed.props|
    ensures forall i :: 0 <= i < |m.classes| ==> m.classes[i].className == parsed.classes[i].className
    ensures forall i :: 0 <= i < |m.props| ==> m.props[i].propName == parsed.props[i].propName
  {
    if !IsNullOrBlank(origin) then
      HywindMeta(StampClasses(parsed.classes, origin.value), StampProps(parsed.props, origin.value))
    else parsed
  }

  /**
   * With a non-blank override every class and prop carries it as origin; the
   * lists keep their length and order and every other field.
   */
  lemma OverrideStampsEveryEntry(parsed: HywindMeta, origin: string)
    requires !IsBlank(origin)
    ensures var m := ApplyOriginOverride(parsed, Some(origin));
      |m.classes| == |parsed.classes| && |m.props| == |parsed.props| &&
      (forall i :: 0 <= i < |m.classes| ==> m.classes[i] == parsed.classes[i].(origin := Some(origin))) &&
      (forall i :: 0 <= i < |m.props| ==> m.props[i] == parsed.props[i].(origin := Some(origin)))
  {
  }

  /** A null or blank override publishes the parsed catalog unchanged. */
  lemma OverrideBlankIsIdentity(parsed: HywindMeta, origin: Option<string>)
    requires IsNullOrBlank(origin)
    ensures ApplyOriginOverride(parsed, origin) == parsed
  {
  }

  /** `getClasses().find { it.className == name }`. */
  function FindClass(classes: seq<HyClass>, name: string): (r: Option<HyClass>)
    ensures r.None? <==> forall j :: 0 <= j < |classes| ==> classes[j].className != name
    ensures r.Some? ==> exists k :: 0 <= k < |classes| && classes[k] == r.value && r.value.className == name &&
                                    forall j :: 0 <= j < k ==> classes[j].className != name
  {
    Find(classes, (c: HyClass) => c.className == name)
  }

  /** `getProps().find { it.propName == name }`. */
  function FindProp(props: seq<HyProp>, name: string): (r: Option<HyProp>)
    ensures r.None? <==> forall j :: 0 <= j < |props| ==> props[j].propName != name
    ensures r.Some? ==> exists k :: 0 <= k < |props| && props[k] == r.value && r.value.propName == name &&
                                    forall j :: 0 <= j < k ==> props[j].propName != name
  {
    Find(props, (p: HyProp) => p.propName == name)
  }

  /** `getClasses().map { it.className }.toSet()`. */
  function ClassNames(classes: seq<HyClass>): (names: set<string>)
    ensures forall name :: name in names <==> FindClass(classes, name).Some?
  {
    set c | c in classes :: c.className
  }

  /**
   * Lookup by name returns, for every catalog entry, the first entry loaded
   * under that name: the entry itself unless an earlier one shares its name.
   */
  lemma FindClassRoundTrip(classes: seq<HyClass>, i: nat)
    requires i < |classes|
    ensures FindClass(classes, classes[i].className).Some?
    ensures var c := FindClass(classes, classes[i].className).value;
      c.className == classes[i].className &&
      ((forall j :: 0 <= j < i ==> classes[j].className != classes[i].className) ==> c == classes[i])
  {
    var name := classes[i].className;
    if forall j :: 0 <= j < i ==> classes[j].className != name {
      FindFirstHit(classes, (c: HyClass) => c.className == name, i);
    }
  }

  lemma FindPropRoundTrip(props: seq<HyProp>, i: nat)
    requires i < |props|
    ensures FindProp(props, props[i].propName).Some?
    ensures var p := FindProp(props, props[i].propName).value;
      p.propName == props[i].propName &&
      ((forall j :: 0 <= j < i ==> props[j].propName != props[i].propName) ==> p == props[i])
  {
    var name := props[i].propName;
    if forall j :: 0 <= j < i ==> props[j].propName != name {
      FindFirstHit(props, (p: HyProp) => p.propName == name, i);
    }
  }

  /**
   * After an override, looking a class up by name finds the same entry as
   * before, re-stamped: the override never changes which entry a name reaches.
   */
  lemma {:induction false} FindClassAfterStamp(classes: seq<HyClass>, origin: string, name: string)
    ensures FindClass(StampClasses(classes, origin), name) ==
      match FindClass(classes, name)
      case None => None
      case Some(c) => Some(c.(origin := Some(origin)))
  {
    var stamped := StampClasses(classes, origin);
    match FirstIndex(classes, (c: HyClass) => c.className == name)
    case None =>
    case Some(k) =>
      FindFirstHit(stamped, (c: HyClass) => c.className == name, k);
  }

  /** `object HywindMetaLoader`: the one catalog snapshot readers see. */
  class MetaLoader {
    var meta: HywindMeta

    /** `meta = loadDefaultMeta()`. */
    constructor (resource: BundledResource)
      ensures meta == LoadDefaultMeta(resource)
      ensures resource.Missing? ==> Classes() == [] && Props() == []
    {
      meta := LoadDefaultMeta(resource);
    }

    /** `getClasses()`. */
    function Classes(): seq<HyClass>
      reads this
    {
      meta.classes
    }

    /** `getProps()`. */
    function Props(): seq<HyProp>
      reads this
    {
      meta.props
    }

    /**
     * `reloadFromRemote()`, with the HTTP exchange and the parse given as
     * `fetch` and the configured override as `originOverride`. Only a 200
     * response whose body parses publishes, and it publishes the whole
     * adjusted snapshot; every other outcome returns false and keeps `meta`.
     */
    method ReloadFromRemote(fetch: FetchResult, originOverride: Option<string>) returns (ok: bool)
      modifies this
      ensures ok <==> fetch.Response? && fetch.code == 200 && fetch.body.Parsed?
      ensures ok ==> meta == ApplyOriginOverride(fetch.body.meta, originOverride)
      ensures ok ==> Classes() == ApplyOriginOverride(fetch.body.meta, originOverride).classes &&
                     Props() == ApplyOriginOverride(fetch.body.meta, originOverride).props
      ensures !ok ==> meta == old(meta)
    {
      if fetch.NoResponse? {
        return false;
      }
      if fetch.code != 200 {
        return false;
      }
      match fetch.body
      case ReadFailed =>
        return false;
      case Malformed =>
        return false;
      case Parsed(parsed) =>
        var adjusted := ApplyOriginOverride(parsed, originOverride);
        meta := adjusted;
        return true;
    }
  }
}
