/** The manifest contract shared by the plugin and the runtime: the schema
    version, the prop definitions the runtime validator produces, component
    definitions and the manifest itself, together with the narrower shapes
    the two scanner prototypes emit and the JSON form of each. */
module ManifestSchema {
  import opened Wrappers
  import opened Json
  import Records

  /** The only schema version there is. */
  type ManifestVersion = v: string | v == "1" witness "1"

  const MANIFEST_VERSION: ManifestVersion := "1"

  /** A prop definition that can stand alone or be an array element:
      a primitive, or a closed list of string options. Only `enum` may carry
      the name of the declaration it came from. */
  datatype BaseDef =
    | StringDef
    | NumberDef
    | BooleanDef
    | UnionDef(options: seq<string>)
    | EnumDef(options: seq<string>, name: Option<string>)
  {
    predicate IsOption() { UnionDef? || EnumDef? }
  }

  /** A prop definition: a base definition, or an array of one (never an
      array of arrays). */
  datatype PropDef = Base(def: BaseDef) | ArrayOf(element: BaseDef)

  datatype ComponentDef = ComponentDef(
    name: string,
    path: string,
    isDefaultExport: bool,
    props: Records.Record<PropDef>)

  datatype Manifest = Manifest(version: ManifestVersion, components: seq<ComponentDef>)

  /** What the validator guarantees of each component it returns. */
  predicate WellFormedComponent(c: ComponentDef) {
    |c.name| > 0 && |c.path| > 0 && Records.DistinctKeys(c.props)
  }

  predicate WellFormed(m: Manifest) {
    forall i :: 0 <= i < |m.components| ==> WellFormedComponent(m.components[i])
  }

  // ---------------------------------------------------------------------
  // The prototypes' narrower shapes: string, number, boolean and
  // string-literal union only, no default-export flag, no version.

  datatype ScannedPropDef = ScannedString | ScannedNumber | ScannedBoolean | ScannedUnion(options: seq<string>)

  datatype ScannedComponent = ScannedComponent(name: string, path: string, props: Records.Record<ScannedPropDef>)

  datatype ScanResult = ScanResult(components: seq<ScannedComponent>)

  /** Every narrow definition is one of the validator's definitions. */
  function Widen(d: ScannedPropDef): (p: PropDef)
    ensures p.Base? && !p.def.EnumDef?
    ensures d.ScannedString? <==> p == Base(StringDef)
    ensures d.ScannedNumber? <==> p == Base(NumberDef)
    ensures d.ScannedBoolean? <==> p == Base(BooleanDef)
    ensures d.ScannedUnion? <==> p.def.UnionDef?
    ensures d.ScannedUnion? ==> p.def.options == d.options
  {
    match d
    case ScannedString => Base(StringDef)
    case ScannedNumber => Base(NumberDef)
    case ScannedBoolean => Base(BooleanDef)
    case ScannedUnion(options) => Base(UnionDef(options))
  }

  /** The `type` string the prototypes write for a definition. */
  function ScannedTag(d: ScannedPropDef): string {
    match d
    case ScannedString => "string"
    case ScannedNumber => "number"
    case ScannedBoolean => "boolean"
    case ScannedUnion(_) => "union"
  }

  // ---------------------------------------------------------------------
  // JSON forms, with keys in the order the objects are built.

  function StringsToJson(xs: seq<string>): (j: seq<JVal>)
    ensures |j| == |xs|
    ensures forall i :: 0 <= i < |xs| ==> j[i] == JStr(xs[i])
  {
    seq(|xs|, i requires 0 <= i < |xs| => JStr(xs[i]))
  }

  function BaseDefToJson(d: BaseDef): JVal {
    match d
    case StringDef => JObj([("type", JStr("string"))])
    case NumberDef => JObj([("type", JStr("number"))])
    case BooleanDef => JObj([("type", JStr("boolean"))])
    case UnionDef(options) => JObj([("type", JStr("union")), ("options", JArr(StringsToJson(options)))])
    case EnumDef(options, name) =>
      JObj([("type", JStr("enum")), ("options", JArr(StringsToJson(options)))]
           + (if name.Some? then [("name", JStr(name.value))] else []))
  }

  function PropDefToJson(p: PropDef): JVal {
    match p
    case Base(d) => BaseDefToJson(d)
    case ArrayOf(e) => JObj([("type", JStr("array")), ("element", BaseDefToJson(e))])
  }

  function PropsToJson(props: Records.Record<PropDef>): (j: seq<(string, JVal)>)
    ensures |j| == |props|
    ensures forall i :: 0 <= i < |props| ==> j[i] == (props[i].0, PropDefToJson(props[i].1))
  {
    seq(|props|, i requires 0 <= i < |props| => (props[i].0, PropDefToJson(props[i].1)))
  }

  function ComponentToJson(c: ComponentDef): JVal {
    JObj([("name", JStr(c.name)), ("path", JStr(c.path)),
          ("isDefaultExport", JBool(c.isDefaultExport)), ("props", JObj(PropsToJson(c.props)))])
  }

  function ComponentsToJson(cs: seq<ComponentDef>): (j: seq<JVal>)
    ensures |j| == |cs|
    ensures forall i :: 0 <= i < |cs| ==> j[i] == ComponentToJson(cs[i])
  {
    seq(|cs|, i requires 0 <= i < |cs| => ComponentToJson(cs[i]))
  }

  /** The manifest as `JSON.parse(JSON.stringify(m))` sees it. */
  function ToJson(m: Manifest): JVal {
    JObj([("version", JStr(m.version)), ("components", JArr(ComponentsToJson(m.components)))])
  }

  /** Widening does not change the JSON the prototypes emit: the same
      `type` string and, for a union, the same options in order. */
  lemma WidenKeepsJson(d: ScannedPropDef)
    ensures Field(PropDefToJson(Widen(d)), "type") == Some(JStr(ScannedTag(d)))
    ensures d.ScannedUnion? <==> Field(PropDefToJson(Widen(d)), "options").Some?
    ensures d.ScannedUnion? ==> Field(PropDefToJson(Widen(d)), "options") == Some(JArr(StringsToJson(d.options)))
  {
    assert "type"[0] != "options"[0];
    var entries := PropDefToJson(Widen(d)).entries;
    if d.ScannedUnion? {
      Records.GetAt(entries, 1, "options");
    } else {
      assert forall i :: 0 <= i < |entries| ==> entries[i].0 == "type";
    }
  }

  function ScannedComponentToJson(c: ScannedComponent): JVal {
    JObj([("name", JStr(c.name)), ("path", JStr(c.path)),
          ("props", JObj(seq(|c.props|, i requires 0 <= i < |c.props| =>
                               (c.props[i].0, PropDefToJson(Widen(c.props[i].1))))))])
  }

  function ScanResultToJson(r: ScanResult): JVal {
    JObj([("components", JArr(seq(|r.components|, i requires 0 <= i < |r.components| =>
                                    ScannedComponentToJson(r.components[i]))))])
  }
}
