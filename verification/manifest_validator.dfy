/** The runtime's all-or-nothing check of an untrusted manifest payload:
    it either returns a normalised `Manifest` or fails with a
    `ManifestValidationError` whose message names the offending field. */
module ManifestValidator {
  import opened Wrappers
  import opened Text
  import opened Json
  import opened ManifestSchema
  import Records

  datatype ManifestValidationError = ManifestValidationError(message: string)

  type Validated<T> = Result<T, ManifestValidationError>

  function Fail<T>(message: string): Validated<T> {
    Failure(ManifestValidationError(message))
  }

  function Quoted(s: string): string {
    "\"" + s + "\""
  }

  function PropContext(componentName: string, propName: string): string {
    "Prop " + Quoted(propName) + " on component " + Quoted(componentName)
  }

  /** The `type` tag each base definition is written with. */
  function Tag(d: BaseDef): string {
    match d
    case StringDef => "string"
    case NumberDef => "number"
    case BooleanDef => "boolean"
    case UnionDef(_) => "union"
    case EnumDef(_, _) => "enum"
  }

  predicate IsBaseTag(t: Option<JVal>) {
    t == Some(JStr("string")) || t == Some(JStr("number")) || t == Some(JStr("boolean"))
    || t == Some(JStr("union")) || t == Some(JStr("enum"))
  }

  predicate IsStringArray(o: Option<JVal>) {
    o.Some? && o.value.JArr? && forall i :: 0 <= i < |o.value.items| ==> o.value.items[i].JStr?
  }

  function StringsOf(items: seq<JVal>): (xs: seq<string>)
    requires forall i :: 0 <= i < |items| ==> items[i].JStr?
    ensures |xs| == |items|
    ensures StringsToJson(xs) == items
  {
    seq(|items|, i requires 0 <= i < |items| => items[i].s)
  }

  /** The `name` an enum keeps: the payload's, when it is a string. */
  function EnumName(value: JVal): Option<string> {
    var n := Field(value, "name");
    if n.Some? && n.value.JStr? then Some(n.value.s) else None
  }

  // ---------------------------------------------------------------------
  // What the validator accepts, stated field by field.

  predicate IsOptionTag(t: Option<JVal>) {
    t == Some(JStr("union")) || t == Some(JStr("enum"))
  }

  /** An object tagged string/number/boolean, or union/enum with an
      all-string `options` array. */
  predicate AcceptableBase(v: JVal) {
    IsObjectLike(v) && IsBaseTag(Field(v, "type"))
    && (IsOptionTag(Field(v, "type")) ==> IsStringArray(Field(v, "options")))
  }

  /** An array definition with an acceptable base `element`, or an
      acceptable base definition. */
  predicate AcceptableProp(v: JVal) {
    if IsArrayProp(v) then Field(v, "element").Some? && AcceptableBase(Field(v, "element").value)
    else AcceptableBase(v)
  }

  predicate IsNonEmptyString(o: Option<JVal>) {
    o.Some? && o.value.JStr? && |o.value.s| > 0
  }

  /** `candidate.props ?? {}`: a missing or null `props` reads as `{}`. */
  function PropsRecord(value: JVal): JVal {
    var p := Field(value, "props");
    if p.None? || p == Some(JNull) then JObj([]) else p.value
  }

  predicate AcceptableComponent(v: JVal) {
    && IsObjectLike(v)
    && IsNonEmptyString(Field(v, "name"))
    && IsNonEmptyString(Field(v, "path"))
    && Field(v, "isDefaultExport").Some? && Field(v, "isDefaultExport").value.JBool?
    && PropsRecord(v).JObj?
    && forall i :: 0 <= i < |PropsRecord(v).entries| ==> AcceptableProp(PropsRecord(v).entries[i].1)
  }

  predicate AcceptableManifest(v: JVal) {
    && IsObjectLike(v)
    && Field(v, "version") == Some(JStr(MANIFEST_VERSION))
    && Field(v, "components").Some? && Field(v, "components").value.JArr?
    && forall i :: 0 <= i < |Field(v, "components").value.items| ==>
                     AcceptableComponent(Field(v, "components").value.items[i])
  }

  /** `validateBasePropDef`: a primitive or option definition. */
  function ValidateBasePropDef(componentName: string, propName: string, value: JVal): (r: Validated<BaseDef>)
    ensures !IsObjectLike(value) ==> r.Failure?
    ensures IsObjectLike(value) && !IsBaseTag(Field(value, "type")) ==>
              r.Failure? && Contains(r.error.message, "unsupported type")
    ensures r.Success? ==> IsObjectLike(value) && Field(value, "type") == Some(JStr(Tag(r.value)))
    ensures r.Success? && r.value.IsOption() ==>
              Field(value, "options") == Some(JArr(StringsToJson(r.value.options)))
    ensures r.Success? && r.value.EnumDef? ==> r.value.name == EnumName(value)
    ensures r.Success? <==> AcceptableBase(value)
  {
    var context := PropContext(componentName, propName);
    if !IsObjectLike(value) then
      Fail(context + " must be an object.")
    else
      var t := Field(value, "type");
      if !IsBaseTag(t) then
        var before, after := context + " has ", " " + Quoted(ShowOpt(t)) + ".";
        ContainsMiddle(before, "unsupported type", after);
        Fail(before + "unsupported type" + after)
      else if t == Some(JStr("union")) || t == Some(JStr("enum")) then
        var o := Field(value, "options");
        if !IsStringArray(o) then
          Fail(context + " must provide a string[] options array for " + t.value.s + " types.")
        else
          var options := StringsOf(o.value.items);
          if t == Some(JStr("union")) then Success(UnionDef(options))
          else Success(EnumDef(options, EnumName(value)))
      else if t == Some(JStr("string")) then Success(StringDef)
      else if t == Some(JStr("number")) then Success(NumberDef)
      else Success(BooleanDef)
  }

  predicate IsArrayProp(value: JVal) {
    IsObjectLike(value) && Field(value, "type") == Some(JStr("array"))
  }

  /** `validatePropDef`: an array definition whose element passes base
      validation, or a base definition. */
  function ValidatePropDef(componentName: string, propName: string, value: JVal): (r: Validated<PropDef>)
    ensures IsArrayProp(value) && Field(value, "element").None? ==>
              r.Failure? && Contains(r.error.message, "element definition")
    ensures r.Success? <==> AcceptableProp(value)
    ensures IsArrayProp(value) && Field(value, "element").Some? && IsArrayProp(Field(value, "element").value) ==>
              r.Failure?
    ensures r.Success? ==> (r.value.ArrayOf? <==> IsArrayProp(value))
    ensures r.Success? && r.value.ArrayOf? ==>
              ValidateBasePropDef(componentName, propName + "[]", Field(value, "element").value) == Success(r.value.element)
    ensures r.Success? && r.value.Base? ==> ValidateBasePropDef(componentName, propName, value) == Success(r.value.def)
  {
    if IsArrayProp(value) then
      var element := Field(value, "element");
      if element.None? then
        var before, after := PropContext(componentName, propName) + " must specify an ",
                             " when using type \"array\".";
        ContainsMiddle(before, "element definition", after);
        Fail(before + "element definition" + after)
      else
        var e :- ValidateBasePropDef(componentName, propName + "[]", element.value);
        Success(ArrayOf(e))
    else
      var d :- ValidateBasePropDef(componentName, propName, value);
      Success(Base(d))
  }

  /** The loop over `Object.entries(propsRecord)`: each prop is validated in
      order and assigned into the accumulated record; the first failure
      aborts. */
  function ValidateProps(componentName: string, entries: seq<(string, JVal)>, acc: Records.Record<PropDef>)
    : (r: Validated<Records.Record<PropDef>>)
    requires Records.DistinctKeys(acc)
    ensures r.Success? <==> forall i :: 0 <= i < |entries| ==> AcceptableProp(entries[i].1)
    ensures r.Success? ==> Records.DistinctKeys(r.value)
    ensures r.Success? ==> Records.Keys(acc) <= Records.Keys(r.value)
    ensures r.Success? ==> forall i :: 0 <= i < |entries| ==> entries[i].0 in Records.Keys(r.value)
    decreases |entries|
  {
    if |entries| == 0 then Success(acc)
    else
      var d := ValidatePropDef(componentName, entries[0].0, entries[0].1);
      if d.Failure? then Failure(d.error)
      else
        var acc' := Records.Put(acc, entries[0].0, d.value);
        Records.PutKeepsDistinct(acc, entries[0].0, d.value);
        assert entries[0].0 in Records.Keys(acc') by {
          if Records.HasKey(acc, entries[0].0) {
            var j := Records.IndexOf(acc, entries[0].0);
            assert Records.Keys(acc')[j] == entries[0].0;
          } else {
            assert Records.Keys(acc')[|acc|] == entries[0].0;
          }
        }
        var r := ValidateProps(componentName, entries[1..], acc');
        assert (forall i :: 0 <= i < |entries| ==> AcceptableProp(entries[i].1))
               <==> (forall i :: 0 <= i < |entries[1..]| ==> AcceptableProp(entries[1..][i].1)) by {
          if forall i :: 0 <= i < |entries[1..]| ==> AcceptableProp(entries[1..][i].1) {
            forall i | 0 < i < |entries| ensures AcceptableProp(entries[i].1) {
              assert entries[i] == entries[1..][i - 1];
            }
          }
        }
        assert r.Success? ==> forall i :: 0 <= i < |entries| ==> entries[i].0 in Records.Keys(r.value) by {
          if r.Success? {
            forall i | 0 <= i < |entries| ensures entries[i].0 in Records.Keys(r.value) {
              if i > 0 { assert entries[i] == entries[1..][i - 1]; }
            }
          }
        }
        r
  }

  /** Distinct prop names none of which is already in the accumulated
      record. */
  predicate FreshNames(entries: seq<(string, JVal)>, acc: Records.Record<PropDef>) {
    Records.DistinctKeys(entries) && forall i :: 0 <= i < |entries| ==> !Records.HasKey(acc, entries[i].0)
  }

  /** After the first prop is appended, the other names are still fresh. */
  lemma FreshTail(entries: seq<(string, JVal)>, acc: Records.Record<PropDef>, d: PropDef)
    requires |entries| > 0 && FreshNames(entries, acc)
    ensures FreshNames(entries[1..], acc + [(entries[0].0, d)])
  {
    var acc' := acc + [(entries[0].0, d)];
    var tail := entries[1..];
    forall i, j | 0 <= i < j < |tail| ensures tail[i].0 != tail[j].0 {
      assert tail[i] == entries[i + 1] && tail[j] == entries[j + 1];
    }
    forall i | 0 <= i < |tail| ensures !Records.HasKey(acc', tail[i].0) {
      assert tail[i] == entries[i + 1];
      assert !Records.HasKey(acc, entries[i + 1].0);
      forall k | 0 <= k < |acc'| ensures acc'[k].0 != tail[i].0 {
        if k < |acc| { assert acc'[k] == acc[k]; }
      }
    }
  }

  /** A fresh first prop that validates is appended, and the loop goes on
      with the rest. */
  lemma PropsStep(componentName: string, entries: seq<(string, JVal)>, acc: Records.Record<PropDef>)
    requires Records.DistinctKeys(acc) && |entries| > 0 && !Records.HasKey(acc, entries[0].0)
    requires ValidatePropDef(componentName, entries[0].0, entries[0].1).Success?
    ensures var acc' := acc + [(entries[0].0, ValidatePropDef(componentName, entries[0].0, entries[0].1).value)];
            Records.DistinctKeys(acc') && ValidateProps(componentName, entries, acc) == ValidateProps(componentName, entries[1..], acc')
  {
    var d := ValidatePropDef(componentName, entries[0].0, entries[0].1);
    assert Records.Put(acc, entries[0].0, d.value) == acc + [(entries[0].0, d.value)];
    Records.PutKeepsDistinct(acc, entries[0].0, d.value);
  }

  /** Each prop under its name with its validated definition, in order,
      the first failure aborting: what the loop appends when no name
      repeats. */
  function ValidatedEach(componentName: string, entries: seq<(string, JVal)>): (r: Validated<seq<(string, PropDef)>>)
    ensures r.Success? <==> forall i :: 0 <= i < |entries| ==> AcceptableProp(entries[i].1)
    ensures r.Success? ==> |r.value| == |entries|
    ensures r.Success? ==> forall i :: 0 <= i < |entries| ==>
              r.value[i] == (entries[i].0, ValidatePropDef(componentName, entries[i].0, entries[i].1).value)
    decreases |entries|
  {
    if |entries| == 0 then Success([])
    else
      var d := ValidatePropDef(componentName, entries[0].0, entries[0].1);
      if d.Failure? then Failure(d.error)
      else
        var rest := ValidatedEach(componentName, entries[1..]);
        assert forall i :: 0 < i < |entries| ==> entries[i] == entries[1..][i - 1];
        if rest.Failure? then Failure(rest.error)
        else Success([(entries[0].0, d.value)] + rest.value)
  }

  lemma AppendShift<T>(a: seq<T>, x: T, b: seq<T>)
    ensures (a + [x]) + b == a + ([x] + b)
  {
  }

  /** With distinct prop names, none of them already in `acc`, a success
      appends each prop in order under its name with its validated
      definition. */
  lemma {:induction false} PropsPointwise(componentName: string, entries: seq<(string, JVal)>, acc: Records.Record<PropDef>)
    requires Records.DistinctKeys(acc)
    ensures var r := ValidateProps(componentName, entries, acc);
            r.Success? && FreshNames(entries, acc) ==>
              ValidatedEach(componentName, entries).Success? && r.value == acc + ValidatedEach(componentName, entries).value
    decreases |entries|
  {
    var r := ValidateProps(componentName, entries, acc);
    if |entries| > 0 && r.Success? && FreshNames(entries, acc) {
      var d := ValidatePropDef(componentName, entries[0].0, entries[0].1);
      assert d.Success?;
      var acc' := acc + [(entries[0].0, d.value)];
      PropsStep(componentName, entries, acc);
      FreshTail(entries, acc, d.value);
      PropsPointwise(componentName, entries[1..], acc');
      var each := ValidatedEach(componentName, entries);
      assert each.value == [(entries[0].0, d.value)] + ValidatedEach(componentName, entries[1..]).value;
      AppendShift(acc, (entries[0].0, d.value), ValidatedEach(componentName, entries[1..]).value);
    }
  }

  function ComponentContext(name: string): string {
    "Component " + Quoted(name)
  }

  /** `validateComponentDef`. */
  function ValidateComponentDef(index: nat, value: JVal): (r: Validated<ComponentDef>)
    ensures r.Success? <==> AcceptableComponent(value)
    ensures r.Success? ==> WellFormedComponent(r.value)
    ensures r.Success? ==>
              && Field(value, "name") == Some(JStr(r.value.name))
              && Field(value, "path") == Some(JStr(r.value.path))
              && Field(value, "isDefaultExport") == Some(JBool(r.value.isDefaultExport))
    ensures r.Success? ==> forall i :: 0 <= i < |PropsRecord(value).entries| ==>
                             Records.HasKey(r.value.props, PropsRecord(value).entries[i].0)
  {
    var at := "Component at index " + NatToString(index);
    if !IsObjectLike(value) then Fail(at + " must be an object.")
    else
      var name := Field(value, "name");
      if !IsNonEmptyString(name) then Fail(at + " requires a name.")
      else
        var n := name.value.s;
        var path := Field(value, "path");
        if !IsNonEmptyString(path) then Fail(ComponentContext(n) + " requires a file path.")
        else
          var flag := Field(value, "isDefaultExport");
          if !(flag.Some? && flag.value.JBool?) then
            Fail(ComponentContext(n) + " must specify whether it is a default export.")
          else
            var record := PropsRecord(value);
            if !record.JObj? then Fail(ComponentContext(n) + " must define props as an object map.")
            else
              var props :- ValidateProps(n, record.entries, []);
              Success(ComponentDef(n, path.value.s, flag.value.b, props))
  }

  /** A component's props, when their names are distinct as in any JS
      object, are its input props in order, each with its validated
      definition. */
  lemma ComponentPropsPointwise(index: nat, value: JVal)
    ensures var r := ValidateComponentDef(index, value);
            r.Success? && Records.DistinctKeys(PropsRecord(value).entries) ==>
              && |r.value.props| == |PropsRecord(value).entries|
              && forall i :: 0 <= i < |PropsRecord(value).entries| ==>
                   r.value.props[i] == (PropsRecord(value).entries[i].0,
                                        ValidatePropDef(r.value.name, PropsRecord(value).entries[i].0, PropsRecord(value).entries[i].1).value)
  {
    var r := ValidateComponentDef(index, value);
    if r.Success? && Records.DistinctKeys(PropsRecord(value).entries) {
      var entries := PropsRecord(value).entries;
      assert r.value.props == ValidateProps(r.value.name, entries, []).value;
      assert FreshNames(entries, []);
      PropsPointwise(r.value.name, entries, []);
      assert [] + ValidatedEach(r.value.name, entries).value == ValidatedEach(r.value.name, entries).value;
    }
  }

  /** `components.map((component, index) => validateComponentDef(index, component))`:
      every component in order, the first failure aborting the whole list. */
  function ValidateComponents(items: seq<JVal>, index: nat): (r: Validated<seq<ComponentDef>>)
    ensures r.Success? <==> forall i :: 0 <= i < |items| ==> AcceptableComponent(items[i])
    ensures r.Success? ==> |r.value| == |items|
    decreases |items|
  {
    if |items| == 0 then Success([])
    else
      var c := ValidateComponentDef(index, items[0]);
      if c.Failure? then Failure(c.error)
      else
        var rest :- ValidateComponents(items[1..], index + 1);
        AcceptableCons(items);
        Success([c.value] + rest)
  }

  lemma AcceptableCons(items: seq<JVal>)
    requires |items| > 0
    ensures (forall i :: 0 <= i < |items| ==> AcceptableComponent(items[i]))
            <==> AcceptableComponent(items[0]) && forall i :: 0 <= i < |items[1..]| ==> AcceptableComponent(items[1..][i])
  {
    assert forall i :: 0 < i < |items| ==> items[i] == items[1..][i - 1];
  }

  /** Item `k` is the first of `items` the validator rejects, with error `e`. */
  predicate FirstRejected(items: seq<JVal>, index: nat, k: int, e: ManifestValidationError) {
    && 0 <= k < |items|
    && (forall i :: 0 <= i < k ==> AcceptableComponent(items[i]))
    && ValidateComponentDef(index + k, items[k]) == Failure(e)
  }

  /** On success the i-th definition is what validating the i-th item
      (at position `index + i`) gives. */
  lemma {:induction false} ComponentsPointwise(items: seq<JVal>, index: nat)
    ensures var r := ValidateComponents(items, index);
            r.Success? ==> forall i :: 0 <= i < |items| ==> ValidateComponentDef(index + i, items[i]) == Success(r.value[i])
    decreases |items|
  {
    var r := ValidateComponents(items, index);
    if |items| > 0 && r.Success? {
      ComponentsPointwise(items[1..], index + 1);
      var c := ValidateComponentDef(index, items[0]);
      var rest := ValidateComponents(items[1..], index + 1);
      assert r.value == [c.value] + rest.value;
      forall i | 0 < i < |items| ensures ValidateComponentDef(index + i, items[i]) == Success(r.value[i]) {
        assert items[i] == items[1..][i - 1];
        assert ValidateComponentDef(index + 1 + (i - 1), items[1..][i - 1]) == Success(rest.value[i - 1]);
      }
    }
  }

  /** A failure is the error of the first rejected item. */
  lemma {:induction false} ComponentsFirstFailure(items: seq<JVal>, index: nat)
    ensures var r := ValidateComponents(items, index);
            r.Failure? ==> exists k :: FirstRejected(items, index, k, r.error)
    decreases |items|
  {
    var r := ValidateComponents(items, index);
    if |items| > 0 && r.Failure? {
      var c := ValidateComponentDef(index, items[0]);
      if c.Failure? {
        assert FirstRejected(items, index, 0, r.error);
      } else {
        ComponentsFirstFailure(items[1..], index + 1);
        var k :| FirstRejected(items[1..], index + 1, k, r.error);
        assert forall i :: 0 < i < |items| ==> items[i] == items[1..][i - 1];
        assert FirstRejected(items, index, k + 1, r.error);
      }
    }
  }

  /** `validateManifest`: the payload must be an object whose `version` is
      exactly the current schema version and whose `components` is an
      array of valid components. */
  function ValidateManifest(payload: JVal): (r: Validated<Manifest>)
    ensures r.Success? <==> AcceptableManifest(payload)
    ensures !IsObjectLike(payload) ==> r.Failure?
    ensures Field(payload, "version") != Some(JStr(MANIFEST_VERSION)) ==> r.Failure?
    ensures !(Field(payload, "components").Some? && Field(payload, "components").value.JArr?) ==> r.Failure?
    ensures r.Success? ==> WellFormed(r.value)
    ensures r.Success? ==> |r.value.components| == |Field(payload, "components").value.items|
    ensures r.Success? ==> forall i :: 0 <= i < |r.value.components| ==>
              ValidateComponentDef(i, Field(payload, "components").value.items[i]) == Success(r.value.components[i])
  {
    if !IsObjectLike(payload) then Fail("Manifest payload must be an object.")
    else
      var version := Field(payload, "version");
      if version != Some(JStr(MANIFEST_VERSION)) then
        Fail("Unsupported manifest version " + Quoted(ShowOpt(version)) + ". Expected version "
             + Quoted(MANIFEST_VERSION) + ".")
      else
        var components := Field(payload, "components");
        if !(components.Some? && components.value.JArr?) then
          Fail("Manifest \"components\" must be an array.")
        else
          var cs :- ValidateComponents(components.value.items, 0);
          ComponentsPointwise(components.value.items, 0);
          Success(Manifest(MANIFEST_VERSION, cs))
  }
}
