/** The manifest crosses a serialisation boundary: what the validator
    returns, written out as JSON and validated again, comes back unchanged,
    and so does every well-formed manifest. */
module ManifestRoundTrip {
  import opened Wrappers
  import opened Json
  import opened ManifestSchema
  import opened ManifestValidator
  import Records

  /** The fields of a union or enum definition's JSON form. */
  lemma OptionFields(d: BaseDef)
    requires d.IsOption()
    ensures Field(BaseDefToJson(d), "type") == Some(JStr(Tag(d)))
    ensures Field(BaseDefToJson(d), "options") == Some(JArr(StringsToJson(d.options)))
    ensures Field(BaseDefToJson(d), "name") == if d.EnumDef? && d.name.Some? then Some(JStr(d.name.value)) else None
  {
    var j := BaseDefToJson(d);
    Records.GetAt(j.entries, 0, "type");
    Records.GetAt(j.entries, 1, "options");
    if d.EnumDef? && d.name.Some? {
      Records.GetAt(j.entries, 2, "name");
    } else {
      assert !Records.HasKey(j.entries, "name");
    }
  }

  lemma OptionRoundTrip(componentName: string, propName: string, d: BaseDef)
    requires d.IsOption()
    ensures ValidateBasePropDef(componentName, propName, BaseDefToJson(d)) == Success(d)
  {
    OptionFields(d);
    assert StringsOf(StringsToJson(d.options)) == d.options;
  }

  lemma PrimitiveRoundTrip(componentName: string, propName: string, d: BaseDef)
    requires !d.IsOption()
    ensures ValidateBasePropDef(componentName, propName, BaseDefToJson(d)) == Success(d)
  {
    Records.GetAt(BaseDefToJson(d).entries, 0, "type");
    assert "number"[0] != "string"[0];
  }

  lemma BaseRoundTrip(componentName: string, propName: string, d: BaseDef)
    ensures ValidateBasePropDef(componentName, propName, BaseDefToJson(d)) == Success(d)
  {
    if d.IsOption() {
      OptionRoundTrip(componentName, propName, d);
    } else {
      PrimitiveRoundTrip(componentName, propName, d);
    }
  }

  lemma PropRoundTrip(componentName: string, propName: string, p: PropDef)
    ensures ValidatePropDef(componentName, propName, PropDefToJson(p)) == Success(p)
  {
    match p
    case Base(d) =>
      BaseRoundTrip(componentName, propName, d);
    case ArrayOf(e) =>
      var j := PropDefToJson(p);
      Records.GetAt(j.entries, 0, "type");
      Records.GetAt(j.entries, 1, "element");
      BaseRoundTrip(componentName, propName + "[]", e);
  }

  lemma {:induction false} PropsRoundTrip(componentName: string, rest: Records.Record<PropDef>, acc: Records.Record<PropDef>)
    requires Records.DistinctKeys(acc + rest)
    ensures Records.DistinctKeys(acc)
    ensures ValidateProps(componentName, PropsToJson(rest), acc) == Success(acc + rest)
    decreases |rest|
  {
    assert Records.DistinctKeys(acc) by {
      forall i, j | 0 <= i < j < |acc| ensures acc[i].0 != acc[j].0 {
        assert (acc + rest)[i] == acc[i] && (acc + rest)[j] == acc[j];
      }
    }
    if |rest| == 0 {
      assert acc + rest == acc;
    } else {
      var entries := PropsToJson(rest);
      var k := rest[0].0;
      PropRoundTrip(componentName, k, rest[0].1);
      assert !Records.HasKey(acc, k) by {
        forall i | 0 <= i < |acc| ensures acc[i].0 != k {
          assert (acc + rest)[i] == acc[i] && (acc + rest)[|acc|] == rest[0];
        }
      }
      var acc' := Records.Put(acc, k, rest[0].1);
      assert acc' == acc + [rest[0]];
      assert acc' + rest[1..] == acc + rest;
      assert entries[1..] == PropsToJson(rest[1..]);
      PropsRoundTrip(componentName, rest[1..], acc');
    }
  }

  /** The fields of a component's JSON form. */
  lemma ComponentFields(c: ComponentDef)
    ensures Field(ComponentToJson(c), "name") == Some(JStr(c.name))
    ensures Field(ComponentToJson(c), "path") == Some(JStr(c.path))
    ensures Field(ComponentToJson(c), "isDefaultExport") == Some(JBool(c.isDefaultExport))
    ensures Field(ComponentToJson(c), "props") == Some(JObj(PropsToJson(c.props)))
  {
    var j := ComponentToJson(c);
    Records.GetAt(j.entries, 0, "name");
    Records.GetAt(j.entries, 1, "path");
    Records.GetAt(j.entries, 2, "isDefaultExport");
    Records.GetAt(j.entries, 3, "props");
  }

  lemma ComponentRoundTrip(index: nat, c: ComponentDef)
    requires WellFormedComponent(c)
    ensures ValidateComponentDef(index, ComponentToJson(c)) == Success(c)
  {
    var j := ComponentToJson(c);
    ComponentFields(c);
    assert PropsRecord(j) == JObj(PropsToJson(c.props));
    assert [] + c.props == c.props;
    PropsRoundTrip(c.name, c.props, []);
    assert ValidateProps(c.name, PropsRecord(j).entries, []) == Success(c.props);
  }

  lemma ComponentsRoundTrip(cs: seq<ComponentDef>, index: nat)
    requires forall i :: 0 <= i < |cs| ==> WellFormedComponent(cs[i])
    ensures ValidateComponents(ComponentsToJson(cs), index) == Success(cs)
  {
    var items := ComponentsToJson(cs);
    forall i | 0 <= i < |cs| ensures ValidateComponentDef(index + i, items[i]) == Success(cs[i]) {
      ComponentRoundTrip(index + i, cs[i]);
    }
    var r := ValidateComponents(items, index);
    assert r.Success?;
    ComponentsPointwise(items, index);
    assert r.value == cs;
  }

  /** Validating the JSON form of a well-formed manifest gives it back. */
  lemma ManifestRoundTrip(m: Manifest)
    requires WellFormed(m)
    ensures ValidateManifest(ToJson(m)) == Success(m)
  {
    var j := ToJson(m);
    Records.GetAt(j.entries, 0, "version");
    Records.GetAt(j.entries, 1, "components");
    ComponentsRoundTrip(m.components, 0);
  }

  /** Re-validating an already normalised manifest returns an equal one. */
  lemma ValidateIdempotent(payload: JVal)
    requires ValidateManifest(payload).Success?
    ensures ValidateManifest(ToJson(ValidateManifest(payload).value)) == ValidateManifest(payload)
  {
    ManifestRoundTrip(ValidateManifest(payload).value);
  }

  /** The prototype scanners emit neither a version nor a default-export
      flag, so their output never passes the runtime's check. */
  lemma PrototypeOutputRejected(r: ScanResult)
    ensures ValidateManifest(ScanResultToJson(r)).Failure?
  {
    var j := ScanResultToJson(r);
    assert !Records.HasKey(j.entries, "version") by {
      forall i | 0 <= i < |j.entries| ensures j.entries[i].0 != "version" {
        assert i == 0;
      }
    }
  }
}
