/** The JavaScript scanner prototype: file discovery that skips
    `node_modules`, a prop-type classifier that strips `null`/`undefined`
    first, default-export resolution, and a scan that tolerates files whose
    analysis throws. */
module ScannerJs {
  import opened Wrappers
  import opened Text
  import opened Paths
  import opened TsModel
  import opened ManifestSchema
  import Records

  // ---------------------------------------------------------------------
  // File discovery (`findComponentFiles`).

  /** The files below `dir` whose listing is `listing`, depth first in
      listing order. An unreadable directory contributes nothing. */
  function FindComponentFiles(dir: Path, listing: Listing): (fs: seq<Path>)
    ensures listing.Unreadable? ==> fs == []
    ensures listing.Readable? ==>
              forall p :: p in fs <==> Below(dir, p) && Discoverable(listing.entries, p[|dir|..])
  {
    match listing
    case Unreadable => []
    case Readable(entries) =>
      FindInAll(dir, entries);
      FindIn(dir, entries)
  }

  lemma FindInAll(dir: Path, entries: seq<Entry>)
    ensures forall p :: p in FindIn(dir, entries) <==> Below(dir, p) && Discoverable(entries, p[|dir|..])
  {
    forall p ensures p in FindIn(dir, entries) <==> Below(dir, p) && Discoverable(entries, p[|dir|..]) {
      FindInExactly(dir, entries, p);
    }
  }

  function FindIn(dir: Path, entries: seq<Entry>): seq<Path>
    decreases entries
  {
    if |entries| == 0 then [] else EntryFiles(dir, entries[0]) + FindIn(dir, entries[1..])
  }

  /** What one entry of `dir` contributes. */
  function EntryFiles(dir: Path, e: Entry): seq<Path>
    decreases e
  {
    match e
    case File(n) => if IsSourceName(n) then [dir + [n]] else []
    case Directory(n, listing) =>
      if n == "node_modules" || listing.Unreadable? then [] else FindIn(dir + [n], listing.entries)
    case Special(_) => []
  }

  /** The independent description: `rel` names a source file reached from
      `entries` through readable directories none of which is called
      `node_modules`. */
  ghost predicate Discoverable(entries: seq<Entry>, rel: seq<string>)
    decreases |rel|, 1
  {
    exists i :: 0 <= i < |entries| && Reaches(entries[i], rel)
  }

  /** `rel` is reached through the entry `e`. */
  ghost predicate Reaches(e: Entry, rel: seq<string>)
    decreases |rel|, 0
  {
    if |rel| == 1 then e == File(rel[0]) && IsSourceName(rel[0])
    else |rel| > 1 && rel[0] != "node_modules" && e.Directory? && e.name == rel[0]
         && e.listing.Readable? && Discoverable(e.listing.entries, rel[1..])
  }

  predicate Below(dir: Path, p: Path) {
    |dir| < |p| && p[..|dir|] == dir
  }

  lemma {:induction false} EntryFilesExactly(dir: Path, e: Entry, p: Path)
    ensures p in EntryFiles(dir, e) <==> Below(dir, p) && Reaches(e, p[|dir|..])
    decreases e
  {
    var rel := if |dir| <= |p| then p[|dir|..] else [];
    match e
    case File(n) =>
      if Below(dir, p) {
        assert p == dir + [n] <==> rel == [n];
      }
    case Special(_) =>
    case Directory(n, listing) =>
      if n != "node_modules" && listing.Readable? {
        var sub := dir + [n];
        FindInExactly(sub, listing.entries, p);
        if Below(dir, p) {
          assert Below(sub, p) <==> |rel| > 1 && rel[0] == n;
          if |rel| > 1 { assert p[|sub|..] == rel[1..]; }
        } else {
          assert !Below(sub, p);
        }
      }
  }

  /** Discovery finds exactly the discoverable files. */
  lemma {:induction false} FindInExactly(dir: Path, entries: seq<Entry>, p: Path)
    ensures p in FindIn(dir, entries) <==> Below(dir, p) && Discoverable(entries, p[|dir|..])
    decreases entries
  {
    var rel := if |dir| <= |p| then p[|dir|..] else [];
    if |entries| > 0 {
      EntryFilesExactly(dir, entries[0], p);
      FindInExactly(dir, entries[1..], p);
      if Discoverable(entries, rel) {
        var i :| 0 <= i < |entries| && Reaches(entries[i], rel);
        if i > 0 { assert entries[1..][i - 1] == entries[i]; }
      }
      if Discoverable(entries[1..], rel) {
        var i :| 0 <= i < |entries[1..]| && Reaches(entries[1..][i], rel);
        assert entries[i + 1] == entries[1..][i];
      }
      if Reaches(entries[0], rel) {
        assert Discoverable(entries, rel);
      }
    }
  }

  /** Discovery keeps listing order: the files of a listing are those of
      its first part followed by those of the rest. */
  lemma {:induction false} FindInConcat(dir: Path, a: seq<Entry>, b: seq<Entry>)
    ensures FindIn(dir, a + b) == FindIn(dir, a) + FindIn(dir, b)
    decreases |a|
  {
    if |a| > 0 {
      assert (a + b)[1..] == a[1..] + b;
      FindInConcat(dir, a[1..], b);
    } else {
      assert a + b == b;
    }
  }

  // ---------------------------------------------------------------------
  // Prop-type classification (`parsePropType`).

  predicate IsNullish(t: TsType) {
    t.NullType? || t.UndefinedType?
  }

  function WithoutNullish(arms: seq<TsType>): (r: seq<TsType>)
    ensures forall i :: 0 <= i < |r| ==> !IsNullish(r[i])
    ensures |r| <= |arms|
    ensures (forall i :: 0 <= i < |arms| ==> !IsNullish(arms[i])) ==> r == arms
  {
    if |arms| == 0 then []
    else if IsNullish(arms[0]) then WithoutNullish(arms[1..])
    else [arms[0]] + WithoutNullish(arms[1..])
  }

  /** Filtering two lists of arms is filtering each, in order. */
  lemma {:induction false} WithoutNullishConcat(a: seq<TsType>, b: seq<TsType>)
    ensures WithoutNullish(a + b) == WithoutNullish(a) + WithoutNullish(b)
    decreases |a|
  {
    if |a| == 0 {
      assert a + b == b;
    } else {
      assert (a + b)[0] == a[0];
      assert (a + b)[1..] == a[1..] + b;
      WithoutNullishConcat(a[1..], b);
    }
  }

  /** One arm is kept exactly when it is neither null nor undefined. */
  lemma WithoutNullishOne(t: TsType)
    ensures WithoutNullish([t]) == if IsNullish(t) then [] else [t]
  {
    assert [t][1..] == [];
  }

  /** `type.getNonNullableType()`: `null` and `undefined` removed; a union
      left with one arm is that arm, and nothing left is `never` (here
      `OtherType`). */
  function NonNullable(t: TsType): (r: TsType)
    ensures !IsNullish(r)
    ensures IsNullish(t) ==> r == OtherType
    ensures !t.UnionType? && !IsNullish(t) ==> r == t
    ensures t.UnionType? && |WithoutNullish(t.arms)| == 0 ==> r == OtherType
    ensures t.UnionType? && |WithoutNullish(t.arms)| == 1 ==> r == WithoutNullish(t.arms)[0]
    ensures t.UnionType? && |WithoutNullish(t.arms)| >= 2 ==> r == UnionType(WithoutNullish(t.arms))
    ensures t.UnionType? && r == UnionType(WithoutNullish(t.arms)) ==> |r.arms| >= 2
  {
    match t
    case NullType => OtherType
    case UndefinedType => OtherType
    case UnionType(arms) =>
      var rest := WithoutNullish(arms);
      if |rest| == 0 then OtherType
      else if |rest| == 1 then rest[0]
      else UnionType(rest)
    case _ => t
  }

  predicate AllStringLiterals(arms: seq<TsType>) {
    forall i :: 0 <= i < |arms| ==> arms[i].StringLiteral?
  }

  function LiteralValues(arms: seq<TsType>): (vs: seq<string>)
    requires AllStringLiterals(arms)
    ensures |vs| == |arms|
    ensures forall i :: 0 <= i < |arms| ==> vs[i] == arms[i].value
  {
    seq(|arms|, i requires 0 <= i < |arms| => arms[i].value)
  }

  /** `parsePropType`: string, number and boolean are tested in that order
      on the type with nullability stripped; a remaining union qualifies
      only when it has arms and every arm is a string literal. */
  function ParsePropType(t: TsType): (r: Option<ScannedPropDef>)
    ensures r == Some(ScannedString) <==> NonNullable(t) == StringType
    ensures r == Some(ScannedNumber) <==> NonNullable(t) == NumberType
    ensures r == Some(ScannedBoolean) <==> NonNullable(t) == BooleanType
    ensures r.Some? && r.value.ScannedUnion? <==>
              NonNullable(t).UnionType? && |NonNullable(t).arms| > 0 && AllStringLiterals(NonNullable(t).arms)
    ensures r.Some? && r.value.ScannedUnion? ==>
              |r.value.options| >= 1 && r.value.options == LiteralValues(NonNullable(t).arms)
  {
    var base := NonNullable(t);
    match base
    case StringType => Some(ScannedString)
    case NumberType => Some(ScannedNumber)
    case BooleanType => Some(ScannedBoolean)
    case UnionType(arms) =>
      if AllStringLiterals(arms) && |arms| > 0 then Some(ScannedUnion(LiteralValues(arms))) else None
    case _ => None
  }

  /** An optional prop (`T | undefined`, `T | null`) classifies as `T`. */
  lemma OptionalClassifiesAsBase(t: TsType, nullish: seq<TsType>)
    requires t == StringType || t == NumberType || t == BooleanType
    requires forall i :: 0 <= i < |nullish| ==> IsNullish(nullish[i])
    ensures ParsePropType(UnionType([t] + nullish)) == ParsePropType(t)
  {
    assert WithoutNullish([t] + nullish) == [t] + WithoutNullish(nullish);
    assert WithoutNullish(nullish) == [] by {
      if |WithoutNullish(nullish)| > 0 { NoSurvivors(nullish); }
    }
  }

  lemma {:induction false} NoSurvivors(arms: seq<TsType>)
    requires forall i :: 0 <= i < |arms| ==> IsNullish(arms[i])
    ensures WithoutNullish(arms) == []
    decreases |arms|
  {
    if |arms| > 0 { NoSurvivors(arms[1..]); }
  }

  // ---------------------------------------------------------------------
  // Props of a component (`getPropsOfComponent`).

  /** A prop-type classifier: `parsePropType` here, `typeToPropDef` in
      the TypeScript scanner. */
  type Classifier = TsType -> Option<ScannedPropDef>

  /** The classifiable properties in declaration order, each once. */
  function Classified(classify: Classifier, props: seq<Property>): (r: Records.Record<ScannedPropDef>)
    ensures |r| <= |props|
  {
    if |props| == 0 then []
    else
      var d := classify(props[0].ty);
      (if d.Some? then [(props[0].name, d.value)] else []) + Classified(classify, props[1..])
  }

  /** The loop assigning `props[propName] = propDef` for each classifiable
      property, in order. */
  function CollectProps(classify: Classifier, props: seq<Property>, acc: Records.Record<ScannedPropDef>): Records.Record<ScannedPropDef>
    decreases |props|
  {
    if |props| == 0 then acc
    else
      var d := classify(props[0].ty);
      CollectProps(classify, props[1..], if d.Some? then Records.Put(acc, props[0].name, d.value) else acc)
  }

  predicate DistinctNames(props: seq<Property>) {
    forall i, j :: 0 <= i < j < |props| ==> props[i].name != props[j].name
  }

  predicate AnyClassifiable(classify: Classifier, props: seq<Property>) {
    exists i :: 0 <= i < |props| && classify(props[i].ty).Some?
  }

  lemma {:induction false} ClassifiedEmpty(classify: Classifier, props: seq<Property>)
    ensures |Classified(classify, props)| == 0 <==> !AnyClassifiable(classify, props)
    decreases |props|
  {
    if |props| > 0 {
      ClassifiedEmpty(classify, props[1..]);
      if AnyClassifiable(classify, props[1..]) {
        var i :| 0 <= i < |props[1..]| && classify(props[1..][i].ty).Some?;
        assert props[i + 1] == props[1..][i];
      }
      if AnyClassifiable(classify, props) {
        var i :| 0 <= i < |props| && classify(props[i].ty).Some?;
        if i > 0 { assert props[1..][i - 1] == props[i]; }
      }
    }
  }

  lemma DistinctTail(props: seq<Property>)
    requires |props| > 0 && DistinctNames(props)
    ensures DistinctNames(props[1..])
  {
    forall i, j | 0 <= i < j < |props[1..]| ensures props[1..][i].name != props[1..][j].name {
      assert props[1..][i] == props[i + 1] && props[1..][j] == props[j + 1];
    }
  }

  /** No collected key is the name of a property still to come. */
  predicate Unseen(acc: Records.Record<ScannedPropDef>, props: seq<Property>) {
    forall j :: 0 <= j < |props| ==> !Records.HasKey(acc, props[j].name)
  }

  /** Names already collected never reappear among the remaining
      properties, after the first property is collected too. */
  lemma FreshAfterFirst(props: seq<Property>, acc: Records.Record<ScannedPropDef>, added: Records.Record<ScannedPropDef>)
    requires |props| > 0 && DistinctNames(props) && Unseen(acc, props)
    requires forall i :: 0 <= i < |added| ==> added[i].0 == props[0].name
    ensures Unseen(acc + added, props[1..])
  {
    forall j | 0 <= j < |props[1..]| ensures !Records.HasKey(acc + added, props[1..][j].name) {
      var n := props[1..][j].name;
      assert n == props[j + 1].name && !Records.HasKey(acc, n);
      forall i | 0 <= i < |acc + added| ensures (acc + added)[i].0 != n {
        if i < |acc| { assert (acc + added)[i] == acc[i]; }
        else { assert (acc + added)[i] == added[i - |acc|]; }
      }
    }
  }

  /** One step of the loop: a classifiable property whose name is new is
      appended. */
  lemma CollectStep(classify: Classifier, props: seq<Property>, acc: Records.Record<ScannedPropDef>,
                    added: Records.Record<ScannedPropDef>)
    requires |props| > 0 && !Records.HasKey(acc, props[0].name)
    requires added == if classify(props[0].ty).Some? then [(props[0].name, classify(props[0].ty).value)] else []
    ensures CollectProps(classify, props, acc) == CollectProps(classify, props[1..], acc + added)
    ensures Classified(classify, props) == added + Classified(classify, props[1..])
  {
    if added == [] { assert acc + added == acc; }
  }

  /** With distinct property names (as a checked object type has), the
      assignment loop yields exactly the classifiable properties in
      declaration order. */
  lemma {:induction false} CollectIsClassified(classify: Classifier, props: seq<Property>, acc: Records.Record<ScannedPropDef>)
    requires DistinctNames(props) && Unseen(acc, props)
    ensures CollectProps(classify, props, acc) == acc + Classified(classify, props)
    decreases |props|
  {
    if |props| == 0 {
      assert acc + [] == acc;
    } else {
      var p := props[0];
      var d := classify(p.ty);
      var added: Records.Record<ScannedPropDef> := if d.Some? then [(p.name, d.value)] else [];
      var acc' := acc + added;
      assert CollectProps(classify, props, acc) == CollectProps(classify, props[1..], acc')
             && Classified(classify, props) == added + Classified(classify, props[1..]) by {
        CollectStep(classify, props, acc, added);
      }
      assert CollectProps(classify, props[1..], acc') == acc' + Classified(classify, props[1..]) by {
        FreshAfterFirst(props, acc, added);
        DistinctTail(props);
        CollectIsClassified(classify, props[1..], acc');
      }
      assert acc' + Classified(classify, props[1..]) == acc + Classified(classify, props);
    }
  }

  /** `getPropsOfComponent`: exactly one parameter with an explicit type
      annotation, and at least one classifiable property. */
  function GetPropsOfComponent(fn: FunctionShape): (r: Option<Records.Record<ScannedPropDef>>)
    ensures r.Some? <==> |fn.params| == 1 && fn.params[0].annotation.Some?
                         && AnyClassifiable(ParsePropType, fn.params[0].annotation.value.properties)
    ensures r.Some? ==> |r.value| > 0
    ensures r.Some? && DistinctNames(fn.params[0].annotation.value.properties) ==>
              r.value == Classified(ParsePropType, fn.params[0].annotation.value.properties)
  {
    if |fn.params| != 1 then None
    else if fn.params[0].annotation.None? then None
    else
      var properties := fn.params[0].annotation.value.properties;
      var props := CollectProps(ParsePropType, properties, []);
      CollectNonEmpty(ParsePropType, properties, []);
      CollectFromEmpty(ParsePropType, properties);
      if |props| > 0 then Some(props) else None
  }

  lemma CollectFromEmpty(classify: Classifier, props: seq<Property>)
    ensures DistinctNames(props) ==> CollectProps(classify, props, []) == Classified(classify, props)
  {
    if DistinctNames(props) {
      CollectIsClassified(classify, props, []);
      assert [] + Classified(classify, props) == Classified(classify, props);
    }
  }

  lemma {:induction false} CollectNonEmpty(classify: Classifier, props: seq<Property>, acc: Records.Record<ScannedPropDef>)
    ensures |CollectProps(classify, props, acc)| >= |acc|
    ensures |CollectProps(classify, props, acc)| > 0 <==> |acc| > 0 || AnyClassifiable(classify, props)
    decreases |props|
  {
    if |props| > 0 {
      var d := classify(props[0].ty);
      var acc' := if d.Some? then Records.Put(acc, props[0].name, d.value) else acc;
      CollectNonEmpty(classify, props[1..], acc');
      if AnyClassifiable(classify, props[1..]) {
        var i :| 0 <= i < |props[1..]| && classify(props[1..][i].ty).Some?;
        assert props[i + 1] == props[1..][i];
      }
      if AnyClassifiable(classify, props) && d.None? {
        var i :| 0 <= i < |props| && classify(props[i].ty).Some?;
        assert props[1..][i - 1] == props[i];
      }
    }
  }

  // ---------------------------------------------------------------------
  // Default-export resolution (the `visit` walk of `getComponentDef`).

  /** The candidate found so far and the name it was declared with. */
  datatype Found = Found(fn: Option<FunctionShape>, name: Option<string>)

  const Nothing := Found(None, None)

  /** A node that is itself an export: `export default <expression>`, or a
      function/variable statement carrying both `export` and `default`. */
  predicate IsExportNode(n: Node) {
    match n
    case ExportAssignment(_) => true
    case FunctionDeclaration(isExport, isDefault, _, _, _) => isExport && isDefault
    case VariableStatement(isExport, isDefault, _, _) => isExport && isDefault
    case OtherNode(_) => false
  }

  /** What an export node resolves to, if it names a function. */
  function Resolved(n: Node): Option<Found>
    requires IsExportNode(n)
  {
    match n
    case ExportAssignment(Identifier(Some(DeclaredFunction(name, fn)))) => Some(Found(Some(fn), name))
    case ExportAssignment(_) => None
    case FunctionDeclaration(_, _, name, fn, _) => Some(Found(Some(fn), name))
    case VariableStatement(_, _, decls, _) =>
      if |decls| > 0 && decls[0].initializer.Some? && decls[0].initializer.value.ArrowFunction? then
        Some(Found(Some(decls[0].initializer.value.fn), Some(decls[0].name)))
      else None
  }

  function Children(n: Node): seq<Node> {
    match n
    case ExportAssignment(_) => []
    case FunctionDeclaration(_, _, _, _, body) => body
    case VariableStatement(_, _, _, children) => children
    case OtherNode(children) => children
  }

  /** Visits nodes depth first. An export node is not descended into; one
      that resolves to a function replaces whatever was found before. */
  function Visit(nodes: seq<Node>, found: Found): Found
    decreases nodes
  {
    if |nodes| == 0 then found else Visit(nodes[1..], VisitNode(nodes[0], found))
  }

  function VisitNode(n: Node, found: Found): Found
    decreases n
  {
    if IsExportNode(n) then (if Resolved(n).Some? then Resolved(n).value else found)
    else Visit(Children(n), found)
  }

  lemma {:induction false} VisitConcat(a: seq<Node>, b: seq<Node>, found: Found)
    ensures Visit(a + b, found) == Visit(b, Visit(a, found))
    decreases |a|
  {
    if |a| == 0 {
      assert a + b == b;
    } else {
      assert (a + b)[1..] == a[1..] + b;
      VisitConcat(a[1..], b, VisitNode(a[0], found));
    }
  }

  /** A later resolvable default export overwrites an earlier one. */
  lemma LaterExportWins(before: seq<Node>, n: Node, found: Found)
    requires IsExportNode(n) && Resolved(n).Some?
    ensures Visit(before + [n], found) == Resolved(n).value
  {
    VisitConcat(before, [n], found);
  }

  /** No export anywhere in the tree. */
  predicate NoExports(nodes: seq<Node>)
    decreases nodes
  {
    forall i :: 0 <= i < |nodes| ==> !IsExportNode(nodes[i]) && NoExports(Children(nodes[i]))
  }

  /** Only default exports are considered: without one nothing is found. */
  lemma {:induction false} OnlyExportsCount(nodes: seq<Node>, found: Found)
    requires NoExports(nodes)
    ensures Visit(nodes, found) == found
    decreases nodes
  {
    if |nodes| > 0 {
      assert !IsExportNode(nodes[0]) && NoExports(Children(nodes[0]));
      OnlyExportsCount(Children(nodes[0]), found);
      assert NoExports(nodes[1..]) by {
        forall i | 0 <= i < |nodes[1..]| ensures !IsExportNode(nodes[1..][i]) && NoExports(Children(nodes[1..][i])) {
          assert nodes[1..][i] == nodes[i + 1];
        }
      }
      OnlyExportsCount(nodes[1..], found);
    }
  }

  // ---------------------------------------------------------------------
  // One file (`getComponentDef`) and the whole scan (`scan`).

  /** What the compiler program gives for a file: no source file, an
      analysis that throws, or the file's top-level nodes. */
  datatype FileAnalysis = NoSourceFile | Throws | Parsed(nodes: seq<Node>)

  /** `componentName || path.basename(filePath, path.extname(filePath))`. */
  function ComponentName(declared: Option<string>, file: Path): string {
    if declared.Some? && declared.value != "" then declared.value else StripExtension(BaseName(file))
  }

  /** `getComponentDef` for a file that was parsed. */
  function GetComponentDef(file: Path, nodes: seq<Node>, projectRoot: Path, sep: char): (r: Option<ScannedComponent>)
    ensures r.Some? <==> Visit(nodes, Nothing).fn.Some? && GetPropsOfComponent(Visit(nodes, Nothing).fn.value).Some?
    ensures r.Some? ==> |r.value.props| > 0
    ensures r.Some? ==> r.value.props == GetPropsOfComponent(Visit(nodes, Nothing).fn.value).value
    ensures r.Some? ==> r.value.name == ComponentName(Visit(nodes, Nothing).name, file)
    ensures r.Some? ==> '\\' !in r.value.path
    ensures r.Some? && projectRoot <= file ==>
              r.value.path == ReplaceChar(Join(file[|projectRoot|..], [sep]), '\\', '/')
  {
    var found := Visit(nodes, Nothing);
    if found.fn.None? then None
    else
      var props := GetPropsOfComponent(found.fn.value);
      if props.None? then None
      else
        SlashPathHasNoBackslash(projectRoot, file, sep);
        SlashPathBelow(projectRoot, file, sep);
        Some(ScannedComponent(ComponentName(found.name, file), SlashPath(projectRoot, file, sep), props.value))
  }

  /** The outcome of one file inside the scan loop: a throwing analysis is
      caught and contributes nothing. */
  function FileOutcome(file: Path, analysis: FileAnalysis, projectRoot: Path, sep: char): (r: Option<ScannedComponent>)
    ensures !analysis.Parsed? ==> r.None?
    ensures r.Some? ==> |r.value.props| > 0 && '\\' !in r.value.path
  {
    match analysis
    case NoSourceFile => None
    case Throws => None
    case Parsed(nodes) => GetComponentDef(file, nodes, projectRoot, sep)
  }

  /** The loop of `scan`: the files' components in file order. */
  function ScanFiles(files: seq<Path>, program: Path -> FileAnalysis, projectRoot: Path, sep: char)
    : (cs: seq<ScannedComponent>)
    ensures |cs| <= |files|
    ensures forall i :: 0 <= i < |cs| ==> |cs[i].props| > 0 && '\\' !in cs[i].path
    ensures forall i :: 0 <= i < |files| && FileOutcome(files[i], program(files[i]), projectRoot, sep).Some? ==>
              FileOutcome(files[i], program(files[i]), projectRoot, sep).value in cs
    decreases |files|
  {
    if |files| == 0 then []
    else
      var head := FileOutcome(files[0], program(files[0]), projectRoot, sep);
      var rest := ScanFiles(files[1..], program, projectRoot, sep);
      assert forall i :: 0 < i < |files| ==> files[i] == files[1..][i - 1];
      (if head.Some? then [head.value] else []) + rest
  }

  /** Every component comes from the outcome of one of the files. */
  lemma {:induction false} ScanFilesFromFiles(files: seq<Path>, program: Path -> FileAnalysis, projectRoot: Path, sep: char, c: ScannedComponent)
    requires c in ScanFiles(files, program, projectRoot, sep)
    ensures exists i :: 0 <= i < |files| && FileOutcome(files[i], program(files[i]), projectRoot, sep) == Some(c)
    decreases |files|
  {
    var head := FileOutcome(files[0], program(files[0]), projectRoot, sep);
    if head != Some(c) {
      ScanFilesFromFiles(files[1..], program, projectRoot, sep, c);
      var i :| 0 <= i < |files[1..]| && FileOutcome(files[1..][i], program(files[1..][i]), projectRoot, sep) == Some(c);
      assert files[1..][i] == files[i + 1];
    }
  }

  lemma {:induction false} ScanFilesConcat(a: seq<Path>, b: seq<Path>, program: Path -> FileAnalysis, projectRoot: Path, sep: char)
    ensures ScanFiles(a + b, program, projectRoot, sep) == ScanFiles(a, program, projectRoot, sep) + ScanFiles(b, program, projectRoot, sep)
    decreases |a|
  {
    if |a| == 0 {
      assert a + b == b;
    } else {
      assert (a + b)[1..] == a[1..] + b;
      ScanFilesConcat(a[1..], b, program, projectRoot, sep);
    }
  }

  /** A file whose analysis throws is skipped and the files around it are
      scanned as if it were not there. */
  lemma ThrowingFileSkipped(a: seq<Path>, f: Path, b: seq<Path>, program: Path -> FileAnalysis, projectRoot: Path, sep: char)
    requires program(f) == Throws
    ensures ScanFiles(a + [f] + b, program, projectRoot, sep) == ScanFiles(a + b, program, projectRoot, sep)
  {
    ScanFilesConcat(a + [f], b, program, projectRoot, sep);
    ScanFilesConcat(a, [f], program, projectRoot, sep);
    ScanFilesConcat(a, b, program, projectRoot, sep);
  }

  /** `createScanner({srcDir, projectRoot}).scan()`: discovery under the
      source directory, one compiler program over the discovered files,
      then one component at most per file. */
  function Scan(srcDir: Path, listing: Listing, projectRoot: Path, sep: char,
                compile: seq<Path> -> (Path -> FileAnalysis)): (r: ScanResult)
    ensures r.components == ScanFiles(FindComponentFiles(srcDir, listing), compile(FindComponentFiles(srcDir, listing)), projectRoot, sep)
    ensures |r.components| <= |FindComponentFiles(srcDir, listing)|
    ensures forall i :: 0 <= i < |r.components| ==>
              |r.components[i].props| > 0 && '\\' !in r.components[i].path
  {
    var files := FindComponentFiles(srcDir, listing);
    ScanResult(ScanFiles(files, compile(files), projectRoot, sep))
  }
}
