/** The TypeScript scanner: a walk that keeps every `.ts`/`.tsx` name and
    throws on a directory it cannot read, a classifier that takes checked
    types as they are, and a scan over the compiler program's source files
    that keeps those whose file name starts with the source directory. */
module ScannerTs {
  import opened Wrappers
  import opened Text
  import opened Paths
  import opened TsModel
  import opened ManifestSchema
  import ScannerJs

  /** Why a scan throws: a directory that could not be read. */
  datatype ScanError = CannotRead(dir: Path)

  // ---------------------------------------------------------------------
  // File discovery (`walk`).

  /** `walk(dir)`: directories are descended into (`node_modules`
      included); every other entry whose name ends in `.ts` or `.tsx` is
      kept. */
  function Walk(dir: Path, listing: Listing): Result<seq<Path>, ScanError>
  {
    match listing
    case Unreadable => Failure(CannotRead(dir))
    case Readable(entries) => WalkEntries(dir, entries)
  }

  function WalkEntries(dir: Path, entries: seq<Entry>): Result<seq<Path>, ScanError>
    decreases entries
  {
    if |entries| == 0 then Success([])
    else
      var first :- WalkEntry(dir, entries[0]);
      var rest :- WalkEntries(dir, entries[1..]);
      Success(first + rest)
  }

  function WalkEntry(dir: Path, e: Entry): Result<seq<Path>, ScanError>
    decreases e
  {
    match e
    case Directory(n, listing) =>
      if listing.Unreadable? then Failure(CannotRead(dir + [n])) else WalkEntries(dir + [n], listing.entries)
    case File(n) => if IsSourceName(n) then Success([dir + [n]]) else Success([])
    case Special(n) => if IsSourceName(n) then Success([dir + [n]]) else Success([])
  }

  /** Somewhere below, a directory cannot be read. */
  ghost predicate HasUnreadable(entries: seq<Entry>)
    decreases entries, 1
  {
    exists i :: 0 <= i < |entries| && EntryHasUnreadable(entries[i])
  }

  ghost predicate EntryHasUnreadable(e: Entry)
    decreases e, 0
  {
    e.Directory? && (e.listing.Unreadable? || HasUnreadable(e.listing.entries))
  }

  /** The walk throws exactly when some directory below cannot be read. */
  lemma {:induction false} WalkFailsExactly(dir: Path, entries: seq<Entry>)
    ensures WalkEntries(dir, entries).Failure? <==> HasUnreadable(entries)
    decreases entries
  {
    if |entries| > 0 {
      var e := entries[0];
      if e.Directory? && e.listing.Readable? {
        WalkFailsExactly(dir + [e.name], e.listing.entries);
      }
      WalkFailsExactly(dir, entries[1..]);
      if HasUnreadable(entries[1..]) {
        var i :| 0 <= i < |entries[1..]| && EntryHasUnreadable(entries[1..][i]);
        assert entries[i + 1] == entries[1..][i];
      }
      if HasUnreadable(entries) && !EntryHasUnreadable(e) {
        var i :| 0 <= i < |entries| && EntryHasUnreadable(entries[i]);
        assert entries[1..][i - 1] == entries[i];
      }
      if EntryHasUnreadable(e) {
        assert HasUnreadable(entries);
      }
    }
  }

  /** A listing the two discovery functions treat alike: every directory
      readable, none called `node_modules`, and no source-named entry that
      is neither a file nor a directory. */
  ghost predicate Ordinary(entries: seq<Entry>)
    decreases entries, 1
  {
    forall i :: 0 <= i < |entries| ==> OrdinaryEntry(entries[i])
  }

  ghost predicate OrdinaryEntry(e: Entry)
    decreases e, 0
  {
    match e
    case Directory(n, listing) => n != "node_modules" && listing.Readable? && Ordinary(listing.entries)
    case File(_) => true
    case Special(n) => !IsSourceName(n)
  }

  /** On an ordinary listing both scanners discover the same files in the
      same order. */
  lemma {:induction false} WalkAgreesWithFind(dir: Path, entries: seq<Entry>)
    requires Ordinary(entries)
    ensures WalkEntries(dir, entries) == Success(ScannerJs.FindIn(dir, entries))
    decreases entries
  {
    if |entries| > 0 {
      var e := entries[0];
      assert OrdinaryEntry(e);
      if e.Directory? {
        WalkAgreesWithFind(dir + [e.name], e.listing.entries);
      }
      assert Ordinary(entries[1..]) by {
        forall i | 0 <= i < |entries[1..]| ensures OrdinaryEntry(entries[1..][i]) {
          assert entries[1..][i] == entries[i + 1];
        }
      }
      WalkAgreesWithFind(dir, entries[1..]);
    }
  }

  /** Whenever the walk succeeds it finds every file the prototype's
      discovery finds (and possibly more, below `node_modules`). */
  lemma {:induction false} WalkFindsAtLeast(dir: Path, entries: seq<Entry>, p: Path)
    requires WalkEntries(dir, entries).Success?
    requires p in ScannerJs.FindIn(dir, entries)
    ensures p in WalkEntries(dir, entries).value
    decreases entries
  {
    var e := entries[0];
    var first := WalkEntry(dir, e);
    assert first.Success?;
    var rest := WalkEntries(dir, entries[1..]);
    assert rest.Success?;
    assert WalkEntries(dir, entries).value == first.value + rest.value;
    if p in ScannerJs.EntryFiles(dir, e) {
      if e.Directory? {
        WalkFindsAtLeast(dir + [e.name], e.listing.entries, p);
      }
    } else {
      WalkFindsAtLeast(dir, entries[1..], p);
    }
  }

  /** The independent description of what a successful walk finds: `rel`
      names a source-named entry that is not a directory, reached through
      directories of any name. */
  ghost predicate WalkDiscoverable(entries: seq<Entry>, rel: seq<string>)
    decreases |rel|, 1
  {
    exists i :: 0 <= i < |entries| && WalkReaches(entries[i], rel)
  }

  /** `rel` is reached by the walk through the entry `e`. */
  ghost predicate WalkReaches(e: Entry, rel: seq<string>)
    decreases |rel|, 0
  {
    if |rel| == 1 then !e.Directory? && e.name == rel[0] && IsSourceName(rel[0])
    else |rel| > 1 && e.Directory? && e.name == rel[0]
         && e.listing.Readable? && WalkDiscoverable(e.listing.entries, rel[1..])
  }

  lemma {:induction false} WalkEntryExactly(dir: Path, e: Entry, p: Path)
    requires WalkEntry(dir, e).Success?
    ensures p in WalkEntry(dir, e).value <==> ScannerJs.Below(dir, p) && WalkReaches(e, p[|dir|..])
    decreases e
  {
    var rel := if |dir| <= |p| then p[|dir|..] else [];
    match e
    case File(n) =>
      if ScannerJs.Below(dir, p) {
        assert p == dir + [n] <==> rel == [n];
      }
    case Special(n) =>
      if ScannerJs.Below(dir, p) {
        assert p == dir + [n] <==> rel == [n];
      }
    case Directory(n, listing) =>
      var sub := dir + [n];
      WalkExactly(sub, listing.entries, p);
      if ScannerJs.Below(dir, p) {
        assert ScannerJs.Below(sub, p) <==> |rel| > 1 && rel[0] == n;
        if |rel| > 1 { assert p[|sub|..] == rel[1..]; }
      } else {
        assert !ScannerJs.Below(sub, p);
      }
  }

  /** A successful walk finds exactly the paths the walk can reach: every
      directory is descended into, `node_modules` included, and every
      source-named entry that is not a directory is kept. */
  lemma {:induction false} WalkExactly(dir: Path, entries: seq<Entry>, p: Path)
    requires WalkEntries(dir, entries).Success?
    ensures p in WalkEntries(dir, entries).value <==> ScannerJs.Below(dir, p) && WalkDiscoverable(entries, p[|dir|..])
    decreases entries
  {
    var rel := if |dir| <= |p| then p[|dir|..] else [];
    if |entries| > 0 {
      var first := WalkEntry(dir, entries[0]);
      var rest := WalkEntries(dir, entries[1..]);
      assert first.Success? && rest.Success?;
      assert WalkEntries(dir, entries).value == first.value + rest.value;
      WalkEntryExactly(dir, entries[0], p);
      WalkExactly(dir, entries[1..], p);
      if WalkDiscoverable(entries, rel) {
        var i :| 0 <= i < |entries| && WalkReaches(entries[i], rel);
        if i > 0 { assert entries[1..][i - 1] == entries[i]; }
      }
      if WalkDiscoverable(entries[1..], rel) {
        var i :| 0 <= i < |entries[1..]| && WalkReaches(entries[1..][i], rel);
        assert entries[i + 1] == entries[1..][i];
      }
      if WalkReaches(entries[0], rel) {
        assert WalkDiscoverable(entries, rel);
      }
    }
  }

  /** The prototype skips `node_modules`; this walk descends into it. */
  lemma NodeModulesDescended(dir: Path, name: string)
    requires IsSourceName(name)
    ensures Walk(dir, Readable([Directory("node_modules", Readable([File(name)]))]))
            == Success([dir + ["node_modules", name]])
    ensures ScannerJs.FindComponentFiles(dir, Readable([Directory("node_modules", Readable([File(name)]))])) == []
  {
    var sub := dir + ["node_modules"];
    var inner := [File(name)];
    assert WalkEntry(sub, File(name)) == Success([sub + [name]]);
    assert WalkEntries(sub, inner[1..]) == Success([]);
    assert [sub + [name]] + [] == [sub + [name]];
    assert WalkEntries(sub, inner) == Success([sub + [name]]);
    var top := [Directory("node_modules", Readable(inner))];
    assert WalkEntry(dir, top[0]) == Success([sub + [name]]);
    assert WalkEntries(dir, top[1..]) == Success([]);
    assert sub + [name] == dir + ["node_modules", name];
    assert ScannerJs.EntryFiles(dir, top[0]) == [];
    assert ScannerJs.FindIn(dir, top[1..]) == [];
  }

  // ---------------------------------------------------------------------
  // Prop-type classification (`typeToPropDef`).

  /** The values of the string-literal arms, in order. */
  function LiteralOptions(arms: seq<TsType>): (vs: seq<string>)
    ensures |vs| <= |arms|
    ensures |vs| == |arms| <==> ScannerJs.AllStringLiterals(arms)
    ensures ScannerJs.AllStringLiterals(arms) ==> vs == ScannerJs.LiteralValues(arms)
  {
    if |arms| == 0 then []
    else
      var rest := LiteralOptions(arms[1..]);
      assert ScannerJs.AllStringLiterals(arms) <==> arms[0].StringLiteral? && ScannerJs.AllStringLiterals(arms[1..]) by {
        if arms[0].StringLiteral? && ScannerJs.AllStringLiterals(arms[1..]) {
          forall i | 0 < i < |arms| ensures arms[i].StringLiteral? { assert arms[i] == arms[1..][i - 1]; }
        }
      }
      (if arms[0].StringLiteral? then [arms[0].value] else []) + rest
  }

  /** `typeToPropDef`: the type is taken as the type checker reports it, with no
      `null`/`undefined` stripping; a union qualifies when every arm is a
      string literal. */
  function TypeToPropDef(t: TsType): (r: Option<ScannedPropDef>)
    ensures r == Some(ScannedString) <==> t == StringType
    ensures r == Some(ScannedNumber) <==> t == NumberType
    ensures r == Some(ScannedBoolean) <==> t == BooleanType
    ensures r.Some? && r.value.ScannedUnion? <==> t.UnionType? && ScannerJs.AllStringLiterals(t.arms)
    ensures r.Some? && r.value.ScannedUnion? ==> r.value.options == ScannerJs.LiteralValues(t.arms)
  {
    match t
    case StringType => Some(ScannedString)
    case NumberType => Some(ScannedNumber)
    case BooleanType => Some(ScannedBoolean)
    case UnionType(arms) =>
      var options := LiteralOptions(arms);
      if |options| == |arms| then Some(ScannedUnion(options)) else None
    case _ => None
  }

  /** The classifiers differ on optional props: `T | undefined` is a
      `T` prop to the prototype and no prop at all here. */
  lemma OptionalPropDropped(t: TsType)
    requires t == StringType || t == NumberType || t == BooleanType
    ensures TypeToPropDef(UnionType([t, UndefinedType])) == None
    ensures ScannerJs.ParsePropType(UnionType([t, UndefinedType])) == TypeToPropDef(t)
  {
    assert !ScannerJs.AllStringLiterals([t, UndefinedType]) by {
      assert ![t, UndefinedType][0].StringLiteral?;
    }
    assert [t, UndefinedType] == [t] + [UndefinedType];
    ScannerJs.OptionalClassifiesAsBase(t, [UndefinedType]);
  }

  /** Away from nullish types, one-armed unions and the empty union the two
      classifiers agree. */
  lemma ClassifiersAgree(t: TsType)
    requires !ScannerJs.IsNullish(t)
    requires t.UnionType? ==> |t.arms| >= 2 && forall i :: 0 <= i < |t.arms| ==> !ScannerJs.IsNullish(t.arms[i])
    ensures TypeToPropDef(t) == ScannerJs.ParsePropType(t)
  {
    assert ScannerJs.NonNullable(t) == t;
  }

  // ---------------------------------------------------------------------
  // One source file of the program, and the scan.

  /** A source file of the compiler program: its path and its top-level
      statements. */
  datatype ProgramFile = ProgramFile(file: Path, statements: seq<Node>)

  predicate IsDefaultFunction(n: Node) {
    n.FunctionDeclaration? && n.isExport && n.isDefault
  }

  /** `statements.find(...)`: the first function declaration carrying both
      `export` and `default`. */
  function FirstDefaultFunction(nodes: seq<Node>): (r: Option<nat>)
    ensures r.Some? ==> r.value < |nodes| && IsDefaultFunction(nodes[r.value])
    ensures r.Some? ==> forall j :: 0 <= j < r.value ==> !IsDefaultFunction(nodes[j])
    ensures r.None? <==> forall j :: 0 <= j < |nodes| ==> !IsDefaultFunction(nodes[j])
  {
    if |nodes| == 0 then None
    else if IsDefaultFunction(nodes[0]) then Some(0)
    else
      var rest := FirstDefaultFunction(nodes[1..]);
      assert forall j :: 0 < j < |nodes| ==> nodes[j] == nodes[1..][j - 1];
      if rest.Some? then Some(rest.value + 1) else None
  }

  /** A path as `path.resolve` writes it, with the platform separator
      `sep` (a drive prefix, shared by both sides of the comparison below,
      is left out). */
  function NativeString(p: Path, sep: char): string {
    [sep] + Join(p, [sep])
  }

  /** The source-directory filter as written: the compiler's file name,
      which always uses `/`, must start with the resolved source directory,
      which uses the platform separator. */
  predicate InSourceDirAsWritten(absSrc: Path, file: Path, sep: char) {
    StartsWith(PosixString(file), NativeString(absSrc, sep))
  }

  /** With the Windows separator the filter as written lets no file
      through, so the scan finds no component at all. */
  lemma WindowsRejectsEveryFile(absSrc: Path, file: Path)
    ensures !InSourceDirAsWritten(absSrc, file, '\\')
  {
    assert PosixString(file)[0] == '/';
    assert NativeString(absSrc, '\\')[0] == '\\';
  }

  /** With the POSIX separator the filter as written is the corrected one. */
  lemma PosixSeparatorAgrees(absSrc: Path, file: Path)
    ensures InSourceDirAsWritten(absSrc, file, '/') <==> InSourceDir(absSrc, file)
  {
    assert NativeString(absSrc, '/') == PosixString(absSrc);
  }

  /** The source-directory filter with both sides written with `/`: still
      a string prefix test on the file name, so a sibling such as `src2`
      passes for `src`. */
  predicate InSourceDir(absSrc: Path, file: Path) {
    StartsWith(PosixString(file), PosixString(absSrc))
  }

  /** The annotation of a function's first parameter when it is a type
      reference whose name resolves to a symbol. */
  predicate HasPropsType(fn: FunctionShape) {
    |fn.params| > 0 && fn.params[0].annotation.Some?
    && fn.params[0].annotation.value.isTypeReference && fn.params[0].annotation.value.resolvesToSymbol
  }

  /** The rest of one iteration of the scan loop, for a file that passed
      the source-directory filter. A component is emitted even when none
      of its props classifies; its name is always the file's base name. */
  function AnalyzeSelected(cwd: Path, sep: char, f: ProgramFile): (r: Option<ScannedComponent>)
    ensures r.Some? <==> FirstDefaultFunction(f.statements).Some?
                         && HasPropsType(f.statements[FirstDefaultFunction(f.statements).value].fn)
    ensures r.Some? ==> r.value.name == StripExtension(BaseName(f.file))
    ensures r.Some? ==> '\\' !in r.value.path
    ensures r.Some? && cwd <= f.file ==> r.value.path == ReplaceChar(Join(f.file[|cwd|..], [sep]), '\\', '/')
    ensures r.Some? ==>
              var properties := f.statements[FirstDefaultFunction(f.statements).value].fn.params[0].annotation.value.properties;
              ScannerJs.DistinctNames(properties) ==> r.value.props == ScannerJs.Classified(TypeToPropDef, properties)
  {
    var found := FirstDefaultFunction(f.statements);
    if found.None? then None
    else
      var fn := f.statements[found.value].fn;
      if !HasPropsType(fn) then None
      else
        var properties := fn.params[0].annotation.value.properties;
        ScannerJs.CollectFromEmpty(TypeToPropDef, properties);
        SlashPathHasNoBackslash(cwd, f.file, sep);
        SlashPathBelow(cwd, f.file, sep);
        Some(ScannedComponent(StripExtension(BaseName(f.file)), SlashPath(cwd, f.file, sep),
                              ScannerJs.CollectProps(TypeToPropDef, properties, [])))
  }

  /** One iteration of the scan loop, with the corrected source-directory
      filter. */
  function AnalyzeFile(absSrc: Path, cwd: Path, sep: char, f: ProgramFile): (r: Option<ScannedComponent>)
    ensures r.Some? <==> InSourceDir(absSrc, f.file) && FirstDefaultFunction(f.statements).Some?
                         && HasPropsType(f.statements[FirstDefaultFunction(f.statements).value].fn)
    ensures r.Some? ==> r.value.name == StripExtension(BaseName(f.file))
    ensures r.Some? ==> '\\' !in r.value.path
    ensures r.Some? && cwd <= f.file ==> r.value.path == ReplaceChar(Join(f.file[|cwd|..], [sep]), '\\', '/')
    ensures r.Some? ==>
              var properties := f.statements[FirstDefaultFunction(f.statements).value].fn.params[0].annotation.value.properties;
              ScannerJs.DistinctNames(properties) ==> r.value.props == ScannerJs.Classified(TypeToPropDef, properties)
  {
    if !InSourceDir(absSrc, f.file) then None else AnalyzeSelected(cwd, sep, f)
  }

  /** One iteration of the scan loop as written, with the platform
      separator in the filter: nothing on Windows, the corrected iteration
      on POSIX. */
  function AnalyzeFileAsWritten(absSrc: Path, cwd: Path, sep: char, f: ProgramFile): (r: Option<ScannedComponent>)
    ensures r.Some? ==> InSourceDirAsWritten(absSrc, f.file, sep)
    ensures sep == '\\' ==> r.None?
    ensures sep == '/' ==> r == AnalyzeFile(absSrc, cwd, sep, f)
  {
    WindowsRejectsEveryFile(absSrc, f.file);
    PosixSeparatorAgrees(absSrc, f.file);
    if !InSourceDirAsWritten(absSrc, f.file, sep) then None else AnalyzeSelected(cwd, sep, f)
  }

  /** The scan loop over `program.getSourceFiles()`, in the program's
      order. */
  function ScanProgram(absSrc: Path, cwd: Path, sep: char, files: seq<ProgramFile>): (cs: seq<ScannedComponent>)
    ensures |cs| <= |files|
    ensures forall i :: 0 <= i < |cs| ==> '\\' !in cs[i].path
    ensures forall i :: 0 <= i < |files| && AnalyzeFile(absSrc, cwd, sep, files[i]).Some? ==>
              AnalyzeFile(absSrc, cwd, sep, files[i]).value in cs
  {
    if |files| == 0 then []
    else
      var head := AnalyzeFile(absSrc, cwd, sep, files[0]);
      var rest := ScanProgram(absSrc, cwd, sep, files[1..]);
      assert forall j :: 0 < j < |files| ==> files[j] == files[1..][j - 1];
      (if head.Some? then [head.value] else []) + rest
  }

  /** Every component comes from the analysis of one of the program's
      files. */
  lemma {:induction false} ScanProgramFromFiles(absSrc: Path, cwd: Path, sep: char, files: seq<ProgramFile>, c: ScannedComponent)
    requires c in ScanProgram(absSrc, cwd, sep, files)
    ensures exists i :: 0 <= i < |files| && AnalyzeFile(absSrc, cwd, sep, files[i]) == Some(c)
    decreases |files|
  {
    if AnalyzeFile(absSrc, cwd, sep, files[0]) != Some(c) {
      ScanProgramFromFiles(absSrc, cwd, sep, files[1..], c);
      var i :| 0 <= i < |files[1..]| && AnalyzeFile(absSrc, cwd, sep, files[1..][i]) == Some(c);
      assert files[1..][i] == files[i + 1];
    }
  }

  lemma {:induction false} ScanProgramConcat(absSrc: Path, cwd: Path, sep: char, a: seq<ProgramFile>, b: seq<ProgramFile>)
    ensures ScanProgram(absSrc, cwd, sep, a + b) == ScanProgram(absSrc, cwd, sep, a) + ScanProgram(absSrc, cwd, sep, b)
    decreases |a|
  {
    if |a| == 0 {
      assert a + b == b;
    } else {
      assert (a + b)[1..] == a[1..] + b;
      ScanProgramConcat(absSrc, cwd, sep, a[1..], b);
    }
  }

  /** Program files outside the source directory, such as the standard
      library's declaration files, contribute nothing. */
  lemma OutsideFilesIgnored(absSrc: Path, cwd: Path, sep: char, a: seq<ProgramFile>, f: ProgramFile, b: seq<ProgramFile>)
    requires !InSourceDir(absSrc, f.file)
    ensures ScanProgram(absSrc, cwd, sep, a + [f] + b) == ScanProgram(absSrc, cwd, sep, a + b)
  {
    ScanProgramConcat(absSrc, cwd, sep, a + [f], b);
    ScanProgramConcat(absSrc, cwd, sep, a, [f]);
    ScanProgramConcat(absSrc, cwd, sep, a, b);
  }

  /** Every file below the source directory passes the filter. */
  lemma InsideFilesPass(absSrc: Path, file: Path)
    requires absSrc <= file
    ensures InSourceDir(absSrc, file)
  {
    PosixPrefix(absSrc, file);
  }

  /** The filter is a string test: a sibling directory whose name extends
      the source directory's name passes it. */
  lemma SiblingDirectoryPasses()
    ensures InSourceDir(["p", "src"], ["p", "src2", "A.tsx"])
    ensures !(["p", "src"] <= ["p", "src2", "A.tsx"])
  {
    assert PosixString(["p", "src"]) == "/p/src";
    assert PosixString(["p", "src2", "A.tsx"]) == "/p/src2/A.tsx";
    assert ["p", "src2", "A.tsx"][1] != ["p", "src"][1];
  }

  /** The scan loop as written: on Windows it finds nothing, on POSIX it
      is the corrected loop. */
  function ScanProgramAsWritten(absSrc: Path, cwd: Path, sep: char, files: seq<ProgramFile>): (cs: seq<ScannedComponent>)
    ensures sep == '\\' ==> cs == []
    ensures sep == '/' ==> cs == ScanProgram(absSrc, cwd, sep, files)
  {
    if |files| == 0 then []
    else
      var head := AnalyzeFileAsWritten(absSrc, cwd, sep, files[0]);
      (if head.Some? then [head.value] else []) + ScanProgramAsWritten(absSrc, cwd, sep, files[1..])
  }

  /** `scan()` with working directory `cwd`: the walk of the resolved source
      directory (whose listing is `listing`) either throws, or its files
      are compiled and the program's source files are scanned in order. */
  function Scan(cwd: Path, srcDir: seq<string>, listing: Listing, sep: char,
                compile: seq<Path> -> seq<ProgramFile>): (r: Result<ScanResult, ScanError>)
    ensures r.Failure? <==> Walk(Resolve(cwd, srcDir), listing).Failure?
    ensures r.Success? ==>
              r.value.components == ScanProgram(Resolve(cwd, srcDir), cwd, sep, compile(Walk(Resolve(cwd, srcDir), listing).value))
  {
    var absSrc := Resolve(cwd, srcDir);
    var files :- Walk(absSrc, listing);
    Success(ScanResult(ScanProgram(absSrc, cwd, sep, compile(files))))
  }

  /** `scan()` as written: it fails exactly when the walk fails, a
      successful scan on Windows has no component, and on POSIX it is the
      corrected scan. */
  function ScanAsWritten(cwd: Path, srcDir: seq<string>, listing: Listing, sep: char,
                         compile: seq<Path> -> seq<ProgramFile>): (r: Result<ScanResult, ScanError>)
    ensures r.Failure? <==> Walk(Resolve(cwd, srcDir), listing).Failure?
    ensures r.Success? ==>
              r.value.components == ScanProgramAsWritten(Resolve(cwd, srcDir), cwd, sep, compile(Walk(Resolve(cwd, srcDir), listing).value))
    ensures r.Success? && sep == '\\' ==> r.value.components == []
    ensures sep == '/' ==> r == Scan(cwd, srcDir, listing, sep, compile)
  {
    var absSrc := Resolve(cwd, srcDir);
    var files :- Walk(absSrc, listing);
    Success(ScanResult(ScanProgramAsWritten(absSrc, cwd, sep, compile(files))))
  }
}
