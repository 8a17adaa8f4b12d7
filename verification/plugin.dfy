/** The Vite plugin's own logic: the virtual manifest module's id routing,
    the manifest cache (lazy scanner, rescan with a dev server, scan once
    without), the ignore-list merge, the watcher's invalidation test, and
    the log-line format. The scanner it creates is not part of this model:
    what a scan returns at the moment of the call is an input. */
module Plugin {
  import opened Wrappers
  import opened Text
  import opened Json
  import opened Paths
  import opened ManifestSchema
  import ManifestValidator
  import ManifestRoundTrip
  import TsModel

  const VIRTUAL_MODULE_ID: string := "virtual:rplite-manifest"

  /** Rollup's convention: a leading NUL marks a virtual module. */
  const RESOLVED_VIRTUAL_MODULE_ID: string := "\0" + VIRTUAL_MODULE_ID

  // ---------------------------------------------------------------------
  // Module routing (`resolveId`, `load`).

  /** `resolveId(id)`: only the virtual id is claimed. */
  function ResolveId(id: string): (r: Option<string>)
    ensures r.Some? <==> id == VIRTUAL_MODULE_ID
    ensures r.Some? ==> r.value == RESOLVED_VIRTUAL_MODULE_ID && r.value != id
  {
    if id == VIRTUAL_MODULE_ID then Some(RESOLVED_VIRTUAL_MODULE_ID) else None
  }

  /** What the plugin remembers between hook calls. */
  datatype ScannerConfig = ScannerConfig(srcDir: Path, projectRoot: Path, ignore: seq<string>)

  datatype PluginState = PluginState(
    scanner: Option<ScannerConfig>,  // created on first use
    cache: Option<Manifest>,         // the build-mode memo
    hasServer: bool)                 // set by `configureServer`

  /** The plugin's configuration as the factory fixes it. */
  datatype Options = Options(srcDir: Path, projectRoot: Path, userIgnore: seq<string>)

  const Initial := PluginState(None, None, false)

  /** `getManifest()`, given what a scan would return now. The result also
      says whether a scan ran. */
  function GetManifest(opts: Options, st: PluginState, current: Manifest): (r: (PluginState, Manifest, bool))
    ensures r.0.hasServer == st.hasServer
    ensures r.0.scanner.Some?
    ensures st.scanner.Some? ==> r.0.scanner == st.scanner
    ensures st.scanner.None? ==> r.0.scanner == Some(ScannerConfig(opts.srcDir, opts.projectRoot, opts.userIgnore))
    ensures st.hasServer ==> r.1 == current && r.2 && r.0.cache == st.cache
    ensures !st.hasServer && st.cache.Some? ==> r.1 == st.cache.value && !r.2 && r.0.cache == st.cache
    ensures !st.hasServer && st.cache.None? ==> r.1 == current && r.2 && r.0.cache == Some(current)
  {
    var scanner := if st.scanner.Some? then st.scanner
                   else Some(ScannerConfig(opts.srcDir, opts.projectRoot, opts.userIgnore));
    var st' := st.(scanner := scanner);
    if st.hasServer then (st', current, true)
    else if st.cache.Some? then (st', st.cache.value, false)
    else (st'.(cache := Some(current)), current, true)
  }

  /** `load(id)`: only the resolved id is answered, with an ES module
      exporting the manifest as JSON. */
  function Load(opts: Options, st: PluginState, id: string, current: Manifest): (r: (PluginState, Option<string>))
    ensures r.1.Some? <==> id == RESOLVED_VIRTUAL_MODULE_ID
    ensures r.1.None? ==> r.0 == st
    ensures r.1.Some? ==>
              var got := GetManifest(opts, st, current);
              r.0 == got.0 && r.1.value == "export default " + Stringify(ToJson(got.1))
  {
    if id == RESOLVED_VIRTUAL_MODULE_ID then
      var got := GetManifest(opts, st, current);
      (got.0, Some("export default " + Stringify(ToJson(got.1))))
    else (st, None)
  }

  /** `configureServer`: from now on every request rescans. */
  function ConfigureServer(st: PluginState): (r: PluginState)
    ensures r.hasServer && r.scanner == st.scanner && r.cache == st.cache
  {
    st.(hasServer := true)
  }

  /** Without a server the first scan is kept: a second request returns it
      whatever the files now hold. */
  lemma BuildModeMemoises(opts: Options, st: PluginState, first: Manifest, later: Manifest)
    requires !st.hasServer
    ensures var a := GetManifest(opts, st, first);
            var b := GetManifest(opts, a.0, later);
            b.1 == a.1 && !b.2 && b.0 == a.0
  {
  }

  /** With a server every request sees the files as they are now. */
  lemma DevModeRescans(opts: Options, st: PluginState, first: Manifest, later: Manifest)
    requires st.hasServer
    ensures var a := GetManifest(opts, st, first);
            var b := GetManifest(opts, a.0, later);
            a.1 == first && b.1 == later && a.2 && b.2
  {
  }

  /** The scanner is created once, with the user's patterns only. */
  lemma ScannerCreatedOnce(opts: Options, st: PluginState, a: Manifest, b: Manifest)
    ensures var s1 := GetManifest(opts, st, a).0;
            var s2 := GetManifest(opts, s1, b).0;
            s2.scanner == s1.scanner && s1.scanner.value.ignore == (if st.scanner.Some? then st.scanner.value.ignore else opts.userIgnore)
  {
  }

  /** The module `load` returns carries JSON that the runtime validator
      turns back into the very manifest that was served. */
  lemma LoadedManifestValidates(opts: Options, st: PluginState, current: Manifest)
    requires WellFormed(current)
    requires st.cache.Some? ==> WellFormed(st.cache.value)
    ensures var r := Load(opts, st, RESOLVED_VIRTUAL_MODULE_ID, current);
            var served := GetManifest(opts, st, current).1;
            r.1 == Some("export default " + Stringify(ToJson(served)))
            && ManifestValidator.ValidateManifest(ToJson(served)) == Success(served)
  {
    var served := GetManifest(opts, st, current).1;
    ManifestRoundTrip.ManifestRoundTrip(served);
  }

  // ---------------------------------------------------------------------
  // The ignore list (`Array.from(new Set([...defaults, ...user]))`).

  /** The position of the first occurrence of `x`. */
  function FirstIndex(xs: seq<string>, x: string): (i: nat)
    requires x in xs
    ensures i < |xs| && xs[i] == x
    ensures forall j :: 0 <= j < i ==> xs[j] != x
  {
    if xs[0] == x then 0 else 1 + FirstIndex(xs[1..], x)
  }

  predicate Distinct(xs: seq<string>) {
    forall i, j :: 0 <= i < j < |xs| ==> xs[i] != xs[j]
  }

  /** Duplicates removed, each value kept where it first occurs. */
  function Dedup(xs: seq<string>): (r: seq<string>)
    ensures Distinct(r)
    ensures forall x :: x in r <==> x in xs
    ensures forall i, j :: 0 <= i < j < |r| ==> FirstIndex(xs, r[i]) < FirstIndex(xs, r[j])
    decreases |xs|
  {
    if |xs| == 0 then []
    else
      var init := xs[..|xs| - 1];
      var last := xs[|xs| - 1];
      var d := Dedup(init);
      DedupStep(xs, init, last, d);
      if last in d then d else d + [last]
  }

  lemma DedupStep(xs: seq<string>, init: seq<string>, last: string, d: seq<string>)
    requires |xs| > 0 && init == xs[..|xs| - 1] && last == xs[|xs| - 1]
    requires Distinct(d)
    requires forall x :: x in d <==> x in init
    requires forall i, j :: 0 <= i < j < |d| ==> FirstIndex(init, d[i]) < FirstIndex(init, d[j])
    ensures var r := if last in d then d else d + [last];
            Distinct(r) && (forall x :: x in r <==> x in xs)
            && forall i, j :: 0 <= i < j < |r| ==> FirstIndex(xs, r[i]) < FirstIndex(xs, r[j])
  {
    assert xs == init + [last];
    forall x | x in init ensures FirstIndex(xs, x) == FirstIndex(init, x) {
      FirstIndexExtend(init, last, x);
    }
    if last !in d {
      assert last !in init;
      assert FirstIndex(xs, last) == |xs| - 1;
      var r := d + [last];
      forall i, j | 0 <= i < j < |r| ensures FirstIndex(xs, r[i]) < FirstIndex(xs, r[j]) {
        assert r[i] in init;
        if j == |r| - 1 {
          assert FirstIndex(init, r[i]) < |init|;
        } else {
          assert r[j] in init;
        }
      }
    }
  }

  lemma {:induction false} FirstIndexExtend(xs: seq<string>, y: string, x: string)
    requires x in xs
    ensures FirstIndex(xs + [y], x) == FirstIndex(xs, x)
    decreases |xs|
  {
    if xs[0] != x {
      assert (xs + [y])[1..] == xs[1..] + [y];
      FirstIndexExtend(xs[1..], y, x);
    }
  }

  /** The merged ignore list: the defaults, then the user patterns, each
      pattern once. */
  function IgnorePatterns(defaults: seq<string>, user: seq<string>): (r: seq<string>)
    ensures Distinct(r)
    ensures forall p :: p in r <==> p in defaults || p in user
  {
    Dedup(defaults + user)
  }

  /** The prefix of a distinct list is distinct and lacks the last value. */
  lemma DistinctInit(xs: seq<string>)
    requires |xs| > 0 && Distinct(xs)
    ensures Distinct(xs[..|xs| - 1]) && xs[|xs| - 1] !in xs[..|xs| - 1]
  {
  }

  /** A value not seen before is appended. */
  lemma DedupSnoc(xs: seq<string>)
    requires |xs| > 0 && xs[|xs| - 1] !in Dedup(xs[..|xs| - 1])
    ensures Dedup(xs) == Dedup(xs[..|xs| - 1]) + [xs[|xs| - 1]]
  {
  }

  /** De-duplicating a list that is already distinct leaves it unchanged. */
  lemma {:induction false} DedupOfDistinct(xs: seq<string>)
    requires Distinct(xs)
    ensures Dedup(xs) == xs
    decreases |xs|
  {
    if |xs| > 0 {
      var init := xs[..|xs| - 1];
      DistinctInit(xs);
      DedupOfDistinct(init);
      DedupSnoc(xs);
      assert init + [xs[|xs| - 1]] == xs;
    }
  }

  /** Defaults come first: the merged list starts with the defaults'
      own de-duplication. */
  lemma {:induction false} DefaultsFirst(defaults: seq<string>, user: seq<string>)
    ensures Dedup(defaults) <= IgnorePatterns(defaults, user)
    decreases |user|
  {
    if |user| == 0 {
      assert defaults + user == defaults;
    } else {
      var init := user[..|user| - 1];
      DefaultsFirst(defaults, init);
      assert (defaults + user)[..|defaults + user| - 1] == defaults + init;
    }
  }

  // ---------------------------------------------------------------------
  // The watcher.

  /** `absoluteToRelative`: the path below the project root with `/`
      between segments, or the file's base name when that path is empty. */
  function AbsoluteToRelative(projectRoot: Path, absolute: Path, sep: char): string {
    var relative := Join(Relative(projectRoot, absolute), [sep]);
    if relative != "" then Join(Split(relative, sep), "/") else BaseName(absolute)
  }

  /** When no segment contains the separator, splitting and re-joining
      only swaps the separator for `/`. */
  lemma RelativeUsesSlashes(projectRoot: Path, absolute: Path, sep: char)
    requires forall i :: 0 <= i < |absolute| ==> sep !in absolute[i] && absolute[i] != ""
    requires projectRoot < absolute
    ensures AbsoluteToRelative(projectRoot, absolute, sep) == Join(absolute[|projectRoot|..], "/")
  {
    RelativeBelow(projectRoot, absolute);
    var rel := absolute[|projectRoot|..];
    assert forall i :: 0 <= i < |rel| ==> sep !in rel[i] by {
      forall i | 0 <= i < |rel| ensures sep !in rel[i] { assert rel[i] == absolute[|projectRoot| + i]; }
    }
    SplitOfJoin(rel, sep);
    assert Join(rel, [sep]) != "" by {
      assert rel[0] == absolute[|projectRoot|] && |rel[0]| > 0;
      JoinNonEmpty(rel, [sep]);
    }
  }

  /** A path equal to the project root has an empty relative path and
      falls back to its base name. */
  lemma RootGivesBaseName(projectRoot: Path, sep: char)
    ensures AbsoluteToRelative(projectRoot, projectRoot, sep) == BaseName(projectRoot)
  {
    RelativeBelow(projectRoot, projectRoot);
  }

  lemma JoinNonEmpty(parts: seq<string>, sep: string)
    requires |parts| > 0 && |parts[0]| > 0
    ensures Join(parts, sep) != ""
  {
    if |parts| > 1 {
      assert |Join(parts, sep)| >= |parts[0]|;
    }
  }

  /** `shouldIgnoreWatcher(path)`: some pattern matches the root-relative
      path; `matches(pattern, relative)` stands for the glob matcher. */
  predicate ShouldIgnore(projectRoot: Path, patterns: seq<string>, matches: (string, string) -> bool,
                         absolute: Path, sep: char) {
    exists i :: 0 <= i < |patterns| && matches(patterns[i], AbsoluteToRelative(projectRoot, absolute, sep))
  }

  /** The watcher callback: whether the manifest module is invalidated (and
      a full reload sent) for a change at `file`. */
  function WatcherInvalidates(srcDir: Path, projectRoot: Path, patterns: seq<string>,
                              matches: (string, string) -> bool, sep: char,
                              file: Path, moduleInGraph: bool): (r: bool)
    ensures r ==> moduleInGraph
    ensures r ==> StartsWith(PosixString(file), PosixString(srcDir))
    ensures r ==> EndsWith(PosixString(file), ".tsx") || EndsWith(PosixString(file), ".ts")
    ensures r ==> forall i :: 0 <= i < |patterns| ==> !matches(patterns[i], AbsoluteToRelative(projectRoot, file, sep))
  {
    var path := PosixString(file);
    StartsWith(path, PosixString(srcDir))
    && (EndsWith(path, ".tsx") || EndsWith(path, ".ts"))
    && !ShouldIgnore(projectRoot, patterns, matches, file, sep)
    && moduleInGraph
  }

  /** A user pattern that matches silences the watcher, since the merged
      list holds every user pattern. */
  lemma UserPatternSilences(opts: Options, defaults: seq<string>, matches: (string, string) -> bool, sep: char,
                            file: Path, moduleInGraph: bool, pattern: string)
    requires pattern in opts.userIgnore
    requires matches(pattern, AbsoluteToRelative(opts.projectRoot, file, sep))
    ensures !WatcherInvalidates(opts.srcDir, opts.projectRoot, IgnorePatterns(defaults, opts.userIgnore), matches, sep, file, moduleInGraph)
  {
    var ps := IgnorePatterns(defaults, opts.userIgnore);
    assert pattern in ps;
    var i :| 0 <= i < |ps| && ps[i] == pattern;
  }

  /** The POSIX form of a path ends with its last segment. */
  lemma PosixEndsWithName(file: Path)
    requires |file| > 0
    ensures EndsWith(PosixString(file), file[|file| - 1])
  {
    var name := file[|file| - 1];
    if |file| > 1 {
      assert file == file[..|file| - 1] + [name];
      JoinConcat(file[..|file| - 1], [name], "/");
    }
  }

  /** A file with a source name has a source path. */
  lemma SourcePath(file: Path)
    requires |file| > 0 && TsModel.IsSourceName(file[|file| - 1])
    ensures EndsWith(PosixString(file), ".tsx") || EndsWith(PosixString(file), ".ts")
  {
    var name := file[|file| - 1];
    PosixEndsWithName(file);
    if EndsWith(name, ".tsx") { SuffixOfSuffix(PosixString(file), name, ".tsx"); }
    else { SuffixOfSuffix(PosixString(file), name, ".ts"); }
  }

  /** A source file below the source directory that no pattern matches
      does invalidate, once the module has been loaded. */
  lemma SourceChangeInvalidates(srcDir: Path, projectRoot: Path, patterns: seq<string>,
                                matches: (string, string) -> bool, sep: char, file: Path)
    requires srcDir <= file && |file| > 0 && TsModel.IsSourceName(file[|file| - 1])
    requires forall i :: 0 <= i < |patterns| ==> !matches(patterns[i], AbsoluteToRelative(projectRoot, file, sep))
    ensures WatcherInvalidates(srcDir, projectRoot, patterns, matches, sep, file, true)
  {
    PosixPrefix(srcDir, file);
    SourcePath(file);
  }

  lemma SuffixOfSuffix(s: string, mid: string, suffix: string)
    requires EndsWith(s, mid) && EndsWith(mid, suffix)
    ensures EndsWith(s, suffix)
  {
    assert s[|s| - |suffix|..] == mid[|mid| - |suffix|..];
  }

  // ---------------------------------------------------------------------
  // Log lines.

  const LOG_PREFIX: string := "[rplite] "

  /** `formatLogMessage(message, context)`: the prefix, the message, and
      the context as JSON after one space when there is a context. */
  function FormatLogMessage(message: string, context: Option<seq<(string, JVal)>>): (r: string)
    ensures StartsWith(r, LOG_PREFIX) && |r| >= |LOG_PREFIX| + |message|
    ensures r[|LOG_PREFIX|..|LOG_PREFIX| + |message|] == message
    ensures context.None? <==> |r| == |LOG_PREFIX| + |message|
    ensures context.Some? ==> r[|LOG_PREFIX| + |message|..] == " " + Stringify(JObj(context.value))
  {
    var payload := if context.Some? then " " + Stringify(JObj(context.value)) else "";
    LOG_PREFIX + message + payload
  }
}
