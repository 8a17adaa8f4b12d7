# react-playground-lite, modelled in Dafny

react-playground-lite is a Vite plugin plus a browser runtime. The plugin scans a project's
source directory for React components. It classifies each component's prop types and serves
the resulting manifest as a virtual module. The runtime validates that manifest and shows
one control per prop. It renders the selected component inside an iframe, and the two
windows talk through posted messages.

This project models the sequential logic of that system as pure functions over immutable
datatypes, and proves properties of them:

- `json.dfy`, `records.dfy` hold JSON-like values and JS objects as ordered key/value
  records. Lookup finds the first entry; assignment replaces in place or appends.
- `manifest_schema.dfy` holds the manifest datatypes, `MANIFEST_VERSION` and the
  serialisation of a manifest to JSON. It also holds the output shape of the two prototype
  scanners.
- `manifest_validator.dfy`, `manifest_roundtrip.dfy` hold the runtime validator
  (`validateManifest` and its helpers) with its error messages, and its round trip against
  the serialisation.
- `ts_model.dfy`, `scanner_js.dfy`, `scanner_ts.dfy` hold the two prototype scanners. The
  TypeScript compiler's answers are input datatypes: types, function shapes, the statements
  of a file and directory trees. The two prototypes are kept apart and compared by lemmas.
- `controls.dfy` holds the array control: `parseArrayInput`, the `", "`-joined display and
  `describeArrayElement`.
- `plugin.dfy` holds the plugin: virtual-module routing, the manifest cache, the merged
  ignore list, the watcher predicate, `absoluteToRelative` and `formatLogMessage`.
- `protocol.dfy`, `preview.dfy`, `iframe_client.dfy` hold the preview protocol. The
  controller side is one step per React re-render, with the unmount effect before the
  render effect. The iframe side is a message handler over an optional root.
- `paths.dfy`, `text.dfy`, `wrappers.dfy` are helpers: paths as segment sequences, string
  functions in the sense of their JavaScript namesakes, and `Option`/`Result`.

Some things the source does are not computed inside the model. They are parameters:
- the number parser and number display of the array control (`toNumber`, `showNumber`);
- the glob matcher (`matches`);
- the path separator (`sep`);
- the compiler's view of the files (`compile`, `program`);
- the outcome of the iframe's dynamic import (`modules`);
- whether the iframe document has a `#root` element.

Some behaviours of the code are easy to misread. The model does what the code does, except where
a Findings row describes a defect: there the as-written behaviour is modelled and proved, and the
rest of the model uses the corrected behaviour.
- The validator copies `options` as given. It keeps duplicates and accepts an empty array
  (packages/runtime/src/manifest.ts:49-61).
- A render request made before the iframe is ready posts nothing and is not kept for later
  (packages/runtime/src/playground/Preview.tsx:76-87). On the ready message the controller
  renders once, with the inputs its listener closed over at mount (see Findings). That is
  `Preview.OnMessageAsWritten`; the event runs `Preview.Step` and `Preview.Run` use the
  corrected `Preview.OnMessage`, which renders the current inputs.
- The iframe shows only import errors and missing exports
  (packages/runtime/src/playground/iframeClient.ts:31-59). `root.render` schedules the
  render and does not throw at the call, so an error raised while rendering is not caught
  there.
- The TypeScript prototype scanner compares the compiler's file names, which always use
  `/`, with a source directory written with the platform separator
  (packages/plugin/src/scanner.ts:36,50). On Windows no file passes (see Findings). That is
  `ScannerTs.ScanAsWritten`; `ScannerTs.AnalyzeFile`, `ScannerTs.ScanProgram` and
  `ScannerTs.Scan` use the filter with both sides written with `/`.

## Model

| member | source | states |
|---|---|---|
| ManifestSchema.Widen | packages/plugin/src/manifest.ts:15-19 | a prop definition from the prototype scanners becomes a base definition, never an enum: string, number and boolean become exactly the definitions of the same kind, and a union exactly a union with the same options |
| ManifestSchema.WidenKeepsJson | packages/plugin/src/manifest.ts:15-19 | the JSON of a widened definition has the scanned kind as its `type`, and an `options` field exactly for unions, holding the scanned options in order |
| ManifestValidator.ValidateBasePropDef | packages/runtime/src/manifest.ts:27-66 | accepted exactly when the value is an object with a supported `type`, and option kinds have an all-string `options` array; a non-object is rejected; an unknown type is rejected with a message containing "unsupported type"; the result's tag is the `type` field, its options are the `options` array in order, and an enum's name is kept only when it is a string |
| ManifestValidator.ValidatePropDef | packages/runtime/src/manifest.ts:68-92 | an `array` without `element` is rejected with a message mentioning the element definition; an array of arrays is always rejected; otherwise an array prop is its element validated as a base definition under `name[]`, and any other prop is a base definition |
| ManifestValidator.ValidateProps | packages/runtime/src/manifest.ts:114-117 | succeeds exactly when every prop value is acceptable; the resulting record has distinct keys, keeps the earlier keys and contains every prop name |
| ManifestValidator.ValidatedEach | packages/runtime/src/manifest.ts:114-117 | each prop under its name with its definition validated under the component's name, in order; it succeeds exactly when every prop is acceptable |
| ManifestValidator.PropsPointwise | packages/runtime/src/manifest.ts:114-117 | for distinct prop names not already present, a successful loop appends exactly those validated props, in order, to what was there |
| ManifestValidator.ValidateComponentDef | packages/runtime/src/manifest.ts:94-125 | accepted exactly when name and path are non-empty strings, `isDefaultExport` is a boolean and `props` is absent, null or an object map of acceptable props; on success name, path and flag are copied and every prop name is kept |
| ManifestValidator.ComponentPropsPointwise | packages/runtime/src/manifest.ts:94-125 | an accepted component with distinct prop names stores, at each position, the prop's name with its definition validated under the component's name |
| ManifestValidator.ValidateComponents | packages/runtime/src/manifest.ts:145-147 | mapping the component validator succeeds exactly when every component is acceptable, and keeps the count |
| ManifestValidator.ComponentsPointwise | packages/runtime/src/manifest.ts:145-147 | on success the i-th result is the i-th component validated with index i |
| ManifestValidator.ComponentsFirstFailure | packages/runtime/src/manifest.ts:145-147 | on failure the error is the one of the first rejected component, validated with its own index, and every earlier component was accepted |
| ManifestValidator.ValidateManifest | packages/runtime/src/manifest.ts:131-153 | a non-object, a version other than "1" or a non-array `components` is rejected; success exactly for acceptable payloads; the result is well formed and holds the components in order, each validated with its index |
| ManifestRoundTrip.OptionRoundTrip | packages/runtime/src/manifest.ts:49-65 | a union or enum definition written as JSON validates back to itself |
| ManifestRoundTrip.PrimitiveRoundTrip | packages/runtime/src/manifest.ts:37-47 | a string, number or boolean definition written as JSON validates back to itself |
| ManifestRoundTrip.BaseRoundTrip | packages/runtime/src/manifest.ts:27-66 | every base definition written as JSON validates back to itself |
| ManifestRoundTrip.PropRoundTrip | packages/runtime/src/manifest.ts:68-92 | every prop definition, array or not, written as JSON validates back to itself |
| ManifestRoundTrip.PropsRoundTrip | packages/runtime/src/manifest.ts:114-117 | a props record with distinct keys written as JSON validates back to the same record, in order |
| ManifestRoundTrip.ComponentRoundTrip | packages/runtime/src/manifest.ts:94-125 | a well-formed component written as JSON validates back to itself |
| ManifestRoundTrip.ComponentsRoundTrip | packages/runtime/src/manifest.ts:145-147 | a list of well-formed components written as JSON validates back to the same list |
| ManifestRoundTrip.ManifestRoundTrip | packages/runtime/src/manifest.ts:131-153 | a well-formed manifest written as JSON validates back to itself |
| ManifestRoundTrip.ValidateIdempotent | packages/runtime/src/manifest.ts:131-153 | validating the JSON of a validated manifest gives the same manifest again |
| ManifestRoundTrip.PrototypeOutputRejected | packages/runtime/src/manifest.ts:138-141 | the output of the prototype scanners, which has no version, is always rejected |
| ScannerJs.EntryFilesExactly | packages/plugin/src/scanner.js:4-24 | a path is found under one directory entry exactly when it lies below the directory and is reachable through readable directories other than `node_modules`, ending in a `.ts`/`.tsx` file |
| ScannerJs.FindInExactly | packages/plugin/src/scanner.js:4-24 | the same for a whole listing: unreadable directories contribute nothing, and the walk goes on |
| ScannerJs.FindInConcat | packages/plugin/src/scanner.js:8-18 | files are found in entry order: the files of two listings in a row are those of the first, then those of the second |
| ScannerJs.FindComponentFiles | packages/plugin/src/scanner.js:4-24 | an unreadable source directory gives no file; otherwise a path is found exactly when it lies below the directory and is reachable through readable directories other than `node_modules`, ending in a `.ts`/`.tsx` file; FindInConcat fixes the order |
| ScannerJs.WithoutNullish | packages/plugin/src/scanner.js:28 | no null or undefined arm remains, and a union without such arms is unchanged |
| ScannerJs.WithoutNullishConcat | packages/plugin/src/scanner.js:28 | removing nullish arms from two lists of arms in a row is removing them from each, in order |
| ScannerJs.WithoutNullishOne | packages/plugin/src/scanner.js:28 | a single arm is kept exactly when it is neither null nor undefined |
| ScannerJs.NonNullable | packages/plugin/src/scanner.js:28 | the non-nullable type is never null or undefined; null and undefined become `never`, any other non-union is unchanged, and a union becomes `never`, its one remaining arm, or the union of its two or more remaining arms |
| ScannerJs.NoSurvivors | packages/plugin/src/scanner.js:28 | a union of only nullish arms leaves no arm |
| ScannerJs.ParsePropType | packages/plugin/src/scanner.js:27-52 | string, number and boolean are recognised after removing null/undefined; a union becomes a union definition exactly when it has at least one arm and all arms are string literals, with the literals as options in order |
| ScannerJs.OptionalClassifiesAsBase | packages/plugin/src/scanner.js:27-34 | an optional string, number or boolean classifies like the plain type |
| ScannerJs.ClassifiedEmpty | packages/plugin/src/scanner.js:63-71 | no prop survives exactly when no property classifies |
| ScannerJs.CollectIsClassified | packages/plugin/src/scanner.js:63-70 | collecting props into an object of unseen names appends the classifiable properties, in order, each with its definition |
| ScannerJs.CollectFromEmpty | packages/plugin/src/scanner.js:62-70 | starting from the empty object, the props are exactly the classifiable properties in order |
| ScannerJs.CollectNonEmpty | packages/plugin/src/scanner.js:62-71 | the collected object is non-empty exactly when it was already or some property classifies |
| ScannerJs.CollectProps | packages/plugin/src/scanner.js:62-70 | characterised by CollectIsClassified and CollectFromEmpty: from unseen names it appends exactly the classifiable properties, in order, with their definitions |
| ScannerJs.GetPropsOfComponent | packages/plugin/src/scanner.js:53-72 | props exist exactly when there is one annotated parameter with a classifiable property; they are then non-empty and, for distinct names, the classifiable properties in order |
| ScannerJs.VisitConcat | packages/plugin/src/scanner.js:80-112 | visiting statements in a row is visiting the first, then the rest from where it ended |
| ScannerJs.LaterExportWins | packages/plugin/src/scanner.js:80-112 | a resolvable default export after any statements decides the component |
| ScannerJs.OnlyExportsCount | packages/plugin/src/scanner.js:80-112 | statements without a default export anywhere inside them change nothing |
| ScannerJs.Visit | packages/plugin/src/scanner.js:80-112 | characterised by VisitConcat, LaterExportWins and OnlyExportsCount: a left-to-right walk in which the last resolvable default export decides |
| ScannerJs.VisitNode | packages/plugin/src/scanner.js:80-112 | characterised by LaterExportWins and OnlyExportsCount: an export node with a resolution replaces what was found, other nodes are walked into |
| ScannerJs.GetComponentDef | packages/plugin/src/scanner.js:73-124 | a component exists exactly when a default-exported function has props; its props are those, its name is the declared one or the file's base name without extension, and its path is the root-relative path with `/` for `\` |
| ScannerJs.FileOutcome | packages/plugin/src/scanner.js:136-144 | a file without a source file, or whose analysis throws, gives nothing; a component has props and a backslash-free path |
| ScannerJs.ScanFiles | packages/plugin/src/scanner.js:134-146 | at most one component per file, each with props and a backslash-free path; every file that yields a component contributes it |
| ScannerJs.ScanFilesFromFiles | packages/plugin/src/scanner.js:134-146 | every component is the outcome of one of the files |
| ScannerJs.ScanFilesConcat | packages/plugin/src/scanner.js:135-145 | components come in file order |
| ScannerJs.ThrowingFileSkipped | packages/plugin/src/scanner.js:136-144 | a file whose analysis throws is skipped and the others are scanned as without it |
| ScannerJs.Scan | packages/plugin/src/scanner.js:125-147 | the components are the per-file outcomes, in order, of the files discovered under the source directory as compiled together; no more than those files, each with props and a backslash-free path |
| ScannerTs.WalkFailsExactly | packages/plugin/src/scanner.ts:24-31 | the walk fails exactly when an unreadable directory is reachable |
| ScannerTs.Walk | packages/plugin/src/scanner.ts:24-31 | characterised by WalkFailsExactly and WalkExactly: it throws exactly when an unreadable directory is reachable, and otherwise finds exactly the source-named non-directory entries below the directory, through every readable directory including `node_modules` |
| ScannerTs.WalkEntryExactly | packages/plugin/src/scanner.ts:26-30 | a successful walk of one entry finds a path exactly when it names a source-named file or other non-directory entry (line 29 keeps every non-directory) or lies below a readable directory the entry names |
| ScannerTs.WalkExactly | packages/plugin/src/scanner.ts:24-31 | a successful walk finds a path exactly when it lies below the walked directory and `WalkDiscoverable` reaches it: any directory name, `node_modules` included, leads on, and any source-named entry that is not a directory, sockets and other special entries included, ends the path |
| ScannerTs.WalkAgreesWithFind | packages/plugin/src/scanner.ts:24-31 | without unreadable directories or `node_modules`, both prototypes find the same files in the same order |
| ScannerTs.WalkFindsAtLeast | packages/plugin/src/scanner.ts:24-31 | every file the other prototype finds, a successful walk finds too |
| ScannerTs.NodeModulesDescended | packages/plugin/src/scanner.ts:24-31 | one concrete listing that separates the prototypes: for a `node_modules` directory holding one source file, this walk returns that file and the other prototype returns nothing (the general statement is WalkExactly against ScannerJs.FindInExactly) |
| ScannerTs.LiteralOptions | packages/plugin/src/scanner.ts:81 | the string-literal arms are kept in order, and all arms survive exactly when all are literals |
| ScannerTs.TypeToPropDef | packages/plugin/src/scanner.ts:76-87 | string, number and boolean are recognised only as such, with no null stripping; a union becomes a union definition exactly when all arms are string literals, with the literals in order |
| ScannerTs.OptionalPropDropped | packages/plugin/src/scanner.ts:76-87 | an optional primitive has no definition here, while the other prototype classifies it |
| ScannerTs.ClassifiersAgree | packages/plugin/src/scanner.ts:76-87 | on types without nullish parts whose unions have two or more arms (the only unions the compiler builds), none of them nullish, the two classifiers agree |
| ScannerTs.FirstDefaultFunction | packages/plugin/src/scanner.ts:51-55 | the candidate is the first exported default function, and there is none exactly when no statement is one |
| ScannerTs.AnalyzeFile | packages/plugin/src/scanner.ts:50-70 | a file gives a component exactly when its name starts with the source directory and its first default function has a first parameter of a resolved type reference; the name is the base name without extension, the path root-relative with `/`, and the props are the classifiable properties, possibly none |
| ScannerTs.AnalyzeSelected | packages/plugin/src/scanner.ts:51-70 | for a file past the filter: a component exactly when the first default function has a first parameter of a resolved type reference; base name without extension, root-relative `/` path, and the classifiable properties as props |
| ScannerTs.AnalyzeFileAsWritten | packages/plugin/src/scanner.ts:36-70 | as written: a component only for a file passing the platform-separator filter, none at all with `\`, and the corrected iteration with `/` |
| ScannerTs.ScanProgram | packages/plugin/src/scanner.ts:49-71 | at most one component per file, each backslash-free; every file that yields a component contributes it |
| ScannerTs.ScanProgramFromFiles | packages/plugin/src/scanner.ts:49-71 | every component is the analysis of one of the program's files |
| ScannerTs.ScanProgramConcat | packages/plugin/src/scanner.ts:49-71 | components come in program file order |
| ScannerTs.OutsideFilesIgnored | packages/plugin/src/scanner.ts:50 | a file outside the source directory changes nothing |
| ScannerTs.InSourceDirAsWritten | packages/plugin/src/scanner.ts:36-50 | characterised by WindowsRejectsEveryFile and PosixSeparatorAgrees: false for every file with `\`, the `/`-form filter with `/` |
| ScannerTs.InSourceDir | packages/plugin/src/scanner.ts:50 | characterised by InsideFilesPass and SiblingDirectoryPasses: every file below the directory passes, and so does a sibling whose name extends the directory's |
| ScannerTs.WindowsRejectsEveryFile | packages/plugin/src/scanner.ts:36-50 | as written, with the `\` separator no compiler file name starts with the resolved source directory |
| ScannerTs.PosixSeparatorAgrees | packages/plugin/src/scanner.ts:36-50 | with the `/` separator the filter as written is the one with both sides in `/` form |
| ScannerTs.InsideFilesPass | packages/plugin/src/scanner.ts:50 | every file below the source directory passes the filter whose sides are both written with `/`, whatever the platform separator |
| ScannerTs.SiblingDirectoryPasses | packages/plugin/src/scanner.ts:50 | the string-prefix filter also lets through a sibling directory such as `src2` next to `src` |
| ScannerTs.Scan | packages/plugin/src/scanner.ts:34-73 | the scan fails exactly when the walk fails; otherwise it is the per-file selection over the compiled program |
| ScannerTs.ScanProgramAsWritten | packages/plugin/src/scanner.ts:49-71 | as written: no component with `\`, the corrected loop with `/` |
| ScannerTs.ScanAsWritten | packages/plugin/src/scanner.ts:34-73 | as written: it fails exactly when the walk fails, a successful scan with `\` has no component, and with `/` it is the corrected scan |
| Controls.NonEmptyTrimmed | packages/runtime/src/playground/Controls.tsx:193-194 | the kept parts are trimmed and non-empty, and no more than the pieces |
| Controls.NonEmptyTrimmedPlain | packages/runtime/src/playground/Controls.tsx:191-194 | pieces without commas give non-empty, trimmed, comma-free parts |
| Controls.NonEmptyTrimmedConcat | packages/runtime/src/playground/Controls.tsx:193-194 | trimming and filtering two lists of pieces in a row is doing it to each, in order |
| Controls.NonEmptyTrimmedOne | packages/runtime/src/playground/Controls.tsx:193-194 | one piece is kept, trimmed, exactly when its trim is not empty |
| Controls.Parts | packages/runtime/src/playground/Controls.tsx:191-194 | every part is non-empty, trimmed and comma-free |
| Controls.PartsConcat | packages/runtime/src/playground/Controls.tsx:191-194 | the parts of text around a comma are the parts of the text before it followed by those of the text after it |
| Controls.PartsOne | packages/runtime/src/playground/Controls.tsx:191-194 | comma-free text is a single part, its trim, unless that is empty |
| Controls.Converted | packages/runtime/src/playground/Controls.tsx:196-211 | every kept item is of the element's kind, an option item is one of the options, and text items come from the parts |
| Controls.ConvertedKeeps | packages/runtime/src/playground/Controls.tsx:196-211 | every part that converts appears in the result |
| Controls.ConvertedConcat | packages/runtime/src/playground/Controls.tsx:196-211 | converting two lists of parts in a row is converting each, in order |
| Controls.ConvertedOne | packages/runtime/src/playground/Controls.tsx:196-211 | one part is kept exactly when it converts, as its conversion |
| Controls.Convert | packages/runtime/src/playground/Controls.tsx:196-211 | a converted part fits the element; text is kept as it is; a number part converts exactly when the number parser accepts it; an option part converts, to itself, exactly when it is one of the options |
| Controls.FlagsIgnoreCase | packages/runtime/src/playground/Controls.tsx:201-205 | a part is a flag exactly when its lower-case form is `true` or `false`, it is the flag that form names, and parts differing only in case give the same result |
| Controls.MixedCaseFlags | packages/runtime/src/playground/Controls.tsx:201-205 | an example: the parts `True`, `no`, `FALSE` give the flags true and false |
| Controls.TextElementKeepsParts | packages/runtime/src/playground/Controls.tsx:209-210 | for a string element the result is exactly the parts, in order |
| Controls.ParseArrayInput | packages/runtime/src/playground/Controls.tsx:187-212 | every item fits the element, option items are options, and text items are parts of the input |
| Controls.ParseArrayInputConcat | packages/runtime/src/playground/Controls.tsx:187-212 | the items of text around a comma are the items of the text before it followed by those of the text after it |
| Controls.ParseArrayInputOne | packages/runtime/src/playground/Controls.tsx:187-212 | comma-free text gives its trim, converted, when that is not empty and converts, and nothing otherwise |
| Controls.DescribeArrayElement | packages/runtime/src/playground/Controls.tsx:214-228 | the hint starts with "Allowed values: " exactly for unions and enums, followed by the options joined by ", "; strings, numbers and booleans get their fixed sentences ("Comma-separated text values", "Comma-separated numbers", "Comma-separated true/false values") |
| Controls.SerializedValue | packages/runtime/src/playground/Controls.tsx:160-162 | a non-array and the empty array display as the empty string, a one-item array as its item; ArrayRoundTrip shows the display parses back |
| Controls.JoinCommaSpace | packages/runtime/src/playground/Controls.tsx:160-162 | joining with ", " is joining with "," after a space is put before every item but the first |
| Controls.TrimSpaced | packages/runtime/src/playground/Controls.tsx:193-194 | space-prefixed plain items trim back to themselves |
| Controls.PartsOfJoined | packages/runtime/src/playground/Controls.tsx:160-194 | splitting the ", "-joined display of plain items gives the items back |
| Controls.ConvertShown | packages/runtime/src/playground/Controls.tsx:196-211 | an item that converts back from its display is recovered |
| Controls.ConvertedShown | packages/runtime/src/playground/Controls.tsx:196-211 | a list of such items is recovered from their displays |
| Controls.ArrayRoundTrip | packages/runtime/src/playground/Controls.tsx:160-212 | parsing the displayed value of an array of such items gives the array back |
| Controls.ReparseStable | packages/runtime/src/playground/Controls.tsx:160-212 | for non-number elements, parsing the display of a parse result gives the same result |
| Controls.ParsedItemRoundTrips | packages/runtime/src/playground/Controls.tsx:196-211 | a fitting plain text item or a flag survives display and conversion |
| Controls.DescribedOptions | packages/runtime/src/playground/Controls.tsx:222-224 | the option list in the hint parses back to the options |
| Controls.BlankSplit | packages/runtime/src/playground/Controls.tsx:192 | blank input splits into blank pieces |
| Controls.BlankPiecesVanish | packages/runtime/src/playground/Controls.tsx:193-194 | blank pieces leave no part |
| Controls.BlankInputGivesNothing | packages/runtime/src/playground/Controls.tsx:191-194 | blank or comma-only input gives an empty list for every element kind |
| Plugin.ResolveId | packages/plugin/src/index.ts:110-114 | exactly the virtual module id resolves, to the id with a leading NUL |
| Plugin.Load | packages/plugin/src/index.ts:119-124 | only the resolved id loads, to "export default " followed by the manifest JSON; other ids leave the state alone |
| Plugin.GetManifest | packages/plugin/src/index.ts:83-102 | the scanner is created once, from the options; with a server every call scans; without one the first call scans and caches, and later calls return the cache |
| Plugin.ConfigureServer | packages/plugin/src/index.ts:131-135 | a server is recorded, and scanner and cache are kept |
| Plugin.BuildModeMemoises | packages/plugin/src/index.ts:98-101 | without a server a second call returns the first manifest without scanning |
| Plugin.DevModeRescans | packages/plugin/src/index.ts:94-96 | with a server every call returns a fresh scan |
| Plugin.ScannerCreatedOnce | packages/plugin/src/index.ts:84-91 | the scanner survives later calls, and it receives only the user patterns |
| Plugin.LoadedManifestValidates | packages/plugin/src/index.ts:119-124 | the served JSON validates, in the runtime, back to the served manifest |
| Plugin.Dedup | packages/plugin/src/index.ts:58-60 | distinct entries, the same members, in order of first occurrence |
| Plugin.IgnorePatterns | packages/plugin/src/index.ts:57-60 | the merged list is distinct and holds exactly the default and user patterns |
| Plugin.DedupOfDistinct | packages/plugin/src/index.ts:58-60 | a list without repeats is unchanged |
| Plugin.DefaultsFirst | packages/plugin/src/index.ts:57-60 | the de-duplicated defaults come first |
| Plugin.RelativeUsesSlashes | packages/plugin/src/index.ts:219-222 | a path below the root becomes its segments joined by `/` |
| Plugin.RootGivesBaseName | packages/plugin/src/index.ts:219-222 | the root itself falls back to its base name |
| Plugin.AbsoluteToRelative | packages/plugin/src/index.ts:219-222 | characterised by RelativeUsesSlashes and RootGivesBaseName: the segments below the root joined by `/`, or the base name for the root itself |
| Plugin.ShouldIgnore | packages/plugin/src/index.ts:207-217 | characterised by UserPatternSilences and SourceChangeInvalidates: a file is ignored exactly when some merged pattern matches its root-relative path |
| Plugin.WatcherInvalidates | packages/plugin/src/index.ts:188-202 | an invalidation needs the virtual module in the graph, a path starting with the source directory and ending in `.tsx` or `.ts`, and no matching ignore pattern |
| Plugin.UserPatternSilences | packages/plugin/src/index.ts:188-193 | a file matched by a user pattern never invalidates |
| Plugin.SourceChangeInvalidates | packages/plugin/src/index.ts:188-202 | a `.ts`/`.tsx` file below the source directory that no pattern matches invalidates when the module is in the graph |
| Plugin.FormatLogMessage | packages/plugin/src/index.ts:264-270 | "[rplite] " then the message, then a space and the context JSON exactly when a context is given |
| Protocol.TypeDecidesKind | packages/runtime/src/playground/iframeClient.ts:15-61 | the `type` field alone tells render, unmount and ready messages apart |
| Preview.SendRender | packages/runtime/src/playground/Preview.tsx:76-87 | one render message exactly when the window exists, a component is selected and the iframe is ready, carrying that component and the props |
| Preview.Mount | packages/runtime/src/playground/Preview.tsx:89-102 | the first render posts nothing and starts not ready |
| Preview.Update | packages/runtime/src/playground/Preview.tsx:89-102 | an unmount exactly when ready and the path changed, and it comes first; a render, last, exactly when ready, selected and the path or props object changed; nothing before ready |
| Preview.OnMessageAsWritten | packages/runtime/src/playground/Preview.tsx:55-71 | the ready flag is set only by the ready message from the iframe's own window; that message posts exactly one render, of the component and props selected at mount, when one was selected, and nothing else posts |
| Preview.OnMessage | packages/runtime/src/playground/Preview.tsx:55-64 | the same flag rule, and the ready message posts one render of the current selection |
| Preview.Step | packages/runtime/src/playground/Preview.tsx:55-102 | characterised by StepRendersCurrent, SwitchUnmountsFirst and SameFileNoUnmount: a re-render runs the effects, a message runs the corrected listener |
| Preview.Run | packages/runtime/src/playground/Preview.tsx:55-102 | characterised by SilentUntilReady and StaysReady: nothing is posted or queued before the ready message, and once ready the controller stays ready |
| Preview.SilentUntilReady | packages/runtime/src/playground/Preview.tsx:76-87 | before the ready message nothing is posted and nothing is kept for later |
| Preview.StaysReady | packages/runtime/src/playground/Preview.tsx:61 | once ready, always ready |
| Preview.StepRendersCurrent | packages/runtime/src/playground/Preview.tsx:76-102 | every render the corrected controller posts carries its current inputs |
| Preview.SwitchUnmountsFirst | packages/runtime/src/playground/Preview.tsx:89-102 | switching file while ready posts the unmount, then the render |
| Preview.SameFileNoUnmount | packages/runtime/src/playground/Preview.tsx:89-102 | a new props object on the same path re-renders without an unmount |
| Preview.StaleReadyRender | packages/runtime/src/playground/Preview.tsx:55-71 | as written, switching component before ready makes the ready message render the old component |
| Preview.CorrectedReadyRender | packages/runtime/src/playground/Preview.tsx:55-64 | the corrected listener renders the new component in that situation |
| IframeClient.Boot | packages/runtime/src/playground/iframeClient.ts:71 | at startup there is no root and one ready message is posted |
| IframeClient.Rendered | packages/runtime/src/playground/iframeClient.ts:31-59 | an import failure shows its message; the component is shown with the sent props exactly when the `default` or named export is truthy; otherwise "Component not found at /" and the path is shown |
| IframeClient.Handle | packages/runtime/src/playground/iframeClient.ts:11-68 | a render with a `#root` element leaves a root showing the outcome; without one, and for unknown messages, nothing changes; an unmount clears the root |
| IframeClient.RenderForgetsPast | packages/runtime/src/playground/iframeClient.ts:22-39 | after a render a root exists, and what it shows does not depend on what came before |
| IframeClient.UnmountIdempotent | packages/runtime/src/playground/iframeClient.ts:61-67 | unmounting twice is unmounting once, and with no root it changes nothing |
| IframeClient.ExportLookup | packages/runtime/src/playground/iframeClient.ts:33-48 | the looked-up export is shown with its props; a missing one shows the not-found text naming the path |
| IframeClient.SwitchShowsNewComponent | packages/runtime/src/playground/iframeClient.ts:11-68 | the unmount-then-render pair of a component switch leaves the new component's outcome on screen |
| IframeClient.HandleAll | packages/runtime/src/playground/iframeClient.ts:11-68 | characterised by SwitchShowsNewComponent: handling an unmount and then a render leaves the new component's outcome on screen |

## Left out

- The TypeScript compiler, its type checker and the resolution of an exported identifier to its declaration are foreign code. Their answers are input datatypes.
- `fs` and `path` are I/O. Directory listings are trees with an unreadable case, and paths are segment sequences. Symbolic links and `..` inside listings are not modelled.
- `Options.srcDir` stands for the already resolved source directory `resolvedSrcDir` (packages/plugin/src/index.ts:54-56): the `'src'` default and the `path.resolve` against the project root are not modelled, and the plugin's members take the resolved path as given.
- The glob matcher is foreign code and is a parameter.
- Vite's dev-server middleware, HTML template, websocket reload and module graph are I/O. Only the invalidation decision is kept.
- The console and Vite loggers are I/O. Only `formatLogMessage` is modelled.
- The scanner that `packages/plugin/src/index.ts` imports (with default ignore patterns, enums and arrays) is not part of this model. The plugin takes the scan result as an input.
- Number parsing, `NaN` and number display in the array control are floating point. They are the parameters `toNumber` and `showNumber`. That is why the round-trip lemmas for number elements assume their items survive the display.
- `toLowerCase` is modelled for ASCII letters only.
- JavaScript orders integer-like object keys before the others. Records keep insertion order for every key.
- Records.Put: assigning the key `__proto__` on a plain JavaScript object calls the prototype setter and creates no own key. The model stores it as an ordinary key.
- ManifestValidator.ValidateProps: a prop named `__proto__` is kept here, while JavaScript drops it from the validated props (see Records.Put).
- ScannerJs.CollectProps: a property named `__proto__` is kept here, while JavaScript drops it from the collected props (see Records.Put).
- Plugin.LoadedManifestValidates: stated for the model's records, in which a `__proto__` prop is an ordinary key (see Records.Put).
- Props reach the iframe as JSON values. Non-JSON props are not modelled.
- React rendering, hook scheduling, the DOM and `postMessage` transport are the UI and asynchronous runtime. Only the message-level state machines are kept. Messages posted during the iframe's `await import()` are not interleaved.
- An exception thrown while React renders the component is not modelled, because `root.render` schedules the render and does not throw at the call.
- `PropControl` for non-array kinds, `Controls`, `Playground.tsx` and `devEntry.tsx` are UI or bootstrap code.
- ScannerTs.ScanProgram: that every component comes from some analysed file is proved separately, in ScanProgramFromFiles.
- ScannerJs.ScanFiles: that every component comes from some file is proved separately, in ScanFilesFromFiles.
- Controls.Converted: membership of each converted part in the result, and the order of the result, are proved separately, in ConvertedKeeps, ConvertedConcat and ConvertedOne.
- Controls.NonEmptyTrimmed: the order and completeness of the result are proved separately, in NonEmptyTrimmedConcat and NonEmptyTrimmedOne.
- Controls.Parts: the order and completeness of the parts are proved separately, in PartsConcat and PartsOne.
- Controls.ParseArrayInput: the order and completeness of the items are proved separately, in ParseArrayInputConcat and ParseArrayInputOne.
- ScannerJs.WithoutNullish: that exactly the non-nullish arms are kept, in order, is proved separately, in WithoutNullishConcat and WithoutNullishOne.
- ManifestValidator.ValidateProps: the definition stored under each prop name is proved separately, in PropsPointwise with ValidatedEach.
- ManifestValidator.ValidateComponentDef: the definition stored under each prop name is proved separately, in ComponentPropsPointwise.
- ScannerTs.AnalyzeFile: uses the corrected source-directory filter, which also passes files on Windows; the as-written iteration is AnalyzeFileAsWritten.
- ScannerTs.ScanProgram: uses the corrected filter through AnalyzeFile; the as-written loop is ScanProgramAsWritten.
- ScannerTs.Scan: uses the corrected filter; the as-written scan, which finds nothing on Windows, is ScanAsWritten.
- ScannerTs.InSourceDir: a drive prefix on Windows paths is not modelled; it is shared by both sides of the comparison.
- ManifestValidator.ValidateComponents: the pointwise and first-failure facts are proved separately, in ComponentsPointwise and ComponentsFirstFailure.
- Text.Trim: that the result is a slice of the input is proved separately, in TrimIsSlice.

## Findings

| source | as written | input that shows it | evidently intended | confidence | as-written member | corrected member |
|---|---|---|---|---|---|---|
| packages/runtime/src/playground/Preview.tsx:55-71 | the ready listener is registered once with no dependencies; it calls the `sendRenderMessage` of the first render, which holds the component and props selected at mount | mount with component `a`, switch to `b` (different path) before the iframe is ready, then the iframe's ready message arrives: the iframe is told to render `a` while `b` is selected | the ready message renders the current selection | not executed | Preview.OnMessageAsWritten, Preview.StaleReadyRender | Preview.OnMessage, Preview.StepRendersCurrent, Preview.CorrectedReadyRender |
| packages/plugin/src/scanner.ts:36-50 | a program file is kept when its name starts with the resolved source directory; the compiler writes file names with `/`, while `path.resolve` writes the directory with the platform separator | on Windows, source directory `C:\p\src` and compiler file `C:/p/src/A.tsx`: the test fails for every file and the scan returns no component | files below the source directory pass whatever the platform | medium, not executed | ScannerTs.InSourceDirAsWritten, ScannerTs.WindowsRejectsEveryFile, ScannerTs.ScanAsWritten | ScannerTs.InSourceDir, ScannerTs.InsideFilesPass, ScannerTs.PosixSeparatorAgrees |
