/** The message handler inside the preview iframe. Its state is the React
    root, if one exists, and what that root shows. Loading a module is a
    lookup from the requested path to what the import yields; the page's
    `#root` element is either there or not. */
module IframeClient {
  import opened Wrappers
  import opened ManifestSchema
  import opened Protocol
  import Records

  /** An export of a loaded module: a component, or a falsy value. */
  datatype ExportValue = ComponentExport(id: nat) | Falsy

  /** What `await import(path)` yields: the thrown error's message, or the
      module's named exports. */
  datatype ModuleLoad = ImportFails(message: string) | Loaded(exports: Records.Record<ExportValue>)

  /** What the root shows. */
  datatype Display =
    | Blank
    | ShowComponent(id: nat, props: Props)
    | ShowError(text: string)

  /** `root`: absent, or present and showing something. */
  datatype Surface = Surface(root: Option<Display>)

  const NOT_FOUND_PREFIX: string := "Component not found at "

  /** Startup: no root yet, and the ready message is posted to the parent
      window once. */
  function Boot(): (r: (Surface, seq<Message>))
    ensures r.0.root.None? && r.1 == [Ready]
  {
    (Surface(None), [Ready])
  }

  /** The URL a component is imported from. */
  function ModulePath(c: ComponentDef): string {
    "/" + c.path
  }

  /** The export rendered: `default` for a default export, otherwise the
      export named like the component. */
  function ExportName(c: ComponentDef): string {
    if c.isDefaultExport then "default" else c.name
  }

  /** A truthy export: `if (Component)` passes. */
  predicate IsComponent(e: Option<ExportValue>) {
    e.Some? && e.value.ComponentExport?
  }

  /** What a render request shows, given the import's outcome. */
  function Rendered(c: ComponentDef, props: Props, load: ModuleLoad): (d: Display)
    ensures load.ImportFails? ==> d == ShowError(load.message)
    ensures d.ShowComponent? <==> load.Loaded? && IsComponent(Records.Get(load.exports, ExportName(c)))
    ensures d.ShowComponent? ==>
              d.props == props && Records.Get(load.exports, ExportName(c)) == Some(ComponentExport(d.id))
    ensures load.Loaded? && !d.ShowComponent? ==> d == ShowError(NOT_FOUND_PREFIX + ModulePath(c))
    ensures d != Blank
  {
    match load
    case ImportFails(message) => ShowError(message)
    case Loaded(exports) =>
      var found := Records.Get(exports, ExportName(c));
      if found.Some? && found.value.ComponentExport? then ShowComponent(found.value.id, props)
      else ShowError(NOT_FOUND_PREFIX + ModulePath(c))
  }

  /** The `message` listener. A render needs the `#root` element; it
      creates the root when there is none and shows the outcome of the
      import. An unmount drops the root. Any other message is ignored. */
  function Handle(s: Surface, m: Message, hasRootElement: bool, modules: string -> ModuleLoad): (r: Surface)
    ensures m.Render? && hasRootElement ==>
              r.root == Some(Rendered(m.component, m.props, modules(ModulePath(m.component))))
    ensures m.Render? && !hasRootElement ==> r == s
    ensures m.Unmount? ==> r.root.None?
    ensures !m.Render? && !m.Unmount? ==> r == s
  {
    match m
    case Render(c, props) =>
      if !hasRootElement then s
      else Surface(Some(Rendered(c, props, modules(ModulePath(c)))))
    case Unmount => Surface(None)
    case _ => s
  }

  /** A handled render leaves a root in place, and what it shows does not
      depend on what was shown before. */
  lemma RenderForgetsPast(s1: Surface, s2: Surface, m: Message, modules: string -> ModuleLoad)
    requires m.Render?
    ensures Handle(s1, m, true, modules) == Handle(s2, m, true, modules)
    ensures Handle(s1, m, true, modules).root.Some?
  {
  }

  /** Unmounting twice is unmounting once; with no root it changes
      nothing. */
  lemma UnmountIdempotent(s: Surface, hasRootElement: bool, modules: string -> ModuleLoad)
    ensures Handle(Handle(s, Unmount, hasRootElement, modules), Unmount, hasRootElement, modules)
            == Handle(s, Unmount, hasRootElement, modules)
    ensures s.root.None? ==> Handle(s, Unmount, hasRootElement, modules) == s
  {
  }

  /** A component exported under the looked-up name is shown with the
      props it was sent; a module without it shows the not-found text
      naming the path. */
  lemma ExportLookup(c: ComponentDef, props: Props, exports: Records.Record<ExportValue>, id: nat)
    ensures Records.Get(exports, ExportName(c)) == Some(ComponentExport(id)) ==>
              Rendered(c, props, Loaded(exports)) == ShowComponent(id, props)
    ensures !Records.HasKey(exports, ExportName(c)) ==>
              Rendered(c, props, Loaded(exports)) == ShowError("Component not found at /" + c.path)
  {
    assert NOT_FOUND_PREFIX + ModulePath(c) == "Component not found at /" + c.path;
  }

  /** Handles the messages in order. */
  function HandleAll(s: Surface, ms: seq<Message>, hasRootElement: bool, modules: string -> ModuleLoad): Surface
    decreases |ms|
  {
    if |ms| == 0 then s else HandleAll(Handle(s, ms[0], hasRootElement, modules), ms[1..], hasRootElement, modules)
  }

  /** Whatever the iframe showed, the controller's messages for a switch
      of component (an unmount, then a render) leave it showing the new
      component's import outcome. */
  lemma SwitchShowsNewComponent(s: Surface, c: ComponentDef, props: Props, modules: string -> ModuleLoad)
    ensures HandleAll(s, [Unmount, Render(c, props)], true, modules).root
            == Some(Rendered(c, props, modules(ModulePath(c))))
  {
    var s1 := Handle(s, Unmount, true, modules);
    assert [Unmount, Render(c, props)][1..] == [Render(c, props)];
    assert HandleAll(s1, [Render(c, props)], true, modules) == HandleAll(Handle(s1, Render(c, props), true, modules), [], true, modules);
  }
}
