/** The controller side of the preview protocol (the `Preview` component).
    Each re-render of the component with new inputs is one step: React runs
    the unmount effect and then the render effect, each only when one of
    its dependencies changed. Messages posted to the iframe are collected
    in order. The ready listener is registered once at mount; as written
    it renders what the component held at mount time, and `OnMessage` is
    the corrected listener that renders the current selection. */
module Preview {
  import opened Wrappers
  import opened ManifestSchema
  import opened Protocol

  /** The props object with the identity React compares dependencies by:
      a new object is a change even when its contents are equal. */
  datatype PropsRef = PropsRef(identity: nat, values: Props)

  /** The component's inputs: the selected definition, if any, and the
      props. */
  datatype View = View(component: Option<ComponentDef>, props: PropsRef)

  /** `component?.path`, the dependency of both effects. */
  function PathOf(v: View): Option<string> {
    if v.component.Some? then Some(v.component.value.path) else None
  }

  /** Browser windows are compared by identity. */
  type WindowId = nat

  /** `isReadyRef`, the inputs of the latest render, and those of the
      first render, which the mount-time listener closed over. */
  datatype Controller = Controller(ready: bool, view: View, mounted: View)

  /** `sendRenderMessage()` for the inputs `v`: a render message only when
      the iframe has a window, a component is selected and the iframe has
      said it is ready. */
  function SendRender(v: View, hasWindow: bool, ready: bool): (out: seq<Message>)
    ensures |out| <= 1
    ensures |out| == 1 <==> hasWindow && v.component.Some? && ready
    ensures |out| == 1 ==> out[0] == Render(v.component.value, v.props.values)
  {
    if hasWindow && v.component.Some? && ready then [Render(v.component.value, v.props.values)] else []
  }

  /** The first render. Both effects run, but nothing is ready yet, so
      nothing is posted. */
  function Mount(v: View): (r: (Controller, seq<Message>))
    ensures !r.0.ready && r.0.view == v && r.0.mounted == v
    ensures r.1 == []
  {
    var c := Controller(false, v, v);
    var unmount := if c.ready then [Unmount] else [];
    (c, unmount + SendRender(v, true, c.ready))
  }

  /** A re-render with inputs `next`: the unmount effect when the path
      changed, then the render effect when the path or the props object
      changed. */
  function Update(c: Controller, next: View, hasWindow: bool): (r: (Controller, seq<Message>))
    ensures r.0 == c.(view := next)
    ensures !c.ready ==> r.1 == []
    ensures Unmount in r.1 <==> PathOf(c.view) != PathOf(next) && hasWindow && c.ready
    ensures Unmount in r.1 ==> r.1[0] == Unmount
    ensures forall i :: 0 <= i < |r.1| && r.1[i].Render? ==>
              next.component.Some? && r.1[i] == Render(next.component.value, next.props.values) && i == |r.1| - 1
    ensures (|r.1| > 0 && r.1[|r.1| - 1].Render?) <==>
              (PathOf(c.view) != PathOf(next) || c.view.props.identity != next.props.identity)
              && hasWindow && next.component.Some? && c.ready
  {
    var pathChanged := PathOf(c.view) != PathOf(next);
    var unmount := if pathChanged && hasWindow && c.ready then [Unmount] else [];
    var render := if pathChanged || c.view.props.identity != next.props.identity
                  then SendRender(next, hasWindow, c.ready) else [];
    (c.(view := next), unmount + render)
  }

  /** The ready listener as written: it marks the iframe ready and sends
      the render message of the mount-time inputs. */
  function OnMessageAsWritten(c: Controller, source: WindowId, data: Message, iframeWindow: Option<WindowId>)
    : (r: (Controller, seq<Message>))
    ensures r.0.ready <==> c.ready || (iframeWindow == Some(source) && data.Ready?)
    ensures r.0.view == c.view && r.0.mounted == c.mounted
    ensures r.1 != [] <==> iframeWindow == Some(source) && data.Ready? && c.mounted.component.Some?
    ensures r.1 != [] ==> r.1 == [Render(c.mounted.component.value, c.mounted.props.values)]
  {
    if iframeWindow == Some(source) && data.Ready? then
      (c.(ready := true), SendRender(c.mounted, true, true))
    else (c, [])
  }

  /** The ready listener corrected: it sends the render message of the
      current inputs. */
  function OnMessage(c: Controller, source: WindowId, data: Message, iframeWindow: Option<WindowId>)
    : (r: (Controller, seq<Message>))
    ensures r.0.ready <==> c.ready || (iframeWindow == Some(source) && data.Ready?)
    ensures r.0.view == c.view && r.0.mounted == c.mounted
    ensures r.1 != [] <==> iframeWindow == Some(source) && data.Ready? && c.view.component.Some?
    ensures r.1 != [] ==> r.1 == [Render(c.view.component.value, c.view.props.values)]
  {
    if iframeWindow == Some(source) && data.Ready? then
      (c.(ready := true), SendRender(c.view, true, true))
    else (c, [])
  }

  // ---------------------------------------------------------------------
  // Sequences of events.

  datatype Event =
    | Rerender(next: View, hasWindow: bool)
    | Incoming(source: WindowId, data: Message, iframeWindow: Option<WindowId>)

  /** The ready message from the iframe. */
  predicate IsReadySignal(e: Event) {
    e.Incoming? && e.iframeWindow == Some(e.source) && e.data.Ready?
  }

  function Step(c: Controller, e: Event): (Controller, seq<Message>) {
    match e
    case Rerender(next, hasWindow) => Update(c, next, hasWindow)
    case Incoming(source, data, iframeWindow) => OnMessage(c, source, data, iframeWindow)
  }

  /** Runs the events in order, collecting the posted messages. */
  function Run(c: Controller, events: seq<Event>): (Controller, seq<Message>)
    decreases |events|
  {
    if |events| == 0 then (c, [])
    else
      var first := Step(c, events[0]);
      var rest := Run(first.0, events[1..]);
      (rest.0, first.1 + rest.1)
  }

  /** Until the iframe says it is ready nothing is posted, and nothing is
      queued either: the controller stays not ready. */
  lemma {:induction false} SilentUntilReady(c: Controller, events: seq<Event>)
    requires !c.ready
    requires forall i :: 0 <= i < |events| ==> !IsReadySignal(events[i])
    ensures Run(c, events).1 == [] && !Run(c, events).0.ready
    decreases |events|
  {
    if |events| > 0 {
      var first := Step(c, events[0]);
      assert !IsReadySignal(events[0]);
      assert first.1 == [] && !first.0.ready;
      SilentUntilReady(first.0, events[1..]);
    }
  }

  /** Once ready, the controller stays ready. */
  lemma {:induction false} StaysReady(c: Controller, events: seq<Event>)
    requires c.ready
    ensures Run(c, events).0.ready
    decreases |events|
  {
    if |events| > 0 {
      StaysReady(Step(c, events[0]).0, events[1..]);
    }
  }

  /** Every render message the corrected controller posts carries the
      inputs it holds at that moment. */
  predicate RendersCurrent(c: Controller, out: seq<Message>) {
    forall i :: 0 <= i < |out| && out[i].Render? ==>
      c.view.component.Some? && out[i] == Render(c.view.component.value, c.view.props.values)
  }

  lemma StepRendersCurrent(c: Controller, e: Event)
    ensures RendersCurrent(Step(c, e).0, Step(c, e).1)
  {
  }

  /** Switching to another file while ready posts the unmount first and
      then the render of the new component. */
  lemma SwitchUnmountsFirst(c: Controller, next: View)
    requires c.ready && next.component.Some? && PathOf(c.view) != PathOf(next)
    ensures Update(c, next, true).1 == [Unmount, Render(next.component.value, next.props.values)]
  {
  }

  /** Two components of one file share a path: switching between them
      re-renders without unmounting. */
  lemma SameFileNoUnmount(c: Controller, next: View)
    requires c.ready && next.component.Some? && PathOf(c.view) == PathOf(next)
    requires c.view.props.identity != next.props.identity
    ensures Update(c, next, true).1 == [Render(next.component.value, next.props.values)]
  {
  }

  // ---------------------------------------------------------------------
  // The stale listener.

  /** As written, the ready listener renders the component that was
      selected at mount: select `a`, switch to `b` before the iframe is
      ready, and the iframe is told to render `a`. */
  lemma StaleReadyRender(a: ComponentDef, b: ComponentDef, p: PropsRef, q: PropsRef, w: WindowId)
    requires a.path != b.path
    ensures var m := Mount(View(Some(a), p));
            var u := Update(m.0, View(Some(b), q), true);
            var r := OnMessageAsWritten(u.0, w, Ready, Some(w));
            u.1 == [] && r.1 == [Render(a, p.values)] && r.0.view.component == Some(b)
            && !RendersCurrent(r.0, r.1)
  {
  }

  /** The corrected listener renders the current selection in the same
      situation. */
  lemma CorrectedReadyRender(a: ComponentDef, b: ComponentDef, p: PropsRef, q: PropsRef, w: WindowId)
    ensures var m := Mount(View(Some(a), p));
            var u := Update(m.0, View(Some(b), q), true);
            var r := OnMessage(u.0, w, Ready, Some(w));
            r.1 == [Render(b, q.values)] && RendersCurrent(r.0, r.1)
  {
  }
}
