/** The messages the playground window and the preview iframe exchange.
    Each message is an object whose `type` field tells them apart; a render
    message also carries the component definition and its props. */
module Protocol {
  import opened ManifestSchema
  import opened Json
  import Records

  const RENDER_TYPE: string := "rplite-render"
  const UNMOUNT_TYPE: string := "rplite-unmount"
  const READY_TYPE: string := "rplite-iframe-ready"

  /** Props as the playground hands them over: named values. */
  type Props = Records.Record<JVal>

  /** A posted message. `Other` is any message whose `type` is none of
      the three above. */
  datatype Message =
    | Render(component: ComponentDef, props: Props)
    | Unmount
    | Ready
    | Other(messageType: string)
  {
    /** `event.data.type`. */
    function Type(): string {
      match this
      case Render(_, _) => RENDER_TYPE
      case Unmount => UNMOUNT_TYPE
      case Ready => READY_TYPE
      case Other(t) => t
    }
  }

  /** An `Other` message really has another type. */
  predicate WellTyped(m: Message) {
    m.Other? ==> m.messageType != RENDER_TYPE && m.messageType != UNMOUNT_TYPE && m.messageType != READY_TYPE
  }

  /** The type field decides the kind of a well-typed message. */
  lemma TypeDecidesKind(m: Message, n: Message)
    requires WellTyped(m) && WellTyped(n)
    requires m.Type() == n.Type()
    ensures m.Render? <==> n.Render?
    ensures m.Unmount? <==> n.Unmount?
    ensures m.Ready? <==> n.Ready?
  {
    assert RENDER_TYPE != UNMOUNT_TYPE && RENDER_TYPE != READY_TYPE && UNMOUNT_TYPE != READY_TYPE by {
      assert RENDER_TYPE[7] == 'r' && UNMOUNT_TYPE[7] == 'u' && READY_TYPE[7] == 'i';
    }
  }
}
