/** How the event loop decides which handler, if any, an inbound frame
    reaches (processor.go:136-171, 200-236). Decoding JSON is not modelled:
    a frame arrives already decoded into the few keys the loop looks at. */
module Dispatch {
  import opened Configuration

  datatype Option<T> = None | Some(value: T)

  /** A decoded JSON value, as far as the loop can tell: a string, or
      anything else (null, number, object, ...). */
  datatype JsonValue = JString(s: string) | JOther

  /** The outcome of decoding a `user_change` frame's `user` field
      (processor.go:213-214). */
  datatype DecodedUser = Decoded(user: User) | DecodeError

  /** The keys of an inbound frame that the loop and the handlers read:
      whether `reply_to` is present, `subtype` and `type` when present, and
      what a `user_change` decode yields. */
  datatype Frame = Frame(
    hasReplyTo: bool,
    subtype: Option<JsonValue>,
    eventType: Option<JsonValue>,
    changedUser: DecodedUser)

  /** What `con.Read()` delivers: bytes that are not JSON, or a frame. */
  datatype Inbound = Malformed | Parsed(frame: Frame)

  /** The entries of the handler table built in `EventProcessor`. */
  datatype Handler = OnMessage | OnError | OnHello | OnUserChange

  /** The `type` each handler is registered under (processor.go:14-17). */
  function Tag(h: Handler): string {
    match h
    case OnMessage => "message"
    case OnError => "error"
    case OnHello => "hello"
    case OnUserChange => "user_change"
  }

  /** The handler-table lookup `p.eventHandlers[type]`: the handler
      registered under `tag`, if any. */
  function HandlerFor(tag: string): (h: Option<Handler>)
    ensures h.Some? ==> Tag(h.value) == tag
    ensures h.None? ==> forall g: Handler :: Tag(g) != tag
  {
    if tag == "message" then Some(OnMessage)
    else if tag == "error" then Some(OnError)
    else if tag == "hello" then Some(OnHello)
    else if tag == "user_change" then Some(OnUserChange)
    else None
  }

  /** Every handler is found under its own tag. */
  lemma HandlerForTag(h: Handler)
    ensures HandlerFor(Tag(h)) == Some(h)
  {
  }

  /** A message edit or deletion, which the loop never dispatches
      (processor.go:161-163). */
  predicate IsEditOrDelete(f: Frame) {
    f.subtype == Some(JString("message_changed")) || f.subtype == Some(JString("message_deleted"))
  }

  /** The type assertions `subtype.(string)` and `data["type"].(string)` of
      processor.go:162, 166 succeed: a present `subtype` is a string, and a
      frame that reaches the lookup has a string `type`. */
  predicate WellTyped(msg: Inbound): (ok: bool)
    ensures msg.Malformed? ==> ok
    ensures msg.Parsed? && msg.frame.hasReplyTo && msg.frame.subtype.None? ==> ok
    ensures msg.Parsed? && IsEditOrDelete(msg.frame) ==> ok
    ensures ok && msg.Parsed? && msg.frame.eventType.Some? && msg.frame.eventType.value.JOther? ==>
              msg.frame.hasReplyTo || IsEditOrDelete(msg.frame)
  {
    msg.Parsed? ==>
      && (msg.frame.subtype.Some? ==> msg.frame.subtype.value.JString?)
      && (!msg.frame.hasReplyTo && !IsEditOrDelete(msg.frame) ==>
            msg.frame.eventType.Some? && msg.frame.eventType.value.JString?)
  }

  /** The handler one pass of the event loop runs for `msg`, if any
      (processor.go:144-171). */
  function Route(msg: Inbound): (h: Option<Handler>)
    requires WellTyped(msg)
    ensures msg.Malformed? ==> h.None?
    ensures msg.Parsed? && msg.frame.hasReplyTo ==> h.None?
    ensures msg.Parsed? && IsEditOrDelete(msg.frame) ==> h.None?
    ensures h.Some? ==> msg.Parsed? && msg.frame.eventType == Some(JString(Tag(h.value)))
    ensures (&& msg.Parsed? && !msg.frame.hasReplyTo && !IsEditOrDelete(msg.frame)
             && exists g: Handler :: msg.frame.eventType == Some(JString(Tag(g)))) ==> h.Some?
  {
    match msg
    case Malformed => None
    case Parsed(f) =>
      if f.hasReplyTo || IsEditOrDelete(f) then None
      else HandlerFor(f.eventType.value.s)
  }
}
