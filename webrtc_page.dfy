/**
 * The module-level state of the WebRTC page (voice-agent-webrtc/src/main.ts):
 * the one session it may hold and the log element's HTML. Start and Stop are
 * the two button handlers; the SDK's connect call and the credential request
 * are parameters giving their outcome.
 */
module WebrtcPage {
  import opened Wrappers
  import opened Strings
  import opened JsValue
  import opened WebrtcLog

  /** The configuration a new session is created with. */
  datatype RealtimeSession = RealtimeSession(model: string, agentName: string, instructions: string)

  const PageSession: RealtimeSession :=
    RealtimeSession("gpt-4o-realtime-preview-2025-06-03", "Assistant", "You are a helpful voice assistant.")

  /**
   * `getClientKey()`: the JSON body of the credential response (`None` when
   * the request or the JSON parse fails) gives the key, or the error thrown.
   */
  function ClientKey(body: Option<Value>): (r: Result<Value>)
    ensures r.Ok? <==> body.Some? && Truthy(Get(body.value, "apiKey"))
    ensures r.Ok? ==> r.value == Get(body.value, "apiKey")
  {
    match body
    case None => Err("fetch failed")
    case Some(b) =>
      var key := Get(b, "apiKey");
      if !Truthy(key) then Err("No ephemeral key") else Ok(key)
  }

  class Page {
    var session: Option<RealtimeSession>
    var logHtml: string
    const stringify: Stringify

    constructor(stringify: Stringify)
      ensures session == None && logHtml == ""
      ensures this.stringify == stringify
    {
      session := None;
      logHtml := "";
      this.stringify := stringify;
    }

    /** `log(first, ...rest)`: one coloured line more in the log element. */
    method Log(first: Value, rest: seq<Value>)
      modifies this
      ensures session == old(session)
      ensures logHtml == old(logHtml) + Rendered(first, rest, stringify)
    {
      logHtml := logHtml + Rendered(first, rest, stringify);
    }

    /**
     * The start button: nothing happens while a session exists. Otherwise a
     * new session is set, and `connected` is logged once both the credential
     * request and the connect call succeed. A failure leaves the session set.
     */
    method Start(body: Option<Value>, connectOk: bool)
      modifies this
      ensures old(session).Some? ==> session == old(session) && logHtml == old(logHtml)
      ensures old(session).None? ==> session == Some(PageSession)
      ensures old(session).None? ==>
        logHtml == old(logHtml)
          + (if ClientKey(body).Ok? && connectOk then ColoredLine(Default, "connected") else "")
    {
      if session.Some? {
        return;
      }
      session := Some(PageSession);
      var key := ClientKey(body);
      if key.Err? || !connectOk {
        return;
      }
      Log(Str("connected"), []);
      LineTextOfStrings([Str("connected")], ["connected"], stringify);
    }

    /** The stop button: nothing happens without a session; otherwise it is closed and unset. */
    method Stop()
      modifies this
      ensures old(session).None? ==> session == None && logHtml == old(logHtml)
      ensures old(session).Some? ==>
        session == None && logHtml == old(logHtml) + ColoredLine(Session, "disconnected")
    {
      if session.None? {
        return;
      }
      session := None;
      Log(Str("session"), [Str("disconnected")]);
      RenderedTyped(Session, [Str("disconnected")], stringify);
      LineTextOfStrings([Str("disconnected")], ["disconnected"], stringify);
    }

    /** Delivers a handler's outcome: its log call is made, a skip or a thrown error logs nothing. */
    method Deliver(outcome: Result<Option<seq<Value>>>)
      modifies this
      ensures session == old(session)
      ensures outcome.Ok? && outcome.value.Some? && |outcome.value.value| > 0 ==>
        logHtml == old(logHtml) + Rendered(outcome.value.value[0], outcome.value.value[1..], stringify)
      ensures !(outcome.Ok? && outcome.value.Some? && |outcome.value.value| > 0) ==> logHtml == old(logHtml)
    {
      if outcome.Ok? && outcome.value.Some? && |outcome.value.value| > 0 {
        var args := outcome.value.value;
        Log(args[0], args[1..]);
      }
    }

    /**
     * A transport event reaches the wildcard handler: delta events, and events
     * whose type makes `includes` throw, leave the log as it was; any other is
     * logged in the transport colour.
     */
    method OnTransport(evt: Value)
      modifies this
      ensures session == old(session)
      ensures Get(evt, "type").Str? && Contains(Get(evt, "type").s, Delta) ==> logHtml == old(logHtml)
      ensures !(OnTransportAny(evt).Ok? && OnTransportAny(evt).value.Some?) ==> logHtml == old(logHtml)
      ensures OnTransportAny(evt).Ok? && OnTransportAny(evt).value.Some? ==>
        logHtml == old(logHtml)
          + ColoredLine(Transport, LineText([Str("transport"), TransportType(evt), evt], stringify))
    {
      TransportDeltaFilter(evt);
      var outcome := OnTransportAny(evt);
      Deliver(outcome);
      if outcome.Ok? && outcome.value.Some? {
        RenderedTyped(Transport, [Str("transport"), TransportType(evt), evt], stringify);
      }
    }
  }
}
