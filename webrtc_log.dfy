/**
 * The pure helpers of the WebRTC page (voice-agent-webrtc/src/main.ts):
 * `summarizeItem`, `normalizeError`, the log-type test and line rendering of
 * `log`, and the transport and session event handlers that filter `.delta`
 * events and cut previews. A handler is modelled by the argument list it
 * passes to `log`, or by the error it throws.
 * `JSON.stringify` is a parameter: `None` stands for a call that throws or
 * yields `undefined`.
 */
module WebrtcLog {
  import opened Wrappers
  import opened Strings
  import opened JsValue

  type Stringify = Value -> Option<string>

  // ---------------------------------------------------------------- summarizeItem

  /** `c?.text` for each content part, keeping the truthy ones, in order. */
  function TruthyTexts(parts: seq<Value>): (r: seq<Value>)
    ensures |r| <= |parts|
    ensures forall k :: 0 <= k < |r| ==> Truthy(r[k])
    ensures forall v :: v in r <==> exists k :: 0 <= k < |parts| && v == Get(parts[k], "text") && Truthy(v)
  {
    if |parts| == 0 then []
    else
      var t := Get(parts[0], "text");
      var rest := TruthyTexts(parts[1..]);
      assert forall k :: 0 < k < |parts| ==> parts[k] == parts[1..][k - 1];
      if Truthy(t) then [t] + rest else rest
  }

  /** The texts of two runs of parts are the first run's texts followed by the second's: order and repeats are kept. */
  lemma {:induction false} TruthyTextsConcat(a: seq<Value>, b: seq<Value>)
    ensures TruthyTexts(a + b) == TruthyTexts(a) + TruthyTexts(b)
  {
    if |a| == 0 {
      assert a + b == b;
    } else {
      assert (a + b)[1..] == a[1..] + b;
      TruthyTextsConcat(a[1..], b);
    }
  }

  /** One part contributes its text exactly when the text is truthy. */
  lemma TruthyTextsOne(part: Value)
    ensures TruthyTexts([part]) == if Truthy(Get(part, "text")) then [Get(part, "text")] else []
  {
    assert [part][1..] == [];
  }

  /** `...filter(Boolean).join(' ')`: the truthy texts as strings, separated by spaces. */
  function ContentText(parts: seq<Value>): string
  {
    var ts := TruthyTexts(parts);
    Join(seq(|ts|, i requires 0 <= i < |ts| => ToJsString(ts[i])), " ")
  }

  /** `.slice(0, n)` on a value that may not have it: strings and arrays do, anything else throws. */
  function SliceValue(v: Value, n: nat): (r: Result<Value>)
    ensures r.Ok? <==> v.Str? || v.Arr?
    ensures v.Str? ==> r == Ok(Str(Slice(v.s, n)))
    ensures v.Arr? ==> r == Ok(Arr(Slice(v.elems, n)))
  {
    match v
    case Str(s) => Ok(Str(Slice(s, n)))
    case Arr(es) => Ok(Arr(Slice(es, n)))
    case _ => Err("TypeError: slice is not a function")
  }

  const EmptyItemSummary: Value := Obj(map["note" := Str("empty item")])

  /** The summary's `text`: from the content parts when they form an array, else from `text`. */
  function SummaryText(item: Value): (r: Result<Value>)
    ensures r.Err? <==>
      !Get(item, "content").Arr? && Truthy(Get(item, "text")) && !Get(item, "text").Str? && !Get(item, "text").Arr?
    ensures r.Ok? ==> (r.value.Str? && |r.value.s| <= 200) || (r.value.Arr? && |r.value.elems| <= 200)
  {
    var content := Get(item, "content");
    if content.Arr? then Ok(Str(Slice(ContentText(content.elems), 200)))
    else SliceValue(Or(Get(item, "text"), Str("")), 200)
  }

  /** The item's identifier: `id`, else `item_id`. */
  function ItemId(item: Value): (r: Value)
    ensures Truthy(Get(item, "id")) ==> r == Get(item, "id")
    ensures !Truthy(Get(item, "id")) ==> r == Get(item, "item_id")
  {
    Or(Get(item, "id"), Get(item, "item_id"))
  }

  /** The item's kind: `type`, else `role`, else `'item'`. */
  function ItemType(item: Value): (r: Value)
    ensures Truthy(r)
    ensures Truthy(Get(item, "type")) ==> r == Get(item, "type")
    ensures !Truthy(Get(item, "type")) && Truthy(Get(item, "role")) ==> r == Get(item, "role")
    ensures !Truthy(Get(item, "type")) && !Truthy(Get(item, "role")) ==> r == Str("item")
  {
    Or(Or(Get(item, "type"), Get(item, "role")), Str("item"))
  }

  /** `summarizeItem(item)`; an `Err` is the TypeError a non-sliceable `text` throws. */
  function SummarizeItem(item: Value): (r: Result<Value>)
    ensures !Truthy(item) <==> r == Ok(EmptyItemSummary)
    ensures r.Err? <==> Truthy(item) && SummaryText(item).Err?
    ensures Truthy(item) && r.Ok? ==>
      r.value.Obj? && "id" in r.value.fields && "type" in r.value.fields
      && r.value.fields["id"] == ItemId(item) && r.value.fields["type"] == ItemType(item)
      && "note" !in r.value.fields
      && ("text" in r.value.fields <==> Truthy(SummaryText(item).value))
      && ("text" in r.value.fields ==> r.value.fields["text"] == SummaryText(item).value)
  {
    if !Truthy(item) then Ok(EmptyItemSummary)
    else
      var text := SummaryText(item);
      if text.Err? then Err(text.error)
      else
        var base := map["id" := ItemId(item), "type" := ItemType(item)];
        assert "id" !in EmptyItemSummary.fields;
        Ok(Obj(if Truthy(text.value) then base["text" := text.value] else base))
  }

  /**
   * With an array of content parts, the summary text is the first 200
   * characters of their truthy texts joined by spaces (all of them when
   * there are fewer), and it is there exactly when that join is not empty.
   */
  lemma SummaryOfContent(item: Value)
    requires Truthy(item) && Get(item, "content").Arr?
    ensures var r := SummarizeItem(item);
      var joined := ContentText(Get(item, "content").elems);
      r.Ok? && ("text" in r.value.fields <==> |joined| > 0)
      && ("text" in r.value.fields ==>
            r.value.fields["text"] == Str(joined[..if |joined| <= 200 then |joined| else 200]))
  {
  }

  /** Parts whose texts are strings or missing: the usual shape of a conversation item. */
  predicate PlainTexts(parts: seq<Value>)
  {
    forall k :: 0 <= k < |parts| ==> Get(parts[k], "text").Str? || Nullish(Get(parts[k], "text"))
  }

  lemma {:induction false} JoinEmptyIff(parts: seq<string>, sep: string)
    ensures |Join(parts, sep)| == 0 <==> forall k :: 0 <= k < |parts| ==> |parts[k]| == 0 && (k > 0 ==> |sep| == 0)
  {
    if |parts| > 1 {
      JoinEmptyIff(parts[1..], sep);
      assert forall k :: 1 <= k < |parts| ==> parts[k] == parts[1..][k - 1];
    }
  }

  /** The plain truthy texts are the non-empty strings, so their join is empty only when there are none. */
  lemma {:induction false} ContentTextEmptyIff(parts: seq<Value>)
    requires PlainTexts(parts)
    ensures |ContentText(parts)| == 0 <==>
      forall k :: 0 <= k < |parts| ==> !(Get(parts[k], "text").Str? && |Get(parts[k], "text").s| > 0)
  {
    var ts := TruthyTexts(parts);
    var strs := seq(|ts|, i requires 0 <= i < |ts| => ToJsString(ts[i]));
    JoinEmptyIff(strs, " ");
    forall k | 0 <= k < |ts| ensures ts[k].Str? && |strs[k]| > 0 {
      assert ts[k] in ts;
      var j :| 0 <= j < |parts| && ts[k] == Get(parts[j], "text") && Truthy(ts[k]);
    }
    forall j | 0 <= j < |parts| && Get(parts[j], "text").Str? && |Get(parts[j], "text").s| > 0
      ensures |ts| > 0
    {
      assert Get(parts[j], "text") in ts;
    }
  }

  /**
   * For an item with plain content parts, the summary carries `text` exactly
   * when some part has a non-empty text.
   */
  lemma SummaryTextPresent(item: Value)
    requires Truthy(item) && Get(item, "content").Arr? && PlainTexts(Get(item, "content").elems)
    ensures var parts := Get(item, "content").elems;
      var r := SummarizeItem(item);
      r.Ok? && ("text" in r.value.fields <==>
        exists k :: 0 <= k < |parts| && Get(parts[k], "text").Str? && |Get(parts[k], "text").s| > 0)
  {
    SummaryOfContent(item);
    ContentTextEmptyIff(Get(item, "content").elems);
  }

  /** Without a content array, a string `text` is kept up to 200 characters, and only when not empty. */
  lemma SummaryOfText(item: Value, s: string)
    requires Truthy(item) && !Get(item, "content").Arr? && Get(item, "text") == Str(s)
    ensures var r := SummarizeItem(item);
      r.Ok? && ("text" in r.value.fields <==> |s| > 0)
      && (|s| > 0 ==> r.value.fields["text"] == Str(Slice(s, 200)))
  {
  }

  /** Without a content array, a missing or falsy `text` gives a summary without `text`. */
  lemma SummaryOfFalsyText(item: Value)
    requires Truthy(item) && !Get(item, "content").Arr? && !Truthy(Get(item, "text"))
    ensures SummarizeItem(item).Ok? && "text" !in SummarizeItem(item).value.fields
  {
  }

  /**
   * The summary's `id` is `item.id` when that is truthy, else `item.item_id`;
   * its `type` is `item.type`, else `item.role`, else `'item'`.
   */
  lemma SummaryIdType(item: Value)
    requires Truthy(item) && SummarizeItem(item).Ok?
    ensures var f := SummarizeItem(item).value.fields;
      f["id"] == (if Truthy(Get(item, "id")) then Get(item, "id") else Get(item, "item_id"))
      && f["type"] == (if Truthy(Get(item, "type")) then Get(item, "type")
                       else if Truthy(Get(item, "role")) then Get(item, "role") else Str("item"))
  {
  }

  // ---------------------------------------------------------------- normalizeError

  /** The object `{ message, code: code ?? name }` for an error with a message. */
  function MessageCode(err: Value): (r: Value)
    ensures r.Obj? && r.fields.Keys == {"message", "code"}
    ensures r.fields["message"] == Get(err, "message")
    ensures r.fields["code"] == if Nullish(Get(err, "code")) then Get(err, "name") else Get(err, "code")
  {
    Obj(map["message" := Get(err, "message"), "code" := Coalesce(Get(err, "code"), Get(err, "name"))])
  }

  /** `normalizeError(err)`. */
  function NormalizeError(err: Value, stringify: Stringify): (r: Value)
    ensures !Truthy(err) ==> r == Str("unknown error")
    ensures Truthy(err) && err.Str? ==> r == err
    ensures Truthy(err) && !err.Str? && Truthy(Get(err, "message")) ==> r == MessageCode(err)
    ensures Truthy(err) && !err.Str? && !Truthy(Get(err, "message")) ==>
      r.Str? && (stringify(err).Some? ==> var j := stringify(err).value;
        r.s == j[..if |j| <= 300 then |j| else 300])
      && (stringify(err).None? ==> r.s == ToJsString(err))
  {
    if !Truthy(err) then Str("unknown error")
    else if err.Str? then err
    else if Truthy(Get(err, "message")) then MessageCode(err)
    else
      match stringify(err)
      case Some(j) => Str(Slice(j, 300))
      case None => Str(ToJsString(err))
  }

  /**
   * Every normalized error is a string or a message/code object whose message
   * is truthy, whatever `JSON.stringify` does. The string is empty only when
   * the serialized text, or `String(err)` when serializing fails, is empty.
   */
  lemma NormalizeErrorShape(err: Value, stringify: Stringify)
    ensures var r := NormalizeError(err, stringify);
      r.Str? || (r.Obj? && "message" in r.fields && Truthy(r.fields["message"]) && "code" in r.fields)
    ensures var r := NormalizeError(err, stringify);
      r.Str? && |r.s| == 0 ==>
        Truthy(err) && !err.Str? && !Truthy(Get(err, "message"))
        && ((stringify(err).Some? && |stringify(err).value| == 0)
            || (stringify(err).None? && |ToJsString(err)| == 0))
  {
  }

  /** Normalizing what came out of normalizing a string or a message object gives it back. */
  lemma NormalizeErrorStable(err: Value, stringify: Stringify)
    requires Truthy(err) && (err.Str? || Truthy(Get(err, "message")))
    requires !Nullish(Get(err, "code")) || !Nullish(Get(err, "name")) || Get(err, "name").Undefined?
    ensures NormalizeError(NormalizeError(err, stringify), stringify) == NormalizeError(err, stringify)
  {
    var r := NormalizeError(err, stringify);
    if !err.Str? {
      assert Get(r, "message") == Get(err, "message");
      assert Get(r, "name") == Undefined;
    }
  }

  // ---------------------------------------------------------------- log

  datatype LogType = Session | Transport | Default

  function TypeName(t: LogType): string
  {
    match t
    case Session => "session"
    case Transport => "transport"
    case Default => "default"
  }

  /** `typeof a === 'string' && ['session', 'transport', 'default'].includes(a)`. */
  function ParseLogType(v: Value): (r: Option<LogType>)
  {
    if v == Str("session") then Some(Session)
    else if v == Str("transport") then Some(Transport)
    else if v == Str("default") then Some(Default)
    else None
  }

  /** A log type is recognised exactly when the argument is that type's name. */
  lemma ParseLogTypeIff(v: Value, t: LogType)
    ensures ParseLogType(v) == Some(t) <==> v == Str(TypeName(t))
  {
  }

  /**
   * The overload resolution of `log(first, ...rest)`: the type and the
   * arguments that are printed. An argument is dropped only when it names
   * the type.
   */
  function LogArgs(first: Value, rest: seq<Value>): (r: (LogType, seq<Value>))
    ensures ParseLogType(first).Some? ==> [first] + rest == [Str(TypeName(r.0))] + r.1
    ensures ParseLogType(first).None? ==> r.0 == Default && r.1 == [first] + rest
  {
    match ParseLogType(first)
    case Some(t) =>
      ParseLogTypeIff(first, t);
      (t, rest)
    case None => (Default, [first] + rest)
  }

  /** `typeof a === 'string' ? a : JSON.stringify(a)`; `join` prints `undefined` as nothing. */
  function ArgText(a: Value, stringify: Stringify): string
  {
    if a.Str? then a.s
    else match stringify(a)
      case Some(j) => j
      case None => ""
  }

  function LineText(args: seq<Value>, stringify: Stringify): string
  {
    Join(seq(|args|, i requires 0 <= i < |args| => ArgText(args[i], stringify)), " ")
  }

  /** The colour of each log type. */
  function Color(t: LogType): string
  {
    match t
    case Session => "#2196F3"
    case Transport => "#FF9800"
    case Default => "#333333"
  }

  function SpanOpen(t: LogType): string
  {
    Concat(["<span style=\"color: ", Color(t), ";\">"])
  }

  const SpanClose: string := "</span>\n"

  /** The coloured line appended to the log element. */
  function ColoredLine(t: LogType, line: string): (r: string)
    ensures |r| == |SpanOpen(t)| + |line| + |SpanClose|
    ensures r[..|SpanOpen(t)|] == SpanOpen(t)
    ensures r[|SpanOpen(t)|..|r| - |SpanClose|] == line
    ensures r[|r| - |SpanClose|..] == SpanClose
  {
    var o := SpanOpen(t);
    var r := o + line + SpanClose;
    assert r[|o|..|r| - |SpanClose|] == line;
    r
  }

  /** Everything `log(first, ...rest)` appends to the log element. */
  function Rendered(first: Value, rest: seq<Value>, stringify: Stringify): string
  {
    var (t, args) := LogArgs(first, rest);
    ColoredLine(t, LineText(args, stringify))
  }

  /** String arguments are printed verbatim, separated by spaces, whatever `JSON.stringify` does. */
  lemma LineTextOfStrings(args: seq<Value>, strs: seq<string>, stringify: Stringify)
    requires |args| == |strs| && forall k :: 0 <= k < |args| ==> args[k] == Str(strs[k])
    ensures LineText(args, stringify) == Join(strs, " ")
  {
    assert seq(|args|, i requires 0 <= i < |args| => ArgText(args[i], stringify)) == strs;
  }

  /** A log call whose first argument names a type prints the rest in that type's colour. */
  lemma RenderedTyped(t: LogType, rest: seq<Value>, stringify: Stringify)
    ensures Rendered(Str(TypeName(t)), rest, stringify) == ColoredLine(t, LineText(rest, stringify))
  {
    ParseLogTypeIff(Str(TypeName(t)), t);
  }

  // ---------------------------------------------------------------- event handlers

  /** `v.includes(sub)`: substring test on strings, element test on arrays, a TypeError otherwise. */
  function Includes(v: Value, sub: string): (r: Result<bool>)
    ensures r.Ok? <==> v.Str? || v.Arr?
    ensures v.Str? ==> r == Ok(Contains(v.s, sub))
    ensures v.Arr? ==> r == Ok(Str(sub) in v.elems)
  {
    match v
    case Str(s) => Ok(Contains(s, sub))
    case Arr(es) => Ok(Str(sub) in es)
    case _ => Err("TypeError: includes is not a function")
  }

  const Delta: string := ".delta"

  /** The type a transport event is reported under: `evt?.type || 'event'`. */
  function TransportType(evt: Value): (r: Value)
    ensures Truthy(r)
    ensures Truthy(Get(evt, "type")) ==> r == Get(evt, "type")
    ensures !Truthy(Get(evt, "type")) ==> r == Str("event")
  {
    Or(Get(evt, "type"), Str("event"))
  }

  /**
   * The wildcard transport handler: the arguments it passes to `log`,
   * `None` when it skips a delta event, or the TypeError `includes` throws.
   */
  function OnTransportAny(evt: Value): (r: Result<Option<seq<Value>>>)
    ensures r.Ok? <==> Includes(TransportType(evt), Delta).Ok?
    ensures r.Ok? ==> (r.value.None? <==> Includes(TransportType(evt), Delta).value)
    ensures r.Ok? && r.value.Some? ==>
      r.value.value == [Str("transport"), Str("transport"), TransportType(evt), evt]
  {
    var t := TransportType(evt);
    match Includes(t, Delta)
    case Err(e) => Err(e)
    case Ok(d) => if d then Ok(None) else Ok(Some([Str("transport"), Str("transport"), t, evt]))
  }

  lemma EventHasNoDelta()
    ensures !Contains("event", Delta)
  {
  }

  /**
   * A transport event with a string type is skipped exactly when the type
   * holds `.delta`; an event without a truthy type is logged as `'event'`.
   */
  lemma TransportDeltaFilter(evt: Value)
    ensures Get(evt, "type").Str? && |Get(evt, "type").s| > 0 ==>
      (OnTransportAny(evt) == Ok(None) <==> Contains(Get(evt, "type").s, Delta))
    ensures !Truthy(Get(evt, "type")) ==>
      OnTransportAny(evt) == Ok(Some([Str("transport"), Str("transport"), Str("event"), evt]))
  {
    EventHasNoDelta();
  }

  /** The side of a re-emitted transport event: `mode`, `direction`, `source`, else `'unknown'`. */
  function EventSide(evt: Value): (r: Value)
    ensures Truthy(r)
    ensures Truthy(Get(evt, "mode")) ==> r == Get(evt, "mode")
    ensures !Truthy(Get(evt, "mode")) && Truthy(Get(evt, "direction")) ==> r == Get(evt, "direction")
    ensures !Truthy(Get(evt, "mode")) && !Truthy(Get(evt, "direction")) && Truthy(Get(evt, "source")) ==>
      r == Get(evt, "source")
    ensures !Truthy(Get(evt, "mode")) && !Truthy(Get(evt, "direction")) && !Truthy(Get(evt, "source")) ==>
      r == Str("unknown")
  {
    Or(Or(Or(Get(evt, "mode"), Get(evt, "direction")), Get(evt, "source")), Str("unknown"))
  }

  /** Its type: `type`, else the wrapped `event.type`, else `'event'`. */
  function EchoType(evt: Value): (r: Value)
    ensures Truthy(r)
    ensures Truthy(Get(evt, "type")) ==> r == Get(evt, "type")
    ensures !Truthy(Get(evt, "type")) && Truthy(Get(Get(evt, "event"), "type")) ==> r == Get(Get(evt, "event"), "type")
    ensures !Truthy(Get(evt, "type")) && !Truthy(Get(Get(evt, "event"), "type")) ==> r == Str("event")
  {
    Or(Or(Get(evt, "type"), Get(Get(evt, "event"), "type")), Str("event"))
  }

  /** The `transport_event` session handler. */
  function OnTransportEcho(evt: Value): (r: Result<Option<seq<Value>>>)
    ensures r.Ok? <==> Includes(EchoType(evt), Delta).Ok?
    ensures r.Ok? ==> (r.value.None? <==> Includes(EchoType(evt), Delta).value)
    ensures r.Ok? && r.value.Some? ==>
      r.value.value == [Str("session"), Str("transport_event"),
                        Str(Concat(["[", ToJsString(EventSide(evt)), "]"])), EchoType(evt)]
  {
    var t := EchoType(evt);
    match Includes(t, Delta)
    case Err(e) => Err(e)
    case Ok(d) =>
      if d then Ok(None)
      else Ok(Some([Str("session"), Str("transport_event"),
                    Str(Concat(["[", ToJsString(EventSide(evt)), "]"])), t]))
  }

  /** A re-emitted event whose (possibly wrapped) string type holds `.delta` is never logged. */
  lemma EchoDeltaFilter(evt: Value)
    ensures EchoType(evt).Str? ==>
      (OnTransportEcho(evt) == Ok(None) <==> Contains(EchoType(evt).s, Delta))
    ensures !Truthy(Get(evt, "type")) && !Truthy(Get(Get(evt, "event"), "type")) ==>
      OnTransportEcho(evt).Ok? && OnTransportEcho(evt).value.Some?
      && OnTransportEcho(evt).value.value[3] == Str("event")
  {
    EventHasNoDelta();
  }

  /** `String(output ?? '').slice(0, 160)`: its first 160 characters, or all of them when there are fewer. */
  function Preview(output: Value): (r: string)
    ensures var full := ToJsString(Coalesce(output, Str("")));
      |r| == (if |full| <= 160 then |full| else 160) && r == full[..|r|]
  {
    Slice(ToJsString(Coalesce(output, Str(""))), 160)
  }

  /** A missing output previews as nothing; a short string output previews as itself. */
  lemma PreviewCases(output: Value)
    ensures Nullish(output) ==> Preview(output) == ""
    ensures output.Str? && |output.s| <= 160 ==> Preview(output) == output.s
    ensures output.Str? && |output.s| > 160 ==> Preview(output) == output.s[..160]
  {
  }

  /** The `agent_end` handler. */
  function OnAgentEnd(agent: Value, output: Value): (r: seq<Value>)
    ensures |r| == 3 && r[0] == Str("session") && r[2].Obj? && r[2].fields.Keys == {"agent", "preview"}
    ensures r[2].fields["agent"] == Get(agent, "name")
    ensures var p := r[2].fields["preview"]; var full := ToJsString(Coalesce(output, Str("")));
      p.Str? && p.s == full[..if |full| <= 160 then |full| else 160]
  {
    [Str("session"), Str("agent_end"),
     Obj(map["agent" := Get(agent, "name"), "preview" := Str(Preview(output))])]
  }

  /** The `agent_tool_end` handler. */
  function OnAgentToolEnd(agent: Value, tool: Value, output: Value): (r: seq<Value>)
    ensures |r| == 3 && r[0] == Str("session") && r[2].Obj?
    ensures r[2].fields.Keys == {"agent", "tool", "outputPreview"}
    ensures r[2].fields["agent"] == Get(agent, "name") && r[2].fields["tool"] == Get(tool, "name")
    ensures var p := r[2].fields["outputPreview"]; var full := ToJsString(Coalesce(output, Str("")));
      p.Str? && p.s == full[..if |full| <= 160 then |full| else 160]
  {
    [Str("session"), Str("agent_tool_end"),
     Obj(map["agent" := Get(agent, "name"), "tool" := Get(tool, "name"),
             "outputPreview" := Str(Preview(output))])]
  }

  /**
   * The previews the `agent_end` and `agent_tool_end` handlers log are the
   * same: the first 160 characters of `String(output ?? '')`, or all of them
   * when there are fewer.
   */
  lemma HandlerPreviews(agent: Value, tool: Value, output: Value)
    ensures var full := ToJsString(Coalesce(output, Str("")));
      var p := OnAgentEnd(agent, output)[2].fields["preview"];
      var t := OnAgentToolEnd(agent, tool, output)[2].fields["outputPreview"];
      p == Str(full[..if |full| <= 160 then |full| else 160]) && t == p
  {
  }

  /** The `history_added` handler. */
  function OnHistoryAdded(item: Value): (r: Result<seq<Value>>)
    ensures r.Ok? <==> SummarizeItem(item).Ok?
    ensures r.Ok? ==> r.value == [Str("session"), Str("history_added"), SummarizeItem(item).value]
  {
    match SummarizeItem(item)
    case Err(e) => Err(e)
    case Ok(s) => Ok([Str("session"), Str("history_added"), s])
  }

  /** The `audio` handler: `e?.data?.byteLength ?? 0`, and a note only when that is truthy. */
  function OnAudio(e: Value): (r: seq<Value>)
    ensures |r| == 3 && r[0] == Str("session") && r[1] == Str("audio")
    ensures r[2].Obj? && r[2].fields.Keys == {"bytes", "note"}
    ensures var b := Get(Get(e, "data"), "byteLength");
      r[2].fields["bytes"] == if Nullish(b) then Num(0) else b
    ensures Truthy(r[2].fields["bytes"]) ==> r[2].fields["note"] == Str("audio buffer received")
    ensures !Truthy(r[2].fields["bytes"]) ==> r[2].fields["note"] == Undefined
  {
    var bytes := Coalesce(Get(Get(e, "data"), "byteLength"), Num(0));
    [Str("session"), Str("audio"),
     Obj(map["bytes" := bytes, "note" := if Truthy(bytes) then Str("audio buffer received") else Undefined])]
  }

  /** The `history_updated` handler: the length of the history, or 0 when it is not an array. */
  function OnHistoryUpdated(history: Value): (r: seq<Value>)
    ensures |r| == 3 && r[0] == Str("session") && r[1] == Str("history_updated")
    ensures r[2].Obj? && r[2].fields.Keys == {"length"}
    ensures history.Arr? ==> r[2].fields["length"] == Num(|history.elems|)
    ensures !history.Arr? ==> r[2].fields["length"] == Num(0)
  {
    [Str("session"), Str("history_updated"),
     Obj(map["length" := if history.Arr? then Num(|history.elems|) else Num(0)])]
  }

  /** The `tool_approval_requested` handler: the tool's name, and the approval item's `id`, else its `name`. */
  function OnToolApprovalRequested(req: Value): (r: seq<Value>)
    ensures |r| == 3 && r[0] == Str("session") && r[1] == Str("tool_approval_requested")
    ensures r[2].Obj? && r[2].fields.Keys == {"tool", "approvalItem"}
    ensures r[2].fields["tool"] == Get(Get(req, "rawItem"), "name")
    ensures var item := Get(req, "approvalItem");
      r[2].fields["approvalItem"] == if Truthy(Get(item, "id")) then Get(item, "id") else Get(item, "name")
  {
    var item := Get(req, "approvalItem");
    [Str("session"), Str("tool_approval_requested"),
     Obj(map["tool" := Get(Get(req, "rawItem"), "name"),
             "approvalItem" := Or(Get(item, "id"), Get(item, "name"))])]
  }

  /**
   * The `guardrail_tripped` handler: the agent's name, and the tripwire's
   * `tripwire.name`, else its `tripwire_id`, else `'unknown'`.
   */
  function OnGuardrailTripped(agent: Value, tripwire: Value): (r: seq<Value>)
    ensures |r| == 3 && r[0] == Str("session") && r[1] == Str("guardrail_tripped")
    ensures r[2].Obj? && r[2].fields.Keys == {"agent", "tripwire"}
    ensures r[2].fields["agent"] == Get(agent, "name")
    ensures var name := Get(Get(tripwire, "tripwire"), "name"); var id := Get(tripwire, "tripwire_id");
      Truthy(r[2].fields["tripwire"])
      && (Truthy(name) ==> r[2].fields["tripwire"] == name)
      && (!Truthy(name) && Truthy(id) ==> r[2].fields["tripwire"] == id)
      && (!Truthy(name) && !Truthy(id) ==> r[2].fields["tripwire"] == Str("unknown"))
  {
    var name := Or(Or(Get(Get(tripwire, "tripwire"), "name"), Get(tripwire, "tripwire_id")), Str("unknown"));
    [Str("session"), Str("guardrail_tripped"), Obj(map["agent" := Get(agent, "name"), "tripwire" := name])]
  }

  /** The `error` handler. */
  function OnSessionError(err: Value, stringify: Stringify): (r: seq<Value>)
    ensures r == [Str("session"), Str("session_error"), NormalizeError(err, stringify)]
    ensures !Truthy(err) ==> r[2] == Str("unknown error")
    ensures r[2].Str? || (r[2].Obj? && "message" in r[2].fields && Truthy(r[2].fields["message"]))
  {
    NormalizeErrorShape(err, stringify);
    [Str("session"), Str("session_error"), NormalizeError(err, stringify)]
  }

  /** The text `log` prints for two arguments: both, separated by a space. */
  lemma LineTextPair(x: Value, y: Value, stringify: Stringify)
    ensures LineText([x, y], stringify) == ArgText(x, stringify) + " " + ArgText(y, stringify)
  {
    var args := [x, y];
    var strs := seq(|args|, i requires 0 <= i < |args| => ArgText(args[i], stringify));
    assert strs == [ArgText(x, stringify), ArgText(y, stringify)];
    assert strs[1..] == [ArgText(y, stringify)];
    assert Join(strs[1..], " ") == ArgText(y, stringify);
  }

  /** A handler's call `log('session', name, payload)` appends `name payload` in the session colour. */
  lemma SessionLine(a: seq<Value>, stringify: Stringify)
    requires |a| == 3 && a[0] == Str("session") && a[1].Str?
    ensures Rendered(a[0], a[1..], stringify) == ColoredLine(Session, a[1].s + " " + ArgText(a[2], stringify))
  {
    assert a[1..] == [a[1], a[2]];
    RenderedTyped(Session, [a[1], a[2]], stringify);
    LineTextPair(a[1], a[2], stringify);
  }

  /** The `agent_end` handler appends `agent_end` and its payload in the session colour. */
  lemma AgentEndLine(agent: Value, output: Value, stringify: Stringify)
    ensures var a := OnAgentEnd(agent, output);
      Rendered(a[0], a[1..], stringify) == ColoredLine(Session, "agent_end " + ArgText(a[2], stringify))
  {
    SessionLine(OnAgentEnd(agent, output), stringify);
  }

  /** The `agent_tool_end` handler appends `agent_tool_end` and its payload in the session colour. */
  lemma AgentToolEndLine(agent: Value, tool: Value, output: Value, stringify: Stringify)
    ensures var a := OnAgentToolEnd(agent, tool, output);
      Rendered(a[0], a[1..], stringify) == ColoredLine(Session, "agent_tool_end " + ArgText(a[2], stringify))
  {
    SessionLine(OnAgentToolEnd(agent, tool, output), stringify);
  }

  /** The `error` handler appends `session_error` and the normalized error in the session colour. */
  lemma SessionErrorLine(err: Value, stringify: Stringify)
    ensures var a := OnSessionError(err, stringify);
      Rendered(a[0], a[1..], stringify) == ColoredLine(Session, "session_error " + ArgText(a[2], stringify))
  {
    var a := OnSessionError(err, stringify);
    assert a[1].s == "session_error";
    SessionLine(a, stringify);
  }

  /** An error that is not truthy is logged as `session_error unknown error`. */
  lemma SessionErrorUnknown(err: Value, stringify: Stringify)
    requires !Truthy(err)
    ensures var a := OnSessionError(err, stringify);
      Rendered(a[0], a[1..], stringify) == ColoredLine(Session, "session_error unknown error")
  {
    SessionErrorLine(err, stringify);
    var line := "session_error " + ArgText(OnSessionError(err, stringify)[2], stringify);
    assert line == "session_error unknown error";
  }
}
