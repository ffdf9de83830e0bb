/** The Lambda entry point: classification of the incoming event, routing of
    API Gateway requests by endpoint, the envelope that re-invokes the
    function asynchronously, and the dispatch of that envelope to the
    handler chains. */
module MosEisley {
  import opened Values
  import opened RubyCore
  import Foreign
  import SlackEvent
  import HandlerRegistry

  /** One entry of an event's `Records`, with the fields the router reads. */
  datatype InvokeRecord = InvokeRecord(eventSource: Option<string>, endpoint: Option<string>, body: Option<string>)

  /** The Lambda event: an API Gateway request (`routeKey`, headers, body),
      or a record list as the function's own asynchronous invoke delivers. */
  datatype IncomingEvent = IncomingEvent(routeKey: Option<string>, request: SlackEvent.ApiRequest, records: seq<InvokeRecord>)

  datatype Route = ApiGateway | Invoke | Unknown

  /** What the Lambda function returns: a status-code hash, a JSON text,
      another value (a handler chain's answer, nil), or whatever the warning
      logger returns (`lib/logger.rb` is not part of this model). */
  datatype LambdaResult = Status(code: int) | Text(text: string) | Data(v: Value) | Logged

  /** The asynchronous re-invocation: the endpoint and the validated body. */
  datatype Envelope = Envelope(endpoint: string, body: string)

  /** A routing decision: the response, and the envelope to invoke, if any. */
  datatype Plan = Plan(result: Outcome<LambdaResult>, invoke: Option<Envelope>)

  /** A call the Lambda client made. */
  datatype Invocation = Invocation(functionName: string, invocationType: string, payload: string)

  const EventSource := "MosEisley:Slack_event"
  const MenuOptions := "{\"options\": []}"

  /** `lambda_event`'s `case`: a `routeKey` means API Gateway, whatever the
      records say; else an internal event source means an invoke. */
  function Classify(e: IncomingEvent): (r: Route)
    ensures r == ApiGateway <==> e.routeKey.Some?
    ensures r == Invoke <==>
      e.routeKey.None? && |e.records| > 0 && e.records[0].eventSource == Some(EventSource)
  {
    if e.routeKey.Some? then ApiGateway
    else if |e.records| > 0 && e.records[0].eventSource == Some(EventSource) then Invoke
    else Unknown
  }

  /** `event['routeKey'].split[-1]`: the last white-space separated token;
      nil when there is none; `NoMethodError` on a nil route key. */
  function Endpoint(routeKey: Option<string>): (r: Outcome<Option<string>>)
    ensures routeKey.None? <==> r.Raised?
    ensures routeKey.Some? ==> r == Returned(LastToken(routeKey.value))
    ensures forall p, t, q ::
      (routeKey == Some(p + t + q) && (p == [] || IsSpace(p[|p| - 1])) && t != [] && NoSpace(t) && AllSpace(q)) ==>
      r == Returned(Some(t))
  {
    match routeKey
    case None => Raised("NoMethodError")
    case Some(k) =>
      forall p, t, q | k == p + t + q && (p == [] || IsSpace(p[|p| - 1])) && t != [] && NoSpace(t) && AllSpace(q)
        ensures LastToken(k) == Some(t)
      {
        LastTokenOf(p, t, q);
      }
      Returned(LastToken(k))
  }

  /** `invoke_event`'s `case`: the handler category an endpoint runs. */
  function InvokeCategory(ep: Option<string>): (r: Option<string>)
    ensures r.Some? <==> ep in {Some("/actions"), Some("/commands"), Some("/events")}
    ensures r.Some? ==> r.value in HandlerRegistry.Categories && "/" + r.value + "s" == ep.value
  {
    match ep
    case Some("/actions") => Some("action")
    case Some("/commands") => Some("command")
    case Some("/events") => Some("event")
    case _ => None
  }

  /** What `Handler.run(kind, event)` answers for a registry table. */
  function RunResult(table: Option<map<string, seq<HandlerRegistry.Handler>>>, kind: string, event: Value): (r: Outcome<Value>)
    ensures (table.None? || kind !in table.value) <==> r == Raised("NoMethodError")
    ensures table.Some? && kind in table.value ==>
      r == Returned(HandlerRegistry.ChainResponse(table.value[kind], event))
  {
    if table.Some? && kind in table.value then
      Returned(HandlerRegistry.ChainResponse(table.value[kind], event))
    else Raised("NoMethodError")
  }

  /** The answer to a slash command: a string `r` as the JSON of `{text: r}`,
      a hash as its JSON, anything else leaves status 200. */
  function CommandReply(r: Value, lib: Foreign.Library): (reply: LambdaResult)
    ensures r.Str? ==> reply == Text(lib.generate(Obj([("text", r)]), None))
    ensures r.Obj? ==> reply == Text(lib.generate(r, None))
    ensures !r.Str? && !r.Obj? ==> reply == Status(200)
  {
    var h := if r.Str? then Obj([("text", r)]) else r;
    if h.Obj? then Text(lib.generate(h, None)) else Status(200)
  }

  /** The answer to Slack's URL verification. */
  function ChallengeReply(c: Value, lib: Foreign.Library): (r: string)
    ensures |r| == 17 + |ToS(c, lib)|
    ensures r[..15] == "{\"challenge\": \"" && r[15..|r| - 2] == ToS(c, lib) && r[|r| - 2..] == "\"}"
  {
    "{\"challenge\": \"" + ToS(c, lib) + "\"}"
  }

  /** The hash `apigw_event` sends as the invoke payload. */
  function EnvelopeValue(env: Envelope): Value {
    Obj([("Records", Arr([Obj([
      ("eventSource", Str(EventSource)),
      ("endpoint", Str(env.endpoint)),
      ("body", Str(env.body))])]))])
  }

  function Payload(env: Envelope, lib: Foreign.Library): string {
    lib.generate(EnvelopeValue(env), None)
  }

  /** `apigw_event` after validation and endpoint extraction: by endpoint
      pass through, answer the command, answer the challenge, answer the menu,
      or reject. Validated `/actions`, `/commands` and `/events` requests,
      except URL verifications, are also re-invoked with the validated body,
      whatever the immediate answer: a slash command is answered with the
      `command_response` reply and still invoked. */
  function Dispatch(v: Outcome<SlackEvent.Validation>, ep: Outcome<Option<string>>, lib: Foreign.Library,
                    table: Option<map<string, seq<HandlerRegistry.Handler>>>): (p: Plan)
    // Nothing is invoked unless the request was validated: fail closed.
    ensures p.invoke.Some? ==>
      v.Returned? && v.value.Accepted? && p.invoke.value.body == v.value.json &&
      ep == Returned(Some(p.invoke.value.endpoint)) &&
      p.invoke.value.endpoint in {"/actions", "/commands", "/events"} &&
      p.result.Returned?
    ensures p.result.Raised? ==> p.invoke.None?
  {
    match v
    case Raised(err) => Plan(Raised(err), None)
    case Returned(Rejected(_)) => Plan(Returned(Status(401)), None)
    case Returned(Accepted(json, event)) =>
      match ep
      case Raised(err) => Plan(Raised(err), None)
      case Returned(ep) =>
        if ep == Some("/actions") then Plan(Returned(Status(200)), Some(Envelope("/actions", json)))
        else if ep == Some("/commands") then
          match RunResult(table, "command_response", event)
          case Raised(err) => Plan(Raised(err), None)
          case Returned(r) => Plan(Returned(CommandReply(r, lib)), Some(Envelope("/commands", json)))
        else if ep == Some("/events") then
          match Index(event, "type")
          case Raised(err) => Plan(Raised(err), None)
          case Returned(t) =>
            if t == Str("url_verification") then
              Plan(Returned(Text(ChallengeReply(Index(event, "challenge").value, lib))), None)
            else Plan(Returned(Status(200)), Some(Envelope("/events", json)))
        else if ep == Some("/menus") then Plan(Returned(Text(MenuOptions)), None)
        else Plan(Returned(Status(400)), None)
  }

  /** `apigw_event`, as a decision: validate, take the endpoint from the
      route key, then `Dispatch`. */
  function ApigwPlan(e: IncomingEvent, secret: string, now: int, lib: Foreign.Library,
                     table: Option<map<string, seq<HandlerRegistry.Handler>>>): (p: Plan)
    // Nothing is invoked unless the request was validated: fail closed.
    ensures p.invoke.Some? ==>
      var v := SlackEvent.Validate(e.request, secret, now, lib);
      v.Returned? && v.value.Accepted? && p.invoke.value.body == v.value.json &&
      Endpoint(e.routeKey) == Returned(Some(p.invoke.value.endpoint)) &&
      p.invoke.value.endpoint in {"/actions", "/commands", "/events"} &&
      p.result.Returned?
    ensures p.result.Raised? ==> p.invoke.None?
  {
    Dispatch(SlackEvent.Validate(e.request, secret, now, lib), Endpoint(e.routeKey), lib, table)
  }

  function RecordEndpoint(e: IncomingEvent): Option<string> {
    if |e.records| > 0 then e.records[0].endpoint else None
  }

  function RecordBody(e: IncomingEvent): Option<string> {
    if |e.records| > 0 then e.records[0].body else None
  }

  /** `invoke_event`: parse the record's body (`TypeError` when it is nil,
      `JSON::ParserError` when it does not parse), then run the category of
      the endpoint; `/menus` and unknown endpoints only log a warning. */
  function InvokePlan(e: IncomingEvent, lib: Foreign.Library,
                      table: Option<map<string, seq<HandlerRegistry.Handler>>>): (r: Outcome<LambdaResult>)
    ensures RecordBody(e).None? ==> r == Raised("TypeError")
    ensures RecordBody(e).Some? && lib.parse(RecordBody(e).value).None? ==> r == Raised("JSON::ParserError")
    ensures RecordBody(e).Some? && lib.parse(RecordBody(e).value).Some? ==>
      var se := lib.parse(RecordBody(e).value).value;
      match InvokeCategory(RecordEndpoint(e))
      case None => r == Returned(Logged)
      case Some(kind) =>
        match RunResult(table, kind, se)
        case Raised(err) => r == Raised(err)
        case Returned(v) => r == Returned(Data(v))
  {
    match RecordBody(e)
    case None => Raised("TypeError")
    case Some(b) =>
      match lib.parse(b)
      case None => Raised("JSON::ParserError")
      case Some(se) =>
        match InvokeCategory(RecordEndpoint(e))
        case None => Returned(Logged)
        case Some(kind) =>
          match RunResult(table, kind, se)
          case Raised(err) => Raised(err)
          case Returned(v) => Returned(Data(v))
  }

  /** `lambda_event`: a failed pre-flight check raises `RuntimeError`; then
      the event goes where `Classify` says; an unknown event answers nil. */
  function LambdaPlan(e: IncomingEvent, preflight: bool, secret: string, now: int, lib: Foreign.Library,
                      table: Option<map<string, seq<HandlerRegistry.Handler>>>): (p: Plan)
    ensures !preflight ==> p == Plan(Raised("RuntimeError"), None)
    ensures preflight && Classify(e) == ApiGateway ==> p == ApigwPlan(e, secret, now, lib, table)
    ensures preflight && Classify(e) == Invoke ==> p == Plan(InvokePlan(e, lib, table), None)
    ensures preflight && Classify(e) == Unknown ==> p == Plan(Returned(Data(Null)), None)
  {
    if !preflight then Plan(Raised("RuntimeError"), None)
    else
      match Classify(e)
      case ApiGateway => ApigwPlan(e, secret, now, lib, table)
      case Invoke => Plan(InvokePlan(e, lib, table), None)
      case Unknown => Plan(Returned(Data(Null)), None)
  }

  function Invocations(invoke: Option<Envelope>, functionName: string, lib: Foreign.Library): seq<Invocation> {
    if invoke.Some? then [Invocation(functionName, "Event", Payload(invoke.value, lib))] else []
  }

  /** The AWS Lambda client: it records every invocation; the status code
      the service answers is a parameter. */
  class LambdaClient {
    var log: seq<Invocation>
    const statusOf: Invocation -> int

    constructor(statusOf: Invocation -> int)
      ensures log == [] && this.statusOf == statusOf
    {
      log := [];
      this.statusOf := statusOf;
    }

    /** `lc.invoke(params)`. */
    method Invoke(functionName: string, invocationType: string, payload: string) returns (status: int)
      modifies this
      ensures log == old(log) + [Invocation(functionName, invocationType, payload)]
      ensures status == statusOf(Invocation(functionName, invocationType, payload))
    {
      var call := Invocation(functionName, invocationType, payload);
      log := log + [call];
      status := statusOf(call);
    }
  }

  /** The handlers a run of the `kind` chain may change. */
  function Footprint(reg: HandlerRegistry.Registry, kind: string): seq<HandlerRegistry.Handler>
    reads reg
  {
    if reg.HasCategory(kind) then reg.table.value[kind] else []
  }

  /** The event the `command_response` chain runs on in `apigw_event`: that
      of a validated slash command, and none otherwise. */
  function CommandsEvent(se: Outcome<SlackEvent.Validation>, epr: Outcome<Option<string>>): Option<Value> {
    if se.Returned? && se.value.Accepted? && epr == Returned(Some("/commands")) then Some(se.value.event) else None
  }

  /** The event the endpoint's chain runs on in `invoke_event`: the parsed
      body, when there is one and the endpoint names a category. */
  function InvokedEvent(e: IncomingEvent, lib: Foreign.Library): Option<Value> {
    if RecordBody(e).Some? && lib.parse(RecordBody(e).value).Some? && InvokeCategory(RecordEndpoint(e)).Some? then
      Some(lib.parse(RecordBody(e).value).value)
    else None
  }

  /** `apigw_event(event, context)`: the decision of `ApigwPlan`, with the
      `command_response` chain run on the registry and the envelope sent
      through the Lambda client. The invoke status never changes the answer. */
  method ApigwEvent(e: IncomingEvent, functionName: string, secret: string, now: int, lib: Foreign.Library,
                    reg: HandlerRegistry.Registry, lc: LambdaClient) returns (r: Outcome<LambdaResult>)
    requires reg.Valid()
    modifies lc, Footprint(reg, "command_response")
    ensures reg.table == old(reg.table)
    ensures r == ApigwPlan(e, secret, now, lib, reg.table).result
    ensures lc.log == old(lc.log) + Invocations(ApigwPlan(e, secret, now, lib, reg.table).invoke, functionName, lib)
    ensures HandlerRegistry.FlagsAfter(Footprint(reg, "command_response"),
      CommandsEvent(SlackEvent.Validate(e.request, secret, now, lib), Endpoint(e.routeKey)))
  {
    var se := SlackEvent.Validate(e.request, secret, now, lib);
    r := DispatchRequest(se, Endpoint(e.routeKey), functionName, lib, reg, lc);
  }

  /** The steps of `apigw_event` after validation: the decision of
      `Dispatch`, carried out on the registry and the Lambda client. */
  method DispatchRequest(se: Outcome<SlackEvent.Validation>, epr: Outcome<Option<string>>, functionName: string,
                         lib: Foreign.Library, reg: HandlerRegistry.Registry, lc: LambdaClient)
    returns (r: Outcome<LambdaResult>)
    requires reg.Valid()
    modifies lc, Footprint(reg, "command_response")
    ensures reg.table == old(reg.table)
    ensures r == Dispatch(se, epr, lib, reg.table).result
    ensures lc.log == old(lc.log) + Invocations(Dispatch(se, epr, lib, reg.table).invoke, functionName, lib)
    ensures HandlerRegistry.FlagsAfter(Footprint(reg, "command_response"), CommandsEvent(se, epr))
  {
    if se.Raised? {
      return Raised(se.error);
    }
    if se.value.Rejected? {
      return Returned(Status(401));
    }
    var json, event := se.value.json, se.value.event;
    var resp := Status(200);
    if epr.Raised? {
      return Raised(epr.error);
    }
    var ep := epr.value;
    if ep == Some("/actions") {
      // pass through
    } else if ep == Some("/commands") {
      var run := reg.Run("command_response", event);
      if run.Raised? {
        return Raised(run.error);
      }
      resp := CommandReply(run.value, lib);
    } else if ep == Some("/events") {
      var t := Index(event, "type");
      if t.Raised? {
        return Raised(t.error);
      }
      if t.value == Str("url_verification") {
        return Returned(Text(ChallengeReply(Index(event, "challenge").value, lib)));
      }
    } else if ep == Some("/menus") {
      return Returned(Text(MenuOptions));
    } else {
      return Returned(Status(400));
    }
    var status := lc.Invoke(functionName, "Event", Payload(Envelope(ep.value, json), lib));
    r := Returned(resp);
  }

  /** `invoke_event(event)`: the decision of `InvokePlan`, with the chain run
      on the registry. */
  method InvokeEvent(e: IncomingEvent, lib: Foreign.Library, reg: HandlerRegistry.Registry) returns (r: Outcome<LambdaResult>)
    requires reg.Valid()
    modifies if InvokeCategory(RecordEndpoint(e)).Some? then Footprint(reg, InvokeCategory(RecordEndpoint(e)).value) else []
    ensures reg.table == old(reg.table)
    ensures r == InvokePlan(e, lib, reg.table)
    ensures InvokeCategory(RecordEndpoint(e)).Some? ==>
      HandlerRegistry.FlagsAfter(Footprint(reg, InvokeCategory(RecordEndpoint(e)).value), InvokedEvent(e, lib))
  {
    var body := RecordBody(e);
    if body.None? {
      return Raised("TypeError");
    }
    var parsed := lib.parse(body.value);
    if parsed.None? {
      return Raised("JSON::ParserError");
    }
    var kind := InvokeCategory(RecordEndpoint(e));
    if kind.None? {
      return Returned(Logged);
    }
    var run := reg.Run(kind.value, parsed.value);
    if run.Raised? {
      return Raised(run.error);
    }
    r := Returned(Data(run.value));
  }

  /** `lambda_event(event, context)`. */
  method LambdaEvent(e: IncomingEvent, preflight: bool, functionName: string, secret: string, now: int,
                     lib: Foreign.Library, reg: HandlerRegistry.Registry, lc: LambdaClient)
    returns (r: Outcome<LambdaResult>)
    requires reg.Valid()
    modifies lc
    modifies if preflight && Classify(e).ApiGateway? then Footprint(reg, "command_response") else []
    modifies if preflight && Classify(e).Invoke? && InvokeCategory(RecordEndpoint(e)).Some? then
      Footprint(reg, InvokeCategory(RecordEndpoint(e)).value) else []
    ensures reg.table == old(reg.table)
    ensures r == LambdaPlan(e, preflight, secret, now, lib, reg.table).result
    ensures lc.log == old(lc.log) + Invocations(LambdaPlan(e, preflight, secret, now, lib, reg.table).invoke, functionName, lib)
    ensures preflight && Classify(e).ApiGateway? ==>
      HandlerRegistry.FlagsAfter(Footprint(reg, "command_response"),
        CommandsEvent(SlackEvent.Validate(e.request, secret, now, lib), Endpoint(e.routeKey)))
    ensures preflight && Classify(e).Invoke? && InvokeCategory(RecordEndpoint(e)).Some? ==>
      HandlerRegistry.FlagsAfter(Footprint(reg, InvokeCategory(RecordEndpoint(e)).value), InvokedEvent(e, lib))
  {
    if !preflight {
      return Raised("RuntimeError");
    }
    match Classify(e) {
      case ApiGateway =>
        r := ApigwEvent(e, functionName, secret, now, lib, reg, lc);
      case Invoke =>
        r := InvokeEvent(e, lib, reg);
      case Unknown =>
        r := Returned(Data(Null));
    }
  }

  // ---------------------------------------------------------------------------
  // The envelope as the invoked function receives it
  // ---------------------------------------------------------------------------

  function StrAt(v: Value, k: string): Option<string> {
    match Get(v, k)
    case Some(Str(s)) => Some(s)
    case _ => None
  }

  function HeaderMap(fs: seq<(string, Value)>): map<string, string> {
    if fs == [] then map[]
    else
      var m := HeaderMap(fs[..|fs| - 1]);
      match fs[|fs| - 1].1
      case Str(s) => m[fs[|fs| - 1].0 := s]
      case _ => m
  }

  function RecordOf(v: Value): InvokeRecord {
    InvokeRecord(StrAt(v, "eventSource"), StrAt(v, "endpoint"), StrAt(v, "body"))
  }

  /** The event a Lambda function receives for a JSON payload, read back into
      the fields the router looks at. */
  function DecodeEvent(v: Value): IncomingEvent {
    var headers := match Get(v, "headers") case Some(Obj(fs)) => HeaderMap(fs) case _ => map[];
    var body := StrAt(v, "body");
    var base64 := match Get(v, "isBase64Encoded") case Some(b) => Truthy(b) case None => false;
    var records := match Get(v, "Records")
      case Some(Arr(items)) => seq(|items|, i requires 0 <= i < |items| => RecordOf(items[i]))
      case _ => [];
    IncomingEvent(StrAt(v, "routeKey"), SlackEvent.ApiRequest(headers, body, base64), records)
  }

  /** The envelope reads back as an invoke event with its endpoint and body. */
  lemma EnvelopeDecodes(env: Envelope)
    ensures var e := DecodeEvent(EnvelopeValue(env));
      Classify(e) == Invoke && RecordEndpoint(e) == Some(env.endpoint) && RecordBody(e) == Some(env.body)
  {
    var rec := Obj([("eventSource", Str(EventSource)), ("endpoint", Str(env.endpoint)), ("body", Str(env.body))]);
    assert IndexOf(rec.fields[1..], "body") == Some(1) by {
      assert IndexOf(rec.fields[1..][1..], "body") == Some(0);
    }
    assert RecordOf(rec) == InvokeRecord(Some(EventSource), Some(env.endpoint), Some(env.body));
    assert Get(EnvelopeValue(env), "Records") == Some(Arr([rec]));
  }

  // ---------------------------------------------------------------------------
  // Routing properties
  // ---------------------------------------------------------------------------

  /** A request that fails validation is answered 401, and nothing is invoked. */
  lemma RejectedIsUnauthorized(msg: string, ep: Outcome<Option<string>>, lib: Foreign.Library,
                               table: Option<map<string, seq<HandlerRegistry.Handler>>>)
    ensures Dispatch(Returned(SlackEvent.Rejected(msg)), ep, lib, table) == Plan(Returned(Status(401)), None)
  {
  }

  /** A validated request to any other endpoint is answered 400. */
  lemma UnknownEndpointIsBadRequest(json: string, event: Value, ep: Option<string>, lib: Foreign.Library,
                                    table: Option<map<string, seq<HandlerRegistry.Handler>>>)
    requires ep !in {Some("/actions"), Some("/commands"), Some("/events"), Some("/menus")}
    ensures Dispatch(Returned(SlackEvent.Accepted(json, event)), Returned(ep), lib, table) == Plan(Returned(Status(400)), None)
  {
  }

  /** `/menus` answers an empty option list at once. */
  lemma MenusAnswerEmpty(json: string, event: Value, lib: Foreign.Library,
                         table: Option<map<string, seq<HandlerRegistry.Handler>>>)
    ensures Dispatch(Returned(SlackEvent.Accepted(json, event)), Returned(Some("/menus")), lib, table) ==
      Plan(Returned(Text(MenuOptions)), None)
  {
  }

  /** `/events`: a URL verification is answered with its challenge and not
      invoked; any other event hash is answered 200 and invoked with the
      validated body. */
  lemma EventsRouting(json: string, event: Value, lib: Foreign.Library,
                      table: Option<map<string, seq<HandlerRegistry.Handler>>>)
    requires event.Obj?
    ensures var p := Dispatch(Returned(SlackEvent.Accepted(json, event)), Returned(Some("/events")), lib, table);
      if Get(event, "type") == Some(Str("url_verification")) then
        p == Plan(Returned(Text(ChallengeReply(Index(event, "challenge").value, lib))), None)
      else
        p == Plan(Returned(Status(200)), Some(Envelope("/events", json)))
  {
  }

  /** `/events` with an event that is not a hash raises before anything is invoked. */
  lemma EventsNeedAHash(json: string, event: Value, lib: Foreign.Library,
                        table: Option<map<string, seq<HandlerRegistry.Handler>>>)
    requires !event.Obj?
    ensures Dispatch(Returned(SlackEvent.Accepted(json, event)), Returned(Some("/events")), lib, table).result.Raised?
  {
  }

  /** `/actions` is answered 200 and invoked with the validated body. */
  lemma ActionsInvoke(json: string, event: Value, lib: Foreign.Library,
                      table: Option<map<string, seq<HandlerRegistry.Handler>>>)
    ensures Dispatch(Returned(SlackEvent.Accepted(json, event)), Returned(Some("/actions")), lib, table) ==
      Plan(Returned(Status(200)), Some(Envelope("/actions", json)))
  {
  }

  /** `/commands` runs the `command_response` chain, which the table never
      holds: as written, every validated slash command raises
      `NoMethodError` before anything is invoked. */
  lemma CommandsRaise(json: string, event: Value, lib: Foreign.Library,
                      table: Option<map<string, seq<HandlerRegistry.Handler>>>)
    requires table.None? || table.value.Keys == HandlerRegistry.Categories
    ensures Dispatch(Returned(SlackEvent.Accepted(json, event)), Returned(Some("/commands")), lib, table) ==
      Plan(Raised("NoMethodError"), None)
  {
    assert "command_response" !in HandlerRegistry.Categories;
  }

  /** With a `command_response` chain, `/commands` answers its mapped result
      and is still invoked. */
  lemma CommandsReply(json: string, event: Value, lib: Foreign.Library,
                      table: Option<map<string, seq<HandlerRegistry.Handler>>>)
    requires table.Some? && "command_response" in table.value
    ensures var r := HandlerRegistry.ChainResponse(table.value["command_response"], event);
      Dispatch(Returned(SlackEvent.Accepted(json, event)), Returned(Some("/commands")), lib, table) ==
        Plan(Returned(CommandReply(r, lib)), Some(Envelope("/commands", json)))
  {
  }

  /** An event with a route key is routed to API Gateway handling even when
      its records look like an internal invoke. */
  lemma RouteKeyWins(e: IncomingEvent, secret: string, now: int, lib: Foreign.Library,
                     table: Option<map<string, seq<HandlerRegistry.Handler>>>)
    requires e.routeKey.Some? && |e.records| > 0 && e.records[0].eventSource == Some(EventSource)
    ensures LambdaPlan(e, true, secret, now, lib, table) == ApigwPlan(e, secret, now, lib, table)
  {
  }

  /** An event that is neither routed nor invoked answers nil, runs no chain
      and invokes nothing. */
  lemma UnknownEventIsIgnored(e: IncomingEvent, secret: string, now: int, lib: Foreign.Library,
                              table: Option<map<string, seq<HandlerRegistry.Handler>>>)
    requires e.routeKey.None? && (|e.records| == 0 || e.records[0].eventSource != Some(EventSource))
    ensures LambdaPlan(e, true, secret, now, lib, table) == Plan(Returned(Data(Null)), None)
  {
  }

  /** The round trip through the asynchronous invoke: when the JSON library
      reads the payload back as the envelope it wrote, the invoked function
      classifies it as an invoke and runs the endpoint's category on exactly
      the event that validation parsed. */
  lemma InvokedRequestRunsItsChain(e: IncomingEvent, secret: string, now: int, lib: Foreign.Library,
                                   table: Option<map<string, seq<HandlerRegistry.Handler>>>, env: Envelope)
    requires ApigwPlan(e, secret, now, lib, table).invoke == Some(env)
    requires lib.parse(Payload(env, lib)) == Some(EnvelopeValue(env))
    ensures var e2 := DecodeEvent(lib.parse(Payload(env, lib)).value);
      var se := SlackEvent.Validate(e.request, secret, now, lib).value;
      var kind := InvokeCategory(Some(env.endpoint));
      Classify(e2) == Invoke && kind.Some? &&
      LambdaPlan(e2, true, secret, now, lib, table).invoke.None? &&
      LambdaPlan(e2, true, secret, now, lib, table).result ==
        match RunResult(table, kind.value, se.event)
        case Raised(err) => Raised(err)
        case Returned(v) => Returned(Data(v))
  {
    var e2 := DecodeEvent(EnvelopeValue(env));
    EnvelopeDecodes(env);
    SlackEvent.AcceptedEventIsParsed(e.request, secret, now, lib);
  }
}
