/** Authentication of incoming Slack requests: the timestamp window, the
    signed base string, the signature comparison and the decoding of the body
    by content type. */
module SlackEvent {
  import opened Values
  import opened RubyCore
  import Foreign

  /** The part of an API Gateway event that validation reads. Header names
      are lower case, as API Gateway delivers them; `body` is `None` when the
      event carries no body (`e['body']` is nil). */
  datatype ApiRequest = ApiRequest(headers: map<string, string>, body: Option<string>, isBase64Encoded: bool)

  /** The outcome of `validate`: a rejection with its message, or the decoded
      body text (`json`) with its parsed form (`event`). */
  datatype Validation = Rejected(msg: string) | Accepted(json: string, event: Value)

  /** The decoded body: text, nil (a missing body passed through), or the XML
      document `REXML::Document.new` builds (an empty one from nil). */
  datatype HttpBody = Text(text: string) | NilBody | XmlDocument(source: Option<string>)

  /** Seconds an incoming request may be away from the current time. */
  const MaxSkew := 300

  /** The `:msg` of the result of `validate`. */
  function Msg(v: Validation): string {
    if v.Rejected? then v.msg else "Validated."
  }

  /** The `:valid?` of the result of `validate`. */
  predicate IsValid(v: Validation) {
    v.Accepted?
  }

  function Header(req: ApiRequest, name: string): Option<string> {
    if name in req.headers then Some(req.headers[name]) else None
  }

  function Abs(n: int): nat {
    if n < 0 then -n else n
  }

  /** The request time is within `MaxSkew` seconds of `now`, either way. */
  predicate Fresh(ts: string, now: int): (b: bool)
    ensures b <==> now - MaxSkew <= ToI(ts) <= now + MaxSkew
  {
    Abs(now - ToI(ts)) <= MaxSkew
  }

  /** The body that is signed: Base64-decoded when API Gateway says so.
      `Base64.decode64(nil)` raises `NoMethodError`; a missing body that is
      not Base64-encoded stays nil. */
  function SignedBody(req: ApiRequest, lib: Foreign.Library): (r: Outcome<Option<string>>)
    ensures r.Raised? <==> req.isBase64Encoded && req.body.None?
    ensures r.Raised? ==> r.error == "NoMethodError"
    ensures req.isBase64Encoded && req.body.Some? ==> r == Returned(Some(lib.decode64(req.body.value)))
    ensures !req.isBase64Encoded ==> r == Returned(req.body)
  {
    if !req.isBase64Encoded then Returned(req.body)
    else if req.body.None? then Raised("NoMethodError")
    else Returned(Some(lib.decode64(req.body.value)))
  }

  /** The body as `"#{b}"` interpolates it: nil gives the empty string. */
  function Interpolated(b: Option<string>): (s: string)
    ensures b.Some? ==> s == b.value
    ensures b.None? ==> s == []
  {
    if b.Some? then b.value else ""
  }

  /** The base string Slack signs, version `v0`. */
  function SignedBase(ts: string, body: string): (s: string)
    ensures |s| == 4 + |ts| + |body|
    ensures s[..3] == "v0:" && s[3..3 + |ts|] == ts && s[3 + |ts|] == ':' && s[4 + |ts|..] == body
  {
    "v0:" + ts + ":" + body
  }

  /** The signature header a genuine request carries. */
  function ExpectedSignature(secret: string, ts: string, body: string, lib: Foreign.Library): (sig: string)
    ensures |sig| >= 3 && sig[..3] == "v0=" && sig[3..] == lib.hexHmacSha256(secret, SignedBase(ts, body))
  {
    "v0=" + lib.hexHmacSha256(secret, SignedBase(ts, body))
  }

  /** `parse_http_body(b, content_type)`: a form body is decoded and
      re-generated as JSON, an XML body is parsed into a document, and any
      other body, nil included, is passed on as it is. The two decoders can
      raise; `URI.decode_www_form(nil)` raises `NoMethodError`, while
      `REXML::Document.new(nil)` builds an empty document. */
  function ParseHttpBody(b: Option<string>, contentType: Option<string>, lib: Foreign.Library): (r: Outcome<HttpBody>)
    ensures r.Returned? && r.value.XmlDocument? <==>
      contentType == Some("application/xml") && (b.None? || lib.parsesAsXml(b.value))
    ensures contentType == Some("application/xml") && b.Some? && !lib.parsesAsXml(b.value) ==>
      r == Raised("REXML::ParseException")
    ensures contentType == Some("application/x-www-form-urlencoded") && b.None? ==> r == Raised("NoMethodError")
    ensures contentType == Some("application/x-www-form-urlencoded") && b.Some? && lib.decodeWwwForm(b.value).None? ==>
      r == Raised("ArgumentError")
    ensures contentType == Some("application/x-www-form-urlencoded") && b.Some? && lib.decodeWwwForm(b.value).Some? ==>
      r == Returned(Text(lib.generate(FormObject(lib.decodeWwwForm(b.value).value), None)))
    ensures contentType != Some("application/x-www-form-urlencoded") && contentType != Some("application/xml") ==>
      r == Returned(if b.Some? then Text(b.value) else NilBody)
    ensures r.Raised? ==> r.error in {"REXML::ParseException", "ArgumentError", "NoMethodError"}
  {
    match contentType
    case Some("application/x-www-form-urlencoded") =>
      if b.None? then Raised("NoMethodError")
      else
        (match lib.decodeWwwForm(b.value)
         case Some(pairs) => Returned(Text(lib.generate(FormObject(pairs), None)))
         case None => Raised("ArgumentError"))
    case Some("application/xml") =>
      if b.None? then Returned(XmlDocument(None))
      else if lib.parsesAsXml(b.value) then Returned(XmlDocument(b))
      else Raised("REXML::ParseException")
    case _ => Returned(if b.Some? then Text(b.value) else NilBody)
  }

  /** `URI.decode_www_form(b).to_h`: a repeated name keeps its last value, at
      the position of its first occurrence. */
  function FormObject(pairs: seq<(string, string)>): (r: Value)
    ensures r.Obj? && DistinctKeys(r.fields) && Keys(r.fields) == Keys(pairs)
    ensures forall k :: Find(r.fields, k) == (match LastValue(pairs, k) case Some(s) => Some(Str(s)) case None => None)
  {
    var ps := seq(|pairs|, i requires 0 <= i < |pairs| => (pairs[i].0, Str(pairs[i].1)));
    StrPairs(pairs);
    ToHLast(ps);
    Obj(ToH(ps))
  }

  lemma {:induction false} StrPairs(pairs: seq<(string, string)>)
    ensures var ps := seq(|pairs|, i requires 0 <= i < |pairs| => (pairs[i].0, Str(pairs[i].1)));
      Keys(ps) == Keys(pairs) &&
      forall k :: LastValue(ps, k) == (match LastValue(pairs, k) case Some(s) => Some(Str(s)) case None => None)
  {
    var ps := seq(|pairs|, i requires 0 <= i < |pairs| => (pairs[i].0, Str(pairs[i].1)));
    if pairs != [] {
      var pre := pairs[..|pairs| - 1];
      StrPairs(pre);
      var pps := seq(|pre|, i requires 0 <= i < |pre| => (pre[i].0, Str(pre[i].1)));
      assert ps == pps + [ps[|ps| - 1]];
      assert pairs == pre + [pairs[|pairs| - 1]];
      KeysSnoc(ps);
      KeysSnoc(pairs);
    }
  }

  /** `JSON.parse` of the decoded body: a parse failure raises, and so do nil
      and an XML document, which are not strings. */
  function ParseEvent(b: HttpBody, lib: Foreign.Library): (r: Outcome<Value>)
    ensures !b.Text? ==> r == Raised("TypeError")
    ensures b.Text? && lib.parse(b.text).None? ==> r == Raised("JSON::ParserError")
    ensures b.Text? && lib.parse(b.text).Some? ==> r == Returned(lib.parse(b.text).value)
  {
    match b
    case NilBody => Raised("TypeError")
    case XmlDocument(_) => Raised("TypeError")
    case Text(s) =>
      match lib.parse(s)
      case Some(v) => Returned(v)
      case None => Raised("JSON::ParserError")
  }

  /** `SlackEvent.validate(e)`, with the signing secret and the current time
      (seconds since the epoch) as parameters. */
  function Validate(req: ApiRequest, secret: string, now: int, lib: Foreign.Library): (r: Outcome<Validation>)
    ensures Header(req, "x-slack-request-timestamp").None? ==> r == Returned(Rejected("Invalid request."))
    ensures (Header(req, "x-slack-request-timestamp").Some? &&
             !Fresh(Header(req, "x-slack-request-timestamp").value, now)) ==>
      r == Returned(Rejected("Request too old."))
    ensures (Header(req, "x-slack-request-timestamp").Some? &&
             Fresh(Header(req, "x-slack-request-timestamp").value, now) && SignedBody(req, lib).Raised?) ==>
      r == Raised("NoMethodError")
    ensures (Header(req, "x-slack-request-timestamp").Some? &&
             Fresh(Header(req, "x-slack-request-timestamp").value, now) && SignedBody(req, lib).Returned? &&
             Header(req, "x-slack-signature") !=
               Some(ExpectedSignature(secret, Header(req, "x-slack-request-timestamp").value,
                                      Interpolated(SignedBody(req, lib).value), lib))) ==>
      r == Returned(Rejected("Invalid signature."))
    // Only a fresh request whose signature header matches gets past the checks.
    ensures (r != Returned(Rejected("Invalid request.")) && r != Returned(Rejected("Request too old.")) &&
             r != Returned(Rejected("Invalid signature."))) ==>
      var ts := Header(req, "x-slack-request-timestamp");
      ts.Some? && Fresh(ts.value, now) &&
      match SignedBody(req, lib)
      case Raised(err) => r == Raised(err)
      case Returned(b) =>
        Header(req, "x-slack-signature") == Some(ExpectedSignature(secret, ts.value, Interpolated(b), lib)) &&
        match ParseHttpBody(b, Header(req, "content-type"), lib)
        case Raised(err) => r == Raised(err)
        case Returned(body) =>
          match ParseEvent(body, lib)
          case Raised(err) => r == Raised(err)
          case Returned(event) => r == Returned(Accepted(body.text, event))
    ensures r.Returned? && r.value.Rejected? ==>
      r.value.msg in {"Invalid request.", "Request too old.", "Invalid signature."}
  {
    match Header(req, "x-slack-request-timestamp")
    case None => Returned(Rejected("Invalid request."))
    case Some(t) =>
      if !Fresh(t, now) then Returned(Rejected("Request too old."))
      else
        match SignedBody(req, lib)
        case Raised(err) => Raised(err)
        case Returned(b) =>
          var sig := ExpectedSignature(secret, t, Interpolated(b), lib);
          if Header(req, "x-slack-signature") != Some(sig) then Returned(Rejected("Invalid signature."))
          else
            match ParseHttpBody(b, Header(req, "content-type"), lib)
            case Raised(err) => Raised(err)
            case Returned(body) =>
              match ParseEvent(body, lib)
              case Raised(err) => Raised(err)
              case Returned(event) => Returned(Accepted(body.text, event))
  }

  /** A difference of exactly `MaxSkew` seconds is still fresh; one more is not. */
  lemma FreshBoundary(now: int)
    ensures Fresh(IntToString(now - MaxSkew), now) && Fresh(IntToString(now + MaxSkew), now)
    ensures !Fresh(IntToString(now - MaxSkew - 1), now) && !Fresh(IntToString(now + MaxSkew + 1), now)
  {
    ToIOfToS(now - MaxSkew);
    ToIOfToS(now + MaxSkew);
    ToIOfToS(now - MaxSkew - 1);
    ToIOfToS(now + MaxSkew + 1);
  }

  /** With a signature function that is injective, two accepted requests with
      the same timestamp and signature headers signed the same body: the base
      string separates the timestamp from the body unambiguously. */
  lemma SignatureBindsBody(req1: ApiRequest, req2: ApiRequest, secret: string, now1: int, now2: int, lib: Foreign.Library)
    requires forall a, b :: lib.hexHmacSha256(secret, a) == lib.hexHmacSha256(secret, b) ==> a == b
    requires Validate(req1, secret, now1, lib).Returned? && Validate(req1, secret, now1, lib).value.Accepted?
    requires Validate(req2, secret, now2, lib).Returned? && Validate(req2, secret, now2, lib).value.Accepted?
    requires Header(req1, "x-slack-request-timestamp") == Header(req2, "x-slack-request-timestamp")
    requires Header(req1, "x-slack-signature") == Header(req2, "x-slack-signature")
    ensures SignedBody(req1, lib) == SignedBody(req2, lib)
  {
    AcceptedHasBody(req1, secret, now1, lib);
    AcceptedHasBody(req2, secret, now2, lib);
    var ts := Header(req1, "x-slack-request-timestamp").value;
    var b1, b2 := SignedBody(req1, lib).value.value, SignedBody(req2, lib).value.value;
    var s1, s2 := ExpectedSignature(secret, ts, b1, lib), ExpectedSignature(secret, ts, b2, lib);
    assert s1 == s2;
    assert s1[3..] == s2[3..];
    var base1, base2 := SignedBase(ts, b1), SignedBase(ts, b2);
    assert base1 == base2;
    assert base1[4 + |ts|..] == base2[4 + |ts|..];
  }

  /** A request without a body is never accepted: the body is signed as
      empty, but decoding or parsing nil raises. */
  lemma AcceptedHasBody(req: ApiRequest, secret: string, now: int, lib: Foreign.Library)
    requires Validate(req, secret, now, lib).Returned? && Validate(req, secret, now, lib).value.Accepted?
    ensures req.body.Some? && SignedBody(req, lib).Returned? && SignedBody(req, lib).value.Some?
  {
  }

  /** A validated request's decoded body parses to the event it carries. */
  lemma AcceptedEventIsParsed(req: ApiRequest, secret: string, now: int, lib: Foreign.Library)
    requires Validate(req, secret, now, lib).Returned? && IsValid(Validate(req, secret, now, lib).value)
    ensures var v := Validate(req, secret, now, lib).value;
      Msg(v) == "Validated." && lib.parse(v.json) == Some(v.event)
  {
  }
}

/** The Slack Web API calls the handlers make, with HTTP abstracted into the
    library's `postJson`. */
module SlackWeb {
  import opened Values
  import opened RubyCore
  import Foreign

  const BASE_URL := "https://slack.com/api/"

  /** The entry a truthy argument adds to the payload; none for nil or false. */
  function Given(key: string, v: Value): (r: seq<(string, Value)>)
    ensures |r| <= 1 && (r != [] <==> Truthy(v))
  {
    if Truthy(v) then [(key, v)] else []
  }

  /** The `data` hash `chat_postmessage` builds by key assignment. Arguments
      not given are nil (`Null`); every test is Ruby truthiness. Without
      blocks and without text it raises `RuntimeError`. */
  function ChatPostMessagePayload(channel: Value, blocks: Value, text: Value, threadTs: Value): (r: Outcome<Value>)
    ensures r.Raised? <==> !Truthy(blocks) && !Truthy(text)
    ensures r.Raised? ==> r.error == "RuntimeError"
    ensures r.Returned? ==>
      r.value == Obj([("channel", channel)] + Given("blocks", blocks) + Given("text", text) + Given("thread_ts", threadTs))
  {
    var data := [("channel", channel)];
    var withBody :=
      if Truthy(blocks) then
        var d := PutNew(data, "blocks", blocks);
        Returned(if Truthy(text) then PutNew(d, "text", text) else d)
      else if Truthy(text) then Returned(PutNew(data, "text", text))
      else Raised("RuntimeError");
    match withBody
    case Raised(err) => Raised(err)
    case Returned(d) =>
      assert d == data + Given("blocks", blocks) + Given("text", text);
      var full := if Truthy(threadTs) then PutNew(d, "thread_ts", threadTs) else d;
      assert full == d + Given("thread_ts", threadTs);
      Returned(Obj(full))
  }

  /** `data[key] = v` for a key `data` does not hold yet: appended at the end. */
  function PutNew(data: seq<(string, Value)>, key: string, v: Value): (r: seq<(string, Value)>)
    requires key !in Keys(data)
    ensures r == data + [(key, v)]
  {
    PutInPlace(data, key, v);
    Put(data, key, v)
  }

  /** `chat_postmessage(channel:, blocks:, text:, thread_ts:)`. */
  function ChatPostMessage(channel: Value, blocks: Value, text: Value, threadTs: Value, lib: Foreign.Library): (r: Outcome<Value>)
    ensures ChatPostMessagePayload(channel, blocks, text, threadTs).Raised? ==> r == Raised("RuntimeError")
    ensures ChatPostMessagePayload(channel, blocks, text, threadTs).Returned? ==>
      r == PostToSlack(Some("chat.postMessage"), ChatPostMessagePayload(channel, blocks, text, threadTs).value, None, lib)
  {
    match ChatPostMessagePayload(channel, blocks, text, threadTs)
    case Raised(err) => Raised(err)
    case Returned(data) => PostToSlack(Some("chat.postMessage"), data, None, lib)
  }

  /** The URL `post_to_slack` posts to: the given one, else the API method's.
      With neither, `BASE_URL + nil` raises `TypeError`. */
  function PostUrl(apiMethod: Option<string>, url: Option<string>): (r: Outcome<string>)
    ensures url.Some? ==> r == Returned(url.value)
    ensures url.None? && apiMethod.Some? ==> r == Returned(BASE_URL + apiMethod.value)
    ensures url.None? && apiMethod.None? ==> r == Raised("TypeError")
  {
    if url.Some? then Returned(url.value)
    else if apiMethod.Some? then Returned(BASE_URL + apiMethod.value)
    else Raised("TypeError")
  }

  /** The result of `post_to_slack` for an HTTP response: nil unless the code
      is 200; the parsed hash when its `ok` is truthy; nil when it is not; and
      `{body: raw}` when the body does not parse or parses to something whose
      `[:ok]` raises. */
  function SlackResult(resp: Foreign.HttpResponse, lib: Foreign.Library): (r: Value)
    ensures resp.code != 200 ==> r == Null
    ensures resp.code == 200 && lib.parse(resp.body).None? ==> r == Obj([("body", Str(resp.body))])
    ensures resp.code == 200 && lib.parse(resp.body).Some? ==>
      var h := lib.parse(resp.body).value;
      (!h.Obj? ==> r == Obj([("body", Str(resp.body))])) &&
      (h.Obj? ==> r == if Get(h, "ok").Some? && Truthy(Get(h, "ok").value) then h else Null)
  {
    if resp.code != 200 then Null
    else
      match lib.parse(resp.body)
      case None => Obj([("body", Str(resp.body))])
      case Some(h) =>
        match Index(h, "ok")
        case Raised(_) => Obj([("body", Str(resp.body))])
        case Returned(ok) => if Truthy(ok) then h else Null
  }

  /** `post_to_slack(method, data, url)`. */
  function PostToSlack(apiMethod: Option<string>, data: Value, url: Option<string>, lib: Foreign.Library): (r: Outcome<Value>)
    ensures r.Raised? <==> PostUrl(apiMethod, url).Raised?
    ensures r.Returned? ==> r.value == SlackResult(lib.postJson(PostUrl(apiMethod, url).value, data), lib)
    ensures r.Returned? && r.value != Null ==> lib.postJson(PostUrl(apiMethod, url).value, data).code == 200
  {
    match PostUrl(apiMethod, url)
    case Raised(err) => Raised(err)
    case Returned(u) => Returned(SlackResult(lib.postJson(u, data), lib))
  }

  /** A successful Slack answer is passed through only when it says `ok`. */
  lemma PostToSlackOk(apiMethod: string, data: Value, lib: Foreign.Library)
    requires lib.postJson(BASE_URL + apiMethod, data).code == 200
    ensures var body := lib.postJson(BASE_URL + apiMethod, data).body;
      var r := PostToSlack(Some(apiMethod), data, None, lib);
      r.Returned? &&
      (lib.parse(body).Some? && lib.parse(body).value.Obj? && Get(lib.parse(body).value, "ok") == Some(Bool(true)) ==>
        r.value == lib.parse(body).value) &&
      (lib.parse(body).Some? && lib.parse(body).value.Obj? && Get(lib.parse(body).value, "ok") == Some(Bool(false)) ==>
        r.value == Null)
  {
  }
}
