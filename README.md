# Mos Eisley for AWS Lambda, modelled in Dafny

Mos Eisley is a Ruby framework for Slack apps that run as one AWS Lambda
function. This project models its core and proves properties of that model:

- **Handler registry and chain runner** (`HandlerRegistry`). The
  process-wide table maps a category (`action`, `command`, `event`, `menu`)
  to an ordered list of `Handler` objects. `Registry.Add` appends one new
  handler in place. `RunChain` walks a list in order, keeps the last
  response and stops after a handler that called `stop`. Each `Handler` has
  its own mutable `stopped` flag, which `Handler.Run` clears before it calls
  the block.
- **Request authentication** (`SlackEvent`). `Validate` checks, in order:
  - the timestamp header is present;
  - the request is no more than 300 seconds away from now;
  - the signature header equals `v0=` followed by the hex HMAC-SHA256 of
    `v0:<timestamp>:<body>`.
  
  It then decodes the body by content type and parses it as JSON.
- **Slack Web API payloads** (`SlackWeb`). These cover the payload
  `chat_postmessage` builds and how `post_to_slack` shapes its result.
- **Ingress router** (`MosEisley`).
  - `LambdaPlan` and `LambdaEvent` classify the Lambda event.
  - `Dispatch` routes a validated API Gateway request by the last token of
    its route key.
  - Validated `/actions`, `/commands` and `/events` requests, except URL
    verifications, are also sent as an envelope through an asynchronous
    invoke of the same function, whatever the immediate answer. A
    `/commands` request is answered at once with the `command_response`
    reply and is still invoked.
  - `InvokePlan` and `InvokeEvent` run the category chain that the
    envelope's endpoint names.
  
  Each decision is a pure function returning a `Plan`: the response, plus
  the envelope to invoke if there is one. The methods that change the
  registry and the Lambda client are proved to carry out exactly that plan.
- **S3PO text utilities** (`S3po`). `Gsub` models Ruby's `gsub` for the
  literal and regular-expression patterns the source uses, scanning left to
  right and resuming after each replacement. On top of it are:
  - `escape_text` and `decode_text`;
  - `remove_symbols` and `escape_command`;
  - the value normaliser `format_json_value`, plus `json_with_object` and
    `parse_json`.
- **Block Kit builders** (`BlockKit`). These are the hashes of text objects,
  sections, headers, context blocks and options.

`Values` models Ruby values: nil, booleans, integers, strings, symbols,
times, arrays, and hashes as ordered key/value pairs, which keeps Ruby's
insertion order. `Outcome` is either the value a call returned or the class
name of the exception it raised.

`RubyCore` models the parts of the Ruby core library that the source
relies on:
- `String#split` with no argument;
- `String#to_i` and `Integer#to_s`;
- `Hash#merge` and `[]=`, `Array#to_h`;
- interpolation, and `[]` with a symbol key.

`Foreign.Library` bundles the library calls the code makes but does not
implement:
- `OpenSSL::HMAC.hexdigest`;
- `Base64.decode64`;
- `URI.decode_www_form` and `REXML::Document.new`;
- `JSON.fast_generate` and `JSON.parse`;
- `String#encode`, `Time#iso8601`, `inspect`;
- `Neko::HTTP.post_json`.

They are parameters of the model, not computed by it.

The main results:
- `decode_text(escape_text(s)) == s` for every `s` (`S3po.DecodeEscape`).
- Nothing is invoked unless the request was validated (`MosEisley.Dispatch`).
- The envelope `apigw_event` sends is read back by the invoked function as
  an invoke event for the same endpoint. That function then runs the
  endpoint's chain on exactly the event that validation parsed
  (`MosEisley.InvokedRequestRunsItsChain`).
- Two accepted requests with the same timestamp and signature headers
  signed the same body, given an injective signature function
  (`SlackEvent.SignatureBindsBody`).
- The chain runner answers the response of the last handler that ran. It
  changes the stop flags of exactly the handlers that ran
  (`HandlerRegistry.RunChain`).

### Behaviour of the code that the model keeps
- **`command_response`.** `Handler.add` (lib/handler.rb:24-30) creates the
  table with only `action`, `command`, `event` and `menu`. But the
  `/commands` path calls `Handler.run(:command_response, …)`
  (lib/mos-eisley-lambda.rb:101), and `handlers/sample.rb:33` registers a
  `:command_response` handler. With the table `add` builds, both raise
  `NoMethodError` on `nil`. See `MosEisley.CommandsRaise` and
  `HandlerRegistry.LoadSample`.
- **`:nonslack`.** `handlers/sample.rb:28` registers a `:nonslack` handler,
  and that registration raises `NoMethodError` for the same reason.
  `unknown_event` (lib/mos-eisley-lambda.rb:166-168) runs no chain and
  answers nil (`MosEisley.UnknownEventIsIgnored`).
- **Signature comparison.** `validate` compares the signature header with
  plain `!=` (lib/slack.rb:20). The model compares strings for equality and
  says nothing about timing.
- **Invoke status.** `apigw_event` only logs the status code of the invoke
  (lib/mos-eisley-lambda.rb:141-145). The answer never depends on it
  (`MosEisley.DispatchRequest`).

## Model

| member | source | states |
|---|---|---|
| HandlerRegistry.HandlerResponse | lib/handler.rb:71-81 | A handler with no block, or whose block raises, answers exactly `{text: "Woops, encountered an error."}`. Otherwise it answers what the block returned. |
| HandlerRegistry.Ran | lib/handler.rb:51-57 | The number of handlers a chain runs is zero only for an empty chain and never more than the chain's length. Every handler before the last one that ran went on. A chain that ends early ends at a handler that asked to stop. |
| HandlerRegistry.ChainResponse | lib/handler.rb:50-59 | A chain answers nil when empty, and otherwise the response of the last handler that ran. |
| HandlerRegistry.RanFirstStop | lib/handler.rb:53-56 | The first handler that asks to stop is the last one to run. |
| HandlerRegistry.RanAt | lib/handler.rb:51-56 | After a prefix with no stop, the next handler runs. It is the last one to run if it asks to stop. |
| HandlerRegistry.RanNoStop | lib/handler.rb:51-57 | Without a stop, every handler of the chain runs. |
| HandlerRegistry.StopHidesLater | lib/handler.rb:53-56 | Handlers after a stop change neither how many handlers run nor the chain's answer. |
| HandlerRegistry.RanPastPrefix | lib/handler.rb:51-56 | After a prefix with no stop, the chain runs past that prefix. |
| HandlerRegistry.RaiseContinues | lib/handler.rb:76-80 | A block that raises without calling `stop` answers the fallback, and the chain goes on to the next handler. |
| HandlerRegistry.Handler.constructor | lib/handler.rb:64-69 | A new handler keeps its given type, name and block, and is not stopped. |
| HandlerRegistry.Handler.Run | lib/handler.rb:71-81 | After `run`, the handler is stopped exactly when this call's block called `stop`. The answer is the block's result, or the fallback. |
| HandlerRegistry.Handler.Stop | lib/handler.rb:83-85 | After `stop` the handler is stopped. |
| HandlerRegistry.Registry.constructor | lib/handler.rb:42-44 | Before the first registration the table is nil. |
| HandlerRegistry.Registry.Add | lib/handler.rb:24-33 | On first use the table is created with exactly the four empty categories. For those categories, exactly one new unstopped handler with the given type, name and block is appended at the end of the list: earlier entries and other categories are unchanged. For any other type, `NoMethodError` is raised and the table is left as created. Its invariant keeps handlers distinct and of their own category. |
| HandlerRegistry.Registry.Run | lib/handler.rb:48-60 | A nil table or a missing category raises `NoMethodError`. Otherwise the call answers the chain's response, the handlers that ran have their stop flags set by this run, and the later handlers keep theirs. |
| HandlerRegistry.RunChain | lib/handler.rb:50-59 | The loop answers `ChainResponse` of its list. Each handler that ran has the stop flag its block chose. Each later handler's flag is as before. |
| HandlerRegistry.LoadSample | handlers/sample.rb:4-31 | Loading the sample handlers registers the two `:event` handlers in order. The `:nonslack` registration then raises `NoMethodError`, and the other categories stay empty. |
| HandlerRegistry.RunSample | handlers/sample.rb:4-31 | After that load, an event answers the diagnostics handler's response when the first handler does not stop. A slash-command chain is empty and answers nil. |
| HandlerRegistry.StaleStopIgnored | lib/handler.rb:75 | A `stop` left over from an earlier run does not end a later chain. |
| MosEisley.Classify | lib/mos-eisley-lambda.rb:19-33 | An event is routed to API Gateway exactly when it has a route key. It is an invoke exactly when it has no route key and its first record comes from `MosEisley:Slack_event`. |
| MosEisley.Endpoint | lib/mos-eisley-lambda.rb:92 | The endpoint is the last white-space separated token of the route key. A nil route key raises. |
| MosEisley.InvokeCategory | lib/mos-eisley-lambda.rb:152-163 | `/actions`, `/commands` and `/events` map to the category `action`, `command` and `event`. Every other endpoint runs nothing. |
| MosEisley.RunResult | lib/handler.rb:48-59 | `Handler.run` raises `NoMethodError` exactly when the table is nil or lacks the category. Otherwise it answers the chain's response. |
| MosEisley.CommandReply | lib/mos-eisley-lambda.rb:102-108 | A string `r` is answered as the JSON of `{text: r}`, a hash as its JSON, and anything else leaves status 200. |
| MosEisley.ChallengeReply | lib/mos-eisley-lambda.rb:113-115 | The answer to a URL verification is `{"challenge": "`, then the challenge as interpolation writes it, then `"}`, each piece at its position. |
| MosEisley.EnvelopeValue | lib/mos-eisley-lambda.rb:125-133 | The payload hash has one record, with source `MosEisley:Slack_event`, the endpoint and the validated body. `EnvelopeDecodes` states that it reads back as an invoke event with that endpoint and body. |
| MosEisley.Payload | lib/mos-eisley-lambda.rb:138 | The invoke payload is the JSON of that hash. `InvokedRequestRunsItsChain` states that it carries the request through the invoke, given that JSON reads its own output back. |
| MosEisley.Dispatch | lib/mos-eisley-lambda.rb:87-133 | Something is invoked only for a validated request to `/actions`, `/commands` or `/events`, with the validated body and that endpoint, and the answer is then not an exception. A request that raises invokes nothing. |
| MosEisley.ApigwPlan | lib/mos-eisley-lambda.rb:85-147 | Fail closed: an invoke happens only when `Validate` accepted the request. The envelope carries the endpoint of the route key and the validated body. |
| MosEisley.InvokePlan | lib/mos-eisley-lambda.rb:149-164 | A nil body raises `TypeError`, and a body that does not parse raises `JSON::ParserError`. Otherwise the endpoint's category runs on the parsed event; `/menus` and unknown endpoints only log. |
| MosEisley.LambdaPlan | lib/mos-eisley-lambda.rb:17-34 | A failed pre-flight check raises `RuntimeError`. Otherwise the event goes to the path `Classify` picks, and an unknown event answers nil with no invoke. |
| MosEisley.LambdaClient.constructor | lib/mos-eisley-lambda.rb:134 | A new Lambda client has made no call. |
| MosEisley.LambdaClient.Invoke | lib/mos-eisley-lambda.rb:134-140 | Each invoke is recorded after the earlier ones, and its status is what the service answers. |
| MosEisley.ApigwEvent | lib/mos-eisley-lambda.rb:85-147 | The method answers what `ApigwPlan` decides and makes exactly the invocation it plans. The registry table is unchanged. The `command_response` handlers that ran on a validated slash command hold the stop flags their blocks chose, and every other handler keeps its flag. |
| MosEisley.DispatchRequest | lib/mos-eisley-lambda.rb:87-146 | The steps after validation carry out `Dispatch`: the same answer, whatever status the invoke returns, and exactly the planned invocation. Only a validated `/commands` request runs the `command_response` chain, and only the handlers that ran change their stop flags. |
| MosEisley.InvokeEvent | lib/mos-eisley-lambda.rb:149-164 | The method answers what `InvokePlan` decides, and the registry table is unchanged. The handlers of the endpoint's category that ran on the parsed body hold the stop flags their blocks chose, and the others keep theirs. |
| MosEisley.LambdaEvent | lib/mos-eisley-lambda.rb:17-34 | The method answers what `LambdaPlan` decides and makes exactly the invocation it plans. The registry table is unchanged. Its modifies clause depends on the event: only the `command_response` handlers of an API Gateway event, or only the endpoint category's handlers of an invoked event, may change. The handlers of that chain that ran hold the stop flags their blocks chose, and the rest keep theirs. |
| MosEisley.EnvelopeDecodes | lib/mos-eisley-lambda.rb:125-133 | The envelope, read back as a Lambda event, is an invoke event with the same endpoint and body. |
| MosEisley.RejectedIsUnauthorized | lib/mos-eisley-lambda.rb:86-90 | A request that fails validation is answered `{statusCode: 401}`, and nothing is invoked. |
| MosEisley.UnknownEndpointIsBadRequest | lib/mos-eisley-lambda.rb:121-124 | A validated request to any other endpoint is answered `{statusCode: 400}`, and nothing is invoked. |
| MosEisley.MenusAnswerEmpty | lib/mos-eisley-lambda.rb:117-120 | `/menus` is answered `{"options": []}`, and nothing is invoked. |
| MosEisley.EventsRouting | lib/mos-eisley-lambda.rb:109-116 | A URL verification is answered with its challenge and not invoked. Any other event is answered 200 and invoked with the validated body. |
| MosEisley.EventsNeedAHash | lib/mos-eisley-lambda.rb:112 | An `/events` body that is not a hash raises, and nothing is invoked. |
| MosEisley.ActionsInvoke | lib/mos-eisley-lambda.rb:95-97 | `/actions` is answered 200 and invoked with the validated body. |
| MosEisley.CommandsRaise | lib/mos-eisley-lambda.rb:101 | With the table as `Handler.add` builds it, every validated slash command raises `NoMethodError` and invokes nothing. |
| MosEisley.CommandsReply | lib/mos-eisley-lambda.rb:98-108 | With a `command_response` chain, `/commands` answers that chain's mapped result and is still invoked. |
| MosEisley.RouteKeyWins | lib/mos-eisley-lambda.rb:19-23 | An event with a route key takes the API Gateway path, even when its records look internal. |
| MosEisley.UnknownEventIsIgnored | lib/mos-eisley-lambda.rb:29-33 | An event that is neither routed nor invoked answers nil, runs no chain and invokes nothing. |
| MosEisley.InvokedRequestRunsItsChain | lib/mos-eisley-lambda.rb:149-158 | This is the round trip through the invoke. When JSON reads the payload back, the invoked function classifies it as an invoke. It runs the endpoint's category on the event that validation parsed and invokes nothing further. |
| SlackEvent.SignedBase | lib/slack.rb:17 | The signed text is `v0:`, the timestamp, `:` and the body, each piece at its position. |
| SlackEvent.SignedBody | lib/slack.rb:16 | A Base64-flagged body is decoded, and a missing Base64-flagged body raises `NoMethodError`. Otherwise the body, or its absence, is kept as it is. |
| SlackEvent.Interpolated | lib/slack.rb:17 | `"#{b}"` gives the body itself, or the empty string for nil. |
| SlackEvent.Fresh | lib/slack.rb:13-15 | A timestamp is fresh exactly when its integer value lies within 300 seconds of now, either way. |
| SlackEvent.ExpectedSignature | lib/slack.rb:19 | The expected header is `v0=` followed by the hex HMAC-SHA256 of the base string under the secret. |
| SlackEvent.ParseHttpBody | lib/slack.rb:28-40 | A form-encoded body becomes the JSON of its decoded pairs. It raises `ArgumentError` when it cannot be decoded, and `NoMethodError` when there is no body. An `application/xml` body becomes a document when it is well-formed XML or absent, and raises `REXML::ParseException` otherwise; no other content type gives a document. JSON and every other content type pass the body, or its absence, on unchanged. |
| SlackEvent.FormObject | lib/slack.rb:33 | `to_h` of the decoded pairs is a hash with distinct keys, the same key set, and the last value given for each key. |
| SlackEvent.ParseEvent | lib/slack.rb:24 | A body that does not parse raises `JSON::ParserError`. An absent body or an XML document raises `TypeError`. Otherwise the parsed value is returned. |
| SlackEvent.Validate | lib/slack.rb:10-26 | A missing timestamp gives 'Invalid request.'. A request more than 300 seconds away from now gives 'Request too old.'. A fresh Base64-flagged request without a body raises `NoMethodError`. A wrong or absent signature gives 'Invalid signature.'. Only a fresh request with the right signature, computed over the body or over the empty string when there is none, gets past these checks. Its decoded body is returned as `json` with its parse as `event`; otherwise the decoding error (`ArgumentError`, `REXML::ParseException`, `NoMethodError`) or the parse error (`JSON::ParserError`, `TypeError`) is raised. |
| SlackEvent.FreshBoundary | lib/slack.rb:13-15 | A timestamp exactly 300 seconds away either way is fresh, and 301 seconds is not. |
| SlackEvent.SignatureBindsBody | lib/slack.rb:16-22 | With an injective signature function, two accepted requests with equal timestamp and signature headers have equal signed bodies. |
| SlackEvent.AcceptedEventIsParsed | lib/slack.rb:23-25 | An accepted request has the message 'Validated.', and its `event` is the JSON parse of its `json`. |
| SlackEvent.AcceptedHasBody | lib/slack.rb:16-25 | A request without a body is never accepted: its signature covers the empty string, but decoding or parsing nil raises. |
| SlackWeb.ChatPostMessagePayload | lib/slack.rb:55-62 | The call raises `RuntimeError` exactly when neither blocks nor text is given. Otherwise the payload is the channel, then blocks, text and `thread_ts`, each only when given. |
| SlackWeb.PutNew | lib/slack.rb:57-62 | Assigning a key the hash does not hold appends the pair at the end. |
| SlackWeb.ChatPostMessage | lib/slack.rb:54-64 | The payload raises, or it is posted to `chat.postMessage`. |
| SlackWeb.PostUrl | lib/slack.rb:122 | The given URL wins. Otherwise the URL is the API method's URL under `https://slack.com/api/`, and `TypeError` when there is neither. |
| SlackWeb.SlackResult | lib/slack.rb:125-140 | A code other than 200 gives nil. A parsed hash whose `ok` is truthy is returned, and nil when `ok` is not truthy. A body that does not parse, or does not parse to a hash, gives `{body: raw}`. |
| SlackWeb.PostToSlack | lib/slack.rb:120-141 | The call raises exactly when no URL can be formed. Its result is the shaping of the HTTP response, and it is non-nil only for HTTP 200. |
| SlackWeb.PostToSlackOk | lib/slack.rb:129-137 | For HTTP 200, an answer with `ok: true` is passed through and one with `ok: false` gives nil. |
| S3po.EscapeText | lib/s3po/s3po.rb:65-71 | Escaped text contains no `<` or `>`, and every `&` in it starts `&amp;`, `&lt;` or `&gt;`. |
| S3po.EscapeIsEscaped | lib/s3po/s3po.rb:67-69 | The three successive gsubs equal the character-by-character escape. |
| S3po.DecodeEscape | lib/s3po/s3po.rb:76-90 | `decode_text(escape_text(s)) == s` for every `s`. |
| S3po.DecodeText | lib/s3po/s3po.rb:76-90 | Text with no `<` and no `&` is its own decoding. `DecodeEscape` makes it the inverse of `EscapeText`, and `DecodeLabel`, `DecodeBroadcast`, `DecodeBang` and `DecodeBracket` fix what it does to each kind of markup. |
| S3po.GsubUnchanged | lib/s3po/s3po.rb:67-69 | Text in which no match of the pattern can start comes back from `gsub` unchanged. |
| S3po.Gsub | lib/s3po/s3po.rb:67-69 | Ruby's `gsub` for the patterns used: it scans left to right, replaces each match and resumes after it. `GsubUnchanged` states that text in which no match can start comes back unchanged. `EscapeIsEscaped`, `LabelStage` and `BangStage` state what each rule does. |
| S3po.LabelStage | lib/s3po/s3po.rb:79 | The label rule rewrites `<m\|label>` to `<` + the leading `#`/`@` of `m` + the label + `>` in one step. |
| S3po.DecodeLabel | lib/s3po/s3po.rb:79 | `decode_text` of `<m\|label>` is the leading sigils of `m` followed by the label, for example `<@U1\|bob>` gives `@bob`. |
| S3po.DecodeBroadcast | lib/s3po/s3po.rb:81 | `<!here>`, `<!channel>` and `<!everyone>` decode to `@here`, `@channel` and `@everyone`. |
| S3po.BangStage | lib/s3po/s3po.rb:82 | The `<!…>` rule rewrites `<!x>` to `<x>`. |
| S3po.DecodeBang | lib/s3po/s3po.rb:82 | Any other `<!x>` decodes to `x`. |
| S3po.DecodeBracket | lib/s3po/s3po.rb:84 | A plain `<x>` decodes to `x`. |
| S3po.RemoveSymbols | lib/s3po/s3po.rb:96-98 | The result contains none of `_ * ~` and backtick. |
| S3po.RemoveSymbolsCounts | lib/s3po/s3po.rb:96-98 | Every other character occurs as often as in the input. |
| S3po.RemoveSymbolsAppend | lib/s3po/s3po.rb:96-98 | Removal works piecewise over a concatenation, so the order of the kept characters is preserved. |
| S3po.RemoveSymbolsIdempotent | lib/s3po/s3po.rb:96-98 | Applying `remove_symbols` twice equals applying it once. |
| S3po.EscapeCommand | lib/s3po/s3po.rb:104-106 | The result is `<`, the command, then `\|` and the label when a label is given, then `>`, each piece at its position. |
| S3po.DecodeCommand | lib/s3po/s3po.rb:104-106 | `decode_text` reads an escaped command back as the command. |
| S3po.DecodeLabelledCommand | lib/s3po/s3po.rb:104-106 | `decode_text` reads a labelled command back as the command's leading sigils followed by the label. |
| S3po.FormatValue | lib/s3po/s3po.rb:34-48 | The result is in JSON form at every depth: no `Time` anywhere, and distinct keys in every hash. An array keeps its length, and each element in order is the formatted original element. A hash keeps its key set. |
| S3po.FormatHashValues | lib/s3po/s3po.rb:39-40 | Each key of a formatted hash holds the formatted last value of that key in the original. With distinct keys, every pair stays at its position, with its value formatted. |
| S3po.FormatKeepsKeyOrder | lib/s3po/s3po.rb:39-40 | A hash with distinct keys keeps its keys in their order. |
| S3po.FormatLeaves | lib/s3po/s3po.rb:41-47 | Strings are re-encoded as UTF-8 and times become UTC ISO 8601 text. Nil, booleans, integers and symbols pass unchanged. |
| S3po.FormattedHash | lib/s3po/s3po.rb:40 | The hash rebuilt by `merge` from formatted values is JSON-ready and well formed, with the same keys. When the keys were already distinct, it holds the pairs themselves. |
| S3po.JsonWithObject | lib/s3po/s3po.rb:18-29 | nil gives `{}`. Anything else is the JSON of its normalised form, with the pretty options when `pretty` is set and the given options otherwise. |
| S3po.ParseJson | lib/s3po/s3po.rb:7-12 | Malformed input gives nil instead of raising. Otherwise the result is the parsed value. |
| BlockKit.Text | lib/s3po/blockkit.rb:54-66 | `:mrkdwn` gives exactly the keys `text` and `type`, with type `mrkdwn`. Every other type gives `text`, `emoji` and `type`, with type `plain_text`; `emoji` is true exactly for `:emoji`. |
| BlockKit.PlainText | lib/s3po/blockkit.rb:70-72 | `plain_text(t)` is `text(t, :plain)`: plain text with emoji false. |
| BlockKit.EmojiText | lib/s3po/blockkit.rb:76-78 | `emoji_text(t)` is `text(t, :emoji)`: plain text with emoji true. |
| BlockKit.ConText | lib/s3po/blockkit.rb:13-20 | A context block has exactly one element, the text object. |
| BlockKit.Header | lib/s3po/blockkit.rb:24-29 | A header block always holds emoji text. |
| BlockKit.SecText | lib/s3po/blockkit.rb:34-39 | A section block holds the text object of the given type. |
| BlockKit.SecFields | lib/s3po/blockkit.rb:44-49 | A fields section has exactly one text object per given string, in order. |
| BlockKit.TextObjects | lib/s3po/blockkit.rb:47 | The mapped list has the same length, and each element is the text object of the string at its position. |
| BlockKit.SelectOption | lib/s3po/blockkit.rb:84-90 | An option is `{text: text(t, type), value: v}`, in that key order. |
| BlockKit.MrkdwnHasNoEmoji | lib/s3po/blockkit.rb:57-58 | Mrkdwn text has no `emoji` key. |
| BlockKit.OtherKindsArePlain | lib/s3po/blockkit.rb:61-64 | `:plain`, `:plain_text` and any other type give the same object as `plain_text`. |
| RubyCore.Split | lib/mos-eisley-lambda.rb:92 | Every token of `split` is non-empty and free of white space. |
| RubyCore.LastTokenOf | lib/mos-eisley-lambda.rb:92 | The last token of `p + t + q` is `t` when `t` is a run of non-space characters, `q` is white space, and `p` is empty or ends in white space. |
| RubyCore.LastTokenNone | lib/mos-eisley-lambda.rb:92 | A route key has no last token exactly when it is all white space. |
| RubyCore.LastToken | lib/mos-eisley-lambda.rb:92 | `split[-1]`: a last token is non-empty and has no white space. `LastTokenOf` and `LastTokenNone` fix which token it is. |
| RubyCore.ToIOfToS | lib/slack.rb:13 | `to_i` reads back what `to_s` writes, for every integer. |
| RubyCore.ToI | lib/slack.rb:13 | `String#to_i` skips leading white space, reads an optional sign and the leading decimal digits (single underscores between digits are skipped), and gives 0 when there are none. `ToIOfToS` states that it reads back every integer `to_s` writes. |
| RubyCore.ToS | lib/mos-eisley-lambda.rb:115 | Interpolation writes nil as empty, booleans as `true`/`false`, integers in decimal, strings and symbols as they are, and anything else as `inspect` writes it. |
| RubyCore.Put | lib/s3po/s3po.rb:40 | After `h[k] = v` the key set gains `k`, `k` holds `v`, every other key keeps its value, and distinct keys stay distinct. |
| RubyCore.PutInPlace | lib/s3po/s3po.rb:40 | A present key keeps its position, a new key goes at the end, and every other pair stays where it was. |
| RubyCore.ToH | lib/slack.rb:33 | `to_h` has distinct keys and the same key set as the pairs. |
| RubyCore.ToHLast | lib/slack.rb:33 | Each key of `to_h` holds the last value paired with it. |
| RubyCore.ToHDistinct | lib/s3po/s3po.rb:40 | Pairs with distinct keys are their own hash. |
| RubyCore.Index | lib/mos-eisley-lambda.rb:112 | `v[:key]` answers exactly for a hash: the stored value, or nil for a missing key. Anything else raises. |

## Left out

- `preflightcheck` and `config` (lib/mos-eisley-lambda.rb:36-83) read the environment, fetch parameters from AWS SSM, `eval` the log level and memoise `Time.now`. The model has only its outcome, the `preflight` parameter of `LambdaPlan` and `LambdaEvent`.
- `ENV['SLACK_SIGNING_SECRET']` and `Time.new` in `validate` are the parameters `secret` and `now`, the latter in whole seconds. The fractional part of the float subtraction is not modelled.
- The foreign library calls (HMAC-SHA256, Base64, `URI.decode_www_form`, `REXML::Document.new`, JSON generation and parsing, `String#encode`, `Time#iso8601`, `inspect`, `Neko::HTTP.post_json`) are uncomputed functions of `Foreign.Library`. A call that can raise reports it instead: `parse` and `decodeWwwForm` give `None`, and `parsesAsXml` gives false. The model then raises the source's exception (`JSON::ParserError`, `ArgumentError`, `REXML::ParseException`).
- The AWS Lambda invoke is kept as the call `LambdaClient` records, with the status code a parameter. The AWS client itself is not modelled.
- Logger calls are not modelled. Where a logger call's value is the method's own answer (`/menus` and unknown endpoints in `invoke_event`), the answer is `Logged`, because `lib/logger.rb` is not part of this model.
- `Handler.import` and `import_from_path` (lib/handler.rb:8-19) traverse a directory and `load` files. They are left out, and `HandlerRegistry.LoadSample` performs the registrations of `handlers/sample.rb` directly.
- `Handler.command_acks` (lib/handler.rb:37-39) is a memoised empty hash that the core never reads. It is left out.
- `Handler#to_s` is only used in log messages. It is left out.
- `create_event` (lib/s3po/s3po.rb:50-60) builds `Message`, `Action` and `GenericEvent` objects, whose classes are not part of this model.
- The bodies of the sample handlers post to Slack and read `ME.config.info`. Each is a block parameter, and only whether it stops and what it answers is modelled.
- `SlackWeb.chat_memessage`, `post_response_url`, `post_log`, `views_open` and `views_update` are thin wrappers around `post_to_slack` and are left out. `chat_postephemeral`, `chat_schedulemessage` and `views_push` are empty stubs.
- The bearer-token header of `post_to_slack` comes from the environment. It is folded into `Library.postJson`.
- `HandlerRegistry.Handler.IsStopped` and `HandlerRegistry.Registry.Handlers` (`stopped?` and `Handler.handlers`) only read a field and carry no contract of their own. `RunChain` uses `IsStopped`. No core code calls `Handler.handlers`, and `Registry.Run` reads the table directly, as `Handler.run` reads `@handlers`.
- `HandlerRegistry.HandlerResponse`: a block's `Raised` outcome stands for an exception that `rescue => e` (lib/handler.rb:77) catches, that is a `StandardError`. An exception outside `StandardError` (`NotImplementedError`, `SystemExit`, `Interrupt`, `NoMemoryError`) escapes `Handler#run`, ends the chain and the request. The model does not represent such exceptions, so `RaiseContinues` and the chain lemmas hold only for blocks that raise `StandardError`s.
- Values.Value: symbol and string keys are both represented by their names, so a Ruby hash such as `{a: 1, "a" => 2}`, which keeps two keys, is modelled with one key. `S3po.FormatValue` and `RubyCore.ToH` then merge such keys where `format_json_value` (lib/s3po/s3po.rb:39-40) keeps both. JSON parsed with `symbolize_names` has only symbol keys, so the merge can only arise for hashes that handlers build.
- Floating-point values: `Values.Value` has no floats, so JSON numbers with a fraction and the float `Time` arithmetic of `validate` are not modelled.
- `RubyCore.ToI`: the `0d` radix prefix that Ruby's `to_i` also accepts is not modelled, because Slack timestamps are plain decimal digits.
- `S3po.Gsub`: Ruby's regular-expression engine is modelled only for the four patterns `decode_text` uses, each as a hand-written matcher.
- Concurrency: a Lambda invocation handles one request, so there is nothing to model.
- Aliasing between handler lists is excluded by the registry invariant (each handler belongs to the list of its own category, and each list holds distinct handlers). The model does not cover a handler object shared by two lists.
