/** The library calls Mos Eisley makes but does not implement. Each is a
    parameter of the model, not computed by it. */
module Foreign {
  import opened Values

  /** The `JSON::State` options that `json_with_object` passes to `JSON.fast_generate`. */
  datatype GenOptions = GenOptions(indent: string, space: string, objectNl: string, arrayNl: string)

  /** What `Neko::HTTP.post_json` returns: status code, status message, raw body. */
  datatype HttpResponse = HttpResponse(code: int, message: string, body: string)

  datatype Library = Library(
    /** `OpenSSL::HMAC.hexdigest('sha256', key, data)`: HMAC (RFC 2104) over SHA-256 (FIPS 180-4), lower-case hex. */
    hexHmacSha256: (string, string) -> string,
    /** `Base64.decode64` (RFC 2045). */
    decode64: string -> string,
    /** `URI.decode_www_form`: the name/value pairs of a form-encoded body, in
        order; `None` when it raises `ArgumentError` (a malformed or non-ASCII body). */
    decodeWwwForm: string -> Option<seq<(string, string)>>,
    /** `REXML::Document.new(text)` returns a document; false when it raises
        `REXML::ParseException` (text that is not well-formed XML). */
    parsesAsXml: string -> bool,
    /** `JSON.fast_generate(value, opts)`. */
    generate: (Value, Option<GenOptions>) -> string,
    /** `JSON.parse(text, symbolize_names: true)`; `None` when it raises `JSON::ParserError`. */
    parse: string -> Option<Value>,
    /** `String#encode('UTF-8', invalid: :replace, undef: :replace)`. */
    encodeUtf8: string -> string,
    /** `Time#utc.iso8601` of a time given in seconds since the epoch. */
    iso8601: int -> string,
    /** `to_s` of an array, a hash or a time (Ruby's inspect form). */
    inspect: Value -> string,
    /** `Neko::HTTP.post_json(url, data, head)` with the bot token header. */
    postJson: (string, Value) -> HttpResponse)
}
