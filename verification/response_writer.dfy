/** The `resHTTP*` family: send one HTTP response through an `HttpExchange`.

    The exchange is modelled as the immutable trace of the calls made on it;
    a call returns the exchange with its new events appended. Whether the
    network accepts the status line, the body bytes and the final close is
    not decided here: a `Faults` value supplied by the caller says which of
    those I/O steps throw `IOException`. */
module ResponseWriter {
  import opened JavaLang

  // ---------------------------------------------------------------------
  // Constants offered to callers

  const STATUS_OK: int32 := 200
  const STATUS_MOVED_PERMANENTLY: int32 := 301
  const STATUS_FOUND: int32 := 302
  const STATUS_BAD_REQUEST: int32 := 400
  const STATUS_FORBIDDEN: int32 := 403
  const STATUS_NOT_FOUND: int32 := 404
  const STATUS_SERVER_ERROR: int32 := 500

  const CONTENT_TYPE_JSON_UTF8: JavaString := Units("application/json; charset=UTF-8")
  const CONTENT_TYPE_OCTET: JavaString := Units("application/octet-stream")
  const TEXT_PLAIN: JavaString := Units("text/plain")

  /** The header every response sets. */
  const CONTENT_TYPE: JavaString := Units("Content-Type")
  /** The text whose presence means a content type already names its charset. */
  const CHARSET_PARAM: JavaString := Units("charset=")
  /** What is appended in front of a charset name. */
  const CHARSET_SEPARATOR: JavaString := Units(";charset=")

  // ---------------------------------------------------------------------
  // Charsets

  /** A `java.nio.charset.Charset`, known here only by its canonical name. */
  datatype Charset = Charset(name: JavaString)

  const UTF_8: Charset := Charset(Units("UTF-8"))

  /** `String.getBytes(Charset)`, supplied by the caller. */
  type Encoder = (JavaString, Charset) -> seq<int8>

  // ---------------------------------------------------------------------
  // The exchange as a trace

  /** One call made on the exchange or on its response body stream. */
  datatype Event =
    | AddHeader(name: JavaString, value: JavaString)        // getResponseHeaders().add
    | SendResponseHeaders(status: int32, responseLength: int) // sendResponseHeaders
    | Write(bytes: seq<int8>)                                // getResponseBody().write
    | Close                                                  // getResponseBody().close

  datatype Exchange = Exchange(events: seq<Event>)

  /** Which I/O steps fail with `IOException`. */
  datatype Faults = Faults(sendFails: bool, writeFails: bool, closeFails: bool)

  /** How a call ends: it returns the exchange, or it throws. */
  datatype Completion = Normal | Abrupt(exception: Exception)

  datatype Reply = Reply(exchange: Exchange, completion: Completion)

  /** The response length hint 0: chunked transfer encoding. */
  const CHUNKED: int := 0

  /** The shapes a single response call may leave on the trace: the
      Content-Type header and the start of the response always; once the
      response has started, at most one write followed by exactly one close. */
  predicate SingleResponse(added: seq<Event>) {
    && 2 <= |added| <= 4
    && added[0].AddHeader? && added[0].name == CONTENT_TYPE
    && added[1].SendResponseHeaders? && added[1].responseLength == CHUNKED
    && (|added| == 3 ==> added[2] == Close)
    && (|added| == 4 ==> added[2].Write? && added[3] == Close)
  }

  /** The events a call appended after those already on `http`. */
  function Added(http: Exchange, r: Reply): seq<Event>
    requires http.events <= r.exchange.events
  {
    r.exchange.events[|http.events|..]
  }

  // ---------------------------------------------------------------------
  // The content-type rule

  /** The content type declared for a text body: used as given when it
      already contains "charset=", otherwise extended with the name of the
      charset the body is encoded with. */
  function EffectiveContentType(contentType: JavaString, cs: Charset): (r: JavaString)
    ensures contentType <= r
    ensures Contains(r, CHARSET_PARAM)
    ensures Contains(contentType, CHARSET_PARAM) ==> r == contentType
    ensures !Contains(contentType, CHARSET_PARAM) ==> r == contentType + CHARSET_SEPARATOR + cs.name
  {
    if Contains(contentType, CHARSET_PARAM) then contentType
    else
      var r := contentType + CHARSET_SEPARATOR + cs.name;
      assert CHARSET_SEPARATOR[1..1 + |CHARSET_PARAM|] == CHARSET_PARAM;
      ContainsSuffixPart(contentType, CHARSET_SEPARATOR + cs.name, CHARSET_PARAM, 1);
      assert contentType + (CHARSET_SEPARATOR + cs.name) == r;
      r
  }

  // ---------------------------------------------------------------------
  // resHTTP and its overloads

  /** The calls one response makes on the exchange, in order: add the
      Content-Type header, start a chunked response with `status` (not
      validated), and, if that succeeded, write the body to the response
      stream inside try-with-resources, which closes the stream on every
      path. A `null` body never reaches the stream: `write(null)` throws
      before any byte is handed over, and that failed call is not
      recorded as an event. */
  function ResponseCalls(status: int32, contentType: JavaString,
                         body: Nullable<seq<int8>>, sendFails: bool): (added: seq<Event>)
    ensures SingleResponse(added)
    ensures added[0] == AddHeader(CONTENT_TYPE, contentType)
    ensures added[1] == SendResponseHeaders(status, CHUNKED)
    // once the response is started the stream is closed exactly once, last
    ensures sendFails <==> Close !in added
    ensures !sendFails ==> multiset(added)[Close] == 1 && added[|added| - 1] == Close
    // the only bytes written are the body's, unchanged
    ensures forall b :: Write(b) in added ==> body == NonNull(b)
    ensures (exists b :: Write(b) in added) <==> !sendFails && body.NonNull?
  {
    var started := [AddHeader(CONTENT_TYPE, contentType), SendResponseHeaders(status, CHUNKED)];
    if sendFails then started
    else
      match body
      case Null => started + [Close]
      case NonNull(bytes) =>
        assert Write(bytes) in started + [Write(bytes), Close];
        started + [Write(bytes), Close]
  }

  /** How a response call ends. Starting the response throws
      `IOException` before the stream is obtained. After that the write's
      exception (`NullPointerException` for a `null` body, `IOException`
      from the network) wins, suppressing one from `close`; `close`'s own
      `IOException` surfaces only when the write succeeded. */
  function ResponseCompletion(body: Nullable<seq<int8>>, faults: Faults): (c: Completion)
    ensures c == Normal <==>
      body.NonNull? && !faults.sendFails && !faults.writeFails && !faults.closeFails
    ensures !faults.sendFails && body.Null? ==> c == Abrupt(NullPointerException)
    ensures c.Abrupt? && (faults.sendFails || body.NonNull?) ==> c == Abrupt(IOException)
  {
    if faults.sendFails then Abrupt(IOException)
    else if body.Null? then Abrupt(NullPointerException)
    else if faults.writeFails then Abrupt(IOException)
    else if faults.closeFails then Abrupt(IOException)
    else Normal
  }

  /** `resHTTP(http, status, content_type, byte[] body)`: the exchange keeps
      every earlier event and gains exactly one response's calls, with the
      content type and the body bytes passed through unchanged. */
  function RespondBytes(http: Exchange, status: int32, contentType: JavaString,
                        body: Nullable<seq<int8>>, faults: Faults): (r: Reply)
    ensures http.events <= r.exchange.events
    ensures SingleResponse(Added(http, r))
    ensures Added(http, r)[0] == AddHeader(CONTENT_TYPE, contentType)
    ensures Added(http, r)[1] == SendResponseHeaders(status, CHUNKED)
    ensures !faults.sendFails ==> Added(http, r)[|Added(http, r)| - 1] == Close
    ensures forall b :: Write(b) in Added(http, r) ==> body == NonNull(b)
    ensures r.completion == Normal <==>
      body.NonNull? && !faults.sendFails && !faults.writeFails && !faults.closeFails
    ensures !faults.sendFails && body.Null? ==> r.completion == Abrupt(NullPointerException)
    // the full protocol on every path, failures included
    ensures Added(http, r) == ResponseCalls(status, contentType, body, faults.sendFails)
    ensures r.completion == ResponseCompletion(body, faults)
    ensures faults.sendFails <==> |Added(http, r)| == 2
    ensures !faults.sendFails && body.NonNull? ==> Added(http, r)[2] == Write(body.value)
    ensures r.completion == Normal ==>
      && body.NonNull?
      && Added(http, r) == [AddHeader(CONTENT_TYPE, contentType), SendResponseHeaders(status, CHUNKED),
                            Write(body.value), Close]
  {
    var added := ResponseCalls(status, contentType, body, faults.sendFails);
    var r := Reply(Exchange(http.events + added), ResponseCompletion(body, faults));
    assert Added(http, r) == added;
    r
  }

  /** `body.getBytes(cs)`, or no bytes at all for a `null` body. */
  function Encode(body: Nullable<JavaString>, cs: Charset, encode: Encoder): Nullable<seq<int8>> {
    match body
    case Null => Null
    case NonNull(s) => NonNull(encode(s, cs))
  }

  /** `resHTTP(http, status, content_type, String body, cs)`: the binary
      overload applied to the content type resolved by the charset rule and
      to the body encoded with `cs`. Encoding happens inside
      try-with-resources, so the stream is closed even when a `null` body
      makes it throw. */
  function RespondText(http: Exchange, status: int32, contentType: JavaString,
                       body: Nullable<JavaString>, cs: Charset, encode: Encoder,
                       faults: Faults): (r: Reply)
    ensures http.events <= r.exchange.events
    ensures SingleResponse(Added(http, r))
    ensures Added(http, r)[0] == AddHeader(CONTENT_TYPE, EffectiveContentType(contentType, cs))
    ensures Added(http, r)[1] == SendResponseHeaders(status, CHUNKED)
    ensures !faults.sendFails ==> Added(http, r)[|Added(http, r)| - 1] == Close
    ensures forall b :: Write(b) in Added(http, r) ==> body.NonNull? && b == encode(body.value, cs)
    ensures r.completion == Normal <==>
      body.NonNull? && !faults.sendFails && !faults.writeFails && !faults.closeFails
    ensures !faults.sendFails && body.Null? ==> r.completion == Abrupt(NullPointerException)
    // the binary overload's protocol on every path, failures included
    ensures Added(http, r) ==
      ResponseCalls(status, EffectiveContentType(contentType, cs), Encode(body, cs, encode), faults.sendFails)
    ensures r.completion == ResponseCompletion(Encode(body, cs, encode), faults)
    ensures !faults.sendFails && body.NonNull? ==> Added(http, r)[2] == Write(encode(body.value, cs))
    ensures r.completion == Normal ==>
      Added(http, r) == [AddHeader(CONTENT_TYPE, EffectiveContentType(contentType, cs)),
                         SendResponseHeaders(status, CHUNKED), Write(encode(body.value, cs)), Close]
  {
    RespondBytes(http, status, EffectiveContentType(contentType, cs), Encode(body, cs, encode), faults)
  }

  /** What the UTF-8 overloads append to a content type without a charset. */
  lemma Utf8Suffix()
    ensures CHARSET_SEPARATOR + UTF_8.name == Units(";charset=UTF-8")
  {
  }

  /** `resHTTP(http, status, content_type, String body)`: the text overload
      with UTF-8. */
  function RespondTextUtf8(http: Exchange, status: int32, contentType: JavaString,
                           body: Nullable<JavaString>, encode: Encoder, faults: Faults): (r: Reply)
    ensures r == RespondText(http, status, contentType, body, UTF_8, encode, faults)
    ensures http.events <= r.exchange.events
    ensures !Contains(contentType, CHARSET_PARAM) ==>
      Added(http, r)[0] == AddHeader(CONTENT_TYPE, contentType + Units(";charset=UTF-8"))
  {
    Utf8Suffix();
    RespondText(http, status, contentType, body, UTF_8, encode, faults)
  }

  /** "text/plain" names no charset. */
  lemma TextPlainHasNoCharset()
    ensures !Contains(TEXT_PLAIN, CHARSET_PARAM)
  {
    forall i
      ensures !OccursAt(TEXT_PLAIN, CHARSET_PARAM, i)
    {
      if 0 <= i <= |TEXT_PLAIN| - |CHARSET_PARAM| {
        assert TEXT_PLAIN[i] != CHARSET_PARAM[0];
      }
    }
    ContainsIff(TEXT_PLAIN, CHARSET_PARAM);
  }

  /** `resHTTPplain(http, status, body, cs)`: plain text, whose declared type
      is always "text/plain;charset=" followed by the charset's name. */
  function RespondPlain(http: Exchange, status: int32, body: Nullable<JavaString>,
                        cs: Charset, encode: Encoder, faults: Faults): (r: Reply)
    ensures r == RespondText(http, status, TEXT_PLAIN, body, cs, encode, faults)
    ensures http.events <= r.exchange.events
    ensures Added(http, r)[0] == AddHeader(CONTENT_TYPE, TEXT_PLAIN + CHARSET_SEPARATOR + cs.name)
  {
    TextPlainHasNoCharset();
    RespondText(http, status, TEXT_PLAIN, body, cs, encode, faults)
  }

  /** `resHTTPplain(http, status, body)`: plain text in UTF-8. */
  function RespondPlainUtf8(http: Exchange, status: int32, body: Nullable<JavaString>,
                            encode: Encoder, faults: Faults): (r: Reply)
    ensures r == RespondText(http, status, TEXT_PLAIN, body, UTF_8, encode, faults)
    ensures r == RespondTextUtf8(http, status, TEXT_PLAIN, body, encode, faults)
    ensures http.events <= r.exchange.events
    ensures Added(http, r)[0] == AddHeader(CONTENT_TYPE, TEXT_PLAIN + CHARSET_SEPARATOR + UTF_8.name)
  {
    RespondPlain(http, status, body, UTF_8, encode, faults)
  }

  /** The JSON content type already names its charset. */
  lemma JsonContentTypeHasCharset()
    ensures Contains(CONTENT_TYPE_JSON_UTF8, CHARSET_PARAM)
  {
    assert CONTENT_TYPE_JSON_UTF8[18..26] == CHARSET_PARAM;
    ContainsAt(CONTENT_TYPE_JSON_UTF8, CHARSET_PARAM, 18);
  }

  /** `resHTTPtoJSON(http, obj)`: serialise `obj` with the supplied
      `toJson` (Gson's, which never yields `null` but may throw) and send it
      as UTF-8 text with status 200 and the JSON content type, which is left
      unmodified. Serialisation happens before any call on the exchange, so
      when it throws the exchange is untouched. */
  function RespondJson<T>(http: Exchange, obj: T, toJson: T -> Result<JavaString>,
                          encode: Encoder, faults: Faults): (r: Reply)
    ensures toJson(obj).Thrown? ==> r == Reply(http, Abrupt(toJson(obj).exception))
    ensures toJson(obj).Ok? ==>
      r == RespondTextUtf8(http, STATUS_OK, CONTENT_TYPE_JSON_UTF8, NonNull(toJson(obj).value), encode, faults)
    ensures http.events <= r.exchange.events
    ensures toJson(obj).Ok? ==>
      && |Added(http, r)| >= 2
      && Added(http, r)[0] == AddHeader(CONTENT_TYPE, CONTENT_TYPE_JSON_UTF8)
      && Added(http, r)[1] == SendResponseHeaders(200, CHUNKED)
    ensures toJson(obj).Ok? && !faults.sendFails ==>
      Added(http, r)[2] == Write(encode(toJson(obj).value, UTF_8))
    ensures r.completion == Normal <==>
      toJson(obj).Ok? && !faults.sendFails && !faults.writeFails && !faults.closeFails
  {
    match toJson(obj)
    case Thrown(e) => Reply(http, Abrupt(e))
    case Ok(text) =>
      JsonContentTypeHasCharset();
      RespondTextUtf8(http, STATUS_OK, CONTENT_TYPE_JSON_UTF8, NonNull(text), encode, faults)
  }
}
