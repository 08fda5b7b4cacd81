# HTTPjUtil in Dafny

A model of the HTTP helper class `cn.nhcqc.arg.HTTPjUtil`. It covers four
parts:

- **Truncation.** `left(s, len)` keeps at most `len` characters from the start of a string and leaves `null` as `null`.
- **Response writing.** The text overloads of `resHTTP`, together with `resHTTPplain` and `resHTTPtoJSON`, set the Content-Type header by the charset rule. The `byte[]` overload passes the content type through unchanged. All of them start a chunked response and write the body in try-with-resources.
- **JSON map decoding.** `mapJSON` returns an empty map for `null` or blank input and otherwise hands the text to the JSON decoder.
- **Diagnostic dumps.** The `toString` overloads render a request or a response as text, with the body cut to a limit.

Java values are modelled as follows:

- A string is a sequence of UTF-16 code units (`JavaLang.CodeUnit`). This is what `String.length()` and `substring` count.
- `null` is `Nullable.Null`.
- A thrown exception is `Result.Thrown` or `Completion.Abrupt`.
- An `int` is the `int32` newtype, so `Integer.MAX_VALUE` is explicit.

`StringBuilder.append(String)` writes `null` as the text "null", and the dumps model this.

An `HttpExchange` is an immutable trace of the calls made on it:

- `AddHeader`
- `SendResponseHeaders`
- `Write` on the response stream (a `write(null)` that throws `NullPointerException` is not recorded)
- `Close` on the response stream

Each `resHTTP*` function returns the trace with its own calls appended. Network I/O is not modelled. The caller passes a `Faults` value that says which I/O step throws `IOException`: starting the response, writing the body or closing the stream.

Some operations come from libraries whose internals are not modelled, so the caller passes them in as function parameters:

- `String.getBytes(Charset)` is passed as `encode`.
- Gson's `toJson` is passed as `toJson`. It returns the text or throws, for example `JsonIOException`.
- Gson's `fromJson` is passed as `fromJson`. It returns the map (or `null`) or throws, for example `JsonSyntaxException`.

A charset is known only by its canonical name.

Files:

- `java_lang.dfy` (module `JavaLang`): Java integers and strings, `null`, exceptions, `String.indexOf`/`contains`, `Character.isWhitespace`, `String.isBlank`, `Integer.toString`, and a decimal parser that inverts `Integer.toString`.
- `truncation.dfy` (module `Truncation`): `left`.
- `json_codec.dfy` (module `JsonCodec`): `mapJSON`.
- `response_writer.dfy` (module `ResponseWriter`): the constants, the charset rule and the `resHTTP*` overloads.
- `diagnostics.dfy` (module `Diagnostics`): the `toString` dumps. The request dump is written twice: as the nested append loop of the source (`DumpRequest`) and as a declarative definition (`RequestDump`). The two are proved equal.

Behaviour of the code worth knowing:

- **`left` itself does not treat a limit of 0 or less as unbounded.** A limit of 0 gives an empty string, and a negative limit on a non-null string throws `StringIndexOutOfBoundsException`. Only the dumps at lines 139-163 normalise the limit first.
- **The `toString(HttpResponse<String>, int)` overload does not normalise its limit.** See Findings.
- **Truncation counts UTF-16 code units, not Unicode scalar values.** A cut can therefore split a surrogate pair.
- **A content type is not required to be non-empty.** Any string is accepted.

## Model

| member | source | states |
|---|---|---|
| Truncation.Left | src/main/java/cn/nhcqc/arg/HTTPjUtil.java:174-178 | null gives null for every limit; for a non-null string and a limit >= 0 the result is a prefix of the string of length min(length, limit); a negative limit on a non-null string throws StringIndexOutOfBoundsException |
| Truncation.LeftIdentityIff | src/main/java/cn/nhcqc/arg/HTTPjUtil.java:174-178 | for a limit >= 0, truncation returns the string unchanged exactly when the limit is at least its length |
| Truncation.LeftIdempotent | src/main/java/cn/nhcqc/arg/HTTPjUtil.java:174-178 | truncating an already truncated value with the same limit changes nothing |
| Truncation.LeftCompose | src/main/java/cn/nhcqc/arg/HTTPjUtil.java:174-178 | truncating to a and then to b equals truncating once to min(a, b) |
| Truncation.LeftMonotone | src/main/java/cn/nhcqc/arg/HTTPjUtil.java:174-178 | a smaller non-negative limit keeps a prefix of what a larger one keeps |
| JavaLang.IndexOfFrom | src/main/java/cn/nhcqc/arg/HTTPjUtil.java:78 | the index found is an occurrence with none before it, and -1 is returned exactly when there is no occurrence; this is the substring test `contains` relies on |
| JavaLang.ContainsIff | src/main/java/cn/nhcqc/arg/HTTPjUtil.java:78 | `contains("charset=")` holds exactly when the text occurs at some index (case-sensitive) |
| JavaLang.IsBlank | src/main/java/cn/nhcqc/arg/HTTPjUtil.java:42 | `isBlank` holds exactly when every code unit is Java whitespace (the empty string included) |
| JavaLang.DecimalRoundTrip | src/main/java/cn/nhcqc/arg/HTTPjUtil.java:160 | the decimal text appended for a status code parses back to that same code, for every 32-bit int including negatives |
| JsonCodec.MapJson | src/main/java/cn/nhcqc/arg/HTTPjUtil.java:41-46 | null or all-whitespace input gives an empty map without calling the decoder; input with a non-whitespace character gives exactly the decoder's result or exception |
| JsonCodec.MapJsonBlankInputs | src/main/java/cn/nhcqc/arg/HTTPjUtil.java:42 | "", runs of spaces and "\t\r\n " all give the empty map, whatever the decoder |
| JsonCodec.MapJsonDecodesNonBlank | src/main/java/cn/nhcqc/arg/HTTPjUtil.java:41-45 | any input holding a non-whitespace code unit reaches the decoder, even with surrounding whitespace |
| ResponseWriter.EffectiveContentType | src/main/java/cn/nhcqc/arg/HTTPjUtil.java:78-80 | the result always starts with the given content type and always contains "charset="; it is the content type unchanged if that already contains "charset=", and otherwise the content type + ";charset=" + the charset name |
| ResponseWriter.ResponseCalls | src/main/java/cn/nhcqc/arg/HTTPjUtil.java:59-63 | one Content-Type header, then SendResponseHeaders(status, 0), then (once started) at most one Write and exactly one Close, which comes last; Close is present exactly when starting succeeded; any Write carries the body bytes unchanged, and a Write happens exactly when the body is non-null |
| ResponseWriter.ResponseCompletion | src/main/java/cn/nhcqc/arg/HTTPjUtil.java:60-63 | the call returns exactly when the body is non-null and no I/O step fails; a null body throws NullPointerException once the response has started; every other failure is IOException |
| ResponseWriter.RespondBytes | src/main/java/cn/nhcqc/arg/HTTPjUtil.java:52-65 | earlier events on the exchange are kept; the new events form one response with the content type and status passed through unchanged; the stream is closed last whenever the response started; on every path the new events are exactly the response protocol: header and start only, when starting fails; otherwise header, start, the write of the body when it is non-null (even when that write or the close then fails), and close; a null body on a started response ends in Close with NullPointerException; a normal return means exactly header, start, write of the body, close |
| ResponseWriter.RespondText | src/main/java/cn/nhcqc/arg/HTTPjUtil.java:70-87 | on every path the binary overload's protocol, with the charset-rule content type and the body encoded with the given charset; once started, a non-null body's encoded bytes are the third event; a normal return means exactly header, start, write of the encoded body, close; a null body still ends in Close and throws NullPointerException |
| ResponseWriter.RespondTextUtf8 | src/main/java/cn/nhcqc/arg/HTTPjUtil.java:92-99 | identical to the charset overload called with UTF-8; a content type without "charset=" gets ";charset=UTF-8" appended |
| ResponseWriter.TextPlainHasNoCharset | src/main/java/cn/nhcqc/arg/HTTPjUtil.java:110 | "text/plain" does not contain "charset=", so plain-text responses always get a charset appended |
| ResponseWriter.RespondPlain | src/main/java/cn/nhcqc/arg/HTTPjUtil.java:104-111 | identical to the text overload with "text/plain"; the header is "text/plain;charset=" followed by the charset name |
| ResponseWriter.RespondPlainUtf8 | src/main/java/cn/nhcqc/arg/HTTPjUtil.java:116-122 | identical to the text overload with "text/plain" and UTF-8; the header is "text/plain;charset=UTF-8" |
| ResponseWriter.JsonContentTypeHasCharset | src/main/java/cn/nhcqc/arg/HTTPjUtil.java:31 | "application/json; charset=UTF-8" contains "charset=" |
| ResponseWriter.RespondJson | src/main/java/cn/nhcqc/arg/HTTPjUtil.java:127-132 | when serialisation throws (e.g. JsonIOException), that exception propagates and the exchange is untouched; otherwise status 200 and the header "application/json; charset=UTF-8" unmodified; once started, the third event writes the UTF-8 encoding of the serialised value (and, by the text overload's contract, a close follows); the call returns exactly when serialisation succeeds and no I/O step fails |
| Diagnostics.NormalisedLimit | src/main/java/cn/nhcqc/arg/HTTPjUtil.java:140 | the limit used is always positive: the given limit if positive, otherwise Integer.MAX_VALUE |
| Diagnostics.BodyPart | src/main/java/cn/nhcqc/arg/HTTPjUtil.java:148 | a null body shows as "null"; a non-null body shows as its prefix of length min(length, limit) |
| Diagnostics.ValueLinesAppend | src/main/java/cn/nhcqc/arg/HTTPjUtil.java:145 | the lines for a concatenation of values are the lines for each part, in order |
| Diagnostics.HeaderLinesAppend | src/main/java/cn/nhcqc/arg/HTTPjUtil.java:144-146 | the lines for a concatenation of headers are the lines for each part, in order |
| Diagnostics.SingleValueHeader | src/main/java/cn/nhcqc/arg/HTTPjUtil.java:145 | a header with one value gives exactly the line "name: value\r\n" |
| Diagnostics.RequestDump | src/main/java/cn/nhcqc/arg/HTTPjUtil.java:139-150 | the dump starts with the request line, the header lines and a blank line; after them comes the text `null` for a null body, otherwise the first min(length, limit) characters of the body, where a limit of zero or less means `Integer.MAX_VALUE` |
| Diagnostics.AppendValueLines | src/main/java/cn/nhcqc/arg/HTTPjUtil.java:145 | the inner loop appends exactly one "name: value\r\n" line per value, in value order, after what was already built |
| Diagnostics.DumpRequest | src/main/java/cn/nhcqc/arg/HTTPjUtil.java:139-150 | the source's nested append loop over headers and their values produces exactly the declarative request dump |
| Diagnostics.RequestDumpDefault | src/main/java/cn/nhcqc/arg/HTTPjUtil.java:135-137 | the two-argument form equals the limit-0 form and shows the whole body of any Java-sized string, or "null" for a null body |
| Diagnostics.RequestDumpLimit | src/main/java/cn/nhcqc/arg/HTTPjUtil.java:139-150 | a positive limit keeps min(length, limit) body characters; a limit of 0 or less keeps the whole body |
| Diagnostics.RequestDumpPrefix | src/main/java/cn/nhcqc/arg/HTTPjUtil.java:139-150 | a dump with a smaller positive limit is a prefix of one with a larger limit and of the unlimited one |
| Diagnostics.RequestDumpExample | src/main/java/cn/nhcqc/arg/HTTPjUtil.java:139-150 | GET /a with header Host: x, body "hello world" and limit 5 gives "GET /a\r\nHost: x\r\n\r\nhello" |
| Diagnostics.ResponseDump | src/main/java/cn/nhcqc/arg/HTTPjUtil.java:157-163 | the dump starts with the decimal status code and CRLF; after them comes the text `null` for a null body, otherwise the first min(length, limit) characters of the body, where a limit of zero or less means `Integer.MAX_VALUE` |
| Diagnostics.ResponseDumpDefault | src/main/java/cn/nhcqc/arg/HTTPjUtil.java:153-155 | the two-argument form equals the limit-0 form and shows the whole body |
| Diagnostics.ResponseDumpParses | src/main/java/cn/nhcqc/arg/HTTPjUtil.java:157-163 | the first CRLF in a response dump comes right after the status code; the text before it parses back to the status, and the text after it is the shown body |
| Diagnostics.ResponseDumpExample | src/main/java/cn/nhcqc/arg/HTTPjUtil.java:153-163 | status 404 with body "not found" and no limit gives "404\r\nnot found" |
| Diagnostics.ResponseBodyDump | src/main/java/cn/nhcqc/arg/HTTPjUtil.java:165-170 | as written: a null body gives the status line and `null` for every limit; a non-null body with a limit >= 0 gives the status line and the first min(length, limit) characters, so limit 0 shows no body; a negative limit on a non-null body throws StringIndexOutOfBoundsException |
| Diagnostics.ResponseBodyDumpNormalised | src/main/java/cn/nhcqc/arg/HTTPjUtil.java:165-170 | as intended: the same dump as the other response overloads on the response's own body, so a limit of 0 or less shows the whole body |
| Diagnostics.ResponseBodyDumpAgreesOnPositiveLimits | src/main/java/cn/nhcqc/arg/HTTPjUtil.java:165-170 | for every positive limit, the written and the intended overload give the same text |
| Diagnostics.ResponseBodyDumpDiverges | src/main/java/cn/nhcqc/arg/HTTPjUtil.java:165-170 | for every non-empty body and limit <= 0 the two disagree: limit 0 gives only the status line, and a negative limit throws |

## Left out

- `getLocalIPv4` (lines 182-193): it enumerates the operating system's network interfaces, which cannot be modelled.
- Gson (lines 35, 44, 131): decoding and serialising are caller-supplied functions that may return a value or throw. No claim is made about which inputs make them throw, or about round trips through them.
- `String.getBytes(Charset)` and `Charset.name()` (lines 80, 84): encoding is a caller-supplied function, and a charset is just its name.
- Network I/O of `HttpExchange`: only the calls are recorded, and whether starting the response, writing or closing throws `IOException` is a caller-supplied `Faults` value.
- `Headers.add` validates its value and throws `IllegalArgumentException` for a content type holding a bare CR or LF. This input check is not modelled: adding the header always succeeds in the model.
- A status of 1xx, 204 or 304, or a reply to a HEAD request, makes the server refuse every non-empty body write with `IOException`. The model does not derive this from the status; it is covered only because `Faults.writeFails` may be chosen freely.
- `com.sun.net.httpserver.Headers` rewrites header names (to "Content-type"). The trace records the name the helpers pass.
- `HttpHeaders.map()` iterates names in case-insensitive sorted order. The model takes the headers in the order given.
- A `null` content type or charset (a NullPointerException in the source) is not modelled: both are non-null in the model.
- Calling a `resHTTP*` helper twice on the same exchange is not modelled; the trace simply grows.
- JavaLang.ParseDecimal models `Integer.parseInt` only on an optional minus sign followed by digits. It exists to read status codes back.
- Diagnostics.RequestDumpDefault: states "the whole body" only for bodies of at most Integer.MAX_VALUE code units, because that is the longest Java string.
- Diagnostics.ResponseDumpDefault: states "the whole body" only for bodies of at most Integer.MAX_VALUE code units, for the same reason.

## Findings

| source | as written | input that shows it | evidently intended | confidence | as-written member | corrected member |
|---|---|---|---|---|---|---|
| src/main/java/cn/nhcqc/arg/HTTPjUtil.java:165-170 | the limit goes to `left` without the "0 or less means unbounded" normalisation that lines 140 and 158 apply | status 200, body "ok", limit 0 gives "200\r\n" with no body; limit -1 throws StringIndexOutOfBoundsException | a limit of 0 or less shows the whole body, like the other dump overloads | medium, not executed | Diagnostics.ResponseBodyDump, shown by Diagnostics.ResponseBodyDumpDiverges | Diagnostics.ResponseBodyDumpNormalised |
