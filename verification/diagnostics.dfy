/** The `toString` overloads of `HTTPjUtil`: readable dumps of a request
    or a response for logging, with the body cut to a caller-chosen number
    of characters. */
module Diagnostics {
  import opened JavaLang
  import opened Truncation

  const CRLF: JavaString := Units("\r\n")
  const SPACE: JavaString := Units(" ")
  const COLON_SPACE: JavaString := Units(": ")

  /** Header names with their values, in the order the header map yields
      them. */
  type Headers = seq<(JavaString, seq<JavaString>)>

  /** The parts of a `java.net.http.HttpRequest` a dump reads; `uri` is the
      text `URI.toString()` gives. */
  datatype HttpRequest = HttpRequest(verb: JavaString, uri: JavaString, headers: Headers)

  /** The parts of a `java.net.http.HttpResponse<T>` a dump reads. */
  datatype HttpResponse<T> = HttpResponse(statusCode: int32, body: T)

  /** A limit of 0 or less stands for `Integer.MAX_VALUE`, i.e. no limit,
      since no Java string is longer than that. */
  function NormalisedLimit(limit: int32): (n: int32)
    ensures n > 0
    ensures limit > 0 ==> n == limit
    ensures limit <= 0 ==> n == INT_MAX
  {
    if limit <= 0 then INT_MAX else limit
  }

  /** The body as it appears in a dump: `left(body, n)` appended to a
      `StringBuilder`, so a `null` body shows as "null". */
  function BodyPart(body: Nullable<JavaString>, n: int32): (r: JavaString)
    requires n >= 0
    ensures body.Null? ==> r == Units("null")
    ensures body.NonNull? ==> r == body.value[..Min(|body.value|, n as int)]
  {
    StringValueOf(Left(body, n).value)
  }

  // ---------------------------------------------------------------------
  // Request dump

  /** "name: value" and a line break. */
  function HeaderLine(name: JavaString, value: JavaString): JavaString {
    name + COLON_SPACE + value + CRLF
  }

  /** One line per value of one header, in value order. */
  function ValueLines(name: JavaString, values: seq<JavaString>): JavaString {
    if |values| == 0 then []
    else HeaderLine(name, values[0]) + ValueLines(name, values[1..])
  }

  /** One line per (header, value) pair, in header order and then value
      order. */
  function HeaderLines(headers: Headers): JavaString {
    if |headers| == 0 then []
    else ValueLines(headers[0].0, headers[0].1) + HeaderLines(headers[1..])
  }

  lemma {:induction false} ValueLinesAppend(name: JavaString, a: seq<JavaString>, b: seq<JavaString>)
    ensures ValueLines(name, a + b) == ValueLines(name, a) + ValueLines(name, b)
  {
    if |a| == 0 {
      assert a + b == b;
    } else {
      assert (a + b)[1..] == a[1..] + b;
      ValueLinesAppend(name, a[1..], b);
    }
  }

  lemma {:induction false} HeaderLinesAppend(a: Headers, b: Headers)
    ensures HeaderLines(a + b) == HeaderLines(a) + HeaderLines(b)
  {
    if |a| == 0 {
      assert a + b == b;
    } else {
      assert (a + b)[1..] == a[1..] + b;
      HeaderLinesAppend(a[1..], b);
    }
  }

  /** A header with a single value gives exactly one line. */
  lemma SingleValueHeader(name: JavaString, value: JavaString)
    ensures HeaderLines([(name, [value])]) == name + COLON_SPACE + value + CRLF
  {
    var h: Headers := [(name, [value])];
    assert h[1..] == [];
    assert [value][1..] == [];
    calc {
      HeaderLines(h);
      ValueLines(name, [value]) + HeaderLines([]);
      HeaderLine(name, value) + ValueLines(name, []) + [];
      { assert HeaderLine(name, value) + [] + [] == HeaderLine(name, value); }
      HeaderLine(name, value);
    }
  }

  /** Everything before the body: the request line, the header lines and
      the blank line. */
  function RequestHead(req: HttpRequest): JavaString {
    req.verb + SPACE + req.uri + CRLF + HeaderLines(req.headers) + CRLF
  }

  /** `toString(req, body, limitBodyDump)`, declaratively. */
  function RequestDump(req: HttpRequest, body: Nullable<JavaString>, limit: int32): (r: JavaString)
    ensures RequestHead(req) <= r
    ensures body.Null? ==> r[|RequestHead(req)|..] == Units("null")
    ensures body.NonNull? ==>
      r[|RequestHead(req)|..] == body.value[..Min(|body.value|, if limit > 0 then limit as int else INT_MAX as int)]
  {
    RequestHead(req) + BodyPart(body, NormalisedLimit(limit))
  }

  /** Append one line per value of header `name`, as the inner `forEach`
      of the source does. */
  method AppendValueLines(s0: JavaString, name: JavaString, values: seq<JavaString>)
    returns (s: JavaString)
    ensures s == s0 + ValueLines(name, values)
  {
    s := s0;
    var j := 0;
    while j < |values|
      invariant 0 <= j <= |values|
      invariant s == s0 + ValueLines(name, values[..j])
    {
      ValueLinesAppend(name, values[..j], [values[j]]);
      assert values[..j + 1] == values[..j] + [values[j]];
      assert [values[j]][1..] == [];
      s := s + (name + COLON_SPACE + values[j] + CRLF);
      j := j + 1;
    }
    assert values[..j] == values;
  }

  /** `toString(req, body, limitBodyDump)` as the source builds it: append
      the request line, then for each header each of its values as a line,
      then a blank line and the truncated body. */
  method DumpRequest(req: HttpRequest, body: Nullable<JavaString>, limit: int32)
    returns (s: JavaString)
    ensures s == RequestDump(req, body, limit)
  {
    var n := limit;
    if n <= 0 {
      n := INT_MAX;
    }
    var start := req.verb + SPACE + req.uri + CRLF;
    s := start;
    var i := 0;
    while i < |req.headers|
      invariant 0 <= i <= |req.headers|
      invariant s == start + HeaderLines(req.headers[..i])
    {
      var (k, vl) := req.headers[i];
      s := AppendValueLines(s, k, vl);
      HeaderLinesAppend(req.headers[..i], [req.headers[i]]);
      assert [req.headers[i]][1..] == [];
      assert req.headers[..i + 1] == req.headers[..i] + [req.headers[i]];
      i := i + 1;
    }
    assert req.headers[..i] == req.headers;
    s := s + CRLF + StringValueOf(Left(body, n).value);
  }

  /** `toString(req, body)`: the dump with limit 0, which shows the whole
      body. */
  function RequestDumpDefault(req: HttpRequest, body: Nullable<JavaString>): (r: JavaString)
    ensures r == RequestDump(req, body, 0)
    ensures body.NonNull? && |body.value| <= INT_MAX as int ==> r == RequestHead(req) + body.value
    ensures body.Null? ==> r == RequestHead(req) + Units("null")
  {
    RequestDump(req, body, 0)
  }

  /** A positive limit keeps that many body characters (or the whole body
      if shorter); a limit of 0 or less keeps the whole body. */
  lemma RequestDumpLimit(req: HttpRequest, body: JavaString, limit: int32)
    ensures limit > 0 ==>
      RequestDump(req, NonNull(body), limit) == RequestHead(req) + body[..Min(|body|, limit as int)]
    ensures limit <= 0 && |body| <= INT_MAX as int ==>
      RequestDump(req, NonNull(body), limit) == RequestHead(req) + body
  {
    if limit <= 0 && |body| <= INT_MAX as int {
      assert body[..|body|] == body;
    }
  }

  /** A smaller positive limit gives a prefix of the dump a larger one
      gives, and every dump is a prefix of the unlimited one. */
  lemma RequestDumpPrefix(req: HttpRequest, body: Nullable<JavaString>, a: int32, b: int32)
    requires 0 < a <= b
    requires body.NonNull? ==> |body.value| <= INT_MAX as int
    ensures RequestDump(req, body, a) <= RequestDump(req, body, b)
    ensures RequestDump(req, body, a) <= RequestDump(req, body, 0)
  {
    if body.NonNull? {
      LeftMonotone(body.value, a, b);
      LeftMonotone(body.value, a, INT_MAX);
    }
  }

  /** For example, GET /a with one Host header, body cut to five
      characters, gives "GET /a\r\nHost: x\r\n\r\nhello". */
  lemma RequestDumpExample()
    ensures RequestDump(HttpRequest(Units("GET"), Units("/a"), [(Units("Host"), [Units("x")])]),
                        NonNull(Units("hello world")), 5)
         == Units("GET") + SPACE + Units("/a") + CRLF
          + Units("Host") + COLON_SPACE + Units("x") + CRLF
          + CRLF
          + Units("hello")
  {
    SingleValueHeader(Units("Host"), Units("x"));
    assert Units("hello world")[..5] == Units("hello");
  }

  // ---------------------------------------------------------------------
  // Response dumps

  /** The status line: the decimal status code and a line break. */
  function StatusLine(statusCode: int32): JavaString {
    DecimalString(statusCode) + CRLF
  }

  /** `toString(res, body, limitBodyDump)`: the status line, then the body
      cut to the normalised limit. */
  function ResponseDump<T>(res: HttpResponse<T>, body: Nullable<JavaString>, limit: int32): (r: JavaString)
    ensures StatusLine(res.statusCode) <= r
    ensures body.Null? ==> r[|StatusLine(res.statusCode)|..] == Units("null")
    ensures body.NonNull? ==>
      r[|StatusLine(res.statusCode)|..] == body.value[..Min(|body.value|, if limit > 0 then limit as int else INT_MAX as int)]
  {
    StatusLine(res.statusCode) + BodyPart(body, NormalisedLimit(limit))
  }

  /** `toString(res, body)`: the dump with limit 0, which shows the whole
      body. */
  function ResponseDumpDefault<T>(res: HttpResponse<T>, body: Nullable<JavaString>): (r: JavaString)
    ensures r == ResponseDump(res, body, 0)
    ensures body.NonNull? && |body.value| <= INT_MAX as int ==> r == StatusLine(res.statusCode) + body.value
  {
    ResponseDump(res, body, 0)
  }

  /** A response dump can be read back: the first line break ends the
      status code, which parses to the status, and what follows is the
      shown body. */
  lemma ResponseDumpParses<T>(res: HttpResponse<T>, body: Nullable<JavaString>, limit: int32)
    ensures var d := ResponseDump(res, body, limit);
            var i := IndexOf(d, CRLF);
            && i == |DecimalString(res.statusCode)|
            && ParseDecimal(d[..i]) == Ok(res.statusCode)
            && d[i + |CRLF|..] == BodyPart(body, NormalisedLimit(limit))
  {
    var d := ResponseDump(res, body, limit);
    var code := DecimalString(res.statusCode);
    DecimalCharacters(res.statusCode);
    DecimalRoundTrip(res.statusCode);
    assert d[..|code|] == code;
    assert OccursAt(d, CRLF, |code|) by {
      assert d[|code|..|code| + |CRLF|] == CRLF;
    }
    forall k | 0 <= k < |code|
      ensures !OccursAt(d, CRLF, k)
    {
      assert d[k] == code[k];
      assert code[k] != CRLF[0];
    }
  }

  /** `toString(HttpResponse<String> res, limitBodyDump)` as written: the
      limit reaches `left` without normalisation, so 0 shows no body and a
      negative limit throws for a non-`null` body. */
  function ResponseBodyDump(res: HttpResponse<Nullable<JavaString>>, limit: int32): (r: Result<JavaString>)
    ensures res.body.NonNull? && limit < 0 ==> r == Thrown(StringIndexOutOfBoundsException)
    ensures res.body.Null? ==> r == Ok(StatusLine(res.statusCode) + Units("null"))
    ensures res.body.NonNull? && limit >= 0 ==>
      r == Ok(StatusLine(res.statusCode) + res.body.value[..Min(|res.body.value|, limit as int)])
  {
    match Left(res.body, limit)
    case Thrown(e) => Thrown(e)
    case Ok(shown) => Ok(StatusLine(res.statusCode) + StringValueOf(shown))
  }

  /** The overload as evidently intended: 0 or less means no limit, as in
      every other dump. */
  function ResponseBodyDumpNormalised(res: HttpResponse<Nullable<JavaString>>, limit: int32): (r: JavaString)
    ensures r == ResponseDump(res, res.body, limit)
    ensures res.body.NonNull? && limit <= 0 && |res.body.value| <= INT_MAX as int ==>
      r == StatusLine(res.statusCode) + res.body.value
  {
    ResponseDump(res, res.body, limit)
  }

  /** For positive limits the written and the intended overload agree. */
  lemma ResponseBodyDumpAgreesOnPositiveLimits(res: HttpResponse<Nullable<JavaString>>, limit: int32)
    requires limit > 0
    ensures ResponseBodyDump(res, limit) == Ok(ResponseBodyDumpNormalised(res, limit))
  {
  }

  /** For limit 0 the written overload drops a non-empty body that every
      other dump shows in full, and for a negative limit it throws where
      the intended one returns. */
  lemma ResponseBodyDumpDiverges(res: HttpResponse<Nullable<JavaString>>, limit: int32)
    requires res.body.NonNull? && 0 < |res.body.value| <= INT_MAX as int
    requires limit <= 0
    ensures ResponseBodyDump(res, limit) != Ok(ResponseBodyDumpNormalised(res, limit))
    ensures limit == 0 ==> ResponseBodyDump(res, limit) == Ok(StatusLine(res.statusCode))
    ensures limit < 0 ==> ResponseBodyDump(res, limit).Thrown?
  {
    if limit == 0 {
      assert res.body.value[..0] == [];
      assert StatusLine(res.statusCode) + [] == StatusLine(res.statusCode);
      var written := ResponseBodyDump(res, limit).value;
      var intended := ResponseBodyDumpNormalised(res, limit);
      assert |written| < |intended|;
    }
  }

  /** For example, a 404 with limit 0 shows the whole body. */
  lemma ResponseDumpExample()
    ensures ResponseDumpDefault(HttpResponse(404, ()), NonNull(Units("not found")))
         == Units("404\r\nnot found")
  {
    assert DecimalString(404) == Units("404");
  }
}
