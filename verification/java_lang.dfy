/** The small part of the Java platform that the HTTP helpers rely on:
    fixed-width integers, strings as UTF-16 code units, null, exceptions,
    and the String / Integer / Character operations the helpers call. */
module JavaLang {

  /** Java `byte`: signed 8-bit. */
  newtype int8 = x: int | -0x80 <= x < 0x80

  /** Java `int`: signed 32-bit. */
  newtype int32 = x: int | -0x8000_0000 <= x < 0x8000_0000

  /** `Integer.MAX_VALUE`. */
  const INT_MAX: int32 := 0x7fff_ffff

  /** One UTF-16 code unit, the element of a Java `String`; `String.length()`
      counts these. */
  newtype CodeUnit = x: int | 0 <= x < 0x1_0000

  type JavaString = seq<CodeUnit>

  /** A reference that may be `null`. */
  datatype Nullable<+T> = Null | NonNull(value: T)

  /** The exceptions the helpers can raise or propagate. */
  datatype Exception =
    | IOException
    | NullPointerException
    | StringIndexOutOfBoundsException
    | NumberFormatException
    | JsonSyntaxException    // Gson: the text is not the JSON expected
    | JsonIOException        // Gson: a value it cannot read or write

  /** Either the value a call returns or the exception it throws. */
  datatype Result<+T> = Ok(value: T) | Thrown(exception: Exception)

  /** True when every character of `s` lies in the Basic Multilingual Plane,
      so that each is exactly one UTF-16 code unit. */
  predicate InBmp(s: string) {
    forall i | 0 <= i < |s| :: s[i] as int < 0x1_0000
  }

  /** The UTF-16 form of a BMP string literal. */
  function Units(s: string): (r: JavaString)
    requires InBmp(s)
    ensures |r| == |s|
    ensures forall i | 0 <= i < |r| :: r[i] as int == s[i] as int
  {
    seq(|s|, i requires 0 <= i < |s| => s[i] as int as CodeUnit)
  }

  /** What `StringBuilder.append(String)` appends: the string itself, or the
      four characters "null" for a null reference. */
  function StringValueOf(s: Nullable<JavaString>): (r: JavaString)
    ensures s.NonNull? ==> r == s.value
    ensures s.Null? ==> r == Units("null")
  {
    match s
    case Null => Units("null")
    case NonNull(v) => v
  }

  // ---------------------------------------------------------------------
  // String.indexOf / String.contains

  /** `t` occurs in `s` starting at index `i`. */
  predicate OccursAt(s: JavaString, t: JavaString, i: int) {
    0 <= i && i + |t| <= |s| && s[i..i + |t|] == t
  }

  /** `s.indexOf(t, from)` for a start index within the string: the first
      index at or after `from` where `t` occurs in `s`, or -1 when there is
      none. */
  function IndexOfFrom(s: JavaString, t: JavaString, from: nat): (r: int)
    requires from <= |s|
    decreases |s| - from
    ensures r == -1 || (from <= r && OccursAt(s, t, r))
    ensures r == -1 <==> forall i | from <= i :: !OccursAt(s, t, i)
    ensures r != -1 ==> forall i | from <= i < r :: !OccursAt(s, t, i)
  {
    if from + |t| > |s| then -1
    else if s[from..from + |t|] == t then from
    else IndexOfFrom(s, t, from + 1)
  }

  /** `s.indexOf(t)`. */
  function IndexOf(s: JavaString, t: JavaString): int {
    IndexOfFrom(s, t, 0)
  }

  /** `s.contains(t)`: a case-sensitive substring test. */
  predicate Contains(s: JavaString, t: JavaString) {
    IndexOf(s, t) >= 0
  }

  /** `contains` holds exactly when some index is an occurrence. */
  lemma ContainsIff(s: JavaString, t: JavaString)
    ensures Contains(s, t) <==> exists i :: OccursAt(s, t, i)
  {
    if Contains(s, t) {
      assert OccursAt(s, t, IndexOf(s, t));
    }
  }

  /** An occurrence witnessed at a known index makes `contains` true. */
  lemma ContainsAt(s: JavaString, t: JavaString, i: int)
    requires OccursAt(s, t, i)
    ensures Contains(s, t)
  {
  }

  /** An occurrence inside the right part of a concatenation is an
      occurrence in the whole. */
  lemma ContainsSuffixPart(a: JavaString, b: JavaString, t: JavaString, k: nat)
    requires k + |t| <= |b| && b[k..k + |t|] == t
    ensures Contains(a + b, t)
  {
    var s := a + b;
    assert s[|a| + k..|a| + k + |t|] == b[k..k + |t|];
    ContainsAt(s, t, |a| + k);
  }

  // ---------------------------------------------------------------------
  // Character.isWhitespace / String.isBlank

  /** `Character.isWhitespace` on a code unit: the Unicode space, line and
      paragraph separators other than the non-breaking ones (U+00A0,
      U+2007, U+202F), and the controls TAB, LF, VT, FF, CR and
      U+001C..U+001F. No surrogate is whitespace, so testing code units
      agrees with testing code points. */
  predicate IsWhitespace(c: CodeUnit) {
    || 0x09 <= c <= 0x0D
    || 0x1C <= c <= 0x20
    || c == 0x1680
    || (0x2000 <= c <= 0x200A && c != 0x2007)
    || c == 0x2028 || c == 0x2029
    || c == 0x205F
    || c == 0x3000
  }

  /** `s.isBlank()`: scanning from the left finds no non-whitespace. */
  function IsBlank(s: JavaString): (b: bool)
    ensures b <==> forall i | 0 <= i < |s| :: IsWhitespace(s[i])
  {
    if |s| == 0 then true
    else if !IsWhitespace(s[0]) then false
    else
      var rest := IsBlank(s[1..]);
      assert forall i | 1 <= i < |s| :: s[i] == s[1..][i - 1];
      rest
  }

  // ---------------------------------------------------------------------
  // Integer.toString / Integer.parseInt

  const MINUS: CodeUnit := 0x2D
  const ZERO: CodeUnit := 0x30

  predicate IsDigit(c: CodeUnit) {
    ZERO <= c <= ZERO + 9
  }

  predicate AllDigits(s: JavaString) {
    forall i | 0 <= i < |s| :: IsDigit(s[i])
  }

  /** The decimal digits of a natural number, most significant first,
      without leading zeros. */
  function Digits(n: nat): (r: JavaString)
    decreases n
    ensures 1 <= |r|
    ensures AllDigits(r)
    ensures r[0] == ZERO ==> n == 0
  {
    if n < 10 then [ZERO + n as CodeUnit]
    else Digits(n / 10) + [ZERO + (n % 10) as CodeUnit]
  }

  /** The number a run of decimal digits denotes. */
  function DigitsValue(s: JavaString): nat
    requires AllDigits(s)
  {
    if |s| == 0 then 0
    else DigitsValue(s[..|s| - 1]) * 10 + (s[|s| - 1] - ZERO) as int
  }

  /** `Integer.toString(n)`, which is what `StringBuilder.append(int)`
      appends: an optional minus sign followed by the digits of |n|. */
  function DecimalString(n: int32): JavaString {
    if n < 0 then [MINUS] + Digits(-(n as int)) else Digits(n as int)
  }

  /** The `int` a value denotes, or `NumberFormatException` when it lies
      outside the 32-bit range. */
  function ToInt32(v: int): Result<int32> {
    if -0x8000_0000 <= v < 0x8000_0000 then Ok(v as int32) else Thrown(NumberFormatException)
  }

  /** `Integer.parseInt(s)` restricted to an optional minus sign followed by
      at least one ASCII digit, denoting a value in the 32-bit range; a
      leading plus sign and non-ASCII digits are not accepted here. */
  function ParseDecimal(s: JavaString): Result<int32> {
    if 2 <= |s| && s[0] == MINUS && AllDigits(s[1..]) then ToInt32(-(DigitsValue(s[1..]) as int))
    else if 1 <= |s| && AllDigits(s) then ToInt32(DigitsValue(s))
    else Thrown(NumberFormatException)
  }

  lemma {:induction false} DigitsRoundTrip(n: nat)
    decreases n
    ensures DigitsValue(Digits(n)) == n
  {
    var r := Digits(n);
    if n >= 10 {
      DigitsRoundTrip(n / 10);
      assert r[..|r| - 1] == Digits(n / 10);
    }
  }

  /** Parsing the decimal text of an `int` gives the `int` back. */
  lemma DecimalRoundTrip(n: int32)
    ensures ParseDecimal(DecimalString(n)) == Ok(n)
  {
    var s := DecimalString(n);
    if n < 0 {
      DigitsRoundTrip(-(n as int));
      assert s[1..] == Digits(-(n as int));
    } else {
      DigitsRoundTrip(n as int);
      assert s[0] != MINUS;
    }
  }

  /** The decimal text of an `int` holds no character other than a minus
      sign and digits; in particular no CR or LF. */
  lemma DecimalCharacters(n: int32)
    ensures forall i | 0 <= i < |DecimalString(n)| ::
      DecimalString(n)[i] == MINUS || IsDigit(DecimalString(n)[i])
  {
  }
}
