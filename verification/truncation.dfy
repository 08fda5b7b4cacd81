/** `HTTPjUtil.left`: keep at most `len` characters from the start of a
    string, preserving `null`. */
module Truncation {
  import opened JavaLang

  /** `left(s, len)`: `null` stays `null`; otherwise the prefix of length
      `Math.min(s.length(), len)`, which `String.substring` rejects with
      `StringIndexOutOfBoundsException` when it is negative. */
  function Left(s: Nullable<JavaString>, len: int32): (r: Result<Nullable<JavaString>>)
    ensures s.Null? ==> r == Ok(Null)
    ensures s.NonNull? && len < 0 ==> r == Thrown(StringIndexOutOfBoundsException)
    ensures s.NonNull? && len >= 0 ==>
      && r.Ok? && r.value.NonNull?
      && |r.value.value| == Min(|s.value|, len as int)
      && r.value.value <= s.value
  {
    match s
    case Null => Ok(Null)
    case NonNull(v) =>
      var n := Min(|v|, len as int);
      if n < 0 then Thrown(StringIndexOutOfBoundsException) else Ok(NonNull(v[..n]))
  }

  /** `Math.min` on `int`. */
  function Min(a: int, b: int): int {
    if a <= b then a else b
  }

  /** Truncation is the identity exactly when the limit is at least the
      length. */
  lemma LeftIdentityIff(s: JavaString, len: int32)
    requires len >= 0
    ensures Left(NonNull(s), len) == Ok(NonNull(s)) <==> |s| <= len as int
  {
    if |s| <= len as int {
      assert s[..|s|] == s;
    }
  }

  /** Truncating twice with the same limit is truncating once. */
  lemma LeftIdempotent(s: Nullable<JavaString>, len: int32)
    requires len >= 0
    ensures Left(s, len).Ok?
    ensures Left(Left(s, len).value, len) == Left(s, len)
  {
    if s.NonNull? {
      var t := Left(s, len).value.value;
      assert t[..Min(|t|, len as int)] == t;
    }
  }

  /** Truncating to `a` then to `b` is truncating to the smaller limit. */
  lemma LeftCompose(s: Nullable<JavaString>, a: int32, b: int32)
    requires a >= 0 && b >= 0
    ensures Left(s, a).Ok?
    ensures Left(Left(s, a).value, b) == Left(s, if a <= b then a else b)
  {
    if s.NonNull? {
      var v := s.value;
      var m := Min(|v|, a as int);
      assert v[..m][..Min(m, b as int)] == v[..Min(|v|, Min(a as int, b as int))];
    }
  }

  /** A smaller non-negative limit keeps a prefix of what a larger one keeps. */
  lemma LeftMonotone(s: JavaString, a: int32, b: int32)
    requires 0 <= a <= b
    ensures Left(NonNull(s), a).Ok? && Left(NonNull(s), b).Ok?
    ensures Left(NonNull(s), a).value.value <= Left(NonNull(s), b).value.value
  {
  }
}
