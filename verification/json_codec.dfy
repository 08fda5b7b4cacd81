/** `HTTPjUtil.mapJSON`: JSON text to a string-keyed map. The JSON decoder
    itself is not modelled; it is supplied as the `fromJson` parameter. */
module JsonCodec {
  import opened JavaLang

  /** A decoded JSON object: member names to decoded values. */
  type JsonMap<V> = map<JavaString, V>

  /** `mapJSON(json)`: a `null` or blank input yields a fresh empty map
      without consulting the decoder; any other input is handed to the
      decoder unchanged, and whatever it returns or throws (Gson throws
      `JsonSyntaxException` for malformed text) is the result. */
  function MapJson<V>(json: Nullable<JavaString>,
                      fromJson: JavaString -> Result<Nullable<JsonMap<V>>>)
    : (r: Result<Nullable<JsonMap<V>>>)
    ensures json.Null? ==> r == Ok(NonNull(map[]))
    ensures json.NonNull? ==>
      ((forall i | 0 <= i < |json.value| :: IsWhitespace(json.value[i])) ==> r == Ok(NonNull(map[])))
    ensures json.NonNull? ==>
      ((exists i | 0 <= i < |json.value| :: !IsWhitespace(json.value[i])) ==> r == fromJson(json.value))
  {
    if json.Null? || IsBlank(json.value) then Ok(NonNull(map[]))
    else fromJson(json.value)
  }

  /** The empty string and strings of spaces, tabs and line breaks are
      blank, so they all give the empty map. */
  lemma MapJsonBlankInputs<V>(fromJson: JavaString -> Result<Nullable<JsonMap<V>>>, n: nat)
    ensures MapJson(NonNull([]), fromJson) == Ok(NonNull(map[]))
    ensures MapJson(NonNull(seq(n, _ => 0x20 as CodeUnit)), fromJson) == Ok(NonNull(map[]))
    ensures MapJson(NonNull(Units("\t\r\n ")), fromJson) == Ok(NonNull(map[]))
  {
  }

  /** A non-blank input always reaches the decoder, even when it begins or
      ends with whitespace. */
  lemma MapJsonDecodesNonBlank<V>(pre: JavaString, c: CodeUnit, post: JavaString,
                                  fromJson: JavaString -> Result<Nullable<JsonMap<V>>>)
    requires !IsWhitespace(c)
    ensures MapJson(NonNull(pre + [c] + post), fromJson) == fromJson(pre + [c] + post)
  {
    assert (pre + [c] + post)[|pre|] == c;
  }
}
