/** The Zod helpers of the shared package: the `toBoolean` transform, which
    repairs `z.coerce.boolean()` for query strings. */
module ZodUtil {
  import opened Json
  import Text

  /** The four spellings `toBoolean` reads as false. */
  const FalseSpellings: seq<string> := ["false", "0", "null", "undefined"]

  /** `toBoolean`: the value is first coerced to its string form, which is then
      false exactly when it is one of the four spellings. Coercion comes first,
      so the boolean `false`, the number 0, `null` and `undefined` all give false,
      while `true` and every other number give true. */
  function ToBoolean(v: JsValue): (b: bool)
    ensures v.Bool? ==> b == v.b
    ensures IsNullish(v) ==> !b
    ensures v.Num? ==> (b <==> v.n != 0)
  {
    NumberSpelling(v);
    ToJsString(v) !in FalseSpellings
  }

  /** The string form of an integer is one of the false spellings only for 0. */
  lemma NumberSpelling(v: JsValue)
    ensures v.Num? ==> (ToJsString(v) in FalseSpellings <==> v.n == 0)
  {
    if v.Num? {
      var s := ToJsString(v);
      if v.n < 0 {
        assert s[0] == '-';
      } else if v.n > 0 {
        assert s[0] != '0';
        assert s != "false" && s != "null" && s != "undefined" by {
          assert Text.IsDigit(s[0]);
        }
      }
    }
  }

  /** On strings: false for the four spellings and true for everything else,
      including the empty string and other capitalisations. */
  lemma ToBooleanOnStrings(s: string)
    ensures !ToBoolean(Str(s)) <==> s == "false" || s == "0" || s == "null" || s == "undefined"
    ensures ToBoolean(Str("")) && ToBoolean(Str("FALSE")) && ToBoolean(Str("False"))
  {
  }
}
