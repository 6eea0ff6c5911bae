/** JavaScript strings as the store sees them: sequences of UTF-16 code units.
    `.length`, `charCodeAt` and `startsWith` all work on code units, so the
    model does too. */
module Text {

  /** One UTF-16 code unit. */
  type CodeUnit = c: int | 0 <= c < 0x1_0000

  /** A JavaScript string. */
  type JsString = seq<CodeUnit>

  /** The code units of a Dafny string literal. Only used on ASCII literals,
      where every character is exactly one code unit. */
  function Js(s: string): (r: JsString)
    ensures |r| == |s|
    ensures forall i :: 0 <= i < |s| && s[i] as int < 0x1_0000 ==> r[i] == s[i] as int
  {
    seq(|s|, i requires 0 <= i < |s| => (s[i] as int) % 0x1_0000)
  }

  /** `key.startsWith(prefix)`. */
  predicate StartsWith(key: JsString, prefix: JsString)
  {
    |prefix| <= |key| && key[..|prefix|] == prefix
  }
}
