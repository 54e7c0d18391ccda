/** The hexadecimal string test of the ethers library (`isHexString`). */
module Hex {
  import opened JsText

  /** The two code units of the prefix `0x`. */
  const HexPrefix: JsString := Literal("0x")

  /** One of `0-9`, `a-f`, `A-F`. */
  predicate IsHexDigit(u: CodeUnit) {
    || ('0' as int <= u <= '9' as int)
    || ('a' as int <= u <= 'f' as int)
    || ('A' as int <= u <= 'F' as int)
  }

  /** `ethers.isHexString(s)` with no length argument: `s` matches
      `/^0x[0-9A-Fa-f]*$/`, so `0x` alone qualifies and the number of digits
      may be odd. */
  function IsHexString(s: JsString): (r: bool)
    ensures r <==> && 2 <= |s| && s[0] == '0' as int && s[1] == 'x' as int
                   && forall i :: 2 <= i < |s| ==> IsHexDigit(s[i])
  {
    HexPrefixUnits();
    StartsWith(s, HexPrefix) && forall i :: 2 <= i < |s| ==> IsHexDigit(s[i])
  }

  lemma HexPrefixUnits()
    ensures HexPrefix == ['0' as int, 'x' as int]
  {
  }
}
