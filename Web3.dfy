/** The pure helpers of the web client: shortening an address for display
    and the client-side signature format check, with the proof that this
    check accepts exactly the signatures the backend passes on to recovery. */
module Web3 {
  import opened JsText
  import opened Json
  import opened Hex
  import opened SignatureVerification
  import opened Server

  const Ellipsis: JsString := Literal("...")

  function Min(a: nat, b: nat): nat { if a < b then a else b }

  /** `formatAddress(address)`: the empty string stays empty; otherwise the
      first six units, `...`, and the last four. A string shorter than that
      is repeated whole on both sides, as `slice` clamps its indices. */
  function FormatAddress(address: JsString): (r: JsString)
    ensures address == [] ==> r == []
    ensures address != [] ==>
              var (n, head, tail) := (|address|, Min(|address|, 6), Min(|address|, 4));
              && |r| == head + 3 + tail
              && r[..head] == address[..head]
              && r[head..head + 3] == Ellipsis
              && r[head + 3..] == address[n - tail..]
    ensures |address| == 42 ==> |r| == 13
  {
    if |address| == 0 then []
    else Slice(address, 0, 6) + Ellipsis + SliceFrom(address, -4)
  }

  /** `isValidSignature(signature)`: a string of 132 units, `0x` followed
      by 130 hexadecimal digits, the 65 bytes of an r, s, v signature. */
  function IsValidSignature(signature: JsValue): (r: bool)
    ensures r <==>
              && signature.Str? && |signature.s| == 132
              && signature.s[0] == '0' as int && signature.s[1] == 'x' as int
              && forall i :: 2 <= i < 132 ==> IsHexDigit(signature.s[i])
  {
    HexPrefixUnits();
    && IsString(signature)
    && StartsWith(signature.s, HexPrefix)
    && |signature.s| == 132
    && IsHexString(signature.s)
  }

  /** For a request whose message is a non-empty string, the client check
      holds of the signature exactly when the handler's own checks pass and
      verifySignature's guards pass too, that is, exactly when recovery runs. */
  lemma ClientCheckMatchesBackend(body: JsValue)
    requires !IsNullish(body)
    requires Field(body, MessageKey).Str? && |Field(body, MessageKey).s| > 0
    ensures IsValidSignature(Field(body, SignatureKey)) <==>
              && CheckRequest(body).Proceed?
              && CheckInputs(CheckRequest(body).message, CheckRequest(body).signature).None?
  {
  }

  /** Every signature the backend accepted with status 200 passes the
      client check. */
  lemma AcceptedSignaturesPassClientCheck(lib: Ethers.Library, body: JsValue, now: Timestamp)
    requires VerifySignatureRoute(lib, body, now).status == 200
    ensures !IsNullish(body) && IsValidSignature(Field(body, SignatureKey))
  {
  }
}
