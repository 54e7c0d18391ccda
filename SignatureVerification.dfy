/** `verifySignature(message, signature)`: the input guards, the recovery
    call and the mapping of thrown library errors to a verdict. */
module SignatureVerification {
  import opened JsText
  import opened Wrappers
  import opened Hex
  import opened Ethers

  /** The verdict; `signer` and `error` are `undefined` when `None`. */
  datatype VerificationResult = VerificationResult(
    isValid: bool,
    signer: Option<JsString>,
    error: Option<JsString>)

  const RequiredError: JsString := Literal("Message and signature are required")
  const HexError: JsString := Literal("Signature must be a valid hex string")
  const NotAddressError: JsString := Literal("Failed to recover valid signer address")
  const InvalidArgumentError: JsString := Literal("Invalid signature format or message encoding")
  const MalformedDataError: JsString := Literal("Malformed signature data")
  const FallbackError: JsString := Literal("Signature verification failed")

  function Invalid(error: JsString): VerificationResult {
    VerificationResult(false, None, Some(error))
  }

  /** The guards that run before the library is consulted: `None` when both
      pass. Emptiness is tested before the hex form. */
  function CheckInputs(message: JsString, signature: JsString): (r: Option<VerificationResult>)
    ensures r.None? <==> |message| > 0 && |signature| > 0 && IsHexString(signature)
    ensures (|message| == 0 || |signature| == 0) ==> r == Some(Invalid(RequiredError))
    ensures |message| > 0 && |signature| > 0 && !IsHexString(signature)
            ==> r == Some(Invalid(HexError))
  {
    if |message| == 0 || |signature| == 0 then Some(Invalid(RequiredError))
    else if !IsHexString(signature) then Some(Invalid(HexError))
    else None
  }

  /** The `catch` block: every thrown error becomes an invalid verdict with
      a non-empty error text; the code INVALID_ARGUMENT is tested first. */
  function ErrorResult(e: ThrownError): (r: VerificationResult)
    ensures !r.isValid && r.signer.None? && r.error.Some? && |r.error.value| > 0
    ensures e.code == Some(InvalidArgument) ==> r.error == Some(InvalidArgumentError)
    ensures e.code == Some(BadData) ==> r.error == Some(MalformedDataError)
    ensures e.code != Some(InvalidArgument) && e.code != Some(BadData)
            ==> r.error == Some(if |e.message| > 0 then e.message else FallbackError)
  {
    if e.code == Some(InvalidArgument) then Invalid(InvalidArgumentError)
    else if e.code == Some(BadData) then Invalid(MalformedDataError)
    else Invalid(if |e.message| > 0 then e.message else FallbackError)
  }

  /** `verifySignature(message, signature)`. It is total: whatever the
      library does, the outcome is a verdict. */
  function VerifySignature(lib: Library, message: JsString, signature: JsString): (r: VerificationResult)
    ensures r.isValid <==>
              && CheckInputs(message, signature).None?
              && VerifyMessage(lib, message, signature).Recovered?
              && lib.isAddress(VerifyMessage(lib, message, signature).address)
    ensures r.isValid ==>
              r.signer == Some(VerifyMessage(lib, message, signature).address)
              && r.error.None?
    ensures !r.isValid ==> r.signer.None? && r.error.Some? && |r.error.value| > 0
    ensures CheckInputs(message, signature).Some? ==> r == CheckInputs(message, signature).value
    ensures CheckInputs(message, signature).None? && VerifyMessage(lib, message, signature).Threw?
            ==> r == ErrorResult(VerifyMessage(lib, message, signature).error)
    ensures && CheckInputs(message, signature).None?
            && VerifyMessage(lib, message, signature).Recovered?
            && !lib.isAddress(VerifyMessage(lib, message, signature).address)
            ==> r == Invalid(NotAddressError)
  {
    match CheckInputs(message, signature)
    case Some(rejected) => rejected
    case None =>
      match VerifyMessage(lib, message, signature)
      case Threw(e) => ErrorResult(e)
      case Recovered(signer) =>
        if !lib.isAddress(signer) then Invalid(NotAddressError)
        else VerificationResult(true, Some(signer), None)
  }

  /** The guards decide without consulting the library: when one of them
      fails, the verdict is the same whatever recovery would have done. */
  lemma GuardsPrecedeRecovery(lib1: Library, lib2: Library, message: JsString, signature: JsString)
    requires CheckInputs(message, signature).Some?
    ensures VerifySignature(lib1, message, signature) == VerifySignature(lib2, message, signature)
  {
  }

  /** A message holding an unpaired high surrogate fails in the library's
      UTF-8 encoder, before the signature is parsed, and is reported as an
      encoding problem. */
  lemma UnpairedSurrogateIsEncodingError(lib: Library, message: JsString, signature: JsString)
    requires CheckInputs(message, signature).None?
    requires PersonalMessage.HasUnpairedHighSurrogate(message)
    ensures VerifySignature(lib, message, signature) == Invalid(InvalidArgumentError)
  {
  }
}
