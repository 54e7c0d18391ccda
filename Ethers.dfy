/** The part of the ethers library that signature verification calls.
    Keccak-256, secp256k1 public-key recovery (with the parsing of the
    signature) and the address test are left abstract: they are fields of a
    `Library` value, so every result of the model holds for any
    deterministic implementation of them. */
module Ethers {
  import opened JsText
  import opened Wrappers
  import opened PersonalMessage

  /** An error object the library throws: its `code` property and its
      `message` (the empty string standing for a missing message). */
  datatype ThrownError = ThrownError(code: Option<JsString>, message: JsString)

  /** The outcome of a library call that returns a string or throws. */
  datatype Recovery = Recovered(address: JsString) | Threw(error: ThrownError)

  datatype Library = Library(
    /** `keccak256` over bytes. */
    keccak256: Bytes -> Bytes,
    /** `recoverAddress(digest, signature)`: parses the signature and
        recovers the address of the signing key, or throws. */
    recoverAddress: (Bytes, JsString) -> Recovery,
    /** `isAddress(value)`. */
    isAddress: JsString -> bool)

  const InvalidArgument: JsString := Literal("INVALID_ARGUMENT")
  const BadData: JsString := Literal("BAD_DATA")

  /** What toUtf8Bytes throws for an unpaired high surrogate. */
  const SurrogateError: ThrownError :=
    ThrownError(Some(InvalidArgument), Literal("invalid surrogate pair"))

  /** `verifyMessage(message, signature)`: recovery from the Keccak-256
      digest of the EIP-191 personal-message payload. The message is hashed
      before the signature is looked at, so an encoding failure wins. */
  function VerifyMessage(lib: Library, message: JsString, signature: JsString): (r: Recovery)
    ensures HasUnpairedHighSurrogate(message) ==> r == Threw(SurrogateError)
  {
    match PersonalPayload(message)
    case None => Threw(SurrogateError)
    case Some(payload) => lib.recoverAddress(lib.keccak256(payload), signature)
  }

  /** The digest is taken over the UTF-8 bytes of the message: whenever
      `bytes` decode to `message`, recovery sees the payload of exactly those
      bytes. */
  lemma VerifyMessageHashesUtf8(lib: Library, message: JsString, signature: JsString, bytes: Bytes)
    requires Utf8Decode(bytes) == Some(message)
    ensures VerifyMessage(lib, message, signature)
            == lib.recoverAddress(lib.keccak256(Payload(bytes)), signature)
  {
    Utf8RoundTripBack(bytes);
  }
}
