# Web3 Message Signer: signature verification, modelled in Dafny

The backend of the Web3 Message Signer takes a message and a claimed
Ethereum personal-message signature (EIP-191, version byte `0x45`) and
answers who signed it. `verifySignature` rejects empty inputs and non-hex
signatures, recovers the signer through the ethers library and maps the
library's thrown error codes to fixed error texts. The `POST
/verify-signature` handler runs its own presence, type and format checks
before it delegates, and turns the verdict into an HTTP status and a JSON
reply. The web client has a signature format check of its own and shortens
addresses for display.

The model is pure: every operation of the core is a function and every
property is an `ensures` clause or a lemma.

- `JsText`: JavaScript strings as sequences of UTF-16 code units, so
  `length`, `startsWith` and `slice` behave exactly as in JavaScript.
  `Literal` gives the code units of the source's (ASCII) string literals.
- `Json`: the values a parsed JSON body can hold, with JavaScript
  truthiness (`!x` holds for `undefined`, `null`, `false`, `0`, `""`) and
  property access by destructuring (which throws on a nullish body).
- `Hex`: `ethers.isHexString` without a length, i.e. `/^0x[0-9A-Fa-f]*$/`.
- `PersonalMessage`: the bytes that are hashed. This covers the library's
  UTF-8 encoder over code units (an unpaired high surrogate throws
  `INVALID_ARGUMENT`; a lone low surrogate is encoded in three bytes) and
  a decoder that inverts it. It also gives the decimal byte length and the
  prefix `"\x19Ethereum Signed Message:\n"`.
- `Ethers`: the library as a value. `keccak256`, `recoverAddress` (which
  parses the signature and recovers the key) and `isAddress` are abstract
  deterministic functions, fields of `Library`. So every property holds for
  any implementation of them. `VerifyMessage` composes them the way
  `ethers.verifyMessage` does.
- `SignatureVerification`: `verifySignature`, with its guards and its
  `catch` block as a total function to a `VerificationResult`.
- `Server`: `GET /health`, the `POST /verify-signature` handler as a
  function from (body, library, clock) to (status, reply), the 404
  catch-all, and the route table.
- `Web3`: `formatAddress` and `isValidSignature` of the client. It also
  proves that the client check accepts exactly the signatures for which
  the backend runs recovery.

Clock readings (`new Date().toISOString()`) are a parameter `now`.

A few facts about the code shape the model:
- Replies carry error texts, not codes. Every text is fixed except the
  `catch` fallback, which passes the thrown error's message through.
- `verifySignature` does not check the signature's length; only the HTTP
  handler does.
- The handler's `details` object is sent only for falsy fields.
- Rejecting an algebraically invalid signature (`r = 0`) is left to the
  library's recovery.

## Model

| member | source | states |
|---|---|---|
| `JsText.StartsWith` | backend/src/index.ts:80 | `startsWith(prefix)` holds exactly when the prefix fits and agrees with the string unit by unit (the same call is at lib/web3.ts:134) |
| `JsText.Slice` | lib/web3.ts:105 | `slice(start, end)` clamps its indices to the string and counts negative ones from the end; an empty range gives `""` |
| `JsText.SliceIndex` | lib/web3.ts:105 | how one `slice` index becomes a position: negative from the end, clamped to `[0, length]` |
| `JsText.SliceFrom` | lib/web3.ts:105 | `slice(start)` runs to the end of the string |
| `JsText.LiteralIsUtf16` | backend/src/utils/signatureVerification.ts:22-68 | a general fact that justifies writing the source's fixed texts with `Literal`: any text whose characters all lie in the Basic Multilingual Plane has one code unit per character, the same as its UTF-16 form (the texts here are ASCII) |
| `Json.Truthy` | backend/src/index.ts:61 | a value is falsy exactly when it is `undefined`, `null`, `false`, `0` or `""`; so a truthy value is never nullish, a string is truthy exactly when it is non-empty, and arrays and objects are always truthy |
| `Json.Property` | backend/src/index.ts:58 | destructuring `req.body` throws exactly when the body is `null` or `undefined`; a present property reads as its value and an absent one as `undefined` |
| `Hex.IsHexString` | backend/src/utils/signatureVerification.ts:28 | `isHexString` without a length holds exactly for `0x` followed only by hex digits, either case (the same call is at lib/web3.ts:136) |
| `PersonalMessage.Utf8Encode` | backend/src/utils/signatureVerification.ts:35 | an encoded message has between one and three bytes per code unit, and an ASCII message is its own encoding |
| `PersonalMessage.Utf8EncodeFailsExactly` | backend/src/utils/signatureVerification.ts:35 | the message's UTF-8 encoding fails (library error `INVALID_ARGUMENT`) exactly when it holds a high surrogate not followed by a low one |
| `PersonalMessage.Utf8RoundTrip` | backend/src/utils/signatureVerification.ts:35 | decoding the encoded bytes gives back the message |
| `PersonalMessage.Utf8RoundTripBack` | backend/src/utils/signatureVerification.ts:35 | encoding a decoded message gives back the bytes, so the encoding is one-to-one |
| `PersonalMessage.TextAlwaysEncodes` | backend/src/utils/signatureVerification.ts:35 | a message made of Unicode characters (no lone surrogates) always encodes |
| `PersonalMessage.DecimalDigits` | backend/src/utils/signatureVerification.ts:35 | the byte length written in decimal: at least one ASCII digit, and no leading zero |
| `PersonalMessage.DecimalRoundTrip` | backend/src/utils/signatureVerification.ts:35 | reading the decimal digits back gives the length |
| `PersonalMessage.DecimalLengthMonotone` | backend/src/utils/signatureVerification.ts:35 | a longer message never has a shorter decimal length |
| `PersonalMessage.Payload` | backend/src/utils/signatureVerification.ts:35 | the hash input starts with `0x19`, the version byte `0x45` and the rest of the EIP-191 prefix, and ends with the message bytes; the bytes in between are the byte length written in decimal with no leading zero (`String(length)`), reading back as that length |
| `PersonalMessage.PayloadInjective` | backend/src/utils/signatureVerification.ts:35 | the length prefix makes the hash input unambiguous: equal inputs come from equal messages |
| `PersonalMessage.PersonalPayload` | backend/src/utils/signatureVerification.ts:35 | a string has a hash input exactly when it has no unpaired high surrogate |
| `PersonalMessage.DistinctMessagesDistinctPayloads` | backend/src/utils/signatureVerification.ts:35 | two different messages (even one trailing space apart) are never hashed from the same bytes |
| `Ethers.VerifyMessage` | backend/src/utils/signatureVerification.ts:35 | a message that cannot be encoded throws `INVALID_ARGUMENT` before the signature is looked at |
| `Ethers.VerifyMessageHashesUtf8` | backend/src/utils/signatureVerification.ts:35 | recovery runs on the Keccak-256 digest of the EIP-191 payload of exactly the UTF-8 bytes of the message |
| `SignatureVerification.CheckInputs` | backend/src/utils/signatureVerification.ts:21-33 | recovery is reached exactly when message and signature are non-empty and the signature is hex. Emptiness is tested first and gives "Message and signature are required"; a non-hex signature gives "Signature must be a valid hex string" |
| `SignatureVerification.ErrorResult` | backend/src/utils/signatureVerification.ts:49-70 | a thrown error always yields `isValid = false` with a non-empty error. `INVALID_ARGUMENT` (tested first) and `BAD_DATA` get their fixed texts; any other error gets its message, or "Signature verification failed" when that is empty |
| `SignatureVerification.VerifySignature` | backend/src/utils/signatureVerification.ts:15-71 | total. `isValid` holds exactly when the guards pass, recovery returns a value and that value is an address; `signer` is then that value as it is, never compared against an expected address. An invalid verdict has no signer and a non-empty error. A failed guard decides the verdict; after the guards, a thrown error gives its `catch`-block verdict and a recovered non-address gives "Failed to recover valid signer address" |
| `SignatureVerification.GuardsPrecedeRecovery` | backend/src/utils/signatureVerification.ts:21-35 | when a guard fails, the verdict does not depend on the library: recovery is never invoked |
| `SignatureVerification.UnpairedSurrogateIsEncodingError` | backend/src/utils/signatureVerification.ts:35-57 | a message with an unpaired high surrogate is reported as "Invalid signature format or message encoding" |
| `Server.Health` | backend/src/index.ts:47-53 | `/health` always answers 200 with status "OK", the current time and the service name "Web3 Message Signer Backend" |
| `Server.CheckRequest` | backend/src/index.ts:58-85 | the handler's checks run in order and the first failure decides. A nullish body throws. A falsy field gives "Both message and signature are required", with `details.message` / `details.signature` set exactly for the falsy ones. Two truthy fields that are not both strings give "Message and signature must be strings". A signature without `0x` or not 132 long gives the format error. Only two non-empty strings of the right shape go on |
| `Server.HasSignatureShape` | backend/src/index.ts:80 | the handler's format check holds exactly for 132 units beginning with `0x` |
| `Server.VerifySignatureRoute` | backend/src/index.ts:56-114 | status is 200, 400 or 500. 500 with "Internal server error during signature verification" happens exactly when the body is nullish. Early checks answer 400. A request that reaches `verifySignature` gets no `details`. A valid verdict answers 200 with the signer, the original message and the time; an invalid one answers 400 with the verdict's error (the fallback "Invalid signature" is never used). A 200 always carries an address and a hex signature |
| `Server.EarlyRepliesIgnoreLibrary` | backend/src/index.ts:61-88 | when the handler's own checks turn a request away, `verifySignature` is not reached: the response is the same whatever the library |
| `Server.NotFound` | backend/src/index.ts:117-122 | an unknown route answers 404, "Route not found", with endpoints exactly `/health` and `/verify-signature` |
| `Server.Dispatch` | backend/src/index.ts:47-122 | `GET /health` is the health reply, `POST /verify-signature` is the handler, and every other request is the 404 reply |
| `Server.AdvertisedEndpointsAreServed` | backend/src/index.ts:117-122 | every endpoint the 404 reply lists is served by some method |
| `Web3.FormatAddress` | lib/web3.ts:103-106 | `""` stays `""`. Otherwise the result is the first six units, `...`, then the last four (all of a shorter string on each side). A 42-unit address gives 13 units |
| `Web3.IsValidSignature` | lib/web3.ts:131-138 | holds exactly for strings of 132 units, `0x` and then 130 hex digits (65 bytes) |
| `Web3.ClientCheckMatchesBackend` | lib/web3.ts:131-138 | with a non-empty message, the client check holds exactly when the handler's checks (backend/src/index.ts:61-85) and `verifySignature`'s guards (backend/src/utils/signatureVerification.ts:21-33) all pass |
| `Web3.AcceptedSignaturesPassClientCheck` | lib/web3.ts:131-138 | every signature the backend answered 200 for passes the client check |

## Left out

- Keccak-256, secp256k1 public-key recovery, the parsing of the signature
  into r, s and v, and the EIP-55 checksum behind `isAddress`. These are
  library code; they are abstract functions of `Ethers.Library`. So the
  model proves nothing about which address a given signature recovers.
- `Ethers.VerifyMessage`: the exact text of the encoder's error message is
  not modelled. Only its code `INVALID_ARGUMENT` matters to the verdict.
- Thrown values are modelled as error objects with a `code` and a
  `message`, which is what the library throws. A thrown `null` would make
  the `catch` block itself throw. That case is not modelled, and so the
  only cause of the 500 reply in the model is a nullish request body.
- `async`/`await`: `verifySignature` awaits nothing, so it is a plain
  function.
- Express: `helmet`, `cors` (including its answer to `OPTIONS`
  preflights), `body-parser` (its size limit and its rejection of
  non-object JSON), the development logger and `app.listen`. These are
  configuration and I/O.
- `Server.Dispatch`: routes are matched on the exact path. Express's
  case-insensitive and trailing-slash-tolerant matching, and its answering
  of `HEAD` with the `GET` route, are not modelled.
- `backend/src/middleware/errorHandler.ts`: framework error middleware that
  logs and replies. It is only reached through the Express plumbing above.
- Time stamps are a parameter rather than the current time. Console
  logging is dropped.
- The client's `signMessageWithWallet`, `verifySignatureWithAPI`,
  `checkBackendHealth` and `copyToClipboard` are wallet, network and
  clipboard I/O. `isValidEthereumAddress` only calls the abstract
  `isAddress`.
- `app/page.tsx`, `app/layout.tsx`, `components/dynamic-provider.tsx` and
  `next.config.mjs` are user interface and build configuration.
- JSON numbers are reals: JSON cannot express NaN, and `-0` is falsy like
  `0`.

