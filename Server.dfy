/** The HTTP boundary of the backend without Express: the `/health`
    response, the body of the `POST /verify-signature` handler as a function
    from the parsed request body to a response, the catch-all 404 and the
    route table that chooses between them. */
module Server {
  import opened JsText
  import opened Wrappers
  import opened Json
  import opened Hex
  import opened Ethers
  import opened SignatureVerification

  /** An ISO-8601 time stamp; the clock is a parameter. */
  type Timestamp = JsString

  const HealthPath: JsString := Literal("/health")
  const VerifyPath: JsString := Literal("/verify-signature")
  const MessageKey: JsString := Literal("message")
  const SignatureKey: JsString := Literal("signature")

  /** The length the handler demands of a signature: `0x` and 130 hex
      digits, the 65 bytes r, s and v. */
  const SignatureLength: nat := 132

  const RequiredFieldsError: JsString := Literal("Both message and signature are required")
  const MissingMessage: JsString := Literal("Missing message field")
  const MissingSignature: JsString := Literal("Missing signature field")
  const NotStringsError: JsString := Literal("Message and signature must be strings")
  const FormatError: JsString :=
    Literal("Invalid signature format. Expected 0x-prefixed hex string of 130 characters.")
  const InvalidSignatureError: JsString := Literal("Invalid signature")
  const InternalError: JsString := Literal("Internal server error during signature verification")
  const RouteNotFoundError: JsString := Literal("Route not found")

  /** `details` of the 400 reply for missing fields; a `None` entry is an
      `undefined` property, which JSON serialisation drops. */
  datatype Details = Details(message: Option<JsString>, signature: Option<JsString>)

  /** The JSON object the verification endpoint replies with. */
  datatype VerifyReply = VerifyReply(
    isValid: bool,
    signer: Option<JsString>,
    error: Option<JsString>,
    details: Option<Details>,
    originalMessage: Option<JsString>,
    timestamp: Option<Timestamp>)

  datatype Body =
    | HealthStatus(status: JsString, timestamp: Timestamp, service: JsString)
    | Verification(reply: VerifyReply)
    | RouteNotFound(error: JsString, availableEndpoints: seq<JsString>)

  datatype Response = Response(status: int, body: Body)

  /** `GET /health`: always 200, whatever the state of anything else. */
  /** The service name the health reply reports. */
  const ServiceName: JsString := Literal("Web3 Message Signer Backend")

  function Health(now: Timestamp): (r: Response)
    ensures r.status == 200 && r.body.HealthStatus?
    ensures r.body.status == Literal("OK") && r.body.timestamp == now
    ensures r.body.service == ServiceName
  {
    Response(200, HealthStatus(Literal("OK"), now, ServiceName))
  }

  /** The reply for a request the handler turns away before verification. */
  function Rejection(error: JsString, details: Option<Details>): VerifyReply {
    VerifyReply(false, None, Some(error), details, None, None)
  }

  /** A property of a body that is not nullish (destructuring succeeded). */
  function Field(body: JsValue, key: JsString): JsValue
    requires !IsNullish(body)
  {
    Property(body, key).value
  }

  /** `signature.startsWith('0x') && signature.length === 132`. */
  function HasSignatureShape(signature: JsString): (r: bool)
    ensures r <==> && |signature| == 132
                   && signature[0] == '0' as int && signature[1] == 'x' as int
  {
    HexPrefixUnits();
    StartsWith(signature, HexPrefix) && |signature| == SignatureLength
  }

  /** What the handler's own checks decide before it calls verifySignature. */
  datatype Gate =
    | Throws                                              // destructuring a nullish body
    | Reject(reply: VerifyReply)                          // an early 400
    | Proceed(message: JsString, signature: JsString)     // call verifySignature

  /** Destructuring of the body, then the presence, type and format checks
      in that order; the first check that fails decides the reply. */
  function CheckRequest(body: JsValue): (g: Gate)
    ensures g.Throws? <==> IsNullish(body)
    ensures g.Proceed? <==>
              && !IsNullish(body)
              && Field(body, MessageKey).Str? && |Field(body, MessageKey).s| > 0
              && Field(body, SignatureKey).Str? && HasSignatureShape(Field(body, SignatureKey).s)
    ensures g.Proceed? ==>
              Field(body, MessageKey) == Str(g.message) && Field(body, SignatureKey) == Str(g.signature)
    ensures g.Reject? ==>
              && !g.reply.isValid && g.reply.error.Some? && |g.reply.error.value| > 0
              && g.reply.signer.None? && g.reply.originalMessage.None?
    // presence: a falsy field, whatever the other checks would say
    ensures !IsNullish(body) && (!Truthy(Field(body, MessageKey)) || !Truthy(Field(body, SignatureKey)))
            ==> g == Reject(Rejection(RequiredFieldsError, Some(Details(
                      if Truthy(Field(body, MessageKey)) then None else Some(MissingMessage),
                      if Truthy(Field(body, SignatureKey)) then None else Some(MissingSignature)))))
    // type: both truthy, one of them not a string
    ensures && !IsNullish(body) && Truthy(Field(body, MessageKey)) && Truthy(Field(body, SignatureKey))
            && !(IsString(Field(body, MessageKey)) && IsString(Field(body, SignatureKey)))
            ==> g == Reject(Rejection(NotStringsError, None))
    // format: two non-empty strings, the signature not `0x` and 132 units
    ensures && !IsNullish(body) && Truthy(Field(body, MessageKey)) && Truthy(Field(body, SignatureKey))
            && IsString(Field(body, MessageKey)) && IsString(Field(body, SignatureKey))
            && !HasSignatureShape(Field(body, SignatureKey).s)
            ==> g == Reject(Rejection(FormatError, None))
  {
    match Property(body, MessageKey)
    case None => Throws
    case Some(message) =>
      var signature := Field(body, SignatureKey);
      if !Truthy(message) || !Truthy(signature) then
        Reject(Rejection(RequiredFieldsError, Some(Details(
          if !Truthy(message) then Some(MissingMessage) else None,
          if !Truthy(signature) then Some(MissingSignature) else None))))
      else if !IsString(message) || !IsString(signature) then
        Reject(Rejection(NotStringsError, None))
      else if !HasSignatureShape(signature.s) then
        Reject(Rejection(FormatError, None))
      else Proceed(message.s, signature.s)
  }

  /** The `POST /verify-signature` handler body. */
  function VerifySignatureRoute(lib: Library, body: JsValue, now: Timestamp): (r: Response)
    ensures r.status in {200, 400, 500} && r.body.Verification?
    ensures r.body.reply.isValid <==> r.status == 200
    ensures r.status == 500 <==> IsNullish(body)
    ensures r.status == 500 ==>
              r.body.reply == VerifyReply(false, None, Some(InternalError), None, None, Some(now))
    ensures CheckRequest(body).Reject? ==> r == Response(400, Verification(CheckRequest(body).reply))
    ensures CheckRequest(body).Proceed? ==>
              var (m, s) := (CheckRequest(body).message, CheckRequest(body).signature);
              var v := VerifySignature(lib, m, s);
              && r.body.reply.originalMessage == Some(m)
              && r.body.reply.timestamp == Some(now)
              && r.body.reply.details.None?
              && (r.status == 200 <==> v.isValid)
              && (v.isValid ==> r.body.reply.signer == v.signer && r.body.reply.error.None?)
              // the fallback 'Invalid signature' is never needed
              && (!v.isValid ==> r.body.reply.error == v.error && r.body.reply.signer.None?)
    ensures r.status == 200 ==>
              && r.body.reply.signer.Some? && lib.isAddress(r.body.reply.signer.value)
              && IsHexString(CheckRequest(body).signature)
  {
    match CheckRequest(body)
    case Throws =>
      Response(500, Verification(VerifyReply(false, None, Some(InternalError), None, None, Some(now))))
    case Reject(reply) => Response(400, Verification(reply))
    case Proceed(message, signature) =>
      var verification := VerifySignature(lib, message, signature);
      if verification.isValid then
        Response(200, Verification(
          VerifyReply(true, verification.signer, None, None, Some(message), Some(now))))
      else
        var error := if verification.error.Some? && |verification.error.value| > 0
                     then verification.error.value else InvalidSignatureError;
        Response(400, Verification(
          VerifyReply(false, None, Some(error), None, Some(message), Some(now))))
  }

  /** When the handler's own checks turn the request away, verifySignature
      is never reached: the response is the same whatever the library. */
  lemma EarlyRepliesIgnoreLibrary(lib1: Library, lib2: Library, body: JsValue, now: Timestamp)
    requires !CheckRequest(body).Proceed?
    ensures VerifySignatureRoute(lib1, body, now) == VerifySignatureRoute(lib2, body, now)
  {
  }

  /** The catch-all reply for an unknown route. */
  function NotFound(): (r: Response)
    ensures r.status == 404
    ensures r.body == RouteNotFound(RouteNotFoundError, [HealthPath, VerifyPath])
  {
    Response(404, RouteNotFound(RouteNotFoundError, [HealthPath, VerifyPath]))
  }

  datatype Method = Get | Post | OtherMethod(name: JsString)

  /** A request as the routes see it: method, path (without the query
      string) and the parsed JSON body. */
  datatype Request = Request(httpMethod: Method, path: JsString, body: JsValue)

  /** The route table: `GET /health`, `POST /verify-signature`, and 404 for
      everything else. */
  function Dispatch(lib: Library, request: Request, now: Timestamp): (r: Response)
    ensures request.httpMethod.Get? && request.path == HealthPath ==> r == Health(now)
    ensures request.httpMethod.Post? && request.path == VerifyPath
            ==> r == VerifySignatureRoute(lib, request.body, now)
    ensures r.status == 404 <==>
              !(request.httpMethod.Get? && request.path == HealthPath)
              && !(request.httpMethod.Post? && request.path == VerifyPath)
    ensures r.status == 404 ==> r == NotFound()
  {
    if request.httpMethod.Get? && request.path == HealthPath then Health(now)
    else if request.httpMethod.Post? && request.path == VerifyPath then VerifySignatureRoute(lib, request.body, now)
    else NotFound()
  }

  /** Every endpoint the 404 reply advertises is served by some method. */
  lemma AdvertisedEndpointsAreServed(lib: Library, body: JsValue, now: Timestamp)
    ensures forall p :: p in NotFound().body.availableEndpoints ==>
              || Dispatch(lib, Request(Get, p, body), now).status != 404
              || Dispatch(lib, Request(Post, p, body), now).status != 404
  {
  }
}
