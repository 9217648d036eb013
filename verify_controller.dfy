/**
 * The verify endpoint (POST api/verify): a fixed chain of checks, each of which
 * may end the request with 400 (bad request), 401 (unauthorised) or 200.
 *
 * What the endpoint reads from outside is passed in: the outcome of reading
 * the key file and loading the key from it, the request as bound from JSON,
 * and the JSON parser applied to the payload text.
 */
module VerifyController {
  import opened Common
  import opened NonceStore
  import opened SignatureVerification

  const StatusOk: int := 200
  const StatusBadRequest: int := 400
  const StatusUnauthorized: int := 401

  const InvalidPublicKey: string := "Invalid public key."
  const PayloadAndSignatureRequired: string := "Payload and signature are required."
  const PayloadIsEmpty: string := "Payload is empty."
  const InvalidPayloadStructure: string := "Invalid payload structure."
  const NonceRejected: string := "Nonce has already been used or timestamp is invalid."
  const InvalidSignature: string := "Invalid signature."
  const Authenticated: string := "Signature is valid. Sender is authenticated."

  /** A response body: `{ message = .. }`, or `{ error = ex.Message }` for a
      caught exception. */
  datatype Body = MessageBody(message: string) | ErrorBody(error: Exception)

  datatype Response = Response(status: int, body: Body)

  /** The bound request; `None` stands for null. `payload` is the text of the
      payload object (its `ToString()`), `signature` the base64 signature. */
  datatype Request = Request(payload: Option<string>, signature: Option<string>)

  /** What reading the key file and calling `LoadEd25519PublicKey` gave: a key,
      null, or an exception. */
  datatype KeyLoad = KeyLoaded(key: PublicKey) | KeyNull | KeyThrew(ex: Exception)

  /** The JSON parser's result for a payload text: a `PayloadData`, null, or an exception. */
  type Parser = string -> Try<Option<PayloadData>>

  /** The key load the endpoint performs with the service of this model:
      `None` is a missing key file. The service never gives null. */
  function ServiceKeyLoad(keyFile: Option<string>): (r: KeyLoad)
    ensures r != KeyNull
    ensures keyFile.None? ==> r == KeyThrew(FileNotFoundException)
    ensures keyFile.Some? && r.KeyLoaded? ==> LoadEd25519PublicKey(keyFile.value) == Returned(r.key)
    ensures keyFile.Some? && r.KeyThrew? ==> LoadEd25519PublicKey(keyFile.value) == Threw(r.ex)
  {
    if keyFile.None? then KeyThrew(FileNotFoundException)
    else
      match LoadEd25519PublicKey(keyFile.value)
      case Returned(pk) => KeyLoaded(pk)
      case Threw(e) => KeyThrew(e)
  }

  /** Non-null, non-empty nonce and non-zero timestamp. */
  predicate WellStructured(pd: PayloadData)
  {
    pd.nonce.Some? && pd.nonce.value != [] && pd.timestamp != 0
  }

  function BadRequest(message: string): Response { Response(StatusBadRequest, MessageBody(message)) }
  function Unauthorized(message: string): Response { Response(StatusUnauthorized, MessageBody(message)) }
  function Failed(ex: Exception): Response { Response(StatusBadRequest, ErrorBody(ex)) }

  /** `Post`: the response and the store afterwards, for a store `l` before.
      Checks in order: the key; request, payload and signature present; payload
      text non-empty; payload parsed and well structured; nonce and timestamp
      (the one step that can change the store); signature. An exception at any
      step gives 400 with the exception. */
  function PostSpec(keyLoad: KeyLoad, request: Option<Request>, parse: Parser, crypto: Crypto,
                    now: int64, appendOk: bool, l: Ledger): (r: (Response, Ledger))
    ensures r.0.status in {StatusOk, StatusBadRequest, StatusUnauthorized}
    ensures r.0.status == StatusOk ==> r.0.body == MessageBody(Authenticated) && l.used < r.1.used
    ensures l.used <= r.1.used && l.log <= r.1.log
  {
    match keyLoad
    case KeyThrew(e) => (Failed(e), l)
    case KeyNull => (BadRequest(InvalidPublicKey), l)
    case KeyLoaded(pk) =>
      if request.None? || request.value.payload.None? || request.value.signature.None?
         || request.value.signature.value == [] then
        (BadRequest(PayloadAndSignatureRequired), l)
      else
        var payload := request.value.payload.value;
        var signature := request.value.signature.value;
        if payload == [] then (BadRequest(PayloadIsEmpty), l)
        else
          match parse(payload)
          case Threw(e) => (Failed(e), l)
          case Returned(parsed) =>
            if parsed.None? || !WellStructured(parsed.value) then (BadRequest(InvalidPayloadStructure), l)
            else
              var pd := parsed.value;
              var (checked, l') := NonceCheck(l, pd.nonce.value, pd.timestamp, now, appendOk);
              match checked
              case Threw(e) => (Failed(e), l')
              case Returned(passed) =>
                if !passed then (Unauthorized(NonceRejected), l')
                else
                  match VerifySignature(crypto, pk, payload, signature)
                  case Threw(e) => (Failed(e), l')
                  case Returned(verified) =>
                    if verified then (Response(StatusOk, MessageBody(Authenticated)), l')
                    else (Unauthorized(InvalidSignature), l')
  }

  /** The request, its payload and a non-empty signature are present, and the
      payload text is non-empty: the request reaches the parser. */
  predicate Presented(request: Option<Request>)
  {
    && request.Some? && request.value.payload.Some? && request.value.signature.Some?
    && request.value.signature.value != [] && request.value.payload.value != []
  }

  /** The request reaches the nonce check: key loaded, fields present, payload
      text non-empty, parsed and well structured. */
  predicate ReachesNonceCheck(keyLoad: KeyLoad, request: Option<Request>, parse: Parser)
  {
    && keyLoad.KeyLoaded?
    && Presented(request)
    && parse(request.value.payload.value).Returned?
    && parse(request.value.payload.value).value.Some?
    && WellStructured(parse(request.value.payload.value).value.value)
  }

  /** The payload data of a request that reaches the nonce check. */
  function Parsed(request: Option<Request>, parse: Parser): PayloadData
    requires request.Some? && request.value.payload.Some?
    requires parse(request.value.payload.value).Returned? && parse(request.value.payload.value).value.Some?
  {
    parse(request.value.payload.value).value.value
  }

  // ---------------------------------------------------------------------------
  // Properties of the chain

  /** The key comes first: a null key gives 400 "Invalid public key.", and a key
      that could not be loaded gives 400 with its exception, whatever the
      request (even null); the store is untouched. */
  lemma PostKeyFirst(keyLoad: KeyLoad, request: Option<Request>, parse: Parser, crypto: Crypto,
                     now: int64, appendOk: bool, l: Ledger)
    requires !keyLoad.KeyLoaded?
    ensures PostSpec(keyLoad, request, parse, crypto, now, appendOk, l)
         == (if keyLoad.KeyNull? then BadRequest(InvalidPublicKey) else Failed(keyLoad.ex), l)
  {
  }

  /** Every rejection before the nonce check leaves the store unchanged and
      says why, in both directions: missing fields, empty payload text, a
      parser exception, or a payload that is null or lacks a nonce or a
      non-zero timestamp each give their own 400 response, and each 400
      response names its cause. */
  lemma PostRejectsEarly(pk: PublicKey, request: Option<Request>, parse: Parser, crypto: Crypto,
                         now: int64, appendOk: bool, l: Ledger)
    requires !ReachesNonceCheck(KeyLoaded(pk), request, parse)
    ensures var (resp, l') := PostSpec(KeyLoaded(pk), request, parse, crypto, now, appendOk, l);
            l' == l && resp.status == StatusBadRequest
            && ((request.None? || request.value.payload.None? || request.value.signature.None?
                 || request.value.signature.value == []) ==> resp == BadRequest(PayloadAndSignatureRequired))
            && ((request.Some? && request.value.payload == Some([]) && request.value.signature.Some?
                 && request.value.signature.value != []) ==> resp == BadRequest(PayloadIsEmpty))
            && (resp.body.ErrorBody? ==> parse(request.value.payload.value) == Threw(resp.body.error))
            && ((Presented(request) && parse(request.value.payload.value).Threw?)
                ==> resp == Failed(parse(request.value.payload.value).ex))
            && (resp.body.MessageBody? && resp.body.message == InvalidPayloadStructure
                ==> (parse(request.value.payload.value).Returned?
                     && (parse(request.value.payload.value).value.None?
                         || !WellStructured(parse(request.value.payload.value).value.value))))
            && ((Presented(request) && parse(request.value.payload.value).Returned?
                 && (parse(request.value.payload.value).value.None?
                     || !WellStructured(parse(request.value.payload.value).value.value)))
                ==> resp == BadRequest(InvalidPayloadStructure))
  {
  }

  /** A refused nonce check gives 401 without looking at the signature: the
      response is the same for any signature and any verification primitive,
      and the store is untouched. */
  lemma PostNonceRefused(pk: PublicKey, request: Option<Request>, parse: Parser, crypto1: Crypto,
                         crypto2: Crypto, now: int64, appendOk: bool, l: Ledger)
    requires ReachesNonceCheck(KeyLoaded(pk), request, parse)
    requires var pd := Parsed(request, parse);
             NonceCheck(l, pd.nonce.value, pd.timestamp, now, appendOk).0 == Returned(false)
    ensures PostSpec(KeyLoaded(pk), request, parse, crypto1, now, appendOk, l) == (Unauthorized(NonceRejected), l)
    ensures PostSpec(KeyLoaded(pk), request, parse, crypto2, now, appendOk, l) == (Unauthorized(NonceRejected), l)
  {
    var pd := Parsed(request, parse);
    CheckNonceChangesOnlyOnPass(l, pd.nonce.value, pd.timestamp, now, appendOk);
  }

  /** Past a passing nonce check the nonce stays consumed, and the outcome is
      decided by `VerifySignature` on the very payload text that was parsed:
      200 when it holds, 401 "Invalid signature." when it does not, 400 when
      the signature text is not base64. */
  lemma PostAfterNonceCheck(pk: PublicKey, request: Option<Request>, parse: Parser, crypto: Crypto,
                            now: int64, appendOk: bool, l: Ledger)
    requires ReachesNonceCheck(KeyLoaded(pk), request, parse)
    requires var pd := Parsed(request, parse);
             NonceCheck(l, pd.nonce.value, pd.timestamp, now, appendOk).0 == Returned(true)
    ensures var pd := Parsed(request, parse);
            var (resp, l') := PostSpec(KeyLoaded(pk), request, parse, crypto, now, appendOk, l);
            var v := VerifySignature(crypto, pk, request.value.payload.value, request.value.signature.value);
            && l' == Add(l, pd.nonce.value, true).1
            && pd.nonce.value !in l.used && pd.nonce.value in l'.used
            && (resp.status == StatusOk <==> v == Returned(true))
            && (v == Returned(false) ==> resp == Unauthorized(InvalidSignature))
            && (v.Threw? ==> resp == Failed(FormatException))
  {
  }

  /** A nonce check that throws (the log append failed, or the difference was
      exactly 2^63) is caught like every other exception: 400 with the
      exception, and the store is untouched. */
  lemma PostNonceCheckThrows(pk: PublicKey, request: Option<Request>, parse: Parser, crypto: Crypto,
                             now: int64, appendOk: bool, l: Ledger)
    requires ReachesNonceCheck(KeyLoaded(pk), request, parse)
    requires var pd := Parsed(request, parse);
             NonceCheck(l, pd.nonce.value, pd.timestamp, now, appendOk).0.Threw?
    ensures var pd := Parsed(request, parse);
            PostSpec(KeyLoaded(pk), request, parse, crypto, now, appendOk, l)
              == (Failed(NonceCheck(l, pd.nonce.value, pd.timestamp, now, appendOk).0.ex), l)
  {
  }

  /** A fresh request with an unused nonce whose log append fails gets 400 with
      the `IOException`, and its nonce is not admitted. */
  lemma PostAppendFails(pk: PublicKey, request: Option<Request>, parse: Parser, crypto: Crypto,
                        now: int64, l: Ledger)
    requires ClockInRange(now)
    requires ReachesNonceCheck(KeyLoaded(pk), request, parse)
    requires var pd := Parsed(request, parse);
             pd.nonce.value !in l.used
             && -(FreshnessWindow as int) <= now - pd.timestamp <= FreshnessWindow
    ensures PostSpec(KeyLoaded(pk), request, parse, crypto, now, false, l) == (Failed(IOException), l)
  {
    AbsDifferenceExact(now, Parsed(request, parse).timestamp);
  }

  /** Only the nonce check changes the store, and only by admitting the nonce of
      the request: before it, nothing has changed; after it, exactly that nonce
      has been added, whether or not the signature then holds. */
  lemma PostChangesOnlyByAdmission(keyLoad: KeyLoad, request: Option<Request>, parse: Parser, crypto: Crypto,
                                   now: int64, appendOk: bool, l: Ledger)
    ensures var l' := PostSpec(keyLoad, request, parse, crypto, now, appendOk, l).1;
            l' == l
            || (&& ReachesNonceCheck(keyLoad, request, parse)
                && var n := Parsed(request, parse).nonce.value;
                   n !in l.used && l' == Add(l, n, true).1)
  {
    if ReachesNonceCheck(keyLoad, request, parse) {
      var pd := Parsed(request, parse);
      CheckNonceChangesOnlyOnPass(l, pd.nonce.value, pd.timestamp, now, appendOk);
    }
  }

  /** Soundness of acceptance: a 200 means the key was loaded, the payload
      parsed and well structured, its nonce unused before and used after, its
      timestamp within 300 seconds of `now`, and the signature verified over
      the payload's `ToString()` text. */
  lemma PostAcceptSound(keyLoad: KeyLoad, request: Option<Request>, parse: Parser, crypto: Crypto,
                        now: int64, appendOk: bool, l: Ledger)
    requires ClockInRange(now)
    requires PostSpec(keyLoad, request, parse, crypto, now, appendOk, l).0.status == StatusOk
    ensures ReachesNonceCheck(keyLoad, request, parse)
    ensures var pd := Parsed(request, parse);
            var l' := PostSpec(keyLoad, request, parse, crypto, now, appendOk, l).1;
            && pd.nonce.value !in l.used && pd.nonce.value in l'.used
            && -(FreshnessWindow as int) <= now - pd.timestamp <= FreshnessWindow
            && VerifySignature(crypto, keyLoad.key, request.value.payload.value, request.value.signature.value)
               == Returned(true)
  {
    var pd := Parsed(request, parse);
    CheckNonceAccepts(l, pd.nonce.value, pd.timestamp, now, appendOk);
  }

  /** Completeness: a request with a loaded key, a well-structured payload whose
      nonce is unused and whose timestamp is within 300 seconds, and the base64
      encoding of a signature that verifies over the payload text, is accepted
      when the log append succeeds and the clock is in range. */
  lemma PostAcceptComplete(pk: PublicKey, payload: string, signature: seq<uint8>, parse: Parser,
                           crypto: Crypto, now: int64, l: Ledger)
    requires ClockInRange(now) && payload != [] && signature != []
    requires parse(payload).Returned? && parse(payload).value.Some?
    requires var pd := parse(payload).value.value;
             WellStructured(pd) && pd.nonce.value !in l.used
             && -(FreshnessWindow as int) <= now - pd.timestamp <= FreshnessWindow
    requires crypto.ed25519Verify(pk.raw, crypto.utf8(payload), signature)
    ensures var request := Some(Request(Some(payload), Some(Base64.Encode(signature))));
            PostSpec(KeyLoaded(pk), request, parse, crypto, now, true, l).0
              == Response(StatusOk, MessageBody(Authenticated))
  {
    var pd := parse(payload).value.value;
    CheckNonceAccepts(l, pd.nonce.value, pd.timestamp, now, true);
    VerifyEncodedSignature(crypto, pk, payload, signature);
    assert Base64.Encode(signature) != [] by {
      assert |Base64.Encode(signature)| % 4 == 0;
      if Base64.Encode(signature) == [] {
        Base64.DecodeEncode(signature);
      }
    }
  }

  /** No replay: once a request has been accepted, the identical request is
      refused with 401 by the store it left behind, whatever the clock says. */
  lemma PostNoReplay(keyLoad: KeyLoad, request: Option<Request>, parse: Parser, crypto: Crypto,
                     now: int64, appendOk: bool, l: Ledger, later: int64, appendOk2: bool)
    requires PostSpec(keyLoad, request, parse, crypto, now, appendOk, l).0.status == StatusOk
    ensures var l' := PostSpec(keyLoad, request, parse, crypto, now, appendOk, l).1;
            PostSpec(keyLoad, request, parse, crypto, later, appendOk2, l') == (Unauthorized(NonceRejected), l')
  {
    var pd := Parsed(request, parse);
    var l' := PostSpec(keyLoad, request, parse, crypto, now, appendOk, l).1;
    CheckNonceOnce(l, pd.nonce.value, pd.timestamp, now, appendOk, pd.timestamp, later, appendOk2);
  }

  /** A stale or early request does not consume its nonce: it is refused (401,
      or 400 for the overflowing difference of exactly 2^63) and the store is
      unchanged, so the nonce stays available for a corrected request. */
  lemma PostStaleKeepsNonce(pk: PublicKey, request: Option<Request>, parse: Parser, crypto: Crypto,
                            now: int64, appendOk: bool, l: Ledger)
    requires ClockInRange(now)
    requires ReachesNonceCheck(KeyLoaded(pk), request, parse)
    requires var pd := Parsed(request, parse);
             now - pd.timestamp > FreshnessWindow || pd.timestamp - now > FreshnessWindow
    ensures var (resp, l') := PostSpec(KeyLoaded(pk), request, parse, crypto, now, appendOk, l);
            l' == l && resp.status != StatusOk
  {
    var pd := Parsed(request, parse);
    CheckNonceStale(l, pd.nonce.value, pd.timestamp, now, appendOk);
  }

  // ---------------------------------------------------------------------------
  // The controller object

  class VerifyController {
    const verificationService: SignatureVerificationService

    constructor (verificationService: SignatureVerificationService)
      ensures this.verificationService == verificationService
    {
      this.verificationService := verificationService;
    }

    /** Handles one request; see `PostSpec`. */
    method Post(request: Option<Request>, keyLoad: KeyLoad, parse: Parser, crypto: Crypto,
                now: int64, appendOk: bool) returns (response: Response)
      modifies verificationService.nonceStore
      ensures (response, verificationService.nonceStore.State())
           == PostSpec(keyLoad, request, parse, crypto, now, appendOk, old(verificationService.nonceStore.State()))
    {
      if keyLoad.KeyThrew? {
        return Failed(keyLoad.ex);
      }
      if keyLoad.KeyNull? {
        return BadRequest(InvalidPublicKey);
      }
      var pk := keyLoad.key;

      if request.None? || request.value.payload.None? || request.value.signature.None?
         || request.value.signature.value == [] {
        return BadRequest(PayloadAndSignatureRequired);
      }

      var payload := request.value.payload.value;
      if payload == [] {
        return BadRequest(PayloadIsEmpty);
      }

      var parsed := parse(payload);
      if parsed.Threw? {
        return Failed(parsed.ex);
      }
      if parsed.value.None? || !WellStructured(parsed.value.value) {
        return BadRequest(InvalidPayloadStructure);
      }
      var payloadData := parsed.value.value;

      var admitted := verificationService.CheckNonce(payloadData, now, appendOk);
      if admitted.Threw? {
        return Failed(admitted.ex);
      }
      if !admitted.value {
        return Unauthorized(NonceRejected);
      }

      var verified := VerifySignature(crypto, pk, payload, request.value.signature.value);
      if verified.Threw? {
        return Failed(verified.ex);
      }
      if verified.value {
        return Response(StatusOk, MessageBody(Authenticated));
      } else {
        return Unauthorized(InvalidSignature);
      }
    }
  }
}
