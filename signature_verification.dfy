/**
 * The signature verification service: loading the Ed25519 public key from
 * PEM-style text, the nonce and freshness check, and signature verification.
 *
 * Ed25519 itself (RFC 8032, computed by a cryptographic library) and UTF-8
 * encoding are not implemented: they are the two functions of a `Crypto`
 * value passed in. The clock is the parameter `now`, in Unix seconds.
 */
module SignatureVerification {
  import opened Common
  import opened Text
  import Base64
  import opened NonceStore

  /** The length of a raw Ed25519 public key. */
  const KeyLength: nat := 32

  type RawKey = s: seq<uint8> | |s| == KeyLength witness seq(32, _ => 0)

  /** An imported Ed25519 public key, held as its 32 raw bytes. */
  datatype PublicKey = PublicKey(raw: RawKey)

  /** The primitives the service calls and this model leaves abstract:
      `Encoding.UTF8.GetBytes` and Ed25519 verification of a signature over a
      message with a raw public key. */
  datatype Crypto = Crypto(
    utf8: string -> seq<uint8>,
    ed25519Verify: (seq<uint8>, seq<uint8>, seq<uint8>) -> bool)

  /** The parsed payload; `None` stands for a null string. */
  datatype PayloadData = PayloadData(message: Option<string>, nonce: Option<string>, timestamp: int64)

  /** The most a timestamp may lie from the current time, in seconds, either way. */
  const FreshnessWindow: nat := 300

  const DelimiterPrefix: string := "-----"
  const InvalidKeyLengthMessage: string := "Invalid Ed25519 public key length."

  // ---------------------------------------------------------------------------
  // LoadEd25519PublicKey

  /** The lines kept from the key text: those not starting with "-----",
      tested before any trimming. */
  function BodyLines(lines: seq<string>): (r: seq<string>)
    ensures forall k :: 0 <= k < |r| ==> r[k] in lines && !StartsWith(r[k], DelimiterPrefix)
  {
    if lines == [] then []
    else if StartsWith(lines[0], DelimiterPrefix) then BodyLines(lines[1..])
    else [lines[0]] + BodyLines(lines[1..])
  }

  function TrimEach(lines: seq<string>): (r: seq<string>)
    ensures |r| == |lines| && forall k :: 0 <= k < |r| ==> r[k] == Trim(lines[k])
  {
    if lines == [] then [] else [Trim(lines[0])] + TrimEach(lines[1..])
  }

  /** The base64 text inside the key text: split on '\n', drop delimiter lines,
      trim the others and concatenate them. */
  function KeyBase64Text(publicKey: string): (r: string)
    ensures '\n' !in r
  {
    var lines := BodyLines(Split(publicKey, '\n'));
    var trimmed := TrimEach(lines);
    assert forall k :: 0 <= k < |trimmed| ==> '\n' !in trimmed[k] by {
      forall k | 0 <= k < |trimmed| ensures '\n' !in trimmed[k] {
        TrimExcludes(lines[k], '\n');
      }
    }
    ConcatExcludes(trimmed, '\n');
    Concat(trimmed)
  }

  /** `LoadEd25519PublicKey`: decodes the base64 text (a `FormatException` if it
      is not base64) and imports the bytes as a raw key if there are exactly 32
      (an `ArgumentException` otherwise). */
  function LoadEd25519PublicKey(publicKey: string): (r: Try<PublicKey>)
    ensures r.Returned? <==> Base64.Decode(KeyBase64Text(publicKey)).Returned?
                             && |Base64.Decode(KeyBase64Text(publicKey)).value| == KeyLength
    ensures r.Returned? ==> Base64.Decode(KeyBase64Text(publicKey)) == Returned(r.value.raw)
    ensures Base64.Decode(KeyBase64Text(publicKey)).Threw? ==> r == Threw(FormatException)
    ensures (Base64.Decode(KeyBase64Text(publicKey)).Returned? && r.Threw?)
              ==> r == Threw(ArgumentException(InvalidKeyLengthMessage))
  {
    match Base64.Decode(KeyBase64Text(publicKey))
    case Threw(e) => Threw(e)
    case Returned(keyBytes) =>
      if |keyBytes| != KeyLength then Threw(ArgumentException(InvalidKeyLengthMessage))
      else Returned(PublicKey(keyBytes))
  }

  /** Key text in the usual framing: a delimiter line, the base64 text, a
      delimiter line. */
  function Framed(header: string, body: string, footer: string): string
  {
    header + "\n" + body + "\n" + footer
  }

  /** The filter works line by line: the lines kept from two runs of lines are
      the lines kept from each, in order. */
  lemma {:induction false} BodyLinesAppend(a: seq<string>, b: seq<string>)
    ensures BodyLines(a + b) == BodyLines(a) + BodyLines(b)
    decreases |a|
  {
    if a != [] {
      var ab := a + b;
      assert ab != [] && ab[0] == a[0] && ab[1..] == a[1..] + b;
      BodyLinesAppend(a[1..], b);
    } else {
      assert a + b == b;
    }
  }

  /** A single line is kept exactly when it does not start with "-----". */
  lemma BodyLinesOne(line: string)
    ensures BodyLines([line]) == if StartsWith(line, DelimiterPrefix) then [] else [line]
  {
    assert [line][1..] == [];
  }

  /** Lines none of which starts with "-----" are all kept, in order. */
  lemma {:induction false} BodyLinesKeepsAll(lines: seq<string>)
    requires forall k :: 0 <= k < |lines| ==> !StartsWith(lines[k], DelimiterPrefix)
    ensures BodyLines(lines) == lines
    decreases |lines|
  {
    if lines != [] {
      BodyLinesKeepsAll(lines[1..]);
      assert [lines[0]] + lines[1..] == lines;
    }
  }

  /** A key body wrapped over several lines between two delimiter lines: the
      base64 text is the body lines, each trimmed, run together. */
  lemma KeyBase64TextOfWrapped(header: string, body: seq<string>, footer: string)
    requires StartsWith(header, DelimiterPrefix) && StartsWith(footer, DelimiterPrefix)
    requires '\n' !in header && '\n' !in footer
    requires forall k :: 0 <= k < |body| ==> '\n' !in body[k] && !StartsWith(body[k], DelimiterPrefix)
    ensures KeyBase64Text(Join([header] + body + [footer], "\n")) == Concat(TrimEach(body))
  {
    var parts := [header] + body + [footer];
    forall k | 0 <= k < |parts| ensures '\n' !in parts[k] {
      if 0 < k < |parts| - 1 {
        assert parts[k] == body[k - 1];
      }
    }
    SplitJoin(parts, '\n');
    assert BodyLines(parts) == body by {
      BodyLinesAppend([header] + body, [footer]);
      BodyLinesAppend([header], body);
      BodyLinesOne(header);
      BodyLinesOne(footer);
      BodyLinesKeepsAll(body);
    }
  }

  /** Encoded text is neither a delimiter line nor touched by trimming. */
  lemma {:induction false} EncodedIsPlainLine(k: seq<uint8>)
    ensures '\n' !in Base64.Encode(k)
    ensures !StartsWith(Base64.Encode(k), DelimiterPrefix)
    ensures IsTrimmed(Base64.Encode(k))
  {
    var e := Base64.Encode(k);
    forall c | c in e ensures c != '\n' && c != '-' && !IsWhiteSpace(c) {
      assert Base64.IsBase64Char(c) || c == '=';
    }
    if e != [] {
      assert e[0] in e && e[|e| - 1] in e;
      assert DelimiterPrefix[0] == '-';
    }
  }

  /** Of framed key text, only the middle line is kept, trimmed. */
  lemma KeyBase64TextOfFramed(header: string, body: string, footer: string)
    requires StartsWith(header, DelimiterPrefix) && StartsWith(footer, DelimiterPrefix)
    requires '\n' !in header && '\n' !in body && '\n' !in footer
    requires !StartsWith(body, DelimiterPrefix)
    ensures KeyBase64Text(Framed(header, body, footer)) == Trim(body)
  {
    var parts := [header, body, footer];
    assert Join(parts, "\n") == Framed(header, body, footer) by {
      assert parts[1..] == [body, footer];
      assert Join(parts[1..], "\n") == body + "\n" + footer;
    }
    SplitJoin(parts, '\n');
    assert BodyLines(parts) == [body] by {
      assert [footer][1..] == [];
      assert BodyLines([footer]) == [];
      assert [body, footer][1..] == [footer];
      assert BodyLines([body, footer]) == [body];
      assert parts[1..] == [body, footer];
    }
    assert TrimEach([body]) == [Trim(body)];
    assert Concat([Trim(body)]) == Trim(body);
  }

  /** Key round trip: the base64 encoding of some bytes, framed by two delimiter
      lines, loads back as exactly those bytes when there are 32 of them, and
      fails with an `ArgumentException` otherwise (16 bytes, say). */
  lemma LoadFramedKey(k: seq<uint8>, header: string, footer: string)
    requires StartsWith(header, DelimiterPrefix) && StartsWith(footer, DelimiterPrefix)
    requires '\n' !in header && '\n' !in footer
    ensures LoadEd25519PublicKey(Framed(header, Base64.Encode(k), footer))
         == if |k| == KeyLength then Returned(PublicKey(k))
            else Threw(ArgumentException(InvalidKeyLengthMessage))
  {
    var e := Base64.Encode(k);
    EncodedIsPlainLine(k);
    KeyBase64TextOfFramed(header, e, footer);
    TrimOfTrimmed(e);
    Base64.DecodeEncode(k);
  }

  /** Key text whose base64 part holds a character outside the alphabet, other
      than padding or skipped white space, fails with a `FormatException`
      before any length check. */
  lemma LoadRejectsForeignChar(publicKey: string, i: nat)
    requires var t := KeyBase64Text(publicKey);
             i < |t| && !Base64.IsBase64Char(t[i]) && t[i] != '=' && !Base64.IsSkipped(t[i])
    ensures LoadEd25519PublicKey(publicKey) == Threw(FormatException)
  {
    Base64.DecodeRejectsForeignChar(KeyBase64Text(publicKey), i);
  }

  /** Framed key text whose middle line holds a character outside the alphabet
      (as in "NotBase64!!") fails with a `FormatException`. */
  lemma LoadFramedRejectsForeignChar(header: string, body: string, footer: string, i: nat)
    requires StartsWith(header, DelimiterPrefix) && StartsWith(footer, DelimiterPrefix)
    requires '\n' !in header && '\n' !in body && '\n' !in footer
    requires IsTrimmed(body) && !StartsWith(body, DelimiterPrefix) && i < |body|
    requires !Base64.IsBase64Char(body[i]) && body[i] != '=' && !Base64.IsSkipped(body[i])
    ensures LoadEd25519PublicKey(Framed(header, body, footer)) == Threw(FormatException)
  {
    KeyBase64TextOfFramed(header, body, footer);
    TrimOfTrimmed(body);
    LoadRejectsForeignChar(Framed(header, body, footer), i);
  }

  // ---------------------------------------------------------------------------
  // CheckNonce

  /** `Math.Abs(currentTime - timestamp)` on longs: the subtraction wraps, and
      the absolute value of `long.MinValue` throws an `OverflowException`. */
  function AbsDifference(now: int64, timestamp: int64): (r: Try<int>)
    ensures r.Threw? <==> (now - timestamp - Int64Min) % TwoTo64 == 0
    ensures r.Threw? ==> r.ex == OverflowException
    ensures r.Returned? ==> 0 <= r.value < -Int64Min
    ensures r.Returned? ==> (r.value - (now - timestamp)) % TwoTo64 == 0
                            || (r.value + (now - timestamp)) % TwoTo64 == 0
  {
    var d := Wrap64(now - timestamp);
    if d == Int64Min then Threw(OverflowException) else Returned(if d < 0 then -d else d)
  }

  /** A clock more than the freshness window away from both ends of the range of
      `long`: any current time since 1970 qualifies. */
  predicate ClockInRange(now: int64)
  {
    Int64Min + FreshnessWindow <= now < -Int64Min - FreshnessWindow
  }

  /** `CheckNonce`: a used nonce is refused first, whatever the timestamp; then a
      timestamp more than 300 seconds from `now`, either way, is refused without
      touching the store; otherwise the nonce is added and the check passes.
      The result of `AddNonce` is not looked at; an exception it throws passes
      through. */
  function NonceCheck(l: Ledger, nonce: string, timestamp: int64, now: int64, appendOk: bool): (r: (Try<bool>, Ledger))
    ensures r.0 == Returned(true) ==> nonce !in l.used && appendOk && r.1 == Add(l, nonce, true).1
    ensures r.0 != Returned(true) ==> r.1 == l
  {
    if nonce in l.used then (Returned(false), l)
    else
      match AbsDifference(now, timestamp)
      case Threw(e) => (Threw(e), l)
      case Returned(d) =>
        if d > FreshnessWindow then (Returned(false), l)
        else
          var (added, l') := Add(l, nonce, appendOk);
          (if added.Threw? then Threw(added.ex) else Returned(true), l')
  }

  /** With the clock in range, the wrapping subtraction misjudges no timestamp:
      the window test is the mathematical one, and the only exception is for a
      difference of exactly 2^63 either way. */
  lemma AbsDifferenceExact(now: int64, timestamp: int64)
    requires ClockInRange(now)
    ensures AbsDifference(now, timestamp).Threw?
        <==> (now - timestamp == -Int64Min || now - timestamp == Int64Min)
    ensures AbsDifference(now, timestamp).Returned? ==>
              (AbsDifference(now, timestamp).value <= FreshnessWindow
               <==> -(FreshnessWindow as int) <= now - timestamp <= FreshnessWindow)
  {
    var x := now - timestamp;
    var m := (x - Int64Min) % TwoTo64;
    if x < Int64Min {
      assert m == x - Int64Min + TwoTo64;
    } else if x <= -Int64Min - 1 {
      assert m == x - Int64Min;
    } else {
      assert m == x - Int64Min - TwoTo64;
    }
  }

  /** A used nonce is refused, and the store is untouched, whatever the
      timestamp, the clock or the file. */
  lemma CheckNonceUsed(l: Ledger, nonce: string, timestamp: int64, now: int64, appendOk: bool)
    requires nonce in l.used
    ensures NonceCheck(l, nonce, timestamp, now, appendOk) == (Returned(false), l)
  {
  }

  /** A stale or early timestamp is refused without adding the nonce, so the
      same nonce can be retried with a corrected timestamp. */
  lemma CheckNonceStale(l: Ledger, nonce: string, timestamp: int64, now: int64, appendOk: bool)
    requires ClockInRange(now)
    requires now - timestamp > FreshnessWindow || timestamp - now > FreshnessWindow
    ensures NonceCheck(l, nonce, timestamp, now, appendOk).1 == l
    ensures NonceCheck(l, nonce, timestamp, now, appendOk).0 == Returned(false)
         || (NonceCheck(l, nonce, timestamp, now, appendOk).0 == Threw(OverflowException)
             && (now - timestamp == -Int64Min || now - timestamp == Int64Min))
  {
    AbsDifferenceExact(now, timestamp);
  }

  /** The check passes exactly for an unused nonce with a timestamp at most 300
      seconds from `now` (and a log append that succeeds); it then adds the
      nonce, which is used afterwards. */
  lemma CheckNonceAccepts(l: Ledger, nonce: string, timestamp: int64, now: int64, appendOk: bool)
    requires ClockInRange(now)
    ensures NonceCheck(l, nonce, timestamp, now, appendOk).0 == Returned(true)
        <==> nonce !in l.used && -(FreshnessWindow as int) <= now - timestamp <= FreshnessWindow && appendOk
    ensures NonceCheck(l, nonce, timestamp, now, appendOk).0 == Returned(true) ==>
              NonceCheck(l, nonce, timestamp, now, appendOk).1 == Add(l, nonce, true).1
              && nonce in NonceCheck(l, nonce, timestamp, now, appendOk).1.used
  {
    AbsDifferenceExact(now, timestamp);
  }

  /** Exactly 300 seconds of skew, past or future, is accepted; 301 is not. */
  lemma CheckNonceBoundary(l: Ledger, nonce: string, now: int64)
    requires Int64Min + 301 <= now < -Int64Min - 301 && nonce !in l.used
    ensures NonceCheck(l, nonce, now - 300, now, true).0 == Returned(true)
    ensures NonceCheck(l, nonce, now + 300, now, true).0 == Returned(true)
    ensures NonceCheck(l, nonce, now - 301, now, true) == (Returned(false), l)
    ensures NonceCheck(l, nonce, now + 301, now, true) == (Returned(false), l)
  {
    AbsDifferenceExact(now, now - 300);
    AbsDifferenceExact(now, now + 300);
    AbsDifferenceExact(now, now - 301);
    AbsDifferenceExact(now, now + 301);
  }

  /** Only a passing check changes the store. */
  lemma CheckNonceChangesOnlyOnPass(l: Ledger, nonce: string, timestamp: int64, now: int64, appendOk: bool)
    ensures NonceCheck(l, nonce, timestamp, now, appendOk).1 != l ==>
              NonceCheck(l, nonce, timestamp, now, appendOk).0 == Returned(true)
  {
  }

  /** A nonce that passed once is refused by every later check. */
  lemma CheckNonceOnce(l: Ledger, nonce: string, t1: int64, now1: int64, ok1: bool,
                       t2: int64, now2: int64, ok2: bool)
    requires NonceCheck(l, nonce, t1, now1, ok1).0 == Returned(true)
    ensures var l' := NonceCheck(l, nonce, t1, now1, ok1).1;
            NonceCheck(l', nonce, t2, now2, ok2) == (Returned(false), l')
  {
  }

  /** Restart: a store reloaded from the log of a store in sync with it refuses
      every nonce the old store had used. */
  lemma CheckNonceAfterRestart(l: Ledger, nonce: string, timestamp: int64, now: int64, appendOk: bool)
    requires InSync(l) && nonce in l.used
    ensures var reloaded := Ledger(LoggedNonces(l.log), l.log);
            NonceCheck(reloaded, nonce, timestamp, now, appendOk) == (Returned(false), reloaded)
  {
  }

  /** But a nonce with surrounding white space, admitted before a restart, is
      admitted again after it: the replay protection does not survive the
      restart for such nonces. */
  lemma PaddedNonceReplayAfterRestart(l: Ledger, nonce: string, timestamp: int64, now: int64)
    requires InSync(l) && ClockInRange(now)
    requires nonce != [] && forall c :: c in nonce ==> !IsLineBreak(c)
    requires Trim(nonce) != nonce
    requires -(FreshnessWindow as int) <= now - timestamp <= FreshnessWindow
    requires NonceCheck(l, nonce, timestamp, now, true).0 == Returned(true)
    ensures var l' := NonceCheck(l, nonce, timestamp, now, true).1;
            var reloaded := Ledger(LoggedNonces(l'.log), l'.log);
            NonceCheck(reloaded, nonce, timestamp, now, true).0 == Returned(true)
  {
    CheckNonceAccepts(l, nonce, timestamp, now, true);
    PaddedNonceLostOnReload(l, nonce);
    var l' := NonceCheck(l, nonce, timestamp, now, true).1;
    CheckNonceAccepts(Ledger(LoggedNonces(l'.log), l'.log), nonce, timestamp, now, true);
  }

  /** Likewise a nonce holding a line break, such as "a\nb": after a restart
      the store holds its two halves instead, and admits it again. */
  lemma LineBreakNonceReplayAfterRestart(l: Ledger, a: string, b: string, timestamp: int64, now: int64)
    requires InSync(l) && ClockInRange(now) && WellFormedNonce(a) && WellFormedNonce(b)
    requires -(FreshnessWindow as int) <= now - timestamp <= FreshnessWindow
    requires NonceCheck(l, a + "\n" + b, timestamp, now, true).0 == Returned(true)
    ensures var l' := NonceCheck(l, a + "\n" + b, timestamp, now, true).1;
            var reloaded := Ledger(LoggedNonces(l'.log), l'.log);
            NonceCheck(reloaded, a + "\n" + b, timestamp, now, true).0 == Returned(true)
  {
    var n := a + "\n" + b;
    CheckNonceAccepts(l, n, timestamp, now, true);
    LineBreakNonceLostOnReload(l, a, b);
    var l' := NonceCheck(l, n, timestamp, now, true).1;
    CheckNonceAccepts(Ledger(LoggedNonces(l'.log), l'.log), n, timestamp, now, true);
  }

  // ---------------------------------------------------------------------------
  // VerifySignature

  /** `VerifySignature`: the signature text must be base64 (a `FormatException`
      otherwise, before any cryptography); the result is the Ed25519 check of
      the decoded signature over the UTF-8 bytes of the payload text as given. */
  function VerifySignature(crypto: Crypto, publicKey: PublicKey, jsonPayload: string, base64Signature: string): (r: Try<bool>)
    ensures r.Threw? <==> Base64.Decode(base64Signature).Threw?
    ensures r.Threw? ==> r.ex == FormatException
    ensures r.Returned? ==> r.value == crypto.ed25519Verify(publicKey.raw, crypto.utf8(jsonPayload),
                                                            Base64.Decode(base64Signature).value)
  {
    var dataBytes := crypto.utf8(jsonPayload);
    match Base64.Decode(base64Signature)
    case Threw(e) => Threw(e)
    case Returned(signatureBytes) => Returned(crypto.ed25519Verify(publicKey.raw, dataBytes, signatureBytes))
  }

  /** A signature sent as the base64 encoding of its bytes is checked as those
      bytes. */
  lemma VerifyEncodedSignature(crypto: Crypto, publicKey: PublicKey, jsonPayload: string, signature: seq<uint8>)
    ensures VerifySignature(crypto, publicKey, jsonPayload, Base64.Encode(signature))
         == Returned(crypto.ed25519Verify(publicKey.raw, crypto.utf8(jsonPayload), signature))
  {
    Base64.DecodeEncode(signature);
  }

  /** Signature text with a character outside the alphabet (other than padding
      and skipped white space) fails before any cryptographic check. */
  lemma VerifyRejectsForeignChar(crypto: Crypto, publicKey: PublicKey, jsonPayload: string, base64Signature: string, i: nat)
    requires i < |base64Signature| && !Base64.IsBase64Char(base64Signature[i])
    requires base64Signature[i] != '=' && !Base64.IsSkipped(base64Signature[i])
    ensures VerifySignature(crypto, publicKey, jsonPayload, base64Signature) == Threw(FormatException)
  {
    Base64.DecodeRejectsForeignChar(base64Signature, i);
  }

  // ---------------------------------------------------------------------------
  // The service object

  class SignatureVerificationService {
    const nonceStore: NonceStore

    constructor (nonceStore: NonceStore)
      ensures this.nonceStore == nonceStore
    {
      this.nonceStore := nonceStore;
    }

    /** Checks the payload's nonce and timestamp; see `NonceCheck`. The caller
        has made sure the nonce is not null. */
    method CheckNonce(payloadData: PayloadData, now: int64, appendOk: bool) returns (r: Try<bool>)
      requires payloadData.nonce.Some?
      modifies nonceStore
      ensures (r, nonceStore.State())
           == NonceCheck(old(nonceStore.State()), payloadData.nonce.value, payloadData.timestamp, now, appendOk)
    {
      var nonce := payloadData.nonce.value;
      var isUsed := nonceStore.IsNonceUsed(nonce);
      if isUsed {
        return Returned(false);
      }
      // In the source, the membership test above and the AddNonce call below
      // take the store's lock separately, so a concurrent request with the
      // same nonce can pass in between; run alone, as here, it cannot.
      var difference := AbsDifference(now, payloadData.timestamp);
      if difference.Threw? {
        return Threw(difference.ex);
      }
      if difference.value > FreshnessWindow {
        return Returned(false);
      }
      var added := nonceStore.AddNonce(nonce, appendOk);
      if added.Threw? {
        return Threw(added.ex);
      }
      // The source ignores AddNonce's result; right after the test above it is true.
      assert added == Returned(true);
      return Returned(true);
    }
  }
}
