# Replay-protected Ed25519 signature verification, modelled in Dafny

The system is a small web API. A client signs a JSON payload with Ed25519 and
posts the payload with its signature, which is base64 text, to `POST api/verify`. The payload
carries a message, a nonce and a Unix timestamp in seconds. The endpoint runs these steps in order:

1. It loads the server's public key from a PEM-style text file.
2. It checks that the request has a payload and a signature.
3. It parses the payload.
4. It refuses a nonce that was already used, and a timestamp more than 300 seconds away from the server clock in either direction.
5. It records the nonce.
6. It checks the signature over the payload's `ToString()` text.

The used nonces are kept in a set in memory. They are also appended, one per line, to a
log file that is read back when the store is created. A nonce is recorded as soon as
the nonce check passes, before the signature is checked. It therefore stays consumed even when the
signature then fails.

The model has one Dafny module per part of the program:

| file | module | what it holds |
|---|---|---|
| `common.dfy` | `Common` | 64-bit integers with C#'s unchecked wrap-around, exceptions as values (`Try`) |
| `text.dfy` | `Text` | the .NET string operations the core relies on: `Trim`, `Split`, `Join`, `File.ReadAllLines` line splitting |
| `base64.dfy` | `Base64` | `Convert.FromBase64String` as a decoder, with an encoder as its partner |
| `nonce_store.dfy` | `NonceStore` | the nonce store: a pure transition function `Add` over a `Ledger` (the set and the log text), and the class `NonceStore` whose methods are proved to follow it |
| `signature_verification.dfy` | `SignatureVerification` | key loading, the nonce and freshness check `NonceCheck`, signature verification, and the class `SignatureVerificationService` |
| `verify_controller.dfy` | `VerifyController` | the endpoint's chain of checks as the function `PostSpec`, and the class `VerifyController` whose `Post` is proved to follow it |

Every stateful method states its result and its new state as the result of a
pure function of the old state. The properties are proved as lemmas about those functions:

- a nonce is admitted at most once;
- only a passing nonce check changes the store;
- the freshness window is exactly 300 seconds, either way;
- an accepted request has a fresh nonce, a timestamp in the window and a valid signature;
- conversely, such a request is accepted when the log append succeeds, the clock is not within 300 seconds of either end of the range of `long`, and the signature is sent as its canonical base64 encoding;
- a replayed request is refused;
- a framed 32-byte key loads back as itself;
- base64 decoding inverts encoding;
- for well-formed nonces (non-empty, trimmed, without line breaks), reloading the log rebuilds the set in memory.

The nonce store's reload trims each line and reads "\n", "\r" and "\r\n" as line
ends, but `AddNonce` writes the nonce as given. Two kinds of nonce therefore
come back different after a restart:

- A nonce with leading or trailing white space comes back trimmed.
- A nonce holding a line break comes back as its pieces: "a\nb" is written as two
  lines and reloads as "a" and "b".

Either kind, accepted before a restart, is accepted again after it, so for them the
replay protection does not survive a restart. `PaddedNonceLostOnReload`,
`PaddedNonceReplayAfterRestart`, `LineBreakNonceLostOnReload` and
`LineBreakNonceReplayAfterRestart` prove this of the code as written. The endpoint
rejects an empty nonce, but never trims it or checks it for white space or line breaks.

`CheckNonce` looks the nonce up first and checks the timestamp second
(`Services/SignatureVerificationService.cs` lines 35-45). The order shows only in which
refusal comes first, because neither refusal changes the store.

## Model

| member | source | states |
|---|---|---|
| Common.Wrap64 | api/SpruceID-api/SpruceID-api/Services/SignatureVerificationService.cs:42 | the unchecked `long` subtraction: the result lies in the range of `long` and is congruent to the exact difference modulo 2^64 |
| Text.Trim | api/SpruceID-api/SpruceID-api/Utilities/NonceStore.cs:26 | `String.Trim` returns text with no white space at either end |
| Text.TrimIsSlice | api/SpruceID-api/SpruceID-api/Utilities/NonceStore.cs:26 | what `Trim` keeps is a contiguous part of its input, and all it removes from either end is white space |
| Text.TrimOfTrimmed | api/SpruceID-api/SpruceID-api/Utilities/NonceStore.cs:26 | trimming is the identity on text without surrounding white space |
| Text.TrimEmptyIffBlank | api/SpruceID-api/SpruceID-api/Utilities/NonceStore.cs:26-27 | a line trims to the empty string exactly when it consists of white space only |
| Text.Split | api/SpruceID-api/SpruceID-api/Services/SignatureVerificationService.cs:19 | `Split('\n')` yields at least one piece and no piece contains the separator |
| Text.JoinSplit | api/SpruceID-api/SpruceID-api/Services/SignatureVerificationService.cs:19 | joining the pieces of a split with the separator gives back the original text |
| Text.SplitJoin | api/SpruceID-api/SpruceID-api/Services/SignatureVerificationService.cs:19 | splitting the join of separator-free pieces gives back exactly those pieces |
| Text.ReadAllLines | api/SpruceID-api/SpruceID-api/Utilities/NonceStore.cs:24 | `File.ReadAllLines` returns lines that contain no line break character |
| Text.ReadAllLinesCrLf | api/SpruceID-api/SpruceID-api/Utilities/NonceStore.cs:24 | a "\r\n" ends a line as one terminator: the line before it is returned and no empty line follows |
| Text.EmptyLineAfterCarriageReturn | api/SpruceID-api/SpruceID-api/Utilities/NonceStore.cs:24 | after a text ending in "\r", an empty line and its "\n" add no line, which is why appending needs a non-empty line |
| Text.ReadAllLinesAppend | api/SpruceID-api/SpruceID-api/Utilities/NonceStore.cs:62 | appending a line and its terminator to a file that ends with a line break makes `ReadAllLines` return the old lines plus exactly that line |
| Base64.CharOf | api/SpruceID-api/SpruceIDapiTestProject/Services/SignatureVerificationServiceTests.cs:28 | each sextet has an alphabet character that decodes back to it |
| Base64.DecodeGroups | api/SpruceID-api/SpruceID-api/Services/SignatureVerificationService.cs:23 | decoding groups of four fails only with a `FormatException` |
| Base64.DecodeGroupsLength | api/SpruceID-api/SpruceID-api/Services/SignatureVerificationService.cs:23 | n groups decode to between 3n-2 and 3n bytes |
| Base64.Decode | api/SpruceID-api/SpruceID-api/Services/SignatureVerificationService.cs:23 | `Convert.FromBase64String` fails only with a `FormatException`; `DecodeAccepts` says which texts fail |
| Base64.Encode | api/SpruceID-api/SpruceIDapiTestProject/Services/SignatureVerificationServiceTests.cs:137 | `Convert.ToBase64String`, with which the tests build keys and signatures: encoded text has a length that is a multiple of four and uses only the alphabet and '=' |
| Base64.DecodeEncode | api/SpruceID-api/SpruceID-api/Services/SignatureVerificationService.cs:23 | decoding the encoding of any byte string returns those bytes |
| Base64.DecodeGroupsAccepts | api/SpruceID-api/SpruceID-api/Services/SignatureVerificationService.cs:23 | groups of four decode exactly when they are alphabet characters, with one or two '=' allowed only at the very end |
| Base64.DecodeAccepts | api/SpruceID-api/SpruceID-api/Services/SignatureVerificationService.cs:23 | `Convert.FromBase64String` returns exactly when the text without skipped white space is well formed, and throws a `FormatException` otherwise: for a length not a multiple of four, a foreign character, a third '=', or a '=' before the end |
| Base64.DecodeRejectsForeignChar | api/SpruceID-api/SpruceID-api/Services/SignatureVerificationService.cs:23 | text with a character outside the alphabet, other than '=' and the four skipped white space characters, fails with a `FormatException` |
| NonceStore.Add | api/SpruceID-api/SpruceID-api/Utilities/NonceStore.cs:52-70 | `true` exactly for an unused nonce whose append succeeds, `false` exactly for a used one; any other outcome leaves the store unchanged; the nonce is used afterwards unless the append threw |
| NonceStore.AddFresh | api/SpruceID-api/SpruceID-api/Utilities/NonceStore.cs:52-70 | an unused nonce is admitted: `true`, the set gains exactly that nonce, and the log gains exactly one line holding it |
| NonceStore.AddUsed | api/SpruceID-api/SpruceID-api/Utilities/NonceStore.cs:57-60 | a used nonce gives `false` and changes neither the set nor the log |
| NonceStore.AddAppendFails | api/SpruceID-api/SpruceID-api/Utilities/NonceStore.cs:62-63 | a failing append throws before the insert and leaves the set as it was |
| NonceStore.AddOnce | api/SpruceID-api/SpruceID-api/Utilities/NonceStore.cs:52-70 | a nonce admitted once is refused by every later call |
| NonceStore.AddAllGrows | api/SpruceID-api/SpruceID-api/Utilities/NonceStore.cs:52-70 | over any sequence of calls the set only grows and the log is only appended to |
| NonceStore.LoggedNoncesEmpty | api/SpruceID-api/SpruceID-api/Utilities/NonceStore.cs:18-19 | a missing or empty log loads as the empty set |
| NonceStore.BlankLineIgnored | api/SpruceID-api/SpruceID-api/Utilities/NonceStore.cs:26-30 | a blank or white space-only line adds nothing on load |
| NonceStore.LoggedNonces | api/SpruceID-api/SpruceID-api/Utilities/NonceStore.cs:24-31 | a loaded nonce is never empty and never has surrounding white space |
| NonceStore.NoncesOfLinesSound | api/SpruceID-api/SpruceID-api/Utilities/NonceStore.cs:24-31 | every nonce loaded is the trimmed, non-empty text of some line of the file |
| NonceStore.NoncesOfLinesComplete | api/SpruceID-api/SpruceID-api/Utilities/NonceStore.cs:24-31 | the trimmed, non-empty text of every line of the file is loaded |
| NonceStore.NoncesOfLinesSnoc | api/SpruceID-api/SpruceID-api/Utilities/NonceStore.cs:24-31 | each line of the loading loop adds its trimmed text, unless that text is empty |
| NonceStore.AddKeepsInSync | api/SpruceID-api/SpruceID-api/Utilities/NonceStore.cs:62-63 | adding a well-formed nonce keeps the set equal to what reloading the log would give |
| NonceStore.ReloadAfterAdds | api/SpruceID-api/SpruceID-api/Utilities/NonceStore.cs:10-14 | after any sequence of adds of well-formed nonces, a store created over the log rebuilds exactly the set in memory |
| NonceStore.PaddedNonceLostOnReload | api/SpruceID-api/SpruceID-api/Utilities/NonceStore.cs:26 | a nonce with surrounding white space is in the set after it is added, but not in the set loaded from the log; its trimmed form is there instead |
| NonceStore.PaddedNonceExample | api/SpruceID-api/SpruceID-api/Utilities/NonceStore.cs:26 | the nonce " n" is lost on reload in this way |
| NonceStore.NoncesOfLinesWellFormed | api/SpruceID-api/SpruceID-api/Utilities/NonceStore.cs:24-31 | a line holding a well-formed nonce loads as exactly that nonce |
| NonceStore.TwoLinesLogged | api/SpruceID-api/SpruceID-api/Utilities/NonceStore.cs:24-31 | two well-formed lines appended to a log load as two more nonces |
| NonceStore.LineBreakNonceLostOnReload | api/SpruceID-api/SpruceID-api/Utilities/NonceStore.cs:62 | a nonce "a\nb" is in the set after it is added, but the set loaded from the log holds "a" and "b" instead |
| NonceStore.NonceStore.constructor | api/SpruceID-api/SpruceID-api/Utilities/NonceStore.cs:10-14 | a new store holds the nonces loaded from its log file, or none when the file does not exist |
| NonceStore.NonceStore.LoadNonces | api/SpruceID-api/SpruceID-api/Utilities/NonceStore.cs:16-37 | the loop adds the trimmed non-blank lines of the file to the set, and does nothing when the file does not exist |
| NonceStore.NonceStore.IsNonceUsed | api/SpruceID-api/SpruceID-api/Utilities/NonceStore.cs:39-50 | true exactly when the nonce is in the set; nothing changes |
| NonceStore.NonceStore.AddNonce | api/SpruceID-api/SpruceID-api/Utilities/NonceStore.cs:52-70 | result and new set and log are those of `Add` on the old ones |
| SignatureVerification.BodyLines | api/SpruceID-api/SpruceID-api/Services/SignatureVerificationService.cs:20-21 | the kept lines are lines of the key text and none starts with "-----" |
| SignatureVerification.BodyLinesAppend | api/SpruceID-api/SpruceID-api/Services/SignatureVerificationService.cs:21 | the filter works line by line: the lines kept from two runs of lines are those kept from each, in order |
| SignatureVerification.BodyLinesOne | api/SpruceID-api/SpruceID-api/Services/SignatureVerificationService.cs:21 | a single line is kept exactly when it does not start with "-----" |
| SignatureVerification.BodyLinesKeepsAll | api/SpruceID-api/SpruceID-api/Services/SignatureVerificationService.cs:21 | lines none of which starts with "-----" are all kept, in order |
| SignatureVerification.TrimEach | api/SpruceID-api/SpruceID-api/Services/SignatureVerificationService.cs:22 | each kept line is replaced by its trimmed form, in order |
| SignatureVerification.KeyBase64Text | api/SpruceID-api/SpruceID-api/Services/SignatureVerificationService.cs:19-22 | the base64 text handed to the decoder contains no line feed |
| SignatureVerification.LoadEd25519PublicKey | api/SpruceID-api/SpruceID-api/Services/SignatureVerificationService.cs:16-31 | a key exactly when the base64 text decodes to 32 bytes, holding those bytes; a `FormatException` when it does not decode; the length `ArgumentException` otherwise |
| SignatureVerification.EncodedIsPlainLine | api/SpruceID-api/SpruceID-api/Services/SignatureVerificationService.cs:19-22 | encoded key text has no line break, does not start with "-----" and is unchanged by trimming |
| SignatureVerification.KeyBase64TextOfFramed | api/SpruceID-api/SpruceID-api/Services/SignatureVerificationService.cs:19-22 | of a header line, a body line and a footer line, only the trimmed body is kept |
| SignatureVerification.KeyBase64TextOfWrapped | api/SpruceID-api/SpruceID-api/Services/SignatureVerificationService.cs:19-22 | a key body wrapped over several lines between two delimiter lines gives its lines, each trimmed, run together |
| SignatureVerification.LoadFramedKey | api/SpruceID-api/SpruceID-api/Services/SignatureVerificationService.cs:16-31 | a framed encoded key loads as exactly its bytes when there are 32, and fails with the length `ArgumentException` otherwise |
| SignatureVerification.LoadRejectsForeignChar | api/SpruceID-api/SpruceID-api/Services/SignatureVerificationService.cs:23 | key text whose base64 part holds a character outside the alphabet fails with a `FormatException` before the length check |
| SignatureVerification.LoadFramedRejectsForeignChar | api/SpruceID-api/SpruceID-api/Services/SignatureVerificationService.cs:23 | the same for a framed key whose body line holds such a character |
| SignatureVerification.AbsDifference | api/SpruceID-api/SpruceID-api/Services/SignatureVerificationService.cs:42 | `Math.Abs` of the wrapping difference: an `OverflowException` exactly when the difference wraps to `long.MinValue`; otherwise a value in the range of `long` congruent to plus or minus the exact difference modulo 2^64 |
| SignatureVerification.AbsDifferenceExact | api/SpruceID-api/SpruceID-api/Services/SignatureVerificationService.cs:42 | with the clock in range, `Math.Abs` of the wrapping difference throws only for a difference of exactly 2^63, and otherwise the window test agrees with the exact difference |
| SignatureVerification.NonceCheck | api/SpruceID-api/SpruceID-api/Services/SignatureVerificationService.cs:33-48 | when the check passes, the nonce was unused, the append succeeded and the store is that of `Add`; in every other outcome the store is unchanged |
| SignatureVerification.CheckNonceUsed | api/SpruceID-api/SpruceID-api/Services/SignatureVerificationService.cs:35-38 | a used nonce is refused, and the store is untouched, whatever the timestamp |
| SignatureVerification.CheckNonceStale | api/SpruceID-api/SpruceID-api/Services/SignatureVerificationService.cs:41-45 | a timestamp more than 300 seconds away is refused without touching the store |
| SignatureVerification.CheckNonceAccepts | api/SpruceID-api/SpruceID-api/Services/SignatureVerificationService.cs:33-48 | the check passes exactly for an unused nonce, a timestamp at most 300 seconds away and a successful append; the nonce is then used |
| SignatureVerification.CheckNonceBoundary | api/SpruceID-api/SpruceID-api/Services/SignatureVerificationService.cs:42 | a skew of exactly 300 seconds is accepted in both directions, and 301 is refused |
| SignatureVerification.CheckNonceChangesOnlyOnPass | api/SpruceID-api/SpruceID-api/Services/SignatureVerificationService.cs:33-48 | only a passing check changes the store |
| SignatureVerification.CheckNonceOnce | api/SpruceID-api/SpruceID-api/Services/SignatureVerificationService.cs:33-48 | a nonce that passed once is refused by every later check |
| SignatureVerification.CheckNonceAfterRestart | api/SpruceID-api/SpruceID-api/Utilities/NonceStore.cs:10-14 | a store reloaded from an in-sync log refuses every nonce used before |
| SignatureVerification.PaddedNonceReplayAfterRestart | api/SpruceID-api/SpruceID-api/Utilities/NonceStore.cs:26 | a nonce with surrounding white space, admitted before a restart, is admitted again after it |
| SignatureVerification.LineBreakNonceReplayAfterRestart | api/SpruceID-api/SpruceID-api/Utilities/NonceStore.cs:24-31 | a nonce holding a line break, admitted before a restart, is admitted again after it |
| SignatureVerification.VerifySignature | api/SpruceID-api/SpruceID-api/Services/SignatureVerificationService.cs:50-57 | a non-base64 signature throws a `FormatException`; otherwise the result is the Ed25519 check of the decoded signature over the UTF-8 bytes of the payload text |
| SignatureVerification.VerifyEncodedSignature | api/SpruceID-api/SpruceID-api/Services/SignatureVerificationService.cs:50-57 | a signature sent as its base64 encoding is checked as exactly its bytes |
| SignatureVerification.VerifyRejectsForeignChar | api/SpruceID-api/SpruceID-api/Services/SignatureVerificationService.cs:53 | signature text with a character outside the alphabet fails before any cryptographic check |
| SignatureVerification.SignatureVerificationService.constructor | api/SpruceID-api/SpruceID-api/Services/SignatureVerificationService.cs:11-14 | the service keeps the given store |
| SignatureVerification.SignatureVerificationService.CheckNonce | api/SpruceID-api/SpruceID-api/Services/SignatureVerificationService.cs:33-48 | the result and the store afterwards are those of `NonceCheck` on the store before |
| VerifyController.ServiceKeyLoad | api/SpruceID-api/SpruceID-api/Controllers/VerifyController.cs:27-28 | reading the key file and loading the key never gives null; a missing file throws; otherwise the outcome is that of `LoadEd25519PublicKey` |
| VerifyController.PostSpec | api/SpruceID-api/SpruceID-api/Controllers/VerifyController.cs:23-77 | the status is 200, 400 or 401; a 200 carries the success message and has added a nonce; the set only grows and the log is only appended to |
| VerifyController.PostKeyFirst | api/SpruceID-api/SpruceID-api/Controllers/VerifyController.cs:27-33 | a null or failing key gives 400 whatever the request, even a null one, and the store is untouched |
| VerifyController.PostRejectsEarly | api/SpruceID-api/SpruceID-api/Controllers/VerifyController.cs:35-53 | each cause of rejection before the nonce check (missing fields, empty payload text, a parser exception, a null payload or one without a nonce or with timestamp 0) gives its own 400 response, each 400 response names its cause, and the store is unchanged |
| VerifyController.PostNonceRefused | api/SpruceID-api/SpruceID-api/Controllers/VerifyController.cs:56-59 | a refused nonce check gives 401 with the nonce message, for any signature and any verification primitive, and the store is unchanged |
| VerifyController.PostAfterNonceCheck | api/SpruceID-api/SpruceID-api/Controllers/VerifyController.cs:56-71 | after a passing nonce check the nonce stays consumed; the status is 200 exactly when the signature verifies, 401 when it does not, and 400 when it is not base64 |
| VerifyController.PostNonceCheckThrows | api/SpruceID-api/SpruceID-api/Controllers/VerifyController.cs:56-76 | a nonce check that throws (a failed append, or a difference of exactly 2^63) is caught: 400 carrying that exception, and the store is unchanged |
| VerifyController.PostAppendFails | api/SpruceID-api/SpruceID-api/Services/SignatureVerificationService.cs:46 | a fresh request with an unused nonce whose log append fails gets 400 with the `IOException`, and its nonce is not admitted |
| VerifyController.PostChangesOnlyByAdmission | api/SpruceID-api/SpruceID-api/Controllers/VerifyController.cs:23-77 | a request either leaves the store unchanged or adds exactly its own, previously unused, nonce |
| VerifyController.PostAcceptSound | api/SpruceID-api/SpruceID-api/Controllers/VerifyController.cs:23-77 | a 200 implies a loaded key, a well-structured payload, a nonce unused before and used after, a timestamp within 300 seconds, and a verifying signature over the payload's `ToString()` text |
| VerifyController.PostAcceptComplete | api/SpruceID-api/SpruceID-api/Controllers/VerifyController.cs:23-77 | a well-structured, fresh request with an unused nonce and a signature that verifies, sent as its canonical base64 encoding, is accepted when the log append succeeds and the clock is in range |
| VerifyController.PostNoReplay | api/SpruceID-api/SpruceID-api/Controllers/VerifyController.cs:56-59 | the identical request sent again after a 200 gets 401, whatever the clock |
| VerifyController.PostStaleKeepsNonce | api/SpruceID-api/SpruceID-api/Controllers/VerifyController.cs:56-59 | a stale or early request is not accepted and does not consume its nonce |
| VerifyController.VerifyController.constructor | api/SpruceID-api/SpruceID-api/Controllers/VerifyController.cs:16-19 | the controller keeps the given service |
| VerifyController.VerifyController.Post | api/SpruceID-api/SpruceID-api/Controllers/VerifyController.cs:23-77 | the response and the store afterwards are those of `PostSpec` on the store before |

## Left out

- Concurrency: the store's `ReaderWriterLockSlim` is not modelled, and every operation runs alone. `CheckNonce` takes the lock twice, once to look up the nonce and once to add it. Two concurrent requests with the same nonce can both pass between those two steps. The model does not show this race, and it does not show `CheckNonce` ignoring a `false` from `AddNonce`.
- File I/O: the log file is its text, and a missing file is `None`. Whether an append succeeds is the parameter `appendOk`. A failed append is an `IOException`, and the model does not distinguish other I/O exceptions. A failed append writes nothing: `Add` leaves `log` unchanged. Reading an existing log at start-up (`File.ReadAllLines`, `Utilities/NonceStore.cs` line 24) is taken to succeed: an `IOException` or access error thrown by that read, which would fail the constructor, is not modelled. A write that fails part-way and leaves part of a line in the file is not modelled. On reload, such a fragment would merge with the next nonce appended. Reading the key file (`File.ReadAllText`) is a parameter of `ServiceKeyLoad` or, for `Post`, its outcome (`KeyLoad`).
- `Environment.NewLine`, which `File.AppendAllLines` writes, is taken to be "\n".
- Ed25519 (RFC 8032, in the NSec library) and `Encoding.UTF8.GetBytes` are uninterpreted functions, held in a `Crypto` value. `PublicKey.Import` is taken to accept any 32 raw bytes.
- Base64 decoding does not check that the unused low bits of a padded final group are zero. The model assumes the lenient .NET behaviour here.
- JSON: model binding of the request, `Payload.ToString()` and `JsonConvert.DeserializeObject` are not modelled. The request arrives bound. The payload is its `ToString()` text. The parser is a function parameter whose result may be an exception.
- The signature is checked over `request.Payload.ToString()` (`Controllers/VerifyController.cs` lines 41 and 62). For a payload sent as a JSON object, as the Python client sends it, the text depends on the input formatter that binds `Payload`, and need not be the bytes the client signed. The model takes the `ToString()` text as given, so it does not capture a valid signature that fails because the text differs.
- The type of `PayloadData.Timestamp` is taken to be `long`. `PayloadData`'s declaration is not part of this model, and the type is inferred from the tests, which assign `ToUnixTimeSeconds()` to it. The `OverflowException` of `AbsDifference` depends on this choice.
- The clock (`DateTimeOffset.UtcNow`) is the parameter `now`. `ClockInRange` excludes only clocks within 300 seconds of either end of the range of `long`.
- `String.StartsWith("-----")` is culture-sensitive in .NET and is modelled as an ordinal prefix test. The two agree on the delimiter lines of a key file.
- White space is the Unicode White_Space set that `char.IsWhiteSpace` uses, over `char` values. Surrogate pairs and other encoding details are not modelled.
- The interfaces `ISignatureVerificationService` and `INonceStore` are not modelled. The classes are used directly, because the model has no traits.
- The Python client (`client/main.py`) is not part of this model.
- The store's tests call a `CheckAndAddNonce` that the store does not define. It is not modelled.
- Exception messages are modelled by exception kind, with the message text only for the key-length `ArgumentException`.
- SignatureVerification.SignatureVerificationService.CheckNonce: requires a non-null nonce. The endpoint guarantees this, and the null case (`HashSet` accepting null) is not modelled.
