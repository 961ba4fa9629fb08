/** The request check of src/Responders/DiscordHeaderVerifier.cs
    (`RespondAsync`): header validation, assembly of the signed message as
    timestamp bytes followed by the request body, and the final verdict.

    Headers are a map from name to the list of values received; the request
    body is the byte stream as a sequence; the public key is the one the
    constructor decoded (Signatures.DecodePublicKey). */
module HeaderVerifier {
  import opened Wrappers
  import Hex
  import Utf8
  import IntParse
  import Signatures

  const CONTENT_LENGTH_HEADER: string := "Content-Length"

  /** `Array.MaxLength`: the largest array .NET allocates; `new byte[n]`
      throws OutOfMemoryException for every larger `n` up to int.MaxValue. */
  const ARRAY_MAX_LENGTH: int := 0x7FFF_FFC7

  type Headers = map<string, seq<string>>

  /** An exception that escapes `RespondAsync`. */
  datatype Thrown =
    | BadContentLength            // a size `length + n` that wraps below zero (OverflowException in
                                  // new byte[…]), exceeds Array.MaxLength (OutOfMemoryException),
                                  // or, for a negative length, is too small for the timestamp
                                  // bytes (ArgumentException in Encoding.UTF8.GetBytes)
    | EndOfStream                 // ReadAtLeast with fewer than `length` body bytes available
    | BadSignature(e: Hex.HexError)

  datatype Status =
    | Pass                        // Result.Ok(default): the next responder runs
    | Unauthorized(message: string)
    | Throws(error: Thrown)

  /** The verdict and, once the body was read, the bytes stored as the
      request's "Body" metadata. */
  datatype Outcome = Outcome(status: Status, body: Option<seq<byte>>)

  /** The two signature headers are both present with exactly one value each. */
  predicate SignatureHeadersValid(headers: Headers) {
    && Signatures.TIMESTAMP_HEADER in headers && Signatures.SIGNATURE_HEADER in headers
    && |headers[Signatures.TIMESTAMP_HEADER]| == 1 && |headers[Signatures.SIGNATURE_HEADER]| == 1
  }

  /** The Content-Length the check reads, or None when it is absent, repeated
      or not an int. */
  function ContentLength(headers: Headers): (r: Option<int>)
    ensures r.Some? <==> && CONTENT_LENGTH_HEADER in headers
                         && |headers[CONTENT_LENGTH_HEADER]| == 1
                         && IntParse.TryParseInt(headers[CONTENT_LENGTH_HEADER][0]).Some?
    ensures r.Some? ==> IntParse.INT_MIN <= r.value <= IntParse.INT_MAX
    ensures r.Some? ==> r == IntParse.TryParseInt(headers[CONTENT_LENGTH_HEADER][0])
  {
    if CONTENT_LENGTH_HEADER !in headers || |headers[CONTENT_LENGTH_HEADER]| != 1 then None
    else IntParse.TryParseInt(headers[CONTENT_LENGTH_HEADER][0])
  }

  /** The message buffer: the timestamp's UTF-8 bytes, then `length` bytes
      read from the body stream. Fails where allocation, encoding or reading
      throws. The 32-bit sum `length + timestamp bytes` wraps, so a sum
      above int.MaxValue is a negative array size; a sum above
      Array.MaxLength cannot be allocated. */
  function AssembleMessage(timestamp: string, length: int, stream: seq<byte>): (r: Result<seq<byte>, Thrown>)
    ensures r.Success? <==> 0 <= length && length + |Utf8.Encode(timestamp)| <= ARRAY_MAX_LENGTH && length <= |stream|
    ensures r.Failure? ==> (r.error == EndOfStream <==> 0 <= length && length + |Utf8.Encode(timestamp)| <= ARRAY_MAX_LENGTH)
    ensures r.Failure? ==> r.error == EndOfStream || r.error == BadContentLength
    ensures r.Success? ==> && |r.value| == |Utf8.Encode(timestamp)| + length
                           && r.value[..|Utf8.Encode(timestamp)|] == Utf8.Encode(timestamp)
                           && r.value[|Utf8.Encode(timestamp)|..] == stream[..length]
  {
    var stamp := Utf8.Encode(timestamp);
    if length < 0 || length + |stamp| > ARRAY_MAX_LENGTH then Failure(BadContentLength)
    else if |stream| < length then Failure(EndOfStream)
    else Success(stamp + stream[..length])
  }

  /** `RespondAsync`. */
  function RespondAsync(headers: Headers, stream: seq<byte>, publicKey: seq<byte>, verify: Signatures.Verifier): (o: Outcome)
    // Missing or repeated signature headers are rejected before the body is read.
    ensures Signatures.TIMESTAMP_HEADER !in headers || Signatures.SIGNATURE_HEADER !in headers ==>
              o == Outcome(Unauthorized("Missing authentication headers"), None)
    ensures Signatures.TIMESTAMP_HEADER in headers && Signatures.SIGNATURE_HEADER in headers && !SignatureHeadersValid(headers) ==>
              o == Outcome(Unauthorized("Invalid authentication headers"), None)
    ensures SignatureHeadersValid(headers) && ContentLength(headers).None? ==>
              o == Outcome(Unauthorized("Invalid or incorrect content length"), None)
    // The body is read only once all three headers passed, and is exactly
    // the Content-Length bytes that follow the timestamp in the message.
    ensures o.body.Some? <==> SignatureHeadersValid(headers) && ContentLength(headers).Some?
                              && AssembleMessage(headers[Signatures.TIMESTAMP_HEADER][0], ContentLength(headers).value, stream).Success?
    ensures o.body.Some? ==> o.body.value == stream[..ContentLength(headers).value]
    // Success exactly when the headers are well formed, the body could be
    // read, the signature is Base 16 and the signature check holds.
    ensures o.status.Pass? <==>
              && SignatureHeadersValid(headers)
              && ContentLength(headers).Some?
              && var timestamp := headers[Signatures.TIMESTAMP_HEADER][0];
                 var length := ContentLength(headers).value;
                 && 0 <= length <= |stream|
                 && length + |Utf8.Encode(timestamp)| <= ARRAY_MAX_LENGTH
                 && Signatures.DecodeSignature(headers[Signatures.SIGNATURE_HEADER][0]).Success?
                 && verify(Signatures.DecodeSignature(headers[Signatures.SIGNATURE_HEADER][0]).value,
                           Utf8.Encode(timestamp) + stream[..length], publicKey)
  {
    if Signatures.TIMESTAMP_HEADER !in headers || Signatures.SIGNATURE_HEADER !in headers then
      Outcome(Unauthorized("Missing authentication headers"), None)
    else if |headers[Signatures.TIMESTAMP_HEADER]| != 1 || |headers[Signatures.SIGNATURE_HEADER]| != 1 then
      Outcome(Unauthorized("Invalid authentication headers"), None)
    else
      match ContentLength(headers)
      case None => Outcome(Unauthorized("Invalid or incorrect content length"), None)
      case Some(length) =>
        var timestamp := headers[Signatures.TIMESTAMP_HEADER][0];
        match AssembleMessage(timestamp, length, stream)
        case Failure(e) => Outcome(Throws(e), None)
        case Success(message) =>
          var body := Some(message[|Utf8.Encode(timestamp)|..]);
          match Signatures.DecodeSignature(headers[Signatures.SIGNATURE_HEADER][0])
          case Failure(e) => Outcome(Throws(BadSignature(e)), body)
          case Success(signature) =>
            if verify(signature, message, publicKey) then Outcome(Pass, body)
            else Outcome(Unauthorized("Invalid authentication headers"), body)
  }

  /** A request whose Content-Length is the true length of its body: the
      whole body is read, and the request passes exactly when the signature
      decodes and verifies over the timestamp bytes followed by the body. */
  lemma RespondAsyncReadsWholeBody(headers: Headers, stream: seq<byte>, publicKey: seq<byte>, verify: Signatures.Verifier)
    requires SignatureHeadersValid(headers)
    requires ContentLength(headers) == Some(|stream|)
    requires |stream| + |Utf8.Encode(headers[Signatures.TIMESTAMP_HEADER][0])| <= ARRAY_MAX_LENGTH
    ensures var o := RespondAsync(headers, stream, publicKey, verify);
            var signature := Signatures.DecodeSignature(headers[Signatures.SIGNATURE_HEADER][0]);
            && o.body == Some(stream)
            && (o.status.Pass? <==>
                  (signature.Success? &&
                   verify(signature.value, Utf8.Encode(headers[Signatures.TIMESTAMP_HEADER][0]) + stream, publicKey)))
  {
    assert stream[..|stream|] == stream;
  }
}
