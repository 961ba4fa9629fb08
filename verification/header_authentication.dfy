/** The request check of src/Headers/DiscordHeaderAuthentication.cs
    (`Authenticate`): the same signed message as the responder of
    src/Responders/DiscordHeaderVerifier.cs, built from the header string
    values and the request text instead of raw bytes. */
module HeaderAuthentication {
  import opened Wrappers
  import Hex
  import Utf8
  import Signatures
  import IntParse
  import HeaderVerifier


  /** One value per header name, as the request's header dictionary holds. */
  type Headers = map<string, string>

  datatype AuthOutcome =
    | Authenticated                         // a DiscordUser
    | Forbidden(message: string)            // a ProviderException with ResponseStatus.Forbidden
    | Throws(error: Hex.HexError)           // FromHex on the signature header

  /** The bytes handed to the signature check: UTF-8 of `$"{timestamp}{content}"`. */
  function SignedMessage(timestamp: string, content: string): (m: seq<byte>)
    ensures m == Utf8.Encode(timestamp) + Utf8.Encode(content)
  {
    Utf8.EncodeAppend(timestamp, content);
    Utf8.Encode(timestamp + content)
  }

  /** U+FEFF, the byte-order mark. */
  const BYTE_ORDER_MARK: char := 0xFEFF as char

  /** Its UTF-8 encoding. */
  const UTF8_BYTE_ORDER_MARK: seq<byte> := [0xEF, 0xBB, 0xBF]

  predicate StartsWithByteOrderMark(text: string) {
    text != [] && text[0] == BYTE_ORDER_MARK
  }

  /** The text `new StreamReader(stream).ReadToEnd()` returns for a stream
      holding the UTF-8 bytes of `sent`. The reader detects byte-order marks
      and drops a leading UTF-8 one; the UTF-16 and UTF-32 marks all hold a
      byte FE or FF, which never occurs in UTF-8, so they are never seen. */
  function ReadToEnd(sent: string): (text: string)
    ensures Utf8.Encode(sent) == (if StartsWithByteOrderMark(sent) then UTF8_BYTE_ORDER_MARK else []) + Utf8.Encode(text)
    ensures |text| >= |sent| - 1
  {
    if StartsWithByteOrderMark(sent) then
      assert Utf8.Encode(sent) == Utf8.EncodeChar(sent[0]) + Utf8.Encode(sent[1..]);
      sent[1..]
    else sent
  }

  /** `Authenticate`. `content` is the request body as text, None when the
      request has no body. */
  function Authenticate(headers: Headers, content: Option<string>, publicKey: seq<byte>, verify: Signatures.Verifier): (r: AuthOutcome)
    ensures Signatures.TIMESTAMP_HEADER !in headers || Signatures.SIGNATURE_HEADER !in headers ==>
              r == Forbidden("Missing authentication headers")
    ensures r.Authenticated? <==>
              && Signatures.TIMESTAMP_HEADER in headers && Signatures.SIGNATURE_HEADER in headers
              && Signatures.DecodeSignature(headers[Signatures.SIGNATURE_HEADER]).Success?
              && verify(Signatures.DecodeSignature(headers[Signatures.SIGNATURE_HEADER]).value,
                        Utf8.Encode(headers[Signatures.TIMESTAMP_HEADER]) + Utf8.Encode(content.GetOr("")),
                        publicKey)
    ensures r.Throws? <==> Signatures.TIMESTAMP_HEADER in headers && Signatures.SIGNATURE_HEADER in headers
                           && Signatures.DecodeSignature(headers[Signatures.SIGNATURE_HEADER]).Failure?
  {
    if Signatures.TIMESTAMP_HEADER !in headers || Signatures.SIGNATURE_HEADER !in headers then
      Forbidden("Missing authentication headers")
    else
      var body := if content.Some? then content.value else "";
      match Signatures.DecodeSignature(headers[Signatures.SIGNATURE_HEADER])
      case Failure(e) => Throws(e)
      case Success(signature) =>
        if verify(signature, SignedMessage(headers[Signatures.TIMESTAMP_HEADER], body), publicKey) then Authenticated
        else Forbidden("Invalid authentication headers")
  }

  /** A request without a body is authenticated exactly like one whose body
      is the empty string. */
  lemma AbsentBodyIsEmpty(headers: Headers, publicKey: seq<byte>, verify: Signatures.Verifier)
    ensures Authenticate(headers, None, publicKey, verify) == Authenticate(headers, Some(""), publicKey, verify)
  {
  }

  /** The two checks agree: a request carrying the timestamp, the signature
      and a body, the UTF-8 of a text `content`, with its true Content-Length
      passes the responder of DiscordHeaderVerifier exactly when it is
      authenticated here, because both sign the timestamp bytes followed by
      the body bytes. The one exception is a body opening with a byte-order
      mark: the reader drops it, so this check signs the body without its
      first three bytes while the responder signs all of them. */
  lemma AgreesWithHeaderVerifier(timestamp: string, signature: string, content: string,
                                 publicKey: seq<byte>, verify: Signatures.Verifier)
    requires |Utf8.Encode(timestamp)| + |Utf8.Encode(content)| <= HeaderVerifier.ARRAY_MAX_LENGTH
    ensures var body := Utf8.Encode(content);
            var responderHeaders := map[Signatures.TIMESTAMP_HEADER := [timestamp],
                                        Signatures.SIGNATURE_HEADER := [signature],
                                        HeaderVerifier.CONTENT_LENGTH_HEADER := [IntParse.Decimal(|body|)]];
            var o := HeaderVerifier.RespondAsync(responderHeaders, body, publicKey, verify);
            var a := Authenticate(map[Signatures.TIMESTAMP_HEADER := timestamp, Signatures.SIGNATURE_HEADER := signature],
                                  Some(ReadToEnd(content)), publicKey, verify);
            var decoded := Signatures.DecodeSignature(signature);
            && o.body == Some(body)
            && (o.status.Pass? <==> decoded.Success? && verify(decoded.value, Utf8.Encode(timestamp) + body, publicKey))
            && (!StartsWithByteOrderMark(content) ==> (o.status.Pass? <==> a.Authenticated?))
            && (StartsWithByteOrderMark(content) ==>
                  (a.Authenticated? <==> decoded.Success? && verify(decoded.value, Utf8.Encode(timestamp) + body[3..], publicKey)))
  {
    var body := Utf8.Encode(content);
    var responderHeaders := map[Signatures.TIMESTAMP_HEADER := [timestamp],
                                Signatures.SIGNATURE_HEADER := [signature],
                                HeaderVerifier.CONTENT_LENGTH_HEADER := [IntParse.Decimal(|body|)]];
    IntParse.TryParseIntReadsDecimal(|body|);
    assert responderHeaders[Signatures.TIMESTAMP_HEADER] == [timestamp];
    assert responderHeaders[Signatures.SIGNATURE_HEADER] == [signature];
    assert HeaderVerifier.ContentLength(responderHeaders) == Some(|body|);
    HeaderVerifier.RespondAsyncReadsWholeBody(responderHeaders, body, publicKey, verify);
    var text := ReadToEnd(content);
    if StartsWithByteOrderMark(content) {
      assert body[3..] == Utf8.Encode(text);
    }
  }
}
