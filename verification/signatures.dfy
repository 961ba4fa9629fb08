/** What the two request authenticators share: the Ed25519 boundary of
    src/Ed25519.cs and the constructor both of them run, which decodes the
    configured public key into a 32-byte buffer.

    The Ed25519 check itself (section 5.1.7 of RFC 8032, done by libsodium)
    is not modelled: it is the parameter `verify` wherever it is used. */
module Signatures {
  import opened Wrappers
  import Hex
  import Utf16

  /** The two request headers Discord signs a request with. */
  const TIMESTAMP_HEADER: string := "X-Signature-Timestamp"
  const SIGNATURE_HEADER: string := "X-Signature-Ed25519"

  /** Ed25519.SignatureBytes and Ed25519.PublicKeyBytes. */
  const SIGNATURE_BYTES: nat := 64
  const PUBLIC_KEY_BYTES: nat := 32

  /** The detached-signature check: (signature, message, public key) -> valid. */
  type Verifier = (seq<byte>, seq<byte>, seq<byte>) -> bool

  /** A zero-filled buffer: `new byte[n]` and `stackalloc byte[n]`. */
  function Zeros(n: nat): (z: seq<byte>)
    ensures |z| == n && forall i :: 0 <= i < n ==> z[i] == 0
  {
    seq(n, i => 0)
  }

  /** The constructor of both authenticators: `FromHex(configuration[
      "Discord:PublicKey"], new byte[32])`, reading the setting's UTF-16 code
      units. A missing setting is a null string, which converts to an empty
      span, so it yields the all-zero key. */
  function DecodePublicKey(configured: Option<string>): (r: Result<seq<byte>, Hex.HexError>)
    ensures configured.None? ==> r == Success(Zeros(PUBLIC_KEY_BYTES))
    ensures var h := Utf16.Units(configured.GetOr(""));
            r.Success? <==> |h| % 2 == 0 && |h| <= 2 * PUBLIC_KEY_BYTES && forall k :: 0 <= k < |h| ==> Hex.IsHexChar(h[k])
    ensures r.Success? ==> var h := Utf16.Units(configured.GetOr(""));
            && |r.value| == PUBLIC_KEY_BYTES
            && (forall p :: 0 <= p && 2 * p < |h| ==> r.value[p] == Hex.PairValue(h, p))
            && (forall p :: 0 <= p < PUBLIC_KEY_BYTES && 2 * p >= |h| ==> r.value[p] == 0)
  {
    Hex.FromHex(Utf16.Units(configured.GetOr("")), Zeros(PUBLIC_KEY_BYTES))
  }

  /** The signature header's UTF-16 code units decoded into a 64-byte stack
      buffer. */
  function DecodeSignature(header: string): (r: Result<seq<byte>, Hex.HexError>)
    ensures var h := Utf16.Units(header);
            r.Success? <==> |h| % 2 == 0 && |h| <= 2 * SIGNATURE_BYTES
                            && forall k :: 0 <= k < |h| ==> Hex.IsHexChar(h[k])
    ensures r.Success? ==> var h := Utf16.Units(header);
                           && |r.value| == SIGNATURE_BYTES
                           && (forall p :: 0 <= p && 2 * p < |h| ==> r.value[p] == Hex.PairValue(h, p))
                           && (forall p :: 0 <= p < SIGNATURE_BYTES && 2 * p >= |h| ==> r.value[p] == 0)
  {
    Hex.FromHex(Utf16.Units(header), Zeros(SIGNATURE_BYTES))
  }

  /** A configured key of 64 digits decodes to exactly the key's bytes: the
      encoding of any 32-byte key is accepted and read back. */
  lemma PublicKeyRoundTrip(key: seq<byte>)
    requires |key| == PUBLIC_KEY_BYTES
    ensures DecodePublicKey(Some(Hex.ToHex(key))) == Success(key)
  {
    Hex.FromHexInvertsToHex(key, Zeros(PUBLIC_KEY_BYTES));
    assert key + Zeros(PUBLIC_KEY_BYTES)[|key|..] == key;
  }
}
