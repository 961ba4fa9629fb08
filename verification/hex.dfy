/** Base 16 decoding (section 8 of RFC 4648, case-insensitive) as written in
    `FromHex` / `HexCharToByte`, which src/Responders/DiscordHeaderVerifier.cs
    and src/Headers/DiscordHeaderAuthentication.cs carry as identical copies.

    `FromHex` takes a `ReadOnlySpan<char>`, so it reads UTF-16 code units:
    its length test counts code units, and a character above U+FFFF arrives as
    two surrogates, neither of them a digit. `FromHex` writes into a
    caller-supplied buffer; here the buffer is passed in and the filled buffer
    is returned. A thrown ArgumentException is a `Failure`. */
module Hex {
  import opened Wrappers
  import Utf16

  type CodeUnit = Utf16.CodeUnit

  /** Digit `v` of the lower-case alphabet "0123456789abcdef". */
  function LowerDigit(v: nat): (c: char)
    requires v < 16
    ensures '0' <= c <= '9' || 'a' <= c <= 'f'
  {
    if v < 10 then ('0' as int + v) as char else ('a' as int + v - 10) as char
  }

  /** Digit `v` of the upper-case alphabet "0123456789ABCDEF". */
  function UpperDigit(v: nat): char
    requires v < 16
  {
    if v < 10 then ('0' as int + v) as char else ('A' as int + v - 10) as char
  }

  datatype HexError =
    | OddLength               // "Hex string must have an even number of characters."
    | DestinationTooSmall     // "Destination buffer is too small."
    | InvalidHexChar(c: CodeUnit) // "Invalid hex character '{c}'."

  /** The 22 characters of the case-insensitive Base 16 alphabet. */
  predicate IsHexChar(c: CodeUnit) {
    '0' as int <= c <= '9' as int || 'a' as int <= c <= 'f' as int || 'A' as int <= c <= 'F' as int
  }

  /** `HexCharToByte`: the value of one Base 16 digit, either case. */
  function HexCharToByte(c: CodeUnit): (r: Result<nat, HexError>)
    ensures r.Success? <==> IsHexChar(c)
    ensures r.Success? ==> r.value < 16 && (LowerDigit(r.value) as int == c || UpperDigit(r.value) as int == c)
    ensures r.Failure? ==> r.error == InvalidHexChar(c)
  {
    if '0' as int <= c <= '9' as int then Success(c - '0' as int)
    else if 'a' as int <= c <= 'f' as int then Success(c - 'a' as int + 10)
    else if 'A' as int <= c <= 'F' as int then Success(c - 'A' as int + 10)
    else Failure(InvalidHexChar(c))
  }

  /** Digit `v` decodes to `v` in either case. */
  lemma HexCharToByteInverts(v: nat)
    requires v < 16
    ensures HexCharToByte(LowerDigit(v) as int) == Success(v)
    ensures HexCharToByte(UpperDigit(v) as int) == Success(v)
  {
  }

  /** The byte spelled by the digit pair at `hex[2j]`, `hex[2j + 1]`:
      `(byte)((high << 4) | low)`, which is 16 * high + low as low < 16. */
  function PairValue(hex: seq<CodeUnit>, j: nat): (b: byte)
    requires 2 * j + 1 < |hex| && IsHexChar(hex[2 * j]) && IsHexChar(hex[2 * j + 1])
  {
    16 * HexCharToByte(hex[2 * j]).value + HexCharToByte(hex[2 * j + 1]).value
  }

  /** `hex[k]` is the first character from `from` on that is not a digit. */
  predicate InvalidAt(hex: seq<CodeUnit>, from: nat, k: nat)
    requires k < |hex|
  {
    !IsHexChar(hex[k]) && forall m :: from <= m < k ==> IsHexChar(hex[m])
  }

  /** The decoding loop from digit pair `j` on. */
  function DecodeFrom(hex: seq<CodeUnit>, j: nat, dest: seq<byte>): (r: Result<seq<byte>, HexError>)
    requires |hex| % 2 == 0 && 2 * j <= |hex| && 2 * |dest| >= |hex|
    ensures r.Success? <==> forall k :: 2 * j <= k < |hex| ==> IsHexChar(hex[k])
    ensures r.Failure? ==> exists k :: 2 * j <= k < |hex| && InvalidAt(hex, 2 * j, k) && r.error == InvalidHexChar(hex[k])
    ensures r.Success? ==> |r.value| == |dest|
    decreases |hex| - 2 * j
  {
    if 2 * j == |hex| then Success(dest)
    else
      match HexCharToByte(hex[2 * j])
      case Failure(e) =>
        assert InvalidAt(hex, 2 * j, 2 * j);
        Failure(e)
      case Success(high) =>
        match HexCharToByte(hex[2 * j + 1])
        case Failure(e) =>
          assert InvalidAt(hex, 2 * j, 2 * j + 1);
          Failure(e)
        case Success(low) =>
          var r := DecodeFrom(hex, j + 1, dest[j := 16 * high + low]);
          if r.Failure? then
            var k :| 2 * (j + 1) <= k < |hex| && InvalidAt(hex, 2 * (j + 1), k) && r.error == InvalidHexChar(hex[k]);
            assert InvalidAt(hex, 2 * j, k);
            r
          else r
  }

  /** On success the loop has written the value of every digit pair from `j`
      on into its byte and left every other byte of the buffer alone. */
  lemma {:induction false} DecodeFromWritesPairs(hex: seq<CodeUnit>, j: nat, dest: seq<byte>)
    requires |hex| % 2 == 0 && 2 * j <= |hex| && 2 * |dest| >= |hex|
    requires DecodeFrom(hex, j, dest).Success?
    ensures var out := DecodeFrom(hex, j, dest).value;
            && (forall p :: j <= p && 2 * p < |hex| ==> out[p] == PairValue(hex, p))
            && (forall p :: 0 <= p < |dest| && (p < j || 2 * p >= |hex|) ==> out[p] == dest[p])
    decreases |hex| - 2 * j
  {
    if 2 * j < |hex| {
      var high := HexCharToByte(hex[2 * j]).value;
      var low := HexCharToByte(hex[2 * j + 1]).value;
      var dest' := dest[j := 16 * high + low];
      assert DecodeFrom(hex, j, dest) == DecodeFrom(hex, j + 1, dest');
      DecodeFromWritesPairs(hex, j + 1, dest');
    }
  }

  /** `FromHex(hex, destination)`: odd length and a buffer shorter than half
      the input are rejected before anything is written; otherwise byte j of
      the buffer becomes the value of digit pair j, the first character that
      is not a Base 16 digit is rejected, and the rest of the buffer is kept. */
  function FromHex(hex: seq<CodeUnit>, destination: seq<byte>): (r: Result<seq<byte>, HexError>)
    ensures r == Failure(OddLength) <==> |hex| % 2 == 1
    ensures r == Failure(DestinationTooSmall) <==> |hex| % 2 == 0 && 2 * |destination| < |hex|
    ensures r.Success? <==> && |hex| % 2 == 0
                            && 2 * |destination| >= |hex|
                            && forall k :: 0 <= k < |hex| ==> IsHexChar(hex[k])
    ensures r.Failure? && r.error.InvalidHexChar? ==>
              exists k :: 0 <= k < |hex| && InvalidAt(hex, 0, k) && r.error == InvalidHexChar(hex[k])
    ensures r.Success? ==> && |r.value| == |destination|
                           && (forall p :: 0 <= p && 2 * p < |hex| ==> r.value[p] == PairValue(hex, p))
                           && (forall p :: 0 <= p < |destination| && 2 * p >= |hex| ==> r.value[p] == destination[p])
  {
    if |hex| % 2 == 1 then Failure(OddLength)
    else if |destination| < |hex| / 2 then Failure(DestinationTooSmall)
    else
      var r := DecodeFrom(hex, 0, destination);
      if r.Success? then DecodeFromWritesPairs(hex, 0, destination); r
      else r
  }

  /** Lower-case Base 16 encoding, two digits per byte, high nibble first. */
  function ToHex(bytes: seq<byte>): (hex: string)
    ensures |hex| == 2 * |bytes|
    ensures forall j :: 0 <= j < |bytes| ==>
              hex[2 * j] == LowerDigit(bytes[j] / 16) && hex[2 * j + 1] == LowerDigit(bytes[j] % 16)
  {
    if bytes == [] then []
    else
      var rest := ToHex(bytes[1..]);
      var hex := [LowerDigit(bytes[0] / 16), LowerDigit(bytes[0] % 16)] + rest;
      assert forall j :: 1 <= j < |bytes| ==> bytes[j] == bytes[1..][j - 1];
      assert forall k :: 2 <= k < |hex| ==> hex[k] == rest[k - 2];
      hex
  }

  /** The digit pair ToHex writes for a byte decodes back to that byte. */
  lemma PairOfByte(hex: seq<CodeUnit>, j: nat, b: byte)
    requires 2 * j + 1 < |hex|
    requires hex[2 * j] == LowerDigit(b / 16) as int && hex[2 * j + 1] == LowerDigit(b % 16) as int
    ensures IsHexChar(hex[2 * j]) && IsHexChar(hex[2 * j + 1])
    ensures PairValue(hex, j) == b
  {
    HexCharToByteInverts(b / 16);
    HexCharToByteInverts(b % 16);
  }

  lemma DoubleIsEven(n: nat)
    ensures (2 * n) % 2 == 0
  {
  }

  lemma HalfIndex(k: nat)
    ensures k == 2 * (k / 2) || k == 2 * (k / 2) + 1
  {
  }

  /** ToHex writes only Base 16 digits, one code unit each, and digit pair j
      spells byte j. */
  lemma ToHexDigits(bytes: seq<byte>)
    ensures var hex := Utf16.Units(ToHex(bytes));
            && |hex| == 2 * |bytes|
            && (forall k :: 0 <= k < |hex| ==> IsHexChar(hex[k]))
            && (forall j :: 0 <= j < |bytes| ==> PairValue(hex, j) == bytes[j])
  {
    var text := ToHex(bytes);
    forall k | 0 <= k < |text| ensures '0' <= text[k] <= '9' || 'a' <= text[k] <= 'f' {
      HalfIndex(k);
    }
    var hex := Utf16.Units(text);
    assert |hex| == |text| && forall k :: 0 <= k < |text| ==> hex[k] == text[k] as int;
    forall k | 0 <= k < |hex| ensures IsHexChar(hex[k]) {
      assert hex[k] == text[k] as int;
    }
    forall j | 0 <= j < |bytes| ensures PairValue(hex, j) == bytes[j] {
      PairOfByte(hex, j, bytes[j]);
    }
  }

  /** Decoding the encoding of `bytes` into a large enough buffer writes
      exactly `bytes` at its front and keeps the rest of the buffer. */
  lemma FromHexInvertsToHex(bytes: seq<byte>, destination: seq<byte>)
    requires |destination| >= |bytes|
    ensures FromHex(Utf16.Units(ToHex(bytes)), destination) == Success(bytes + destination[|bytes|..])
  {
    ToHexDigits(bytes);
    FromHexOfPairs(Utf16.Units(ToHex(bytes)), bytes, destination);
  }

  /** Digits whose pair j spells byte j decode to those bytes followed by
      the untouched rest of the buffer. */
  lemma FromHexOfPairs(hex: seq<CodeUnit>, bytes: seq<byte>, destination: seq<byte>)
    requires |hex| == 2 * |bytes| && |destination| >= |bytes|
    requires forall k :: 0 <= k < |hex| ==> IsHexChar(hex[k])
    requires forall j :: 0 <= j < |bytes| ==> PairValue(hex, j) == bytes[j]
    ensures FromHex(hex, destination) == Success(bytes + destination[|bytes|..])
  {
    DoubleIsEven(|bytes|);
    var r := FromHex(hex, destination);
    assert r.Success?;
    var want := bytes + destination[|bytes|..];
    forall p | 0 <= p < |destination| ensures r.value[p] == want[p] {
      if p < |bytes| {
        assert r.value[p] == PairValue(hex, p);
      } else {
        assert r.value[p] == destination[p];
      }
    }
    assert |r.value| == |want|;
    assert r.value == want;
  }

  /** A text holding a character above U+FFFF never decodes: its surrogates
      are not digits, whatever its length. */
  lemma FromHexRejectsAstral(text: string, destination: seq<byte>, k: nat)
    requires k < |text| && text[k] as int >= 0x1_0000
    ensures FromHex(Utf16.Units(text), destination).Failure?
  {
    AstralUnit(text, k);
  }

  /** Some code unit of a text holding a character above U+FFFF is a
      surrogate, which is not a digit. */
  lemma {:induction false} AstralUnit(text: string, k: nat)
    requires k < |text| && text[k] as int >= 0x1_0000
    ensures exists m :: 0 <= m < |Utf16.Units(text)| && !IsHexChar(Utf16.Units(text)[m])
    decreases |text|
  {
    var units := Utf16.Units(text);
    var head := Utf16.EncodeChar(text[0]);
    assert units == head + Utf16.Units(text[1..]);
    if k == 0 {
      assert units[0] == head[0];
      assert !IsHexChar(units[0]);
    } else {
      AstralUnit(text[1..], k - 1);
      var m :| 0 <= m < |Utf16.Units(text[1..])| && !IsHexChar(Utf16.Units(text[1..])[m]);
      assert units[|head| + m] == Utf16.Units(text[1..])[m];
    }
  }
}
