/** UTF-8 encoding (RFC 3629) of a string of Unicode scalar values, as
    Encoding.UTF8.GetBytes produces it for a well-formed string. */
module Utf8 {
  import opened Wrappers

  /** The one to four bytes encoding a single scalar value: one byte below
      U+0080, two below U+0800, three below U+10000 and four above; every
      byte after the first is a continuation byte 10xxxxxx. */
  function EncodeChar(c: char): (bs: seq<byte>)
    ensures 1 <= |bs| <= 4
    ensures (c as int < 0x80) <==> |bs| == 1
    ensures |bs| == 1 ==> bs[0] == c as int
    ensures |bs| == SequenceLength(bs[0])
    ensures forall i :: 1 <= i < |bs| ==> IsContinuation(bs[i])
  {
    var v := c as int;
    if v < 0x80 then [v]
    else if v < 0x800 then [0xC0 + v / 0x40, 0x80 + v % 0x40]
    else if v < 0x1_0000 then [0xE0 + v / 0x1000, 0x80 + (v / 0x40) % 0x40, 0x80 + v % 0x40]
    else [0xF0 + v / 0x4_0000, 0x80 + (v / 0x1000) % 0x40, 0x80 + (v / 0x40) % 0x40, 0x80 + v % 0x40]
  }

  predicate IsContinuation(b: byte) {
    0x80 <= b < 0xC0
  }

  /** The length of a UTF-8 sequence as its lead byte announces it. */
  function SequenceLength(lead: byte): nat {
    if lead < 0x80 then 1
    else if lead < 0xE0 then 2
    else if lead < 0xF0 then 3
    else 4
  }

  /** The scalar value a well-formed sequence of one to four bytes encodes:
      the payload bits of the lead byte followed by six bits from each
      continuation byte. */
  function DecodeValue(bs: seq<byte>): int
    requires 1 <= |bs| <= 4
  {
    if |bs| == 1 then bs[0] as int
    else if |bs| == 2 then (bs[0] as int - 0xC0) * 0x40 + (bs[1] as int - 0x80)
    else if |bs| == 3 then (bs[0] as int - 0xE0) * 0x1000 + (bs[1] as int - 0x80) * 0x40 + (bs[2] as int - 0x80)
    else (bs[0] as int - 0xF0) * 0x4_0000 + (bs[1] as int - 0x80) * 0x1000 + (bs[2] as int - 0x80) * 0x40 + (bs[3] as int - 0x80)
  }

  /** Decoding the bytes of one scalar value gives that value back, so
      distinct characters have distinct encodings. */
  lemma DecodeEncodeChar(c: char)
    ensures DecodeValue(EncodeChar(c)) == c as int
  {
    var v := c as int;
    if 0x80 <= v < 0x800 {
      DecodeTwo(v);
    } else if 0x800 <= v < 0x1_0000 {
      DecodeThree(v);
    } else if v >= 0x1_0000 {
      DecodeFour(v);
    }
  }

  lemma DecodeTwo(v: int)
    requires 0x80 <= v < 0x800
    ensures DecodeValue([0xC0 + v / 0x40, 0x80 + v % 0x40]) == v
  {
  }

  lemma DecodeThree(v: int)
    requires 0x800 <= v < 0x1_0000
    ensures DecodeValue([0xE0 + v / 0x1000, 0x80 + (v / 0x40) % 0x40, 0x80 + v % 0x40]) == v
  {
    var hi, mid := v / 0x1000, (v / 0x40) % 0x40;
    assert v / 0x40 == hi * 0x40 + mid;
  }

  lemma DecodeFour(v: int)
    requires 0x1_0000 <= v < 0x11_0000
    ensures DecodeValue([0xF0 + v / 0x4_0000, 0x80 + (v / 0x1000) % 0x40, 0x80 + (v / 0x40) % 0x40, 0x80 + v % 0x40]) == v
  {
    var q1, q2 := v / 0x1000, v / 0x40;
    assert q1 == (v / 0x4_0000) * 0x40 + q1 % 0x40;
    assert q2 == q1 * 0x40 + q2 % 0x40;
  }

  /** Encoding.UTF8.GetBytes. */
  function Encode(s: string): (bs: seq<byte>)
    ensures |bs| >= |s|
    ensures (forall i :: 0 <= i < |s| ==> s[i] as int < 0x80) ==> |bs| == |s|
  {
    if s == [] then [] else EncodeChar(s[0]) + Encode(s[1..])
  }

  /** The encoding of a concatenation is the concatenation of the encodings:
      encoding `$"{a}{b}"` is encoding `a` followed by encoding `b`. */
  lemma {:induction false} EncodeAppend(a: string, b: string)
    ensures Encode(a + b) == Encode(a) + Encode(b)
    decreases |a|
  {
    if a == [] {
      assert a + b == b;
    } else {
      assert (a + b)[1..] == a[1..] + b;
      EncodeAppend(a[1..], b);
    }
  }

  /** Distinct strings have distinct encodings: the lead byte fixes how many
      bytes the first character takes, and those bytes decode to it. */
  lemma {:induction false} EncodeInjective(a: string, b: string)
    requires Encode(a) == Encode(b)
    ensures a == b
    decreases |a|
  {
    if a != [] && b != [] {
      var ea, eb := EncodeChar(a[0]), EncodeChar(b[0]);
      assert Encode(a) == ea + Encode(a[1..]);
      assert Encode(b) == eb + Encode(b[1..]);
      assert ea[0] == Encode(a)[0] == Encode(b)[0] == eb[0];
      assert ea == Encode(a)[..|ea|] == eb;
      DecodeEncodeChar(a[0]);
      DecodeEncodeChar(b[0]);
      assert Encode(a[1..]) == Encode(a)[|ea|..] == Encode(b[1..]);
      EncodeInjective(a[1..], b[1..]);
      assert a == [a[0]] + a[1..] && b == [b[0]] + b[1..];
    }
  }
}
