/** UTF-16, the representation of a .NET `string`: `Length`, indexing and
    `Span<char>` slicing all count 16-bit code units, and a scalar value above
    U+FFFF takes two of them (a surrogate pair). */
module Utf16 {

  /** A C# `char`: one UTF-16 code unit. */
  type CodeUnit = x: int | 0 <= x < 0x1_0000

  /** The code units of one scalar value. */
  function EncodeChar(c: char): (us: seq<CodeUnit>)
    ensures |us| == (if c as int < 0x1_0000 then 1 else 2)
    ensures c as int < 0x1_0000 ==> us[0] == c as int
    ensures c as int >= 0x1_0000 ==> 0xD800 <= us[0] < 0xDC00 && 0xDC00 <= us[1] < 0xE000
  {
    var v := c as int;
    if v < 0x1_0000 then [v]
    else [0xD800 + (v - 0x1_0000) / 0x400, 0xDC00 + (v - 0x1_0000) % 0x400]
  }

  /** The code units of a string: what a .NET `string` or `ReadOnlySpan<char>`
      holds for it. */
  function Units(s: string): (us: seq<CodeUnit>)
    ensures |us| >= |s|
    ensures (forall i :: 0 <= i < |s| ==> s[i] as int < 0x1_0000) ==>
              |us| == |s| && forall i :: 0 <= i < |s| ==> us[i] == s[i] as int
  {
    if s == [] then [] else EncodeChar(s[0]) + Units(s[1..])
  }

  /** `s.Length` in .NET: one code unit per character up to U+FFFF, two
      above it. */
  function Length(s: string): nat {
    if s == [] then 0 else (if s[0] as int < 0x1_0000 then 1 else 2) + Length(s[1..])
  }

  /** `Length` counts exactly the code units `Units` produces. */
  lemma {:induction false} LengthCountsUnits(s: string)
    ensures Length(s) == |Units(s)|
    decreases |s|
  {
    if s != [] {
      LengthCountsUnits(s[1..]);
    }
  }

  /** The code units of a concatenation are the concatenation of the code
      units, so lengths add up. */
  lemma {:induction false} UnitsAppend(a: string, b: string)
    ensures Units(a + b) == Units(a) + Units(b)
    ensures Length(a + b) == Length(a) + Length(b)
    decreases |a|
  {
    if a == [] {
      assert a + b == b;
    } else {
      assert (a + b)[1..] == a[1..] + b;
      UnitsAppend(a[1..], b);
    }
  }

  /** A string holding a scalar value above U+FFFF is longer in .NET than its
      number of characters. */
  lemma {:induction false} AstralIsLonger(s: string, k: nat)
    requires k < |s| && s[k] as int >= 0x1_0000
    ensures Length(s) > |s|
    decreases |s|
  {
    if k > 0 {
      AstralIsLonger(s[1..], k - 1);
    } else {
      LengthAtLeastSize(s[1..]);
    }
  }

  /** A .NET string is never shorter than its number of characters. */
  lemma {:induction false} LengthAtLeastSize(s: string)
    ensures Length(s) >= |s|
    decreases |s|
  {
    if s != [] {
      LengthAtLeastSize(s[1..]);
    }
  }
}
