/** `int.TryParse(string, out int)` with the default NumberStyles.Integer:
    optional leading and trailing white space, an optional leading sign, one
    or more decimal digits, any number of trailing U+0000 characters after the
    trailing white space, and a value that fits a signed 32-bit int. It is
    what src/Responders/DiscordHeaderVerifier.cs:37 applies to Content-Length. */
module IntParse {
  import opened Wrappers

  const INT_MIN: int := -0x8000_0000
  const INT_MAX: int := 0x7FFF_FFFF

  /** The white space NumberStyles.AllowLeadingWhite / AllowTrailingWhite skip:
      U+0009 to U+000D and U+0020. */
  predicate IsWhite(c: char) {
    c == ' ' || '\t' <= c <= '\r'
  }

  predicate IsDigit(c: char) {
    '0' <= c <= '9'
  }

  predicate AllDigits(s: string) {
    forall i :: 0 <= i < |s| ==> IsDigit(s[i])
  }

  predicate AllWhite(s: string) {
    forall i :: 0 <= i < |s| ==> IsWhite(s[i])
  }

  /** Trailing U+0000 characters, which .NET's number parser accepts after a
      number and its trailing white space. */
  predicate AllNul(s: string) {
    forall i :: 0 <= i < |s| ==> s[i] == '\0'
  }

  /** The string without its leading white space. */
  function TrimStart(s: string): (t: string)
    ensures |t| <= |s|
    decreases |s|
  {
    if s != [] && IsWhite(s[0]) then TrimStart(s[1..]) else s
  }

  /** The string without its trailing white space. */
  function TrimEnd(s: string): (t: string)
    ensures |t| <= |s|
    decreases |s|
  {
    if s != [] && IsWhite(s[|s| - 1]) then TrimEnd(s[..|s| - 1]) else s
  }

  /** The string without its trailing U+0000 characters. */
  function TrimNul(s: string): (t: string)
    ensures |t| <= |s|
    decreases |s|
  {
    if s != [] && s[|s| - 1] == '\0' then TrimNul(s[..|s| - 1]) else s
  }

  /** TrimStart removes a white prefix and stops at a character that is not
      white. */
  lemma {:induction false} TrimStartRemovesWhite(s: string)
    ensures var t := TrimStart(s);
      && t == s[|s| - |t|..] && AllWhite(s[..|s| - |t|])
      && (t == [] || !IsWhite(t[0]))
    decreases |s|
  {
    if s != [] && IsWhite(s[0]) {
      TrimStartRemovesWhite(s[1..]);
      var t := TrimStart(s);
      assert s[..|s| - |t|] == [s[0]] + s[1..][..|s| - 1 - |t|];
    }
  }

  /** TrimEnd removes a white suffix and stops at a character that is not
      white. */
  lemma {:induction false} TrimEndRemovesWhite(s: string)
    ensures var t := TrimEnd(s);
      && t == s[..|t|] && AllWhite(s[|t|..])
      && (t == [] || !IsWhite(t[|t| - 1]))
    decreases |s|
  {
    if s != [] && IsWhite(s[|s| - 1]) {
      TrimEndRemovesWhite(s[..|s| - 1]);
      var t := TrimEnd(s);
      assert s[|t|..] == s[..|s| - 1][|t|..] + [s[|s| - 1]];
    }
  }

  /** TrimNul removes a suffix of U+0000s and stops at another character. */
  lemma {:induction false} TrimNulRemovesNuls(s: string)
    ensures var t := TrimNul(s);
      && t == s[..|t|] && AllNul(s[|t|..])
      && (t == [] || t[|t| - 1] != '\0')
    decreases |s|
  {
    if s != [] && s[|s| - 1] == '\0' {
      TrimNulRemovesNuls(s[..|s| - 1]);
      var t := TrimNul(s);
      assert s[|t|..] == s[..|s| - 1][|t|..] + [s[|s| - 1]];
    }
  }

  /** The value of a string of decimal digits, most significant first. */
  function DigitsValue(s: string): nat
    requires AllDigits(s)
    decreases |s|
  {
    if s == [] then 0
    else 10 * DigitsValue(s[..|s| - 1]) + (s[|s| - 1] as int - '0' as int)
  }

  /** The digits and sign left after trimming, or None when the shape is wrong. */
  function SignedDigits(t: string): Option<(bool, string)> {
    var negative := t != [] && t[0] == '-';
    var digits := if t != [] && (t[0] == '-' || t[0] == '+') then t[1..] else t;
    if digits != [] && AllDigits(digits) then Some((negative, digits)) else None
  }

  /** `int.TryParse`: the parsed value, or None where TryParse returns false.
      The accepted shape is white space, an optional sign, decimal digits,
      white space, then any number of U+0000. */
  function TryParseInt(s: string): (r: Option<int>)
    ensures r.Some? ==> INT_MIN <= r.value <= INT_MAX
  {
    var t := TrimEnd(TrimNul(TrimStart(s)));
    match SignedDigits(t)
    case None => None
    case Some((negative, digits)) =>
      var magnitude: int := DigitsValue(digits);
      var v: int := if negative then -magnitude else magnitude;
      if INT_MIN <= v <= INT_MAX then Some(v) else None
  }

  /** `s` spells the int `v` in the shape int.TryParse accepts: leading white
      space `w1`, a sign, digits, trailing white space `w2`, trailing U+0000s. */
  predicate Spells(s: string, v: int, w1: string, sign: string, digits: string, w2: string, nuls: string) {
    && s == w1 + (sign + digits + w2 + nuls)
    && AllWhite(w1) && AllWhite(w2) && AllNul(nuls)
    && (sign == "" || sign == "+" || sign == "-")
    && digits != [] && AllDigits(digits)
    && v == (if sign == "-" then -(DigitsValue(digits) as int) else DigitsValue(digits))
    && INT_MIN <= v <= INT_MAX
  }

  /** Every spelling of an int in the accepted shape parses to that int. */
  lemma TryParseIntReadsSpelling(s: string, v: int, w1: string, sign: string, digits: string, w2: string, nuls: string)
    requires Spells(s, v, w1, sign, digits, w2, nuls)
    ensures TryParseInt(s) == Some(v)
  {
    TrimsOfSpelling(w1, sign, digits, w2, nuls);
    SignedDigitsOfSign(sign, digits);
  }

  /** Whatever int.TryParse accepts is a spelling of the value it returns. */
  lemma TryParseIntIsSpelling(s: string)
    requires TryParseInt(s).Some?
    ensures exists w1, sign, digits, w2, nuls :: Spells(s, TryParseInt(s).value, w1, sign, digits, w2, nuls)
  {
    var t := TrimEnd(TrimNul(TrimStart(s)));
    var w1, w2, nuls := TrimsSplit(s);
    var sign := if t[0] == '-' || t[0] == '+' then t[..1] else [];
    var digits := t[|sign|..];
    assert t == sign + digits;
    assert Spells(s, TryParseInt(s).value, w1, sign, digits, w2, nuls);
  }

  /** The three trims peel exactly the white space and U+0000s off a spelling. */
  lemma TrimsOfSpelling(w1: string, sign: string, digits: string, w2: string, nuls: string)
    requires AllWhite(w1) && AllWhite(w2) && AllNul(nuls)
    requires sign == "" || sign == "+" || sign == "-"
    requires digits != [] && AllDigits(digits)
    ensures TrimEnd(TrimNul(TrimStart(w1 + (sign + digits + w2 + nuls)))) == sign + digits
  {
    var number := sign + digits;
    NumberEnds(sign, digits);
    var body := number + w2;
    LastOfWhiteTail(number, w2);
    var rest := body + nuls;
    assert rest[0] == number[0];
    TrimStartOfWhite(w1, rest);
    TrimNulOfNuls(body, nuls);
    TrimEndOfWhite(number, w2);
  }

  /** A signed number starts and ends with a character no trim removes. */
  lemma NumberEnds(sign: string, digits: string)
    requires sign == "" || sign == "+" || sign == "-"
    requires digits != [] && AllDigits(digits)
    ensures var number := sign + digits;
      number != [] && !IsWhite(number[0]) && !IsWhite(number[|number| - 1]) && number[|number| - 1] != '\0'
  {
    var number := sign + digits;
    assert number[|number| - 1] == digits[|digits| - 1];
    if sign != "" {
      assert number[0] == sign[0];
    }
  }

  lemma LastOfWhiteTail(number: string, w: string)
    requires number != [] && number[|number| - 1] != '\0' && AllWhite(w)
    ensures (number + w)[|number + w| - 1] != '\0'
  {
    if w != [] {
      assert (number + w)[|number + w| - 1] == w[|w| - 1];
    }
  }

  /** What the trims removed, as white space before, white space and U+0000s
      after. */
  lemma TrimsSplit(s: string) returns (w1: string, w2: string, nuls: string)
    ensures AllWhite(w1) && AllWhite(w2) && AllNul(nuls)
    ensures s == w1 + (TrimEnd(TrimNul(TrimStart(s))) + w2 + nuls)
  {
    var t0 := TrimStart(s);
    TrimStartRemovesWhite(s);
    w1 := s[..|s| - |t0|];
    SplitBefore(s, t0);
    var t1 := TrimNul(t0);
    TrimNulRemovesNuls(t0);
    nuls := t0[|t1|..];
    SplitAfter(t0, t1);
    var t2 := TrimEnd(t1);
    TrimEndRemovesWhite(t1);
    w2 := t1[|t2|..];
    SplitAfter(t1, t2);
  }

  lemma SplitBefore(s: string, t: string)
    requires |t| <= |s| && t == s[|s| - |t|..]
    ensures s == s[..|s| - |t|] + t
  {
  }

  lemma SplitAfter(s: string, t: string)
    requires |t| <= |s| && t == s[..|t|]
    ensures s == t + s[|t|..]
  {
  }

  lemma SignedDigitsOfSign(sign: string, digits: string)
    requires sign == "" || sign == "+" || sign == "-"
    requires digits != [] && AllDigits(digits)
    ensures SignedDigits(sign + digits) == Some((sign == "-", digits))
  {
    var t := sign + digits;
    if sign == "" {
      assert t == digits;
    } else {
      assert t[0] == sign[0];
      assert t[1..] == digits;
    }
  }

  lemma {:induction false} TrimStartOfWhite(w: string, rest: string)
    requires AllWhite(w) && rest != [] && !IsWhite(rest[0])
    ensures TrimStart(w + rest) == rest
    decreases |w|
  {
    if w == [] {
      assert w + rest == rest;
    } else {
      assert (w + rest)[1..] == w[1..] + rest;
      TrimStartOfWhite(w[1..], rest);
    }
  }

  lemma {:induction false} TrimEndOfWhite(body: string, w: string)
    requires AllWhite(w) && body != [] && !IsWhite(body[|body| - 1])
    ensures TrimEnd(body + w) == body
    decreases |w|
  {
    if w == [] {
      assert body + w == body;
    } else {
      assert (body + w)[..|body + w| - 1] == body + w[..|w| - 1];
      TrimEndOfWhite(body, w[..|w| - 1]);
    }
  }

  lemma {:induction false} TrimNulOfNuls(body: string, nuls: string)
    requires AllNul(nuls) && body != [] && body[|body| - 1] != '\0'
    ensures TrimNul(body + nuls) == body
    decreases |nuls|
  {
    if nuls == [] {
      assert body + nuls == body;
    } else {
      assert (body + nuls)[..|body + nuls| - 1] == body + nuls[..|nuls| - 1];
      TrimNulOfNuls(body, nuls[..|nuls| - 1]);
    }
  }

  /** The decimal spelling of a natural number, without leading zeros. */
  function Decimal(n: nat): (s: string)
    ensures s != [] && AllDigits(s)
    ensures n > 0 ==> s[0] != '0'
    decreases n
  {
    if n < 10 then [('0' as int + n) as char]
    else Decimal(n / 10) + [('0' as int + n % 10) as char]
  }

  lemma {:induction false} DigitsValueOfDecimal(n: nat)
    ensures DigitsValue(Decimal(n)) == n
    decreases n
  {
    if n >= 10 {
      var s := Decimal(n);
      assert s[..|s| - 1] == Decimal(n / 10);
      DigitsValueOfDecimal(n / 10);
    }
  }

  /** Any int, written in decimal with a '-' when negative and surrounded by
      white space, parses back to that int. */
  lemma TryParseIntReadsInt(v: int, w1: string, w2: string)
    requires INT_MIN <= v <= INT_MAX && AllWhite(w1) && AllWhite(w2)
    ensures TryParseInt(w1 + (if v < 0 then "-" else "") + Decimal(if v < 0 then -v else v) + w2) == Some(v)
  {
    var sign := if v < 0 then "-" else "";
    var digits := Decimal(if v < 0 then -v else v);
    DigitsValueOfDecimal(if v < 0 then -v else v);
    var s := w1 + sign + digits + w2;
    assert s == w1 + (sign + digits + w2 + []);
    assert Spells(s, v, w1, sign, digits, w2, []);
    TryParseIntReadsSpelling(s, v, w1, sign, digits, w2, []);
  }

  /** A Content-Length written as a plain decimal number parses back to that
      number whenever it fits an int. */
  lemma TryParseIntReadsDecimal(n: nat)
    requires n <= INT_MAX
    ensures TryParseInt(Decimal(n)) == Some(n)
  {
    var d := Decimal(n);
    DigitsValueOfDecimal(n);
    assert d == [] + ([] + d + [] + []);
    TryParseIntReadsSpelling(d, n, [], [], d, [], []);
  }
}
