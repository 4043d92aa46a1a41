// Model of db/internal/dbsp/expr/value.go: 64-bit integers and strings, and the
// decimal conversions between them.
module Values {
  import opened Outcomes

  const TWO63: int := 0x8000_0000_0000_0000
  const TWO64: int := 0x1_0000_0000_0000_0000

  type int64 = x: int | -0x8000_0000_0000_0000 <= x < 0x8000_0000_0000_0000

  // The int64 congruent to x modulo 2^64: how the source's arithmetic wraps.
  function Wrap(x: int): (r: int64)
    ensures (x - r) % TWO64 == 0
    ensures -TWO63 <= x < TWO63 ==> r == x
  {
    (x + TWO63) % TWO64 - TWO63
  }

  datatype Value = IntValue(i: int64) | StrValue(s: string)

  // ---- decimal notation ----

  predicate IsDigit(c: char) { '0' <= c <= '9' }

  function DigitChar(d: nat): (c: char)
    requires d < 10
    ensures IsDigit(c) && DigitOf(c) == d
  {
    '0' + d as char
  }

  function DigitOf(c: char): (d: nat)
    requires IsDigit(c)
    ensures d < 10
  {
    (c - '0') as int
  }

  predicate AllDigits(s: string) { forall k :: 0 <= k < |s| ==> IsDigit(s[k]) }

  // The number a digit string denotes; leading zeros do not matter.
  function Magnitude(s: string): nat
    requires AllDigits(s)
  {
    if s == [] then 0 else 10 * Magnitude(s[..|s|-1]) + DigitOf(s[|s|-1])
  }

  function Digits(n: nat): (s: string)
    ensures s != [] && AllDigits(s)
  {
    if n < 10 then [DigitChar(n)] else Digits(n / 10) + [DigitChar(n % 10)]
  }

  function Abs(x: int): nat { if x < 0 then 0 - x else x }

  // strconv.FormatInt(v, 10)
  function FormatInt(v: int64): string
  {
    if v < 0 then "-" + Digits(Abs(v)) else Digits(Abs(v))
  }

  // strconv.ParseInt(s, 10, 64): an optional sign, then one or more digits, in range.
  function ParseInt(s: string): Option<int64>
  {
    if s != [] && s[0] == '-' then ParseSigned(s[1..], true)
    else if s != [] && s[0] == '+' then ParseSigned(s[1..], false)
    else ParseSigned(s, false)
  }

  function ParseSigned(digits: string, negative: bool): Option<int64>
  {
    if digits == [] || !AllDigits(digits) then None
    else
      var n: int := if negative then 0 - Magnitude(digits) else Magnitude(digits);
      if -TWO63 <= n < TWO63 then Some(n) else None
  }

  // Value.Int64
  function AsInt(v: Value): Result<int64>
  {
    match v
    case IntValue(i) => Ok(i)
    case StrValue(s) => match ParseInt(s) case Some(n) => Ok(n) case None => Err(NotAnInteger)
  }

  // Value.String
  function AsString(v: Value): string
  {
    match v
    case IntValue(i) => FormatInt(i)
    case StrValue(s) => s
  }

  function Zeros(n: nat): (s: string)
    ensures |s| == n && AllDigits(s)
  {
    seq(n, _ => '0')
  }

  // ---- the conversions are inverse ----

  lemma {:induction false} MagnitudeOfDigits(n: nat)
    ensures Magnitude(Digits(n)) == n
  {
    if n >= 10 {
      MagnitudeOfDigits(n / 10);
      assert Digits(n)[..|Digits(n)|-1] == Digits(n / 10);
    }
  }

  lemma {:induction false} LeadingZeros(k: nat, s: string)
    requires AllDigits(s)
    ensures AllDigits(Zeros(k) + s) && Magnitude(Zeros(k) + s) == Magnitude(s)
    decreases k + |s|
  {
    var t := Zeros(k) + s;
    if s != [] {
      LeadingZeros(k, s[..|s|-1]);
      assert t[..|t|-1] == Zeros(k) + s[..|s|-1];
    } else if k > 0 {
      LeadingZeros(k - 1, s);
      assert t[..|t|-1] == Zeros(k - 1) + s;
    }
  }

  // Reading back a padded number, with the sign in front of the padding.
  lemma ParsePadded(v: int64, k: nat)
    ensures ParseInt((if v < 0 then "-" else "") + (Zeros(k) + Digits(Abs(v)))) == Some(v)
  {
    var padded := Zeros(k) + Digits(Abs(v));
    assert AllDigits(padded) && ParseSigned(padded, v < 0) == Some(v) by {
      MagnitudeOfDigits(Abs(v));
      LeadingZeros(k, Digits(Abs(v)));
    }
    AfterSign(padded);
    assert "" + padded == padded;
  }

  lemma AfterSign(digits: string)
    requires digits != [] && AllDigits(digits)
    ensures ParseInt("-" + digits) == ParseSigned(digits, true)
    ensures ParseInt(digits) == ParseSigned(digits, false)
  {
    hide ParseSigned;
    assert ("-" + digits)[1..] == digits;
    assert IsDigit(digits[0]);
  }

  lemma ParseFormat(v: int64)
    ensures ParseInt(FormatInt(v)) == Some(v)
  {
    ParsePadded(v, 0);
    assert Zeros(0) + Digits(Abs(v)) == Digits(Abs(v));
    assert FormatInt(v) == (if v < 0 then "-" else "") + (Zeros(0) + Digits(Abs(v)));
  }

  lemma FormatInjective(v: int64, w: int64)
    requires FormatInt(v) == FormatInt(w)
    ensures v == w
  {
    ParseFormat(v);
    ParseFormat(w);
  }
}
