// The decimal notation of db/internal/dbsp/expr/value.go and the padding of fill in
// functions.go: which texts they are, exactly.
module Padding {
  import opened Outcomes
  import opened Values
  import opened Builtins

  // Digit strings of one length that denote one number are equal.
  lemma {:induction false} SameLengthSameDigits(s: string, t: string)
    requires AllDigits(s) && AllDigits(t) && |s| == |t| && Magnitude(s) == Magnitude(t)
    ensures s == t
  {
    hide DigitOf;
    if s != [] {
      var n := |s| - 1;
      LastDigits(Magnitude(s[..n]), DigitOf(s[n]), Magnitude(t[..n]), DigitOf(t[n]));
      SameDigit(s[n], t[n]);
      SameLengthSameDigits(s[..n], t[..n]);
      assert s == s[..n] + [s[n]] && t == t[..n] + [t[n]];
    }
  }

  lemma SameDigit(c: char, d: char)
    requires IsDigit(c) && IsDigit(d) && DigitOf(c) == DigitOf(d)
    ensures c == d
  {
  }

  lemma LastDigits(m: nat, d: nat, n: nat, e: nat)
    requires 10 * m + d == 10 * n + e && d < 10 && e < 10
    ensures m == n && d == e
  {
  }

  // ---- decimal notation ----

  lemma {:induction false} NoLeadingZero(n: nat)
    ensures n > 0 ==> Digits(n)[0] != '0'
    ensures n == 0 ==> Digits(n) == "0"
  {
    if n >= 10 { NoLeadingZero(n / 10); }
  }

  // A number that starts with another digit than 0 has a length of its own.
  lemma {:induction false} LeadingDigit(s: string)
    requires AllDigits(s) && s != [] && s[0] != '0'
    ensures Power(|s| - 1) <= Magnitude(s) < Power(|s|)
  {
    if |s| > 1 {
      LeadingDigit(s[..|s| - 1]);
    } else {
      assert s[..0] == [] && Magnitude(s) == DigitOf(s[0]);
    }
  }

  function Power(n: nat): nat { if n == 0 then 1 else 10 * Power(n - 1) }

  lemma {:induction false} PowersGrow(m: nat, n: nat)
    requires m <= n
    ensures Power(m) <= Power(n)
  {
    if m < n { PowersGrow(m, n - 1); }
  }

  lemma NotLonger(s: string, t: string)
    requires AllDigits(s) && s != [] && s[0] != '0' && AllDigits(t) && t != [] && t[0] != '0'
    requires Magnitude(s) == Magnitude(t)
    ensures |s| <= |t|
  {
    hide Magnitude;
    LeadingDigit(s);
    LeadingDigit(t);
    if |t| < |s| { PowersGrow(|t|, |s| - 1); }
  }

  lemma Positive(s: string)
    requires AllDigits(s) && s != [] && s[0] != '0'
    ensures Magnitude(s) > 0
  {
    hide Magnitude;
    LeadingDigit(s);
    PowersGrow(0, |s| - 1);
  }

  // The digits of n: the only digit string for n that has no zero in front, unless it
  // is 0 itself.
  lemma DigitsExactly(n: nat, s: string)
    ensures s == Digits(n) <==> s != [] && AllDigits(s) && Magnitude(s) == n && (s[0] != '0' || s == "0")
  {
    hide Digits;
    MagnitudeOfDigits(n);
    NoLeadingZero(n);
    if s != [] && AllDigits(s) && Magnitude(s) == n && (s[0] != '0' || s == "0") {
      assert Magnitude("0") == 0 by { assert "0"[..0] == []; }
      if s[0] != '0' {
        Positive(s);
        NotLonger(s, Digits(n));
        NotLonger(Digits(n), s);
        SameLengthSameDigits(s, Digits(n));
      }
    }
  }

  // A sign where the number is negative, then digits.
  predicate Signed(s: string, v: int64)
  {
    if v < 0 then s != [] && s[0] == '-' && AllDigits(s[1..]) else AllDigits(s)
  }

  function Unsigned(s: string, v: int64): string { if v < 0 && s != [] then s[1..] else s }

  // The notation of v: what reads back as v, starts with a minus exactly when v is
  // negative, and has no zero in front.
  lemma FormatExactly(v: int64, s: string)
    ensures s == FormatInt(v) <==>
            Signed(s, v) && ParseInt(s) == Some(v) && (Unsigned(s, v)[0] != '0' || Unsigned(s, v) == "0")
  {
    hide Digits, Magnitude;
    ParseFormat(v);
    var d := Unsigned(s, v);
    if v < 0 && s != [] && s[0] == '-' { assert s == "-" + d; }
    DigitsExactly(Abs(v), d);
    if Signed(s, v) && ParseInt(s) == Some(v) { ReadsDigits(v, s); }
    if s == FormatInt(v) { assert d == Digits(Abs(v)); }
  }

  lemma ReadsDigits(v: int64, s: string)
    requires Signed(s, v) && ParseInt(s) == Some(v)
    ensures var d := Unsigned(s, v); d != [] && AllDigits(d) && Magnitude(d) == Abs(v)
  {
    hide Magnitude;
    if v >= 0 && s != [] { assert IsDigit(s[0]); }
  }

  // The texts that read as integers: a sign or none, and digits, in range.
  predicate ReadsAs(s: string, v: int64, sign: string, digits: string)
  {
    && sign in {"", "+", "-"} && s == sign + digits && digits != "" && AllDigits(digits)
    && v == if sign == "-" then 0 - Magnitude(digits) else Magnitude(digits)
  }

  lemma ParseExactly(s: string, v: int64)
    ensures ParseInt(s) == Some(v) <==> exists sign, digits :: ReadsAs(s, v, sign, digits)
  {
    hide Magnitude;
    if ParseInt(s) == Some(v) {
      if s[0] == '-' || s[0] == '+' {
        assert s == [s[0]] + s[1..] && ReadsAs(s, v, [s[0]], s[1..]);
      } else {
        assert s == "" + s && ReadsAs(s, v, "", s);
      }
    }
    if sign, digits :| ReadsAs(s, v, sign, digits) {
      if sign == "" { assert s == digits && IsDigit(s[0]); } else { assert s[1..] == digits; }
    }
  }

  // ---- fill ----

  function Max(a: nat, b: nat): nat { if a < b then b else a }

  // For widths from 0 to 10^6: the text reads back as v, has its sign in front and
  // nothing but digits behind it, and is as wide as asked for, or as v needs.
  lemma PaddedExactly(v: int64, width: int64, s: string)
    requires 0 <= width <= MAX_PAD_WIDTH
    ensures s == Fill(v, width) <==>
            Signed(s, v) && ParseInt(s) == Some(v) && |s| == Max(width, |FormatInt(v)|)
  {
    hide Digits, Magnitude;
    FillShape(v, width);
    FillReadsBack(v, width);
    ReadsDigits(v, Fill(v, width));
    if Signed(s, v) && ParseInt(s) == Some(v) && |s| == Max(width, |FormatInt(v)|) {
      ReadsDigits(v, s);
      SameLengthSameDigits(Unsigned(s, v), Unsigned(Fill(v, width), v));
      if v < 0 { assert s == "-" + s[1..] && Fill(v, width) == "-" + Fill(v, width)[1..]; }
    }
  }

  lemma FillShape(v: int64, width: int64)
    requires 0 <= width <= MAX_PAD_WIDTH
    ensures Signed(Fill(v, width), v) && |Fill(v, width)| == Max(width, |FormatInt(v)|)
  {
    hide Digits;
    var s := Fill(v, width);
    if v < 0 {
      var used := 1 + |Digits(Abs(v))|;
      var padded := Zeros(if width > used then width - used else 0) + Digits(Abs(v));
      assert s == "-" + padded && s[1..] == padded;
    } else {
      var used := |Digits(Abs(v))|;
      assert s == Zeros(if width > used then width - used else 0) + Digits(Abs(v));
    }
  }

  // Negative widths pad with blanks on the right, and excessive ones leave a mark in
  // front of the number.
  lemma OtherWidths(v: int64, width: int64, s: string)
    requires width < 0 || width > MAX_PAD_WIDTH
    ensures s == Fill(v, width) <==>
            if -MAX_PAD_WIDTH <= width <= MAX_PAD_WIDTH then
              && |s| == Max(Abs(width), |FormatInt(v)|) && FormatInt(v) <= s
              && forall k :: |FormatInt(v)| <= k < |s| ==> s[k] == ' '
            else s == "%!(BADWIDTH)" + FormatInt(v)
  {
    hide Digits;
    var sign := if v < 0 then "-" else "";
    assert sign + Digits(Abs(v)) == FormatInt(v);
  }
}
