// Model of db/internal/dbsp/expr/functions.go: the fixed table of built-in
// functions, and of the operators in eval.go.
module Builtins {
  import opened Outcomes
  import opened Values
  import opened Syntax

  // ---- integer division as the source language defines it: towards zero ----

  function Quotient(a: int, b: int): int
    requires b != 0
  {
    if (a < 0) == (b < 0) then Abs(a) / Abs(b) else 0 - Abs(a) / Abs(b)
  }

  function Remainder(a: int, b: int): int
    requires b != 0
  {
    if a < 0 then 0 - Abs(a) % Abs(b) else Abs(a) % Abs(b)
  }

  // The language's defining identity; the remainder takes the dividend's sign.
  lemma TruncatedDivision(a: int, b: int)
    requires b != 0
    ensures a == b * Quotient(a, b) + Remainder(a, b)
    ensures Abs(Remainder(a, b)) < Abs(b)
    ensures Remainder(a, b) != 0 ==> (Remainder(a, b) < 0 <==> a < 0)
  {
    var m: int, n: int := Abs(a), Abs(b);
    var q: int, r: int := m / n, m % n;
    assert 0 <= r < n && m == n * q + r;
    assert b * Quotient(a, b) == if a < 0 then 0 - n * q else n * q by { SignedProduct(n, q); }
  }

  lemma SignedProduct(x: int, y: int)
    ensures (0 - x) * y == 0 - x * y && x * (0 - y) == 0 - x * y && (0 - x) * (0 - y) == x * y
  {
  }

  // evalBinaryOp
  function Operate(op: TokenKind, left: Value, right: Value): Result<Value>
  {
    match AsInt(left)
    case Err(e) => Err(e)
    case Ok(a) =>
      match AsInt(right)
      case Err(e) => Err(e)
      case Ok(b) =>
        match op
        case Plus => Ok(IntValue(Wrap(a + b)))
        case Minus => Ok(IntValue(Wrap(a - b)))
        case Star => Ok(IntValue(Wrap(a * b)))
        case Slash => if b == 0 then Err(DivisionByZero) else Ok(IntValue(Wrap(Quotient(a, b))))
        case Percent => if b == 0 then Err(DivisionByZero) else Ok(IntValue(Wrap(Remainder(a, b))))
        case _ => Err(UnknownOperator)
  }

  // ---- the functions ----

  const MAX_PAD_WIDTH := 1_000_000

  // fmt.Sprintf("%0*d", width, v): the width counts the sign; a negative width pads
  // with spaces on the right; an excessive one is reported in the text.
  function Fill(v: int64, width: int64): string
  {
    var sign := if v < 0 then "-" else "";
    var digits := Digits(Abs(v));
    var used := |sign| + |digits|;
    if width > MAX_PAD_WIDTH || width < -MAX_PAD_WIDTH then "%!(BADWIDTH)" + (sign + digits)
    else if width < 0 then sign + digits + seq(if Abs(width) > used then Abs(width) - used else 0, _ => ' ')
    else sign + (Zeros(if width > used then width - used else 0) + digits)
  }

  newtype byte = x: int | 0 <= x < 0x100

  // The bytes of a string in UTF-8.
  function Utf8(s: string): seq<byte>
  {
    if s == [] then [] else EncodeChar(s[0] as int) + Utf8(s[1..])
  }

  function EncodeChar(c: int): seq<byte>
    requires 0 <= c < 0x11_0000
  {
    if c < 0x80 then [c as byte]
    else if c < 0x800 then [(0xC0 + c / 0x40) as byte, (0x80 + c % 0x40) as byte]
    else if c < 0x1_0000 then
      [(0xE0 + c / 0x1000) as byte, (0x80 + c / 0x40 % 0x40) as byte, (0x80 + c % 0x40) as byte]
    else
      [(0xF0 + c / 0x4_0000) as byte, (0x80 + c / 0x1000 % 0x40) as byte,
       (0x80 + c / 0x40 % 0x40) as byte, (0x80 + c % 0x40) as byte]
  }

  // Exclusive or, bit by bit.
  function Xor(a: nat, b: nat): nat
  {
    if a == 0 && b == 0 then 0 else 2 * Xor(a / 2, b / 2) + (a + b) % 2
  }

  const FNV_OFFSET := 14695981039346656037
  const FNV_PRIME := 1099511628211

  // 64-bit FNV-1a.
  function Fnv1a(bytes: seq<byte>): (h: int)
    ensures 0 <= h < TWO64
  {
    if bytes == [] then FNV_OFFSET else Mixed(Fnv1a(bytes[..|bytes| - 1]), bytes[|bytes| - 1])
  }

  // One byte goes into the lowest eight bits.
  function Mixed(h: nat, b: byte): (g: nat)
    ensures g < TWO64
  {
    (h - h % 0x100 + Xor(h % 0x100, b as int)) * FNV_PRIME % TWO64
  }

  function Hash(v: Value): (h: int64)
    ensures 0 <= h
  {
    Fnv1a(Utf8(AsString(v))) % TWO63
  }

  function Mod(a: int64, b: int64): int64
    requires b != 0
  {
    var r := Remainder(a, b);
    if r < 0 then Wrap(r + b) else Wrap(r)
  }

  function Lower(s: string): string
  {
    seq(|s|, i requires 0 <= i < |s| => if 'A' <= s[i] <= 'Z' then s[i] + ('a' - 'A') else s[i])
  }

  function Upper(s: string): string
  {
    seq(|s|, i requires 0 <= i < |s| => if 'a' <= s[i] <= 'z' then s[i] - ('a' - 'A') else s[i])
  }

  function Concat(args: seq<Value>): string
  {
    if args == [] then "" else AsString(args[0]) + Concat(args[1..])
  }

  predicate KnownFunction(name: string)
  {
    name in {"fill", "str", "hash", "mod", "div", "lower", "upper", "concat"}
  }

  function BothInts(args: seq<Value>): Result<(int64, int64)>
  {
    if |args| != 2 then Err(WrongArity)
    else
      match AsInt(args[0])
      case Err(e) => Err(e)
      case Ok(a) => match AsInt(args[1]) case Err(e) => Err(e) case Ok(b) => Ok((a, b))
  }

  // Looking a function up by name and applying it.
  function Apply(name: string, args: seq<Value>): Result<Value>
  {
    if name == "fill" then
      match BothInts(args) case Err(e) => Err(e) case Ok(p) => Ok(StrValue(Fill(p.0, p.1)))
    else if name == "mod" then
      match BothInts(args)
      case Err(e) => Err(e)
      case Ok(p) => if p.1 == 0 then Err(DivisionByZero) else Ok(IntValue(Mod(p.0, p.1)))
    else if name == "div" then
      match BothInts(args)
      case Err(e) => Err(e)
      case Ok(p) => if p.1 == 0 then Err(DivisionByZero) else Ok(IntValue(Wrap(Quotient(p.0, p.1))))
    else if name == "concat" then
      if |args| < 2 then Err(WrongArity) else Ok(StrValue(Concat(args)))
    else if !KnownFunction(name) then Err(UnknownFunction)
    else if |args| != 1 then Err(WrongArity)
    else if name == "str" then Ok(StrValue(AsString(args[0])))
    else if name == "hash" then Ok(IntValue(Hash(args[0])))
    else if name == "lower" then Ok(StrValue(Lower(AsString(args[0]))))
    else Ok(StrValue(Upper(AsString(args[0]))))
  }

  // ---- what callers rely on ----

  // fill is read back exactly for every width it honours, so padded names differ
  // whenever the numbers do.
  lemma FillReadsBack(v: int64, width: int64)
    requires 0 <= width <= MAX_PAD_WIDTH
    ensures AsInt(StrValue(Fill(v, width))) == Ok(v)
  {
    var used := |if v < 0 then "-" else ""| + |Digits(Abs(v))|;
    ParsePadded(v, if width > used then width - used else 0);
  }

  lemma FillInjective(v: int64, w: int64, width: int64)
    requires 0 <= width <= MAX_PAD_WIDTH
    requires Fill(v, width) == Fill(w, width)
    ensures v == w
  {
    FillReadsBack(v, width);
    FillReadsBack(w, width);
  }

  // The widths at which a number reads back: those padded with zeros in front, and the
  // negative ones, which pad with blanks behind, when no padding is needed.
  predicate ReadableWidth(v: int64, width: int64)
  {
    0 <= width <= MAX_PAD_WIDTH || (-MAX_PAD_WIDTH <= width < 0 && Abs(width) <= |FormatInt(v)|)
  }

  lemma FillReadsBackExactly(v: int64, width: int64)
    ensures AsInt(StrValue(Fill(v, width))) == Ok(v) <==> ReadableWidth(v, width)
  {
    if 0 <= width <= MAX_PAD_WIDTH {
      FillReadsBack(v, width);
    } else if ReadableWidth(v, width) {
      assert Fill(v, width) == FormatInt(v);
      ParseFormat(v);
    } else {
      var text := Fill(v, width);
      var odd := if width > MAX_PAD_WIDTH || width < -MAX_PAD_WIDTH then 1 else |text| - 1;
      assert odd > 0 && !IsDigit(text[odd]);
      assert text[1..][odd - 1] == text[odd];
      assert !AllDigits(text) && !AllDigits(text[1..]);
    }
  }

  // For example, a blank behind the digits makes the text no number.
  lemma RightPaddingDoesNotReadBack()
    ensures Fill(5, -3) == "5  " && AsInt(StrValue(Fill(5, -3))) == Err(NotAnInteger)
  {
    assert Digits(5) == ['5'];
    assert Fill(5, -3) == "5  ";
    assert !AllDigits("5  ") by { assert "5  "[1] == ' '; }
  }

  // mod(a, n) is the Euclidean remainder for positive n, and so stays in [0, n).
  lemma ModIsEuclidean(a: int64, n: int64)
    requires n > 0
    ensures Mod(a, n) == a % n
  {
    var m: int, q: int := Abs(a), Abs(a) / n;
    if a < 0 {
      assert m == n * q + m % n;
      if m % n == 0 {
        assert a == n * (0 - q) + 0 by { assert n * (0 - q) == 0 - n * q; }
        RemainderIsUnique(a, n, 0 - q, 0);
      } else {
        assert a == n * (0 - q - 1) + (n - m % n) by { assert n * (0 - q - 1) == 0 - n * q - n; }
        RemainderIsUnique(a, n, 0 - q - 1, n - m % n);
      }
    }
  }

  lemma RemainderIsUnique(a: int, n: int, q: int, r: int)
    requires 0 <= r < n && a == n * q + r
    ensures a % n == r
  {
    var d := a / n - q;
    assert n * d == n * (a / n) - n * q == r - a % n;
    assert d >= 1 ==> n * d >= n;
    assert d <= -1 ==> n * d <= 0 - n;
  }
}
