// The hash of db/internal/dbsp/expr/functions.go: 64-bit FNV-1a over UTF-8.
module Hashing {
  import opened Outcomes
  import opened Values
  import opened Builtins

  // ---- UTF-8, read as section 3 of RFC 3629 says ----

  // The number of bytes of the character that starts with this one.
  function LengthOf(b: byte): nat { if b < 0x80 then 1 else if b < 0xE0 then 2 else if b < 0xF0 then 3 else 4 }

  // The character's number, from its bytes.
  function Scalar(bytes: seq<byte>): int
    requires bytes != [] && |bytes| >= LengthOf(bytes[0])
  {
    var b := bytes[0] as int;
    if b < 0x80 then b
    else if b < 0xE0 then (b - 0xC0) * 0x40 + Low(bytes[1])
    else if b < 0xF0 then (b - 0xE0) * 0x1000 + Low(bytes[1]) * 0x40 + Low(bytes[2])
    else (b - 0xF0) * 0x4_0000 + Low(bytes[1]) * 0x1000 + Low(bytes[2]) * 0x40 + Low(bytes[3])
  }

  function Low(b: byte): int { b as int - 0x80 }

  // The number in base 64.
  lemma SixBits(c: nat)
    ensures c == c / 0x40 * 0x40 + c % 0x40
    ensures c == c / 0x1000 * 0x1000 + c / 0x40 % 0x40 * 0x40 + c % 0x40
    ensures c == c / 0x4_0000 * 0x4_0000 + c / 0x1000 % 0x40 * 0x1000 + c / 0x40 % 0x40 * 0x40 + c % 0x40
  {
    assert c / 0x40 / 0x40 == c / 0x1000 && c / 0x1000 / 0x40 == c / 0x4_0000;
  }

  // Each character is encoded so that it reads back.
  lemma EncodingReadsBack(c: int, rest: seq<byte>)
    requires 0 <= c < 0x11_0000
    ensures var bytes := EncodeChar(c) + rest; |EncodeChar(c)| == LengthOf(bytes[0]) && Scalar(bytes) == c
  {
    SixBits(c);
  }

  // Different texts have different bytes.
  lemma {:induction false} Utf8Injective(s: string, t: string)
    requires Utf8(s) == Utf8(t)
    ensures s == t
  {
    hide EncodeChar, Scalar;
    if s != "" { EncodingReadsBack(s[0] as int, Utf8(s[1..])); }
    if t != "" { EncodingReadsBack(t[0] as int, Utf8(t[1..])); }
    if s != "" && t != "" {
      assert s[0] == t[0];
      var n := |EncodeChar(s[0] as int)|;
      assert Utf8(s)[n..] == Utf8(s[1..]) && Utf8(t)[n..] == Utf8(t[1..]);
      Utf8Injective(s[1..], t[1..]);
      assert s == [s[0]] + s[1..] && t == [t[0]] + t[1..];
    }
  }

  // ---- FNV-1a ----

  lemma {:induction false} XorBounded(a: nat, b: nat, n: nat)
    requires a < n && b < n && PowerOfTwo(n)
    ensures Xor(a, b) < n
    decreases n
  {
    if n > 1 { XorBounded(a / 2, b / 2, n / 2); }
  }

  predicate PowerOfTwo(n: nat) { n == 1 || (n > 1 && n % 2 == 0 && PowerOfTwo(n / 2)) }

  // Applied twice, exclusive or undoes itself.
  lemma {:induction false} XorUndoes(a: nat, b: nat)
    ensures Xor(Xor(a, b), b) == a
    decreases a + b
  {
    hide Xor;
    if a != 0 || b != 0 {
      XorUndoes(a / 2, b / 2);
      XorHalves(a, b);
      XorHalves(Xor(a, b), b);
    } else {
      XorOfZeros();
    }
  }

  lemma XorOfZeros()
    ensures Xor(0, 0) == 0
  {
  }

  lemma XorHalves(a: nat, b: nat)
    ensures Xor(a, b) / 2 == Xor(a / 2, b / 2) && Xor(a, b) % 2 == (a + b) % 2
  {
  }

  // The prime is odd, so that multiplying by it can be undone modulo 2^64.
  const INVERSE := 14886173955864302971

  lemma PrimeIsInvertible(u: nat, v: nat)
    requires u < TWO64 && v < TWO64 && u * FNV_PRIME % TWO64 == v * FNV_PRIME % TWO64
    ensures u == v
  {
    var d: int := u - v;
    var m := u * FNV_PRIME / TWO64 - v * FNV_PRIME / TWO64;
    assert d * FNV_PRIME == TWO64 * m;
    assert FNV_PRIME * INVERSE == 1 + TWO64 * 887285111055;
    assert d * FNV_PRIME * INVERSE == d * (1 + TWO64 * 887285111055) == d + TWO64 * (d * 887285111055);
    assert d == TWO64 * (m * INVERSE - d * 887285111055);
  }

  // No two states of the hash become one when a byte is mixed in.
  lemma MixingLosesNothing(g: nat, h: nat, b: byte)
    requires g < TWO64 && h < TWO64 && Mixed(g, b) == Mixed(h, b)
    ensures g == h
  {
    hide Xor;
    var r, s := g % 0x100, h % 0x100;
    assert PowerOfTwo(0x100);
    XorBounded(r, b as int, 0x100);
    XorBounded(s, b as int, 0x100);
    assert g == g / 0x100 * 0x100 + r && h == h / 0x100 * 0x100 + s;
    BelowLimit(g / 0x100, r, Xor(r, b as int));
    BelowLimit(h / 0x100, s, Xor(s, b as int));
    PrimeIsInvertible(g - r + Xor(r, b as int), h - s + Xor(s, b as int));
    LowByte(g / 0x100, Xor(r, b as int), h / 0x100, Xor(s, b as int));
    XorUndoes(r, b as int);
    XorUndoes(s, b as int);
  }

  lemma BelowLimit(q: nat, r: nat, x: nat)
    requires q * 0x100 + r < TWO64 && r < 0x100 && x < 0x100
    ensures q * 0x100 + x < TWO64
  {
  }

  lemma LowByte(p: nat, x: nat, q: nat, y: nat)
    requires p * 0x100 + x == q * 0x100 + y && x < 0x100 && y < 0x100
    ensures p == q && x == y
  {
  }

  // Texts that end alike collide exactly when what comes before them does.
  lemma {:induction false} HashKeepsApart(s: seq<byte>, t: seq<byte>, end: seq<byte>)
    ensures Fnv1a(s + end) == Fnv1a(t + end) <==> Fnv1a(s) == Fnv1a(t)
    decreases |end|
  {
    hide Mixed;
    if end == [] {
      assert s + end == s && t + end == t;
    } else {
      var n := |end| - 1;
      HashKeepsApart(s, t, end[..n]);
      assert (s + end)[..|s| + n] == s + end[..n] && (t + end)[..|t| + n] == t + end[..n];
      if Fnv1a(s + end) == Fnv1a(t + end) {
        MixingLosesNothing(Fnv1a(s + end[..n]), Fnv1a(t + end[..n]), end[n]);
      }
    }
  }

  // The published values for the empty input and for "a".
  lemma KnownHashes()
    ensures Fnv1a([]) == 0xcbf2_9ce4_8422_2325 && Fnv1a([0x61]) == 0xaf63_dc4c_8601_ec8c
  {
    hide Mixed;
    assert [0x61 as byte][..0] == [];
    KnownStep();
  }

  lemma KnownStep()
    ensures Mixed(FNV_OFFSET, 0x61) == 0xaf63_dc4c_8601_ec8c
  {
    hide Xor;
    XorOfZeros();
    XorHalves(0, 1);
    XorHalves(1, 3);
    XorHalves(2, 6);
    XorHalves(4, 12);
    XorHalves(9, 24);
    XorHalves(18, 48);
    XorHalves(0x25, 0x61);
    assert Xor(0x25, 0x61) == 0x44;
    assert FNV_OFFSET % 0x100 == 0x25;
  }

  // hash gives the lower 63 bits of the hash of the value's text, so that it is never
  // negative, and a number and its decimal text have one hash.
  lemma HashDropsOneBit(v: Value)
    ensures 0 <= Hash(v) < TWO63
    ensures Fnv1a(Utf8(AsString(v))) == Hash(v) || Fnv1a(Utf8(AsString(v))) == Hash(v) + TWO63
    ensures Hash(v) == Hash(StrValue(AsString(v)))
  {
    hide Fnv1a, Utf8;
  }
}
