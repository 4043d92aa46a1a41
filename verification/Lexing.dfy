// Model of db/internal/dbsp/expr/lexer.go. The class Lexer moves a position through
// the input as the source does; the functions say what it must produce.
// Character classes are the ASCII ones.
module Lexing {
  import opened Outcomes
  import opened Values
  import opened Syntax
  import opened Sequences

  // ---- character classes ----

  predicate IsSpace(c: char) { c == ' ' || '\t' <= c <= '\r' }

  predicate IsLetter(c: char) { 'a' <= c <= 'z' || 'A' <= c <= 'Z' }

  predicate IsIdentStart(c: char) { IsLetter(c) || c == '_' }

  predicate IsIdentChar(c: char) { IsIdentStart(c) || IsDigit(c) }

  datatype CharClass = Spaces | DecimalDigits | IdentChars | NotClosingBrace

  predicate InClass(c: char, chars: CharClass)
  {
    match chars
    case Spaces => IsSpace(c)
    case DecimalDigits => IsDigit(c)
    case IdentChars => IsIdentChar(c)
    case NotClosingBrace => c != '}'
  }

  // The first position at or after p whose character is outside the class.
  function Scan(s: string, p: nat, chars: CharClass): (q: nat)
    requires p <= |s|
    ensures p <= q <= |s|
    ensures forall k :: p <= k < q ==> InClass(s[k], chars)
    ensures q < |s| ==> !InClass(s[q], chars)
    decreases |s| - p
  {
    if p < |s| && InClass(s[p], chars) then Scan(s, p + 1, chars) else p
  }

  // The position of the quote closing a string that starts at p; at or past the end
  // of the input when there is none. A backslash hides the character after it.
  function ScanString(s: string, p: nat): (q: nat)
    ensures p <= q
    ensures q < |s| ==> s[q] == '"'
    ensures p <= |s| ==> q <= |s| + 1
    decreases |s| - p
  {
    if p >= |s| || s[p] == '"' then p
    else if s[p] == '\\' then ScanString(s, p + 2)
    else ScanString(s, p + 1)
  }

  // ---- tokens and their spelling ----

  // A string body: any character but a quote or a backslash, or a backslash and the
  // character it hides, again and again.
  predicate Quotable(text: string)
  {
    || text == ""
    || (text[0] == '\\' && |text| > 1 && Quotable(text[2..]))
    || (text[0] != '\\' && text[0] != '"' && Quotable(text[1..]))
  }

  predicate Identifier(text: string)
  {
    text != [] && IsIdentStart(text[0]) && forall k :: 0 <= k < |text| ==> IsIdentChar(text[k])
  }

  predicate BraceFree(text: string) { forall k :: 0 <= k < |text| ==> text[k] != '}' }

  function Symbol(kind: TokenKind): string
  {
    match kind
    case Plus => "+" case Minus => "-" case Star => "*" case Slash => "/" case Percent => "%"
    case LParen => "(" case RParen => ")" case Comma => "," case Assign => "=" case DeclAssign => ":="
    case _ => ""
  }

  // The tokens a lexer can emit before the end marker.
  predicate Lexeme(t: Token)
  {
    match t.kind
    case EndOfInput => false
    case IntToken => t.text != [] && AllDigits(t.text)
    case StringToken => Quotable(t.text)
    case IdentToken => Identifier(t.text)
    case ColRefToken => BraceFree(t.text)
    case VarRefToken => BraceFree(t.text)
    case _ => t.text == Symbol(t.kind)
  }

  function Spell(t: Token): string
  {
    match t.kind
    case StringToken => "\"" + t.text + "\""
    case ColRefToken => "@{" + t.text + "}"
    case VarRefToken => "${" + t.text + "}"
    case _ => t.text
  }

  predicate Lexemes(ts: seq<Token>) { forall k :: 0 <= k < |ts| ==> Lexeme(ts[k]) }

  const END := Token(EndOfInput, "")

  // ---- what the lexer produces ----

  function SymbolAt(s: string, p: nat): Option<Token>
    requires p < |s|
  {
    match s[p]
    case '+' => Some(Token(Plus, "+"))
    case '-' => Some(Token(Minus, "-"))
    case '*' => Some(Token(Star, "*"))
    case '/' => Some(Token(Slash, "/"))
    case '%' => Some(Token(Percent, "%"))
    case '(' => Some(Token(LParen, "("))
    case ')' => Some(Token(RParen, ")"))
    case ',' => Some(Token(Comma, ","))
    case '=' => Some(Token(Assign, "="))
    case _ => if s[p] == ':' && p + 1 < |s| && s[p + 1] == '=' then Some(Token(DeclAssign, ":=")) else None
  }

  function BracedAt(s: string, p: nat, kind: TokenKind): Option<(Token, nat)>
    requires p < |s|
  {
    if p + 1 < |s| && s[p + 1] == '{' then
      var q := Scan(s, p + 2, NotClosingBrace);
      if q < |s| then Some((Token(kind, s[p + 2..q]), q + 1)) else None
    else None
  }

  // The token that starts at p and the position after it.
  function NextToken(s: string, p: nat): (r: Option<(Token, nat)>)
    requires p < |s|
    ensures r.Some? ==> p < r.value.1 <= |s|
  {
    if s[p] == '@' then BracedAt(s, p, ColRefToken)
    else if s[p] == '$' then BracedAt(s, p, VarRefToken)
    else if s[p] == '"' then
      var q := ScanString(s, p + 1);
      if q < |s| then Some((Token(StringToken, s[p + 1..q]), q + 1)) else None
    else if IsDigit(s[p]) then
      var q := Scan(s, p, DecimalDigits);
      Some((Token(IntToken, s[p..q]), q))
    else if IsIdentStart(s[p]) then
      var q := Scan(s, p, IdentChars);
      Some((Token(IdentToken, s[p..q]), q))
    else
      match SymbolAt(s, p)
      case None => None
      case Some(t) => Some((t, p + |t.text|))
  }

  function Tokens(s: string, p: nat): Option<seq<Token>>
    requires p <= |s|
    decreases |s| - p
  {
    var q := Scan(s, p, Spaces);
    if q == |s| then Some([END])
    else
      match NextToken(s, q)
      case None => None
      case Some(next) =>
        match Tokens(s, next.1)
        case None => None
        case Some(rest) => Some([next.0] + rest)
  }

  function Prepend(front: seq<Token>, back: Option<seq<Token>>): Option<seq<Token>>
  {
    match back case None => None case Some(ts) => Some(front + ts)
  }

  // ---- the lexer itself ----

  class Lexer {
    const input: string
    var pos: nat

    ghost predicate Valid() reads this { pos <= |input| }

    constructor (s: string)
      ensures Valid() && input == s && pos == 0
    {
      input := s;
      pos := 0;
    }

    method Peek() returns (c: char)
      requires Valid()
      ensures c == if pos < |input| then input[pos] else 0 as char
    {
      if pos >= |input| { return 0 as char; }
      return input[pos];
    }

    method Advance() returns (c: char)
      requires Valid() && pos < |input|
      modifies this
      ensures Valid() && pos == old(pos) + 1 && c == input[old(pos)]
    {
      c := input[pos];
      pos := pos + 1;
    }

    method SkipWhitespace()
      requires Valid()
      modifies this
      ensures Valid() && pos == Scan(input, old(pos), Spaces)
    {
      while pos < |input| && IsSpace(input[pos])
        invariant Valid()
        invariant Scan(input, old(pos), Spaces) == Scan(input, pos, Spaces)
      {
        pos := pos + 1;
      }
    }

    method ReadIdentifier() returns (text: string)
      requires Valid()
      modifies this
      ensures Valid() && pos == Scan(input, old(pos), IdentChars) && text == input[old(pos)..pos]
    {
      var start := pos;
      while pos < |input| && IsIdentChar(input[pos])
        invariant start <= pos && Valid()
        invariant Scan(input, start, IdentChars) == Scan(input, pos, IdentChars)
      {
        pos := pos + 1;
      }
      text := input[start..pos];
    }

    method ReadNumber() returns (text: string)
      requires Valid()
      modifies this
      ensures Valid() && pos == Scan(input, old(pos), DecimalDigits) && text == input[old(pos)..pos]
    {
      var start := pos;
      while pos < |input| && IsDigit(input[pos])
        invariant start <= pos && Valid()
        invariant Scan(input, start, DecimalDigits) == Scan(input, pos, DecimalDigits)
      {
        pos := pos + 1;
      }
      text := input[start..pos];
    }

    method ReadBracedName() returns (name: Option<string>)
      requires Valid()
      modifies this
      ensures Valid()
      ensures var q := Scan(input, old(pos), NotClosingBrace);
              if q < |input| then name == Some(input[old(pos)..q]) && pos == q + 1 else name == None && pos == q
    {
      var start := pos;
      while pos < |input| && input[pos] != '}'
        invariant start <= pos && Valid()
        invariant Scan(input, start, NotClosingBrace) == Scan(input, pos, NotClosingBrace)
      {
        pos := pos + 1;
      }
      if pos >= |input| { return None; }
      name := Some(input[start..pos]);
      pos := pos + 1;
    }

    // Without a closing quote the position is at the end, or one past it after a final
    // backslash.
    method ReadString() returns (text: Option<string>)
      requires Valid()
      modifies this
      ensures var q := ScanString(input, old(pos));
              if q < |input| then text == Some(input[old(pos)..q]) && pos == q + 1
              else text == None && pos == q <= |input| + 1
    {
      var start := pos;
      while pos < |input| && input[pos] != '"'
        invariant start <= pos <= |input| + 1
        invariant ScanString(input, start) == ScanString(input, pos)
      {
        if input[pos] == '\\' {
          pos := pos + 1;
        }
        pos := pos + 1;
      }
      if pos >= |input| { return None; }
      text := Some(input[start..pos]);
      pos := pos + 1;
    }

    // One pass of the switch in Tokenize.
    method ReadToken() returns (t: Option<Token>)
      requires Valid() && pos < |input|
      modifies this
      ensures var next := NextToken(input, old(pos));
              if next.Some? then t == Some(next.value.0) && pos == next.value.1 else t == None
      ensures old(pos) <= pos <= |input| + 1
    {
      var c := Peek();
      if c == '@' || c == '$' {
        var _ := Advance();
        var brace := Peek();
        if brace != '{' { return None; }
        var _ := Advance();
        var name := ReadBracedName();
        if name.None? { return None; }
        return Some(Token(if c == '@' then ColRefToken else VarRefToken, name.value));
      } else if c == '"' {
        var _ := Advance();
        var text := ReadString();
        if text.None? { return None; }
        return Some(Token(StringToken, text.value));
      } else if IsDigit(c) {
        var text := ReadNumber();
        return Some(Token(IntToken, text));
      } else if IsIdentStart(c) {
        var text := ReadIdentifier();
        return Some(Token(IdentToken, text));
      } else if c == ':' {
        var _ := Advance();
        var equals := Peek();
        if equals != '=' { return None; }
        var _ := Advance();
        return Some(Token(DeclAssign, ":="));
      } else {
        t := SymbolAt(input, pos);
        if t.Some? { var _ := Advance(); }
      }
    }

    method Tokenize() returns (r: Option<seq<Token>>)
      requires Valid()
      modifies this
      ensures r == Tokens(input, old(pos))
    {
      var tokens: seq<Token> := [];
      assert forall back: seq<Token> :: [] + back == back;
      while true
        invariant Valid()
        invariant Tokens(input, old(pos)) == Prepend(tokens, Tokens(input, pos))
        decreases |input| - pos
      {
        ghost var start := pos;
        SkipWhitespace();
        if pos >= |input| {
          return Some(tokens + [END]);
        }
        ghost var here := pos;
        var t := ReadToken();
        if t.None? { return None; }
        assert Tokens(input, start) == Prepend([t.value], Tokens(input, pos));
        forall back: seq<Token> ensures tokens + ([t.value] + back) == (tokens + [t.value]) + back {}
        tokens := tokens + [t.value];
      }
    }
  }

  // ---- soundness: every token is well formed and is read from its own spelling ----

  lemma TokenIsSpelled(s: string, p: nat)
    requires p < |s| && NextToken(s, p).Some?
    ensures var (t, q) := NextToken(s, p).value; Lexeme(t) && s[p..q] == Spell(t)
  {
    if s[p] == '@' || s[p] == '$' {
      BracedIsSpelled(s, p);
    } else if s[p] == '"' {
      StringIsSpelled(s, p);
    } else if !IsDigit(s[p]) && !IsIdentStart(s[p]) {
      SymbolIsSpelled(s, p);
    }
  }

  lemma BracedIsSpelled(s: string, p: nat)
    requires p < |s| && (s[p] == '@' || s[p] == '$')
    requires NextToken(s, p).Some?
    ensures var (t, q) := NextToken(s, p).value; Lexeme(t) && s[p..q] == Spell(t)
  {
    var (t, q) := NextToken(s, p).value;
    assert s[p..q] == s[p..p + 2] + s[p + 2..q - 1] + [s[q - 1]];
  }

  lemma StringIsSpelled(s: string, p: nat)
    requires p < |s| && s[p] == '"' && NextToken(s, p).Some?
    ensures var (t, q) := NextToken(s, p).value; Lexeme(t) && s[p..q] == Spell(t)
  {
    var (t, q) := NextToken(s, p).value;
    BodyIsQuotable(s, p + 1);
    assert s[p..q] == [s[p]] + s[p + 1..q - 1] + [s[q - 1]];
  }

  lemma SymbolIsSpelled(s: string, p: nat)
    requires p < |s| && SymbolAt(s, p).Some?
    ensures var t := SymbolAt(s, p).value;
            Lexeme(t) && p + |t.text| <= |s| && s[p..p + |t.text|] == t.text == Spell(t)
  {
    var t := SymbolAt(s, p).value;
    if t.kind.DeclAssign? {
      assert s[p..p + 2] == [s[p], s[p + 1]];
    } else {
      assert s[p..p + 1] == [s[p]];
    }
  }

  lemma {:induction false} BodyIsQuotable(s: string, p: nat)
    requires p <= ScanString(s, p) < |s|
    ensures Quotable(s[p..ScanString(s, p)])
    decreases |s| - p
  {
    var end := ScanString(s, p);
    var body := s[p..end];
    if p < end {
      var next := if s[p] == '\\' then p + 2 else p + 1;
      assert body[0] == s[p] != '"' && end == ScanString(s, next);
      BodyIsQuotable(s, next);
      assert body[next - p..] == s[next..end];
    }
  }

  // s from p on is the given tokens, in order, each spelled exactly and separated by
  // nothing but white space.
  predicate SpelledBy(s: string, p: nat, ts: seq<Token>)
    requires p <= |s|
    decreases |ts|
  {
    var q := Scan(s, p, Spaces);
    if ts == [] then q == |s|
    else
      var end := q + |Spell(ts[0])|;
      Lexeme(ts[0]) && end <= |s| && s[q..end] == Spell(ts[0]) && SpelledBy(s, end, ts[1..])
  }

  lemma {:induction false} TokensAreSpelled(s: string, p: nat)
    requires p <= |s| && Tokens(s, p).Some?
    ensures var ts := Tokens(s, p).value;
            ts != [] && ts[|ts|-1] == END && SpelledBy(s, p, ts[..|ts|-1])
    decreases |s| - p
  {
    hide NextToken, Lexeme, Spell, Scan;
    var q := Scan(s, p, Spaces);
    if q < |s| {
      TokenIsSpelled(s, q);
      var (t, next) := NextToken(s, q).value;
      TokensAreSpelled(s, next);
      SpelledFirst(s, p, t, next, Tokens(s, next).value);
    }
  }

  lemma SpelledFirst(s: string, p: nat, t: Token, next: nat, rest: seq<Token>)
    requires p <= |s| && rest != [] && Scan(s, p, Spaces) <= next <= |s|
    requires Lexeme(t) && s[Scan(s, p, Spaces)..next] == Spell(t) && SpelledBy(s, next, rest[..|rest| - 1])
    ensures var ts := [t] + rest; SpelledBy(s, p, ts[..|ts| - 1])
  {
    hide Lexeme, Spell, Scan;
    var ts := ([t] + rest)[..|rest|];
    assert |s[Scan(s, p, Spaces)..next]| == next - Scan(s, p, Spaces);
    assert ts[1..] == rest[..|rest| - 1];
  }

  // ---- completeness: spaced-out spellings are read back exactly ----

  function Spaced(ts: seq<Token>): string
  {
    if ts == [] then "" else Spell(ts[0]) + " " + Spaced(ts[1..])
  }

  lemma {:induction false} ScanStopsAt(s: string, p: nat, q: nat, chars: CharClass)
    requires p <= q < |s|
    requires forall k :: p <= k < q ==> InClass(s[k], chars)
    requires !InClass(s[q], chars)
    ensures Scan(s, p, chars) == q
    decreases q - p
  {
    if p < q { ScanStopsAt(s, p + 1, q, chars); }
  }

  lemma {:induction false} ScanStringStopsAt(s: string, p: nat, text: string)
    requires Quotable(text) && p + |text| < |s|
    requires s[p..p + |text|] == text && s[p + |text|] == '"'
    ensures ScanString(s, p) == p + |text|
    decreases |text|
  {
    if text != "" {
      assert s[p] == s[p..p + |text|][0] == text[0];
      var k := if text[0] == '\\' then 2 else 1;
      assert s[p + k..p + k + |text[k..]|] == s[p..p + |text|][k..] == text[k..];
      ScanStringStopsAt(s, p + k, text[k..]);
    }
  }

  lemma BracedReadsBack(s: string, p: nat, kind: TokenKind, sigil: char, text: string)
    requires BraceFree(text)
    requires p + |text| + 3 < |s| && s[p..p + |text| + 3] == [sigil, '{'] + text + "}"
    ensures BracedAt(s, p, kind) == Some((Token(kind, text), p + |text| + 3))
  {
    var spelled := [sigil, '{'] + text + "}";
    assert forall k :: 0 <= k < |spelled| ==> s[p + k] == spelled[k];
    assert s[p + 1] == spelled[1] && s[p + |text| + 2] == spelled[|text| + 2];
    forall k | p + 2 <= k < p + 2 + |text| ensures s[k] == text[k - p - 2] {
      assert s[k] == spelled[k - p];
    }
    ScanStopsAt(s, p + 2, p + 2 + |text|, NotClosingBrace);
    assert s[p + 2..p + 2 + |text|] == text;
  }

  ghost predicate SpelledAt(s: string, p: nat, text: string)
  {
    p + |text| < |s| && s[p..p + |text|] == text && s[p + |text|] == ' '
  }

  lemma SpelledChar(s: string, p: nat, text: string, k: nat)
    requires SpelledAt(s, p, text) && k < |text|
    ensures s[p + k] == text[k]
  {
    assert s[p + k] == s[p..p + |text|][k];
  }

  lemma SpellingReadsBack(s: string, p: nat, t: Token)
    requires Lexeme(t) && SpelledAt(s, p, Spell(t))
    ensures NextToken(s, p) == Some((t, p + |Spell(t)|))
  {
    hide Scan, ScanString, SymbolAt, Identifier, BraceFree, NextToken, Quotable, AllDigits, SpelledAt, Symbol;
    match t.kind
    case EndOfInput =>
    case IntToken => RunReadsBack(s, p, t, DecimalDigits);
    case IdentToken => RunReadsBack(s, p, t, IdentChars);
    case StringToken => StringReadsBack(s, p, t.text);
    case ColRefToken => ReferenceReadsBack(s, p, ColRefToken, '@', t.text);
    case VarRefToken => ReferenceReadsBack(s, p, VarRefToken, '$', t.text);
    case _ => SymbolReadsBack(s, p, t);
  }

  lemma ReferenceReadsBack(s: string, p: nat, kind: TokenKind, sigil: char, text: string)
    requires (kind.ColRefToken? && sigil == '@') || (kind.VarRefToken? && sigil == '$')
    requires BraceFree(text) && SpelledAt(s, p, Spell(Token(kind, text)))
    ensures NextToken(s, p) == Some((Token(kind, text), p + |Spell(Token(kind, text))|))
  {
    hide BraceFree, Scan, ScanString, SymbolAt, BracedAt;
    assert Spell(Token(kind, text)) == [sigil, '{'] + text + "}";
    SpelledChar(s, p, Spell(Token(kind, text)), 0);
    BracedReadsBack(s, p, kind, sigil, text);
  }

  lemma RunReadsBack(s: string, p: nat, t: Token, chars: CharClass)
    requires Lexeme(t) && SpelledAt(s, p, t.text)
    requires (t.kind.IntToken? && chars.DecimalDigits?) || (t.kind.IdentToken? && chars.IdentChars?)
    ensures NextToken(s, p) == Some((t, p + |t.text|))
  {
    forall k | p <= k < p + |t.text| ensures s[k] == t.text[k - p] {
      SpelledChar(s, p, t.text, k - p);
    }
    ScanStopsAt(s, p, p + |t.text|, chars);
  }

  lemma StringReadsBack(s: string, p: nat, text: string)
    requires Quotable(text) && SpelledAt(s, p, "\"" + text + "\"")
    ensures NextToken(s, p) == Some((Token(StringToken, text), p + |text| + 2))
  {
    hide NextToken, Quotable;
    var spelled := "\"" + text + "\"";
    SpelledChar(s, p, spelled, 0);
    SpelledChar(s, p, spelled, 1 + |text|);
    forall k | 0 <= k < |text| ensures s[p + 1 + k] == text[k] {
      SpelledChar(s, p, spelled, 1 + k);
    }
    assert s[p + 1..p + 1 + |text|] == text;
    ScanStringStopsAt(s, p + 1, text);
    StringStep(s, p, p + 1 + |text|);
  }

  lemma StringStep(s: string, p: nat, q: nat)
    requires p < q < |s| && s[p] == '"' && ScanString(s, p + 1) == q
    ensures NextToken(s, p) == Some((Token(StringToken, s[p + 1..q]), q + 1))
  {
    hide ScanString;
  }

  lemma SymbolReadsBack(s: string, p: nat, t: Token)
    requires t.kind != EndOfInput && t.kind != IntToken && t.kind != StringToken && t.kind != IdentToken
    requires t.kind != ColRefToken && t.kind != VarRefToken
    requires t.text == Symbol(t.kind) && SpelledAt(s, p, t.text)
    ensures NextToken(s, p) == Some((t, p + |t.text|))
  {
    SpelledChar(s, p, t.text, 0);
    if t.kind.DeclAssign? { SpelledChar(s, p, t.text, 1); }
  }

  lemma {:induction false} SpacedReadsBackFrom(s: string, p: nat, ts: seq<Token>)
    requires p <= |s| && s[p..] == Spaced(ts)
    requires Lexemes(ts)
    ensures Tokens(s, p) == Some(ts + [END])
    decreases |ts|
  {
    hide Tokens, Spaced, Lexeme, Spell;
    if ts == [] {
      NothingLeft(s, p);
      assert ts + [END] == [END];
    } else {
      var rest := ts[1..] + [END];
      assert [ts[0]] + rest == ts + [END];
      SpacedTail(s, p, ts);
      SpacedReadsBackFrom(s, p + |Spell(ts[0])| + 1, ts[1..]);
      FirstReadsBack(s, p, ts, rest);
    }
  }

  lemma NothingLeft(s: string, p: nat)
    requires p <= |s| && s[p..] == Spaced([])
    ensures Tokens(s, p) == Some([END])
  {
    assert |s[p..]| == |s| - p;
  }

  lemma SpacedTail(s: string, p: nat, ts: seq<Token>)
    requires p <= |s| && ts != [] && s[p..] == Spaced(ts)
    ensures var end := p + |Spell(ts[0])|;
            end < |s| && SpelledAt(s, p, Spell(ts[0])) && s[end + 1..] == Spaced(ts[1..])
  {
    hide Spell;
    var spelled, rest := Spell(ts[0]), Spaced(ts[1..]);
    var w := spelled + " " + rest;
    assert w[..|spelled|] == spelled && w[|spelled|] == ' ' && w[|spelled| + 1..] == rest;
    RestAt(s, p, w, |spelled|);
    RestSlices(s, p, w, 0, |spelled|);
    RestSlices(s, p, w, 0, |spelled| + 1);
  }

  lemma FirstReadsBack(s: string, p: nat, ts: seq<Token>, rest: seq<Token>)
    requires p <= |s| && ts != [] && s[p..] == Spaced(ts) && Lexeme(ts[0])
    requires var end := p + |Spell(ts[0])|; end + 1 <= |s| && Tokens(s, end + 1) == Some(rest)
    ensures Tokens(s, p) == Some([ts[0]] + rest)
  {
    hide Tokens, NextToken, Lexeme, Spell, Spaced;
    var end := p + |Spell(ts[0])|;
    SpacedTail(s, p, ts);
    SpellingReadsBack(s, p, ts[0]);
    NoLeadingSpace(ts[0]);
    assert s[p] == s[p..end][0];
    SkippingSpace(s, end);
    TokensStep(s, p, ts[0], end, rest);
  }

  lemma TokensStep(s: string, p: nat, t: Token, next: nat, rest: seq<Token>)
    requires p < |s| && !IsSpace(s[p]) && NextToken(s, p) == Some((t, next)) && Tokens(s, next) == Some(rest)
    ensures Tokens(s, p) == Some([t] + rest)
  {
    hide NextToken;
    assert Scan(s, p, Spaces) == p;
  }

  lemma NoLeadingSpace(t: Token)
    requires Lexeme(t)
    ensures Spell(t) != [] && !IsSpace(Spell(t)[0])
  {
  }

  lemma SkippingSpace(s: string, p: nat)
    requires p < |s| && IsSpace(s[p])
    ensures Tokens(s, p) == Tokens(s, p + 1)
  {
    assert Scan(s, p, Spaces) == Scan(s, p + 1, Spaces);
  }

  // A token sequence is the output of the lexer on some input exactly when every
  // token but the end marker is a lexeme.
  lemma LexerImage(ts: seq<Token>)
    ensures (exists s: string :: Tokens(s, 0) == Some(ts + [END])) <==> Lexemes(ts)
  {
    if Lexemes(ts) {
      SpacedReadsBackFrom(Spaced(ts), 0, ts);
      assert Tokens(Spaced(ts), 0) == Some(ts + [END]);
    }
    forall s: string | Tokens(s, 0) == Some(ts + [END]) ensures Lexemes(ts) {
      TokensAreSpelled(s, 0);
      assert (ts + [END])[..|ts|] == ts;
      SpelledAreLexemes(s, 0, ts);
    }
  }

  lemma {:induction false} SpelledAreLexemes(s: string, p: nat, ts: seq<Token>)
    requires p <= |s| && SpelledBy(s, p, ts)
    ensures Lexemes(ts)
    decreases |ts|
  {
    if ts != [] {
      SpelledAreLexemes(s, Scan(s, p, Spaces) + |Spell(ts[0])|, ts[1..]);
    }
  }

  // ---- names ----

  // A name starts with a letter or an underscore and goes on with those and digits.
  lemma NamesExactly(n: string, c: char)
    ensures Identifier([c]) <==> 'a' <= c <= 'z' || 'A' <= c <= 'Z' || c == '_'
    ensures Identifier(n) ==> (Identifier(n + [c]) <==> Identifier([c]) || '0' <= c <= '9')
    ensures n != "" && !Identifier(n) ==> !Identifier(n + [c])
  {
    if n != "" { assert (n + [c])[0] == n[0] && (n + [c])[|n|] == c; }
    if n != "" && Identifier(n + [c]) {
      forall k | 0 <= k < |n| ensures IsIdentChar(n[k]) { assert (n + [c])[k] == n[k]; }
    }
  }
}
