// Which texts db/internal/dbsp/expr/template.go accepts as templates, and as what: the
// text is put together instead of being searched.
module TemplateTexts {
  import opened Outcomes
  import opened Lexing
  import opened Sequences
  import opened Templates

  // ---- trimming ----

  predicate Blank(s: string) { forall k :: 0 <= k < |s| ==> IsSpace(s[k]) }

  predicate Bare(s: string) { s != "" ==> !IsSpace(s[0]) && !IsSpace(s[|s| - 1]) }

  // t is s from i to j, and everything around is blank.
  predicate Cut(s: string, t: string, i: nat, j: nat)
  {
    && i <= j <= |s| && t == s[i..j]
    && (forall k :: 0 <= k < i ==> IsSpace(s[k])) && (forall k :: j <= k < |s| ==> IsSpace(s[k]))
  }

  lemma {:induction false} TrimCuts(s: string) returns (i: nat, j: nat)
    ensures Bare(Trim(s)) && Cut(s, Trim(s), i, j)
    decreases |s|
  {
    if s != "" && IsSpace(s[0]) {
      i, j := TrimCuts(s[1..]);
      i, j := i + 1, j + 1;
    } else if s != "" && IsSpace(s[|s| - 1]) {
      i, j := TrimCuts(s[..|s| - 1]);
    } else {
      i, j := 0, |s|;
    }
  }

  // All bare cuts of a text are equal.
  lemma CutsAgree(s: string, t: string, i: nat, j: nat, u: string, k: nat, l: nat)
    requires Bare(t) && Cut(s, t, i, j) && Bare(u) && Cut(s, u, k, l)
    ensures t == u
  {
    if t != "" { assert s[i] == t[0] && s[j - 1] == t[|t| - 1]; }
    if u != "" { assert s[k] == u[0] && s[l - 1] == u[|u| - 1]; }
  }

  predicate Between(s: string, t: string, a: string, b: string) { Blank(a) && Blank(b) && s == a + t + b }

  lemma BlanksCut(s: string, t: string, a: string, b: string)
    requires Between(s, t, a, b)
    ensures Cut(s, t, |a|, |a| + |t|)
  {
  }

  lemma CutBlanks(s: string, t: string, i: nat, j: nat)
    requires Cut(s, t, i, j)
    ensures Between(s, t, s[..i], s[j..])
  {
  }

  // Trimming gives the only text between blanks that neither starts nor ends with one.
  lemma TrimExactly(s: string, t: string)
    ensures t == Trim(s) <==> Bare(t) && exists a, b :: Between(s, t, a, b)
  {
    hide Trim, Between, Cut, Bare;
    var i, j := TrimCuts(s);
    CutBlanks(s, Trim(s), i, j);
    if a, b :| Bare(t) && Between(s, t, a, b) {
      BlanksCut(s, t, a, b);
      CutsAgree(s, t, |a|, |a| + |t|, Trim(s), i, j);
    }
  }

  // ---- templates ----

  predicate Opening(s: string, k: nat) { k + 1 < |s| && s[k] == '$' && s[k + 1] == '{' }

  predicate NoOpening(s: string, n: nat) { forall k :: 0 <= k < n ==> !Opening(s, k) }

  // The first q characters are a hole: an identifier between braces, and blanks.
  predicate HoleText(text: string, n: string, q: nat)
  {
    3 <= q <= |text| && Opening(text, 0) && text[q - 1] == '}' && Identifier(n) && Trim(text[2..q - 1]) == n
  }

  // The text is the parts one after the other: literal texts that are not empty, open
  // no hole and do not follow each other, and holes.
  ghost predicate Spells(text: string, t: Template)
    decreases |t|
  {
    if t == [] then text == ""
    else
      match t[0]
      case Literal(l) => LiteralText(text, l, t) && Spells(text[|l|..], t[1..])
      case Hole(n) => exists q: nat :: HoleText(text, n, q) && Spells(text[q..], t[1..])
  }

  predicate LiteralText(text: string, l: string, t: Template)
  {
    l != "" && l <= text && NoOpening(l, |l|) && (|t| > 1 ==> t[1].Hole?)
  }

  // A hole contains no brace but its own.
  lemma NoBraceInside(s: string, n: string)
    requires Trim(s) == n && Identifier(n)
    ensures forall k :: 0 <= k < |s| ==> s[k] != '{' && s[k] != '}'
  {
    var i, j := TrimCuts(s);
    forall k | 0 <= k < |s| ensures s[k] != '{' && s[k] != '}' {
      if i <= k < j { assert s[k] == n[k - i]; }
    }
  }

  lemma HoleCloses(s: string, p: nat, n: string, q: nat)
    requires p <= |s| && HoleText(s[p..], n, q)
    ensures HoleOpensAt(s, p) && ClosingBrace(s, p + 2, 1) == Some(p + q - 1) && Trim(s[p + 2..p + q - 1]) == n
  {
    hide Trim, Identifier;
    var inner := s[p..][2..q - 1];
    NoBraceInside(inner, n);
    assert s[p + 2..p + q - 1] == inner;
    forall k | p + 2 <= k < p + q - 1 ensures s[k] != '{' && s[k] != '}' {
      assert s[k] == inner[k - p - 2];
    }
    assert s[p..][q - 1] == s[p + q - 1];
    ClosingBraceAt(s, p + 2, p + q - 1);
  }

  lemma ClosedIsHole(s: string, p: nat, end: nat)
    requires p <= |s| && HoleOpensAt(s, p) && ClosingBrace(s, p + 2, 1) == Some(end)
    requires Identifier(Trim(s[p + 2..end]))
    ensures HoleText(s[p..], Trim(s[p + 2..end]), end + 1 - p)
  {
    assert s[p..][2..end - p] == s[p + 2..end];
  }

  // Pending literal text opens no hole, not even together with what follows.
  predicate Pending(s: string, p: nat, literal: string)
    requires p <= |s|
  {
    NoOpening(literal + s[p..], |literal|)
  }

  lemma {:induction false} ParsedIsSpelled(s: string, p: nat, literal: string, t: Template)
    requires p <= |s| && Pending(s, p, literal) && TemplateFrom(s, p, literal) == Ok(t)
    ensures Spells(literal + s[p..], t)
    decreases |s| - p
  {
    hide Trim, Identifier, Spells, ClosingBrace;
    if p == |s| {
      assert literal + s[p..] == literal;
      SpellsNothing();
      SpellsFlushed(literal, "", []);
      assert literal + "" == literal && Flushed(literal) + [] == t;
    } else if HoleOpensAt(s, p) {
      var end := ClosingBrace(s, p + 2, 1).value;
      var name := Trim(s[p + 2..end]);
      var rest := TemplateFrom(s, end + 1, "").value;
      assert s[end + 1..] == "" + s[end + 1..];
      ParsedIsSpelled(s, end + 1, "", rest);
      SpellsHole(s, p, end, rest);
      SpellsFlushed(literal, s[p..], [Hole(name)] + rest);
      assert Flushed(literal) + [Hole(name)] + rest == Flushed(literal) + ([Hole(name)] + rest);
    } else {
      assert literal + s[p..] == (literal + [s[p]]) + s[p + 1..];
      forall k | 0 <= k <= |literal| ensures !Opening(literal + s[p..], k) {
        if k == |literal| { assert (literal + s[p..])[k] == s[p]; }
      }
      ParsedIsSpelled(s, p + 1, literal + [s[p]], t);
    }
  }

  lemma SpellsNothing()
    ensures Spells("", [])
  {
  }

  lemma SpellsHole(s: string, p: nat, end: nat, rest: Template)
    requires p <= |s| && HoleOpensAt(s, p) && ClosingBrace(s, p + 2, 1) == Some(end)
    requires Identifier(Trim(s[p + 2..end])) && Spells(s[end + 1..], rest)
    ensures Spells(s[p..], [Hole(Trim(s[p + 2..end]))] + rest)
  {
    hide Trim, Identifier, HoleText;
    var t := [Hole(Trim(s[p + 2..end]))] + rest;
    ClosedIsHole(s, p, end);
    assert s[p..][end + 1 - p..] == s[end + 1..] && t[1..] == rest;
  }

  lemma SpellsFlushed(literal: string, text: string, t: Template)
    requires NoOpening(literal + text, |literal|) && Spells(text, t) && (t != [] ==> t[0].Hole?)
    ensures Spells(literal + text, Flushed(literal) + t)
  {
    if literal == "" {
      assert literal + text == text && Flushed(literal) + t == t;
    } else {
      var all := Flushed(literal) + t;
      assert all[1..] == t && (literal + text)[|literal|..] == text;
      forall k | 0 <= k < |literal| ensures !Opening(literal, k) {
        assert !Opening(literal + text, k);
      }
    }
  }

  lemma PrefixOpenings(text: string, l: string)
    requires l <= text
    ensures forall k :: 0 <= k < |l| - 1 ==> (Opening(l, k) <==> Opening(text, k))
  {
  }

  // Text without openings, up to the end or to a hole, is one literal.
  lemma FirstPart(text: string, m: nat, t: Template)
    requires m <= |text| && NoOpening(text, m) && (m < |text| ==> Opening(text, m)) && Spells(text, t)
    ensures if m > 0 then t != [] && t[0] == Literal(text[..m]) && Spells(text[m..], t[1..])
            else if text == "" then t == []
            else t != [] && t[0].Hole?
  {
    hide HoleText;
    if t != [] && t[0].Literal? {
      var l := t[0].text;
      NextIsHole(text, l, t);
      PrefixOpenings(text, l);
    } else if t != [] {
      OpensHere(text, t);
    }
  }

  lemma OpensHere(text: string, t: Template)
    requires t != [] && t[0].Hole? && Spells(text, t)
    ensures Opening(text, 0)
  {
  }

  // What follows a literal is a hole, or nothing.
  lemma NextIsHole(text: string, l: string, t: Template)
    requires t != [] && t[0] == Literal(l) && Spells(text, t)
    ensures |l| < |text| ==> Opening(text, |l|)
  {
    if |l| < |text| {
      OpensHere(text[|l|..], t[1..]);
    }
  }

  lemma {:induction false} SpelledIsParsed(s: string, p: nat, literal: string, t: Template)
    requires p <= |s| && Pending(s, p, literal) && Spells(literal + s[p..], t)
    ensures TemplateFrom(s, p, literal) == Ok(t)
    decreases |s| - p
  {
    hide Trim, Identifier, HoleText;
    var text := literal + s[p..];
    if p == |s| {
      assert text == literal;
      FirstPart(text, |literal|, t);
      if literal != "" {
        FirstPart(text[|literal|..], 0, t[1..]);
        assert t == [t[0]] + t[1..] == Flushed(literal);
      }
    } else if HoleOpensAt(s, p) {
      assert text[|literal|] == s[p] && text[|literal| + 1] == s[p + 1] && text[|literal|..] == s[p..];
      FirstPart(text, |literal|, t);
      var rest := if literal == "" then t else t[1..];
      assert t == Flushed(literal) + rest;
      HoleIsParsed(s, p, literal, rest);
    } else {
      assert text == (literal + [s[p]]) + s[p + 1..];
      forall k | 0 <= k <= |literal| ensures !Opening(text, k) {
        if k == |literal| { assert text[k] == s[p]; }
      }
      SpelledIsParsed(s, p + 1, literal + [s[p]], t);
    }
  }

  lemma {:induction false} HoleIsParsed(s: string, p: nat, literal: string, t: Template)
    requires p < |s| && HoleOpensAt(s, p) && Spells(s[p..], t)
    ensures TemplateFrom(s, p, literal) == Ok(Flushed(literal) + t)
    decreases |s| - p, 0
  {
    hide Trim, Identifier, ClosingBrace, TemplateFrom, HoleText;
    assert s[p..][0] == s[p] && s[p..][1] == s[p + 1];
    FirstPart(s[p..], 0, t);
    var n := t[0].name;
    var q := HoleEnds(s[p..], t);
    HoleCloses(s, p, n, q);
    assert s[p..][q..] == s[p + q..] == "" + s[p + q..];
    SpelledIsParsed(s, p + q, "", t[1..]);
    assert Flushed(literal) + [Hole(n)] + t[1..] == Flushed(literal) + t;
    HoleStep(s, p, p + q - 1, n, literal);
  }

  lemma HoleEnds(text: string, t: Template) returns (q: nat)
    requires t != [] && t[0].Hole? && Spells(text, t)
    ensures HoleText(text, t[0].name, q) && 3 <= q <= |text| && Identifier(t[0].name) && Spells(text[q..], t[1..])
  {
    hide Trim, Identifier;
    q :| HoleText(text, t[0].name, q) && Spells(text[q..], t[1..]);
  }

  // A text is read as a template exactly when it spells it.
  lemma TemplateExactly(s: string, t: Template)
    ensures TemplateFrom(s, 0, "") == Ok(t) <==> Spells(s, t)
  {
    hide Spells;
    assert "" + s[0..] == s;
    if TemplateFrom(s, 0, "") == Ok(t) { ParsedIsSpelled(s, 0, "", t); }
    if Spells(s, t) { SpelledIsParsed(s, 0, "", t); }
  }
}
