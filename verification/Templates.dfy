// Model of db/internal/dbsp/expr/template.go.
module Templates {
  import opened Outcomes
  import opened Values
  import opened Lexing
  import opened Sequences

  datatype Part = Literal(text: string) | Hole(name: string)

  type Template = seq<Part>

  // strings.TrimSpace
  function Trim(s: string): string
  {
    if s != [] && IsSpace(s[0]) then Trim(s[1..])
    else if s != [] && IsSpace(s[|s| - 1]) then Trim(s[..|s| - 1])
    else s
  }

  // The position of the brace closing the one opened before p, nesting counted.
  function ClosingBrace(s: string, p: nat, depth: nat): (r: Option<nat>)
    requires p <= |s| && depth > 0
    ensures r.Some? ==> p <= r.value < |s| && s[r.value] == '}'
    decreases |s| - p
  {
    if p == |s| then None
    else if s[p] == '{' then ClosingBrace(s, p + 1, depth + 1)
    else if s[p] == '}' then (if depth == 1 then Some(p) else ClosingBrace(s, p + 1, depth - 1))
    else ClosingBrace(s, p + 1, depth)
  }

  predicate HoleOpensAt(s: string, p: nat)
  {
    p + 1 < |s| && s[p] == '$' && s[p + 1] == '{'
  }

  function Flushed(literal: string): Template
  {
    if literal == "" then [] else [Literal(literal)]
  }

  // The parts from position p on, given the literal text pending before p.
  function TemplateFrom(s: string, p: nat, literal: string): Result<Template>
    requires p <= |s|
    decreases |s| - p
  {
    if p == |s| then Ok(Flushed(literal))
    else if HoleOpensAt(s, p) then
      match ClosingBrace(s, p + 2, 1)
      case None => Err(SyntaxError)
      case Some(end) =>
        var name := Trim(s[p + 2..end]);
        if !Identifier(name) then Err(SyntaxError)
        else
          match TemplateFrom(s, end + 1, "")
          case Err(x) => Err(x)
          case Ok(rest) => Ok(Flushed(literal) + [Hole(name)] + rest)
    else TemplateFrom(s, p + 1, literal + [s[p]])
  }

  method ExtractBraced(s: string, start: nat) returns (end: Option<nat>)
    requires start <= |s|
    ensures end == ClosingBrace(s, start, 1)
  {
    var depth := 1;
    var pos := start;
    while pos < |s|
      invariant start <= pos <= |s| && depth > 0
      invariant ClosingBrace(s, start, 1) == ClosingBrace(s, pos, depth)
    {
      if s[pos] == '{' {
        depth := depth + 1;
      } else if s[pos] == '}' {
        depth := depth - 1;
        if depth == 0 { return Some(pos); }
      }
      pos := pos + 1;
    }
    return None;
  }

  function Before(front: Template, back: Result<Template>): Result<Template>
  {
    match back case Err(x) => Err(x) case Ok(parts) => Ok(front + parts)
  }

  method ParseTemplate(s: string) returns (r: Result<Template>)
    ensures r == TemplateFrom(s, 0, "")
  {
    var parts: Template := [];
    var literal: string := "";
    var i := 0;
    assert forall back: Template :: [] + back == back;
    while i < |s|
      invariant i <= |s|
      invariant TemplateFrom(s, 0, "") == Before(parts, TemplateFrom(s, i, literal))
      decreases |s| - i
    {
      if HoleOpensAt(s, i) {
        var end := ExtractBraced(s, i + 2);
        if end.None? { return Err(SyntaxError); }
        var name := Trim(s[i + 2..end.value]);
        if !Identifier(name) { return Err(SyntaxError); }
        forall back: Template
          ensures parts + (Flushed(literal) + [Hole(name)] + back) == (parts + Flushed(literal) + [Hole(name)]) + back
        {}
        parts := parts + Flushed(literal) + [Hole(name)];
        literal := "";
        i := end.value + 1;
      } else {
        literal := literal + [s[i]];
        i := i + 1;
      }
    }
    return Ok(parts + Flushed(literal));
  }

  // ---- rendering ----

  function Render(t: Template, vars: map<string, Value>): Result<string>
  {
    if t == [] then Ok("")
    else
      var front := Render(t[..|t| - 1], vars);
      match front
      case Err(x) => front
      case Ok(text) =>
        match t[|t| - 1]
        case Literal(s) => Ok(text + s)
        case Hole(n) => if n in vars then Ok(text + AsString(vars[n])) else Err(UndefinedVariable(n))
  }

  // CollectVarRefs
  function HoleNames(t: Template): seq<string>
  {
    if t == [] then []
    else
      var front := HoleNames(t[..|t| - 1]);
      match t[|t| - 1] case Literal(_) => front case Hole(n) => front + [n]
  }

  method RenderTemplate(t: Template, vars: map<string, Value>) returns (r: Result<string>)
    ensures r == Render(t, vars)
  {
    var text := "";
    for i := 0 to |t|
      invariant Render(t[..i], vars) == Ok(text)
    {
      assert t[..i + 1][..i] == t[..i];
      match t[i] {
        case Literal(s) => text := text + s;
        case Hole(n) =>
          if n !in vars {
            RenderStuck(t, vars, i + 1);
            return Err(UndefinedVariable(n));
          }
          text := text + AsString(vars[n]);
      }
    }
    assert t[..|t|] == t;
    return Ok(text);
  }

  lemma {:induction false} RenderStuck(t: Template, vars: map<string, Value>, k: nat)
    requires k <= |t| && Render(t[..k], vars).Err?
    ensures Render(t, vars) == Render(t[..k], vars)
    decreases |t| - k
  {
    if k < |t| {
      assert t[..k + 1][..k] == t[..k];
      RenderStuck(t, vars, k + 1);
    } else {
      assert t[..k] == t;
    }
  }

  // A template can be rendered exactly when every hole has a value.
  lemma {:induction false} RenderNeedsHoles(t: Template, vars: map<string, Value>)
    ensures Render(t, vars).Ok? <==> forall n :: n in HoleNames(t) ==> n in vars
  {
    if t != [] { RenderNeedsHoles(t[..|t| - 1], vars); }
  }

  lemma {:induction false} RenderReadsHoles(t: Template, a: map<string, Value>, b: map<string, Value>)
    requires Agree(Elements(HoleNames(t)), a, b)
    ensures Render(t, a) == Render(t, b)
  {
    if t != [] {
      assert forall n :: n in HoleNames(t[..|t| - 1]) ==> n in HoleNames(t);
      if t[|t| - 1].Hole? {
        assert HoleNames(t)[|HoleNames(t)| - 1] == t[|t| - 1].name;
      }
      RenderReadsHoles(t[..|t| - 1], a, b);
    }
  }

  // ---- names are distinct ----

  // Two ways to fill the holes that differ in one hole only.
  ghost predicate DifferAt(t: Template, a: map<string, Value>, b: map<string, Value>, hole: string)
  {
    OneHoleDiffers(t, a, b, hole) && hole in HoleNames(t) && AsString(a[hole]) != AsString(b[hole])
  }

  function Occurrences(t: Template, hole: string): nat
  {
    if t == [] then 0
    else Occurrences(t[..|t| - 1], hole) + if t[|t| - 1] == Hole(hole) then 1 else 0
  }

  lemma {:induction false} OccursWhenNamed(t: Template, hole: string)
    ensures hole in HoleNames(t) <==> Occurrences(t, hole) > 0
  {
    if t != [] { OccursWhenNamed(t[..|t| - 1], hole); }
  }

  // Lengths differ by one hole's difference per occurrence; with equal lengths the
  // texts agree only if the hole's text does.
  function PartText(part: Part, vars: map<string, Value>): string
    requires part.Hole? ==> part.name in vars
  {
    match part case Literal(text) => text case Hole(n) => AsString(vars[n])
  }

  lemma RenderLast(t: Template, vars: map<string, Value>)
    requires t != [] && (t[|t| - 1].Hole? ==> t[|t| - 1].name in vars) && Render(t[..|t| - 1], vars).Ok?
    ensures Render(t, vars) == Ok(Render(t[..|t| - 1], vars).value + PartText(t[|t| - 1], vars))
  {
  }

  // The values that two fillings give to the holes of t differ in one hole only.
  predicate OneHoleDiffers(t: Template, a: map<string, Value>, b: map<string, Value>, hole: string)
  {
    && hole in a && hole in b
    && (forall n :: n in HoleNames(t) ==> n in a && n in b)
    && (forall n :: n in HoleNames(t) && n != hole ==> AsString(a[n]) == AsString(b[n]))
  }

  lemma OneHoleDiffersInFront(t: Template, a: map<string, Value>, b: map<string, Value>, hole: string)
    requires t != [] && OneHoleDiffers(t, a, b, hole)
    ensures OneHoleDiffers(t[..|t| - 1], a, b, hole)
    ensures var last := t[|t| - 1];
            last.Hole? ==> last.name in a && last.name in b &&
                           (last.name != hole ==> AsString(a[last.name]) == AsString(b[last.name]))
  {
    hide AsString;
    var front, last := t[..|t| - 1], t[|t| - 1];
    assert forall n :: n in HoleNames(front) ==> n in HoleNames(t);
    if last.Hole? { assert HoleNames(t)[|HoleNames(t)| - 1] == last.name; }
  }

  lemma {:induction false} RenderLengths(t: Template, a: map<string, Value>, b: map<string, Value>, hole: string)
    requires OneHoleDiffers(t, a, b, hole)
    ensures Render(t, a).Ok? && Render(t, b).Ok?
    ensures |Render(t, b).value| - |Render(t, a).value| ==
            Occurrences(t, hole) * (|AsString(b[hole])| - |AsString(a[hole])|)
  {
    hide AsString, HoleNames;
    if t != [] {
      OneHoleDiffersInFront(t, a, b, hole);
      RenderLengths(t[..|t| - 1], a, b, hole);
      OneMoreTimes(Occurrences(t[..|t| - 1], hole), |AsString(b[hole])| - |AsString(a[hole])|);
      RenderLast(t, a);
      RenderLast(t, b);
    }
  }

  lemma OneMoreTimes(n: nat, d: int)
    ensures (n + 1) * d == n * d + d
  {
  }

  lemma {:induction false} RenderDiffers(t: Template, a: map<string, Value>, b: map<string, Value>, hole: string)
    requires OneHoleDiffers(t, a, b, hole) && |AsString(a[hole])| == |AsString(b[hole])|
    requires Occurrences(t, hole) > 0 && Render(t, a) == Render(t, b)
    ensures AsString(a[hole]) == AsString(b[hole])
  {
    hide AsString, HoleNames, OneHoleDiffers;
    RenderLengths(t, a, b, hole);
    var front, last := t[..|t| - 1], t[|t| - 1];
    OneHoleDiffersInFront(t, a, b, hole);
    RenderLengths(front, a, b, hole);
    RenderLast(t, a);
    RenderLast(t, b);
    SplitsAlike(Render(front, a).value, PartText(last, a), Render(front, b).value, PartText(last, b));
    if Occurrences(front, hole) > 0 { RenderDiffers(front, a, b, hole); }
  }

  lemma SplitsAlike(p: string, x: string, q: string, y: string)
    requires |p| == |q| && p + x == q + y
    ensures p == q && x == y
  {
    assert p == (p + x)[..|p|] == (q + y)[..|q|] == q;
    assert x == (p + x)[|p|..] == (q + y)[|q|..] == y;
  }

  lemma DistinctHolesDistinctNames(t: Template, a: map<string, Value>, b: map<string, Value>, hole: string)
    requires DifferAt(t, a, b, hole)
    ensures Render(t, a).Ok? && Render(t, b).Ok? && Render(t, a) != Render(t, b)
  {
    RenderLengths(t, a, b, hole);
    OccursWhenNamed(t, hole);
    var d := |AsString(b[hole])| - |AsString(a[hole])|;
    if d != 0 {
      NonZeroProduct(Occurrences(t, hole), d);
    } else if Render(t, a) == Render(t, b) {
      RenderDiffers(t, a, b, hole);
    }
  }

  lemma NonZeroProduct(n: nat, d: int)
    requires n > 0 && d != 0
    ensures n * d != 0
  {
  }

  // ---- round trip ----

  predicate CannotOpenHole(text: string)
  {
    forall k :: 0 <= k < |text| ==> !HoleOpensAt(text, k)
  }

  // What ParseTemplate returns: named holes between non-empty, unbroken literals.
  predicate NormalPart(part: Part)
  {
    match part case Literal(s) => s != "" && CannotOpenHole(s) case Hole(n) => Identifier(n)
  }

  ghost predicate Normal(t: Template)
  {
    && (forall k :: 0 <= k < |t| ==> NormalPart(t[k]))
    && (forall j, k :: 0 <= j < k < |t| && k == j + 1 ==> t[j].Hole? || t[k].Hole?)
  }

  function Written(t: Template): string
  {
    if t == [] then ""
    else
      match t[0]
      case Literal(s) => s + Written(t[1..])
      case Hole(n) => "${" + n + "}" + Written(t[1..])
  }

  lemma TrimKeepsIdentifiers(n: string)
    requires Identifier(n)
    ensures Trim(n) == n
  {
  }

  lemma {:induction false} ClosingBraceAt(s: string, p: nat, q: nat)
    requires p <= q < |s| && s[q] == '}'
    requires forall k :: p <= k < q ==> s[k] != '{' && s[k] != '}'
    ensures ClosingBrace(s, p, 1) == Some(q)
    decreases q - p
  {
    if p < q { ClosingBraceAt(s, p + 1, q); }
  }

  // Scanning over literal text only moves it to the pending literal.
  lemma {:induction false} LiteralScanned(s: string, p: nat, q: nat, literal: string)
    requires p <= q <= |s| && forall k :: p <= k < q ==> !HoleOpensAt(s, k)
    ensures TemplateFrom(s, p, literal) == TemplateFrom(s, q, literal + s[p..q])
    decreases q - p
  {
    if p < q {
      LiteralScanned(s, p + 1, q, literal + [s[p]]);
      assert literal + [s[p]] + s[p + 1..q] == literal + s[p..q];
    } else {
      assert literal + s[p..q] == literal;
    }
  }

  ghost predicate ReadsBack(s: string, p: nat, literal: string, t: Template)
  {
    p <= |s| && TemplateFrom(s, p, literal) == Ok(Flushed(literal) + t)
  }

  lemma {:induction false} WrittenReadsBack(s: string, p: nat, t: Template, literal: string)
    requires Normal(t) && p <= |s| && s[p..] == Written(t)
    requires literal != "" && t != [] ==> t[0].Hole?
    ensures ReadsBack(s, p, literal, t)
    decreases |t|
  {
    hide HoleOpensAt, ClosingBrace, Trim, Lexing.Identifier, NormalPart;
    if t == [] {
      assert |s[p..]| == 0;
      assert Flushed(literal) + t == Flushed(literal);
    } else {
      NormalTail(t);
      if t[0].Hole? {
        var q := p + |t[0].name| + 3;
        HoleReadsBack(s, p, t[0].name, t[1..], literal);
        WrittenReadsBack(s, q, t[1..], "");
        AfterHole(s, p, t, literal);
      } else {
        var q := p + |t[0].text|;
        LiteralReadsBack(s, p, t);
        WrittenReadsBack(s, q, t[1..], t[0].text);
        AfterLiteral(s, p, t);
      }
    }
  }

  lemma AfterHole(s: string, p: nat, t: Template, literal: string)
    requires t != [] && t[0].Hole? && p <= |s|
    requires var q := p + |t[0].name| + 3;
             ReadsBack(s, q, "", t[1..]) &&
             TemplateFrom(s, p, literal) == Before(Flushed(literal) + [t[0]], TemplateFrom(s, q, ""))
    ensures ReadsBack(s, p, literal, t)
  {
    assert Flushed("") + t[1..] == t[1..];
    assert (Flushed(literal) + [t[0]]) + t[1..] == Flushed(literal) + t;
  }

  lemma AfterLiteral(s: string, p: nat, t: Template)
    requires t != [] && t[0].Literal? && t[0].text != "" && p <= |s|
    requires var q := p + |t[0].text|;
             ReadsBack(s, q, t[0].text, t[1..]) && TemplateFrom(s, p, "") == TemplateFrom(s, q, t[0].text)
    ensures ReadsBack(s, p, "", t)
  {
    assert Flushed(t[0].text) + t[1..] == t == Flushed("") + t;
  }

  lemma NormalTail(t: Template)
    requires Normal(t) && t != []
    ensures NormalPart(t[0]) && Normal(t[1..])
    ensures t[0].Literal? && |t| > 1 ==> t[1].Hole?
  {
  }

  lemma LiteralReadsBack(s: string, p: nat, t: Template)
    requires Normal(t) && t != [] && t[0].Literal? && p <= |s| && s[p..] == Written(t)
    ensures var q := p + |t[0].text|;
            q <= |s| && s[q..] == Written(t[1..]) && TemplateFrom(s, p, "") == TemplateFrom(s, q, t[0].text)
  {
    hide TemplateFrom, Normal;
    var text := t[0].text;
    var q := p + |text|;
    NormalTail(t);
    assert s[q..] == s[p..][|text|..] == Written(t[1..]);
    forall k | p <= k < q ensures !HoleOpensAt(s, k) {
      LiteralDoesNotOpen(s, p, text, t[1..], k - p);
    }
    LiteralScanned(s, p, q, "");
    assert "" + s[p..q] == s[p..][..|text|] == text;
  }

  lemma LiteralDoesNotOpen(s: string, p: nat, text: string, rest: Template, k: nat)
    requires CannotOpenHole(text) && p <= |s| && s[p..] == text + Written(rest) && k < |text|
    requires rest != [] ==> rest[0].Hole?
    ensures !HoleOpensAt(s, p + k)
  {
    assert s[p + k] == s[p..][k] == text[k];
    if k + 1 < |text| {
      assert s[p + k + 1] == s[p..][k + 1] == text[k + 1];
      assert !HoleOpensAt(text, k);
    } else if rest != [] {
      assert s[p + k + 1] == s[p..][|text|] == Written(rest)[0] == '$';
    } else {
      assert |s[p..]| == |text|;
    }
  }

  lemma HoleReadsBack(s: string, p: nat, n: string, rest: Template, literal: string)
    requires Identifier(n) && p <= |s| && s[p..] == "${" + n + "}" + Written(rest)
    ensures var q := p + |n| + 3;
            q <= |s| && s[q..] == Written(rest) &&
            TemplateFrom(s, p, literal) == Before(Flushed(literal) + [Hole(n)], TemplateFrom(s, q, ""))
  {
    hide TemplateFrom, Trim, ClosingBrace, Written;
    var w := "${" + n + "}" + Written(rest);
    var q := p + |n| + 3;
    assert w[0] == '$' && w[1] == '{' && w[|n| + 2] == '}';
    assert w[2..|n| + 2] == n && w[|n| + 3..] == Written(rest);
    RestAt(s, p, w, 0);
    RestAt(s, p, w, 1);
    RestAt(s, p, w, |n| + 2);
    RestSlices(s, p, w, 2, |n| + 2);
    RestSlices(s, p, w, 2, |n| + 3);
    forall k | p + 2 <= k < q - 1 ensures s[k] != '{' && s[k] != '}' {
      RestAt(s, p, w, k - p);
      assert w[k - p] == n[k - p - 2] && IsIdentChar(n[k - p - 2]);
    }
    ClosingBraceAt(s, p + 2, q - 1);
    TrimKeepsIdentifiers(n);
    HoleStep(s, p, q - 1, n, literal);
  }

  lemma HoleStep(s: string, p: nat, end: nat, n: string, literal: string)
    requires HoleOpensAt(s, p) && ClosingBrace(s, p + 2, 1) == Some(end)
    requires Trim(s[p + 2..end]) == n && Identifier(n)
    ensures TemplateFrom(s, p, literal) == Before(Flushed(literal) + [Hole(n)], TemplateFrom(s, end + 1, ""))
  {
    hide Trim, ClosingBrace;
  }

  lemma TemplateRoundTrip(t: Template)
    requires Normal(t)
    ensures TemplateFrom(Written(t), 0, "") == Ok(t)
  {
    assert Written(t)[0..] == Written(t);
    WrittenReadsBack(Written(t), 0, t, "");
    assert Flushed("") + t == t;
  }
}
