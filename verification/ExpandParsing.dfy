// Model of ParseExpands, parseDeclRHS, validateFuncRefs and RequiredColumns in
// db/internal/dbsp/expr/expand.go.
module ExpandParsing {
  import opened Outcomes
  import opened Values
  import opened Syntax
  import opened Builtins
  import opened Sequences
  import opened Evaluation
  import opened Expansion
  import opened Templates
  import Lexing
  import TemplateTexts
  import Parsing
  import Sorting

  predicate StartsWith(s: string, prefix: string) { |prefix| <= |s| && s[..|prefix|] == prefix }

  predicate EndsWith(s: string, suffix: string) { |suffix| <= |s| && s[|s| - |suffix|..] == suffix }

  // The position of the first c at or after p; the length of s when there is none.
  function Find(s: string, c: char, p: nat): (q: nat)
    requires p <= |s|
    ensures p <= q <= |s| && (q < |s| ==> s[q] == c) && forall k :: p <= k < q ==> s[k] != c
    decreases |s| - p
  {
    if p == |s| || s[p] == c then p else Find(s, c, p + 1)
  }

  // strings.Split(s, ",")
  function Split(s: string): (parts: seq<string>)
    ensures parts != []
    decreases |s|
  {
    var q := Find(s, ',', 0);
    if q == |s| then [s] else [s[..q]] + Split(s[q + 1..])
  }

  // The trimmed parts that are not blank.
  function Listed(parts: seq<string>): (values: seq<string>)
    ensures forall k :: 0 <= k < |values| ==> values[k] != ""
  {
    if parts == [] then []
    else
      var front := Listed(parts[..|parts| - 1]);
      var last := Trim(parts[|parts| - 1]);
      if last == "" then front else front + [last]
  }

  // A declaration lists at least one value.
  predicate DeclOk(d: Decl)
  {
    match d
    case EnumDecl(_, values) => values != [] && forall k :: 0 <= k < |values| ==> values[k] != ""
    case RangeDecl(_, start, end) => start < end
  }

  lemma LongerThanOpening(rhs: string, opening: string)
    requires opening != "" && opening[|opening| - 1] == '('
    requires StartsWith(rhs, opening) && EndsWith(rhs, ")")
    ensures |opening| < |rhs|
  {
    assert rhs[|opening| - 1] == rhs[..|opening|][|opening| - 1];
    assert rhs[|rhs| - 1] == rhs[|rhs| - 1..][0];
  }

  function DeclOf(name: string, rhs: string): (r: Result<Decl>)
    ensures r.Ok? ==> DeclOk(r.value) && r.value.name == name
  {
    if StartsWith(rhs, "enum(") && EndsWith(rhs, ")") then
      LongerThanOpening(rhs, "enum(");
      var values := Listed(Split(rhs[5..|rhs| - 1]));
      if values == [] then Err(SyntaxError) else Ok(EnumDecl(name, values))
    else if StartsWith(rhs, "range(") && EndsWith(rhs, ")") then
      LongerThanOpening(rhs, "range(");
      var inner := rhs[6..|rhs| - 1];
      var comma := Find(inner, ',', 0);
      if comma == |inner| then Err(SyntaxError)
      else
        match ParseInt(Trim(inner[..comma]))
        case None => Err(SyntaxError)
        case Some(start) =>
          match ParseInt(Trim(inner[comma + 1..]))
          case None => Err(SyntaxError)
          case Some(end) => if start >= end then Err(SyntaxError) else Ok(RangeDecl(name, start, end))
    else Err(SyntaxError)
  }

  // ---- what a declaration text means ----

  predicate Lacks(s: string, c: char) { forall k :: 0 <= k < |s| ==> s[k] != c }

  function Joined(parts: seq<string>): string
    requires parts != []
  {
    if |parts| == 1 then parts[0] else parts[0] + "," + Joined(parts[1..])
  }

  predicate EnumText(rhs: string, parts: seq<string>)
  {
    && parts != [] && (forall k :: 0 <= k < |parts| ==> Lacks(parts[k], ','))
    && rhs == "enum(" + Joined(parts) + ")"
  }

  predicate RangeText(rhs: string, a: string, b: string)
  {
    Lacks(a, ',') && rhs == "range(" + a + "," + b + ")"
  }

  // The value is the part without the blanks at both ends.
  ghost predicate Trimmed(part: string, v: string)
  {
    TemplateTexts.Bare(v) && exists a, b :: TemplateTexts.Between(part, v, a, b)
  }

  // The values are those of the parts that are not blank, in order.
  ghost predicate ValuesOf(parts: seq<string>, values: seq<string>)
  {
    if parts == [] then values == []
    else
      var n, m := |parts| - 1, |values| - 1;
      if TemplateTexts.Blank(parts[n]) then ValuesOf(parts[..n], values)
      else values != [] && Trimmed(parts[n], values[m]) && ValuesOf(parts[..n], values[..m])
  }

  lemma {:induction false} ListedExactly(parts: seq<string>, values: seq<string>)
    ensures Listed(parts) == values <==> ValuesOf(parts, values)
  {
    hide Trim, Trimmed;
    if parts != [] {
      var n, m := |parts| - 1, |values| - 1;
      var last := Trim(parts[n]);
      BlankTrims(parts[n]);
      if last == "" {
        ListedExactly(parts[..n], values);
      } else if values != [] {
        TrimmedExactly(parts[n], values[m]);
        ListedExactly(parts[..n], values[..m]);
        assert values == values[..m] + [values[m]];
      }
    }
  }

  lemma TrimmedExactly(part: string, v: string)
    ensures Trim(part) == v <==> Trimmed(part, v)
  {
    TemplateTexts.TrimExactly(part, v);
  }

  lemma BlankTrims(part: string)
    ensures Trim(part) == "" <==> TemplateTexts.Blank(part)
  {
    hide Trim;
    TemplateTexts.TrimExactly(part, "");
    if TemplateTexts.Blank(part) { assert TemplateTexts.Between(part, "", part, ""); }
  }

  // The text lists the values between commas, blank ones left out; or it gives the two
  // bounds, the first below the second.
  ghost predicate DeclText(rhs: string, d: Decl)
  {
    match d
    case EnumDecl(_, values) => values != [] && exists parts :: EnumText(rhs, parts) && ValuesOf(parts, values)
    case RangeDecl(_, start, end) =>
      start < end &&
      exists a: string, b: string ::
        RangeText(rhs, a, b) && ParseInt(Trim(a)) == Some(start) && ParseInt(Trim(b)) == Some(end)
  }

  lemma FindFirst(s: string, c: char, q: nat)
    requires q <= |s| && Lacks(s[..q], c) && (q < |s| ==> s[q] == c)
    ensures Find(s, c, 0) == q
  {
    assert forall k :: 0 <= k < q ==> s[..q][k] == s[k];
  }

  lemma {:induction false} SplitJoins(s: string)
    ensures Joined(Split(s)) == s && forall k :: 0 <= k < |Split(s)| ==> Lacks(Split(s)[k], ',')
    decreases |s|
  {
    var q := Find(s, ',', 0);
    if q < |s| {
      SplitJoins(s[q + 1..]);
      assert Split(s)[1..] == Split(s[q + 1..]);
      assert s == s[..q] + "," + s[q + 1..];
    }
  }

  lemma {:induction false} JoinedSplits(parts: seq<string>)
    requires parts != [] && forall k :: 0 <= k < |parts| ==> Lacks(parts[k], ',')
    ensures Split(Joined(parts)) == parts
  {
    var s := Joined(parts);
    var q := |parts[0]|;
    assert s[..q] == parts[0];
    FindFirst(s, ',', q);
    if |parts| > 1 {
      assert s[q + 1..] == Joined(parts[1..]);
      JoinedSplits(parts[1..]);
    } else {
      assert [s] == parts;
    }
  }

  lemma Inside(opening: string, inner: string)
    ensures var rhs := opening + inner + ")";
            StartsWith(rhs, opening) && EndsWith(rhs, ")") && rhs[|opening|..|rhs| - 1] == inner
  {
  }

  lemma EnumMeans(name: string, rhs: string, values: seq<string>)
    ensures DeclOf(name, rhs) == Ok(EnumDecl(name, values)) <==> DeclText(rhs, EnumDecl(name, values))
  {
    hide Listed, Trim, Split, ValuesOf;
    if DeclOf(name, rhs) == Ok(EnumDecl(name, values)) {
      LongerThanOpening(rhs, "enum(");
      var inner := rhs[5..|rhs| - 1];
      SplitJoins(inner);
      assert rhs == "enum(" + inner + ")";
      ListedExactly(Split(inner), values);
      assert EnumText(rhs, Split(inner));
    }
    if DeclText(rhs, EnumDecl(name, values)) {
      var parts :| EnumText(rhs, parts) && ValuesOf(parts, values);
      ListedExactly(parts, values);
      Inside("enum(", Joined(parts));
      JoinedSplits(parts);
    }
  }

  lemma StartsOtherwise(s: string, prefix: string)
    requires s != "" && prefix != "" && s[0] != prefix[0]
    ensures !StartsWith(s, prefix)
  {
    assert |prefix| <= |s| ==> s[..|prefix|][0] == s[0];
  }

  lemma RangeHasText(name: string, rhs: string, start: int64, end: int64)
    requires DeclOf(name, rhs) == Ok(RangeDecl(name, start, end))
    ensures DeclText(rhs, RangeDecl(name, start, end))
  {
    hide Listed, Trim, Split, ParseInt;
    LongerThanOpening(rhs, "range(");
    var inner := rhs[6..|rhs| - 1];
    var comma := Find(inner, ',', 0);
    BetweenParentheses(rhs, "range(", inner, comma);
    assert RangeText(rhs, inner[..comma], inner[comma + 1..]);
  }

  lemma BetweenParentheses(rhs: string, opening: string, inner: string, comma: nat)
    requires |opening| < |rhs| && rhs[..|opening|] == opening && rhs[|rhs| - 1..] == ")"
    requires inner == rhs[|opening|..|rhs| - 1] && comma < |inner| && inner[comma] == ','
    ensures rhs == opening + inner[..comma] + "," + inner[comma + 1..] + ")"
  {
    assert rhs == rhs[..|opening|] + rhs[|opening|..|rhs| - 1] + rhs[|rhs| - 1..];
    assert inner == inner[..comma] + "," + inner[comma + 1..];
  }

  lemma RangeTextParts(rhs: string, a: string, b: string)
    requires RangeText(rhs, a, b)
    ensures !StartsWith(rhs, "enum(") && StartsWith(rhs, "range(") && EndsWith(rhs, ")") && 7 <= |rhs|
    ensures var inner := rhs[6..|rhs| - 1];
            Find(inner, ',', 0) == |a| < |inner| && inner[..|a|] == a && inner[|a| + 1..] == b
  {
    var inner := a + "," + b;
    assert rhs == "range(" + inner + ")";
    Inside("range(", inner);
    assert inner[..|a|] == a && inner[|a| + 1..] == b;
    FindFirst(inner, ',', |a|);
    StartsOtherwise(rhs, "enum(");
  }

  lemma RangeMeans(name: string, rhs: string, start: int64, end: int64)
    ensures DeclOf(name, rhs) == Ok(RangeDecl(name, start, end)) <==> DeclText(rhs, RangeDecl(name, start, end))
  {
    hide Listed, Trim, Split, ParseInt, Find, StartsWith, EndsWith, RangeText;
    if DeclOf(name, rhs) == Ok(RangeDecl(name, start, end)) {
      RangeHasText(name, rhs, start, end);
    }
    if DeclText(rhs, RangeDecl(name, start, end)) {
      var a: string, b: string :|
        RangeText(rhs, a, b) && ParseInt(Trim(a)) == Some(start) && ParseInt(Trim(b)) == Some(end);
      RangeTextParts(rhs, a, b);
    }
  }

  // A text is accepted as a declaration if and only if it is the text of one.
  lemma DeclOfExactly(name: string, rhs: string, d: Decl)
    ensures DeclOf(name, rhs) == Ok(d) <==> d.name == name && DeclText(rhs, d)
  {
    hide DeclOf, DeclText;
    match d
    case EnumDecl(n, values) => if n == name { EnumMeans(name, rhs, values); } else { OtherName(name, rhs, d); }
    case RangeDecl(n, start, end) =>
      if n == name { RangeMeans(name, rhs, start, end); } else { OtherName(name, rhs, d); }
  }

  lemma OtherName(name: string, rhs: string, d: Decl)
    requires d.name != name
    ensures DeclOf(name, rhs) != Ok(d)
  {
  }

  method ParseDeclRHS(name: string, rhs: string) returns (r: Result<Decl>)
    ensures r == DeclOf(name, rhs)
    ensures forall d :: r == Ok(d) <==> d.name == name && DeclText(rhs, d)
  {
    hide DeclText, ParseInt, Trim, Split;
    forall d ensures DeclOf(name, rhs) == Ok(d) <==> d.name == name && DeclText(rhs, d) {
      DeclOfExactly(name, rhs, d);
    }
    if StartsWith(rhs, "enum(") && EndsWith(rhs, ")") {
      LongerThanOpening(rhs, "enum(");
      var parts := Split(rhs[5..|rhs| - 1]);
      var values: seq<string> := [];
      for i := 0 to |parts|
        invariant values == Listed(parts[..i])
      {
        assert parts[..i + 1][..i] == parts[..i];
        var part := Trim(parts[i]);
        if part == "" { continue; }
        values := values + [part];
      }
      assert parts[..|parts|] == parts;
      if |values| == 0 { return Err(SyntaxError); }
      return Ok(EnumDecl(name, values));
    }
    if StartsWith(rhs, "range(") && EndsWith(rhs, ")") {
      LongerThanOpening(rhs, "range(");
      var inner := rhs[6..|rhs| - 1];
      var comma := Find(inner, ',', 0);
      if comma == |inner| { return Err(SyntaxError); }
      var start := ParseInt(Trim(inner[..comma]));
      if start.None? { return Err(SyntaxError); }
      var end := ParseInt(Trim(inner[comma + 1..]));
      if end.None? { return Err(SyntaxError); }
      if start.value >= end.value { return Err(SyntaxError); }
      return Ok(RangeDecl(name, start.value, end.value));
    }
    return Err(SyntaxError);
  }

  // ---- written declarations read back ----

  lemma TrimKeeps(s: string)
    requires s != "" ==> !Lexing.IsSpace(s[0]) && !Lexing.IsSpace(s[|s| - 1])
    ensures Trim(s) == s
  {
  }

  lemma TrimDropsBlank(s: string)
    ensures Trim(" " + s) == Trim(s)
  {
    assert (" " + s)[1..] == s;
  }

  lemma NumberText(v: int64)
    ensures Lacks(FormatInt(v), ',') && FormatInt(v) != "" && Trim(FormatInt(v)) == FormatInt(v)
  {
    var s := FormatInt(v);
    assert forall k :: 0 <= k < |s| ==> IsDigit(s[k]) || s[k] == '-';
    TrimKeeps(s);
  }

  lemma RangeReadsBack(name: string, start: int64, end: int64)
    requires start < end
    ensures DeclOf(name, "range(" + FormatInt(start) + ", " + FormatInt(end) + ")") == Ok(RangeDecl(name, start, end))
  {
    hide FormatInt, DeclOf, ParseInt, Trim;
    NumberText(start);
    NumberText(end);
    ParseFormat(start);
    ParseFormat(end);
    TrimDropsBlank(FormatInt(end));
    var rhs := "range(" + FormatInt(start) + ", " + FormatInt(end) + ")";
    assert rhs == "range(" + FormatInt(start) + "," + (" " + FormatInt(end)) + ")";
    assert RangeText(rhs, FormatInt(start), " " + FormatInt(end));
    RangeMeans(name, rhs, start, end);
  }

  // A value that a list can hold.
  predicate PlainValue(v: string) { v != "" && Lacks(v, ',') && Trim(v) == v }

  lemma {:induction false} PlainListed(values: seq<string>)
    requires forall k :: 0 <= k < |values| ==> PlainValue(values[k])
    ensures Listed(values) == values
  {
    if values != [] {
      PlainListed(values[..|values| - 1]);
      assert values == values[..|values| - 1] + [values[|values| - 1]];
    }
  }

  lemma EnumReadsBack(name: string, values: seq<string>)
    requires values != [] && forall k :: 0 <= k < |values| ==> PlainValue(values[k])
    ensures DeclOf(name, "enum(" + Joined(values) + ")") == Ok(EnumDecl(name, values))
  {
    hide DeclOf, Listed, Joined, ValuesOf;
    PlainListed(values);
    ListedExactly(values, values);
    assert EnumText("enum(" + Joined(values) + ")", values);
    EnumMeans(name, "enum(" + Joined(values) + ")", values);
  }

  // ---- one line ----

  datatype Item = Blank | Declares(decl: Decl) | Computes(compute: Compute)

  function ItemOf(raw: string): Result<Item>
  {
    var line := Trim(raw);
    if line == "" then Ok(Blank)
    else if !StartsWith(line, "${") then Err(SyntaxError)
    else
      var close := Find(line, '}', 0);
      if close == |line| then Err(SyntaxError)
      else
        assert line[0] == line[..2][0] == '$' && line[1] == line[..2][1] == '{';
        var name := Trim(line[2..close]);
        var rest := Trim(line[close + 1..]);
        if name == "" then Err(SyntaxError)
        else if StartsWith(rest, ":=") then
          match DeclOf(name, Trim(rest[2..])) case Err(x) => Err(x) case Ok(d) => Ok(Declares(d))
        else if StartsWith(rest, "=") then
          match Parsing.ParseText(Trim(rest[1..]))
          case None => Err(SyntaxError)
          case Some(e) => Ok(Computes(Compute(name, e)))
        else Err(SyntaxError)
  }

  // White space around a line does not matter; any other character does.
  lemma WhiteSpaceAround(c: char, raw: string)
    ensures c in {' ', '\t', '\n', '\U{000B}', '\U{000C}', '\r'} ==>
              ItemOf([c] + raw) == ItemOf(raw) && ItemOf(raw + [c]) == ItemOf(raw)
    ensures c !in {' ', '\t', '\n', '\U{000B}', '\U{000C}', '\r'} ==> ItemOf([c]) == Err(SyntaxError)
  {
    hide Find, DeclOf, Trim;
    if c in {' ', '\t', '\n', '\U{000B}', '\U{000C}', '\r'} {
      assert Lexing.IsSpace(c);
      TrimmedAround(c, raw);
    } else {
      assert [c] == "" + [c] + "" && TemplateTexts.Between([c], [c], "", "");
      TemplateTexts.TrimExactly([c], [c]);
    }
  }

  lemma TrimmedAround(c: char, raw: string)
    requires Lexing.IsSpace(c)
    ensures Trim([c] + raw) == Trim(raw) && Trim(raw + [c]) == Trim(raw)
  {
    hide Trim;
    TemplateTexts.TrimExactly(raw, Trim(raw));
    var a, b :| TemplateTexts.Between(raw, Trim(raw), a, b);
    assert [c] + raw == ([c] + a) + Trim(raw) + b && TemplateTexts.Between([c] + raw, Trim(raw), [c] + a, b);
    assert raw + [c] == a + Trim(raw) + (b + [c]) && TemplateTexts.Between(raw + [c], Trim(raw), a, b + [c]);
    TemplateTexts.TrimExactly([c] + raw, Trim(raw));
    TemplateTexts.TrimExactly(raw + [c], Trim(raw));
  }

  // The line defines the variable named between its braces.
  predicate NamedLine(raw: string, inner: string, rest: string)
  {
    Lacks(inner, '}') && Trim(raw) == "${" + inner + "}" + rest
  }

  predicate DeclaresBy(raw: string, inner: string, rest: string, rhs: string, name: string)
  {
    NamedLine(raw, inner, rest) && Trim(inner) == name != "" && Trim(rest) == ":=" + rhs
  }

  predicate ComputesBy(raw: string, inner: string, rest: string, rhs: string, name: string)
  {
    NamedLine(raw, inner, rest) && Trim(inner) == name != "" && Trim(rest) == "=" + rhs
  }

  // What a line means: nothing, "${name} := declaration" or "${name} = expression".
  ghost predicate LineText(raw: string, item: Item)
  {
    match item
    case Blank => Trim(raw) == ""
    case Declares(d) =>
      exists inner, rest, rhs :: DeclaresBy(raw, inner, rest, rhs, d.name) && DeclText(Trim(rhs), d)
    case Computes(c) =>
      exists inner, rest, rhs ::
        ComputesBy(raw, inner, rest, rhs, c.name) && Parsing.ParseText(Trim(rhs)) == Some(c.expr)
  }

  lemma NamedLineSplits(raw: string, inner: string, rest: string)
    requires NamedLine(raw, inner, rest)
    ensures var line := Trim(raw);
            && StartsWith(line, "${") && Find(line, '}', 0) == |inner| + 2 < |line|
            && line[2..|inner| + 2] == inner && line[|inner| + 3..] == rest
  {
    var line := Trim(raw);
    var head := line[..|inner| + 2];
    forall k | 0 <= k < |head| ensures head[k] != '}' {
      if k >= 2 { assert head[k] == inner[k - 2]; }
    }
    FindFirst(line, '}', |inner| + 2);
  }

  // An accepted line that is not blank is a named one.
  lemma ItemIsNamed(raw: string) returns (inner: string, rest: string)
    requires ItemOf(raw).Ok? && !ItemOf(raw).value.Blank?
    ensures NamedLine(raw, inner, rest)
  {
    hide DeclOf;
    var line := Trim(raw);
    var close := Find(line, '}', 0);
    hide Trim;
    assert line[0] == line[..2][0] == '$' && line[1] == line[..2][1] == '{';
    inner, rest := line[2..close], line[close + 1..];
    CutAtBrace(line, close);
  }

  lemma CutAtBrace(line: string, close: nat)
    requires StartsWith(line, "${") && 2 <= close < |line| && line[close] == '}'
    ensures line == "${" + line[2..close] + "}" + line[close + 1..]
  {
    assert line == line[..2] + line[2..close] + [line[close]] + line[close + 1..];
  }

  lemma ItemMeans(raw: string, item: Item)
    requires ItemOf(raw) == Ok(item)
    ensures LineText(raw, item)
  {
    hide Trim, DeclOf, DeclText, Find, NamedLine;
    if !item.Blank? {
      var inner, rest := ItemIsNamed(raw);
      NamedLineSplits(raw, inner, rest);
      var whole := Trim(rest);
      match item {
        case Declares(d) =>
          assert whole == ":=" + whole[2..];
          DeclOfExactly(Trim(inner), Trim(whole[2..]), d);
          assert DeclaresBy(raw, inner, rest, whole[2..], d.name);
        case Computes(c) =>
          assert whole == "=" + whole[1..];
          assert ComputesBy(raw, inner, rest, whole[1..], c.name);
      }
    }
  }

  lemma MeaningIsItem(raw: string, item: Item)
    requires LineText(raw, item)
    ensures ItemOf(raw) == Ok(item)
  {
    hide Trim, DeclOf, DeclText, Find, NamedLine;
    match item
    case Blank =>
    case Declares(d) =>
      var inner, rest, rhs :| DeclaresBy(raw, inner, rest, rhs, d.name) && DeclText(Trim(rhs), d);
      NamedLineSplits(raw, inner, rest);
      DeclOfExactly(d.name, Trim(rhs), d);
      assert (":=" + rhs)[..2] == ":=" && (":=" + rhs)[2..] == rhs;
    case Computes(c) =>
      var inner, rest, rhs :| ComputesBy(raw, inner, rest, rhs, c.name) && Parsing.ParseText(Trim(rhs)) == Some(c.expr);
      NamedLineSplits(raw, inner, rest);
      assert ("=" + rhs)[..1] == "=" && ("=" + rhs)[1..] == rhs && ("=" + rhs)[0] == '=';
      StartsOtherwise("=" + rhs, ":=");
  }

  // A line is accepted as an item if and only if it is the text of that item.
  method ParseLine(raw: string) returns (r: Result<Item>)
    ensures r == ItemOf(raw)
    ensures forall item :: r == Ok(item) <==> LineText(raw, item)
  {
    hide LineText, Trim, DeclText, DeclOf;
    forall item ensures ItemOf(raw) == Ok(item) <==> LineText(raw, item) {
      if ItemOf(raw) == Ok(item) { ItemMeans(raw, item); }
      if LineText(raw, item) { MeaningIsItem(raw, item); }
    }
    var line := Trim(raw);
    if line == "" { return Ok(Blank); }
    if !StartsWith(line, "${") { return Err(SyntaxError); }
    var close := Find(line, '}', 0);
    if close == |line| { return Err(SyntaxError); }
    assert line[0] == line[..2][0] == '$' && line[1] == line[..2][1] == '{';
    var name := Trim(line[2..close]);
    if name == "" { return Err(SyntaxError); }
    var rest := Trim(line[close + 1..]);
    if StartsWith(rest, ":=") {
      var d := ParseDeclRHS(name, Trim(rest[2..]));
      match d {
        case Err(x) => return Err(x);
        case Ok(decl) => return Ok(Declares(decl));
      }
    } else if StartsWith(rest, "=") {
      var e := Parsing.ParseExpressionString(Trim(rest[1..]));
      match e {
        case None => return Err(SyntaxError);
        case Some(expr) => return Ok(Computes(Compute(name, expr)));
      }
    } else {
      return Err(SyntaxError);
    }
  }

  // ---- all lines ----

  predicate LinesOk(raw: seq<string>) { forall k :: 0 <= k < |raw| ==> ItemOf(raw[k]).Ok? }

  function DeclsOf(raw: seq<string>): seq<Decl>
    requires LinesOk(raw)
  {
    if raw == [] then []
    else
      var front := DeclsOf(raw[..|raw| - 1]);
      match ItemOf(raw[|raw| - 1]).value case Declares(d) => front + [d] case _ => front
  }

  function ComputesOf(raw: seq<string>): seq<Compute>
    requires LinesOk(raw)
  {
    if raw == [] then []
    else
      var front := ComputesOf(raw[..|raw| - 1]);
      match ItemOf(raw[|raw| - 1]).value case Computes(c) => front + [c] case _ => front
  }

  // validateFuncRefs: every call names a known function.
  predicate CallsKnown(e: Expr)
    decreases e, 1
  {
    match e
    case BinaryOp(_, l, r) => CallsKnown(l) && CallsKnown(r)
    case FuncCall(f, args) => KnownFunction(f) && AllCallsKnown(args)
    case _ => true
  }

  predicate AllCallsKnown(es: seq<Expr>)
    decreases es, 0
  {
    es == [] || (CallsKnown(es[0]) && AllCallsKnown(es[1..]))
  }

  // What validation is worth: an accepted expression never fails for an unknown
  // function, and a rejected one has no value in any environment.
  lemma {:induction false} ValidationIsExact(e: Expr, env: Env)
    ensures CallsKnown(e) ==> Eval(e, env) != Err(UnknownFunction)
    ensures !CallsKnown(e) ==> Eval(e, env).Err?
    decreases e, 1
  {
    match e
    case BinaryOp(_, l, r) =>
      ValidationIsExact(l, env);
      ValidationIsExact(r, env);
    case FuncCall(f, args) =>
      AllValidationIsExact(args, env);
      if EvalAll(args, env).Ok? { UnknownFails(f, EvalAll(args, env).value); }
    case _ =>
  }

  lemma {:induction false} AllValidationIsExact(es: seq<Expr>, env: Env)
    ensures AllCallsKnown(es) ==> EvalAll(es, env) != Err(UnknownFunction)
    ensures !AllCallsKnown(es) ==> EvalAll(es, env).Err?
    decreases es, 0
  {
    if es != [] {
      ValidationIsExact(es[0], env);
      AllValidationIsExact(es[1..], env);
    }
  }

  lemma UnknownFails(f: string, args: seq<Value>)
    ensures Builtins.Apply(f, args) == Err(UnknownFunction) <==> !KnownFunction(f)
  {
    hide ParseInt, AsString, Fill, Mod, Quotient, Concat, Hash, Lower, Upper;
  }

  predicate DeclNamesDiffer(ds: seq<Decl>)
  {
    forall i, j :: 0 <= i < j < |ds| ==> ds[i].name != ds[j].name
  }

  predicate FunctionsKnown(cs: seq<Compute>) { forall k :: 0 <= k < |cs| ==> CallsKnown(cs[k].expr) }

  ghost predicate HasCycle(cs: seq<Compute>) { exists c: seq<nat> :: Cycle(cs, c) }

  // What a successful parse of the lines yields: their declarations in order, and
  // their computations sorted.
  ghost predicate ParsesTo(raw: seq<string>, expands: ExpandSet)
  {
    LinesOk(raw) && expands.decls == DeclsOf(raw) && SortedVersion(ComputesOf(raw), expands.computes)
  }

  // When the lines are accepted.
  ghost predicate Parses(raw: seq<string>)
  {
    && LinesOk(raw) && DeclNamesDiffer(DeclsOf(raw))
    && FunctionsKnown(ComputesOf(raw)) && !HasCycle(ComputesOf(raw))
  }

  lemma NoLines(raw: seq<string>)
    ensures LinesOk(raw[..0]) && DeclsOf(raw[..0]) == [] && ComputesOf(raw[..0]) == []
  {
  }

  lemma OneMoreLine(raw: seq<string>, i: nat)
    requires i < |raw| && LinesOk(raw[..i])
    ensures match ItemOf(raw[i])
            case Err(_) => !LinesOk(raw)
            case Ok(item) =>
              && LinesOk(raw[..i + 1])
              && DeclsOf(raw[..i + 1]) == DeclsOf(raw[..i]) + (if item.Declares? then [item.decl] else [])
              && ComputesOf(raw[..i + 1]) == ComputesOf(raw[..i]) + (if item.Computes? then [item.compute] else [])
  {
    hide ItemOf;
    assert raw[..i + 1][..i] == raw[..i];
  }

  method ParseExpands(raw: seq<string>) returns (r: Result<ExpandSet>)
    ensures r.Ok? ==> ParsesTo(raw, r.value)
    ensures r.Ok? <==> Parses(raw)
  {
    hide ItemOf, CallsKnown, Cycle, SortedVersion, LinesOk, DeclsOf, ComputesOf, LineText;
    NoLines(raw);
    var decls: seq<Decl> := [];
    var computes: seq<Compute> := [];
    for i := 0 to |raw|
      invariant LinesOk(raw[..i]) && decls == DeclsOf(raw[..i]) && computes == ComputesOf(raw[..i])
    {
      var item := ParseLine(raw[i]);
      OneMoreLine(raw, i);
      match item {
        case Err(x) => return Err(x);
        case Ok(Blank) =>
        case Ok(Declares(d)) => decls := decls + [d];
        case Ok(Computes(c)) => computes := computes + [c];
      }
    }
    assert raw[..|raw|] == raw;
    var seen: set<string> := {};
    for i := 0 to |decls|
      invariant DeclNamesDiffer(decls[..i])
      invariant forall n :: n in seen <==> exists k :: 0 <= k < i && decls[k].name == n
    {
      if decls[i].name in seen { return Err(DuplicateDeclaration); }
      seen := seen + {decls[i].name};
    }
    for i := 0 to |computes|
      invariant FunctionsKnown(computes[..i])
    {
      if !CallsKnown(computes[i].expr) { return Err(UnknownFunction); }
    }
    var sorted := Sorting.TopoSort(computes);
    match sorted {
      case Err(x) => return Err(x);
      case Ok(cs) => return Ok(ExpandSet(decls, cs));
    }
  }

  // ---- which columns the computations need ----

  function ColumnsOf(cs: seq<Compute>): seq<string>
  {
    if cs == [] then [] else ColumnsOf(cs[..|cs| - 1]) + ColRefs(cs[|cs| - 1].expr)
  }

  function RequiredColumns(cs: seq<Compute>): seq<string> { Distinct(ColumnsOf(cs)) }

  method AddColumns(refs: seq<string>, ghost before: seq<string>, cols0: seq<string>, seen0: set<string>)
      returns (cols: seq<string>, seen: set<string>)
    requires cols0 == Distinct(before) && seen0 == Elements(before)
    ensures cols == Distinct(before + refs) && seen == Elements(before + refs)
  {
    hide Distinct;
    cols, seen := cols0, seen0;
    assert before + refs[..0] == before;
    for j := 0 to |refs|
      invariant cols == Distinct(before + refs[..j]) && seen == Elements(before + refs[..j])
    {
      ghost var now := before + refs[..j];
      assert before + refs[..j + 1] == now + [refs[j]];
      DistinctSnoc(now, refs[j]);
      assert Elements(now + [refs[j]]) == Elements(now) + {refs[j]};
      if refs[j] !in seen {
        seen := seen + {refs[j]};
        cols := cols + [refs[j]];
      }
    }
    assert refs[..|refs|] == refs;
  }

  method CollectRequiredColumns(cs: seq<Compute>) returns (cols: seq<string>)
    ensures cols == RequiredColumns(cs)
  {
    var seen: set<string> := {};
    cols := [];
    for i := 0 to |cs|
      invariant cols == Distinct(ColumnsOf(cs[..i])) && seen == Elements(ColumnsOf(cs[..i]))
    {
      assert cs[..i + 1][..i] == cs[..i];
      cols, seen := AddColumns(ColRefs(cs[i].expr), ColumnsOf(cs[..i]), cols, seen);
    }
    assert cs[..|cs|] == cs;
  }

  lemma {:induction false} RequiredColumnsAreThoseRead(cs: seq<Compute>, c: string)
    ensures c in RequiredColumns(cs) <==> exists k :: 0 <= k < |cs| && c in ColRefs(cs[k].expr)
  {
    if cs != [] {
      var n := |cs| - 1;
      RequiredColumnsAreThoseRead(cs[..n], c);
      assert ColumnsOf(cs) == ColumnsOf(cs[..n]) + ColRefs(cs[n].expr);
      if c in ColRefs(cs[n].expr) {
        assert c in ColumnsOf(cs);
      }
      assert forall k :: 0 <= k < n ==> cs[..n][k] == cs[k];
    }
  }

  // ---- reordering lines ----

  lemma {:induction false} ComputesComeFromLines(raw: seq<string>, c: Compute)
    requires LinesOk(raw)
    ensures c in ComputesOf(raw) <==> exists k :: 0 <= k < |raw| && ItemOf(raw[k]) == Ok(Computes(c))
  {
    hide ItemOf;
    if raw != [] {
      var n := |raw| - 1;
      ComputesComeFromLines(raw[..n], c);
      assert forall k :: 0 <= k < n ==> raw[..n][k] == raw[k];
    }
  }

  lemma ReorderedLinesSameComputes(raw: seq<string>, other: seq<string>)
    requires multiset(raw) == multiset(other) && LinesOk(raw)
    ensures LinesOk(other) && forall c :: c in ComputesOf(raw) <==> c in ComputesOf(other)
  {
    hide ItemOf;
    forall k | 0 <= k < |other| ensures ItemOf(other[k]).Ok? {
      assert other[k] in multiset(other);
      assert other[k] in raw;
    }
    forall c ensures c in ComputesOf(raw) <==> c in ComputesOf(other) {
      ComputesComeFromLines(raw, c);
      ComputesComeFromLines(other, c);
      if c in ComputesOf(raw) {
        var k :| 0 <= k < |raw| && ItemOf(raw[k]) == Ok(Computes(c));
        assert raw[k] in multiset(raw) && raw[k] in other;
      }
      if c in ComputesOf(other) {
        var k :| 0 <= k < |other| && ItemOf(other[k]) == Ok(Computes(c));
        assert other[k] in multiset(other) && other[k] in raw;
      }
    }
  }
}
