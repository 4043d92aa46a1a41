// What the built-in functions over text return (db/internal/dbsp/expr/functions.go),
// and which calls fail.
module TextFunctions {
  import opened Outcomes
  import opened Values
  import opened Syntax
  import opened Builtins
  import opened Sequences

  // ---- which calls fail, whatever the arguments ----

  predicate RightCount(name: string, n: nat)
  {
    if name == "concat" then n >= 2 else if name in {"fill", "mod", "div"} then n == 2 else n == 1
  }

  lemma CallsFailExactly(name: string, args: seq<Value>)
    ensures Apply(name, args) == Err(UnknownFunction) <==>
            name !in {"fill", "str", "hash", "mod", "div", "lower", "upper", "concat"}
    ensures Apply(name, args) == Err(WrongArity) <==>
            name in {"fill", "str", "hash", "mod", "div", "lower", "upper", "concat"} && !RightCount(name, |args|)
  {
    hide ParseInt, AsString, Fill, Mod, Quotient, Concat, Hash, Lower, Upper;
  }

  // Text functions accept every value.
  lemma TextCallsSucceed(name: string, args: seq<Value>)
    requires name in {"str", "hash", "lower", "upper", "concat"} && RightCount(name, |args|)
    ensures Apply(name, args).Ok?
  {
    hide AsInt, AsString, Concat, Hash, Lower, Upper;
  }

  // ---- str ----

  // str gives text that stands for the same value wherever it is read, as text or as a
  // number.
  lemma StrReadsAlike(v: Value)
    ensures Apply("str", [v]).Ok? && Apply("str", [v]).value.StrValue?
    ensures AsString(Apply("str", [v]).value) == AsString(v) && AsInt(Apply("str", [v]).value) == AsInt(v)
  {
    if v.IntValue? { ParseFormat(v.i); }
  }

  // ---- lower and upper ----

  // The same character, or the two forms of one letter.
  predicate SameLetter(c: char, d: char)
  {
    || c == d
    || ('a' <= c <= 'z' && 'A' <= d <= 'Z' && c - 'a' == d - 'A')
    || ('A' <= c <= 'Z' && 'a' <= d <= 'z' && c - 'A' == d - 'a')
  }

  predicate EqualFold(s: string, t: string)
  {
    |s| == |t| && forall k :: 0 <= k < |s| ==> SameLetter(s[k], t[k])
  }

  predicate NoneIn(s: string, from: char, to: char) { forall k :: 0 <= k < |s| ==> !(from <= s[k] <= to) }

  // The only text without upper-case letters that differs from s in case at most.
  lemma LowerExactly(s: string, t: string)
    ensures t == Lower(s) <==> EqualFold(s, t) && NoneIn(t, 'A', 'Z')
  {
    if EqualFold(s, t) && NoneIn(t, 'A', 'Z') {
      forall k | 0 <= k < |s| ensures t[k] == Lower(s)[k] {
        assert SameLetter(s[k], t[k]);
      }
    }
  }

  lemma UpperExactly(s: string, t: string)
    ensures t == Upper(s) <==> EqualFold(s, t) && NoneIn(t, 'a', 'z')
  {
    if EqualFold(s, t) && NoneIn(t, 'a', 'z') {
      forall k | 0 <= k < |s| ensures t[k] == Upper(s)[k] {
        assert SameLetter(s[k], t[k]);
      }
    }
  }

  // The calls lower and upper.
  lemma CaseCalls(v: Value, t: string)
    ensures Apply("lower", [v]) == Ok(StrValue(t)) <==> EqualFold(AsString(v), t) && NoneIn(t, 'A', 'Z')
    ensures Apply("upper", [v]) == Ok(StrValue(t)) <==> EqualFold(AsString(v), t) && NoneIn(t, 'a', 'z')
  {
    hide AsString, Lower, Upper, EqualFold;
    LowerExactly(AsString(v), t);
    UpperExactly(AsString(v), t);
  }

  // ---- concat ----

  // The argument list can be cut anywhere; of two arguments the first comes first.
  lemma {:induction false} ConcatCuts(a: seq<Value>, b: seq<Value>)
    ensures Concat(a + b) == Concat(a) + Concat(b)
  {
    if a != [] {
      assert (a + b)[1..] == a[1..] + b;
      ConcatCuts(a[1..], b);
    } else {
      assert a + b == b;
    }
  }

  lemma ConcatCalls(args: seq<Value>, v: Value, w: Value)
    ensures Apply("concat", [v, w]) == Ok(StrValue(AsString(v) + AsString(w)))
    ensures |args| >= 2 ==>
            Apply("concat", args).Ok? && Apply("concat", args + [v]).Ok? &&
            AsString(Apply("concat", args + [v]).value) == AsString(Apply("concat", args).value) + AsString(v)
  {
    hide AsString;
    OneArgument(v);
    OneArgument(w);
    assert [v, w] == [v] + [w];
    ConcatCuts([v], [w]);
    ConcatCuts(args, [v]);
    if |args| >= 2 { StrOfText(Concat(args)); StrOfText(Concat(args + [v])); }
  }

  lemma OneArgument(v: Value)
    ensures Concat([v]) == AsString(v)
  {
    assert [v][1..] == [];
  }

  lemma StrOfText(s: string)
    ensures AsString(StrValue(s)) == s
  {
  }
}
