// Small facts about sequences shared by the models.
module Sequences {
  // The elements of s, each once, in order of first occurrence.
  function Distinct<T(==,!new)>(s: seq<T>): (r: seq<T>)
    ensures forall x :: x in r <==> x in s
    ensures NoRepeats(r)
    ensures s != [] ==> r != [] && r[0] == s[0]
  {
    if s == [] then []
    else
      var n := |s| - 1;
      var r := Distinct(s[..n]);
      assert s == s[..n] + [s[n]];
      if s[n] in s[..n] then r else r + [s[n]]
  }

  predicate NoRepeats<T(==)>(s: seq<T>)
  {
    forall i, j :: 0 <= i < j < |s| ==> s[i] != s[j]
  }

  lemma DistinctSnoc<T(!new)>(s: seq<T>, x: T)
    ensures Distinct(s + [x]) == if x in s then Distinct(s) else Distinct(s) + [x]
  {
    assert (s + [x])[..|s|] == s;
  }

  lemma PrefixSnoc<T>(s: seq<T>, k: nat)
    requires k < |s|
    ensures s[..k + 1] == s[..k] + [s[k]]
  {
  }

  // What w says of s from p on.
  lemma RestAt<T>(s: seq<T>, p: nat, w: seq<T>, k: nat)
    requires p <= |s| && s[p..] == w && k < |w|
    ensures p + k < |s| && s[p + k] == w[k]
  {
  }

  lemma RestSlices<T>(s: seq<T>, p: nat, w: seq<T>, i: nat, j: nat)
    requires p <= |s| && s[p..] == w && i <= j <= |w|
    ensures p + j <= |s| && s[p + i..p + j] == w[i..j] && s[p + j..] == w[j..]
  {
    assert |s[p + i..p + j]| == j - i == |w[i..j]|;
    assert |s[p + j..]| == |w| - j == |w[j..]|;
    forall k | 0 <= k < j - i ensures s[p + i..p + j][k] == w[i..j][k] { RestAt(s, p, w, i + k); }
    forall k | 0 <= k < |w| - j ensures s[p + j..][k] == w[j..][k] { RestAt(s, p, w, j + k); }
  }

  // Two maps agree on a set of keys.
  predicate Agree<K(!new), V(==)>(keys: set<K>, m: map<K, V>, n: map<K, V>)
  {
    forall k :: k in keys ==> (k in m <==> k in n) && (k in m && k in n ==> m[k] == n[k])
  }

  function Elements<T>(s: seq<T>): set<T> { set x | x in s }

  lemma {:induction false} OnceEach<T>(s: seq<T>, x: T)
    requires NoRepeats(s)
    ensures multiset(s)[x] == if x in s then 1 else 0
  {
    if s != [] {
      var front := s[..|s| - 1];
      assert s == front + [s[|s| - 1]];
      OnceEach(front, x);
    }
  }

  lemma SameElementsSameMultiset<T(!new)>(a: seq<T>, b: seq<T>)
    requires NoRepeats(a) && NoRepeats(b) && forall x :: x in a <==> x in b
    ensures multiset(a) == multiset(b)
  {
    forall x: T ensures multiset(a)[x] == multiset(b)[x] {
      OnceEach(a, x);
      OnceEach(b, x);
    }
  }
}
