/** Concatenations and parts of sequences. */
module Sequences {
  lemma Regroup<T>(a: seq<T>, b: seq<T>, c: seq<T>)
    ensures (a + b) + c == a + (b + c)
  {}

  /** e stands in s at position p. */
  ghost predicate Stands<T>(s: seq<T>, p: nat, e: seq<T>) {
    p + |e| <= |s| && s[p..p + |e|] == e
  }

  lemma StandsParts<T>(s: seq<T>, p: nat, a: seq<T>, b: seq<T>)
    requires Stands(s, p, a + b)
    ensures Stands(s, p, a) && Stands(s, p + |a|, b)
  {
    var e := s[p..p + |a| + |b|];
    assert e == a + b;
    assert e[..|a|] == a && e[|a|..] == b;
  }

  lemma StandsAt<T>(s: seq<T>, p: nat, e: seq<T>, i: nat)
    requires Stands(s, p, e) && i < |e|
    ensures s[p + i] == e[i]
  {
    assert s[p..p + |e|][i] == s[p + i];
  }
}
