/** The two pieces of Go's strings package the suggested fix relies on:
    finding the first occurrence of a substring, and strings.Replace with a
    count of 1. */
module Strings {

  /** t occurs in s starting at position i. */
  predicate OccursAt(s: string, t: string, i: int)
  {
    0 <= i && i + |t| <= |s| && s[i..i + |t|] == t
  }

  /** strings.Index: the first position where t occurs in s, or -1. */
  function Index(s: string, t: string): (r: int)
    ensures r == -1 || OccursAt(s, t, r)
    ensures forall i :: 0 <= i < r ==> !OccursAt(s, t, i)
  {
    IndexFrom(s, t, 0)
  }

  /** The first position at or after k where t occurs in s, or -1. */
  function IndexFrom(s: string, t: string, k: nat): (r: int)
    decreases |s| + 1 - k
    ensures r == -1 || (k <= r && OccursAt(s, t, r))
    ensures forall i :: k <= i < r ==> !OccursAt(s, t, i)
  {
    if k > |s| then -1
    else if OccursAt(s, t, k) then k
    else IndexFrom(s, t, k + 1)
  }

  /** Index gives -1 exactly when t occurs nowhere in s. */
  lemma IndexAbsent(s: string, t: string)
    ensures Index(s, t) == -1 <==> forall i :: 0 <= i <= |s| ==> !OccursAt(s, t, i)
  {
    IndexFromAbsent(s, t, 0);
  }

  lemma {:induction false} IndexFromAbsent(s: string, t: string, k: nat)
    decreases |s| + 1 - k
    ensures IndexFrom(s, t, k) == -1 <==> forall i :: k <= i <= |s| ==> !OccursAt(s, t, i)
  {
    if k <= |s| && !OccursAt(s, t, k) {
      IndexFromAbsent(s, t, k + 1);
    }
  }

  /** A prefix that does not contain the first character of t only shifts
      the first occurrence of t. */
  lemma IndexSkipPlain(p: string, s: string, t: string)
    requires |t| > 0 && forall i :: 0 <= i < |p| ==> p[i] != t[0]
    ensures Index(p + s, t) == if Index(s, t) == -1 then -1 else |p| + Index(s, t)
  {
    var ps := p + s;
    forall j | 0 <= j
      ensures OccursAt(ps, t, j) <==> j >= |p| && OccursAt(s, t, j - |p|)
    {
      if j < |p| {
        assert ps[j] == p[j];
      } else if j + |t| <= |ps| {
        assert ps[j..j + |t|] == s[j - |p|..j - |p| + |t|];
      }
    }
    IndexAbsent(s, t);
    IndexAbsent(ps, t);
    var i := Index(s, t);
    if i >= 0 {
      assert OccursAt(ps, t, |p| + i);
    }
  }

  /** strings.Replace(s, from, to, 1): the first occurrence of from (if
      any) is replaced by to. An empty from matches at the start. */
  function ReplaceFirst(s: string, from: string, to: string): string
  {
    var i := Index(s, from);
    if i == -1 then s else s[..i] + to + s[i + |from|..]
  }
}
