/** Sequence helpers: Python's filtering comprehension, flattening, occurrence counts and searches. */
module Seqs {

  /** `[x for x in s if p(x)]` */
  function Filter<T>(p: T -> bool, s: seq<T>): (r: seq<T>)
    ensures |r| <= |s|
    ensures forall i :: 0 <= i < |r| ==> r[i] in s && p(r[i])
    ensures forall i :: 0 <= i < |s| && p(s[i]) ==> s[i] in r
  {
    if s == [] then [] else (if p(s[0]) then [s[0]] else []) + Filter(p, s[1..])
  }

  /** Filtering is stable: it works piece by piece and keeps the order of what it keeps. */
  lemma {:induction false} FilterAppend<T>(p: T -> bool, a: seq<T>, b: seq<T>)
    ensures Filter(p, a + b) == Filter(p, a) + Filter(p, b)
  {
    if a == [] {
      assert a + b == b;
    } else {
      assert (a + b)[1..] == a[1..] + b;
      FilterAppend(p, a[1..], b);
    }
  }

  /** Each element replaced by a sequence, the pieces concatenated in order. */
  function FlatMap<T, U>(f: T -> seq<U>, s: seq<T>): seq<U> {
    if s == [] then [] else f(s[0]) + FlatMap(f, s[1..])
  }

  /** Flattening works piece by piece. */
  lemma {:induction false} FlatMapAppend<T, U>(f: T -> seq<U>, a: seq<T>, b: seq<T>)
    ensures FlatMap(f, a + b) == FlatMap(f, a) + FlatMap(f, b)
  {
    if a == [] {
      assert a + b == b;
    } else {
      assert (a + b)[1..] == a[1..] + b;
      FlatMapAppend(f, a[1..], b);
    }
  }

  /** A relation between every earlier and every later element survives filtering. */
  lemma {:induction false} FilterKeepsOrder<T>(p: T -> bool, s: seq<T>, R: (T, T) -> bool)
    requires forall i, j :: 0 <= i < j < |s| ==> R(s[i], s[j])
    ensures forall i, j :: 0 <= i < j < |Filter(p, s)| ==> R(Filter(p, s)[i], Filter(p, s)[j])
  {
    if s != [] {
      var t := s[1..];
      assert forall i, j :: 0 <= i < j < |t| ==> R(t[i], t[j]) by {
        forall i, j | 0 <= i < j < |t| ensures R(t[i], t[j]) {
          assert t[i] == s[i + 1] && t[j] == s[j + 1];
        }
      }
      FilterKeepsOrder(p, t, R);
      var rt := Filter(p, t);
      forall i | 0 <= i < |rt| ensures R(s[0], rt[i]) {
        var k :| 0 <= k < |t| && t[k] == rt[i];
        assert s[k + 1] == rt[i];
      }
    }
  }

  /** `s.count(x)` */
  function Count<T(==)>(s: seq<T>, x: T): (n: nat)
    ensures n <= |s|
    ensures n == 0 <==> x !in s
  {
    if s == [] then 0 else Count(s[..|s| - 1], x) + (if s[|s| - 1] == x then 1 else 0)
  }

  predicate Distinct<T(==)>(s: seq<T>) {
    forall i, j :: 0 <= i < j < |s| ==> s[i] != s[j]
  }

  /** Index of the last element of `s` satisfying `p`, or -1 when none does: who wins a last-writer-wins dict. */
  function LastWhere<T>(p: T -> bool, s: seq<T>): (r: int)
    ensures -1 <= r < |s|
    ensures r >= 0 ==> p(s[r])
    ensures forall j :: r < j < |s| ==> !p(s[j])
  {
    if s == [] then -1
    else if p(s[|s| - 1]) then |s| - 1
    else
      var init := s[..|s| - 1];
      assert forall j :: 0 <= j < |init| ==> init[j] == s[j];
      LastWhere(p, init)
  }

  /** One more element is the last match when it matches; otherwise the last match stays. */
  lemma LastWhereSnoc<T>(p: T -> bool, s: seq<T>, x: T)
    ensures LastWhere(p, s + [x]) == if p(x) then |s| else LastWhere(p, s)
  {
    assert (s + [x])[..|s|] == s;
  }
}
