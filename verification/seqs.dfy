/**
 Order-preserving operations on sequences. They model the Kotlin collection
 functions the advisor run relies on: `flatMap`, `filter`, `find`, and the
 insertion-ordered `LinkedHashSet` behind `mutableSetOf()` that is used for
 de-duplication. Every recursive definition except the two searches
 `IndexOfFirst` and `IndexOf` peels the LAST element, so each one is a left
 fold that visits the elements front to back, as Kotlin does; the searches
 recurse on the tail and so also examine elements front to back.
 */
module Seqs {

  /** No element of `s` occurs twice. */
  predicate Distinct<T(==)>(s: seq<T>) {
    forall i, j | 0 <= i < j < |s| :: s[i] != s[j]
  }

  /** `a` is obtained from `b` by deleting elements and keeping the rest in order. */
  ghost predicate IsSubsequence<T>(a: seq<T>, b: seq<T>)
    decreases |b|
  {
    if |a| == 0 then true
    else if |b| == 0 then false
    else if a[|a| - 1] == b[|b| - 1] then IsSubsequence(a[..|a| - 1], b[..|b| - 1])
    else IsSubsequence(a, b[..|b| - 1])
  }

  /** Appending an element to the larger sequence keeps a subsequence a subsequence. */
  lemma {:induction false} SubsequenceExtend<T>(a: seq<T>, b: seq<T>, x: T)
    requires IsSubsequence(a, b)
    ensures IsSubsequence(a, b + [x])
    decreases |b|, 1
  {
    var b' := b + [x];
    assert b'[..|b'| - 1] == b;
    if |a| > 0 && a[|a| - 1] == x {
      SubsequenceDropLast(a, b);
    }
  }

  /** Appending the same element to both sides keeps a subsequence a subsequence. */
  lemma {:induction false} SubsequenceSnoc<T>(a: seq<T>, b: seq<T>, x: T)
    requires IsSubsequence(a, b)
    ensures IsSubsequence(a + [x], b + [x])
  {
    assert (a + [x])[..|a|] == a && (b + [x])[..|b|] == b;
  }

  /** Dropping the last element of a subsequence keeps it a subsequence. */
  lemma {:induction false} SubsequenceDropLast<T>(a: seq<T>, b: seq<T>)
    requires |a| > 0 && IsSubsequence(a, b)
    ensures IsSubsequence(a[..|a| - 1], b)
    decreases |b|, 0
  {
    var b0 := b[..|b| - 1];
    assert b0 + [b[|b| - 1]] == b;
    if a[|a| - 1] == b[|b| - 1] {
      SubsequenceExtend(a[..|a| - 1], b0, b[|b| - 1]);
    } else {
      SubsequenceDropLast(a, b0);
      SubsequenceExtend(a[..|a| - 1], b0, b[|b| - 1]);
    }
  }

  /** The sum of `|f(x)|` over the elements `x` of `s`. */
  function TotalLength<T, U>(s: seq<T>, f: T -> seq<U>): nat
    decreases |s|
  {
    if |s| == 0 then 0 else TotalLength(s[..|s| - 1], f) + |f(s[|s| - 1])|
  }

  /** Kotlin's `flatMap`: the in-order concatenation of `f` applied to every element. */
  function FlatMap<T, U(==,!new)>(s: seq<T>, f: T -> seq<U>): (r: seq<U>)
    ensures |r| == TotalLength(s, f)
    ensures forall u {:trigger u in r} :: u in r <==> exists i | 0 <= i < |s| :: u in f(s[i])
    decreases |s|
  {
    if |s| == 0 then []
    else
      var front := FlatMap(s[..|s| - 1], f);
      assert forall i | 0 <= i < |s| - 1 :: s[..|s| - 1][i] == s[i];
      front + f(s[|s| - 1])
  }

  /** `FlatMap` distributes over concatenation: each element's part appears
      verbatim and in place, with nothing merged or dropped. */
  lemma {:induction false} FlatMapAppend<T, U(!new)>(a: seq<T>, b: seq<T>, f: T -> seq<U>)
    ensures FlatMap(a + b, f) == FlatMap(a, f) + FlatMap(b, f)
    decreases |b|
  {
    if |b| == 0 {
      assert a + b == a;
    } else {
      var b0 := b[..|b| - 1];
      assert (a + b)[..|a + b| - 1] == a + b0;
      FlatMapAppend(a, b0, f);
    }
  }

  /** Kotlin's `filter`: the elements satisfying `p`, in their original order. */
  function Filter<T(==,!new)>(s: seq<T>, p: T -> bool): (r: seq<T>)
    ensures |r| <= |s|
    ensures forall x {:trigger x in r} :: x in r <==> x in s && p(x)
    decreases |s|
  {
    if |s| == 0 then []
    else
      var s0 := s[..|s| - 1];
      var last := s[|s| - 1];
      var front := Filter(s0, p);
      assert s0 + [last] == s;
      if p(last) then front + [last] else front
  }

  /** `Filter` keeps the order of the elements it keeps. */
  lemma {:induction false} FilterIsSubsequence<T(!new)>(s: seq<T>, p: T -> bool)
    ensures IsSubsequence(Filter(s, p), s)
    decreases |s|
  {
    if |s| > 0 {
      var s0 := s[..|s| - 1];
      var last := s[|s| - 1];
      FilterIsSubsequence(s0, p);
      FilterSnoc(s0, last, p);
      assert s0 + [last] == s;
      if p(last) {
        SubsequenceSnoc(Filter(s0, p), s0, last);
      } else {
        SubsequenceExtend(Filter(s0, p), s0, last);
      }
    }
  }

  /** Filtering one more element appends it exactly when it passes. */
  lemma {:induction false} FilterSnoc<T(!new)>(s: seq<T>, x: T, p: T -> bool)
    ensures Filter(s + [x], p) == Filter(s, p) + (if p(x) then [x] else [])
  {
    assert (s + [x])[..|s|] == s;
  }

  /** Filtering keeps every occurrence of a passing element and none of the others. */
  lemma {:induction false} FilterCount<T(!new)>(s: seq<T>, p: T -> bool, x: T)
    ensures multiset(Filter(s, p))[x] == if p(x) then multiset(s)[x] else 0
    decreases |s|
  {
    if |s| > 0 {
      var s0 := s[..|s| - 1];
      FilterCount(s0, p, x);
      FilterSnoc(s0, s[|s| - 1], p);
      assert s0 + [s[|s| - 1]] == s;
    }
  }

  /** Filtering a sequence whose elements all pass returns it unchanged. */
  lemma {:induction false} FilterAllPass<T(!new)>(s: seq<T>, p: T -> bool)
    requires forall x | x in s :: p(x)
    ensures Filter(s, p) == s
    decreases |s|
  {
    if |s| > 0 {
      FilterAllPass(s[..|s| - 1], p);
      assert s[..|s| - 1] + [s[|s| - 1]] == s;
    }
  }

  /** Filtering twice with the same predicate is the same as filtering once. */
  lemma {:induction false} FilterIdempotent<T(!new)>(s: seq<T>, p: T -> bool)
    ensures Filter(Filter(s, p), p) == Filter(s, p)
  {
    FilterAllPass(Filter(s, p), p);
  }

  /** The result is empty exactly when no element passes. */
  lemma {:induction false} FilterEmpty<T(!new)>(s: seq<T>, p: T -> bool)
    ensures |Filter(s, p)| == 0 <==> forall x | x in s :: !p(x)
  {
    var r := Filter(s, p);
    if |r| > 0 {
      assert r[0] in r;
    } else {
      forall x | x in s ensures !p(x) {
        assert x !in r;
      }
    }
  }

  /** Kotlin's `indexOfFirst`, with `|s|` in place of -1 when no element matches. */
  function IndexOfFirst<T>(s: seq<T>, p: T -> bool): (k: nat)
    ensures k <= |s|
    ensures k < |s| ==> p(s[k])
    ensures forall j | 0 <= j < k :: !p(s[j])
    decreases |s|
  {
    if |s| == 0 then 0
    else if p(s[0]) then 0
    else 1 + IndexOfFirst(s[1..], p)
  }

  /** Position of the first occurrence of `x` in `s`. */
  function IndexOf<T(==)>(s: seq<T>, x: T): (k: nat)
    requires x in s
    ensures k < |s| && s[k] == x
    ensures forall j | 0 <= j < k :: s[j] != x
    decreases |s|
  {
    if s[0] == x then 0 else 1 + IndexOf(s[1..], x)
  }

  /** The elements of `s` in first-seen order, each once: a `LinkedHashSet`
      filled from `s` and turned back into a list. */
  function Dedup<T(==,!new)>(s: seq<T>): (r: seq<T>)
    ensures Distinct(r)
    ensures forall x :: x in r <==> x in s
    ensures |r| <= |s|
    decreases |s|
  {
    if |s| == 0 then []
    else
      var s0 := s[..|s| - 1];
      var last := s[|s| - 1];
      var front := Dedup(s0);
      assert s0 + [last] == s;
      if last in front then front else front + [last]
  }

  /** `Dedup` keeps the order of the elements it keeps. */
  lemma {:induction false} DedupIsSubsequence<T(!new)>(s: seq<T>)
    ensures IsSubsequence(Dedup(s), s)
    decreases |s|
  {
    if |s| > 0 {
      var s0 := s[..|s| - 1];
      var last := s[|s| - 1];
      var d0 := Dedup(s0);
      DedupIsSubsequence(s0);
      DedupSnoc(s0, last);
      assert s0 + [last] == s;
      if last in s0 {
        assert Dedup(s) == d0;
        SubsequenceExtend(d0, s0, last);
      } else {
        assert Dedup(s) == d0 + [last];
        SubsequenceSnoc(d0, s0, last);
      }
    }
  }

  /** De-duplicating one more element appends it exactly when it is new. */
  lemma {:induction false} DedupSnoc<T(!new)>(s: seq<T>, x: T)
    ensures Dedup(s + [x]) == if x in s then Dedup(s) else Dedup(s) + [x]
  {
    assert (s + [x])[..|s|] == s;
  }

  /** Appending elements that were already seen changes nothing. */
  lemma {:induction false} DedupAbsorb<T(!new)>(s: seq<T>, t: seq<T>)
    requires forall x | x in t :: x in s
    ensures Dedup(s + t) == Dedup(s)
    decreases |t|
  {
    if |t| > 0 {
      var t0 := t[..|t| - 1];
      DedupAbsorb(s, t0);
      assert s + t == (s + t0) + [t[|t| - 1]];
      var x := t[|t| - 1];
      assert x in t;
      assert x in s + t0;
      DedupSnoc(s + t0, x);
      assert Dedup(s + t) == Dedup((s + t0) + [x]) == Dedup(s + t0);
    } else {
      assert s + t == s;
    }
  }

  /** De-duplicating a sequence without duplicates returns it unchanged. */
  lemma {:induction false} DedupOfDistinct<T(!new)>(s: seq<T>)
    requires Distinct(s)
    ensures Dedup(s) == s
    decreases |s|
  {
    if |s| > 0 {
      var s0 := s[..|s| - 1];
      assert Distinct(s0);
      DedupOfDistinct(s0);
      assert s[|s| - 1] !in s0;
      assert s0 + [s[|s| - 1]] == s;
    }
  }

  /** `Dedup` lists the elements in the order of their first occurrence. */
  lemma {:induction false} DedupKeepsFirstSeenOrder<T(!new)>(s: seq<T>)
    ensures forall i, j | 0 <= i < j < |Dedup(s)| :: IndexOf(s, Dedup(s)[i]) < IndexOf(s, Dedup(s)[j])
    decreases |s|
  {
    if |s| > 0 {
      var s0 := s[..|s| - 1];
      var last := s[|s| - 1];
      var d0, d := Dedup(s0), Dedup(s);
      assert s0 + [last] == s;
      DedupKeepsFirstSeenOrder(s0);
      IndexOfAppend(s0, last);
      forall i, j | 0 <= i < j < |d|
        ensures IndexOf(s, d[i]) < IndexOf(s, d[j])
      {
        assert d[i] in d0;
        if j < |d0| {
          assert d[j] == d0[j] && d[i] == d0[i];
        } else {
          assert d[j] == last && last !in s0;
        }
      }
    }
  }

  /** Appending an element leaves the first occurrences of the old elements where
      they were and puts a new element at the end. */
  lemma {:induction false} IndexOfAppend<T>(s: seq<T>, x: T)
    ensures forall y | y in s :: IndexOf(s + [x], y) == IndexOf(s, y)
    ensures x !in s ==> IndexOf(s + [x], x) == |s|
    decreases |s|
  {
    if |s| > 0 {
      IndexOfAppend(s[1..], x);
      assert (s + [x])[1..] == s[1..] + [x];
    }
  }
}
