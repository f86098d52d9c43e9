/** Small facts about splitting and joining sequences, kept apart so that each
    is proved in a context of its own. */
module Seqs {
  /** A sequence is its prefix followed by the matching suffix. */
  lemma TakeDrop<T>(s: seq<T>, n: int)
    requires 0 <= n <= |s|
    ensures s[..n] + s[n..] == s
  {
  }

  /** A non-empty sequence is its head followed by its tail. */
  lemma HeadTail<T>(s: seq<T>)
    requires s != []
    ensures [s[0]] + s[1..] == s
  {
  }

  /** A non-empty sequence is its front followed by its last element. */
  lemma FrontLast<T>(s: seq<T>)
    requires s != []
    ensures s[..|s| - 1] + [s[|s| - 1]] == s
  {
  }

  /** Splitting the front of a concatenation. */
  lemma TakeDropAppend<T>(s: seq<T>, n: int, x: seq<T>)
    requires 0 <= n <= |s|
    ensures s[..n] + (s[n..] + x) == s + x
  {
    TakeDrop(s, n);
  }

  lemma EmptyAppend<T>(s: seq<T>)
    ensures [] + s == s && s + [] == s
  {
  }

  lemma AppendAssoc<T>(a: seq<T>, b: seq<T>, c: seq<T>)
    ensures a + (b + c) == (a + b) + c
  {
  }

  /** The front of a sequence with one more element is the sequence. */
  lemma SnocFront<T>(s: seq<T>, x: T)
    ensures (s + [x])[..|s|] == s && (s + [x])[|s|] == x
  {
  }

  lemma TakeSnoc<T>(s: seq<T>, n: nat)
    requires n < |s|
    ensures s[..n + 1] == s[..n] + [s[n]]
  {
  }

  lemma TakeAll<T>(s: seq<T>)
    ensures s[..|s|] == s
  {
  }

  /** Equal sequences with a common head and tail agree in the middle. */
  lemma MiddleEqual<T>(p: seq<T>, a: seq<T>, b: seq<T>, q: seq<T>)
    requires p + a + q == p + b + q
    ensures a == b
  {
    assert |a| == |b|;
    assert a == (p + a + q)[|p|..|p| + |a|];
    assert b == (p + b + q)[|p|..|p| + |b|];
  }

  /** `idx` picks the elements of `a` out of `s`: position `k` of `a` holds the
      element at position `idx[k]` of `s`, and the positions strictly increase. */
  ghost predicate IndexMap<T>(idx: seq<int>, a: seq<T>, s: seq<T>) {
    |idx| == |a| &&
    (forall k :: 0 <= k < |idx| ==> 0 <= idx[k] < |s| && a[k] == s[idx[k]]) &&
    (forall k, l :: 0 <= k < l < |idx| ==> idx[k] < idx[l])
  }

  /** `a` is `s` with some elements left out, the rest in their order. */
  ghost predicate Subsequence<T>(a: seq<T>, s: seq<T>) {
    exists idx :: IndexMap(idx, a, s)
  }
}
