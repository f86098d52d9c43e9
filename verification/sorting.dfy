/** Python's `sorted(xs, key=k)` and `xs.sort(key=k)`: a stable sort on a key.
    With `reverse=True` Python still keeps elements with equal keys in their
    original order, so a descending sort is the ascending stable sort by the
    negated key. Keys here are pairs of integers compared lexicographically,
    which covers the tuple keys the engine uses. */
module Sorting {
  import opened Seqs

  type Key = (int, int)

  /** Lexicographic `<=` on key pairs. */
  predicate KeyLe(a: Key, b: Key) {
    a.0 < b.0 || (a.0 == b.0 && a.1 <= b.1)
  }

  predicate SortedBy<T>(s: seq<T>, key: T -> Key) {
    forall i, j :: 0 <= i < j < |s| ==> KeyLe(key(s[i]), key(s[j]))
  }

  /** Puts `x` after every element whose key is not larger than its own. */
  function Insert<T>(t: seq<T>, x: T, key: T -> Key): (r: seq<T>)
    ensures |r| == |t| + 1
    ensures multiset(r) == multiset(t) + multiset{x}
  {
    if t == [] then [x]
    else if !KeyLe(key(t[0]), key(x)) then [x] + t
    else
      assert t == [t[0]] + t[1..];
      [t[0]] + Insert(t[1..], x, key)
  }

  /** Insertion sort, inserting the elements in their original order; it is stable
      because an element goes after the equal keys already placed. */
  function SortBy<T>(s: seq<T>, key: T -> Key): (r: seq<T>)
    ensures |r| == |s|
    ensures multiset(r) == multiset(s)
  {
    if s == [] then []
    else
      assert s == s[..|s| - 1] + [s[|s| - 1]];
      Insert(SortBy(s[..|s| - 1], key), s[|s| - 1], key)
  }

  /** Where `Insert` puts the new element: before the first element whose key is
      larger than its own. */
  function InsertAt<T>(t: seq<T>, x: T, key: T -> Key): (i: nat)
    ensures i <= |t|
  {
    if t == [] || !KeyLe(key(t[0]), key(x)) then 0 else 1 + InsertAt(t[1..], x, key)
  }

  /** The elements of `s` whose key is `k`, in their order in `s`. */
  function WithKey<T>(s: seq<T>, key: T -> Key, k: Key): seq<T> {
    if s == [] then [] else (if key(s[0]) == k then [s[0]] else []) + WithKey(s[1..], key, k)
  }

  // ---------------------------------------------------------------------------

  lemma {:induction false} InsertLowerBound<T>(t: seq<T>, x: T, key: T -> Key, m: Key)
    requires forall i :: 0 <= i < |t| ==> KeyLe(m, key(t[i]))
    requires KeyLe(m, key(x))
    ensures forall i :: 0 <= i < |t| + 1 ==> KeyLe(m, key(Insert(t, x, key)[i]))
  {
    if t != [] && KeyLe(key(t[0]), key(x)) {
      InsertLowerBound(t[1..], x, key, m);
    }
  }

  lemma {:induction false} InsertSorted<T>(t: seq<T>, x: T, key: T -> Key)
    requires SortedBy(t, key)
    ensures SortedBy(Insert(t, x, key), key)
  {
    if t != [] && KeyLe(key(t[0]), key(x)) {
      InsertSorted(t[1..], x, key);
      InsertLowerBound(t[1..], x, key, key(t[0]));
    }
  }

  /** The result of a sort is ordered by the key. */
  lemma {:induction false} SortBySorted<T>(s: seq<T>, key: T -> Key)
    ensures SortedBy(SortBy(s, key), key)
  {
    if s != [] {
      SortBySorted(s[..|s| - 1], key);
      InsertSorted(SortBy(s[..|s| - 1], key), s[|s| - 1], key);
    }
  }

  lemma {:induction false} WithKeyAppend<T>(a: seq<T>, b: seq<T>, key: T -> Key, k: Key)
    ensures WithKey(a + b, key, k) == WithKey(a, key, k) + WithKey(b, key, k)
  {
    if a == [] {
      assert a + b == b;
    } else {
      assert (a + b)[1..] == a[1..] + b;
      WithKeyAppend(a[1..], b, key, k);
    }
  }

  lemma {:induction false} WithKeyAbove<T>(t: seq<T>, key: T -> Key, k: Key)
    requires forall i :: 0 <= i < |t| ==> !KeyLe(key(t[i]), k)
    ensures WithKey(t, key, k) == []
  {
    if t != [] {
      WithKeyAbove(t[1..], key, k);
    }
  }

  /** Inserting into a sorted sequence puts the new element after the ones with
      the same key. */
  lemma {:induction false} InsertStable<T>(t: seq<T>, x: T, key: T -> Key, k: Key)
    requires SortedBy(t, key)
    ensures WithKey(Insert(t, x, key), key, k)
         == WithKey(t, key, k) + (if key(x) == k then [x] else [])
    decreases |t|, 1
  {
    if t == [] {
    } else if !KeyLe(key(t[0]), key(x)) {
      InsertStableFirst(t, x, key, k);
    } else {
      InsertStableLater(t, x, key, k);
    }
  }

  /** An element below the first one goes in front, ahead of every element its
      key could share. */
  lemma InsertStableFirst<T>(t: seq<T>, x: T, key: T -> Key, k: Key)
    requires SortedBy(t, key) && t != [] && !KeyLe(key(t[0]), key(x))
    ensures WithKey(Insert(t, x, key), key, k)
         == WithKey(t, key, k) + (if key(x) == k then [x] else [])
  {
    WithKeyCons(x, t, key, k);
    if key(x) == k {
      WithKeyAbove(t, key, k);
    } else {
      EmptyAppend(WithKey(t, key, k));
    }
  }

  lemma {:induction false} InsertStableLater<T>(t: seq<T>, x: T, key: T -> Key, k: Key)
    requires SortedBy(t, key) && t != [] && KeyLe(key(t[0]), key(x))
    ensures WithKey(Insert(t, x, key), key, k)
         == WithKey(t, key, k) + (if key(x) == k then [x] else [])
    decreases |t|, 0
  {
    var r := Insert(t[1..], x, key);
    assert Insert(t, x, key) == [t[0]] + r;
    SortedTail(t, key);
    InsertStable(t[1..], x, key, k);
    WithKeyCons(t[0], r, key, k);
    HeadTail(t);
    WithKeyCons(t[0], t[1..], key, k);
    AppendAssoc(if key(t[0]) == k then [t[0]] else [], WithKey(t[1..], key, k), if key(x) == k then [x] else []);
  }

  lemma WithKeyCons<T>(x: T, t: seq<T>, key: T -> Key, k: Key)
    ensures WithKey([x] + t, key, k) == (if key(x) == k then [x] else []) + WithKey(t, key, k)
  {
    assert ([x] + t)[1..] == t;
  }

  lemma SortedTail<T>(t: seq<T>, key: T -> Key)
    requires SortedBy(t, key) && t != []
    ensures SortedBy(t[1..], key)
  {
  }

  /** Stability: for every key, the elements with that key keep their relative
      order. */
  lemma {:induction false} SortByStable<T>(s: seq<T>, key: T -> Key, k: Key)
    ensures WithKey(SortBy(s, key), key, k) == WithKey(s, key, k)
  {
    if s != [] {
      var p, x := s[..|s| - 1], s[|s| - 1];
      assert p + [x] == s;
      SortBySorted(p, key);
      calc {
        WithKey(SortBy(s, key), key, k);
        WithKey(Insert(SortBy(p, key), x, key), key, k);
        { InsertStable(SortBy(p, key), x, key, k); }
        WithKey(SortBy(p, key), key, k) + (if key(x) == k then [x] else []);
        { SortByStable(p, key, k); }
        WithKey(p, key, k) + (if key(x) == k then [x] else []);
        { assert WithKey([x], key, k) == (if key(x) == k then [x] else []); }
        WithKey(p, key, k) + WithKey([x], key, k);
        { WithKeyAppend(p, [x], key, k); }
        WithKey(s, key, k);
      }
    }
  }

  /** Inserting into a sorted sequence splits it in two: the elements whose key is
      not larger than the new one's, then the new element, then the others. */
  lemma InsertSplit<T>(t: seq<T>, x: T, key: T -> Key)
    requires SortedBy(t, key)
    ensures var i := InsertAt(t, x, key);
            Insert(t, x, key) == t[..i] + [x] + t[i..] &&
            (forall j :: 0 <= j < i ==> KeyLe(key(t[j]), key(x))) &&
            (forall j :: i <= j < |t| ==> !KeyLe(key(t[j]), key(x)))
  {
    InsertAtSplits(t, x, key);
    InsertAtBelow(t, x, key);
    InsertAtAbove(t, x, key);
  }

  lemma {:induction false} InsertAtSplits<T>(t: seq<T>, x: T, key: T -> Key)
    ensures var i := InsertAt(t, x, key); Insert(t, x, key) == t[..i] + [x] + t[i..]
  {
    if t != [] && KeyLe(key(t[0]), key(x)) {
      var r := t[1..];
      InsertAtSplits(r, x, key);
      var i := InsertAt(r, x, key);
      assert Insert(t, x, key) == [t[0]] + (r[..i] + [x] + r[i..]);
      ConsSplit(t, i, x);
    }
  }

  lemma ConsSplit<T>(t: seq<T>, i: nat, x: T)
    requires t != [] && i < |t|
    ensures [t[0]] + (t[1..][..i] + [x] + t[1..][i..]) == t[..i + 1] + [x] + t[i + 1..]
  {
    assert t[..i + 1] == [t[0]] + t[1..][..i];
    assert t[i + 1..] == t[1..][i..];
  }

  lemma {:induction false} InsertAtBelow<T>(t: seq<T>, x: T, key: T -> Key)
    ensures forall j :: 0 <= j < InsertAt(t, x, key) ==> KeyLe(key(t[j]), key(x))
  {
    if t != [] && KeyLe(key(t[0]), key(x)) {
      InsertAtBelow(t[1..], x, key);
      forall j | 0 < j < InsertAt(t, x, key) ensures KeyLe(key(t[j]), key(x)) {
        assert t[j] == t[1..][j - 1];
      }
    }
  }

  lemma {:induction false} InsertAtAbove<T>(t: seq<T>, x: T, key: T -> Key)
    requires SortedBy(t, key)
    ensures forall j :: InsertAt(t, x, key) <= j < |t| ==> !KeyLe(key(t[j]), key(x))
  {
    if t != [] && KeyLe(key(t[0]), key(x)) {
      SortedTail(t, key);
      InsertAtAbove(t[1..], x, key);
      forall j | InsertAt(t, x, key) <= j < |t| ensures !KeyLe(key(t[j]), key(x)) {
        assert t[j] == t[1..][j - 1];
      }
    } else if t != [] {
      forall j | 0 < j < |t| ensures !KeyLe(key(t[j]), key(x)) {
        assert KeyLe(key(t[0]), key(t[j]));
      }
    }
  }

  /** Sorting one more element inserts it into the sorted rest; an element of the
      front is in the sorted front. */
  lemma SortBySnoc<T>(s: seq<T>, q: seq<T>, x: T, key: T -> Key)
    requires q != [] && x == q[|q| - 1]
    ensures SortBy(s + q, key) == Insert(SortBy(s + q[..|q| - 1], key), x, key)
    ensures forall y :: y in s ==> y in SortBy(s + q[..|q| - 1], key)
  {
    var q' := q[..|q| - 1];
    assert (s + q)[..|s + q| - 1] == s + q';
    forall y | y in s ensures y in SortBy(s + q', key) {
      assert y in multiset(s + q');
    }
  }

  /** Sorting a sequence of at most one element leaves it as it is. */
  lemma SortBySingleton<T>(x: T, key: T -> Key)
    ensures SortBy([x], key) == [x]
  {
    assert [x][..0] == [];
  }

  // ---------------------------------------------------------------------------
  // sorting commutes with a map that keeps the order of the keys

  /** `f` applied to every element. */
  function MapSeq<T>(f: T -> T, s: seq<T>): (r: seq<T>)
    ensures |r| == |s| && forall k :: 0 <= k < |s| ==> r[k] == f(s[k])
  {
    seq(|s|, k requires 0 <= k < |s| => f(s[k]))
  }

  lemma MapCons<T>(f: T -> T, x: T, s: seq<T>)
    ensures MapSeq(f, [x] + s) == [f(x)] + MapSeq(f, s)
  {
  }

  lemma MapTail<T>(f: T -> T, s: seq<T>)
    requires s != []
    ensures MapSeq(f, s)[1..] == MapSeq(f, s[1..])
  {
  }

  lemma MapAppend<T>(f: T -> T, a: seq<T>, b: seq<T>)
    ensures MapSeq(f, a + b) == MapSeq(f, a) + MapSeq(f, b)
  {
  }

  lemma MapUpdate<T>(f: T -> T, s: seq<T>, j: nat, v: T)
    requires j < |s|
    ensures MapSeq(f, s[j := v]) == MapSeq(f, s)[j := f(v)]
  {
  }

  lemma MapFront<T>(f: T -> T, s: seq<T>)
    requires s != []
    ensures MapSeq(f, s)[..|s| - 1] == MapSeq(f, s[..|s| - 1])
  {
  }

  /** Ordering the images under `f` by `key'` is ordering the elements of `s` by
      `key`. */
  ghost predicate KeysAgree<T>(s: seq<T>, key: T -> Key, f: T -> T, key': T -> Key) {
    forall a, b :: a in s && b in s ==> (KeyLe(key'(f(a)), key'(f(b))) <==> KeyLe(key(a), key(b)))
  }

  /** Inserting the image is the image of inserting, when the keys agree. */
  lemma {:induction false} InsertMap<T>(t: seq<T>, x: T, key: T -> Key, f: T -> T, key': T -> Key)
    requires forall i :: 0 <= i < |t| ==> (KeyLe(key'(f(t[i])), key'(f(x))) <==> KeyLe(key(t[i]), key(x)))
    ensures Insert(MapSeq(f, t), f(x), key') == MapSeq(f, Insert(t, x, key))
  {
    if t == [] {
      assert MapSeq(f, [x]) == [f(x)];
    } else {
      var mt := MapSeq(f, t);
      assert mt[0] == f(t[0]);
      if KeyLe(key(t[0]), key(x)) {
        MapTail(f, t);
        assert forall i :: 0 <= i < |t[1..]| ==> t[1..][i] == t[i + 1];
        InsertMap(t[1..], x, key, f, key');
        MapCons(f, t[0], Insert(t[1..], x, key));
      } else {
        MapCons(f, x, t);
      }
    }
  }

  /** Sorting the images under `f` by `key'` gives the images of the elements
      sorted by `key`, when the two keys order the elements alike. */
  lemma {:induction false} SortByMap<T>(s: seq<T>, key: T -> Key, f: T -> T, key': T -> Key)
    requires KeysAgree(s, key, f, key')
    ensures SortBy(MapSeq(f, s), key') == MapSeq(f, SortBy(s, key))
  {
    if s != [] {
      var p, x := s[..|s| - 1], s[|s| - 1];
      assert forall a :: a in p ==> a in s;
      var u := SortBy(p, key);
      forall i | 0 <= i < |u| ensures u[i] in s {
        assert u[i] in multiset(u);
      }
      var ms := MapSeq(f, s);
      calc {
        SortBy(ms, key');
        Insert(SortBy(ms[..|ms| - 1], key'), ms[|ms| - 1], key');
        { MapFront(f, s); }
        Insert(SortBy(MapSeq(f, p), key'), f(x), key');
        { SortByMap(p, key, f, key'); }
        Insert(MapSeq(f, u), f(x), key');
        { InsertMap(u, x, key, f, key'); }
        MapSeq(f, Insert(u, x, key));
      }
    }
  }
}
