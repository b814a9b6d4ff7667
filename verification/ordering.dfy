/** Generic ordered-sequence utilities: a stable top-down merge sort keyed by a
    projection, an iterative binary search, and the facts that tie a sorted
    sequence to "the k lowest" of a pool. The catalog and the recommender
    instantiate these with their own keys. */
module Ordering {

  /** `le` is a total order on keys: any two compare, only equal keys compare
      both ways, and it is transitive. */
  ghost predicate TotalOrder<K(!new)>(le: (K, K) -> bool) {
    && (forall x, y :: le(x, y) || le(y, x))
    && (forall x, y :: le(x, y) && le(y, x) ==> x == y)
    && (forall x, y, z :: le(x, y) && le(y, z) ==> le(x, z))
  }

  /** A total order is reflexive: totality at `(x, x)`. */
  lemma TotalOrderReflexive<K(!new)>(le: (K, K) -> bool, x: K)
    requires TotalOrder(le)
    ensures le(x, x)
  {
    assert le(x, x) || le(x, x);
  }

  /** `less` is a strict total order on keys (irreflexive, transitive, trichotomous). */
  ghost predicate StrictTotalOrder<K(!new)>(less: (K, K) -> bool) {
    && (forall x :: !less(x, x))
    && (forall x, y, z :: less(x, y) && less(y, z) ==> less(x, z))
    && (forall x, y :: x != y ==> less(x, y) || less(y, x))
  }

  /** Every earlier element's key is `le` every later element's key. */
  ghost predicate SortedBy<T, K>(s: seq<T>, key: T -> K, le: (K, K) -> bool) {
    forall i, j :: 0 <= i < j < |s| ==> le(key(s[i]), key(s[j]))
  }

  /** Ascending with respect to a strict order: no later key is below an earlier one. */
  ghost predicate AscendingBy<T, K>(s: seq<T>, key: T -> K, less: (K, K) -> bool) {
    forall i, j :: 0 <= i < j < |s| ==> !less(key(s[j]), key(s[i]))
  }

  /** The elements of `s` whose key is `k`, in their order in `s`. Two
      sequences with the same `WithKey` for every key hold the same elements and
      keep equal-keyed elements in the same relative order. */
  ghost function WithKey<T, K>(s: seq<T>, key: T -> K, k: K): seq<T> {
    if |s| == 0 then []
    else (if key(s[0]) == k then [s[0]] else []) + WithKey(s[1..], key, k)
  }

  /** One merge step of merge sort: repeatedly take the smaller head, and the
      left head when the two heads compare `le`. */
  function MergeBy<T, K>(left: seq<T>, right: seq<T>, key: T -> K, le: (K, K) -> bool): (r: seq<T>)
    ensures |r| == |left| + |right|
    ensures multiset(r) == multiset(left) + multiset(right)
    decreases |left| + |right|
  {
    if |left| == 0 then right
    else if |right| == 0 then left
    else if le(key(left[0]), key(right[0])) then
      assert left == [left[0]] + left[1..];
      [left[0]] + MergeBy(left[1..], right, key, le)
    else
      assert right == [right[0]] + right[1..];
      [right[0]] + MergeBy(left, right[1..], key, le)
  }

  /** Top-down merge sort: halves split at `|s| / 2`, sequences of length at
      most one come back unchanged. */
  function MergeSortBy<T, K>(s: seq<T>, key: T -> K, le: (K, K) -> bool): (r: seq<T>)
    ensures |r| == |s|
    ensures multiset(r) == multiset(s)
    decreases |s|
  {
    if |s| <= 1 then s
    else
      var mid := |s| / 2;
      assert s == s[..mid] + s[mid..];
      MergeBy(MergeSortBy(s[..mid], key, le), MergeSortBy(s[mid..], key, le), key, le)
  }

  /** `WithKey` picks elements of `s` that carry key `k`. */
  lemma {:induction false} WithKeyMembers<T, K>(s: seq<T>, key: T -> K, k: K)
    ensures forall x :: x in WithKey(s, key, k) ==> x in s && key(x) == k
    decreases |s|
  {
    if |s| > 0 {
      WithKeyMembers(s[1..], key, k);
    }
  }

  lemma {:induction false} WithKeyAppend<T, K>(a: seq<T>, b: seq<T>, key: T -> K, k: K)
    ensures WithKey(a + b, key, k) == WithKey(a, key, k) + WithKey(b, key, k)
    decreases |a|
  {
    if |a| == 0 {
      assert a + b == b;
      AppendEmpty(WithKey(b, key, k));
    } else {
      assert (a + b)[0] == a[0];
      assert (a + b)[1..] == a[1..] + b;
      WithKeyAppend(a[1..], b, key, k);
      AppendAssoc(if key(a[0]) == k then [a[0]] else [], WithKey(a[1..], key, k), WithKey(b, key, k));
    }
  }

  /** The key-`k` elements of a prefix are a prefix of those of the whole. */
  lemma WithKeyPrefix<T, K>(s: seq<T>, m: nat, key: T -> K, k: K)
    requires m <= |s|
    ensures WithKey(s[..m], key, k) <= WithKey(s, key, k)
  {
    assert s == s[..m] + s[m..];
    WithKeyAppend(s[..m], s[m..], key, k);
  }

  lemma {:induction false} WithKeyNone<T, K>(s: seq<T>, key: T -> K, k: K)
    requires forall i :: 0 <= i < |s| ==> key(s[i]) != k
    ensures WithKey(s, key, k) == []
    decreases |s|
  {
    if |s| > 0 {
      WithKeyNone(s[1..], key, k);
    }
  }

  lemma WithKeyHead<T, K>(s: seq<T>, key: T -> K)
    ensures |s| > 0 ==> s[0] in WithKey(s, key, key(s[0]))
  {
  }

  /** The first element of a sorted sequence is `le` every element of it. */
  lemma HeadIsLeast<T, K(!new)>(s: seq<T>, key: T -> K, le: (K, K) -> bool)
    requires TotalOrder(le) && SortedBy(s, key, le) && |s| > 0
    ensures forall x :: x in multiset(s) ==> le(key(s[0]), key(x))
  {
    forall x | x in multiset(s) ensures le(key(s[0]), key(x)) {
      var i :| 0 <= i < |s| && s[i] == x;
      if i == 0 {
        TotalOrderReflexive(le, key(x));
      }
    }
  }

  lemma ConsSorted<T, K>(h: T, rest: seq<T>, key: T -> K, le: (K, K) -> bool)
    requires SortedBy(rest, key, le)
    requires forall x :: x in multiset(rest) ==> le(key(h), key(x))
    ensures SortedBy([h] + rest, key, le)
  {
    var s := [h] + rest;
    forall i, j | 0 <= i < j < |s| ensures le(key(s[i]), key(s[j])) {
      assert s[j] == rest[j - 1];
      assert rest[j - 1] in multiset(rest);
      if i > 0 {
        assert s[i] == rest[i - 1];
      }
    }
  }

  /** Merging two sorted sequences yields a sorted sequence. */
  lemma {:induction false} MergeBySorted<T, K(!new)>(left: seq<T>, right: seq<T>, key: T -> K, le: (K, K) -> bool)
    requires TotalOrder(le)
    requires SortedBy(left, key, le) && SortedBy(right, key, le)
    ensures SortedBy(MergeBy(left, right, key, le), key, le)
    decreases |left| + |right|
  {
    if |left| == 0 || |right| == 0 {
    } else if le(key(left[0]), key(right[0])) {
      var rest := MergeBy(left[1..], right, key, le);
      MergeBySorted(left[1..], right, key, le);
      HeadIsLeast(left, key, le);
      HeadIsLeast(right, key, le);
      assert left == [left[0]] + left[1..];
      forall x | x in multiset(rest) ensures le(key(left[0]), key(x)) {
        if x !in multiset(left[1..]) {
          assert x in multiset(right);
        }
      }
      ConsSorted(left[0], rest, key, le);
    } else {
      var rest := MergeBy(left, right[1..], key, le);
      MergeBySorted(left, right[1..], key, le);
      HeadIsLeast(left, key, le);
      HeadIsLeast(right, key, le);
      assert right == [right[0]] + right[1..];
      forall x | x in multiset(rest) ensures le(key(right[0]), key(x)) {
        if x !in multiset(right[1..]) {
          assert x in multiset(left);
        }
      }
      ConsSorted(right[0], rest, key, le);
    }
  }

  lemma AppendAssoc<T>(a: seq<T>, b: seq<T>, c: seq<T>)
    ensures a + (b + c) == (a + b) + c
  {
  }

  lemma AppendEmpty<T>(a: seq<T>)
    ensures [] + a == a && a + [] == a
  {
  }

  lemma WithKeyCons<T, K>(x: T, rest: seq<T>, key: T -> K, k: K)
    ensures WithKey([x] + rest, key, k) == (if key(x) == k then [x] else []) + WithKey(rest, key, k)
  {
    assert ([x] + rest)[1..] == rest;
  }

  /** A sorted sequence whose head is not `le` the key `k` holds no element
      of key `k`. */
  lemma SortedAboveKey<T, K(!new)>(s: seq<T>, key: T -> K, le: (K, K) -> bool, k: K)
    requires TotalOrder(le) && SortedBy(s, key, le) && |s| > 0 && !le(key(s[0]), k)
    ensures WithKey(s, key, k) == []
  {
    forall i | 0 <= i < |s| ensures key(s[i]) != k {
      if i > 0 {
        assert le(key(s[0]), key(s[i]));
      }
    }
    WithKeyNone(s, key, k);
  }

  /** Putting `x` in front of a merge result whose key-`k` elements are those
      of `tail` then those of `right` gives those of `[x] + tail` then `right`. */
  lemma WithKeyConsLeft<T, K>(x: T, rest: seq<T>, tail: seq<T>, right: seq<T>, key: T -> K, k: K)
    requires WithKey(rest, key, k) == WithKey(tail, key, k) + WithKey(right, key, k)
    ensures WithKey([x] + rest, key, k) == WithKey([x] + tail, key, k) + WithKey(right, key, k)
  {
    WithKeyCons(x, rest, key, k);
    WithKeyCons(x, tail, key, k);
    AppendAssoc(if key(x) == k then [x] else [], WithKey(tail, key, k), WithKey(right, key, k));
  }

  /** Putting `x` in front of a merge result whose key-`k` elements are those
      of `left` then those of `tail` gives those of `left` then `[x] + tail`,
      provided `left` holds no element of `x`'s key when that key is `k`. */
  lemma WithKeyConsRight<T, K>(x: T, rest: seq<T>, left: seq<T>, tail: seq<T>, key: T -> K, k: K)
    requires WithKey(rest, key, k) == WithKey(left, key, k) + WithKey(tail, key, k)
    requires key(x) == k ==> WithKey(left, key, k) == []
    ensures WithKey([x] + rest, key, k) == WithKey(left, key, k) + WithKey([x] + tail, key, k)
  {
    WithKeyCons(x, rest, key, k);
    WithKeyCons(x, tail, key, k);
    var wl, wr := WithKey(left, key, k), WithKey(tail, key, k);
    AppendEmpty(wr);
    if key(x) == k {
      AppendEmpty([x] + wr);
    } else {
      AppendEmpty(wl + wr);
    }
  }

  /** The step of `MergeByStable` where the left head is taken. */
  lemma MergeByStableLeft<T, K>(left: seq<T>, right: seq<T>, key: T -> K, le: (K, K) -> bool, k: K)
    requires |left| > 0 && |right| > 0 && le(key(left[0]), key(right[0]))
    requires WithKey(MergeBy(left[1..], right, key, le), key, k) == WithKey(left[1..], key, k) + WithKey(right, key, k)
    ensures WithKey(MergeBy(left, right, key, le), key, k) == WithKey(left, key, k) + WithKey(right, key, k)
  {
    var rest := MergeBy(left[1..], right, key, le);
    assert MergeBy(left, right, key, le) == [left[0]] + rest;
    WithKeyConsLeft(left[0], rest, left[1..], right, key, k);
    assert [left[0]] + left[1..] == left;
  }

  /** `WithKeyConsRight` with the cons spelled as the whole of `right`. */
  lemma WithKeyConsRightHead<T, K>(rest: seq<T>, left: seq<T>, right: seq<T>, key: T -> K, k: K)
    requires |right| > 0
    requires WithKey(rest, key, k) == WithKey(left, key, k) + WithKey(right[1..], key, k)
    requires key(right[0]) == k ==> WithKey(left, key, k) == []
    ensures WithKey([right[0]] + rest, key, k) == WithKey(left, key, k) + WithKey(right, key, k)
  {
    WithKeyConsRight(right[0], rest, left, right[1..], key, k);
    assert [right[0]] + right[1..] == right;
  }

  /** The step of `MergeByStable` where the right head is taken, given that
      `left` holds no element of its key when that key is `k`. */
  lemma MergeByStableRight<T, K>(left: seq<T>, right: seq<T>, key: T -> K, le: (K, K) -> bool, k: K)
    requires |left| > 0 && |right| > 0 && !le(key(left[0]), key(right[0]))
    requires key(right[0]) == k ==> WithKey(left, key, k) == []
    requires WithKey(MergeBy(left, right[1..], key, le), key, k) == WithKey(left, key, k) + WithKey(right[1..], key, k)
    ensures WithKey(MergeBy(left, right, key, le), key, k) == WithKey(left, key, k) + WithKey(right, key, k)
  {
    var rest := MergeBy(left, right[1..], key, le);
    assert MergeBy(left, right, key, le) == [right[0]] + rest;
    WithKeyConsRightHead(rest, left, right, key, k);
  }

  /** Merging is stable: for every key, the elements carrying it come out as
      those of `left` followed by those of `right`, each in input order. */
  lemma {:induction false} MergeByStable<T, K(!new)>(left: seq<T>, right: seq<T>, key: T -> K, le: (K, K) -> bool, k: K)
    requires TotalOrder(le) && SortedBy(left, key, le)
    ensures WithKey(MergeBy(left, right, key, le), key, k) == WithKey(left, key, k) + WithKey(right, key, k)
    decreases |left| + |right|
  {
    if |left| == 0 {
      AppendEmpty(WithKey(right, key, k));
    } else if |right| == 0 {
      AppendEmpty(WithKey(left, key, k));
    } else if le(key(left[0]), key(right[0])) {
      SortedTail(left, key, le);
      MergeByStable(left[1..], right, key, le, k);
      MergeByStableLeft(left, right, key, le, k);
    } else {
      MergeByStable(left, right[1..], key, le, k);
      if key(right[0]) == k {
        SortedAboveKey(left, key, le, k);
      }
      MergeByStableRight(left, right, key, le, k);
    }
  }

  /** Merge sort output is sorted. */
  lemma {:induction false} MergeSortBySorted<T, K(!new)>(s: seq<T>, key: T -> K, le: (K, K) -> bool)
    requires TotalOrder(le)
    ensures SortedBy(MergeSortBy(s, key, le), key, le)
    decreases |s|
  {
    if |s| > 1 {
      var mid := |s| / 2;
      MergeSortBySorted(s[..mid], key, le);
      MergeSortBySorted(s[mid..], key, le);
      MergeBySorted(MergeSortBy(s[..mid], key, le), MergeSortBy(s[mid..], key, le), key, le);
    }
  }

  /** If `l` and `r` keep the key-`k` elements of `a` and `b`, and `m` keeps
      those of `l` followed by those of `r`, then `m` keeps those of `a + b`. */
  lemma WithKeyOfHalves<T, K>(a: seq<T>, b: seq<T>, l: seq<T>, r: seq<T>, m: seq<T>, key: T -> K, k: K)
    requires WithKey(l, key, k) == WithKey(a, key, k) && WithKey(r, key, k) == WithKey(b, key, k)
    requires WithKey(m, key, k) == WithKey(l, key, k) + WithKey(r, key, k)
    ensures WithKey(m, key, k) == WithKey(a + b, key, k)
  {
    WithKeyAppend(a, b, key, k);
  }

  /** Merging sorted `l` and any `r` that keep the key-`k` elements of `a` and
      `b` keeps those of `a + b`. */
  lemma MergeStableOfHalves<T, K(!new)>(a: seq<T>, b: seq<T>, l: seq<T>, r: seq<T>, key: T -> K, le: (K, K) -> bool, k: K)
    requires TotalOrder(le) && SortedBy(l, key, le)
    requires WithKey(l, key, k) == WithKey(a, key, k) && WithKey(r, key, k) == WithKey(b, key, k)
    ensures WithKey(MergeBy(l, r, key, le), key, k) == WithKey(a + b, key, k)
  {
    MergeByStable(l, r, key, le, k);
    WithKeyOfHalves(a, b, l, r, MergeBy(l, r, key, le), key, k);
  }

  /** Merge sort is stable: for every key, the elements carrying it keep their
      input order. */
  lemma {:induction false} MergeSortByStable<T, K(!new)>(s: seq<T>, key: T -> K, le: (K, K) -> bool, k: K)
    requires TotalOrder(le)
    ensures WithKey(MergeSortBy(s, key, le), key, k) == WithKey(s, key, k)
    decreases |s|
  {
    if |s| > 1 {
      var mid := |s| / 2;
      var l, r := MergeSortBy(s[..mid], key, le), MergeSortBy(s[mid..], key, le);
      assert WithKey(MergeBy(l, r, key, le), key, k) == WithKey(s, key, k) by {
        MergeSortByStable(s[..mid], key, le, k);
        MergeSortByStable(s[mid..], key, le, k);
        MergeSortBySorted(s[..mid], key, le);
        MergeStableOfHalves(s[..mid], s[mid..], l, r, key, le, k);
        assert s[..mid] + s[mid..] == s;
      }
      assert MergeSortBy(s, key, le) == MergeBy(l, r, key, le);
    }
  }

  /** Stability of merge sort, for every key at once. */
  lemma MergeSortByStableAll<T, K(!new)>(s: seq<T>, key: T -> K, le: (K, K) -> bool)
    requires TotalOrder(le)
    ensures forall k :: WithKey(MergeSortBy(s, key, le), key, k) == WithKey(s, key, k)
  {
    forall k ensures WithKey(MergeSortBy(s, key, le), key, k) == WithKey(s, key, k) {
      MergeSortByStable(s, key, le, k);
    }
  }

  /** When every key on the left is `le` every key on the right, merging is
      concatenation: the left side wins every comparison. */
  lemma {:induction false} MergeByOrderedHalves<T, K>(left: seq<T>, right: seq<T>, key: T -> K, le: (K, K) -> bool)
    requires forall i, j :: 0 <= i < |left| && 0 <= j < |right| ==> le(key(left[i]), key(right[j]))
    ensures MergeBy(left, right, key, le) == left + right
    decreases |left|
  {
    if |left| == 0 {
      AppendEmpty(right);
    } else if |right| == 0 {
      AppendEmpty(left);
    } else {
      assert le(key(left[0]), key(right[0]));
      assert MergeBy(left, right, key, le) == [left[0]] + MergeBy(left[1..], right, key, le);
      forall i, j | 0 <= i < |left| - 1 && 0 <= j < |right| ensures le(key(left[1..][i]), key(right[j])) {
        assert left[1..][i] == left[i + 1];
      }
      MergeByOrderedHalves(left[1..], right, key, le);
      AppendAssoc([left[0]], left[1..], right);
      assert [left[0]] + left[1..] == left;
    }
  }

  /** Both halves of a sorted sequence are sorted, and the left half sorts
      before the right. */
  lemma SortedSplit<T, K>(s: seq<T>, mid: nat, key: T -> K, le: (K, K) -> bool)
    requires SortedBy(s, key, le) && mid <= |s|
    ensures SortedBy(s[..mid], key, le) && SortedBy(s[mid..], key, le)
    ensures forall i, j :: 0 <= i < mid && 0 <= j < |s| - mid ==> le(key(s[..mid][i]), key(s[mid..][j]))
  {
    var l, r := s[..mid], s[mid..];
    forall i, j | 0 <= i < j < |r| ensures le(key(r[i]), key(r[j])) {
      assert r[i] == s[mid + i] && r[j] == s[mid + j];
    }
    forall i, j | 0 <= i < |l| && 0 <= j < |r| ensures le(key(l[i]), key(r[j])) {
      assert r[j] == s[mid + j];
    }
  }

  /** One level of merge sort: when both halves sort to themselves and
      merging them is concatenation, the sequence sorts to itself. */
  lemma OfSortedStep<T, K>(s: seq<T>, key: T -> K, le: (K, K) -> bool)
    requires |s| > 1
    requires MergeSortBy(s[..|s| / 2], key, le) == s[..|s| / 2]
    requires MergeSortBy(s[|s| / 2..], key, le) == s[|s| / 2..]
    requires MergeBy(s[..|s| / 2], s[|s| / 2..], key, le) == s[..|s| / 2] + s[|s| / 2..]
    ensures MergeSortBy(s, key, le) == s
  {
    assert s[..|s| / 2] + s[|s| / 2..] == s;
  }

  /** A sequence that is already sorted comes back unchanged. */
  lemma {:induction false} MergeSortByOfSorted<T, K>(s: seq<T>, key: T -> K, le: (K, K) -> bool)
    requires SortedBy(s, key, le)
    ensures MergeSortBy(s, key, le) == s
    decreases |s|
  {
    if |s| > 1 {
      var mid := |s| / 2;
      SortedSplit(s, mid, key, le);
      MergeSortByOfSorted(s[..mid], key, le);
      MergeSortByOfSorted(s[mid..], key, le);
      MergeByOrderedHalves(s[..mid], s[mid..], key, le);
      OfSortedStep(s, key, le);
    }
  }

  /** A stable sort is unique: two sorted sequences that agree on the
      elements of every key (in order) are equal. So `MergeSortBy` is THE
      stable sort of its input, whatever algorithm computes it. */
  lemma {:induction false} StableSortUnique<T, K(!new)>(a: seq<T>, b: seq<T>, key: T -> K, le: (K, K) -> bool)
    requires TotalOrder(le)
    requires SortedBy(a, key, le) && SortedBy(b, key, le)
    requires forall k :: WithKey(a, key, k) == WithKey(b, key, k)
    ensures a == b
    decreases |a|
  {
    if |a| == 0 || |b| == 0 {
      // A head on one side would have a non-empty class there and an empty one on the other.
      WithKeyHead(a, key);
      WithKeyHead(b, key);
    } else {
      var ka, kb := key(a[0]), key(b[0]);
      assert WithKey(a, key, ka)[0] == a[0];
      assert WithKey(b, key, kb)[0] == b[0];
      // Some element of b has key ka, so kb <= ka; symmetrically ka <= kb.
      var xb := WithKey(b, key, ka)[0];
      WithKeyMembers(b, key, ka);
      assert xb in WithKey(b, key, ka);
      var j :| 0 <= j < |b| && b[j] == xb;
      assert le(kb, ka) by {
        if j > 0 { assert le(key(b[0]), key(b[j])); }
        else { TotalOrderReflexive(le, kb); }
      }
      var xa := WithKey(a, key, kb)[0];
      WithKeyMembers(a, key, kb);
      assert xa in WithKey(a, key, kb);
      var i :| 0 <= i < |a| && a[i] == xa;
      assert le(ka, kb) by {
        if i > 0 { assert le(key(a[0]), key(a[i])); }
        else { TotalOrderReflexive(le, ka); }
      }
      assert ka == kb;
      assert a[0] == b[0];
      forall k ensures WithKey(a[1..], key, k) == WithKey(b[1..], key, k) {
        var head: seq<T> := if key(a[0]) == k then [a[0]] else [];
        assert WithKey(a, key, k) == head + WithKey(a[1..], key, k);
        assert WithKey(b, key, k) == head + WithKey(b[1..], key, k);
        assert WithKey(a, key, k) == WithKey(b, key, k);
        assert WithKey(a[1..], key, k) == WithKey(a, key, k)[|head|..];
        assert WithKey(b[1..], key, k) == WithKey(b, key, k)[|head|..];
      }
      StableSortUnique(a[1..], b[1..], key, le);
      assert a == [a[0]] + a[1..] && b == [b[0]] + b[1..];
    }
  }

  /** `a` can be obtained from `b` by deleting elements: it keeps some of
      b's positions, in order, each at most once. */
  ghost predicate IsSubsequence<T>(a: seq<T>, b: seq<T>)
    decreases |b|
  {
    if |a| == 0 then true
    else if |b| == 0 then false
    else (a[0] == b[0] && IsSubsequence(a[1..], b[1..])) || IsSubsequence(a, b[1..])
  }

  /** No two positions of `s` carry the same key. */
  ghost predicate DistinctKeys<T, K>(s: seq<T>, key: T -> K) {
    forall i, j :: 0 <= i < j < |s| ==> key(s[i]) != key(s[j])
  }

  /** Position `i` of `b` with position `p` removed. */
  lemma DropIndex<T>(b: seq<T>, p: nat, i: nat)
    requires p < |b| && i < |b| - 1
    ensures (b[..p] + b[p + 1..])[i] == b[if i < p then i else i + 1]
  {
  }

  lemma DropMultiset<T>(b: seq<T>, p: nat)
    requires p < |b|
    ensures multiset(b[..p] + b[p + 1..]) == multiset(b) - multiset{b[p]}
  {
    assert b == b[..p] + [b[p]] + b[p + 1..];
  }

  /** Removing position `p` keeps keys distinct, and none of the remaining
      elements shares the removed one's key. */
  lemma DropOne<T, K>(b: seq<T>, p: nat, key: T -> K)
    requires DistinctKeys(b, key) && p < |b|
    ensures DistinctKeys(b[..p] + b[p + 1..], key)
    ensures multiset(b[..p] + b[p + 1..]) == multiset(b) - multiset{b[p]}
    ensures forall y :: y in multiset(b[..p] + b[p + 1..]) ==> key(y) != key(b[p])
  {
    var rest := b[..p] + b[p + 1..];
    DropMultiset(b, p);
    forall i, j | 0 <= i < j < |rest| ensures key(rest[i]) != key(rest[j]) {
      DropIndex(b, p, i);
      DropIndex(b, p, j);
    }
    forall y | y in multiset(rest) ensures key(y) != key(b[p]) {
      var q :| 0 <= q < |rest| && rest[q] == y;
      DropIndex(b, p, q);
    }
  }

  /** Distinct keys survive taking a sub-multiset, in any order. */
  lemma {:induction false} DistinctKeysSubMultiset<T, K>(a: seq<T>, b: seq<T>, key: T -> K)
    requires multiset(a) <= multiset(b) && DistinctKeys(b, key)
    ensures DistinctKeys(a, key)
    decreases |a|
  {
    if |a| > 0 {
      var x := a[0];
      assert x in multiset(a);
      var p :| 0 <= p < |b| && b[p] == x;
      var rest := b[..p] + b[p + 1..];
      DropOne(b, p, key);
      assert a == [x] + a[1..];
      assert multiset(a[1..]) <= multiset(rest);
      DistinctKeysSubMultiset(a[1..], rest, key);
      forall i, j | 0 <= i < j < |a| ensures key(a[i]) != key(a[j]) {
        assert a[j] == a[1..][j - 1];
        if i > 0 {
          assert a[i] == a[1..][i - 1];
        } else {
          assert a[j] in multiset(rest);
        }
      }
    }
  }

  /** With distinct keys, stability is automatic: two sorted arrangements
      of the same elements are equal. */
  lemma {:induction false} SortedDistinctUnique<T, K(!new)>(a: seq<T>, b: seq<T>, key: T -> K, le: (K, K) -> bool)
    requires TotalOrder(le)
    requires SortedBy(a, key, le) && SortedBy(b, key, le)
    requires multiset(a) == multiset(b) && DistinctKeys(a, key)
    ensures a == b
    decreases |a|
  {
    if |a| == 0 {
      assert |multiset(b)| == 0;
    } else {
      assert |b| == |multiset(b)| > 0;
      HeadsAgree(a, b, key, le);
      assert a == [a[0]] + a[1..] && b == [b[0]] + b[1..];
      assert multiset(a[1..]) == multiset(a) - multiset{a[0]};
      assert multiset(b[1..]) == multiset(b) - multiset{b[0]};
      SortedTail(a, key, le);
      SortedTail(b, key, le);
      SortedDistinctUnique(a[1..], b[1..], key, le);
    }
  }

  lemma SortedTail<T, K>(a: seq<T>, key: T -> K, le: (K, K) -> bool)
    requires SortedBy(a, key, le) && |a| > 0
    ensures SortedBy(a[1..], key, le)
    ensures DistinctKeys(a, key) ==> DistinctKeys(a[1..], key)
  {
    forall p, q | 0 <= p < q < |a| - 1 ensures le(key(a[1..][p]), key(a[1..][q])) {
      assert a[1..][p] == a[p + 1] && a[1..][q] == a[q + 1];
    }
    if DistinctKeys(a, key) {
      forall p, q | 0 <= p < q < |a| - 1 ensures key(a[1..][p]) != key(a[1..][q]) {
        assert a[1..][p] == a[p + 1] && a[1..][q] == a[q + 1];
      }
    }
  }

  lemma HeadsAgree<T, K(!new)>(a: seq<T>, b: seq<T>, key: T -> K, le: (K, K) -> bool)
    requires TotalOrder(le)
    requires SortedBy(a, key, le) && SortedBy(b, key, le)
    requires multiset(a) == multiset(b) && DistinctKeys(a, key) && |a| > 0 && |b| > 0
    ensures a[0] == b[0]
  {
    HeadIsLeast(a, key, le);
    HeadIsLeast(b, key, le);
    assert b[0] in multiset(a) && a[0] in multiset(b);
    assert le(key(a[0]), key(b[0])) && le(key(b[0]), key(a[0]));
    var j :| 0 <= j < |a| && a[j] == b[0];
  }

  /** The first `k` elements of a sorted arrangement of `pool` are its `k`
      lowest: each is `le` every element of the pool left outside the prefix. */
  lemma PrefixIsLowest<T, K>(s: seq<T>, pool: seq<T>, n: nat, key: T -> K, le: (K, K) -> bool)
    requires SortedBy(s, key, le) && multiset(s) == multiset(pool) && n <= |s|
    ensures multiset(s[..n]) <= multiset(pool)
    ensures forall x, y :: x in s[..n] && y in multiset(pool) - multiset(s[..n]) ==> le(key(x), key(y))
  {
    assert s == s[..n] + s[n..];
    assert multiset(pool) - multiset(s[..n]) == multiset(s[n..]);
    forall x, y | x in s[..n] && y in multiset(pool) - multiset(s[..n]) ensures le(key(x), key(y)) {
      var i :| 0 <= i < n && s[i] == x;
      assert y in s[n..];
      var j :| n <= j < |s| && s[j] == y;
    }
  }

  /** Iterative binary search on a sequence assumed ascending by `key`. It
      returns -1 or an index whose key equals `target`; when the order is a
      strict total order and the input really is ascending, -1 means absent. */
  method BinarySearchBy<T, K(==,!new)>(s: seq<T>, key: T -> K, target: K, less: (K, K) -> bool) returns (r: int)
    ensures r == -1 || (0 <= r < |s| && key(s[r]) == target)
    ensures r == -1 && StrictTotalOrder(less) && AscendingBy(s, key, less) ==>
              forall i :: 0 <= i < |s| ==> key(s[i]) != target
  {
    ghost var ordered := StrictTotalOrder(less) && AscendingBy(s, key, less);
    var lo, hi := 0, |s| - 1;
    while lo <= hi
      invariant 0 <= lo <= hi + 1 <= |s|
      invariant ordered ==> forall i :: 0 <= i < lo ==> less(key(s[i]), target)
      invariant ordered ==> forall i :: hi < i < |s| ==> less(target, key(s[i]))
      decreases hi - lo
    {
      var mid := (lo + hi) / 2;
      var v := key(s[mid]);
      if v == target {
        return mid;
      } else if less(v, target) {
        if ordered {
          forall i | 0 <= i <= mid ensures less(key(s[i]), target) {
            if i < mid {
              assert !less(key(s[mid]), key(s[i]));
            }
          }
        }
        lo := mid + 1;
      } else {
        if ordered {
          assert less(target, v);
          forall i | mid <= i < |s| ensures less(target, key(s[i])) {
            if i > mid {
              assert !less(key(s[i]), key(s[mid]));
            }
          }
        }
        hi := mid - 1;
      }
    }
    r := -1;
  }
}
