/**
 * The two routines of Go's `sort` package that the library relies on.
 *
 * `Search` is `sort.Search`, the lower-bound binary search behind every
 * membership test.  `SortBy` stands for `sort.Sort`: only its postcondition
 * matters (sorted by the key, a permutation of the input), so it is an
 * insertion sort, and callers rely on nothing but its ensures clauses.
 */
module Sorting {

  /** f is false on a prefix of [0, n) and true on the rest. */
  ghost predicate Monotone(f: nat -> bool, n: nat)
  {
    forall i: nat, j: nat :: i <= j < n && f(i) ==> f(j)
  }

  /** Go's `sort.Search(n, f)`: bisects [0, n) keeping f false left of `lo` and
      true from `hi` on.  Whatever f is, the index returned has f true there
      (or is n) and f false just before it (or is 0); for a monotone f it is
      the first index where f holds. */
  method Search(n: nat, f: nat -> bool) returns (i: nat)
    ensures i <= n
    ensures i < n ==> f(i)
    ensures 0 < i ==> !f(i - 1)
    ensures Monotone(f, n) ==> forall k: nat :: k < i ==> !f(k)
    ensures Monotone(f, n) ==> forall k: nat :: i <= k < n ==> f(k)
  {
    var lo: nat, hi: nat := 0, n;
    while lo < hi
      invariant lo <= hi <= n
      invariant 0 < lo ==> !f(lo - 1)
      invariant hi < n ==> f(hi)
      invariant Monotone(f, n) ==> forall k: nat :: k < lo ==> !f(k)
      invariant Monotone(f, n) ==> forall k: nat :: hi <= k < n ==> f(k)
    {
      var h := (lo + hi) / 2;
      if !f(h) {
        lo := h + 1;
      } else {
        hi := h;
      }
    }
    i := lo;
  }

  ghost predicate SortedBy<T>(s: seq<T>, key: T -> int)
  {
    forall i, j :: 0 <= i < j < |s| ==> key(s[i]) <= key(s[j])
  }

  /** Sorts by `key`; the result is ordered and holds the same elements. */
  method SortBy<T>(s: seq<T>, key: T -> int) returns (t: seq<T>)
    ensures SortedBy(t, key)
    ensures multiset(t) == multiset(s)
  {
    t := [];
    var i := 0;
    while i < |s|
      invariant i <= |s|
      invariant SortedBy(t, key)
      invariant multiset(t) == multiset(s[..i])
    {
      var x := s[i];
      var p := InsertionPoint(t, x, key);
      InsertKeepsSorted(t, p, x, key);
      InsertAddsElement(t, p, x);
      t := t[..p] + [x] + t[p..];
      assert s[..i + 1] == s[..i] + [x];
      i := i + 1;
    }
    assert s[..i] == s;
  }

  /** The first position whose key exceeds that of x (|t| if none does). */
  method InsertionPoint<T>(t: seq<T>, x: T, key: T -> int) returns (p: nat)
    requires SortedBy(t, key)
    ensures p <= |t|
    ensures forall k :: 0 <= k < p ==> key(t[k]) <= key(x)
    ensures p < |t| ==> key(x) < key(t[p])
  {
    p := 0;
    while p < |t| && key(t[p]) <= key(x)
      invariant p <= |t|
      invariant forall k :: 0 <= k < p ==> key(t[k]) <= key(x)
    {
      p := p + 1;
    }
  }

  /** Inserting x where the keys before are at most its key, and the keys
      after exceed it, keeps the sequence sorted. */
  lemma InsertKeepsSorted<T>(t: seq<T>, p: nat, x: T, key: T -> int)
    requires SortedBy(t, key) && p <= |t|
    requires forall k :: 0 <= k < p ==> key(t[k]) <= key(x)
    requires p < |t| ==> key(x) < key(t[p])
    ensures SortedBy(t[..p] + [x] + t[p..], key)
  {
    var t' := t[..p] + [x] + t[p..];
    forall i, j | 0 <= i < j < |t'|
      ensures key(t'[i]) <= key(t'[j])
    {
      if j < p {
        assert t'[i] == t[i] && t'[j] == t[j];
      } else if j == p {
        assert t'[i] == t[i];
      } else if i < p {
        assert t'[i] == t[i] && t'[j] == t[j - 1];
      } else if i == p {
        assert t'[j] == t[j - 1];
      } else {
        assert t'[i] == t[i - 1] && t'[j] == t[j - 1];
      }
    }
  }

  lemma InsertAddsElement<T>(t: seq<T>, p: nat, x: T)
    requires p <= |t|
    ensures multiset(t[..p] + [x] + t[p..]) == multiset(t) + multiset{x}
  {
    assert t == t[..p] + t[p..];
  }
}
