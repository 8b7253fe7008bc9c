/**
 * The sorted address set of set.go: a slice of addresses meant to be kept
 * strictly ascending.
 *
 * The class mirrors `Set`, whose one field is the slice.  `Add` splices an
 * address in at its lower bound, `Contains` is a lower-bound search, `Valid`
 * checks strict order, and `sort` (here `Sort`) sorts and then removes
 * duplicates in place.  That last loop writes the distinct values to the
 * front of the slice but its final truncation `in = in[:j+1]` only changes a
 * local variable, so the stored slice keeps its length: `Compacted` is what
 * it holds afterwards, and `SortResultValid` says when that is a valid set.
 * Addresses arrive already parsed: a failed `FromDots` is `None`.
 */
module AddressSets {
  import opened Bits
  import opened Wrappers
  import opened Sorting

  /** The sort key of `Set.Less` (set.go:29-31): the address itself. */
  function Value(x: u32): int
  {
    x
  }

  /** Ascending, duplicates allowed: what `sort.Sort` leaves. */
  ghost predicate Ascending(s: seq<u32>)
  {
    SortedBy(s, Value)
  }

  /** Strictly ascending: a valid set. */
  predicate StrictlyIncreasing(s: seq<u32>)
  {
    forall i, j :: 0 <= i < j < |s| ==> s[i] < s[j]
  }

  /** s without its repeated neighbours, built from the right end: the values
      the dedup loop of sort (set.go:114-124) writes to the front. */
  function Dedup(s: seq<u32>): (r: seq<u32>)
    ensures |r| <= |s|
    ensures |s| > 0 ==> |r| > 0 && r[|r| - 1] == s[|s| - 1]
  {
    if |s| <= 1 then s
    else
      var d := Dedup(s[..|s| - 1]);
      if s[|s| - 2] == s[|s| - 1] then d else d + [s[|s| - 1]]
  }

  /** The stored slice after sort (set.go:108-126) when sorting gave s: the
      distinct values in front, the rest of s left where it was. */
  function Compacted(s: seq<u32>): (r: seq<u32>)
    ensures |r| == |s|
  {
    if s == [] then [] else Dedup(s) + s[|Dedup(s)|..]
  }

  /** The addresses of the list that parse, in order. */
  function Parsed(xs: seq<Option<u32>>): (r: seq<u32>)
    ensures forall x :: x in r <==> Some(x) in xs
  {
    if xs == [] then []
    else
      var p := Parsed(xs[..|xs| - 1]);
      assert xs == xs[..|xs| - 1] + [xs[|xs| - 1]];
      if xs[|xs| - 1].Some? then p + [xs[|xs| - 1].value] else p
  }

  /** A Set (set.go:7-11). */
  class AddressSet {
    var elems: seq<u32>

    /** NewSet: empty, with room for `capacity` addresses (Go's `make`
        panics on a negative capacity). */
    constructor(capacity: int)
      requires capacity >= 0
      ensures elems == []
    {
      elems := [];
    }

    /** Len (set.go:19-21): the number of addresses stored. */
    function Len(): (n: nat)
      reads this
      ensures n == |elems|
    {
      |elems|
    }

    /** Contains (set.go:34-41): a lower-bound search and a look at the
        address found.  It never claims an address that is absent; on an
        ascending slice it finds every address that is there. */
    method Contains(x: Option<u32>) returns (found: bool)
      ensures found ==> x.Some? && x.value in elems
      ensures x.Some? && Ascending(elems) ==> (found <==> x.value in elems)
    {
      if x.None? {
        return false;
      }
      var s := elems;
      if Ascending(s) {
        AtLeastMonotone(s, x.value);
      }
      var i := Search(|s|, AtLeast(s, x.value));
      found := i < |s| && s[i] == x.value;
      if x.value in s && Ascending(s) {
        var k :| 0 <= k < |s| && s[k] == x.value;
        assert AtLeast(s, x.value)(k);
      }
    }

    /** Add (set.go:44-69): a lower-bound search, then nothing if the address
        is already at that place, else the address goes in there: at the end,
        or spliced in with the rest shifted right.  Whatever the slice holds,
        the address goes in after a smaller one and before a larger one; on an
        ascending slice it is added exactly when absent, and a valid set
        stays valid. */
    method Add(x: Option<u32>) returns (added: bool, ghost pos: nat)
      modifies this
      ensures !added ==> elems == old(elems)
      ensures x.None? ==> !added
      ensures x.Some? && !added ==> x.value in old(elems)
      ensures added ==> x.Some? && pos <= |old(elems)|
      ensures added ==> elems == old(elems)[..pos] + [x.value] + old(elems)[pos..]
      ensures added && pos > 0 ==> old(elems)[pos - 1] < x.value
      ensures added && pos < |old(elems)| ==> x.value < old(elems)[pos]
      ensures x.Some? && Ascending(old(elems)) ==> (added <==> x.value !in old(elems))
      ensures added && StrictlyIncreasing(old(elems)) ==> StrictlyIncreasing(elems)
    {
      pos := 0;
      if x.None? {
        return false, pos;
      }
      var v := x.value;
      var orig := elems;
      if Ascending(orig) {
        AtLeastMonotone(orig, v);
      }
      var i := Search(|orig|, AtLeast(orig, v));
      pos := i;
      if i == |orig| {
        elems := orig + [v];
        assert orig[..i] == orig && orig[i..] == [];
        if Ascending(orig) {
          AbsentAt(orig, i, v);
        }
        InsertKeepsStrict(orig, i, v);
        return true, pos;
      }
      if orig[i] == v {
        return false, pos;
      }
      elems := orig[..i] + [v] + orig[i..];
      if Ascending(orig) {
        AbsentAt(orig, i, v);
      }
      InsertKeepsStrict(orig, i, v);
      return true, pos;
    }

    /** Valid (set.go:85-97): true exactly when the slice is strictly
        ascending; the empty set is valid. */
    method Valid() returns (ok: bool)
      ensures ok <==> StrictlyIncreasing(elems)
    {
      var s := elems;
      if |s| == 0 {
        return true;
      }
      var last := s[0];
      for pos := 1 to |s|
        invariant last == s[pos - 1]
        invariant StrictlyIncreasing(s[..pos])
      {
        var val := s[pos];
        if val <= last {
          assert !StrictlyIncreasing(s) by {
            assert s[pos - 1] >= s[pos];
          }
          return false;
        }
        StrictSnoc(s, pos);
        last := val;
      }
      assert s[..|s|] == s;
      return true;
    }

    /** sort (set.go:108-126): `sort.Sort`, then the in-place dedup loop.
        The stored slice keeps its length (the truncation at set.go:125
        assigns a local), so it holds Compacted of the sorted slice. */
    method Sort() returns (ghost sorted: seq<u32>)
      modifies this
      ensures Ascending(sorted) && multiset(sorted) == multiset(old(elems))
      ensures elems == Compacted(sorted)
    {
      var input := elems;
      var s := SortBy(input, Value);
      sorted := s;
      if |s| == 0 {
        elems := s;
        return;
      }
      var compact := Compact(s);
      elems := compact;
    }

    /** The dedup loop of sort (set.go:114-124) on the sorted slice: j marks
        the last distinct value written, and only positions up to j are
        ever written, so the rest keeps the sorted values. */
    static method Compact(sorted: seq<u32>) returns (out: seq<u32>)
      requires |sorted| > 0
      ensures out == Compacted(sorted)
    {
      out := sorted;
      var j := 0;
      for i := 1 to |sorted|
        invariant j < i && |out| == |sorted|
        invariant out[..j + 1] == Dedup(sorted[..i])
        invariant out[j + 1..] == sorted[j + 1..]
      {
        CompactFacts(sorted, out, i, j);
        if out[j] == out[i] {
          continue;
        }
        var prev := out;
        j := j + 1;
        out := prev[j := prev[i]];
        CompactWrite(sorted, prev, i, j - 1);
      }
      CompactDone(sorted, out, j);
    }

    /** AddAll (set.go:72-82): every address that parses is appended, then
        the slice is sorted and deduplicated; the result is always true. */
    method AddAll(xs: seq<Option<u32>>) returns (ok: bool, ghost sorted: seq<u32>)
      modifies this
      ensures ok
      ensures Ascending(sorted) && multiset(sorted) == multiset(old(elems) + Parsed(xs))
      ensures elems == Compacted(sorted)
    {
      var input := AppendParsed(elems, xs);
      elems := input;
      sorted := Sort();
      return true, sorted;
    }

    /** The loop of AddAll (set.go:74-78). */
    static method AppendParsed(s: seq<u32>, xs: seq<Option<u32>>) returns (r: seq<u32>)
      ensures r == s + Parsed(xs)
    {
      r := s;
      for i := 0 to |xs|
        invariant r == s + Parsed(xs[..i])
      {
        assert xs[..i + 1][..i] == xs[..i];
        if xs[i].Some? {
          r := r + [xs[i].value];
        }
      }
      assert xs[..|xs|] == xs;
    }
  }

  /** What the dedup loop reads at step i: out[i] is still the sorted value,
      out[j] the last distinct one, and the prefix of length i + 1 gains
      sorted[i] exactly when it differs from sorted[i - 1]. */
  lemma CompactFacts(sorted: seq<u32>, out: seq<u32>, i: nat, j: nat)
    requires j < i < |sorted| && |out| == |sorted|
    requires out[..j + 1] == Dedup(sorted[..i]) && out[j + 1..] == sorted[j + 1..]
    ensures out[i] == sorted[i] && out[j] == sorted[i - 1]
    ensures sorted[i - 1] == sorted[i] ==> Dedup(sorted[..i + 1]) == out[..j + 1]
    ensures sorted[i - 1] != sorted[i] ==> Dedup(sorted[..i + 1]) == out[..j + 1] + [sorted[i]]
  {
    assert sorted[..i + 1][..i] == sorted[..i];
    assert out[i] == out[j + 1..][i - j - 1];
    assert out[j] == out[..j + 1][j];
  }

  /** When the dedup loop ends, the slice is Compacted of the sorted one. */
  lemma CompactDone(sorted: seq<u32>, out: seq<u32>, j: nat)
    requires j < |sorted| && |out| == |sorted|
    requires out[..j + 1] == Dedup(sorted[..|sorted|]) && out[j + 1..] == sorted[j + 1..]
    ensures out == Compacted(sorted)
  {
    assert sorted[..|sorted|] == sorted;
    assert out == out[..j + 1] + out[j + 1..];
  }

  /** The write `in[j] = in[i]` after j has moved on. */
  lemma CompactWrite(sorted: seq<u32>, prev: seq<u32>, i: nat, j: nat)
    requires j < i < |sorted| && |prev| == |sorted|
    requires prev[j + 1..] == sorted[j + 1..] && prev[i] == sorted[i]
    requires Dedup(sorted[..i + 1]) == prev[..j + 1] + [sorted[i]]
    ensures var out := prev[j + 1 := prev[i]];
      out[..j + 2] == Dedup(sorted[..i + 1]) && out[j + 2..] == sorted[j + 2..]
  {
    var out := prev[j + 1 := prev[i]];
    assert out[..j + 2] == prev[..j + 1] + [sorted[i]];
    assert out[j + 2..] == prev[j + 2..];
    assert prev[j + 2..] == prev[j + 1..][1..] && sorted[j + 2..] == sorted[j + 1..][1..];
  }

  /** The search predicate of Contains and Add: position k holds at least x. */
  function AtLeast(s: seq<u32>, x: int): nat -> bool
  {
    (k: nat) => k < |s| && s[k] >= x
  }

  /** On an ascending slice "at least x" is false on a prefix, true after. */
  lemma AtLeastMonotone(s: seq<u32>, x: int)
    requires Ascending(s)
    ensures Monotone(AtLeast(s, x), |s|)
  {
  }

  /** An address that is above everything before i and below s[i] is absent
      from an ascending slice. */
  lemma AbsentAt(s: seq<u32>, i: nat, v: u32)
    requires Ascending(s) && i <= |s|
    requires forall k :: 0 <= k < i ==> s[k] < v
    requires i < |s| ==> v < s[i]
    ensures v !in s
  {
    forall k | 0 <= k < |s| ensures s[k] != v {
      if k > i {
        assert Value(s[i]) <= Value(s[k]);
      }
    }
  }

  /** Inserting v after a smaller address and before a larger one keeps a
      strictly ascending slice so. */
  lemma InsertKeepsStrict(s: seq<u32>, i: nat, v: u32)
    requires i <= |s|
    requires i > 0 ==> s[i - 1] < v
    requires i < |s| ==> v < s[i]
    ensures StrictlyIncreasing(s) ==> StrictlyIncreasing(s[..i] + [v] + s[i..])
  {
    var t := s[..i] + [v] + s[i..];
    if StrictlyIncreasing(s) {
      forall a, b | 0 <= a < b < |t| ensures t[a] < t[b] {
        if b < i {
          assert t[a] == s[a] && t[b] == s[b];
        } else if b == i {
          assert t[a] == s[a] && s[a] <= s[i - 1];
        } else if a < i {
          assert t[a] == s[a] && t[b] == s[b - 1];
          if a < i - 1 {
            assert s[a] < s[i - 1];
          }
          if i < b - 1 {
            assert s[i] < s[b - 1];
          }
        } else if a == i {
          assert t[b] == s[b - 1] && s[i] <= s[b - 1];
        } else {
          assert t[a] == s[a - 1] && t[b] == s[b - 1];
        }
      }
    }
  }

  lemma StrictSnoc(s: seq<u32>, pos: nat)
    requires 1 <= pos < |s| && StrictlyIncreasing(s[..pos]) && s[pos - 1] < s[pos]
    ensures StrictlyIncreasing(s[..pos + 1])
  {
    var p := s[..pos + 1];
    forall a, b | 0 <= a < b < |p| ensures p[a] < p[b] {
      if b < pos {
        assert p[a] == s[..pos][a] && p[b] == s[..pos][b];
      } else if a < pos - 1 {
        assert p[a] == s[..pos][a] && s[pos - 1] == s[..pos][pos - 1];
      }
    }
  }

  /** Dedup of an ascending slice is strictly ascending. */
  lemma {:induction false} DedupStrict(s: seq<u32>)
    requires Ascending(s)
    ensures StrictlyIncreasing(Dedup(s))
  {
    if |s| > 1 {
      var init := s[..|s| - 1];
      assert Ascending(init) by {
        forall a, b | 0 <= a < b < |init| ensures Value(init[a]) <= Value(init[b]) {
          assert init[a] == s[a] && init[b] == s[b];
        }
      }
      DedupStrict(init);
      var d := Dedup(init);
      if s[|s| - 2] != s[|s| - 1] {
        assert Value(s[|s| - 2]) <= Value(s[|s| - 1]);
        StrictAppend(d, s[|s| - 1]);
      }
    }
  }

  /** Appending a value above the last of a strictly ascending slice keeps it so. */
  lemma StrictAppend(d: seq<u32>, v: u32)
    requires StrictlyIncreasing(d) && (|d| > 0 ==> d[|d| - 1] < v)
    ensures StrictlyIncreasing(d + [v])
  {
    var t := d + [v];
    forall a, b | 0 <= a < b < |t| ensures t[a] < t[b] {
      if b == |d| && a < |d| - 1 {
        assert d[a] < d[|d| - 1];
      }
    }
  }

  /** Dedup keeps every value and adds none. */
  lemma {:induction false} DedupElements(s: seq<u32>)
    ensures forall x :: x in Dedup(s) <==> x in s
  {
    if |s| > 1 {
      var init := s[..|s| - 1];
      DedupElements(init);
      assert s == init + [s[|s| - 1]];
      assert s[|s| - 2] == init[|init| - 1];
    }
  }

  /** A strictly ascending slice has nothing to remove. */
  lemma {:induction false} DedupOfStrict(s: seq<u32>)
    requires StrictlyIncreasing(s)
    ensures Dedup(s) == s
  {
    if |s| > 1 {
      var init := s[..|s| - 1];
      StrictInit(s);
      DedupOfStrict(init);
      assert s[|s| - 2] < s[|s| - 1];
      assert s == init + [s[|s| - 1]];
    }
  }

  lemma StrictInit(s: seq<u32>)
    requires StrictlyIncreasing(s) && s != []
    ensures StrictlyIncreasing(s[..|s| - 1])
  {
    var init := s[..|s| - 1];
    forall a, b | 0 <= a < b < |init| ensures init[a] < init[b] {
      assert init[a] == s[a] && init[b] == s[b];
    }
  }

  /** An ascending slice with a repeated address loses at least one position. */
  lemma {:induction false} DedupShorter(s: seq<u32>)
    requires Ascending(s) && !StrictlyIncreasing(s)
    ensures |Dedup(s)| < |s|
  {
    var init := s[..|s| - 1];
    assert |s| > 1;
    if s[|s| - 2] != s[|s| - 1] {
      assert Ascending(init) by {
        forall a, b | 0 <= a < b < |init| ensures Value(init[a]) <= Value(init[b]) {
          assert init[a] == s[a] && init[b] == s[b];
        }
      }
      assert Value(s[|s| - 2]) <= Value(s[|s| - 1]);
      assert init + [s[|s| - 1]] == s;
      StrictAppendIf(init, s[|s| - 1]);
      DedupShorter(init);
    }
  }

  lemma StrictAppendIf(d: seq<u32>, v: u32)
    requires |d| > 0 ==> d[|d| - 1] < v
    ensures StrictlyIncreasing(d) ==> StrictlyIncreasing(d + [v])
  {
    if StrictlyIncreasing(d) {
      StrictAppend(d, v);
    }
  }

  /** What sort leaves is a valid set exactly when the sorted slice had no
      repeated address: with a repeat, the stale tail after the distinct
      values breaks the order (set.go:125). */
  lemma SortResultValid(s: seq<u32>)
    requires Ascending(s)
    ensures StrictlyIncreasing(Compacted(s)) <==> StrictlyIncreasing(s)
    ensures StrictlyIncreasing(s) ==> Compacted(s) == s
  {
    if StrictlyIncreasing(s) {
      CompactedOfStrict(s);
    } else {
      CompactedOfRepeat(s);
    }
  }

  lemma CompactedOfStrict(s: seq<u32>)
    requires StrictlyIncreasing(s)
    ensures Compacted(s) == s
  {
    if s != [] {
      DedupOfStrict(s);
      assert s[|s|..] == [];
    }
  }

  lemma CompactedOfRepeat(s: seq<u32>)
    requires Ascending(s) && !StrictlyIncreasing(s)
    ensures !StrictlyIncreasing(Compacted(s))
  {
    DedupShorter(s);
    var d := Dedup(s);
    var c := Compacted(s);
    var n := |d|;
    assert c == d + s[n..];
    assert c[n - 1] == s[|s| - 1] by {
      assert c[n - 1] == d[n - 1];
    }
    assert c[n] == s[n] by {
      assert c[n] == s[n..][0];
    }
    assert Value(s[n]) <= Value(s[|s| - 1]);
  }

  /** The slice sort leaves holds exactly the addresses it held before. */
  lemma CompactedElements(s: seq<u32>)
    ensures forall x :: x in Compacted(s) <==> x in s
  {
    if s != [] {
      DedupElements(s);
      var d := Dedup(s);
      forall x | x in s[|d|..] ensures x in s {
        var k :| 0 <= k < |s[|d|..]| && s[|d|..][k] == x;
        assert s[|d| + k] == x;
      }
    }
  }

  /** After AddAll the set holds the addresses it held and those of the list
      that parse, and no others. */
  lemma AddAllHolds(init: seq<u32>, xs: seq<Option<u32>>, sorted: seq<u32>)
    requires multiset(sorted) == multiset(init + Parsed(xs))
    ensures forall x :: x in Compacted(sorted) <==> x in init || Some(x) in xs
  {
    CompactedElements(sorted);
    forall x ensures x in sorted <==> x in init + Parsed(xs) {
      assert x in sorted <==> x in multiset(sorted);
      assert x in init + Parsed(xs) <==> x in multiset(init + Parsed(xs));
    }
  }

  /** Two ascending slices with the same addresses, counted with repeats,
      are equal: what sort.Sort leaves is determined. */
  lemma {:induction false} AscendingUnique(a: seq<u32>, b: seq<u32>)
    requires Ascending(a) && Ascending(b) && multiset(a) == multiset(b)
    ensures a == b
    decreases |a|
  {
    if a != [] {
      SameHead(a, b);
      AscendingUnique(a[1..], b[1..]);
      assert a == [a[0]] + a[1..] && b == [b[0]] + b[1..];
    }
  }

  /** Two such slices start with the same address, and what follows it has
      again the same addresses in both. */
  lemma SameHead(a: seq<u32>, b: seq<u32>)
    requires Ascending(a) && Ascending(b) && multiset(a) == multiset(b) && a != []
    ensures b != [] && a[0] == b[0]
    ensures Ascending(a[1..]) && Ascending(b[1..]) && multiset(a[1..]) == multiset(b[1..])
  {
    SameLeast(a, b);
    SameLeast(b, a);
    assert a[0] == b[0];
    SplitHead(a);
    SplitHead(b);
    assert multiset(a[1..]) == multiset(a) - multiset{a[0]};
    assert multiset(b[1..]) == multiset(b) - multiset{b[0]};
    AscendingTail(a);
    AscendingTail(b);
  }

  /** The first of an ascending slice is at most every address of another
      slice with the same addresses. */
  lemma SameLeast(a: seq<u32>, b: seq<u32>)
    requires Ascending(b) && multiset(a) == multiset(b) && a != []
    ensures b != [] && b[0] <= a[0]
  {
    assert a[0] in multiset(a);
    var k :| 0 <= k < |b| && b[k] == a[0];
    if k > 0 {
      assert Value(b[0]) <= Value(b[k]);
    }
  }

  lemma SplitHead(s: seq<u32>)
    requires s != []
    ensures multiset(s) == multiset{s[0]} + multiset(s[1..])
  {
    assert s == [s[0]] + s[1..];
  }

  lemma AscendingTail(s: seq<u32>)
    requires Ascending(s) && s != []
    ensures Ascending(s[1..])
  {
    forall a, b | 0 <= a < b < |s| - 1 ensures Value(s[1..][a]) <= Value(s[1..][b]) {
      assert s[1..][a] == s[a + 1] && s[1..][b] == s[b + 1];
    }
  }

  /** The effect of the truncation at set.go:125: sorting 2, 1, 1 leaves the
      slice 1, 2, 2, which is not a valid set. */
  lemma RepeatLeft(sorted: seq<u32>)
    requires Ascending(sorted) && multiset(sorted) == multiset([2, 1, 1])
    ensures sorted == [1, 1, 2]
    ensures Compacted(sorted) == [1, 2, 2] && !StrictlyIncreasing(Compacted(sorted))
  {
    var expected: seq<u32> := [1, 1, 2];
    assert multiset(expected) == multiset([2, 1, 1]);
    assert Ascending(expected);
    AscendingUnique(sorted, expected);
    RepeatCompacted();
    var c: seq<u32> := [1, 2, 2];
    assert c[1] == c[2];
  }

  lemma RepeatCompacted()
    ensures Compacted([1, 1, 2]) == [1, 2, 2]
  {
    var s: seq<u32> := [1, 1, 2];
    assert s[..2] == [1, 1] && s[..2][..1] == [1];
    assert Dedup(s) == [1, 2];
  }
}
