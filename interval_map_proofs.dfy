/**
 * What the interval map of map.go guarantees, proved about the functions
 * that specify it in module IntervalMaps.
 *
 * The central result, AddKeepsOrder, is about one call of add on a map that
 * Valid accepts: whatever order `sort.Sort` picks for equal left ends, the
 * coalescing pass leaves the intervals sorted and pairwise disjoint, with no
 * two adjacent intervals that could have been merged.  The pass never adds
 * an address that was in neither the map nor the new interval, it keeps
 * every address of the new interval, and it keeps every stored address
 * except, possibly, those past the new interval's end in a stored interval
 * that starts inside the new one: map.go:106 sets the end to the new
 * interval's end, which cuts such an interval short (InsertCutsTail).
 */
module IntervalMapProofs {
  import opened Bits
  import opened Wrappers
  import opened Sorting
  import opened IntervalMaps

  /** No two neighbours could be joined by the continuation rule of add. */
  ghost predicate NoMergeable<V>(s: seq<Interval<V>>)
  {
    forall k :: 0 <= k < |s| - 1 ==> !(s[k].right + 1 == s[k + 1].left && s[k].value == s[k + 1].value)
  }

  /** Valid (FirstDefect) accepts exactly the well-ordered slices whose
      intervals span at most 255 << 24 addresses. */
  lemma ValidIff<V>(s: seq<Interval<V>>)
    ensures FirstDefect(s).None? <==> WellOrdered(s) && SpansBounded(s)
  {
    if FirstDefect(s).None? {
      forall k | 0 <= k < |s| ensures s[k].left <= s[k].right && s[k].right - s[k].left <= VALID_SPAN_LIMIT {
        assert Defect(s, k).None?;
      }
      forall k | 0 <= k < |s| - 1 ensures s[k].right < s[k + 1].left {
        assert Defect(s, k + 1).None?;
      }
    } else {
      var q :| 0 <= q < |s| && Defect(s, q).Some?;
      if q > 0 && s[q].left <= s[q].right {
        assert s[q - 1].right < s[q].left ==> WellOrdered(s) ==> s[q - 1].left <= s[q - 1].right;
      }
    }
  }

  /** Two slices sorted by left end with the same elements are equal when the
      left ends of one of them strictly increase. */
  lemma {:induction false} SortedUnique<V>(a: seq<Interval<V>>, b: seq<Interval<V>>)
    requires SortedBy(a, LeftOf) && SortedBy(b, LeftOf) && multiset(a) == multiset(b)
    requires forall k :: 0 <= k < |a| - 1 ==> a[k].left < a[k + 1].left
    ensures a == b
  {
    assert |b| == |a| by {
      assert |multiset(a)| == |a| && |multiset(b)| == |b|;
    }
    if |a| > 0 {
      SameHead(a, b);
      SameTailElements(a, b);
      SortedTail(a);
      SortedTail(b);
      SortedUnique(a[1..], b[1..]);
      assert a == [a[0]] + a[1..] && b == [b[0]] + b[1..];
    }
  }

  lemma SameHead<V>(a: seq<Interval<V>>, b: seq<Interval<V>>)
    requires SortedBy(a, LeftOf) && SortedBy(b, LeftOf) && multiset(a) == multiset(b)
    requires forall k :: 0 <= k < |a| - 1 ==> a[k].left < a[k + 1].left
    requires 0 < |a| && 0 < |b|
    ensures a[0] == b[0]
  {
    assert a[0] in multiset(b);
    var j :| 0 <= j < |b| && b[j] == a[0];
    assert b[0] in multiset(a);
    var i :| 0 <= i < |a| && a[i] == b[0];
    assert LeftOf(b[0]) <= LeftOf(b[j]);
    if i > 0 {
      StrictFromFirst(a, i);
    }
  }

  lemma SameTailElements<V>(a: seq<Interval<V>>, b: seq<Interval<V>>)
    requires multiset(a) == multiset(b) && 0 < |a| && 0 < |b| && a[0] == b[0]
    ensures multiset(a[1..]) == multiset(b[1..])
  {
    assert a == [a[0]] + a[1..] && b == [b[0]] + b[1..];
    assert multiset(a[1..]) == multiset(a) - multiset{a[0]};
    assert multiset(b[1..]) == multiset(b) - multiset{b[0]};
  }

  lemma SortedTail<V>(a: seq<Interval<V>>)
    requires SortedBy(a, LeftOf) && |a| > 0
    ensures SortedBy(a[1..], LeftOf)
  {
    forall i, j | 0 <= i < j < |a[1..]| ensures LeftOf(a[1..][i]) <= LeftOf(a[1..][j]) {
      assert a[1..][i] == a[i + 1] && a[1..][j] == a[j + 1];
    }
  }

  lemma {:induction false} StrictFromFirst<V>(a: seq<Interval<V>>, i: nat)
    requires forall k :: 0 <= k < |a| - 1 ==> a[k].left < a[k + 1].left
    requires 0 < i < |a|
    ensures a[0].left < a[i].left
  {
    if i > 1 {
      StrictFromFirst(a, i - 1);
    }
  }

  /** Removing one position from a slice sorted by left end leaves it sorted. */
  lemma SortedWithout<V>(s: seq<Interval<V>>, p: nat)
    requires SortedBy(s, LeftOf) && p < |s|
    ensures SortedBy(s[..p] + s[p + 1..], LeftOf)
  {
    var t := s[..p] + s[p + 1..];
    forall i, j | 0 <= i < j < |t| ensures LeftOf(t[i]) <= LeftOf(t[j]) {
      var i' := if i < p then i else i + 1;
      var j' := if j < p then j else j + 1;
      assert t[i] == s[i'] && t[j] == s[j'];
    }
  }

  /** The slice `sort.Sort` produces from a well-ordered map with one interval
      appended is the map with that interval inserted at some position p. */
  lemma SplitArrangement<V>(before: seq<Interval<V>>, iv: Interval<V>, s: seq<Interval<V>>) returns (p: nat)
    requires WellOrdered(before) && Arranged(s, before + [iv])
    ensures p < |s| && s[p] == iv && s[..p] + s[p + 1..] == before
  {
    assert iv in multiset(before + [iv]);
    assert iv in multiset(s);
    p :| 0 <= p < |s| && s[p] == iv;
    var t := s[..p] + s[p + 1..];
    assert s == s[..p] + [iv] + s[p + 1..];
    assert multiset(t) == multiset(before) by {
      assert multiset(s) == multiset(s[..p]) + multiset{iv} + multiset(s[p + 1..]);
      assert multiset(t) == multiset(s[..p]) + multiset(s[p + 1..]);
      assert multiset(before + [iv]) == multiset(before) + multiset{iv};
      assert multiset(t) == multiset(s) - multiset{iv};
      assert multiset(before) == multiset(before + [iv]) - multiset{iv};
    }
    SortedWithout(s, p);
    assert SortedBy(before, LeftOf) by {
      LeftsIncrease(before);
    }
    SortedUnique(before, t);
  }

  /** The slice the pass runs over: sorted by left end, non-empty intervals,
      and apart from the new interval at p, pairwise separated. */
  ghost predicate InsertionShape<V>(s: seq<Interval<V>>, p: nat)
  {
    && SortedBy(s, LeftOf)
    && p < |s|
    && (forall k :: 0 <= k < |s| ==> s[k].left <= s[k].right)
    && (forall j, k :: 0 <= j < k < |s| && j != p && k != p ==> s[j].right < s[k].left)
  }

  /** The pass is in its overlap branch (map.go:105-108) for val. */
  predicate OverlapCase<V>(last: Interval<V>, val: Interval<V>)
  {
    !(val.left >= last.left && val.right <= last.right) && val.left >= last.left && val.left <= last.right
  }

  /** The last interval ends before every stored interval from s[i] on. */
  ghost predicate EndsBefore<V>(s: seq<Interval<V>>, p: nat, i: nat, last: Interval<V>)
  {
    forall j :: i <= j < |s| && j != p ==> last.right < s[j].left
  }

  /** The new interval s[p] has been handled and the last interval, which
      starts no later than it, ends where it ends. */
  ghost predicate EndsAtNew<V>(s: seq<Interval<V>>, p: nat, i: nat, last: Interval<V>)
    requires p < |s|
  {
    p < i && last.right == s[p].right && last.left <= s[p].left
  }

  /** x lies in the part of b that add may cut off when adding iv: b starts
      inside iv and x is past iv's end (map.go:106). */
  predicate CutBy<V>(b: Interval<V>, iv: Interval<V>, x: int)
  {
    iv.left <= b.left <= iv.right < x
  }

  /** What holds once the pass has handled s[1..i] and built acc: acc is well
      ordered and has no mergeable neighbours; its last interval starts no
      later than s[i - 1] and either ends before every stored interval still
      to come, or ends where the new interval ends; it covers only addresses
      of s, and all addresses of s[..i] that add keeps. */
  ghost predicate PassInvariant<V>(s: seq<Interval<V>>, p: nat, i: nat, acc: seq<Interval<V>>)
    requires InsertionShape(s, p) && 1 <= i <= |s|
  {
    && |acc| > 0
    && WellOrdered(acc)
    && NoMergeable(acc)
    && acc[|acc| - 1].left <= s[i - 1].left
    && (EndsBefore(s, p, i, acc[|acc| - 1]) || EndsAtNew(s, p, i, acc[|acc| - 1]))
    && (forall x :: Covered(acc, x) ==> Covered(s, x))
    && (forall j, x :: 0 <= j < i && Holds(s[j], x) && !CutBy(s[j], s[p], x) ==>
          Covered(acc, x))
  }

  /** A step keeps the slice well ordered when the overlap branch sets an end
      no smaller than the last interval's start. */
  lemma StepOrdered<V>(acc: seq<Interval<V>>, val: Interval<V>, right: u32)
    requires |acc| > 0 && WellOrdered(acc) && val.left <= val.right
    requires acc[|acc| - 1].left <= val.left
    requires OverlapCase(acc[|acc| - 1], val) ==> acc[|acc| - 1].left <= right
    ensures WellOrdered(Step(acc, val, right))
    ensures NoMergeable(acc) ==> NoMergeable(Step(acc, val, right))
  {
    var last := acc[|acc| - 1];
    var r := Step(acc, val, right);
    if !(val.left >= last.left && val.right <= last.right) && !(val.left >= last.left && val.left <= last.right) {
      if !(val.left == Add32(last.right, 1) && val.value == last.value) {
        assert r == acc + [val];
        assert last.right < val.left;
        forall k | 0 <= k < |r| - 1 ensures r[k].right < r[k + 1].left {
          if k < |acc| - 1 {
            assert r[k] == acc[k] && r[k + 1] == acc[k + 1];
          }
        }
      }
    }
  }

  /** A step never loses an address the slice covered, as long as the overlap
      branch does not shorten the last interval, and it covers val (up to
      `right` in the overlap branch). */
  lemma StepGrows<V>(acc: seq<Interval<V>>, val: Interval<V>, right: u32)
    requires |acc| > 0 && acc[|acc| - 1].left <= val.left
    requires OverlapCase(acc[|acc| - 1], val) ==> acc[|acc| - 1].right <= right
    ensures forall x :: Covered(acc, x) ==> Covered(Step(acc, val, right), x)
    ensures forall x :: Holds(val, x) && (OverlapCase(acc[|acc| - 1], val) ==> x <= right) ==>
      Covered(Step(acc, val, right), x)
  {
    var n := |acc|;
    var last := acc[n - 1];
    var r := Step(acc, val, right);
    assert |r| >= n && r[n - 1].left == last.left && r[n - 1].right >= last.right;
    forall x | Covered(acc, x) ensures Covered(r, x) {
      var k :| 0 <= k < n && Holds(acc[k], x);
      if k < n - 1 {
        assert r[k] == acc[k];
      } else {
        assert Holds(r[n - 1], x);
      }
    }
    forall x | Holds(val, x) && (OverlapCase(last, val) ==> x <= right) ensures Covered(r, x) {
      if |r| == n + 1 {
        assert r[n] == val;
      } else {
        assert Holds(r[n - 1], x);
      }
    }
  }

  /** A step covers nothing beyond the slice, val, and in the overlap branch
      the stretch from the last interval's start to `right`. */
  lemma StepSound<V>(acc: seq<Interval<V>>, val: Interval<V>, right: u32)
    requires |acc| > 0
    ensures forall x :: Covered(Step(acc, val, right), x) ==>
      Covered(acc, x) || Holds(val, x) ||
      (OverlapCase(acc[|acc| - 1], val) && acc[|acc| - 1].left <= x <= right)
  {
    var n := |acc|;
    var last := acc[n - 1];
    var r := Step(acc, val, right);
    forall x | Covered(r, x)
      ensures Covered(acc, x) || Holds(val, x) || (OverlapCase(last, val) && last.left <= x <= right)
    {
      var k :| 0 <= k < |r| && Holds(r[k], x);
      if k < n - 1 {
        assert r[k] == acc[k];
      } else if k == n - 1 && r[k] == last {
        assert Holds(acc[n - 1], x);
      } else if k == n - 1 && x <= last.right {
        assert Holds(acc[n - 1], x);
      }
    }
  }

  /** The pass starts in the invariant. */
  lemma PassStarts<V>(s: seq<Interval<V>>, p: nat, acc: seq<Interval<V>>)
    requires InsertionShape(s, p) && acc == [s[0]]
    ensures PassInvariant(s, p, 1, acc)
  {
    forall x | Covered(acc, x) ensures Covered(s, x) {
      assert Holds(s[0], x);
    }
    forall j, x | 0 <= j < 1 && Holds(s[j], x) ensures Covered(acc, x) {
      assert acc[0] == s[0];
    }
  }

  /** What the invariant says about the branch the next step takes: the
      overlap branch is only reached with the new interval as val, or once
      the last interval ends where the new one does. */
  lemma OverlapFacts<V>(s: seq<Interval<V>>, p: nat, i: nat, last: Interval<V>)
    requires InsertionShape(s, p) && 1 <= i < |s|
    requires last.left <= last.right && last.left <= s[i - 1].left
    requires EndsBefore(s, p, i, last) || EndsAtNew(s, p, i, last)
    ensures last.left <= s[i].left
    ensures OverlapCase(last, s[i]) ==> last.left <= s[p].right && last.right <= s[p].right
    ensures OverlapCase(last, s[i]) && EndsBefore(s, p, i, last) ==> i == p
  {
    assert LeftOf(s[i - 1]) <= LeftOf(s[i]);
    if OverlapCase(last, s[i]) && EndsBefore(s, p, i, last) {
      assert i == p;
    }
  }

  /** Where the last interval ends after one more step. */
  lemma StepState<V>(s: seq<Interval<V>>, p: nat, i: nat, acc: seq<Interval<V>>)
    requires InsertionShape(s, p) && 1 <= i < |s| && |acc| > 0
    requires acc[|acc| - 1].left <= acc[|acc| - 1].right && acc[|acc| - 1].left <= s[i - 1].left
    requires EndsBefore(s, p, i, acc[|acc| - 1]) || EndsAtNew(s, p, i, acc[|acc| - 1])
    ensures var acc' := Step(acc, s[i], s[p].right);
      && acc'[|acc'| - 1].left <= s[i].left
      && (EndsBefore(s, p, i + 1, acc'[|acc'| - 1]) || EndsAtNew(s, p, i + 1, acc'[|acc'| - 1]))
  {
    var last := acc[|acc| - 1];
    var val := s[i];
    var acc' := Step(acc, val, s[p].right);
    var last' := acc'[|acc'| - 1];
    OverlapFacts(s, p, i, last);
    if i == p {
      if val.left >= last.left && val.right <= last.right {
        assert EndsBefore(s, p, i, last);
        assert EndsBefore(s, p, i + 1, last');
      } else {
        assert LeftOf(s[i - 1]) <= LeftOf(s[p]);
        assert EndsAtNew(s, p, i + 1, last');
      }
    } else if !(val.left >= last.left && val.right <= last.right) && !OverlapCase(last, val) {
      assert last' == last.(right := val.right) || last' == val;
      forall j | i + 1 <= j < |s| && j != p ensures last'.right < s[j].left {
        assert s[i].right < s[j].left;
      }
    }
  }

  /** One iteration of the pass keeps the invariant. */
  lemma PassSteps<V>(s: seq<Interval<V>>, p: nat, i: nat, acc: seq<Interval<V>>, acc': seq<Interval<V>>)
    requires InsertionShape(s, p) && 1 <= i < |s| && PassInvariant(s, p, i, acc)
    requires acc' == Step(acc, s[i], s[p].right)
    ensures PassInvariant(s, p, i + 1, acc')
  {
    var right := s[p].right;
    var last := acc[|acc| - 1];
    var val := s[i];
    OverlapFacts(s, p, i, last);
    StepOrdered(acc, val, right);
    StepGrows(acc, val, right);
    StepSound(acc, val, right);
    StepState(s, p, i, acc);
    PassSound(s, p, i, acc, acc');
    PassKeeps(s, p, i, acc, acc');
  }

  lemma PassSound<V>(s: seq<Interval<V>>, p: nat, i: nat, acc: seq<Interval<V>>, acc': seq<Interval<V>>)
    requires InsertionShape(s, p) && 1 <= i < |s| && |acc| > 0
    requires acc' == Step(acc, s[i], s[p].right)
    requires acc[|acc| - 1].left <= acc[|acc| - 1].right
    requires OverlapCase(acc[|acc| - 1], s[i]) && EndsBefore(s, p, i, acc[|acc| - 1]) ==> i == p
    requires EndsBefore(s, p, i, acc[|acc| - 1]) || EndsAtNew(s, p, i, acc[|acc| - 1])
    requires forall x :: Covered(acc, x) ==> Covered(s, x)
    requires forall x :: Covered(acc', x) ==>
      Covered(acc, x) || Holds(s[i], x) ||
      (OverlapCase(acc[|acc| - 1], s[i]) && acc[|acc| - 1].left <= x <= s[p].right)
    ensures forall x :: Covered(acc', x) ==> Covered(s, x)
  {
    var last := acc[|acc| - 1];
    forall x | Covered(acc', x) ensures Covered(s, x) {
      if Holds(s[i], x) {
      } else if !Covered(acc, x) {
        if x <= last.right {
          assert Holds(acc[|acc| - 1], x);
        } else {
          assert Holds(s[p], x);
        }
      }
    }
  }

  lemma PassKeeps<V>(s: seq<Interval<V>>, p: nat, i: nat, acc: seq<Interval<V>>, acc': seq<Interval<V>>)
    requires InsertionShape(s, p) && 1 <= i < |s| && |acc| > 0
    requires acc' == Step(acc, s[i], s[p].right)
    requires OverlapCase(acc[|acc| - 1], s[i]) && EndsBefore(s, p, i, acc[|acc| - 1]) ==> i == p
    requires EndsBefore(s, p, i, acc[|acc| - 1]) || EndsAtNew(s, p, i, acc[|acc| - 1])
    requires forall j, x :: 0 <= j < i && Holds(s[j], x) && !CutBy(s[j], s[p], x) ==>
      Covered(acc, x)
    requires forall x :: Covered(acc, x) ==> Covered(acc', x)
    requires forall x :: Holds(s[i], x) && (OverlapCase(acc[|acc| - 1], s[i]) ==> x <= s[p].right) ==> Covered(acc', x)
    ensures forall j, x :: 0 <= j < i + 1 && Holds(s[j], x) && !CutBy(s[j], s[p], x) ==>
      Covered(acc', x)
  {
    forall j, x | 0 <= j < i + 1 && Holds(s[j], x) && !CutBy(s[j], s[p], x)
      ensures Covered(acc', x)
    {
      if j == i && OverlapCase(acc[|acc| - 1], s[i]) && p < i {
        assert LeftOf(s[p]) <= LeftOf(s[i]);
      }
    }
  }

  /** PassSteps, stated for the count i of intervals handled afterwards. */
  lemma PassAdvances<V>(s: seq<Interval<V>>, p: nat, i: nat, acc: seq<Interval<V>>, acc': seq<Interval<V>>)
    requires InsertionShape(s, p) && 2 <= i <= |s| && PassInvariant(s, p, i - 1, acc)
    requires acc' == Step(acc, s[i - 1], s[p].right)
    ensures PassInvariant(s, p, i, acc')
  {
    PassSteps(s, p, i - 1, acc, acc');
  }

  /** The invariant holds all through the pass. */
  lemma {:induction false} PassHolds<V>(s: seq<Interval<V>>, p: nat, i: nat, acc: seq<Interval<V>>)
    requires InsertionShape(s, p) && 1 <= i <= |s| && acc == Merged(s, s[p].right, i)
    ensures PassInvariant(s, p, i, acc)
  {
    if i == 1 {
      PassStarts(s, p, acc);
    } else {
      var prev := Merged(s, s[p].right, i - 1);
      PassHolds(s, p, i - 1, prev);
      PassAdvances(s, p, i, prev, acc);
    }
  }

  /** The positions of s other than p hold the stored intervals in order. */
  lemma ShapeOf<V>(before: seq<Interval<V>>, iv: Interval<V>, s: seq<Interval<V>>, p: nat)
    requires WellOrdered(before) && iv.left <= iv.right && SortedBy(s, LeftOf)
    requires p < |s| && s[p] == iv && s[..p] + s[p + 1..] == before
    ensures InsertionShape(s, p)
    ensures forall j :: 0 <= j < |s| && j != p ==> s[j] == before[if j < p then j else j - 1]
  {
    forall j | 0 <= j < |s| && j != p ensures s[j] == before[if j < p then j else j - 1] {
      if j < p {
        assert s[j] == (s[..p] + s[p + 1..])[j];
      } else {
        assert s[j] == (s[..p] + s[p + 1..])[j - 1];
      }
    }
    LeftsIncrease(before);
  }

  /** A stored address that add keeps, whatever order `sort.Sort` picks:
      one of an interval that starts before iv, or after iv's end, and any
      address up to iv's end.  Only an address past iv's end in an interval
      that starts inside iv can be lost (CutBy; InsertCutsTail). */
  ghost predicate Kept<V>(before: seq<Interval<V>>, iv: Interval<V>, x: int)
  {
    exists k :: 0 <= k < |before| && Holds(before[k], x) && !CutBy(before[k], iv, x)
  }

  /** add on a well-ordered map (one Valid accepts, by ValidIff): the result
      is well ordered whatever `sort.Sort` did with equal left ends; an
      accepted interval leaves no mergeable neighbours and is covered in
      full; nothing outside the map and the interval is covered; every
      stored address is kept except, possibly, one past the new interval's
      end in a stored interval that starts inside the new one (Kept); and the only error Valid can then report is an
      interval grown beyond 255 << 24 addresses by merging. */
  lemma AddKeepsOrder<V>(before: seq<Interval<V>>, iv: Interval<V>, after: seq<Interval<V>>,
                         err: Option<MapError>, arranged: seq<Interval<V>>)
    requires WellOrdered(before)
    requires Inserted(before, iv, after, err, arranged)
    ensures WellOrdered(after)
    ensures iv.left <= iv.right && iv.right - iv.left < ADD_SPAN_LIMIT ==>
      NoMergeable(after) && forall x :: Holds(iv, x) ==> Covered(after, x)
    ensures forall x :: Covered(after, x) ==> Covered(before, x) || Holds(iv, x)
    ensures forall x :: Kept(before, iv, x) ==> Covered(after, x)
    ensures err.None? <==> iv.left <= iv.right && iv.right - iv.left < ADD_SPAN_LIMIT && SpansBounded(after)
    ensures err.Some? ==> err.value.Inverted? || err.value.TooLarge?
  {
    if iv.left > iv.right || iv.right - iv.left >= ADD_SPAN_LIMIT {
      forall x | Kept(before, iv, x) ensures Covered(after, x) {
        var k :| 0 <= k < |before| && Holds(before[k], x) && !CutBy(before[k], iv, x);
      }
    } else if before == [] {
      assert after[0] == iv;
      forall x | Holds(iv, x) ensures Covered(after, x) {
        assert Holds(after[0], x);
      }
      forall x | Covered(after, x) ensures Holds(iv, x) {
        var k :| 0 <= k < |after| && Holds(after[k], x);
      }
    } else {
      var p := SplitArrangement(before, iv, arranged);
      PassOutcome(before, iv, arranged, p);
      ValidIff(after);
      if err.Some? {
        ValidReports(after);
      }
    }
  }

  /** add keeps a canonical map canonical, accepted or not: so every map
      built by add from an empty one (which is canonical) is canonical, and
      the lemmas below that require Canonical apply to it. */
  lemma AddKeepsCanonical<V>(before: seq<Interval<V>>, iv: Interval<V>, after: seq<Interval<V>>,
                             err: Option<MapError>, arranged: seq<Interval<V>>)
    requires Canonical(before)
    requires Inserted(before, iv, after, err, arranged)
    ensures Canonical(after)
  {
    CanonicalMeans(before);
    AddKeepsOrder(before, iv, after, err, arranged);
    CanonicalMeans(after);
  }

  /** The coalescing pass over a stored map with iv inserted at p. */
  lemma PassOutcome<V>(before: seq<Interval<V>>, iv: Interval<V>, s: seq<Interval<V>>, p: nat)
    requires WellOrdered(before) && iv.left <= iv.right && SortedBy(s, LeftOf)
    requires p < |s| && s[p] == iv && s[..p] + s[p + 1..] == before
    ensures var after := Coalesce(s, iv.right);
      && WellOrdered(after) && NoMergeable(after)
      && (forall x :: Holds(iv, x) ==> Covered(after, x))
      && (forall x :: Covered(after, x) ==> Covered(before, x) || Holds(iv, x))
      && (forall x :: Kept(before, iv, x) ==> Covered(after, x))
  {
    var after := Coalesce(s, iv.right);
    ShapeOf(before, iv, s, p);
    PassHolds(s, p, |s|, after);
    assert PassInvariant(s, p, |s|, after);
    OutcomeSound(before, iv, s, p, after);
    OutcomeKeeps(before, iv, s, p, after);
  }

  lemma OutcomeSound<V>(before: seq<Interval<V>>, iv: Interval<V>, s: seq<Interval<V>>, p: nat, after: seq<Interval<V>>)
    requires p < |s| && s[p] == iv && |before| + 1 == |s|
    requires forall j :: 0 <= j < |s| && j != p ==> s[j] == before[if j < p then j else j - 1]
    requires forall x :: Covered(after, x) ==> Covered(s, x)
    ensures forall x :: Covered(after, x) ==> Covered(before, x) || Holds(iv, x)
  {
    forall x | Covered(after, x) ensures Covered(before, x) || Holds(iv, x) {
      var j :| 0 <= j < |s| && Holds(s[j], x);
      if j != p {
        assert Holds(before[if j < p then j else j - 1], x);
      }
    }
  }

  lemma OutcomeKeeps<V>(before: seq<Interval<V>>, iv: Interval<V>, s: seq<Interval<V>>, p: nat, after: seq<Interval<V>>)
    requires p < |s| && s[p] == iv && s[..p] + s[p + 1..] == before
    requires forall j, x :: 0 <= j < |s| && Holds(s[j], x) && !CutBy(s[j], s[p], x) ==>
      Covered(after, x)
    ensures forall x :: Holds(iv, x) ==> Covered(after, x)
    ensures forall x :: Kept(before, iv, x) ==> Covered(after, x)
  {
    forall x | Holds(iv, x) ensures Covered(after, x) {
      assert Holds(s[p], x);
    }
    forall x | Kept(before, iv, x) ensures Covered(after, x) {
      var k :| 0 <= k < |before| && Holds(before[k], x) && !CutBy(before[k], iv, x);
      var j := if k < p then k else k + 1;
      assert s[j] == before[k] by {
        if k < p {
          assert before[k] == s[..p][k];
        } else {
          assert before[k] == s[p + 1..][k - p];
        }
      }
      assert Holds(s[j], x);
    }
  }

  /** On a well-ordered slice, Valid can only complain about a span. */
  lemma ValidReports<V>(s: seq<Interval<V>>)
    requires WellOrdered(s) && FirstDefect(s).Some?
    ensures FirstDefect(s).value.TooLarge?
  {
    var q :| 0 <= q < |s| && FirstDefect(s) == Defect(s, q);
    if q > 0 {
      assert s[q - 1].right < s[q].left;
    }
  }

  /** b starts after a ends and does not continue it. */
  ghost predicate Apart<V>(a: Interval<V>, b: Interval<V>)
  {
    a.right < b.left && !(a.right + 1 == b.left && a.value == b.value)
  }

  /** s[i..n] is canonical, stated on the indices of s. */
  ghost predicate CanonicalRun<V>(s: seq<Interval<V>>, i: nat, n: nat)
    requires i <= n <= |s|
  {
    && (forall k :: i <= k < n ==> s[k].left <= s[k].right)
    && (forall k :: i <= k < n - 1 ==> Apart(s[k], s[k + 1]))
  }

  /** Well ordered with no mergeable neighbours (CanonicalMeans): what maps
      built by add look like. */
  ghost predicate Canonical<V>(s: seq<Interval<V>>)
  {
    CanonicalRun(s, 0, |s|)
  }

  lemma CanonicalMeans<V>(s: seq<Interval<V>>)
    ensures Canonical(s) <==> WellOrdered(s) && NoMergeable(s)
  {
    if WellOrdered(s) && NoMergeable(s) {
      forall k | 0 <= k < |s| - 1 ensures Apart(s[k], s[k + 1]) {
      }
    }
  }

  /** A stretch of t that copies a stretch of a canonical slice is canonical. */
  lemma TailRun<V>(before: seq<Interval<V>>, t: seq<Interval<V>>, m: nat)
    requires Canonical(before) && m <= |before| && |t| == |before| + 1
    requires t[m + 1..] == before[m..]
    ensures CanonicalRun(t, m + 1, |t|)
  {
    forall k | m + 1 <= k < |t| ensures t[k] == before[k - 1] {
      assert t[k] == t[m + 1..][k - m - 1];
    }
    forall k | m + 1 <= k < |t| - 1 ensures Apart(t[k], t[k + 1]) {
      assert t[k] == before[k - 1] && t[k + 1] == before[k];
    }
  }

  /** Once the pass has built m from s[..i], if its last interval ends
      before s[i] without touching it mergeably and s[i..n] is canonical,
      the pass just appends s[i..n]. */
  lemma {:induction false} RunAppends<V>(s: seq<Interval<V>>, right: u32, i: nat, n: nat, m: seq<Interval<V>>)
    requires 1 <= i <= n <= |s| && CanonicalRun(s, i, n) && m == Merged(s, right, i)
    requires i < n ==> Apart(m[|m| - 1], s[i])
    ensures Merged(s, right, n) == m + s[i..n]
    decreases n - i
  {
    if n > i {
      RunFacts(s, i, n);
      RunAppends(s, right, i, n - 1, m);
      var last := if n - 1 > i then s[n - 2] else m[|m| - 1];
      AppendsOne(m, s, i, n, Merged(s, right, n - 1), Merged(s, right, n), last, right);
    }
  }

  lemma RunFacts<V>(s: seq<Interval<V>>, i: nat, n: nat)
    requires i < n <= |s| && CanonicalRun(s, i, n)
    ensures CanonicalRun(s, i, n - 1) && s[n - 1].left <= s[n - 1].right
    ensures n - 1 > i ==> Apart(s[n - 2], s[n - 1])
  {
  }

  /** One step of RunAppends, on values. */
  lemma AppendsOne<V>(m: seq<Interval<V>>, s: seq<Interval<V>>, i: nat, n: nat, acc: seq<Interval<V>>,
                      next: seq<Interval<V>>, last: Interval<V>, right: u32)
    requires 1 <= i < n <= |s| && |m| > 0 && acc == m + s[i..n - 1]
    requires last == if n - 1 > i then s[n - 2] else m[|m| - 1]
    requires next == Step(acc, s[n - 1], right) && Apart(last, s[n - 1]) && s[n - 1].left <= s[n - 1].right
    ensures next == m + s[i..n]
  {
    if n - 1 > i {
      LastOfRun(m, s, i, n - 1);
    }
    AppendStep(acc, s[n - 1], right);
    SliceSnoc(s, i, n);
  }

  lemma LastOfRun<T>(m: seq<T>, s: seq<T>, i: nat, n: nat)
    requires i < n <= |s|
    ensures (m + s[i..n])[|m + s[i..n]| - 1] == s[n - 1]
  {
  }

  lemma SliceSnoc<T>(s: seq<T>, i: nat, n: nat)
    requires i < n <= |s|
    ensures s[i..n] == s[i..n - 1] + [s[n - 1]]
  {
  }

  /** A value that starts after the last interval ends, and does not continue
      it, is appended by the pass. */
  lemma AppendStep<V>(acc: seq<Interval<V>>, val: Interval<V>, right: u32)
    requires |acc| > 0 && val.left <= val.right && Apart(acc[|acc| - 1], val)
    ensures Step(acc, val, right) == acc + [val]
  {
  }

  /** When iv's left end lies strictly between those of before[q - 1] and
      before[q], the only arrangement `sort.Sort` can produce puts it at q. */
  lemma ArrangedAt<V>(before: seq<Interval<V>>, iv: Interval<V>, s: seq<Interval<V>>, q: nat)
    requires WellOrdered(before) && Arranged(s, before + [iv]) && q <= |before|
    requires q > 0 ==> before[q - 1].left < iv.left
    requires q < |before| ==> iv.left < before[q].left
    ensures s == before[..q] + [iv] + before[q..]
  {
    var p := SplitArrangement(before, iv, s);
    PlacedAt(before, iv, s, p, q);
    Reassemble(before, iv, s, p);
  }

  lemma Reassemble<V>(before: seq<Interval<V>>, iv: Interval<V>, s: seq<Interval<V>>, p: nat)
    requires p < |s| && s[p] == iv && s[..p] + s[p + 1..] == before
    ensures s == before[..p] + [iv] + before[p..]
  {
    assert s == s[..p] + [iv] + s[p + 1..];
    assert s[..p] == before[..p] && s[p + 1..] == before[p..];
  }

  lemma PlacedAt<V>(before: seq<Interval<V>>, iv: Interval<V>, s: seq<Interval<V>>, p: nat, q: nat)
    requires WellOrdered(before) && SortedBy(s, LeftOf) && q <= |before|
    requires p < |s| && s[p] == iv && s[..p] + s[p + 1..] == before
    requires q > 0 ==> before[q - 1].left < iv.left
    requires q < |before| ==> iv.left < before[q].left
    ensures p == q
  {
  }

  /** The new interval continues before[k - 1]: adjacent, with the same value. */
  ghost predicate JoinsLeft<V>(before: seq<Interval<V>>, iv: Interval<V>, k: nat)
    requires k <= |before|
  {
    k > 0 && before[k - 1].right + 1 == iv.left && before[k - 1].value == iv.value
  }

  /** before[k] continues the new interval. */
  ghost predicate JoinsRight<V>(before: seq<Interval<V>>, iv: Interval<V>, k: nat)
    requires k <= |before|
  {
    k < |before| && iv.right + 1 == before[k].left && before[k].value == iv.value
  }

  /** iv placed between before[k - 1] and before[k], fused with each
      neighbour it continues. */
  ghost function Spliced<V>(before: seq<Interval<V>>, iv: Interval<V>, k: nat): seq<Interval<V>>
    requires k <= |before|
  {
    var lo := if JoinsLeft(before, iv, k) then k - 1 else k;
    var hi := if JoinsRight(before, iv, k) then k + 1 else k;
    var l := if JoinsLeft(before, iv, k) then before[k - 1].left else iv.left;
    var r := if JoinsRight(before, iv, k) then before[k].right else iv.right;
    before[..lo] + [Interval(l, r, iv.value)] + before[hi..]
  }

  /** add of an interval that falls in a gap of a canonical map, between
      before[k - 1] and before[k]: the interval is inserted there as is,
      unless it continues a neighbour with the same value (map.go:109-112),
      in which case the two become one interval.  Adjacent intervals with
      different values stay apart. */
  lemma InsertBetween<V>(before: seq<Interval<V>>, iv: Interval<V>, k: nat,
                         after: seq<Interval<V>>, err: Option<MapError>, arranged: seq<Interval<V>>)
    requires Canonical(before) && before != [] && k <= |before|
    requires iv.left <= iv.right && iv.right - iv.left < ADD_SPAN_LIMIT
    requires k > 0 ==> before[k - 1].right < iv.left
    requires k < |before| ==> iv.right < before[k].left
    requires Inserted(before, iv, after, err, arranged)
    ensures after == Spliced(before, iv, k)
    ensures err == FirstDefect(after)
  {
    var t := before[..k] + [iv] + before[k..];
    ArrangedAt(before, iv, arranged, k);
    GapPass(before, iv, k, t, iv.right);
  }

  lemma GapPass<V>(before: seq<Interval<V>>, iv: Interval<V>, k: nat, t: seq<Interval<V>>, r: u32)
    requires Canonical(before) && k <= |before| && iv.left <= iv.right
    requires k > 0 ==> before[k - 1].right < iv.left
    requires k < |before| ==> iv.right < before[k].left
    requires t == before[..k] + [iv] + before[k..]
    ensures Merged(t, r, |t|) == Spliced(before, iv, k)
  {
    InsertedIndices(before, iv, k, t);
    var lo := if JoinsLeft(before, iv, k) then k - 1 else k;
    var l := if JoinsLeft(before, iv, k) then before[k - 1].left else iv.left;
    var mid := Interval(l, iv.right, iv.value);
    GapStep(before, iv, k, t, r);
    if k < |before| {
      GapTail(before, iv, k, t, r);
    } else {
      assert before[..lo] + [mid] + before[k..] == before[..lo] + [mid];
    }
  }

  /** The pass from before[k] on, once the new interval has been handled. */
  lemma GapTail<V>(before: seq<Interval<V>>, iv: Interval<V>, k: nat, t: seq<Interval<V>>, r: u32)
    requires Canonical(before) && k < |before| && iv.right < before[k].left
    requires |t| == |before| + 1 && t[k] == iv && t[k + 1] == before[k] && t[k + 2..] == before[k + 1..]
    requires var lo := if JoinsLeft(before, iv, k) then k - 1 else k;
      var l := if JoinsLeft(before, iv, k) then before[k - 1].left else iv.left;
      Merged(t, r, k + 1) == before[..lo] + [Interval(l, iv.right, iv.value)]
    ensures Merged(t, r, |t|) == Spliced(before, iv, k)
  {
    var lo := if JoinsLeft(before, iv, k) then k - 1 else k;
    var l := if JoinsLeft(before, iv, k) then before[k - 1].left else iv.left;
    var mid := Interval(l, iv.right, iv.value);
    var b := Merged(t, r, k + 2);
    assert b == Step(Merged(t, r, k + 1), before[k], r);
    RightStep(before[..lo], mid, before[k], r);
    SplicedRight(before, iv, k, b);
    SpliceRest(before, k, t, r, b);
  }

  /** Where the elements of before sit once iv is inserted at k. */
  lemma InsertedIndices<V>(before: seq<Interval<V>>, iv: Interval<V>, k: nat, t: seq<Interval<V>>)
    requires k <= |before| && t == before[..k] + [iv] + before[k..]
    ensures |t| == |before| + 1 && t[k] == iv && t[..k] == before[..k] && t[k + 1..] == before[k..]
    ensures k < |before| ==> t[k + 1] == before[k] && t[k + 2..] == before[k + 1..]
  {
  }

  /** The pass up to and including the new interval placed at k. */
  lemma GapStep<V>(before: seq<Interval<V>>, iv: Interval<V>, k: nat, t: seq<Interval<V>>, r: u32)
    requires Canonical(before) && k <= |before| && iv.left <= iv.right
    requires k > 0 ==> before[k - 1].right < iv.left
    requires |t| == |before| + 1 && t[k] == iv && t[..k] == before[..k]
    ensures var lo := if JoinsLeft(before, iv, k) then k - 1 else k;
      var l := if JoinsLeft(before, iv, k) then before[k - 1].left else iv.left;
      Merged(t, r, k + 1) == before[..lo] + [Interval(l, iv.right, iv.value)]
  {
    if k > 0 {
      assert Merged(t, r, k + 1) == Step(Merged(t, r, k), iv, r);
      MergedSamePrefix(before, t, r, k);
      MergedPrefix(before, r, k);
      LeftStep(before, iv, k, r);
    }
  }

  /** Spliced when before[k] exists, given the pass state after it. */
  lemma SplicedRight<V>(before: seq<Interval<V>>, iv: Interval<V>, k: nat, b: seq<Interval<V>>)
    requires k < |before|
    requires var lo := if JoinsLeft(before, iv, k) then k - 1 else k;
      var l := if JoinsLeft(before, iv, k) then before[k - 1].left else iv.left;
      var m := Interval(l, iv.right, iv.value);
      b == if iv.right + 1 == before[k].left && before[k].value == m.value then before[..lo] + [m.(right := before[k].right)]
           else before[..lo] + [m, before[k]]
    ensures b[|b| - 1].right == before[k].right && b[|b| - 1].value == before[k].value
    ensures (b + before[k + 1..]) == Spliced(before, iv, k)
  {
    if !JoinsRight(before, iv, k) {
      assert [Interval(if JoinsLeft(before, iv, k) then before[k - 1].left else iv.left, iv.right, iv.value), before[k]] + before[k + 1..]
        == [Interval(if JoinsLeft(before, iv, k) then before[k - 1].left else iv.left, iv.right, iv.value)] + before[k..];
    }
  }

  /** The pass over a canonical prefix reproduces it. */
  lemma MergedPrefix<V>(t: seq<Interval<V>>, r: u32, k: nat)
    requires 1 <= k <= |t| && CanonicalRun(t, 0, k)
    ensures Merged(t, r, k) == t[..k]
  {
    assert CanonicalRun(t, 1, k);
    if k > 1 {
      assert Apart(t[0], t[1]);
    }
    RunAppends(t, r, 1, k, [t[0]]);
    assert [t[0]] + t[1..k] == t[..k];
  }

  /** The pass over s[..k] sees nothing beyond it. */
  lemma {:induction false} MergedSamePrefix<V>(s: seq<Interval<V>>, t: seq<Interval<V>>, r: u32, k: nat)
    requires 1 <= k <= |s| && k <= |t| && s[..k] == t[..k]
    ensures Merged(s, r, k) == Merged(t, r, k)
  {
    assert s[k - 1] == s[..k][k - 1] == t[k - 1];
    if k > 1 {
      assert s[..k - 1] == s[..k][..k - 1];
      assert t[..k - 1] == t[..k][..k - 1];
      MergedSamePrefix(s, t, r, k - 1);
    }
  }

  /** The new interval after before[k - 1], which ends before it starts. */
  lemma LeftStep<V>(before: seq<Interval<V>>, iv: Interval<V>, k: nat, r: u32)
    requires 0 < k <= |before| && before[k - 1].right < iv.left && iv.left <= iv.right
    ensures var lo := if JoinsLeft(before, iv, k) then k - 1 else k;
      var l := if JoinsLeft(before, iv, k) then before[k - 1].left else iv.left;
      Step(before[..k], iv, r) == before[..lo] + [Interval(l, iv.right, iv.value)]
  {
    if JoinsLeft(before, iv, k) {
      assert before[..k][k - 1 := before[k - 1].(right := iv.right)] == before[..k - 1] + [Interval(before[k - 1].left, iv.right, iv.value)];
    }
  }

  /** The stored interval b after the last interval m, which ends before b starts. */
  lemma RightStep<V>(a: seq<Interval<V>>, m: Interval<V>, b: Interval<V>, r: u32)
    requires m.right < b.left && b.left <= b.right
    ensures Step(a + [m], b, r) ==
      if m.right + 1 == b.left && b.value == m.value then a + [m.(right := b.right)] else a + [m, b]
  {
    assert (a + [m])[|a + [m]| - 1] == m;
    if m.right + 1 == b.left && b.value == m.value {
      assert (a + [m])[|a|:= m.(right := b.right)] == a + [m.(right := b.right)];
    } else {
      assert a + [m] + [b] == a + [m, b];
    }
  }

  /** What the pass does after the new interval and before[k]: it appends
      the rest of the map. */
  lemma SpliceRest<V>(before: seq<Interval<V>>, k: nat, t: seq<Interval<V>>, r: u32, b: seq<Interval<V>>)
    requires Canonical(before) && k < |before| && |t| == |before| + 1
    requires t[k + 2..] == before[k + 1..]
    requires b == Merged(t, r, k + 2)
    requires b[|b| - 1].right == before[k].right && b[|b| - 1].value == before[k].value
    ensures Merged(t, r, |t|) == b + before[k + 1..]
  {
    TailRun(before, t, k + 1);
    if k + 1 < |before| {
      assert Apart(before[k], before[k + 1]);
      assert t[k + 2] == t[k + 2..][0];
    }
    RunAppends(t, r, k + 2, |t|, b);
    assert t[k + 2..|t|] == t[k + 2..];
  }

  /** add of an interval that a stored interval of a canonical map already
      holds leaves the map as it was, whatever the new value (map.go:102-104),
      when the stored interval starts earlier or `sort.Sort` keeps it first. */
  lemma InsertContained<V>(before: seq<Interval<V>>, iv: Interval<V>, k: nat,
                           after: seq<Interval<V>>, err: Option<MapError>, arranged: seq<Interval<V>>)
    requires Canonical(before) && k < |before|
    requires iv.left <= iv.right && iv.right - iv.left < ADD_SPAN_LIMIT
    requires before[k].left <= iv.left && iv.right <= before[k].right
    requires before[k].left < iv.left || arranged == before[..k + 1] + [iv] + before[k + 1..]
    requires Inserted(before, iv, after, err, arranged)
    ensures after == before
    ensures err == FirstDefect(before)
  {
    var t := before[..k + 1] + [iv] + before[k + 1..];
    if before[k].left < iv.left {
      ContainedPlace(before, iv, k, arranged);
    }
    ContainedPass(before, iv, k, t, iv.right);
  }

  /** Adding an interval the map already stores, with its value, changes
      nothing: the length and every lookup stay as they were. */
  lemma AddSameTwice<V>(before: seq<Interval<V>>, k: nat,
                        after: seq<Interval<V>>, err: Option<MapError>, arranged: seq<Interval<V>>)
    requires Canonical(before) && k < |before|
    requires before[k].right - before[k].left < ADD_SPAN_LIMIT
    requires Inserted(before, before[k], after, err, arranged)
    ensures after == before
    ensures err == FirstDefect(before)
  {
    var iv := before[k];
    CanonicalMeans(before);
    var p := SplitArrangement(before, iv, arranged);
    Reassemble(before, iv, arranged, p);
    DuplicatePlace(before, k, arranged, p);
    InsertContained(before, iv, k, after, err, arranged);
  }

  /** `sort.Sort` puts the copy right before or right after the stored
      interval, and either way the slice is the same. */
  lemma DuplicatePlace<V>(before: seq<Interval<V>>, k: nat, s: seq<Interval<V>>, p: nat)
    requires WellOrdered(before) && SortedBy(s, LeftOf) && k < |before|
    requires p <= |before| && s == before[..p] + [before[k]] + before[p..]
    ensures s == before[..k + 1] + [before[k]] + before[k + 1..]
  {
    var iv := before[k];
    LeftsIncrease(before);
    if 0 < p {
      assert s[p - 1] == before[p - 1] && LeftOf(s[p - 1]) <= LeftOf(s[p]);
    }
    if p < |before| {
      assert s[p + 1] == before[p] && LeftOf(s[p]) <= LeftOf(s[p + 1]);
    }
    assert k <= p <= k + 1;
    if p == k {
      assert before[k..] == [iv] + before[k + 1..];
      assert before[..k + 1] == before[..k] + [iv];
    }
  }

  lemma ContainedPass<V>(before: seq<Interval<V>>, iv: Interval<V>, k: nat, t: seq<Interval<V>>, r: u32)
    requires Canonical(before) && k < |before|
    requires before[k].left <= iv.left && iv.right <= before[k].right
    requires t == before[..k + 1] + [iv] + before[k + 1..]
    ensures Merged(t, r, |t|) == before
  {
    InsertedIndices(before, iv, k + 1, t);
    ContainedHead(before, iv, k, t, r);
    SpliceRest(before, k, t, r, Merged(t, r, k + 2));
    assert before[..k + 1] + before[k + 1..] == before;
  }

  /** The pass up to the new interval, which before[k] holds. */
  lemma ContainedHead<V>(before: seq<Interval<V>>, iv: Interval<V>, k: nat, t: seq<Interval<V>>, r: u32)
    requires Canonical(before) && k < |before|
    requires before[k].left <= iv.left && iv.right <= before[k].right
    requires k + 2 <= |t| && t[..k + 1] == before[..k + 1] && t[k + 1] == iv
    ensures Merged(t, r, k + 2) == before[..k + 1]
  {
    MergedSamePrefix(before, t, r, k + 1);
    MergedPrefix(before, r, k + 1);
    assert Merged(t, r, k + 2) == Step(before[..k + 1], iv, r);
    assert before[..k + 1][k] == before[k];
  }

  lemma ContainedPlace<V>(before: seq<Interval<V>>, iv: Interval<V>, k: nat, arranged: seq<Interval<V>>)
    requires Canonical(before) && k < |before| && Arranged(arranged, before + [iv])
    requires before[k].left < iv.left <= iv.right <= before[k].right
    ensures arranged == before[..k + 1] + [iv] + before[k + 1..]
  {
    if k + 1 < |before| {
      assert Apart(before[k], before[k + 1]);
    }
    ArrangedAt(before, iv, arranged, k + 1);
  }

  /** add of an interval that starts inside before[k] and ends past it, but
      short of the next stored interval (map.go:105-108): before[k] is
      extended to the new interval's end and keeps its own value, so the new
      value is lost for the whole new interval. */
  lemma InsertOverlapping<V>(before: seq<Interval<V>>, iv: Interval<V>, k: nat,
                             after: seq<Interval<V>>, err: Option<MapError>, arranged: seq<Interval<V>>)
    requires Canonical(before) && k < |before|
    requires iv.left <= iv.right && iv.right - iv.left < ADD_SPAN_LIMIT
    requires before[k].left < iv.left <= before[k].right < iv.right
    requires k + 1 < |before| ==> iv.right + 1 < before[k + 1].left
    requires Inserted(before, iv, after, err, arranged)
    ensures after == before[..k] + [before[k].(right := iv.right)] + before[k + 1..]
    ensures err == FirstDefect(after)
  {
    var t := before[..k + 1] + [iv] + before[k + 1..];
    CanonicalMeans(before);
    ArrangedAt(before, iv, arranged, k + 1);
    InsertedIndices(before, iv, k + 1, t);
    var b := OverlapHead(before, iv, k, t, iv.right);
    OverlapRest(before, k, t, iv.right, b);
  }

  /** The pass up to the new interval, which extends before[k]. */
  lemma OverlapHead<V>(before: seq<Interval<V>>, iv: Interval<V>, k: nat, t: seq<Interval<V>>, r: u32)
      returns (b: seq<Interval<V>>)
    requires Canonical(before) && k < |before|
    requires before[k].left < iv.left <= before[k].right < iv.right
    requires k + 2 <= |t| && t[..k + 1] == before[..k + 1] && t[k + 1] == iv
    ensures b == Merged(t, r, k + 2) && b == before[..k] + [before[k].(right := r)]
  {
    MergedSamePrefix(before, t, r, k + 1);
    MergedPrefix(before, r, k + 1);
    b := Merged(t, r, k + 2);
    assert b == Step(before[..k + 1], iv, r);
    assert before[..k + 1][k] == before[k];
    assert before[..k + 1][k := before[k].(right := r)] == before[..k] + [before[k].(right := r)];
  }

  /** Once the pass has reached before[k + 1] in t with a last interval
      apart from it, it appends the rest of the map. */
  lemma OverlapRest<V>(before: seq<Interval<V>>, k: nat, t: seq<Interval<V>>, r: u32, b: seq<Interval<V>>)
    requires Canonical(before) && k < |before| && |t| == |before| + 1
    requires t[k + 2..] == before[k + 1..]
    requires b == Merged(t, r, k + 2)
    requires k + 1 < |before| ==> Apart(b[|b| - 1], before[k + 1])
    ensures Merged(t, r, |t|) == b + before[k + 1..]
  {
    TailRun(before, t, k + 1);
    if k + 1 < |before| {
      assert t[k + 2] == t[k + 2..][0];
    }
    RunAppends(t, r, k + 2, |t|, b);
    assert t[k + 2..|t|] == t[k + 2..];
  }

  /** add of an interval that starts in a gap, apart from before[k - 1], and
      ends inside before[k] (map.go:105-108): before[k] is dropped, so its
      addresses past the new interval's end are no longer covered.  This is
      the loss that Kept leaves out. */
  lemma InsertCutsTail<V>(before: seq<Interval<V>>, iv: Interval<V>, k: nat,
                          after: seq<Interval<V>>, err: Option<MapError>, arranged: seq<Interval<V>>)
    requires Canonical(before) && k < |before|
    requires iv.left <= iv.right && iv.right - iv.left < ADD_SPAN_LIMIT
    requires k > 0 ==> Apart(before[k - 1], iv)
    requires iv.left < before[k].left <= iv.right < before[k].right
    requires Inserted(before, iv, after, err, arranged)
    ensures after == before[..k] + [iv] + before[k + 1..]
    ensures err == FirstDefect(after)
    ensures forall x :: iv.right < x <= before[k].right ==> Holds(before[k], x) && !Covered(after, x)
  {
    var t := before[..k] + [iv] + before[k..];
    CanonicalMeans(before);
    ArrangedAt(before, iv, arranged, k);
    InsertedIndices(before, iv, k, t);
    var b := CutHead(before, iv, k, t);
    if k + 1 < |before| {
      assert Apart(before[k], before[k + 1]);
    }
    OverlapRest(before, k, t, iv.right, b);
    CutUncovered(before, iv, k, after);
  }

  /** The pass up to before[k], which the new interval placed at k cuts. */
  lemma CutHead<V>(before: seq<Interval<V>>, iv: Interval<V>, k: nat, t: seq<Interval<V>>)
      returns (b: seq<Interval<V>>)
    requires Canonical(before) && k < |before| && iv.left <= iv.right
    requires k > 0 ==> Apart(before[k - 1], iv)
    requires iv.left < before[k].left <= iv.right < before[k].right
    requires |t| == |before| + 1 && t[k] == iv && t[..k] == before[..k] && t[k + 1] == before[k]
    ensures b == Merged(t, iv.right, k + 2) && b == before[..k] + [iv]
  {
    GapStep(before, iv, k, t, iv.right);
    assert !JoinsLeft(before, iv, k);
    var m := before[..k] + [iv];
    assert Merged(t, iv.right, k + 1) == m;
    b := Merged(t, iv.right, k + 2);
    assert b == Step(m, before[k], iv.right);
    assert m[k] == iv && m[k := iv] == m;
  }

  lemma CutUncovered<V>(before: seq<Interval<V>>, iv: Interval<V>, k: nat, after: seq<Interval<V>>)
    requires Canonical(before) && k < |before| && before[k].left <= iv.right < before[k].right
    requires after == before[..k] + [iv] + before[k + 1..]
    ensures forall x :: iv.right < x <= before[k].right ==> !Covered(after, x)
  {
    CanonicalMeans(before);
    LeftsIncrease(before);
    forall x, j | iv.right < x <= before[k].right && 0 <= j < |after| ensures !Holds(after[j], x) {
      if j < k {
        assert after[j] == before[j];
        assert before[j].right < before[k].left;
      } else if j == k {
        assert after[j] == iv;
      } else {
        assert after[j] == before[j];
        assert before[k].right < before[j].left;
      }
    }
  }
}
