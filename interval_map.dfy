/**
 * The interval map of map.go: closed address intervals, each carrying a
 * value, kept sorted by their left end and pairwise disjoint.
 *
 * The class mirrors `IntervalMap`: its one field is the slice of intervals,
 * which `add` replaces after appending, sorting and one coalescing pass.
 * The pass itself is specified by the functions `Step` and `Merged`, and the
 * check `Valid` by `FirstDefect`; what they guarantee is proved in module
 * IntervalMapProofs.  Addresses arrive already parsed: a failed `FromDots` or
 * `net.ParseCIDR` is `None`.
 */
module IntervalMaps {
  import opened Bits
  import opened Wrappers
  import opened Sorting

  /** A closed interval [left, right] of addresses with a value (map.go:11-16). */
  datatype Interval<V> = Interval(left: u32, right: u32, value: V)

  /** The sort key of `IntervalList.Less` (map.go:28-30). */
  function LeftOf<V>(iv: Interval<V>): int
  {
    iv.left
  }

  /** The errors the map reports, one per `fmt.Errorf` of map.go. */
  datatype MapError =
    | Inverted(left: u32, right: u32)                       // add: left > right
    | TooLarge(left: u32, right: u32)                       // add or Valid: span too large
    | InvertedAt(left: u32, right: u32, pos: nat)           // Valid: Left > Right at pos
    | Overlapping(prevLeft: u32, prevRight: u32, left: u32, right: u32)  // Valid
    | Unparsable                                            // FromDots failed
    | BadCidr                                               // net.ParseCIDR failed

  /** `uint32(1) << 24`: add rejects intervals spanning this much or more. */
  const ADD_SPAN_LIMIT: int := 0x100_0000

  /** `uint32(255) << 24`: Valid rejects intervals spanning more than this. */
  const VALID_SPAN_LIMIT: int := 0xFF00_0000

  predicate Holds<V>(iv: Interval<V>, x: int)
  {
    iv.left <= x <= iv.right
  }

  /** Some interval of s holds x. */
  predicate Covered<V>(s: seq<Interval<V>>, x: int)
  {
    exists k :: 0 <= k < |s| && Holds(s[k], x)
  }

  /** Every interval is non-empty and each starts after the previous one ends:
      sorted by left end and pairwise disjoint. */
  predicate WellOrdered<V>(s: seq<Interval<V>>)
  {
    && (forall k :: 0 <= k < |s| ==> s[k].left <= s[k].right)
    && (forall k :: 0 <= k < |s| - 1 ==> s[k].right < s[k + 1].left)
  }

  predicate SpansBounded<V>(s: seq<Interval<V>>)
  {
    forall k :: 0 <= k < |s| ==> s[k].right - s[k].left <= VALID_SPAN_LIMIT
  }

  /** s is the slice after `sort.Sort`: ordered by left end, same elements. */
  ghost predicate Arranged<V>(s: seq<Interval<V>>, t: seq<Interval<V>>)
  {
    SortedBy(s, LeftOf) && multiset(s) == multiset(t)
  }

  /** One iteration of the coalescing loop of add (map.go:99-119): `acc` is
      `newset`, whose last element is `last`, `val` the next sorted interval
      and `right` the right end of the interval being added. */
  function Step<V(==)>(acc: seq<Interval<V>>, val: Interval<V>, right: u32): (r: seq<Interval<V>>)
    requires |acc| > 0
    ensures |acc| <= |r| <= |acc| + 1
  {
    var last := acc[|acc| - 1];
    if val.left >= last.left && val.right <= last.right then
      acc
    else if val.left >= last.left && val.left <= last.right then
      acc[|acc| - 1 := last.(right := right)]
    else if val.left == Add32(last.right, 1) && val.value == last.value then
      acc[|acc| - 1 := last.(right := val.right)]
    else
      acc + [val]
  }

  /** `newset` once the loop has handled s[1..n]. */
  function Merged<V(==)>(s: seq<Interval<V>>, right: u32, n: nat): (r: seq<Interval<V>>)
    requires 1 <= n <= |s|
    ensures 1 <= |r| <= n
  {
    if n == 1 then [s[0]] else Step(Merged(s, right, n - 1), s[n - 1], right)
  }

  lemma MergedNext<V>(s: seq<Interval<V>>, right: u32, i: nat)
    requires 1 <= i < |s|
    ensures Merged(s, right, i + 1) == Step(Merged(s, right, i), s[i], right)
  {
  }

  /** The outcome of the coalescing pass over the sorted slice s. */
  function Coalesce<V(==)>(s: seq<Interval<V>>, right: u32): seq<Interval<V>>
    requires |s| > 0
  {
    Merged(s, right, |s|)
  }

  /** What Valid (map.go:128-145) reports about position pos, if anything. */
  function Defect<V>(s: seq<Interval<V>>, pos: nat): Option<MapError>
    requires pos < |s|
  {
    var val := s[pos];
    if val.left > val.right then Some(InvertedAt(val.left, val.right, pos))
    else if val.right - val.left > VALID_SPAN_LIMIT then Some(TooLarge(val.left, val.right))
    else if pos > 0 && (val.left <= s[pos - 1].right || val.right <= s[pos - 1].right) then
      Some(Overlapping(s[pos - 1].left, s[pos - 1].right, val.left, val.right))
    else None
  }

  /** The first defect at or after position pos. */
  function FirstDefectFrom<V>(s: seq<Interval<V>>, pos: nat): (r: Option<MapError>)
    requires pos <= |s|
    ensures r.None? <==> forall q :: pos <= q < |s| ==> Defect(s, q).None?
    ensures r.Some? ==> exists q :: && pos <= q < |s| && r == Defect(s, q)
                                    && forall q' :: pos <= q' < q ==> Defect(s, q').None?
    decreases |s| - pos
  {
    if pos == |s| then None
    else if Defect(s, pos).Some? then Defect(s, pos)
    else FirstDefectFrom(s, pos + 1)
  }

  /** The error Valid returns: that of the first defective position. */
  function FirstDefect<V>(s: seq<Interval<V>>): Option<MapError>
  {
    FirstDefectFrom(s, 0)
  }

  /** What add promises (map.go:71-123) about `after` and its error, given
      the intervals `before` and the interval iv to add; `arranged` is the
      order `sort.Sort` chose, which for equal left ends is unspecified. */
  ghost predicate Inserted<V>(before: seq<Interval<V>>, iv: Interval<V>,
                                  after: seq<Interval<V>>, err: Option<MapError>,
                                  arranged: seq<Interval<V>>)
  {
    if iv.left > iv.right then
      err == Some(Inverted(iv.left, iv.right)) && after == before
    else if iv.right - iv.left >= ADD_SPAN_LIMIT then
      err == Some(TooLarge(iv.left, iv.right)) && after == before
    else if before == [] then
      err == None && after == [iv]
    else
      && Arranged(arranged, before + [iv])
      && after == Coalesce(arranged, iv.right)
      && err == FirstDefect(after)
  }

  /** The value stored for x: that of the first interval holding it. */
  function Lookup<V>(s: seq<Interval<V>>, x: int): (r: Option<V>)
    ensures r.None? <==> !Covered(s, x)
    ensures r.Some? ==> exists k :: 0 <= k < |s| && Holds(s[k], x) && s[k].value == r.value
  {
    if s == [] then None
    else if Holds(s[0], x) then Some(s[0].value)
    else
      var r := Lookup(s[1..], x);
      assert forall k :: 0 < k < |s| ==> s[k] == s[1..][k - 1];
      r
  }

  /** The result of net.ParseCIDR as Add uses it: the parsed address as
      FromNetIP converts it (None when it has no IPv4 form) and the prefix
      length reported by `Mask.Size()`. */
  datatype CidrParse = CidrParse(ip4: Option<u32>, ones: nat)

  /** Add's argument: a dotted address (no '/'), or a CIDR network. */
  datatype Target =
    | Address(ip: Option<u32>)
    | Network(net: Option<CidrParse>)

  /** The interval Add passes to add (map.go:151-169).  For a network it is
      computed from the address as written, not from the network address:
      `left + 1<<uint(32-ones) - 1` in uint32 arithmetic.  The error of
      FromNetIP is ignored, so a network without an IPv4 form starts at 0;
      for `ones > 32` the shift count converts to a huge `uint` and the
      shift yields 0. */
  function TargetRange(t: Target): (r: Result<(u32, u32), MapError>)
    ensures t.Address? ==> (r.Success? <==> t.ip.Some?) && (r.Success? ==> r.value == (t.ip.value, t.ip.value))
    ensures t.Network? ==> (r.Success? <==> t.net.Some?)
    ensures t.Network? && t.net.Some? ==>
      var left := if t.net.value.ip4.Some? then t.net.value.ip4.value else 0;
      var size := if t.net.value.ones <= 32 then Pow2(32 - t.net.value.ones) else 0;
      r == Success((left, (left + size - 1) % WORD))
    ensures r.Failure? ==> r.error == (if t.Address? then Unparsable else BadCidr)
  {
    match t
    case Address(ip) =>
      if ip.None? then Failure(Unparsable) else Success((ip.value, ip.value))
    case Network(net) =>
      if net.None? then Failure(BadCidr)
      else
        var left: u32 := if net.value.ip4.Some? then net.value.ip4.value else 0;
        var span: u32 := if net.value.ones <= 32 then Shl32(1, 32 - net.value.ones) else 0;
        WrappedEnd(left, net.value.ones, span);
        Success((left, Sub32(Add32(left, span), 1)))
  }

  /** `left + 1<<uint(32-ones) - 1` in uint32 arithmetic is the address
      2^(32-ones) - 1 past left, wrapped to 32 bits; a shift by more than 31
      or a huge count leaves 0, so the end is then left - 1, wrapped. */
  lemma WrappedEnd(left: u32, ones: nat, span: u32)
    requires span == if ones <= 32 then Shl32(1, 32 - ones) else 0
    ensures var size := if ones <= 32 then Pow2(32 - ones) else 0;
      Sub32(Add32(left, span), 1) == (left + size - 1) % WORD
  {
    var size := if ones <= 32 then Pow2(32 - ones) else 0;
    if ones <= 32 {
      Pow2Word();
      Pow2Monotone(32 - ones, 32);
    }
    if 0 < size < WORD {
      ModUnique(size, WORD, 0, size);
      EndOfSpan(left, size);
    } else {
      if size == WORD {
        ModUnique(WORD, WORD, 1, 0);
      }
      EndOfNoSpan(left, size);
    }
  }

  lemma EndOfSpan(left: u32, size: u32)
    requires 0 < size
    ensures Sub32(Add32(left, size), 1) == (left + size - 1) % WORD
  {
    var res := Sub32(Add32(left, size), 1);
    if left + size <= WORD {
      ModUnique(left + size - 1, WORD, 0, res);
    } else {
      ModUnique(left + size - 1, WORD, 1, res);
    }
  }

  lemma EndOfNoSpan(left: u32, size: int)
    requires size == 0 || size == WORD
    ensures Sub32(Add32(left, 0), 1) == (left + size - 1) % WORD
  {
    var res := Sub32(Add32(left, 0), 1);
    var q := if left == 0 && size == 0 then -1 else if left == 0 || size == 0 then 0 else 1;
    ModUnique(left + size - 1, WORD, q, res);
  }


  /** An IntervalMap (map.go:43-53). */
  class IntervalMap<V(==)> {
    var intervals: seq<Interval<V>>

    /** NewIntervalMap: empty, with room for `capacity` intervals (Go's
        `make` panics on a negative capacity). */
    constructor(capacity: int)
      requires capacity >= 0
      ensures intervals == []
    {
      intervals := [];
    }

    /** Len (map.go:188-190): the number of intervals stored. */
    function Len(): (n: nat)
      reads this
      ensures n == |intervals|
    {
      |intervals|
    }

    /** add (map.go:71-123).  Rejects an inverted or too wide interval and
        leaves the map alone; the first interval of an empty map is stored
        as it is; otherwise the interval is appended, the slice sorted, one
        coalescing pass run and its result stored, and Valid's verdict on it
        returned (the new intervals stay in place even when it is an error). */
    method AddInterval(left: u32, right: u32, value: V) returns (err: Option<MapError>, ghost arranged: seq<Interval<V>>)
      modifies this
      ensures Inserted(old(intervals), Interval(left, right, value), intervals, err, arranged)
    {
      arranged := [];
      ShiftConstants();
      if left > right {
        return Some(Inverted(left, right)), arranged;
      }
      if Sub32(right, left) >= Shl32(1, 24) {
        return Some(TooLarge(left, right)), arranged;
      }
      intervals := intervals + [Interval(left, right, value)];
      if |intervals| == 1 {
        return None, arranged;
      }
      var sorted := SortBy(intervals, LeftOf);
      intervals, arranged := sorted, sorted;
      var newset := CoalesceSorted(sorted, right);
      intervals := newset;
      err := Valid();
    }

    /** The loop of add (map.go:96-118) over the sorted slice: each interval
        is dropped when the last one holds it, extends the last one to
        `right` when it starts inside it, continues it when adjacent with
        the same value, and is appended otherwise. */
    static method CoalesceSorted(sorted: seq<Interval<V>>, right: u32) returns (newset: seq<Interval<V>>)
      requires |sorted| > 0
      ensures newset == Coalesce(sorted, right)
    {
      newset := [sorted[0]];
      var last := sorted[0];
      for i := 1 to |sorted|
        invariant newset == Merged(sorted, right, i)
        invariant last == newset[|newset| - 1]
      {
        var val := sorted[i];
        MergedNext(sorted, right, i);
        if val.left >= last.left && val.right <= last.right {
          continue;
        }
        if val.left >= last.left && val.left <= last.right {
          last := last.(right := right);
          newset := newset[|newset| - 1 := last];
          continue;
        }
        if val.left == Add32(last.right, 1) && val.value == last.value {
          last := last.(right := val.right);
          newset := newset[|newset| - 1 := last];
          continue;
        }
        last := val;
        newset := newset + [last];
      }
    }

    /** Valid (map.go:126-147): the first defect of the slice, or None.  The
        Go loop starts from the zero Interval; only its Left and Right are
        ever read, so they are kept as two words. */
    method Valid() returns (err: Option<MapError>)
      ensures err == FirstDefect(intervals)
    {
      ShiftConstants();
      var s := intervals;
      var lastLeft: u32, lastRight: u32 := 0, 0;
      for pos := 0 to |s|
        invariant FirstDefect(s) == FirstDefectFrom(s, pos)
        invariant pos > 0 ==> lastLeft == s[pos - 1].left && lastRight == s[pos - 1].right
      {
        var val := s[pos];
        if val.left > val.right {
          return Some(InvertedAt(val.left, val.right, pos));
        }
        if Sub32(val.right, val.left) > Shl32(255, 24) {
          return Some(TooLarge(val.left, val.right));
        }
        if pos > 0 {
          if val.left <= lastRight || val.right <= lastRight {
            return Some(Overlapping(lastLeft, lastRight, val.left, val.right));
          }
        }
        lastLeft, lastRight := val.left, val.right;
      }
      return None;
    }

    /** Add (map.go:150-172): a dotted address or a CIDR network, added as
        the interval TargetRange computes. */
    method Add(target: Target, value: V) returns (err: Option<MapError>, ghost arranged: seq<Interval<V>>)
      modifies this
      ensures TargetRange(target).Failure? ==>
        err == Some(TargetRange(target).error) && intervals == old(intervals)
      ensures TargetRange(target).Success? ==>
        Inserted(old(intervals), Interval(TargetRange(target).value.0, TargetRange(target).value.1, value),
                 intervals, err, arranged)
    {
      var range := TargetRange(target);
      if range.Failure? {
        return Some(range.error), [];
      }
      err, arranged := AddInterval(range.value.0, range.value.1, value);
    }

    /** AddRange (map.go:175-185): the interval between two dotted addresses. */
    method AddRange(left: Option<u32>, right: Option<u32>, value: V) returns (err: Option<MapError>, ghost arranged: seq<Interval<V>>)
      modifies this
      ensures left.None? || right.None? ==> err == Some(Unparsable) && intervals == old(intervals)
      ensures left.Some? && right.Some? ==>
        Inserted(old(intervals), Interval(left.value, right.value, value), intervals, err, arranged)
    {
      if left.None? || right.None? {
        return Some(Unparsable), [];
      }
      err, arranged := AddInterval(left.value, right.value, value);
    }

    /** Contains (map.go:194-234): a lower-bound search for the first interval
        starting at or after x, then a look at it and at its predecessor.
        Whatever the slice holds, a value is returned only from an interval
        holding x (given left <= right everywhere); on a well-ordered map the
        result is exactly the value stored for x. */
    method Contains(x: Option<u32>) returns (r: Option<V>)
      ensures x.None? || intervals == [] ==> r == None
      ensures x.Some? && r.Some? && (forall k :: 0 <= k < |intervals| ==> intervals[k].left <= intervals[k].right) ==>
        exists k :: 0 <= k < |intervals| && Holds(intervals[k], x.value) && intervals[k].value == r.value
      ensures x.Some? && WellOrdered(intervals) ==> r == Lookup(intervals, x.value)
    {
      if x.None? {
        return None;
      }
      var val := x.value;
      var s := intervals;
      var ilen := |s|;
      if ilen == 0 {
        return None;
      }
      var i := Search(ilen, StartsAtOrAfter(s, val));
      if WellOrdered(s) {
        LookupNear(s, val, i);
      }
      if i == ilen {
        i := i - 1;
        if s[i].left <= val && val <= s[i].right {
          return Some(s[i].value);
        }
        return None;
      }
      if s[i].left == val {
        return Some(s[i].value);
      }
      if i == 0 {
        return None;
      }
      i := i - 1;
      if s[i].left <= val && val <= s[i].right {
        return Some(s[i].value);
      }
      return None;
    }
  }

  /** The search predicate of Contains: interval k starts at or after x. */
  function StartsAtOrAfter<V>(s: seq<Interval<V>>, x: int): nat -> bool
  {
    (k: nat) => k < |s| && s[k].left >= x
  }

  /** In a well-ordered slice, the value stored for x: that of the interval held
      at the first position i starting at or after x, or else of the one just
      before it (these are the two places Contains looks at). */
  lemma LookupNear<V>(s: seq<Interval<V>>, x: int, i: nat)
    requires WellOrdered(s) && i <= |s|
    requires i < |s| ==> s[i].left >= x
    requires 0 < i ==> s[i - 1].left < x
    ensures Lookup(s, x) ==
      if i < |s| && Holds(s[i], x) then Some(s[i].value)
      else if 0 < i && Holds(s[i - 1], x) then Some(s[i - 1].value)
      else None
  {
    LeftsIncrease(s);
    if Lookup(s, x).Some? {
      var k :| 0 <= k < |s| && Holds(s[k], x) && s[k].value == Lookup(s, x).value;
      assert k == i || k == i - 1;
    }
  }

  /** In a well-ordered slice every interval ends before any later one starts. */
  lemma LeftsIncrease<V>(s: seq<Interval<V>>)
    requires WellOrdered(s)
    ensures forall i, j :: 0 <= i < j < |s| ==> s[i].right < s[j].left
  {
    forall i, j | 0 <= i < j < |s| ensures s[i].right < s[j].left {
      SpreadFrom(s, i, j);
    }
  }

  lemma {:induction false} SpreadFrom<V>(s: seq<Interval<V>>, i: nat, j: nat)
    requires WellOrdered(s) && i < j < |s|
    ensures s[i].right < s[j].left
    decreases j - i
  {
    if i + 1 < j {
      SpreadFrom(s, i + 1, j);
    }
  }
}
