/**
 * Concrete consequences of the interval map's rules: the interval Add
 * derives from a CIDR network, the stored address the overlap branch of add
 * can lose, and the sequence of insertions of the CIDR test of map_test.go.
 */
module IntervalMapScenarios {
  import opened Bits
  import opened Wrappers
  import opened IntervalMaps
  import opened IntervalMapProofs
  import Cidr

  /** For an address aligned to its prefix (a network address), the interval
      Add stores is exactly the block the network denotes, the range that
      CIDR2Range computes from the same network. */
  lemma NetworkRangeIsBlock(a: u32, ones: nat)
    requires ones <= 32 && a % Pow2(32 - ones) == 0
    ensures TargetRange(Network(Some(CidrParse(Some(a), ones))))
         == Success((a, Cidr.LastOf(Cidr.Block(a, ones))))
    ensures Cidr.Cidr2Range(Some(Cidr.NetOf(Cidr.Block(a, ones))))
         == Success((a, Cidr.LastOf(Cidr.Block(a, ones))))
  {
    var b := Cidr.Block(a, ones);
    var size := Pow2(32 - ones);
    assert Cidr.Size(b) == size;
    var last := Cidr.LastOf(b);
    NetworkEnd(a, ones, size, Shl32(1, 32 - ones));
    TargetOfNetwork(a, ones, last);
    Cidr.BlockRoundTrip(b);
  }

  lemma TargetOfNetwork(a: u32, ones: nat, last: int)
    requires ones <= 32 && last == Sub32(Add32(a, Shl32(1, 32 - ones)), 1)
    ensures TargetRange(Network(Some(CidrParse(Some(a), ones)))) == Success((a, last))
  {
  }

  /** `left + 1<<(32-ones) - 1` in uint32 arithmetic for an aligned left. */
  lemma NetworkEnd(a: u32, ones: nat, size: nat, span: u32)
    requires ones <= 32 && size == Pow2(32 - ones) && a % size == 0
    requires span == Shl32(1, 32 - ones)
    ensures Sub32(Add32(a, span), 1) == a + size - 1
  {
    Pow2Word();
    Pow2Monotone(32 - ones, 32);
    var blocks := Pow2(ones);
    Pow2Add(32 - ones, ones);
    assert 32 - ones + ones == 32;
    assert WORD == size * blocks;
    AlignedEnd(a, size, blocks);
    if ones == 0 {
      assert span == 0;
    } else {
      assert span == size;
    }
  }

  /** A multiple of size below 2^32 leaves room for a whole block of size. */
  lemma AlignedEnd(a: u32, size: nat, blocks: nat)
    requires 0 < size && a % size == 0 && WORD == size * blocks
    ensures a + size <= WORD
  {
    var q := a / size;
    assert a == q * size;
    if q >= blocks {
      MulMono(blocks, q, size);
      assert false;
    }
    MulMono(q + 1, blocks, size);
  }

  lemma MulMono(x: nat, y: nat, m: nat)
    requires x <= y
    ensures x * m <= y * m
  {
  }

  /** Networks with a prefix shorter than 8, of length 0, or longer than 32
      (where the Go shift count is huge and the shift yields 0) give an
      interval add rejects: inverted, or of 1 << 24 addresses or more. */
  lemma WideNetworksRejected(c: CidrParse)
    requires c.ones < 8 || c.ones > 32
    ensures var r := TargetRange(Network(Some(c)));
      r.Success? && (r.value.0 > r.value.1 || r.value.1 - r.value.0 >= ADD_SPAN_LIMIT)
  {
    var left: u32 := if c.ip4.Some? then c.ip4.value else 0;
    var span: u32 := if c.ones <= 32 then Shl32(1, 32 - c.ones) else 0;
    WideSpan(c.ones, span);
    SpanRejected(left, span, Sub32(Add32(left, span), 1));
  }

  /** The shift `1 << (32 - ones)` of a prefix shorter than 8 is at least
      2^25; for the other prefixes that lemma is about it is 0. */
  lemma WideSpan(ones: nat, span: u32)
    requires ones < 8 || ones > 32
    requires span == if ones <= 32 then Shl32(1, 32 - ones) else 0
    ensures span == 0 || 0x200_0000 <= span
  {
    Pow2Word();
    if 0 < ones < 8 {
      Pow2Monotone(25, 32 - ones);
      Pow2Monotone(32 - ones, 32);
      Pow2Of25();
    }
  }

  lemma Pow2Of25()
    ensures Pow2(25) == 0x200_0000
  {
    assert Pow2(4) == 16;
    Pow2Add(4, 4);
    Pow2Add(8, 8);
    Pow2Add(16, 8);
    Pow2Add(24, 1);
  }

  /** An end computed as `left + span - 1` in uint32 arithmetic, with span 0
      or at least 2^25, is either before left or 2^24 or more past it. */
  lemma SpanRejected(left: u32, span: u32, right: u32)
    requires span == 0 || 0x200_0000 <= span
    requires right == Sub32(Add32(left, span), 1)
    ensures left > right || right - left >= ADD_SPAN_LIMIT
  {
  }

  /** add's overlap branch sets the end of the interval it extends to the
      end of the new interval, so a stored interval that starts inside the
      new one and ends past it loses its tail: here address 30. */
  lemma TailDropped(after: seq<Interval<bool>>, err: Option<MapError>, arranged: seq<Interval<bool>>)
    requires Inserted([Interval(20, 30, false)], Interval(5, 25, true), after, err, arranged)
    ensures after == [Interval(5, 25, true)] && err == None
    ensures Covered([Interval(20, 30, false)], 30) && !Covered(after, 30)
  {
    ArrangedAt([Interval(20, 30, false)], Interval(5, 25, true), arranged, 0);
    OverlapPass(arranged);
    ValidIff(after);
    assert Holds([Interval(20, 30, false)][0], 30);
  }

  lemma OverlapPass(s: seq<Interval<bool>>)
    requires s == [Interval(5, 25, true)] + [Interval(20, 30, false)] + []
    ensures Coalesce(s, 25) == [Interval(5, 25, true)]
  {
    assert Merged(s, 25, 2) == Step([Interval(5, 25, true)], Interval(20, 30, false), 25);
  }

  /** add stores the merged slice before Valid checks it (map.go:121-122).
      Here the continuation rule grows a valid interval past Valid's span
      limit: add returns TooLarge, and the merged interval stays stored. */
  lemma FailedAddStays(after: seq<Interval<bool>>, err: Option<MapError>, arranged: seq<Interval<bool>>)
    requires Inserted([Interval(0, 0xFEFF_FFFF, true)], Interval(0xFF00_0000, 0xFF00_0001, true), after, err, arranged)
    ensures FirstDefect([Interval(0, 0xFEFF_FFFF, true)]) == None
    ensures after == [Interval(0, 0xFF00_0001, true)]
    ensures err == Some(TooLarge(0, 0xFF00_0001))
  {
    ExtendsLast([Interval(0, 0xFEFF_FFFF, true)], Interval(0xFF00_0000, 0xFF00_0001, true), after, err, arranged);
    assert Defect(after, 0) == Some(TooLarge(0, 0xFF00_0001));
  }

  /** The intervals Add derives in TestOverlaps2 (map_test.go:150-168).
      64.39.106.0/20 is not a network address: its interval starts at
      64.39.106.0 itself and spans 2^12 addresses. */
  lemma Overlaps2Targets()
    ensures TargetRange(Network(Some(CidrParse(Some(0x4027_6000), 20)))) == Success((0x4027_6000, 0x4027_6FFF))
    ensures TargetRange(Network(Some(CidrParse(Some(0x4027_6A00), 20)))) == Success((0x4027_6A00, 0x4027_79FF))
    ensures TargetRange(Address(Some(0x4027_6AD0))) == Success((0x4027_6AD0, 0x4027_6AD0))
  {
    Pow2Of12();
  }

  lemma Pow2Of12()
    ensures Pow2(12) == 0x1000
  {
    assert Pow2(4) == 16;
    Pow2Add(4, 4);
    Pow2Add(8, 4);
  }

  /** TestOverlaps2 (map_test.go:150-168), with the values 0, 1, 2 it stores:
      every add succeeds and the map stays valid.  The second interval runs
      past the first, which is extended to its end and keeps the value 0
      (map.go:105-108), so no address maps to 1; the third lies inside and
      changes nothing. */
  lemma Overlaps2(a1: seq<Interval<int>>, e1: Option<MapError>, s1: seq<Interval<int>>,
                  a2: seq<Interval<int>>, e2: Option<MapError>, s2: seq<Interval<int>>,
                  a3: seq<Interval<int>>, e3: Option<MapError>, s3: seq<Interval<int>>)
    requires Inserted([], Interval(0x4027_6000, 0x4027_6FFF, 0), a1, e1, s1)
    requires Inserted(a1, Interval(0x4027_6A00, 0x4027_79FF, 1), a2, e2, s2)
    requires Inserted(a2, Interval(0x4027_6AD0, 0x4027_6AD0, 2), a3, e3, s3)
    ensures a1 == [Interval(0x4027_6000, 0x4027_6FFF, 0)] && e1 == None
    ensures a2 == [Interval(0x4027_6000, 0x4027_79FF, 0)] && e2 == None
    ensures a3 == a2 && e3 == None
    ensures forall x :: 0x4027_6000 <= x <= 0x4027_79FF ==> Lookup(a3, x) == Some(0)
  {
    InsertOverlapping(a1, Interval(0x4027_6A00, 0x4027_79FF, 1), 0, a2, e2, s2);
    assert a2 == [Interval(0x4027_6000, 0x4027_79FF, 0)];
    ValidIff(a2);
    InsertContained(a2, Interval(0x4027_6AD0, 0x4027_6AD0, 2), 0, a3, e3, s3);
  }

  /** add of an interval past the last one of a canonical map that does not
      continue it: the interval is appended as it is. */
  lemma AppendedAtEnd<V>(before: seq<Interval<V>>, iv: Interval<V>,
                         after: seq<Interval<V>>, err: Option<MapError>, arranged: seq<Interval<V>>)
    requires Canonical(before) && before != []
    requires iv.left <= iv.right && iv.right - iv.left < ADD_SPAN_LIMIT
    requires Apart(before[|before| - 1], iv)
    requires Inserted(before, iv, after, err, arranged)
    ensures after == before + [iv] && err == FirstDefect(after)
  {
    InsertBetween(before, iv, |before|, after, err, arranged);
    assert before[..|before|] == before;
  }

  /** add of an interval that continues the last one of a canonical map,
      with the same value: the last interval is extended to its end. */
  lemma ExtendsLast<V>(before: seq<Interval<V>>, iv: Interval<V>,
                       after: seq<Interval<V>>, err: Option<MapError>, arranged: seq<Interval<V>>)
    requires Canonical(before) && before != []
    requires iv.left <= iv.right && iv.right - iv.left < ADD_SPAN_LIMIT
    requires before[|before| - 1].right + 1 == iv.left && before[|before| - 1].value == iv.value
    requires Inserted(before, iv, after, err, arranged)
    ensures after == before[..|before| - 1] + [before[|before| - 1].(right := iv.right)]
    ensures err == FirstDefect(after)
  {
    InsertBetween(before, iv, |before|, after, err, arranged);
  }

  /** The intervals Add derives from the networks of the CIDR test. */
  lemma TableTargets()
    ensures TargetRange(Network(Some(CidrParse(Some(0xC080_0100), 7)))) == Success((0xC080_0100, 0xC280_00FF))
    ensures TargetRange(Network(Some(CidrParse(Some(0x0100_0000), 8)))) == Success((0x0100_0000, 0x01FF_FFFF))
    ensures TargetRange(Network(Some(CidrParse(Some(0x0A00_0000), 32)))) == Success((0x0A00_0000, 0x0A00_0000))
    ensures TargetRange(Network(Some(CidrParse(Some(0x0A00_0001), 32)))) == Success((0x0A00_0001, 0x0A00_0001))
  {
    Pow2Of25();
    ShiftConstants();
    assert Shl32(1, 25) == 0x200_0000;
    assert Shl32(1, 0) == 1;
  }

  /** The map of the CIDR test once its table has been added. */
  function TableMap(): seq<Interval<int>>
  {
    [Interval(0x0100_0000, 0x01FF_FFFF, 4), Interval(0x0A00_0000, 0x0A00_0000, 5),
     Interval(0x0A00_0001, 0x0A00_0001, 6), Interval(0x0A00_0003, 0x0A00_0003, 7)]
  }

  /** The map of the CIDR test once 10.0.0.4 has been added. */
  function FinalMap(): seq<Interval<int>>
  {
    [Interval(0x0100_0000, 0x01FF_FFFF, 4), Interval(0x0A00_0000, 0x0A00_0000, 5),
     Interval(0x0A00_0001, 0x0A00_0001, 6), Interval(0x0A00_0003, 0x0A00_0004, 7)]
  }

  /** A prefix of a canonical slice is canonical. */
  lemma CanonicalPrefix<V>(s: seq<Interval<V>>, k: nat)
    requires Canonical(s) && k <= |s|
    ensures Canonical(s[..k])
  {
    var p := s[..k];
    forall j | 0 <= j < |p| - 1 ensures Apart(p[j], p[j + 1]) {
      assert p[j] == s[j] && p[j + 1] == s[j + 1];
    }
  }

  lemma TableCanonical()
    ensures Canonical(TableMap()) && SpansBounded(TableMap())
  {
  }

  /** The map after the first k stored targets of the table: canonical and
      accepted by Valid. */
  lemma TablePrefix(k: nat)
    requires k <= 4
    ensures Canonical(TableMap()[..k]) && FirstDefect(TableMap()[..k]) == None
  {
    var p := TableMap()[..k];
    TableCanonical();
    CanonicalPrefix(TableMap(), k);
    CanonicalMeans(p);
    forall j | 0 <= j < |p| ensures p[j].right - p[j].left <= VALID_SPAN_LIMIT {
      assert p[j] == TableMap()[j];
    }
    ValidIff(p);
  }

  /** The targets of the table that add accepts go in one by one, each
      after the ones before it. */
  lemma TableStep(k: nat, before: seq<Interval<int>>, after: seq<Interval<int>>,
                  err: Option<MapError>, arranged: seq<Interval<int>>)
    requires k < 4 && before == TableMap()[..k]
    requires Inserted(before, TableMap()[k], after, err, arranged)
    ensures after == TableMap()[..k + 1] && err == None
  {
    var t := TableMap();
    if k == 0 {
      assert after == t[..1];
      return;
    }
    TablePrefix(k);
    TablePrefix(k + 1);
    TableCanonical();
    assert Apart(t[k - 1], t[k]);
    AppendedAtEnd(before, t[k], after, err, arranged);
    assert t[..k + 1] == t[..k] + [t[k]];
  }

  lemma FinalValid()
    ensures FirstDefect(FinalMap()) == None
  {
    ValidIff(FinalMap());
  }

  /** 10.0.0.4 with value 7 continues 10.0.0.3, which holds 7. */
  lemma FinalExtends(after: seq<Interval<int>>, err: Option<MapError>, arranged: seq<Interval<int>>)
    requires Inserted(TableMap(), Interval(0x0A00_0004, 0x0A00_0004, 7), after, err, arranged)
    ensures after == FinalMap() && err == None
  {
    TableCanonical();
    ExtendsLast(TableMap(), Interval(0x0A00_0004, 0x0A00_0004, 7), after, err, arranged);
    FinalValid();
  }

  /** The addresses the CIDR test looks up below 10.0.0.0, and what it
      expects of each. */
  lemma FinalLookupsLow()
    ensures WellOrdered(FinalMap())
    ensures Lookup(FinalMap(), 0) == None && Lookup(FinalMap(), 0xFF) == None
    ensures Lookup(FinalMap(), 0x0100_0000) == Some(4) && Lookup(FinalMap(), 0x01FF_FFFF) == Some(4)
    ensures Lookup(FinalMap(), 0x0200_0000) == None && Lookup(FinalMap(), 0x09FF_FFFF) == None
  {
    var f := FinalMap();
    assert f[1..] == [f[1], f[2], f[3]];
    assert f[1..][1..] == [f[2], f[3]];
    assert f[1..][1..][1..] == [f[3]];
    assert f[1..][1..][1..][1..] == [];
  }

  /** The addresses the CIDR test looks up from 10.0.0.0 on. */
  lemma FinalLookupsHigh()
    ensures Lookup(FinalMap(), 0x0A00_0000) == Some(5) && Lookup(FinalMap(), 0x0A00_0001) == Some(6)
    ensures Lookup(FinalMap(), 0x0A00_0002) == None && Lookup(FinalMap(), 0x0A00_0003) == Some(7)
    ensures Lookup(FinalMap(), 0x0A00_0004) == Some(7) && Lookup(FinalMap(), 0xFFFF_FFFF) == None
  {
    var f := FinalMap();
    assert f[1..] == [f[1], f[2], f[3]];
    assert f[1..][1..] == [f[2], f[3]];
    assert f[1..][1..][1..] == [f[3]];
    assert f[1..][1..][1..][1..] == [];
  }

  /** The end of the CIDR test of map_test.go (lines 78-81) on the map the
      table builds: adding 10.0.0.4 with the value of 10.0.0.3 keeps four
      intervals. */
  method ExtendTable(m: IntervalMap<int>) returns (err: Option<MapError>, len: nat)
    requires m.intervals == TableMap()
    modifies m
    ensures m.intervals == FinalMap() && err == None && len == 4
  {
    ghost var arranged;
    err, arranged := m.Add(Address(Some(0x0A00_0004)), 7);
    FinalExtends(m.intervals, err, arranged);
    len := m.Len();
  }
}
