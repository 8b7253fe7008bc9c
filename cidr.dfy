/**
 * Conversions between CIDR networks and inclusive address ranges (cidr.go).
 *
 * A CIDR block `start/prefix` (prefix notation as in section 3.1 of RFC 4632)
 * covers the 2^(32 - prefix) addresses from `start`, which must be a multiple
 * of that size.  `Cidr2Range` turns a parsed network into its first and last
 * address; `Interval2CIDRs` cuts an inclusive range into the blocks of the
 * greedy decomposition; `Range2CIDRs` adds the parsing guard around it.
 * Address parsing (`FromDots`, `net.ParseCIDR`) is supplied by the caller as
 * an already parsed value, and rendering blocks as "a.b.c.d/p" text is left
 * out: blocks are returned as values.
 */
module Cidr {
  import opened Bits
  import opened Wrappers

  /** One network emitted by Interval2CIDRs: `out(left, mask)`. */
  datatype Block = Block(start: u32, prefix: nat)

  /** What CIDR2Range reads of the result of `net.ParseCIDR`: `ip4` is
      `ipnet.IP.To4()` as a big-endian word (None when it is an IPv6 network)
      and `mask` is the first four bytes of `ipnet.Mask` as a big-endian word. */
  datatype ParsedNet = ParsedNet(ip4: Option<u32>, mask: u32)

  datatype CidrError =
    | BadCidr   // the error of net.ParseCIDR, returned unchanged
    | ErrBadIP  // a network that has no IPv4 form

  /** net.CIDRMask(p, 32) as a word: exactly the top p of the 32 bits are
      set, so its complement `^mask` is the 2^(32-p) - 1 host bits. */
  function PrefixMask(p: nat): (m: u32)
    requires p <= 32
    ensures forall i :: 0 <= i < 32 ==> (Bit(m, i) <==> i >= 32 - p)
    ensures Not32(m) == Pow2(32 - p) - 1
  {
    Pow2Word();
    Pow2Monotone(32 - p, 32);
    MaskBits(p, WORD - Pow2(32 - p));
    ComplementValue(WORD - Pow2(32 - p), 32);
    WORD - Pow2(32 - p)
  }

  lemma MaskBits(p: nat, m: nat)
    requires p <= 32 && m == WORD - Pow2(32 - p)
    ensures forall i :: 0 <= i < 32 ==> (Bit(m, i) <==> i >= 32 - p)
  {
    forall i | 0 <= i < 32 ensures Bit(m, i) <==> i >= 32 - p {
      MaskBit(p, m, i);
    }
  }

  /** Below bit 32 - p, 2^32 - 2^(32-p) is 2^i times an even number; from
      that bit on, 2^i times an odd number plus a remainder below 2^i. */
  lemma MaskBit(p: nat, m: nat, i: nat)
    requires p <= 32 && i < 32 && m == WORD - Pow2(32 - p)
    ensures Bit(m, i) <==> i >= 32 - p
  {
    var w := 32 - p;
    var d := Pow2(i);
    var top := Pow2(32 - i);
    Pow2Word();
    Pow2Add(i, 32 - i);
    assert WORD == d * top;
    assert top == 2 * Pow2(31 - i);
    if i < w {
      var low := Pow2(w - i);
      Pow2Add(i, w - i);
      assert Pow2(w) == d * low;
      assert low == 2 * Pow2(w - i - 1);
      Pow2Monotone(w - i, 32 - i);
      EvenQuotient(m, d, top, low, Pow2(31 - i), Pow2(w - i - 1));
    } else {
      Pow2Monotone(w, i);
      OddQuotient(m, d, top, Pow2(w), Pow2(31 - i));
    }
  }

  /** m = d * (2a) - d * (2b) has an even quotient by d. */
  lemma EvenQuotient(m: nat, d: nat, top: int, low: int, a: int, b: int)
    requires d > 0 && m == d * top - d * low && top == 2 * a && low == 2 * b && low <= top
    ensures m / d % 2 == 0
  {
    MulSub(top, low, d);
    QuotientBit(m, d, top - low, 0, a - b, 0);
  }

  /** m = d * (2a) - r with 1 <= r <= d has an odd quotient by d. */
  lemma OddQuotient(m: nat, d: nat, top: int, r: int, a: int)
    requires d > 0 && m == d * top - r && 1 <= r <= d && top == 2 * a
    ensures m / d % 2 == 1
  {
    MulSub(top, 1, d);
    QuotientBit(m, d, top - 1, d - r, a - 1, 1);
  }

  /** The bit of m at the position of d, from the quotient m = q * d + r. */
  lemma QuotientBit(m: nat, d: nat, q: int, r: int, h: int, b: int)
    requires d > 0 && 0 <= r < d && m == q * d + r && q == 2 * h + b && 0 <= b < 2
    ensures m / d % 2 == b
  {
    ModUnique(m, d, q, r);
    ModUnique(q, 2, h, b);
  }

  /** Number of addresses in a block. */
  function Size(b: Block): nat
    requires b.prefix <= 32
  {
    Pow2(32 - b.prefix)
  }

  /** Last address of a block. */
  function LastOf(b: Block): int
    requires b.prefix <= 32
  {
    b.start + Size(b) - 1
  }

  predicate InBlock(b: Block, x: int)
    requires b.prefix <= 32
  {
    b.start <= x <= LastOf(b)
  }

  /** The network `b` as net.ParseCIDR would present it. */
  function NetOf(b: Block): ParsedNet
    requires b.prefix <= 32
  {
    ParsedNet(Some(b.start), PrefixMask(b.prefix))
  }

  /** CIDR2Range (cidr.go:11-27): the first address is the network address,
      the last is `left | ^mask`, computed byte by byte in the source, which
      is the same as word-wise since bitwise operators act on each bit. */
  function Cidr2Range(parsed: Option<ParsedNet>): (r: Result<(u32, u32), CidrError>)
    ensures parsed.None? ==> r == Failure(BadCidr)
    ensures parsed.Some? && parsed.value.ip4.None? ==> r == Failure(ErrBadIP)
    ensures parsed.Some? && parsed.value.ip4.Some? ==> r.Success? && r.value.0 == parsed.value.ip4.value
    ensures r.Success? ==> r.value.0 <= r.value.1
  {
    match parsed
    case None => Failure(BadCidr)
    case Some(n) =>
      match n.ip4
      case None => Failure(ErrBadIP)
      case Some(left) => Success((left, Or32(left, Not32(n.mask))))
  }

  /** For the network net.ParseCIDR builds from any address ip and prefix p
      (the address with its host bits cleared), CIDR2Range gives a range of
      exactly 2^(32-p) addresses, aligned to its size and holding ip. */
  lemma Cidr2RangeOfPrefix(ip: u32, p: nat)
    requires p <= 32
    ensures var network := And32(ip, PrefixMask(p));
      && network % Pow2(32 - p) == 0
      && network <= ip <= network + Pow2(32 - p) - 1
      && Cidr2Range(Some(ParsedNet(Some(network), PrefixMask(p))))
         == Success((network, network + Pow2(32 - p) - 1))
  {
    var network := And32(ip, PrefixMask(p));
    NetworkOfPrefix(ip, p);
    var b := Block(network, p);
    BlockRoundTrip(b);
    assert NetOf(b) == ParsedNet(Some(network), PrefixMask(p));
  }

  lemma NetworkOfPrefix(ip: u32, p: nat)
    requires p <= 32
    ensures And32(ip, PrefixMask(p)) == ip - ip % Pow2(32 - p)
    ensures And32(ip, PrefixMask(p)) % Pow2(32 - p) == 0
  {
    ClearHostBits(ip, 32 - p);
  }

  /** `ip & mask` for a prefix mask rounds ip down to a multiple of 2^k. */
  lemma ClearHostBits(ip: u32, k: nat)
    requires k <= 32
    ensures Pow2(k) <= WORD
    ensures And(ip, WORD - Pow2(k)) == ip - ip % Pow2(k)
    ensures (ip - ip % Pow2(k)) % Pow2(k) == 0
  {
    Pow2Word();
    AndHighMask(ip, 32, k);
    LowBitsMod(ip, k);
    RoundDown(ip, Pow2(k));
  }

  /** `n | (2^k - 1)` for a multiple n of 2^k is the last address of its block. */
  lemma SetHostBits(n: nat, k: nat)
    requires n % Pow2(k) == 0
    ensures Or(n, Pow2(k) - 1) == n + Pow2(k) - 1
  {
    OrLowMask(n, k);
    LowBitsMod(n, k);
  }

  /** Converting an aligned block back with CIDR2Range gives exactly its range. */
  lemma BlockRoundTrip(b: Block)
    requires b.prefix <= 32 && b.start % Size(b) == 0
    ensures Cidr2Range(Some(NetOf(b))) == Success((b.start, LastOf(b)))
  {
    var mask := PrefixMask(b.prefix);
    var host := Not32(mask);
    assert host == Size(b) - 1;
    SetHostBits(b.start, 32 - b.prefix);
    var last := Or32(b.start, host);
    assert last == Or(b.start, Size(b) - 1);
    assert Cidr2Range(Some(NetOf(b))) == Success((b.start, last));
  }

  /** Go's `(uint32(1) << l) - 1` (cidr.go:62). */
  function LowMask(l: nat): u32
  {
    Sub32(Shl32(1, l), 1)
  }

  /** The block of 2^l addresses at a is aligned and ends at or before a2. */
  predicate Fits(a: u32, a2: u32, l: nat)
  {
    l <= 32 && a % Pow2(l) == 0 && a + Pow2(l) - 1 <= a2
  }

  /** The test at cidr.go:62-65, `a1 == a1 & ^m && a1 + m <= a2`, is Fits. */
  lemma InnerTest(a: u32, a2: u32, l: nat)
    requires l <= 32
    ensures (a == And32(a, Not32(LowMask(l))) && Add32(a, LowMask(l)) <= a2) <==> Fits(a, a2, l)
  {
    Pow2Word();
    LowMaskValue(l);
    var m := LowMask(l);
    ComplementValue(m, 32);
    assert Not32(m) == Pow2(32) - Pow2(l);
    AndHighMask(a, 32, l);
    LowBitsMod(a, l);
    if a % Pow2(l) == 0 {
      AlignedBlockFits(a, l);
    }
  }

  /** b is the largest aligned block at its start that ends at or before a2. */
  predicate Greatest(b: Block, a2: u32)
  {
    && b.prefix <= 32
    && Fits(b.start, a2, 32 - b.prefix)
    && forall l :: 32 - b.prefix < l <= 32 ==> !Fits(b.start, a2, l)
  }

  /** bs are consecutive blocks covering first..last: each starts right after
      the previous one ends. */
  predicate Tiles(bs: seq<Block>, first: int, last: int)
  {
    && |bs| > 0
    && (forall k :: 0 <= k < |bs| ==> bs[k].prefix <= 32)
    && bs[0].start == first
    && (forall k :: 0 <= k < |bs| - 1 ==> bs[k + 1].start == LastOf(bs[k]) + 1)
    && LastOf(bs[|bs| - 1]) == last
  }

  /** The inner loop of Interval2CIDRs (cidr.go:61-67): counting l down from
      32, the first l whose block at a is aligned and ends by a2, and that
      block's last address.  The counter is a `uint32`, so `l >= 0` never
      fails and the loop ends only by its `break`, which is always taken by
      l = 0, where m = 0. */
  method LargestBlock(a: u32, a2: u32) returns (l: nat, last: u32)
    requires a <= a2
    ensures l <= 32 && Greatest(Block(a, 32 - l), a2)
    ensures last == LastOf(Block(a, 32 - l))
  {
    var first: u32;
    l, first, last := 32, 0, 0;
    assert Fits(a, a2, 0);
    while true
      invariant l <= 32
      invariant forall l' :: l < l' <= 32 ==> !Fits(a, a2, l')
      decreases l
    {
      var m := LowMask(l);
      first := And32(a, Not32(m));
      last := Add32(a, m);
      InnerTest(a, a2, l);
      if a == first && last <= a2 {
        break;
      }
      l := l - 1;
    }
    FoundBlock(a, a2, l, last);
  }

  /** Interval2CIDRs (cidr.go:52-76), with the callback's emissions returned
      in order.  For a1 <= a2 the blocks tile [a1, a2] exactly and each is the
      largest aligned block that fits where it starts. */
  method Interval2CIDRs(a1: u32, a2: u32) returns (blocks: seq<Block>)
    ensures a1 > a2 ==> blocks == []
    ensures a1 == a2 ==> blocks == [Block(a1, 32)]
    ensures a1 <= a2 ==> Tiles(blocks, a1, a2)
    ensures forall k :: 0 <= k < |blocks| ==> Greatest(blocks[k], a2)
  {
    if a1 == a2 {
      assert Greatest(Block(a1, 32), a2) by {
        forall l | 0 < l <= 32 ensures !Fits(a1, a2, l) {
          Pow2Monotone(0, l);
        }
      }
      return [Block(a1, 32)];
    }
    blocks := [];
    var a := a1;
    while a <= a2
      invariant a1 <= a
      invariant blocks == [] ==> a == a1
      invariant blocks != [] ==> 0 < a && a - 1 <= a2 && Tiles(blocks, a1, a - 1)
      invariant forall k :: 0 <= k < |blocks| ==> Greatest(blocks[k], a2)
      decreases WORD - a
    {
      var l, last := LargestBlock(a, a2);
      var b := Block(a, 32 - l);
      AppendBlock(blocks, a1, b);
      blocks := blocks + [b];
      a := last;
      if a == MAX32 {
        break;
      }
      a := a + 1;
    }
  }

  /** What the inner loop of Interval2CIDRs has found when it breaks. */
  lemma FoundBlock(a: u32, a2: u32, l: nat, last: u32)
    requires l <= 32 && Fits(a, a2, l)
    requires forall l' :: l < l' <= 32 ==> !Fits(a, a2, l')
    requires last == Add32(a, LowMask(l))
    ensures Greatest(Block(a, 32 - l), a2) && last == LastOf(Block(a, 32 - l))
  {
    LowMaskValue(l);
    AlignedBlockFits(a, l);
  }

  /** A block starting right after a tiling extends it. */
  lemma AppendBlock(bs: seq<Block>, first: int, b: Block)
    requires b.prefix <= 32
    requires (bs == [] && b.start == first) || (bs != [] && Tiles(bs, first, b.start - 1))
    ensures Tiles(bs + [b], first, LastOf(b))
  {
    var bs' := bs + [b];
    forall k | 0 <= k < |bs'| - 1 ensures bs'[k + 1].start == LastOf(bs'[k]) + 1 {
      if k < |bs| - 1 {
        assert bs'[k] == bs[k] && bs'[k + 1] == bs[k + 1];
      }
    }
  }

  /** Some block of bs holds x. */
  predicate Covers(bs: seq<Block>, x: int)
  {
    exists k :: 0 <= k < |bs| && bs[k].prefix <= 32 && InBlock(bs[k], x)
  }

  /** A tiling of [a1, a2] covers exactly the addresses of [a1, a2]. */
  lemma {:induction false} TilesCoverExactly(bs: seq<Block>, a1: int, a2: int)
    requires Tiles(bs, a1, a2)
    ensures forall x :: Covers(bs, x) <==> a1 <= x <= a2
  {
    if |bs| > 1 {
      var rest := bs[1..];
      TailTiles(bs, a1, a2);
      TilesCoverExactly(rest, LastOf(bs[0]) + 1, a2);
      forall x | a1 <= x <= a2 ensures Covers(bs, x) {
        if x > LastOf(bs[0]) {
          assert Covers(rest, x);
          var k :| 0 <= k < |rest| && rest[k].prefix <= 32 && InBlock(rest[k], x);
          assert InBlock(bs[k + 1], x);
        } else {
          assert InBlock(bs[0], x);
        }
      }
      forall x | Covers(bs, x) ensures a1 <= x <= a2 {
        var k :| 0 <= k < |bs| && bs[k].prefix <= 32 && InBlock(bs[k], x);
        if k > 0 {
          assert rest[k - 1] == bs[k];
          assert Covers(rest, x);
        } else {
          assert InBlock(rest[0], rest[0].start);
          assert Covers(rest, rest[0].start);
        }
      }
    }
  }

  /** The blocks of a tiling are disjoint and ascending. */
  lemma {:induction false} TilesAscending(bs: seq<Block>, a1: int, a2: int)
    requires Tiles(bs, a1, a2)
    ensures forall i, j :: 0 <= i < j < |bs| ==> LastOf(bs[i]) < bs[j].start
  {
    if |bs| > 1 {
      var rest := bs[1..];
      TailTiles(bs, a1, a2);
      TilesAscending(rest, LastOf(bs[0]) + 1, a2);
      forall i, j | 0 <= i < j < |bs| ensures LastOf(bs[i]) < bs[j].start {
        if i > 0 {
          assert rest[i - 1] == bs[i] && rest[j - 1] == bs[j];
        } else if j > 1 {
          assert rest[0] == bs[1] && rest[j - 1] == bs[j];
        }
      }
    }
  }

  /** The whole address space is the single block 0.0.0.0/0 (cidr_test.go:48). */
  lemma WholeSpaceIsOneBlock(bs: seq<Block>)
    requires Tiles(bs, 0, MAX32)
    requires forall k :: 0 <= k < |bs| ==> Greatest(bs[k], MAX32)
    ensures bs == [Block(0, 0)]
  {
    Pow2Word();
    assert Fits(0, MAX32, 32);
    assert Greatest(bs[0], MAX32);
    assert LastOf(bs[0]) == MAX32;
    TilesAscending(bs, 0, MAX32);
    assert LastOf(bs[|bs| - 1]) == MAX32;
  }

  /** At a given start there is only one greatest block. */
  lemma GreatestUnique(b: Block, c: Block, a2: u32)
    requires Greatest(b, a2) && Greatest(c, a2) && b.start == c.start
    ensures b == c
  {
  }

  /** The decomposition into greatest aligned blocks is unique: any two tilings
      of [a1, a2] made of greatest blocks are the same sequence. */
  lemma {:induction false} GreedyUnique(bs: seq<Block>, cs: seq<Block>, a1: int, a2: u32)
    requires Tiles(bs, a1, a2) && Tiles(cs, a1, a2)
    requires forall k :: 0 <= k < |bs| ==> Greatest(bs[k], a2)
    requires forall k :: 0 <= k < |cs| ==> Greatest(cs[k], a2)
    ensures bs == cs
  {
    GreatestUnique(bs[0], cs[0], a2);
    if |bs| == 1 || |cs| == 1 {
      TilesAscending(bs, a1, a2);
      TilesAscending(cs, a1, a2);
    } else {
      var next := LastOf(bs[0]) + 1;
      TailTiles(bs, a1, a2);
      TailTiles(cs, a1, a2);
      GreedyUnique(bs[1..], cs[1..], next, a2);
      assert bs == [bs[0]] + bs[1..] && cs == [cs[0]] + cs[1..];
    }
  }

  /** Dropping the first block of a tiling leaves a tiling of the rest. */
  lemma TailTiles(bs: seq<Block>, a1: int, a2: int)
    requires Tiles(bs, a1, a2) && |bs| > 1
    ensures Tiles(bs[1..], LastOf(bs[0]) + 1, a2)
  {
    var rest := bs[1..];
    forall k | 0 <= k < |rest| - 1 ensures rest[k + 1].start == LastOf(rest[k]) + 1 {
      assert rest[k] == bs[k + 1] && rest[k + 1] == bs[k + 2];
    }
  }

  /** Each greatest block, converted back with CIDR2Range, yields exactly the
      addresses it was emitted for. */
  lemma GreatestBlocksRoundTrip(bs: seq<Block>, a2: u32)
    requires forall k :: 0 <= k < |bs| ==> Greatest(bs[k], a2)
    ensures forall k :: 0 <= k < |bs| ==>
      && bs[k].prefix <= 32
      && Cidr2Range(Some(NetOf(bs[k]))) == Success((bs[k].start, LastOf(bs[k])))
  {
    forall k | 0 <= k < |bs|
      ensures bs[k].prefix <= 32 && Cidr2Range(Some(NetOf(bs[k]))) == Success((bs[k].start, LastOf(bs[k])))
    {
      BlockRoundTrip(bs[k]);
    }
  }

  /** Range2CIDRs (cidr.go:31-47) on the parsed addresses: nil when either
      failed to parse or the range is inverted, otherwise the blocks of
      Interval2CIDRs. */
  method Range2CIDRs(dots1: Option<u32>, dots2: Option<u32>) returns (r: Option<seq<Block>>)
    ensures r.None? <==> dots1.None? || dots2.None? || dots1.value > dots2.value
    ensures r.Some? ==> Tiles(r.value, dots1.value, dots2.value)
    ensures r.Some? ==> forall k :: 0 <= k < |r.value| ==> Greatest(r.value[k], dots2.value)
  {
    if dots1.None? || dots2.None? {
      return None;
    }
    var a1, a2 := dots1.value, dots2.value;
    if a1 > a2 {
      return None;
    }
    var blocks := Interval2CIDRs(a1, a2);
    r := Some(blocks);
  }
}
