/**
 * Unsigned 32-bit words as Go's `uint32` sees them, over unbounded integers.
 *
 * Go's operators on `uint32` wrap modulo 2^32 and a shift by 32 or more
 * yields 0; the bitwise operators act bit by bit.  Here they are written out
 * explicitly: wrap-around with `% WORD`, the bitwise `&`, `|` and `^x` by
 * recursion over the bits, and lemmas tie the masks the library uses to
 * ordinary arithmetic.
 */
module Bits {

  /** 2^32, the number of distinct `uint32` values. */
  const WORD: int := 0x1_0000_0000

  /** The largest `uint32`, 255.255.255.255 as an address. */
  const MAX32: int := 0xFFFF_FFFF

  type u32 = x: int | 0 <= x < 0x1_0000_0000

  function Pow2(n: nat): (r: nat)
    ensures r >= 1
  {
    if n == 0 then 1 else 2 * Pow2(n - 1)
  }

  /** Go's `a + b` on `uint32`. */
  function Add32(a: u32, b: u32): (r: u32)
    ensures a + b < WORD ==> r == a + b
    ensures a + b >= WORD ==> r == a + b - WORD
  {
    (a + b) % WORD
  }

  /** Go's `a - b` on `uint32`. */
  function Sub32(a: u32, b: u32): (r: u32)
    ensures a >= b ==> r == a - b
    ensures a < b ==> r == a - b + WORD
  {
    (a - b) % WORD
  }

  /** Go's `x << n` on `uint32`: the bits shifted past bit 31 are lost, so
      the result is x * 2^n when that fits, and 0 once n reaches 32. */
  function Shl32(x: u32, n: nat): (r: u32)
    ensures x * Pow2(n) < WORD ==> r == x * Pow2(n)
    ensures n >= 32 ==> r == 0
  {
    ShiftedOut(x, n);
    (x * Pow2(n)) % WORD
  }

  lemma ShiftedOut(x: u32, n: nat)
    ensures x * Pow2(n) < WORD ==> (x * Pow2(n)) % WORD == x * Pow2(n)
    ensures n >= 32 ==> (x * Pow2(n)) % WORD == 0
  {
    var v := x * Pow2(n);
    if v < WORD {
      ModUnique(v, WORD, 0, v);
    }
    if n >= 32 {
      WordDivides(n);
      WordMultiple(v, x, Pow2(n), Pow2(n - 32));
    }
  }

  lemma WordDivides(n: nat)
    requires n >= 32
    ensures Pow2(n) == WORD * Pow2(n - 32)
  {
    Pow2Word();
    Pow2Add(32, n - 32);
    assert 32 + (n - 32) == n;
  }

  /** x * (2^32 * e) is a multiple of 2^32. */
  lemma WordMultiple(v: int, x: int, d: int, e: int)
    requires d == WORD * e && v == x * d
    ensures v % WORD == 0
  {
    assert v == (x * e) * WORD;
    ModUnique(v, WORD, x * e, 0);
  }


  /** Bit i of x, counting from the least significant one. */
  predicate Bit(x: nat, i: nat)
  {
    x / Pow2(i) % 2 == 1
  }

  /** Bitwise and, bit by bit from the least significant one. */
  function And(x: nat, y: nat): nat
    decreases x
  {
    if x == 0 || y == 0 then 0
    else 2 * And(x / 2, y / 2) + (if x % 2 == 1 && y % 2 == 1 then 1 else 0)
  }

  /** Bitwise or, bit by bit from the least significant one. */
  function Or(x: nat, y: nat): nat
    decreases x
  {
    if x == 0 then y
    else if y == 0 then x
    else 2 * Or(x / 2, y / 2) + (if x % 2 == 1 || y % 2 == 1 then 1 else 0)
  }

  /** The bitwise complement `^x` of the low `w` bits of `x`. */
  function Complement(x: nat, w: nat): nat
  {
    if w == 0 then 0 else 2 * Complement(x / 2, w - 1) + (1 - x % 2)
  }

  /** Go's `^x` on `uint32`: every one of the 32 bits flipped. */
  function Not32(x: u32): (r: u32)
    ensures r == MAX32 - x
  {
    Pow2Word();
    ComplementValue(x, 32);
    Complement(x, 32)
  }

  lemma Pow2Word()
    ensures Pow2(32) == WORD
  {
    assert Pow2(4) == 16;
    Pow2Add(4, 4);
    Pow2Add(8, 8);
    Pow2Add(16, 16);
  }

  /** The two shifted constants of map.go: `uint32(1) << 24` and `uint32(255) << 24`. */
  lemma ShiftConstants()
    ensures Shl32(1, 24) == 0x100_0000
    ensures Shl32(255, 24) == 0xFF00_0000
  {
    assert Pow2(4) == 16;
    Pow2Add(4, 4);
    Pow2Add(8, 8);
    Pow2Add(8, 16);
  }

  lemma {:induction false} Pow2Add(a: nat, b: nat)
    ensures Pow2(a + b) == Pow2(a) * Pow2(b)
  {
    if a > 0 {
      Pow2Add(a - 1, b);
      assert Pow2(a + b) == 2 * Pow2(a - 1 + b);
    }
  }

  lemma {:induction false} Pow2Monotone(a: nat, b: nat)
    requires a <= b
    ensures Pow2(a) <= Pow2(b)
    ensures a < b ==> Pow2(a) < Pow2(b)
  {
    if a < b {
      Pow2Monotone(a, b - 1);
    }
  }

  /** For shift counts up to 32 the Go expression `(uint32(1) << l) - 1` is 2^l - 1,
      including l == 32 where the shift gives 0 and the subtraction wraps. */
  lemma LowMaskValue(l: nat)
    requires l <= 32
    ensures Sub32(Shl32(1, l), 1) == Pow2(l) - 1
  {
    Pow2Word();
    Pow2Monotone(l, 32);
    if l < 32 {
      assert Shl32(1, l) == Pow2(l);
    } else {
      assert Shl32(1, l) == 0;
    }
  }

  lemma {:induction false} ComplementValue(x: nat, w: nat)
    requires x < Pow2(w)
    ensures Complement(x, w) == Pow2(w) - 1 - x
  {
    if w > 0 {
      ComplementValue(x / 2, w - 1);
    }
  }

  /** x % 2^l splits into its lowest bit and the rest. */
  lemma ModPow2Split(x: nat, l: nat)
    requires l >= 1
    ensures x % Pow2(l) == x % 2 + 2 * ((x / 2) % Pow2(l - 1))
  {
    var p := Pow2(l - 1);
    var q, b := (x / 2) / p, (x / 2) % p;
    assert x / 2 == q * p + b;
    assert x == q * Pow2(l) + (2 * b + x % 2);
    ModUnique(x, Pow2(l), q, 2 * b + x % 2);
  }

  lemma ModUnique(x: int, m: int, q: int, r: int)
    requires m > 0 && 0 <= r < m && x == q * m + r
    ensures x % m == r && x / m == q
  {
    var q', r' := x / m, x % m;
    assert x == q' * m + r';
    MulSub(q, q', m);
    if q > q' {
      MulAtLeast(q - q', m);
    } else if q < q' {
      MulAtLeast(q' - q, m);
      MulSub(q', q, m);
    }
  }

  /** Rounding down to a multiple of m gives a multiple of m. */
  lemma RoundDown(x: nat, m: nat)
    requires m > 0
    ensures (x - x % m) % m == 0
  {
    var q, r := x / m, x % m;
    assert x == q * m + r;
    ModUnique(x - r, m, q, 0);
  }

  lemma MulSub(a: int, b: int, m: int)
    ensures (a - b) * m == a * m - b * m
  {
  }

  lemma {:induction false} MulAtLeast(a: nat, m: nat)
    requires a >= 1
    ensures a * m >= m
  {
    if a > 1 {
      MulAtLeast(a - 1, m);
      assert a * m == (a - 1) * m + m;
    }
  }

  lemma {:induction false} AndAllOnes(x: nat, w: nat)
    requires x < Pow2(w)
    ensures And(x, Pow2(w) - 1) == x
  {
    if w > 0 && x > 0 {
      AndAllOnes(x / 2, w - 1);
      assert (Pow2(w) - 1) / 2 == Pow2(w - 1) - 1;
    }
  }

  /** The low l bits of x, bit by bit; equal to x % 2^l (LowBitsMod). */
  function LowBits(x: nat, l: nat): nat
  {
    if l == 0 then 0 else 2 * LowBits(x / 2, l - 1) + x % 2
  }

  lemma {:induction false} LowBitsMod(x: nat, l: nat)
    ensures LowBits(x, l) == x % Pow2(l)
  {
    if l > 0 {
      LowBitsMod(x / 2, l - 1);
      ModPow2Split(x, l);
    }
  }

  /** Clearing the low l bits of a w-bit word with the mask 2^w - 2^l rounds it
      down to a multiple of 2^l. */
  lemma {:induction false} AndHighMask(x: nat, w: nat, l: nat)
    requires l <= w && x < Pow2(w)
    ensures Pow2(l) <= Pow2(w) && And(x, Pow2(w) - Pow2(l)) == x - LowBits(x, l)
  {
    if l == 0 {
      Pow2Monotone(0, w);
      AndAllOnes(x, w);
    } else if w == l {
      AndNoMask(x, l);
    } else if x > 0 {
      HalfBelow(x, w);
      AndHighMask(x / 2, w - 1, l - 1);
      AndHighMaskStep(x, w, l);
    } else {
      Pow2Monotone(l, w);
      LowBitsZero(l);
    }
  }

  /** AndHighMask for w == l, where the mask is 0. */
  lemma AndNoMask(x: nat, l: nat)
    requires x < Pow2(l)
    ensures x - LowBits(x, l) == 0
  {
    LowBitsMod(x, l);
    ModUnique(x, Pow2(l), 0, x);
  }

  lemma HalfBelow(x: nat, w: nat)
    requires 0 < w && x < Pow2(w)
    ensures x / 2 < Pow2(w - 1)
  {
    var h := Pow2(w - 1);
    assert Pow2(w) == 2 * h;
    HalfOf(x, h);
  }

  lemma HalfOf(x: nat, h: nat)
    requires x < 2 * h
    ensures x / 2 < h
  {
  }

  /** The recursive step of AndHighMask: from the statement for x / 2 to x. */
  lemma AndHighMaskStep(x: nat, w: nat, l: nat)
    requires 0 < l < w && 0 < x
    requires Pow2(l - 1) <= Pow2(w - 1)
    requires And(x / 2, Pow2(w - 1) - Pow2(l - 1)) == x / 2 - LowBits(x / 2, l - 1)
    ensures Pow2(l) <= Pow2(w) && And(x, Pow2(w) - Pow2(l)) == x - LowBits(x, l)
  {
    Pow2Monotone(l - 1, w - 1);
    var y' := Pow2(w - 1) - Pow2(l - 1);
    assert Pow2(w) - Pow2(l) == 2 * y';
    AndEven(x, y');
    assert LowBits(x, l) == 2 * LowBits(x / 2, l - 1) + x % 2;
  }

  lemma AndEven(x: nat, y: nat)
    requires y > 0
    ensures And(x, 2 * y) == 2 * And(x / 2, y)
  {
    if x > 0 {
      assert (2 * y) / 2 == y && (2 * y) % 2 == 0;
    }
  }

  /** Setting the low l bits: x | (2^l - 1) is the last address of the 2^l-block holding x. */
  lemma {:induction false} OrLowMask(x: nat, l: nat)
    ensures Or(x, Pow2(l) - 1) == x - LowBits(x, l) + Pow2(l) - 1
  {
    if x == 0 {
      LowBitsZero(l);
    } else if l > 0 {
      var y := Pow2(l) - 1;
      assert y / 2 == Pow2(l - 1) - 1 && y % 2 == 1;
      assert Or(x, y) == 2 * Or(x / 2, y / 2) + 1;
      OrLowMask(x / 2, l - 1);
      assert LowBits(x, l) == 2 * LowBits(x / 2, l - 1) + x % 2;
    }
  }

  lemma {:induction false} LowBitsZero(l: nat)
    ensures LowBits(0, l) == 0
  {
    if l > 0 {
      LowBitsZero(l - 1);
    }
  }

  lemma {:induction false} OrBounds(x: nat, y: nat, w: nat)
    requires x < Pow2(w) && y < Pow2(w)
    ensures x <= Or(x, y) < Pow2(w)
  {
    if x > 0 && y > 0 {
      OrBounds(x / 2, y / 2, w - 1);
    }
  }

  lemma {:induction false} AndBound(x: nat, y: nat)
    ensures And(x, y) <= x
  {
    if x > 0 && y > 0 {
      AndBound(x / 2, y / 2);
    }
  }

  /** Go's `x | y` on `uint32`. */
  function Or32(x: u32, y: u32): (r: u32)
    ensures x <= r && y <= r
  {
    Pow2Word();
    OrBounds(x, y, 32);
    OrBounds(y, x, 32);
    OrCommutes(x, y);
    Or(x, y)
  }

  /** Go's `x & y` on `uint32`. */
  function And32(x: u32, y: u32): (r: u32)
    ensures r <= x
  {
    AndBound(x, y);
    And(x, y)
  }

  lemma {:induction false} OrCommutes(x: nat, y: nat)
    ensures Or(x, y) == Or(y, x)
  {
    if x > 0 && y > 0 {
      OrCommutes(x / 2, y / 2);
    }
  }

  /** A multiple of 2^l below 2^32 leaves room for a whole 2^l-block below 2^32. */
  lemma AlignedBlockFits(a: nat, l: nat)
    requires l <= 32 && a < WORD && a % Pow2(l) == 0
    ensures a + Pow2(l) <= WORD
  {
    var p, k := Pow2(l), Pow2(32 - l);
    Pow2Word();
    Pow2Add(l, 32 - l);
    assert p * k == WORD;
    MultipleRoom(a, p, k);
  }

  /** A multiple of p below p * k is at most p * k - p. */
  lemma MultipleRoom(a: nat, p: nat, k: nat)
    requires p > 0 && a < p * k && a % p == 0
    ensures a + p <= p * k
  {
    var q := a / p;
    assert a == p * q;
    MulMonotone(q + 1, k, p);
    assert p * (q + 1) == p * q + p;
  }

  lemma {:induction false} MulMonotone(a: nat, b: nat, m: nat)
    requires a <= b
    ensures a * m <= b * m
  {
    if a < b {
      MulMonotone(a, b - 1, m);
      assert b * m == (b - 1) * m + m;
    }
  }
}
