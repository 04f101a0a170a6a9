/** The bitwise operations the builder applies to Python's unbounded
    non-negative integers, defined bit by bit on nat: `x & ~(a - 1)` for a
    power of two a, and `x | y`. */
module Bits {

  /** 1, 2, 4, 8, ... */
  predicate IsPow2(a: nat)
    decreases a
  {
    a == 1 || (a >= 2 && a % 2 == 0 && IsPow2(a / 2))
  }

  /** The powers of two the builder aligns and shifts by. */
  lemma {:induction false} PowersOfTwo()
    ensures IsPow2(0x10) && IsPow2(0x100) && IsPow2(0x800)
  {
    assert IsPow2(1);
    assert IsPow2(2);
    assert IsPow2(4);
    assert IsPow2(8);
    assert IsPow2(0x10);
    assert IsPow2(0x20);
    assert IsPow2(0x40);
    assert IsPow2(0x80);
    assert IsPow2(0x100);
    assert IsPow2(0x200);
    assert IsPow2(0x400);
    assert IsPow2(0x800);
  }

  /** The bit 7 << 25 starts at, and the u32 range. */
  lemma {:induction false} WidePowersOfTwo()
    ensures IsPow2(0x200_0000) && IsPow2(0x1_0000_0000)
  {
    PowersOfTwo();
    assert IsPow2(0x1000);
    assert IsPow2(0x2000);
    assert IsPow2(0x4000);
    assert IsPow2(0x8000);
    assert IsPow2(0x1_0000);
    assert IsPow2(0x2_0000);
    assert IsPow2(0x4_0000);
    assert IsPow2(0x8_0000);
    assert IsPow2(0x10_0000);
    assert IsPow2(0x20_0000);
    assert IsPow2(0x40_0000);
    assert IsPow2(0x80_0000);
    assert IsPow2(0x100_0000);
    assert IsPow2(0x200_0000);
    assert IsPow2(0x400_0000);
    assert IsPow2(0x800_0000);
    assert IsPow2(0x1000_0000);
    assert IsPow2(0x2000_0000);
    assert IsPow2(0x4000_0000);
    assert IsPow2(0x8000_0000);
    assert IsPow2(0x1_0000_0000);
  }

  /** `x & ~(a - 1)`: x with its low log2(a) bits cleared. */
  function MaskLow(x: nat, a: nat): nat
    requires IsPow2(a)
    decreases a
  {
    if a == 1 then x else 2 * MaskLow(x / 2, a / 2)
  }

  /** `x | y`, bit by bit from the least significant end. */
  function BitOr(x: nat, y: nat): nat
    decreases x + y
  {
    if x == 0 then y
    else if y == 0 then x
    else 2 * BitOr(x / 2, y / 2) + (if x % 2 == 1 || y % 2 == 1 then 1 else 0)
  }

  /** Euclidean division is determined by its defining equation. */
  lemma {:induction false} DivModUnique(x: int, d: int, t: int, s: int)
    requires d > 0 && 0 <= s < d && x == d * t + s
    ensures x / d == t && x % d == s
  {
    var q, r := x / d, x % d;
    assert d * (q - t) == s - r;
    if q > t {
      MulAtLeast(d, q - t);
      assert false;
    } else if q < t {
      MulAtLeast(d, t - q);
      assert false;
    }
  }

  lemma {:induction false} MulAtLeast(d: int, k: int)
    requires d > 0 && k >= 1
    ensures d * k >= d
  {
  }

  /** Two distinct multiples of d are at least d apart. */
  lemma {:induction false} MultiplesApart(m: nat, r: nat, d: nat)
    requires d > 0 && m % d == 0 && r % d == 0 && m < r
    ensures r - m >= d
  {
    var p, q := m / d, r / d;
    assert m == d * p && r == d * q;
    assert r - m == d * (q - p);
    if q - p < 1 {
      MulNonPositive(d, q - p);
    } else {
      MulAtLeast(d, q - p);
    }
  }

  lemma {:induction false} MulNonPositive(d: int, k: int)
    requires d > 0 && k <= 0
    ensures d * k <= 0
  {
  }

  lemma {:induction false} SumOfMultiples(x: nat, y: nat, d: nat)
    requires d > 0 && x % d == 0 && y % d == 0
    ensures (x + y) % d == 0
  {
    assert x == d * (x / d) && y == d * (y / d);
    assert x + y == d * (x / d + y / d);
    DivModUnique(x + y, d, x / d + y / d, 0);
  }

  /** Adding a multiple of d leaves the remainder unchanged. */
  lemma {:induction false} ShiftByMultiple(y: nat, x: nat, d: nat)
    requires d > 0 && y % d == 0
    ensures (y + x) % d == x % d
  {
    assert y == d * (y / d) && x == d * (x / d) + x % d;
    assert y + x == d * (y / d + x / d) + x % d;
    DivModUnique(y + x, d, y / d + x / d, x % d);
  }

  lemma {:induction false} DifferenceOfMultiples(x: nat, y: nat, d: nat)
    requires d > 0 && x % d == 0 && y % d == 0 && y <= x
    ensures (x - y) % d == 0
  {
    assert x == d * (x / d) && y == d * (y / d);
    assert x - y == d * (x / d - y / d);
    DivModUnique(x - y, d, x / d - y / d, 0);
  }

  /** The remainder by 2h splits into the remainder of the halved value by h
      and the lowest bit. */
  lemma {:induction false} ModDouble(x: nat, h: nat)
    requires h > 0
    ensures x % (2 * h) == 2 * ((x / 2) % h) + x % 2
  {
    var q, t, u := x / 2, (x / 2) / h, (x / 2) % h;
    assert x == (2 * h) * t + (2 * u + x % 2);
    DivModUnique(x, 2 * h, t, 2 * u + x % 2);
  }

  /** Clearing the low bits rounds down to a multiple of a. */
  lemma {:induction false} MaskLowIsRoundDown(x: nat, a: nat)
    requires IsPow2(a)
    ensures MaskLow(x, a) == x - x % a
    decreases a
  {
    if a != 1 {
      MaskLowIsRoundDown(x / 2, a / 2);
      ModDouble(x, a / 2);
    }
  }

  /** `x | y` is `x + y` when y lives entirely in the bits that x leaves clear. */
  lemma {:induction false} OrDisjoint(x: nat, y: nat, a: nat)
    requires IsPow2(a) && x % a == 0 && y < a
    ensures BitOr(x, y) == x + y
    decreases a
  {
    if a != 1 && x != 0 && y != 0 {
      ModDouble(x, a / 2);
      OrDisjoint(x / 2, y / 2, a / 2);
    }
  }

  /** Two values below a power of two have their `|` below it too. */
  lemma {:induction false} OrBelow(x: nat, y: nat, a: nat)
    requires IsPow2(a) && x < a && y < a
    ensures BitOr(x, y) < a
    decreases a
  {
    if a != 1 && x != 0 && y != 0 {
      OrBelow(x / 2, y / 2, a / 2);
    }
  }

  /** Or-ing in a multiple of a leaves the low log2(a) bits unchanged. */
  lemma {:induction false} OrKeepsLowBits(x: nat, y: nat, a: nat)
    requires IsPow2(a) && y % a == 0
    ensures BitOr(x, y) % a == x % a
    decreases a
  {
    if a != 1 && x != 0 && y != 0 {
      ModDouble(y, a / 2);
      OrKeepsLowBits(x / 2, y / 2, a / 2);
      var v := BitOr(x, y);
      assert v / 2 == BitOr(x / 2, y / 2) && v % 2 == x % 2;
      ModDouble(v, a / 2);
      ModDouble(x, a / 2);
    }
  }

  lemma {:induction false} OrCommutes(x: nat, y: nat)
    ensures BitOr(x, y) == BitOr(y, x)
    decreases x + y
  {
    if x != 0 && y != 0 {
      OrCommutes(x / 2, y / 2);
    }
  }
}
