/**
 * Unsigned bit-vectors as natural numbers.
 *
 * Sail's `bits('n)`, C's fixed-width unsigned integers and Python's unbounded
 * ints all meet here: a value is a `nat`, its bit `i` is `Bit(x, i)`, and the
 * bitwise operators are defined one bit at a time, so that every identity
 * about them reduces to a per-bit fact and `Equal` (two numbers with the same
 * bits are the same number).
 */
module Bits {

  function Pow2(n: nat): (r: nat)
    ensures r >= 1
  {
    if n == 0 then 1 else 2 * Pow2(n - 1)
  }

  lemma Pow2Monotone(a: nat, b: nat)
    requires a <= b
    ensures Pow2(a) <= Pow2(b)
  {
    if a < b {
      Pow2Monotone(a, b - 1);
    }
  }

  lemma {:induction false} Pow2Add(a: nat, b: nat)
    ensures Pow2(a + b) == Pow2(a) * Pow2(b)
  {
    if b > 0 {
      Pow2Add(a, b - 1);
    }
  }

  /** The powers of two of the common word widths, as literals. */
  lemma Pow2Of8()
    ensures Pow2(8) == 0x100
  {
    assert Pow2(4) == 16;
  }

  lemma Pow2Of16()
    ensures Pow2(16) == 0x1_0000
  {
    Pow2Of8();
    Pow2Add(8, 8);
  }

  lemma Pow2Of32()
    ensures Pow2(32) == 0x1_0000_0000
  {
    Pow2Of16();
    Pow2Add(16, 16);
  }

  lemma Pow2Of64()
    ensures Pow2(64) == 0x1_0000_0000_0000_0000
  {
    Pow2Of32();
    Pow2Add(32, 32);
  }

  /** Bit `i` of `x` (bit 0 is the least significant). */
  predicate Bit(x: nat, i: nat)
  {
    if i == 0 then x % 2 == 1 else Bit(x / 2, i - 1)
  }

  lemma BitOfZero(i: nat)
    ensures !Bit(0, i)
  {
    if i > 0 {
      BitOfZero(i - 1);
    }
  }

  /** Two numbers with the same bits are equal. */
  lemma {:induction false} Equal(a: nat, b: nat)
    requires forall i: nat :: Bit(a, i) == Bit(b, i)
    ensures a == b
    decreases a + b
  {
    if a != 0 || b != 0 {
      assert Bit(a, 0) == Bit(b, 0);
      forall i: nat
        ensures Bit(a / 2, i) == Bit(b / 2, i)
      {
        assert Bit(a, i + 1) == Bit(b, i + 1);
      }
      Equal(a / 2, b / 2);
    }
  }

  /** A number below `2^w` has no bit set at or above `w`. */
  lemma {:induction false} HighBitsClear(x: nat, w: nat, i: nat)
    requires x < Pow2(w) && i >= w
    ensures !Bit(x, i)
  {
    if w == 0 {
      BitOfZero(i);
    } else {
      assert Pow2(w) == 2 * Pow2(w - 1);
      HighBitsClear(x / 2, w - 1, i - 1);
    }
  }

  /** A number at or above `2^w` has some bit set at or above `w`. */
  lemma {:induction false} HighBitSet(x: nat, w: nat) returns (i: nat)
    requires x >= Pow2(w)
    ensures i >= w && Bit(x, i)
  {
    if w == 0 {
      HighestIsSet(x);
      i := Highest(x);
    } else {
      assert Pow2(w) == 2 * Pow2(w - 1);
      var j := HighBitSet(x / 2, w - 1);
      i := j + 1;
    }
  }

  /** Bit `i` of `2^k` is set exactly when `i == k`. */
  lemma {:induction false} PowBit(k: nat, i: nat)
    ensures Bit(Pow2(k), i) == (i == k)
  {
    if k > 0 && i > 0 {
      PowBit(k - 1, i - 1);
      assert Pow2(k) / 2 == Pow2(k - 1);
    } else if k > 0 {
      assert Pow2(k) % 2 == 0;
    } else if i > 0 {
      BitOfZero(i - 1);
    }
  }

  /** `x < 2^w` exactly when no bit at or above `w` is set. */
  lemma BelowPow2(x: nat, w: nat)
    ensures x < Pow2(w) ==> forall i: nat :: i >= w ==> !Bit(x, i)
    ensures (forall i: nat :: i >= w ==> !Bit(x, i)) ==> x < Pow2(w)
  {
    if x < Pow2(w) {
      forall i: nat | i >= w
        ensures !Bit(x, i)
      {
        HighBitsClear(x, w, i);
      }
    } else {
      var i := HighBitSet(x, w);
      assert !(forall j: nat :: j >= w ==> !Bit(x, j));
    }
  }

  /** A set bit of a nonzero number (used to show a positive number has one). */
  function Highest(x: nat): nat
    requires x > 0
  {
    if x % 2 == 1 then 0 else Highest(x / 2) + 1
  }

  lemma HighestIsSet(x: nat)
    requires x > 0
    ensures Bit(x, Highest(x))
  {
  }

  /** Bitwise AND. */
  function And(a: nat, b: nat): (r: nat)
    ensures r <= a && r <= b
    decreases a
  {
    if a == 0 || b == 0 then 0
    else 2 * And(a / 2, b / 2) + (if a % 2 == 1 && b % 2 == 1 then 1 else 0)
  }

  /** Bitwise OR. */
  function Or(a: nat, b: nat): (r: nat)
    ensures r >= a && r >= b
    decreases a + b
  {
    if a == 0 then b
    else if b == 0 then a
    else 2 * Or(a / 2, b / 2) + (if a % 2 == 1 || b % 2 == 1 then 1 else 0)
  }

  /** Bitwise exclusive OR. */
  function Xor(a: nat, b: nat): (r: nat)
    ensures r <= a + b
    decreases a + b
  {
    if a == 0 then b
    else if b == 0 then a
    else 2 * Xor(a / 2, b / 2) + (if (a % 2 == 1) != (b % 2 == 1) then 1 else 0)
  }

  /** Bitwise complement within a `w`-bit word (Sail `not_vec`, C `~`). */
  function Not(a: nat, w: nat): (r: nat)
    ensures r < Pow2(w)
  {
    if w == 0 then 0 else 2 * Not(a / 2, w - 1) + (1 - a % 2)
  }

  /** The low `w` bits of `x` (Sail `to_bits('w, x)`, a cast to a narrower unsigned type). */
  function Trunc(x: nat, w: nat): (r: nat)
    ensures r < Pow2(w)
    ensures r <= x
  {
    if w == 0 then 0 else 2 * Trunc(x / 2, w - 1) + x % 2
  }

  /** An integer reduced modulo `2^w`: two's-complement wrap-around into a `w`-bit word. */
  function Wrap(x: int, w: nat): (r: nat)
    ensures r < Pow2(w)
  {
    ModBound(x, Pow2(w));
    x % Pow2(w)
  }

  lemma WrapFits(x: int, w: nat)
    requires 0 <= x < Pow2(w)
    ensures Wrap(x, w) == x
  {
    ModSmall(x, Pow2(w));
  }

  lemma ModSmall(x: int, p: int)
    requires 0 <= x < p
    ensures x % p == x
  {
  }

  lemma ModBound(x: int, p: int)
    requires p > 0
    ensures 0 <= x % p < p
  {
  }

  lemma {:induction false} AndBit(a: nat, b: nat, i: nat)
    ensures Bit(And(a, b), i) == (Bit(a, i) && Bit(b, i))
    decreases a
  {
    if a == 0 || b == 0 {
      BitOfZero(i);
    } else if i > 0 {
      AndBit(a / 2, b / 2, i - 1);
    }
  }

  lemma {:induction false} OrBit(a: nat, b: nat, i: nat)
    ensures Bit(Or(a, b), i) == (Bit(a, i) || Bit(b, i))
    decreases a + b
  {
    if a == 0 {
      BitOfZero(i);
    } else if b == 0 {
      BitOfZero(i);
    } else if i > 0 {
      OrBit(a / 2, b / 2, i - 1);
    }
  }

  lemma {:induction false} XorBit(a: nat, b: nat, i: nat)
    ensures Bit(Xor(a, b), i) == (Bit(a, i) != Bit(b, i))
    decreases a + b
  {
    if a == 0 {
      BitOfZero(i);
    } else if b == 0 {
      BitOfZero(i);
    } else if i > 0 {
      XorBit(a / 2, b / 2, i - 1);
    }
  }

  lemma {:induction false} NotBit(a: nat, w: nat, i: nat)
    ensures Bit(Not(a, w), i) == (i < w && !Bit(a, i))
  {
    if w == 0 {
      BitOfZero(i);
    } else if i > 0 {
      NotBit(a / 2, w - 1, i - 1);
    }
  }

  lemma {:induction false} TruncBit(x: nat, w: nat, i: nat)
    ensures Bit(Trunc(x, w), i) == (i < w && Bit(x, i))
  {
    if w == 0 {
      BitOfZero(i);
    } else if i > 0 {
      TruncBit(x / 2, w - 1, i - 1);
    }
  }

  /** Truncation leaves a value that already fits unchanged. */
  lemma TruncFits(x: nat, w: nat)
    requires x < Pow2(w)
    ensures Trunc(x, w) == x
  {
    BelowPow2(x, w);
    forall i: nat
      ensures Bit(Trunc(x, w), i) == Bit(x, i)
    {
      TruncBit(x, w, i);
    }
    Equal(Trunc(x, w), x);
  }

  lemma OrBound(a: nat, b: nat, w: nat)
    requires a < Pow2(w) && b < Pow2(w)
    ensures Or(a, b) < Pow2(w)
  {
    BelowPow2(a, w);
    BelowPow2(b, w);
    forall i: nat | i >= w
      ensures !Bit(Or(a, b), i)
    {
      OrBit(a, b, i);
    }
    BelowPow2(Or(a, b), w);
  }

  lemma XorBound(a: nat, b: nat, w: nat)
    requires a < Pow2(w) && b < Pow2(w)
    ensures Xor(a, b) < Pow2(w)
  {
    BelowPow2(a, w);
    BelowPow2(b, w);
    forall i: nat | i >= w
      ensures !Bit(Xor(a, b), i)
    {
      XorBit(a, b, i);
    }
    BelowPow2(Xor(a, b), w);
  }

  /** Exclusive OR with the top bit of a `w`-bit word adds or removes that bit. */
  lemma {:induction false} XorTopBit(x: nat, w: nat)
    requires w >= 1 && x < Pow2(w)
    ensures Xor(x, Pow2(w - 1)) == if x < Pow2(w - 1) then x + Pow2(w - 1) else x - Pow2(w - 1)
  {
    if w == 1 {
      assert Pow2(0) == 1;
      if x == 1 {
        assert Xor(1, 1) == 2 * Xor(0, 0) + 0;
      }
    } else if x > 0 {
      assert Pow2(w - 1) == 2 * Pow2(w - 2);
      assert Pow2(w) == 2 * Pow2(w - 1);
      XorTopBit(x / 2, w - 1);
    }
  }

  /** `a` uses only bits of `m`. */
  predicate Within(a: nat, m: nat)
  {
    And(a, m) == a
  }

  /** `a` and `b` share no set bit. */
  predicate Disjoint(a: nat, b: nat)
  {
    And(a, b) == 0
  }

  lemma WithinBit(a: nat, m: nat, i: nat)
    requires Within(a, m)
    ensures Bit(a, i) ==> Bit(m, i)
  {
    AndBit(a, m, i);
  }

  lemma DisjointBit(a: nat, b: nat, i: nat)
    requires Disjoint(a, b)
    ensures !(Bit(a, i) && Bit(b, i))
  {
    AndBit(a, b, i);
    BitOfZero(i);
  }

  /** `x >> k`. */
  function Shr(x: nat, k: nat): (r: nat)
    ensures r <= x
  {
    if k == 0 then x else Shr(x / 2, k - 1)
  }

  lemma {:induction false} ShrBit(x: nat, k: nat, i: nat)
    ensures Bit(Shr(x, k), i) == Bit(x, i + k)
  {
    if k > 0 {
      ShrBit(x / 2, k - 1, i);
      assert Bit(x, i + k) == Bit(x / 2, i + k - 1);
    }
  }

  /** The `w`-bit field of `x` starting at bit `lo` (Sail `x[lo + w - 1 .. lo]`). */
  function Slice(x: nat, lo: nat, w: nat): (r: nat)
    ensures r < Pow2(w)
  {
    Trunc(Shr(x, lo), w)
  }

  lemma SliceBit(x: nat, lo: nat, w: nat, i: nat)
    ensures Bit(Slice(x, lo, w), i) == (i < w && Bit(x, i + lo))
  {
    TruncBit(Shr(x, lo), w, i);
    ShrBit(x, lo, i);
  }

  /** `x` with its `w`-bit field at `lo` replaced by the low `w` bits of `f` (Sail `update_F`). */
  function Place(x: nat, lo: nat, w: nat, f: nat): nat
    decreases lo + w
  {
    if lo > 0 then 2 * Place(x / 2, lo - 1, w, f) + x % 2
    else if w > 0 then 2 * Place(x / 2, 0, w - 1, f / 2) + f % 2
    else x
  }

  /** Placing a field sets exactly the field's bits and keeps every other bit. */
  lemma {:induction false} PlaceBit(x: nat, lo: nat, w: nat, f: nat, i: nat)
    ensures Bit(Place(x, lo, w, f), i) == if lo <= i < lo + w then Bit(f, i - lo) else Bit(x, i)
    decreases lo + w
  {
    if lo > 0 {
      if i > 0 {
        PlaceBit(x / 2, lo - 1, w, f, i - 1);
      }
    } else if w > 0 {
      if i > 0 {
        PlaceBit(x / 2, 0, w - 1, f / 2, i - 1);
        assert Bit(f, i) == Bit(f / 2, i - 1);
      }
    }
  }

  /** Reading back a placed field gives the placed value cut to the field width. */
  lemma SlicePlace(x: nat, lo: nat, w: nat, f: nat)
    ensures Slice(Place(x, lo, w, f), lo, w) == Trunc(f, w)
  {
    forall i: nat
      ensures Bit(Slice(Place(x, lo, w, f), lo, w), i) == Bit(Trunc(f, w), i)
    {
      SliceBit(Place(x, lo, w, f), lo, w, i);
      PlaceBit(x, lo, w, f, i + lo);
      TruncBit(f, w, i);
    }
    Equal(Slice(Place(x, lo, w, f), lo, w), Trunc(f, w));
  }

  /** Placing a field leaves a disjoint field unchanged. */
  lemma SliceElsewhere(x: nat, lo: nat, w: nat, f: nat, lo2: nat, w2: nat)
    requires lo2 + w2 <= lo || lo + w <= lo2
    ensures Slice(Place(x, lo, w, f), lo2, w2) == Slice(x, lo2, w2)
  {
    forall i: nat
      ensures Bit(Slice(Place(x, lo, w, f), lo2, w2), i) == Bit(Slice(x, lo2, w2), i)
    {
      SliceBit(Place(x, lo, w, f), lo2, w2, i);
      SliceBit(x, lo2, w2, i);
      PlaceBit(x, lo, w, f, i + lo2);
    }
    Equal(Slice(Place(x, lo, w, f), lo2, w2), Slice(x, lo2, w2));
  }

  /** A placed field stays inside a `n`-bit word when the field and the word do. */
  lemma PlaceBound(x: nat, lo: nat, w: nat, f: nat, n: nat)
    requires x < Pow2(n) && lo + w <= n
    ensures Place(x, lo, w, f) < Pow2(n)
  {
    BelowPow2(x, n);
    forall i: nat | i >= n
      ensures !Bit(Place(x, lo, w, f), i)
    {
      PlaceBit(x, lo, w, f, i);
    }
    BelowPow2(Place(x, lo, w, f), n);
  }

  /** Two words that agree on a field have the same slice there. */
  lemma SliceAgree(a: nat, b: nat, lo: nat, w: nat)
    requires forall i: nat :: lo <= i < lo + w ==> Bit(a, i) == Bit(b, i)
    ensures Slice(a, lo, w) == Slice(b, lo, w)
  {
    forall i: nat
      ensures Bit(Slice(a, lo, w), i) == Bit(Slice(b, lo, w), i)
    {
      SliceBit(a, lo, w, i);
      SliceBit(b, lo, w, i);
    }
    Equal(Slice(a, lo, w), Slice(b, lo, w));
  }

  /** Shifting right by `k` is division by `2^k`. */
  lemma {:induction false} ShrIsDiv(x: nat, k: nat)
    ensures Shr(x, k) == x / Pow2(k)
  {
    if k > 0 {
      ShrIsDiv(x / 2, k - 1);
      HalveDiv(x, Pow2(k - 1));
    }
  }

  lemma HalveDiv(x: nat, p: nat)
    requires p >= 1
    ensures x / 2 / p == x / (2 * p)
  {
    var q := x / (2 * p);
    var r := x % (2 * p);
    assert x == 2 * (p * q + r / 2) + r % 2;
    DivUnique(x, 2, p * q + r / 2, r % 2);
    DivUnique(x / 2, p, q, r / 2);
  }

  /** The quotient is determined by any decomposition with a remainder in range. */
  lemma DivUnique(x: int, d: int, q: int, r: int)
    requires d >= 1 && x == d * q + r && 0 <= r < d
    ensures x / d == q
  {
    var q' := x / d;
    var r' := x % d;
    assert d * q' + r' == d * q + r;
    if q' > q {
      assert d * (q' - q) == r - r';
      MulAtLeast(d, q' - q);
    } else if q' < q {
      assert d * (q - q') == r' - r;
      MulAtLeast(d, q - q');
    }
  }

  lemma MulAtLeast(d: int, k: int)
    requires d >= 1 && k >= 1
    ensures d * k >= d
  {
    assert d * k == d * (k - 1) + d;
    assert d * (k - 1) >= 0;
  }

  /** Truncation to `w` bits is the remainder modulo `2^w`. */
  lemma {:induction false} TruncIsMod(x: nat, w: nat)
    ensures Trunc(x, w) == x % Pow2(w)
  {
    if w > 0 {
      TruncIsMod(x / 2, w - 1);
      HalveMod(x, Pow2(w - 1));
    }
  }

  lemma HalveMod(x: nat, p: nat)
    requires p >= 1
    ensures x % (2 * p) == 2 * (x / 2 % p) + x % 2
  {
    var q := x / 2 / p;
    HalveDiv(x, p);
    assert x / 2 == p * q + x / 2 % p;
    assert x == 2 * (x / 2) + x % 2;
    assert x == 2 * p * q + (2 * (x / 2 % p) + x % 2);
    assert 0 <= 2 * (x / 2 % p) + x % 2 < 2 * p;
  }

  /** Bit `i` of `2^k - 1` is set exactly below `k`. */
  lemma {:induction false} OnesBit(k: nat, i: nat)
    ensures Bit(Pow2(k) - 1, i) == (i < k)
  {
    if k == 0 {
      BitOfZero(i);
    } else if i > 0 {
      assert (Pow2(k) - 1) / 2 == Pow2(k - 1) - 1;
      OnesBit(k - 1, i - 1);
    }
  }

  /** `x` has its low `k` bits clear: a multiple of `2^k`. */
  predicate Aligned(x: nat, k: nat)
  {
    k == 0 || (x % 2 == 0 && Aligned(x / 2, k - 1))
  }

  /** `x << k`. */
  function Shl(x: nat, k: nat): (r: nat)
    ensures Aligned(r, k)
    ensures r == 0 <==> x == 0
    ensures r >= x
  {
    if k == 0 then x else 2 * Shl(x, k - 1)
  }

  lemma {:induction false} ShlBit(x: nat, k: nat, i: nat)
    ensures Bit(Shl(x, k), i) == (i >= k && Bit(x, i - k))
  {
    if k > 0 && i > 0 {
      ShlBit(x, k - 1, i - 1);
      assert Bit(Shl(x, k), i) == Bit(Shl(x, k - 1), i - 1);
    }
  }

  /** Shifting left by `k` is multiplication by `2^k`. */
  lemma {:induction false} ShlIsMul(x: nat, k: nat)
    ensures Shl(x, k) == x * Pow2(k)
  {
    if k > 0 {
      ShlIsMul(x, k - 1);
      var p := Pow2(k - 1);
      assert 2 * (x * p) == x * (2 * p);
    }
  }

  /** Shifting left is injective. */
  lemma {:induction false} ShlInjective(x: nat, y: nat, k: nat)
    ensures Shl(x, k) == Shl(y, k) <==> x == y
  {
    if k > 0 {
      ShlInjective(x, y, k - 1);
    }
  }

  /** Shifting right preserves order. */
  lemma {:induction false} ShrMonotone(x: nat, y: nat, k: nat)
    requires x <= y
    ensures Shr(x, k) <= Shr(y, k)
  {
    if k > 0 {
      ShrMonotone(x / 2, y / 2, k - 1);
    }
  }

  /** Masking with `2^k - 1` keeps the low `k` bits. */
  lemma AndLowOnes(x: nat, k: nat)
    ensures And(x, Pow2(k) - 1) == x % Pow2(k)
  {
    forall i: nat
      ensures Bit(And(x, Pow2(k) - 1), i) == Bit(Trunc(x, k), i)
    {
      AndBit(x, Pow2(k) - 1, i);
      OnesBit(k, i);
      TruncBit(x, k, i);
    }
    Equal(And(x, Pow2(k) - 1), Trunc(x, k));
    TruncIsMod(x, k);
  }
}
