/**
 * The build-time script that fixes the vector register length (`gen_vlen.py`):
 * VLEN is raised to at least 128 and ELEN to at least 8, and an odd value
 * is brought down by one, with a warning for each change; the script then
 * emits VLEN, VLEN in bytes and ELEN as Sail type definitions. The file
 * itself is not part of this model; the values it holds and the warnings
 * are the results.
 */
module GenVlen {
  import opened Bits
  import opened SimOptions

  datatype Warning =
    | VlenRaised
    | VlenEvened(vlen: int)
    | ElenRaised
    | ElenEvened(elen: int)

  /** The smallest VLEN and ELEN the script lets through. */
  const MinVlen: int := 128
  const MinElen: int := 8

  /** The value of VLEN after the two checks. */
  function ClampedVlen(v: int): (r: int)
    ensures r >= MinVlen && r % 2 == 0
    ensures v < MinVlen ==> r == MinVlen
    ensures v >= MinVlen ==> r <= v <= r + 1
  {
    var a := if v < MinVlen then MinVlen else v;
    a - a % 2
  }

  /** The value of ELEN after the two checks. */
  function ClampedElen(e: int): (r: int)
    ensures r >= MinElen && r % 2 == 0
    ensures e < MinElen ==> r == MinElen
    ensures e >= MinElen ==> r <= e <= r + 1
  {
    var a := if e < MinElen then MinElen else e;
    a - a % 2
  }

  /** The VLEN warnings, in the order the script prints them. */
  function VlenWarnings(v: int): seq<Warning>
  {
    (if v < MinVlen then [VlenRaised] else [])
    + (if v >= MinVlen && v % 2 != 0 then [VlenEvened(ClampedVlen(v))] else [])
  }

  /** The ELEN warnings, in the order the script prints them. */
  function ElenWarnings(e: int): seq<Warning>
  {
    (if e < MinElen then [ElenRaised] else [])
    + (if e >= MinElen && e % 2 != 0 then [ElenEvened(ClampedElen(e))] else [])
  }

  /**
   * The script as written: VLEN and ELEN through their checks, `vlen_bytes`
   * as VLEN divided by 8 and truncated, and the warnings in the order they
   * are printed.
   */
  method GenerateVlen(vlenArg: int, elenArg: int) returns (vlen: int, elen: int, vlenBytes: int, warnings: seq<Warning>)
    ensures vlen == ClampedVlen(vlenArg) && elen == ClampedElen(elenArg)
    ensures 8 * vlenBytes <= vlen < 8 * vlenBytes + 8
    ensures VlenRaised in warnings <==> vlenArg < MinVlen
    ensures ElenRaised in warnings <==> elenArg < MinElen
    ensures VlenEvened(vlen) in warnings <==> vlenArg >= MinVlen && vlenArg % 2 != 0
    ensures ElenEvened(elen) in warnings <==> elenArg >= MinElen && elenArg % 2 != 0
    ensures |warnings| <= 4
    ensures warnings == VlenWarnings(vlenArg) + ElenWarnings(elenArg)
  {
    warnings := [];
    vlen := vlenArg;
    elen := elenArg;
    if vlen < MinVlen {
      vlen := MinVlen;
      warnings := warnings + [VlenRaised];
    }
    if vlen % 2 != 0 {
      vlen := vlen - vlen % 2;
      warnings := warnings + [VlenEvened(vlen)];
    }
    if elen < MinElen {
      elen := MinElen;
      warnings := warnings + [ElenRaised];
    }
    if elen % 2 != 0 {
      elen := elen - elen % 2;
      warnings := warnings + [ElenEvened(elen)];
    }
    vlenBytes := vlen / 8;
  }

  predicate IsPow2(n: int)
  {
    exists i :: 0 <= i < n && Pow2(i) == n
  }

  /**
   * The warning says VLEN is set to a power of two, but only evenness is
   * enforced: 131 becomes 130 and 192 passes unchanged, and neither is a
   * power of two.
   */
  lemma NotPowerOfTwoAsWritten()
    ensures ClampedVlen(131) == 130 && !IsPow2(130)
    ensures ClampedVlen(192) == 192 && !IsPow2(192)
  {
    NotPow2Between(7, 130);
    NotPow2Between(7, 192);
  }

  /** No power of two lies strictly between `2^k` and `2^(k+1)`. */
  lemma NotPow2Between(k: nat, n: int)
    requires Pow2(k) < n < 2 * Pow2(k)
    ensures !IsPow2(n)
  {
    if IsPow2(n) {
      var i :| 0 <= i < n && Pow2(i) == n;
      if i < k {
        Pow2Injective(i, k);
      } else if i > k + 1 {
        Pow2Injective(k + 1, i);
      }
    }
  }

  /** The exponent of the largest power of two not above `n`. */
  function Log2Floor(n: nat): (k: nat)
    requires n >= 1
    ensures Pow2(k) <= n < 2 * Pow2(k)
  {
    if n == 1 then 0 else Log2Floor(n / 2) + 1
  }

  /**
   * The checks as evidently intended: VLEN and ELEN are raised to their
   * minimum and brought down to a power of two, and `vstart_int` is the
   * exact logarithm of VLEN.
   */
  method GenerateVlenPow2(vlenArg: int, elenArg: int) returns (vlen: nat, elen: nat, vlenBytes: nat, vstartInt: nat)
    ensures vlen == Pow2(vstartInt) && vlen >= MinVlen
    ensures vlenArg >= MinVlen ==> vlen <= vlenArg < 2 * vlen
    ensures vlenArg < MinVlen ==> vlen == MinVlen
    ensures 8 * vlenBytes == vlen
    ensures IsPow2(elen) && elen >= MinElen
    ensures elenArg >= MinElen ==> elen <= elenArg < 2 * elen
    ensures elenArg < MinElen ==> elen == MinElen
  {
    var v: nat := if vlenArg < MinVlen then MinVlen else vlenArg;
    var e: nat := if elenArg < MinElen then MinElen else elenArg;
    vstartInt := Log2Floor(v);
    vlen := Pow2(vstartInt);
    var ke := Log2Floor(e);
    elen := Pow2(ke);
    PowAtLeast(7, v);
    PowAtLeast(3, e);
    assert IsPow2(elen) by {
      Pow2Above(ke);
    }
    Pow2Split(vstartInt);
    vlenBytes := Pow2(vstartInt - 3);
  }

  /** The exponent of the largest power of two below `n` is at least `k` when `2^k <= n`. */
  lemma PowAtLeast(k: nat, n: nat)
    requires 1 <= Pow2(k) <= n
    ensures Log2Floor(n) >= k
    ensures Pow2(Log2Floor(n)) >= Pow2(k)
  {
    var j := Log2Floor(n);
    if j < k {
      Pow2Injective(j, k);
      Pow2Step(j, k);
    } else if j > k {
      Pow2Injective(k, j);
    }
  }

  /** `2^(j+1) <= 2^k` when `j < k`. */
  lemma {:induction false} Pow2Step(j: nat, k: nat)
    requires j < k
    ensures 2 * Pow2(j) <= Pow2(k)
    decreases k
  {
    if j + 1 < k {
      Pow2Step(j, k - 1);
    }
  }

  lemma {:induction false} Pow2Above(i: nat)
    ensures i < Pow2(i)
  {
    if i > 0 {
      Pow2Above(i - 1);
    }
  }

  /** `2^k` is eight times `2^(k-3)`. */
  lemma Pow2Split(k: nat)
    requires k >= 3
    ensures Pow2(k) == 8 * Pow2(k - 3)
  {
    assert Pow2(k) == 2 * Pow2(k - 1);
    assert Pow2(k - 1) == 2 * Pow2(k - 2);
    assert Pow2(k - 2) == 2 * Pow2(k - 3);
  }
}
