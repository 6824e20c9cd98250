/**
 * Command-line helpers of the C simulator driver (`riscv_sim.c`): the
 * power-of-two logarithm behind the cache-block size option, the trace
 * category switches, and the range checks of the PMP options. A rejected
 * option ends the program with exit status 1, which is the `None` or
 * `false` result here.
 */
module SimOptions {
  import opened Wrappers
  import opened Bits

  const U64: nat := 0x1_0000_0000_0000_0000
  /** The range of `long`, which `atol` returns. */
  const LongMin: int := -0x8000_0000_0000_0000

  /** Distinct exponents give distinct powers. */
  lemma {:induction false} Pow2Injective(i: nat, j: nat)
    requires i < j
    ensures Pow2(i) < Pow2(j)
    decreases j
  {
    if i < j - 1 {
      Pow2Injective(i, j - 1);
    }
  }

  /**
   * `ilog2`: the exponent `i < 64` with `x == 1 << i`, searched from 0
   * upwards, or -1 when `x` is not a power of two.
   */
  method ILog2(x: nat) returns (r: int)
    requires x < U64
    ensures -1 <= r < 64
    ensures r >= 0 ==> x == Pow2(r)
    ensures r == -1 <==> forall i :: 0 <= i < 64 ==> Pow2(i) != x
  {
    var i: nat := 0;
    while i < 64
      invariant i <= 64
      invariant forall k :: 0 <= k < i ==> Pow2(k) != x
    {
      if x == Pow2(i) {
        return i;
      }
      i := i + 1;
    }
    return -1;
  }

  /** The answer is unique: no other exponent gives the same power. */
  lemma ILog2Unique(x: nat, r: nat)
    requires r < 64 && x == Pow2(r)
    ensures forall i :: 0 <= i < 64 && i != r ==> Pow2(i) != x
  {
    forall i | 0 <= i < 64 && i != r
      ensures Pow2(i) != x
    {
      if i < r {
        Pow2Injective(i, r);
      } else {
        Pow2Injective(r, i);
      }
    }
  }

  /** The trace categories and their switches (`config_print_*`). */
  class TraceConfig {
    var instr: bool
    var reg: bool
    var mem: bool
    var platform: bool
    var rvfi: bool
    var step: bool

    /** The defaults: everything but RVFI and step markers is traced. */
    constructor()
      ensures instr && reg && mem && platform && !rvfi && !step
    {
      instr := true;
      reg := true;
      mem := true;
      platform := true;
      rvfi := false;
      step := false;
    }

    /**
     * `set_config_print`: no name or "all" switches every category except
     * the step markers; a category's name switches that category alone; an
     * unknown name is refused (the program exits with status 1) and
     * changes nothing.
     */
    method Set(name: Option<string>, v: bool) returns (known: bool)
      modifies this
      ensures known <==> name.None? || name.value in {"all", "instr", "reg", "mem", "rvfi", "platform", "step"}
      ensures var all := name.None? || name.value == "all";
              var one := (n: string) => name == Some(n);
              instr == (if all || one("instr") then v else old(instr)) &&
              reg == (if all || one("reg") then v else old(reg)) &&
              mem == (if all || one("mem") then v else old(mem)) &&
              platform == (if all || one("platform") then v else old(platform)) &&
              rvfi == (if all || one("rvfi") then v else old(rvfi)) &&
              step == (if one("step") then v else old(step))
    {
      known := true;
      if name.None? || name.value == "all" {
        instr := v;
        mem := v;
        reg := v;
        platform := v;
        rvfi := v;
      } else if name.value == "instr" {
        instr := v;
      } else if name.value == "reg" {
        reg := v;
      } else if name.value == "mem" {
        mem := v;
      } else if name.value == "rvfi" {
        rvfi := v;
      } else if name.value == "platform" {
        platform := v;
      } else if name.value == "step" {
        step := v;
      } else {
        known := false;
      }
    }
  }

  /** `atol` then the conversion to `uint64_t`: a negative number wraps around. */
  function ToU64(n: int): (u: nat)
    requires LongMin <= n < -LongMin
    ensures u < U64 && u % U64 == n % U64
  {
    if n < 0 then n + U64 else n
  }

  /** `--pmp-count`: only 0, 16 or 64 entries are accepted. */
  function PmpCount(n: int): (r: Option<nat>)
    requires LongMin <= n < -LongMin
    ensures r.Some? <==> n == 0 || n == 16 || n == 64
    ensures r.Some? ==> r.value == n
  {
    var c := ToU64(n);
    if c != 0 && c != 16 && c != 64 then None else Some(c)
  }

  /** `--pmp-grain`: only grains below 64 are accepted; a negative number wraps to a huge one. */
  function PmpGrain(n: int): (r: Option<nat>)
    requires LongMin <= n < -LongMin
    ensures r.Some? <==> 0 <= n < 64
    ensures r.Some? ==> r.value == n
  {
    var g := ToU64(n);
    if g >= 64 then None else Some(g)
  }

  /**
   * `--cache-block-size`: the size must be a power of two of at most 4096
   * bytes; the exponent is kept.
   */
  method CacheBlockSizeExp(n: int) returns (r: Option<nat>)
    requires LongMin <= n < -LongMin
    ensures r.Some? <==> exists e :: 0 <= e <= 12 && Pow2(e) == ToU64(n)
    ensures r.Some? ==> r.value <= 12 && Pow2(r.value) == ToU64(n)
  {
    var e := ILog2(ToU64(n));
    if e < 0 || e > 12 {
      if e > 12 {
        ILog2Unique(ToU64(n), e);
      }
      return None;
    }
    return Some(e);
  }
}
