/**
 * The C++ model object's own state (`ModelImpl`): the list of registered
 * callback observers and the load-reserved/store-conditional reservation,
 * which covers a naturally aligned block of `2^e` bytes.
 *
 * Addresses are 64-bit words held as naturals below `2^64`; a callback
 * observer is identified by a natural number (its pointer), and running the
 * callbacks is recorded as the sequence of calls made.
 */
module ModelImpl {
  import opened Wrappers
  import opened Bits

  /** Every element occurs once. */
  ghost predicate NoDup(s: seq<nat>)
  {
    forall i, j :: 0 <= i < j < |s| ==> s[i] != s[j]
  }

  /** `s` with every occurrence of `c` erased, the rest in order (`erase(remove(...))`). */
  function Without(s: seq<nat>, c: nat): (r: seq<nat>)
    ensures |r| <= |s|
  {
    if s == [] then []
    else if s[|s| - 1] == c then Without(s[..|s| - 1], c)
    else Without(s[..|s| - 1], c) + [s[|s| - 1]]
  }

  /** An element survives the erasure exactly when it is not the erased one. */
  lemma {:induction false} WithoutMembers(s: seq<nat>, c: nat, x: nat)
    ensures x in Without(s, c) <==> x in s && x != c
  {
    if s != [] {
      WithoutMembers(s[..|s| - 1], c, x);
      assert s == s[..|s| - 1] + [s[|s| - 1]];
    }
  }

  /** Erasing keeps the list free of duplicates. */
  lemma {:induction false} WithoutNoDup(s: seq<nat>, c: nat)
    requires NoDup(s)
    ensures NoDup(Without(s, c))
  {
    if s != [] {
      var init := s[..|s| - 1];
      WithoutNoDup(init, c);
      if s[|s| - 1] != c {
        WithoutMembers(init, c, s[|s| - 1]);
        assert s[|s| - 1] !in init;
      }
    }
  }

  /** Erasing an element that is not there changes nothing. */
  lemma {:induction false} WithoutAbsent(s: seq<nat>, c: nat)
    requires c !in s
    ensures Without(s, c) == s
  {
    if s != [] {
      WithoutAbsent(s[..|s| - 1], c);
      assert s == s[..|s| - 1] + [s[|s| - 1]];
    }
  }

  /** Removing a callback just registered undoes the registration. */
  lemma RegisterThenRemove(s: seq<nat>, c: nat)
    requires c !in s
    ensures Without(s + [c], c) == s
  {
    assert (s + [c])[..|s|] == s;
    WithoutAbsent(s, c);
  }

  /** One callback invocation: which observer, before or after the step, and the waiting flag passed. */
  datatype StepCall = StepCall(observer: nat, post: bool, waiting: bool)

  /** The calls made when the observers in `cbs` are run in order. */
  function CallsInOrder(cbs: seq<nat>, post: bool, waiting: bool): (r: seq<StepCall>)
    ensures |r| == |cbs|
    ensures forall i :: 0 <= i < |cbs| ==> r[i] == StepCall(cbs[i], post, waiting)
  {
    seq(|cbs|, i requires 0 <= i < |cbs| => StepCall(cbs[i], post, waiting))
  }

  /**
   * `~((1 << e) - 1)` as written: evaluated on a 32-bit signed `int`, then
   * widened (sign-extended) to `uint64_t`. `None` where the C++ evaluation is
   * undefined: a shift count of 32 or more, or `INT_MIN - 1` after `1 << 31`.
   */
  function IntMask(e: nat): (r: Option<nat>)
  {
    if e >= 32 then None
    else
      var intMin: int := 0 - Pow2(31);
      var shifted: int := if e < 31 then Pow2(e) else Pow2(e) - Pow2(32);
      var less := shifted - 1;
      if less < intMin then None
      else Some(Wrap(-less - 1, 64))
  }

  /** `k` ones shifted up by `e` are `2^(k+e) - 2^e`. */
  lemma {:induction false} OnesShifted(k: nat, e: nat)
    ensures Shl(Pow2(k) - 1, e) == Pow2(k + e) - Pow2(e)
  {
    if e > 0 {
      OnesShifted(k, e - 1);
      assert Pow2(k + e) == 2 * Pow2(k + e - 1);
    }
  }

  /** The ones from bit `e` to bit `w - 1`. */
  function Ones(w: nat, e: nat): (r: nat)
    requires e <= w
  {
    Shl(Pow2(w - e) - 1, e)
  }

  /** The ones from bit `e` to bit `w - 1` make `2^w - 2^e`. */
  lemma {:induction false} OnesValue(w: nat, e: nat)
    requires e <= w
    ensures Ones(w, e) == Pow2(w) - Pow2(e)
  {
    var k := w - e;
    OnesShifted(k, e);
    assert k + e == w;
    assert Ones(w, e) == Shl(Pow2(k) - 1, e);
  }

  lemma OnesOnlyBit(w: nat, e: nat, i: nat)
    requires e <= w
    ensures Bit(Ones(w, e), i) == (e <= i < w)
  {
    ShlBit(Pow2(w - e) - 1, e, i);
    if i >= e {
      OnesBit(w - e, i - e);
    }
  }

  /**
   * The mask of a naturally aligned block of `2^e` bytes in a 64-bit
   * address, `~((1ULL << e) - 1)`: the ones from bit `e` to bit 63.
   */
  function BlockMask(e: nat): (r: nat)
    requires e < 64
    ensures r < Pow2(64)
  {
    OnesValue(64, e);
    Ones(64, e)
  }

  /** The block mask has exactly bits `e` to 63 set. */
  lemma BlockMaskBit(e: nat, i: nat)
    requires e < 64
    ensures Bit(BlockMask(e), i) == (e <= i < 64)
  {
    OnesOnlyBit(64, e, i);
  }

  /**
   * The mask as written is defined only for exponents up to 30, and there it
   * is the intended block mask; from 31 on its evaluation is undefined.
   */
  lemma IntMaskDefinedIff(e: nat)
    ensures IntMask(e).Some? <==> e <= 30
    ensures e <= 30 ==> IntMask(e) == Some(BlockMask(e))
  {
    if e <= 30 {
      IntMaskSmall(e);
    } else if e == 31 {
      IntMaskAt31();
    }
  }

  lemma IntMaskSmall(e: nat)
    requires e <= 30
    ensures IntMask(e) == Some(BlockMask(e))
  {
    Pow2Of32();
    Pow2Monotone(e, 30);
    var p: int := Pow2(e);
    assert IntMask(e) == Some(Wrap(-p, 64));
    Pow2Monotone(e, 64);
    NegMod(p, Pow2(64));
    assert Wrap(-p, 64) == Pow2(64) - p;
    BlockMaskValue(e);
  }

  lemma BlockMaskValue(e: nat)
    requires e < 64
    ensures BlockMask(e) == Pow2(64) - Pow2(e)
  {
    OnesValue(64, e);
  }

  lemma NegMod(p: int, m: int)
    requires 0 < p <= m
    ensures -p % m == m - p
  {
    DivUnique(-p, m, -1, m - p);
  }

  lemma IntMaskAt31()
    ensures IntMask(31) == None
  {
    Pow2Of32();
    assert Pow2(31) == 0x8000_0000;
  }

  lemma AndBlockMaskBit(x: nat, e: nat, i: nat)
    requires x < Pow2(64) && e < 64
    ensures Bit(And(x, BlockMask(e)), i) == Bit(Shl(Shr(x, e), e), i)
  {
    AndBit(x, BlockMask(e), i);
    BlockMaskBit(e, i);
    ShlBit(Shr(x, e), e, i);
    if i >= e {
      ShrBit(x, e, i - e);
    }
    if i >= 64 {
      HighBitsClear(x, 64, i);
    }
  }

  /** Masking with the block mask clears the offset within the block: `(x >> e) << e`. */
  lemma AndBlockMask(x: nat, e: nat)
    requires x < Pow2(64) && e < 64
    ensures And(x, BlockMask(e)) == Shl(Shr(x, e), e)
  {
    forall i: nat
      ensures Bit(And(x, BlockMask(e)), i) == Bit(Shl(Shr(x, e), e), i)
    {
      AndBlockMaskBit(x, e, i);
    }
    Equal(And(x, BlockMask(e)), Shl(Shr(x, e), e));
  }

  /** Two addresses agree under the block mask exactly when they lie in the same block. */
  lemma SameBlock(x: nat, y: nat, e: nat)
    requires x < Pow2(64) && y < Pow2(64) && e < 64
    ensures And(x, BlockMask(e)) == And(y, BlockMask(e)) <==> Shr(x, e) == Shr(y, e)
  {
    AndBlockMask(x, e);
    AndBlockMask(y, e);
    ShlInjective(Shr(x, e), Shr(y, e), e);
  }

  /** Masking twice with the same mask is masking once. */
  lemma AndTwice(a: nat, m: nat)
    ensures And(And(a, m), m) == And(a, m)
  {
    forall i: nat
      ensures Bit(And(And(a, m), m), i) == Bit(And(a, m), i)
    {
      AndBit(And(a, m), m, i);
      AndBit(a, m, i);
    }
    Equal(And(And(a, m), m), And(a, m));
  }

  /**
   * Every byte the load-reserved covered, and every other address of the
   * same block, matches the reservation the load stored.
   */
  lemma ReservedBlockMatches(addr: nat, width: nat, e: nat, b: nat)
    requires e < 64 && width > 0 && addr + width <= Pow2(64) && b < Pow2(64)
    requires And(addr + width - 1, BlockMask(e)) == And(addr, BlockMask(e))
    ensures addr <= b < addr + width ==> And(And(addr, BlockMask(e)), BlockMask(e)) == And(b, BlockMask(e))
    ensures And(And(addr, BlockMask(e)), BlockMask(e)) == And(b, BlockMask(e)) <==> Shr(b, e) == Shr(addr, e)
  {
    var m := BlockMask(e);
    var last := addr + width - 1;
    AndTwice(addr, m);
    assert And(And(addr, m), m) == And(addr, m);
    SameBlock(addr, b, e);
    if addr <= b <= last {
      SameBlock(addr, last, e);
      assert Shr(last, e) == Shr(addr, e);
      ShrMonotone(addr, b, e);
      ShrMonotone(b, last, e);
      assert Shr(b, e) == Shr(addr, e);
    }
  }

  class Model {
    /** Registered observers, in registration order. */
    var callbacks: seq<nat>
    /** The reserved block (an address already masked). */
    var reservation: nat
    var reservationValid: bool
    /** `~(2^e - 1)`; zero until the exponent is configured. */
    var setAddrMask: nat

    ghost predicate Valid()
      reads this
    {
      NoDup(callbacks) && reservation < Pow2(64) && setAddrMask < Pow2(64)
    }

    constructor()
      ensures Valid()
      ensures callbacks == [] && reservation == 0 && !reservationValid && setAddrMask == 0
    {
      callbacks := [];
      reservation := 0;
      reservationValid := false;
      setAddrMask := 0;
    }

    /** `register_callback`: append `cb` unless it is already registered. */
    method RegisterCallback(cb: nat)
      requires Valid()
      modifies this
      ensures Valid()
      ensures callbacks == if cb in old(callbacks) then old(callbacks) else old(callbacks) + [cb]
      ensures reservation == old(reservation) && reservationValid == old(reservationValid)
      ensures setAddrMask == old(setAddrMask)
    {
      if cb !in callbacks {
        callbacks := callbacks + [cb];
      }
    }

    /** `remove_callback`: the erase-remove idiom, one pass keeping the other observers. */
    method RemoveCallback(cb: nat)
      requires Valid()
      modifies this
      ensures Valid()
      ensures callbacks == Without(old(callbacks), cb)
      ensures cb !in callbacks
      ensures reservation == old(reservation) && reservationValid == old(reservationValid)
      ensures setAddrMask == old(setAddrMask)
    {
      var kept: seq<nat> := [];
      var i := 0;
      while i < |callbacks|
        invariant 0 <= i <= |callbacks|
        invariant kept == Without(callbacks[..i], cb)
      {
        assert callbacks[..i + 1][..i] == callbacks[..i];
        if callbacks[i] != cb {
          kept := kept + [callbacks[i]];
        }
        i := i + 1;
      }
      assert callbacks[..i] == callbacks;
      WithoutNoDup(callbacks, cb);
      WithoutMembers(callbacks, cb, cb);
      callbacks := kept;
    }

    /** `call_pre_step_callbacks`: every observer, in registration order. */
    method CallPreStepCallbacks(waiting: bool) returns (calls: seq<StepCall>)
      ensures calls == CallsInOrder(callbacks, false, waiting)
    {
      calls := [];
      for i := 0 to |callbacks|
        invariant calls == CallsInOrder(callbacks[..i], false, waiting)
      {
        calls := calls + [StepCall(callbacks[i], false, waiting)];
      }
      assert callbacks[..|callbacks|] == callbacks;
    }

    /** `call_post_step_callbacks`: every observer, in registration order. */
    method CallPostStepCallbacks(waiting: bool) returns (calls: seq<StepCall>)
      ensures calls == CallsInOrder(callbacks, true, waiting)
    {
      calls := [];
      for i := 0 to |callbacks|
        invariant calls == CallsInOrder(callbacks[..i], true, waiting)
      {
        calls := calls + [StepCall(callbacks[i], true, waiting)];
      }
      assert callbacks[..|callbacks|] == callbacks;
    }

    /**
     * `set_reservation_set_size_exp`, with the mask computed on 64 bits
     * (the 32-bit `int` evaluation of the original is `IntMask`).
     */
    method SetReservationSetSizeExp(e: nat)
      requires Valid() && e < 64
      modifies this
      ensures Valid()
      ensures setAddrMask == BlockMask(e)
      ensures callbacks == old(callbacks) && reservation == old(reservation)
      ensures reservationValid == old(reservationValid)
    {
      setAddrMask := BlockMask(e);
    }

    /**
     * `load_reservation`: reserve the block holding `addr`; the reserved
     * bytes `addr .. addr + width - 1` (wrapping at `2^64`) must lie in it.
     */
    method LoadReservation(addr: nat, width: nat)
      requires Valid() && addr < Pow2(64) && width < Pow2(64)
      requires width > 0 && And(Wrap(addr + width - 1, 64), setAddrMask) == And(addr, setAddrMask)
      modifies this
      ensures Valid()
      ensures reservation == And(addr, setAddrMask) && reservationValid
      ensures callbacks == old(callbacks) && setAddrMask == old(setAddrMask)
    {
      reservation := And(addr, setAddrMask);
      reservationValid := true;
    }

    /** `match_reservation`: a valid reservation of the block holding `addr`. */
    method MatchReservation(addr: nat) returns (r: bool)
      ensures r <==> reservationValid && And(reservation, setAddrMask) == And(addr, setAddrMask)
    {
      r := reservationValid && And(reservation, setAddrMask) == And(addr, setAddrMask);
    }

    /** `cancel_reservation`: afterwards no address matches. */
    method CancelReservation()
      modifies this
      ensures !reservationValid
      ensures callbacks == old(callbacks) && reservation == old(reservation)
      ensures setAddrMask == old(setAddrMask)
    {
      reservationValid := false;
    }

    /** `valid_reservation`. */
    method ValidReservation() returns (r: bool)
      ensures r == reservationValid
    {
      r := reservationValid;
    }
  }
}
