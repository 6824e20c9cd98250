/**
 * The platform's load-reserved/store-conditional reservation as the C
 * externs keep it (`riscv_platform.cpp`, and its older C twin
 * `riscv_platform.c`): one remembered address, compared with the address of
 * a store-conditional on the low 32 bits for RV32 and on all 64 bits
 * otherwise, plus the terminal output hook.
 */
module PlatformReservation {
  import opened Bits

  /** `check_mask()`: the address bits a reservation compares for the given XLEN. */
  function CheckMask(xlen: nat): (r: nat)
    ensures r < Pow2(64)
  {
    Pow2Of64();
    if xlen == 32 then 0x0000_0000_FFFF_FFFF else 0xFFFF_FFFF_FFFF_FFFF
  }

  /**
   * Two addresses agree under the check mask exactly when their low 32 bits
   * agree (RV32) or when they are equal (any other XLEN).
   */
  lemma CheckMaskCompares(xlen: nat, x: nat, y: nat)
    requires x < Pow2(64) && y < Pow2(64)
    ensures And(x, CheckMask(xlen)) == And(y, CheckMask(xlen)) <==>
              if xlen == 32 then x % Pow2(32) == y % Pow2(32) else x == y
  {
    if xlen == 32 {
      Pow2Of32();
      assert CheckMask(xlen) == Pow2(32) - 1;
      AndLowOnes(x, 32);
      AndLowOnes(y, 32);
    } else {
      Pow2Of64();
      assert CheckMask(xlen) == Pow2(64) - 1;
      AndLowOnes(x, 64);
      AndLowOnes(y, 64);
      ModSmall(x, Pow2(64));
      ModSmall(y, Pow2(64));
    }
  }

  /** `plat_term_write`: the character written is the low byte of `s`. */
  function TermByte(s: nat): (c: nat)
    ensures c < 256
    ensures c == s % 256
  {
    AndLowOnes(s, 8);
    Pow2Of8();
    And(s, 0xFF)
  }

  /** `speculate_conditional`: a store-conditional is always allowed to go ahead. */
  function SpeculateConditional(): (r: bool)
    ensures r
  {
    true
  }

  class Platform {
    /** The hart's XLEN (`zxlen`). */
    const xlen: nat
    var reservation: nat
    var reservationValid: bool

    ghost predicate Valid()
      reads this
    {
      reservation < Pow2(64)
    }

    constructor(xlen: nat)
      ensures Valid()
      ensures this.xlen == xlen && reservation == 0 && !reservationValid
    {
      this.xlen := xlen;
      reservation := 0;
      reservationValid := false;
    }

    /** `load_reservation`: remember the whole address. */
    method LoadReservation(addr: nat)
      requires addr < Pow2(64)
      modifies this
      ensures Valid()
      ensures reservation == addr && reservationValid
    {
      reservation := addr;
      reservationValid := true;
    }

    /** `match_reservation`: a valid reservation whose address agrees under the check mask. */
    method MatchReservation(addr: nat) returns (r: bool)
      requires Valid() && addr < Pow2(64)
      ensures r <==> reservationValid &&
                     if xlen == 32 then reservation % Pow2(32) == addr % Pow2(32) else reservation == addr
    {
      var mask := CheckMask(xlen);
      r := reservationValid && And(reservation, mask) == And(addr, mask);
      CheckMaskCompares(xlen, reservation, addr);
    }

    /** `cancel_reservation`: afterwards no address matches. */
    method CancelReservation()
      modifies this
      ensures !reservationValid && reservation == old(reservation)
    {
      reservationValid := false;
    }

    /** `valid_reservation`. */
    method ValidReservation() returns (r: bool)
      ensures r == reservationValid
    {
      r := reservationValid;
    }
  }

  /**
   * A load-reserved followed by a store-conditional to the same address
   * matches, and a cancel in between makes it fail.
   */
  method LoadThenMatch(p: Platform, addr: nat, cancel: bool) returns (r: bool)
    requires addr < Pow2(64)
    modifies p
    ensures r == !cancel
  {
    p.LoadReservation(addr);
    if cancel {
      p.CancelReservation();
    }
    r := p.MatchReservation(addr);
  }
}
