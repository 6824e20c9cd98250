/**
 * The JTAG test access port (TAP) controller and RISC-V debug transport
 * module (DTM) of the emulator's debug interface.
 *
 * The TAP follows the sixteen-state controller of clause 6 of IEEE 1149.1:
 * on a rising TCK edge the state moves along the TMS value sampled by the
 * previous call, and the shift registers move one bit; every other call
 * performs the current state's action (capture, update, drive TDO).  The DTM
 * registers `dtmcs` and `dmi` follow section 6.1 of RISC-V External Debug
 * Support 0.13.2, with 7 address bits.
 *
 * The pure functions over `Tap` say what one call does; the class `JtagDtm`
 * holds the same fields and its methods are proved to do exactly that.  The
 * debug module behind `dmi_read`/`dmi_write` is a `DmiPort` parameter.
 */
module JtagDtm {
  import opened Bits

  datatype JtagState =
    | TestLogicReset | RunTestIdle
    | SelectDrScan | CaptureDr | ShiftDr | Exit1Dr | PauseDr | Exit2Dr | UpdateDr
    | SelectIrScan | CaptureIr | ShiftIr | Exit1Ir | PauseIr | Exit2Ir | UpdateIr

  /** Instruction register codes. */
  const IrIdCode: nat := 0x01
  const IrDtmControl: nat := 0x10
  const IrDbus: nat := 0x11
  const IrBypass: nat := 0x1f
  const IrLength: nat := 5

  /** The constant IDCODE value and the address width of the DMI. */
  const IdCode: nat := 0xdeadbeef
  const ABits: nat := 7

  /** dtmcs as built at construction: `abits` in bits 9:4 and version 1. */
  const DtmControl: nat := 0x71

  /** The DMI operation status written back into `dmi[1:0]`. */
  const DmiOpStatusSuccess: nat := 0
  const DmiOpStatusFailed: nat := 2
  const DmiOpStatusBusy: nat := 3

  /** The DMI operations of `dmi[1:0]` written by the debugger. */
  const DmiOpRead: nat := 1
  const DmiOpWrite: nat := 2

  /** Length of the DBUS data register: op (2) + data (32) + address (abits). */
  const DbusLength: nat := 41

  /**
   * The debug module seen through the DMI: `read(address)` gives a success
   * flag and a value, `write(address, data)` a success flag.
   */
  datatype DmiPort = DmiPort(read: nat -> (bool, nat), write: (nat, nat) -> bool)

  /** The fields of a `jtag_dtm_t` that change. */
  datatype Tap = Tap(
    state: JtagState,
    tck: bool, tms: bool, tdi: bool, tdo: bool,
    ir: nat, dr: nat, drLength: nat,
    dmi: nat, bypass: nat,
    rtiRemaining: nat, busyStuck: bool)

  /** The TAP next-state table: row `s`, column TMS. */
  function Next(s: JtagState, tms: bool): JtagState
  {
    match s
    case TestLogicReset => if tms then TestLogicReset else RunTestIdle
    case RunTestIdle => if tms then SelectDrScan else RunTestIdle
    case SelectDrScan => if tms then SelectIrScan else CaptureDr
    case CaptureDr => if tms then Exit1Dr else ShiftDr
    case ShiftDr => if tms then Exit1Dr else ShiftDr
    case Exit1Dr => if tms then UpdateDr else PauseDr
    case PauseDr => if tms then Exit2Dr else PauseDr
    case Exit2Dr => if tms then UpdateDr else ShiftDr
    case UpdateDr => if tms then SelectDrScan else RunTestIdle
    case SelectIrScan => if tms then TestLogicReset else CaptureIr
    case CaptureIr => if tms then Exit1Ir else ShiftIr
    case ShiftIr => if tms then Exit1Ir else ShiftIr
    case Exit1Ir => if tms then UpdateIr else PauseIr
    case PauseIr => if tms then Exit2Ir else PauseIr
    case Exit2Ir => if tms then UpdateIr else ShiftIr
    case UpdateIr => if tms then SelectDrScan else RunTestIdle
  }

  /** The state after `n` rising edges with TMS high. */
  function TmsHigh(s: JtagState, n: nat): JtagState
    decreases n
  {
    if n == 0 then s else TmsHigh(Next(s, true), n - 1)
  }

  /** Five rising edges with TMS high reach Test-Logic-Reset from any state, and more keep it there. */
  lemma {:induction false} TmsHighResets(s: JtagState, n: nat)
    requires n >= 5
    ensures TmsHigh(s, n) == TestLogicReset
  {
    if n == 5 {
      assert TmsHigh(s, 5) == Next(Next(Next(Next(Next(s, true), true), true), true), true);
    } else {
      TmsHighResets(s, n - 1);
      StaysInReset(n - 5);
      TmsHighSplit(s, n - 1, 1);
    }
  }

  /** Test-Logic-Reset is kept while TMS stays high. */
  lemma {:induction false} StaysInReset(n: nat)
    ensures TmsHigh(TestLogicReset, n) == TestLogicReset
  {
    if n > 0 {
      StaysInReset(n - 1);
    }
  }

  lemma {:induction false} TmsHighSplit(s: JtagState, a: nat, b: nat)
    ensures TmsHigh(s, a + b) == TmsHigh(TmsHigh(s, a), b)
    decreases a
  {
    if a > 0 {
      TmsHighSplit(Next(s, true), a - 1, b);
    }
  }

  /** Four edges are not enough: from Shift-DR, TMS high four times ends in Select-IR-Scan. */
  lemma FourEdgesNotEnough()
    ensures TmsHigh(ShiftDr, 4) == SelectIrScan
  {
  }

  /**
   * One bit shifted into a `len`-bit register: the register moves right and
   * `b` becomes bit `len - 1`.  With `len == 0` the C shift count is
   * `UINT_MAX`, which is undefined; the model then only shifts.
   */
  function ShiftIn(x: nat, len: nat, b: bool): nat
  {
    if len == 0 then Shr(x, 1) else Or(Shr(x, 1), if b then Pow2(len - 1) else 0)
  }

  /** jtag_dtm_t::reset. */
  function ResetTap(t: Tap): Tap
  {
    t.(state := TestLogicReset, busyStuck := false, rtiRemaining := 0, dmi := 0)
  }

  /** jtag_dtm_t::capture_dr: load DR from the register the IR selects. */
  function CaptureDrOf(t: Tap): Tap
  {
    if t.ir == IrIdCode then t.(dr := IdCode, drLength := 32)
    else if t.ir == IrDtmControl then t.(dr := DtmControl, drLength := 32)
    else if t.ir == IrDbus then
      (if t.rtiRemaining > 0 || t.busyStuck then t.(dr := DmiOpStatusBusy, busyStuck := true, drLength := DbusLength)
       else t.(dr := t.dmi, drLength := DbusLength))
    else if t.ir == IrBypass then t.(dr := t.bypass, drLength := 1)
    else t
  }

  /** The DBUS access of update_dr: the new `dmi`, before the status is written, and the success flag. */
  function DmiAccess(dr: nat, dm: DmiPort): (bool, nat)
  {
    var op := Trunc(dr, 2);
    var address := Slice(dr, 34, ABits);
    var data := Slice(dr, 2, 32);
    if op == DmiOpRead then
      (var rd := dm.read(address);
       if rd.0 then (true, Place(dr, 2, 32, rd.1)) else (false, dr))
    else if op == DmiOpWrite then (dm.write(address, data), dr)
    else (true, dr)
  }

  /** jtag_dtm_t::update_dr: act on the DR just shifted in, according to the IR. */
  function UpdateDrOf(t: Tap, required: nat, dm: DmiPort): Tap
  {
    if t.ir == IrDtmControl then DtmControlUpdate(t)
    else if t.ir == IrBypass then t.(bypass := Trunc(t.dr, 32))
    else if t.ir == IrDbus && !t.busyStuck then DbusUpdate(t, required, dm)
    else t
  }

  /** A write of dtmcs: dmireset (bit 16) clears a stuck BUSY, dmihardreset (bit 17) resets the DTM. */
  function DtmControlUpdate(t: Tap): Tap
  {
    var t1 := if Bit(t.dr, 16) then t.(busyStuck := false) else t;
    if Bit(t.dr, 17) then ResetTap(t1) else t1
  }

  /** A write of dmi when no access is pending: perform it, record its status, start the idle count. */
  function DbusUpdate(t: Tap, required: nat, dm: DmiPort): Tap
  {
    var a := DmiAccess(t.dr, dm);
    t.(dmi := Place(a.1, 0, 2, if a.0 then DmiOpStatusSuccess else DmiOpStatusFailed),
       rtiRemaining := required)
  }

  /** What a call that is not a rising edge does in the current state. */
  function Action(t: Tap, required: nat, dm: DmiPort): Tap
  {
    match t.state
    case RunTestIdle => if t.rtiRemaining > 0 then t.(rtiRemaining := t.rtiRemaining - 1) else t
    case TestLogicReset => t.(ir := IrIdCode)
    case CaptureDr => CaptureDrOf(t)
    case ShiftDr => t.(tdo := t.dr % 2 == 1)
    case UpdateDr => UpdateDrOf(t, required, dm)
    case ShiftIr => t.(tdo := t.ir % 2 == 1)
    case _ => t
  }

  /** A rising TCK edge: shift in the TDI sampled by the previous call, then move along its TMS. */
  function RisingEdge(t: Tap): Tap
  {
    var t1 :=
      if t.state == ShiftDr then t.(dr := ShiftIn(t.dr, t.drLength, t.tdi))
      else if t.state == ShiftIr then t.(ir := ShiftIn(t.ir, IrLength, t.tdi))
      else t;
    t1.(state := Next(t.state, t.tms))
  }

  /** jtag_dtm_t::set_pins: one call with new pin values; the pins are latched for the next call. */
  function SetPinsOf(t: Tap, tck: bool, tms: bool, tdi: bool, required: nat, dm: DmiPort): Tap
  {
    var t1 := if !t.tck && tck then RisingEdge(t) else Action(t, required, dm);
    t1.(tck := tck, tms := tms, tdi := tdi)
  }

  // ---------------------------------------------------------------------
  // Properties of one call
  // ---------------------------------------------------------------------

  /** A rising edge moves the state by the latched TMS; the new pins are latched. */
  lemma RisingEdgeMoves(t: Tap, tck: bool, tms: bool, tdi: bool, required: nat, dm: DmiPort)
    requires !t.tck && tck
    ensures SetPinsOf(t, tck, tms, tdi, required, dm).state == Next(t.state, t.tms)
    ensures SetPinsOf(t, tck, tms, tdi, required, dm).tck == tck
    ensures SetPinsOf(t, tck, tms, tdi, required, dm).tms == tms
    ensures SetPinsOf(t, tck, tms, tdi, required, dm).tdi == tdi
  {
  }

  /** A call that is not a rising edge never moves the state, except a DMI hard reset in Update-DR. */
  lemma OtherCallsStay(t: Tap, tck: bool, tms: bool, tdi: bool, required: nat, dm: DmiPort)
    requires !(!t.tck && tck)
    requires !(t.state == UpdateDr && t.ir == IrDtmControl && Bit(t.dr, 17))
    ensures SetPinsOf(t, tck, tms, tdi, required, dm).state == t.state
  {
  }

  /** Five rising edges with TMS high on each reach Test-Logic-Reset. */
  lemma FiveEdgesReset(t0: Tap, required: nat, dm: DmiPort, tdi: seq<bool>)
    requires |tdi| == 5 && t0.tms && !t0.tck
    ensures ResetRun(t0, required, dm, tdi).state == TestLogicReset
  {
    TmsHighResets(t0.state, 5);
    var t := t0;
    var k := 0;
    while k < 5
      invariant k <= 5 && t.tms && !t.tck
      invariant TmsHigh(t.state, 5 - k) == TestLogicReset
      invariant ResetRun(t0, required, dm, tdi) == ResetRun(t, required, dm, tdi[k..])
    {
      var up := SetPinsOf(t, true, true, tdi[k], required, dm);
      assert up.state == Next(t.state, true);
      t := SetPinsOf(up, false, true, tdi[k], required, dm);
      ActionStateOrReset(up, required, dm);
      if t.state == TestLogicReset {
        StaysInReset(4 - k);
      }
      assert tdi[k..][1..] == tdi[k + 1..];
      k := k + 1;
    }
  }

  /** A call that is not a rising edge keeps the state, or resets the TAP through dmihardreset. */
  lemma ActionStateOrReset(t: Tap, required: nat, dm: DmiPort)
    ensures Action(t, required, dm).state == t.state || Action(t, required, dm).state == TestLogicReset
  {
  }

  /** A clock pulse per entry of `tdi`, TMS held high: the pins rise, then fall. */
  function ResetRun(t: Tap, required: nat, dm: DmiPort, tdi: seq<bool>): Tap
    decreases |tdi|
  {
    if tdi == [] then t
    else
      var up := SetPinsOf(t, true, true, tdi[0], required, dm);
      ResetRun(SetPinsOf(up, false, true, tdi[0], required, dm), required, dm, tdi[1..])
  }

  /** The fields of a freshly constructed `jtag_dtm_t`: all zero, the TAP in Test-Logic-Reset. */
  const PowerOn := Tap(TestLogicReset, false, false, false, false, 0, 0, 0, 0, 0, 0, false)

  /** Calls to set_pins, one per `(tck, tms, tdi)` triple, in order. */
  function Drive(t: Tap, pins: seq<(bool, bool, bool)>, required: nat, dm: DmiPort): Tap
    decreases |pins|
  {
    if pins == [] then t
    else Drive(SetPinsOf(t, pins[0].0, pins[0].1, pins[0].2, required, dm), pins[1..], required, dm)
  }

  /**
   * A length-0 shift is reachable: the first rising edge leaves
   * Test-Logic-Reset on the power-on TMS before the IDCODE load runs, and
   * TMS 1, 0, 0 then reach Shift-DR through a capture that an IR of 0
   * leaves alone.  The next rising edge shifts by `dr_length - 1` with
   * `dr_length` 0.
   */
  lemma ZeroLengthShiftReachable(required: nat, dm: DmiPort)
    ensures var t := Drive(PowerOn, [(true, true, false), (false, true, false),
                                     (true, false, false), (false, false, false),
                                     (true, false, false), (false, false, false),
                                     (true, false, false), (false, false, false)], required, dm);
      && TapOk(t) && t.state == ShiftDr && t.ir == 0 && t.drLength == 0 && !t.tck
      && SetPinsOf(t, true, false, false, required, dm).dr == ShiftIn(t.dr, 0, t.tdi)
  {
    var t1 := SetPinsOf(PowerOn, true, true, false, required, dm);
    assert t1.state == RunTestIdle && t1.ir == 0;
    var t2 := SetPinsOf(t1, false, true, false, required, dm);
    var t3 := SetPinsOf(t2, true, false, false, required, dm);
    assert t3.state == SelectDrScan;
    var t4 := SetPinsOf(t3, false, false, false, required, dm);
    var t5 := SetPinsOf(t4, true, false, false, required, dm);
    assert t5.state == CaptureDr;
    var t6 := SetPinsOf(t5, false, false, false, required, dm);
    assert t6.drLength == 0 && t6.ir == 0;
    var t7 := SetPinsOf(t6, true, false, false, required, dm);
    var t8 := SetPinsOf(t7, false, false, false, required, dm);
    assert t8.state == ShiftDr && t8.drLength == 0;
  }

  /** In Shift-DR a rising edge moves DR right and puts the latched TDI at bit `dr_length - 1`. */
  lemma ShiftDrBits(t: Tap, i: nat)
    requires t.state == ShiftDr && t.drLength > 0 && t.dr < Pow2(t.drLength)
    ensures Bit(RisingEdge(t).dr, i) == if i == t.drLength - 1 then t.tdi else Bit(t.dr, i + 1)
  {
    var b := if t.tdi then Pow2(t.drLength - 1) else 0;
    OrBit(Shr(t.dr, 1), b, i);
    ShrBit(t.dr, 1, i);
    PowBit(t.drLength - 1, i);
    BitOfZero(i);
    if i == t.drLength - 1 {
      HighBitsClear(t.dr, t.drLength, i + 1);
    }
  }

  /** Outside a rising edge, Shift-DR and Shift-IR drive bit 0 of their register on TDO. */
  lemma TdoIsBitZero(t: Tap, tck: bool, tms: bool, tdi: bool, required: nat, dm: DmiPort)
    requires !(!t.tck && tck) && (t.state == ShiftDr || t.state == ShiftIr)
    ensures SetPinsOf(t, tck, tms, tdi, required, dm).tdo == Bit(if t.state == ShiftDr then t.dr else t.ir, 0)
  {
  }

  /** Run-Test/Idle counts `rti_remaining` down to zero and no further. */
  lemma IdleCountsDown(t: Tap, tck: bool, tms: bool, tdi: bool, required: nat, dm: DmiPort)
    requires !(!t.tck && tck) && t.state == RunTestIdle
    ensures SetPinsOf(t, tck, tms, tdi, required, dm).rtiRemaining == if t.rtiRemaining > 0 then t.rtiRemaining - 1 else 0
  {
  }

  /** A DBUS capture while an access is pending reports BUSY and makes it stick. */
  lemma CaptureBusy(t: Tap)
    requires t.ir == IrDbus && (t.rtiRemaining > 0 || t.busyStuck)
    ensures CaptureDrOf(t).dr == DmiOpStatusBusy && CaptureDrOf(t).busyStuck
    ensures CaptureDrOf(t).drLength == ABits + 34
  {
  }

  /** The DBUS status in `dmi[1:0]` after an access is 0 on success and 2 on failure, never 1 or 3. */
  lemma DbusStatus(t: Tap, required: nat, dm: DmiPort)
    requires t.ir == IrDbus && !t.busyStuck
    ensures var u := UpdateDrOf(t, required, dm);
      && Slice(u.dmi, 0, 2) == (if DmiAccess(t.dr, dm).0 then DmiOpStatusSuccess else DmiOpStatusFailed)
      && u.rtiRemaining == required
  {
    var a := DmiAccess(t.dr, dm);
    var status := if a.0 then DmiOpStatusSuccess else DmiOpStatusFailed;
    SlicePlace(a.1, 0, 2, status);
    assert Pow2(2) == 4;
    assert UpdateDrOf(t, required, dm) == DbusUpdate(t, required, dm);
    TruncFits(status, 2);
  }

  /** A successful DMI read puts the 32-bit value in `dmi[33:2]` and asks for the address in `dr[40:34]`. */
  lemma DbusReadData(t: Tap, required: nat, dm: DmiPort)
    requires t.ir == IrDbus && !t.busyStuck && Trunc(t.dr, 2) == DmiOpRead
    requires dm.read(Slice(t.dr, 34, ABits)).0
    ensures Slice(UpdateDrOf(t, required, dm).dmi, 2, 32) == Trunc(dm.read(Slice(t.dr, 34, ABits)).1, 32)
  {
    var value := dm.read(Slice(t.dr, 34, ABits)).1;
    var dmi := Place(t.dr, 2, 32, value);
    var status := DmiOpStatusSuccess;
    SliceElsewhere(dmi, 0, 2, status, 2, 32);
    SlicePlace(t.dr, 2, 32, value);
  }

  /** On dtmcs, dmireset (bit 16) clears a stuck BUSY, dmihardreset (bit 17) resets; otherwise it persists. */
  lemma DtmControlWrite(t: Tap, required: nat, dm: DmiPort)
    requires t.ir == IrDtmControl
    ensures Bit(t.dr, 16) || Bit(t.dr, 17) ==> !UpdateDrOf(t, required, dm).busyStuck
    ensures !Bit(t.dr, 16) && !Bit(t.dr, 17) ==> UpdateDrOf(t, required, dm) == t
    ensures Bit(t.dr, 17) ==> UpdateDrOf(t, required, dm).state == TestLogicReset
  {
  }

  // ---------------------------------------------------------------------
  // The invariant every call keeps
  // ---------------------------------------------------------------------

  /**
   * Every register stays within its C type (`uint64_t` DR and DMI, 5-bit IR,
   * `unsigned` bypass) and `dr_length` is one of the lengths capture_dr sets,
   * so the unbounded model needs no wrap-around anywhere.
   */
  ghost predicate TapOk(t: Tap)
  {
    && (t.drLength == 0 || t.drLength == 1 || t.drLength == 32 || t.drLength == DbusLength)
    && t.dr < 0x1_0000_0000_0000_0000
    && t.dmi < 0x1_0000_0000_0000_0000
    && t.ir < 32
    && t.bypass < 0x1_0000_0000
  }

  /** Shifting a bit into a register of at most `w` bits keeps it below `2^w`. */
  lemma ShiftInFits(x: nat, len: nat, b: bool, w: nat)
    requires x < Pow2(w) && len <= w
    ensures ShiftIn(x, len, b) < Pow2(w)
  {
    if len > 0 {
      var c := if b then Pow2(len - 1) else 0;
      Pow2Monotone(len - 1, w - 1);
      assert Pow2(w) == 2 * Pow2(w - 1);
      OrBound(Shr(x, 1), c, w);
    }
  }

  lemma CaptureKeeps(t: Tap)
    requires TapOk(t)
    ensures TapOk(CaptureDrOf(t))
  {
  }

  lemma UpdateKeeps(t: Tap, required: nat, dm: DmiPort)
    requires TapOk(t)
    ensures TapOk(UpdateDrOf(t, required, dm))
  {
    if t.ir == IrBypass {
      Pow2Of32();
    } else if t.ir == IrDbus && !t.busyStuck {
      DbusKeeps(t, required, dm);
    }
  }

  lemma DbusKeeps(t: Tap, required: nat, dm: DmiPort)
    requires TapOk(t)
    ensures TapOk(DbusUpdate(t, required, dm))
  {
    Pow2Of64();
    var a := DmiAccess(t.dr, dm);
    DmiAccessFits(t.dr, dm);
    PlaceBound(a.1, 0, 2, if a.0 then DmiOpStatusSuccess else DmiOpStatusFailed, 64);
  }

  lemma DmiAccessFits(dr: nat, dm: DmiPort)
    requires dr < Pow2(64)
    ensures DmiAccess(dr, dm).1 < Pow2(64)
  {
    var rd := dm.read(Slice(dr, 34, ABits));
    if Trunc(dr, 2) == DmiOpRead && rd.0 {
      PlaceBound(dr, 2, 32, rd.1, 64);
    }
  }

  /** Every call to set_pins keeps the invariant. */
  lemma SetPinsKeeps(t: Tap, tck: bool, tms: bool, tdi: bool, required: nat, dm: DmiPort)
    requires TapOk(t)
    ensures TapOk(SetPinsOf(t, tck, tms, tdi, required, dm))
  {
    if !t.tck && tck {
      RisingKeeps(t);
    } else {
      ActionKeeps(t, required, dm);
    }
  }

  lemma RisingKeeps(t: Tap)
    requires TapOk(t)
    ensures TapOk(RisingEdge(t))
  {
    Pow2Of64();
    if t.state == ShiftDr {
      ShiftInFits(t.dr, t.drLength, t.tdi, 64);
    } else if t.state == ShiftIr {
      assert Pow2(IrLength) == 32;
      ShiftInFits(t.ir, IrLength, t.tdi, IrLength);
    }
  }

  lemma ActionKeeps(t: Tap, required: nat, dm: DmiPort)
    requires TapOk(t)
    ensures TapOk(Action(t, required, dm))
  {
    if t.state == CaptureDr {
      CaptureKeeps(t);
    } else if t.state == UpdateDr {
      UpdateKeeps(t, required, dm);
    }
  }

  // ---------------------------------------------------------------------
  // The DTM object
  // ---------------------------------------------------------------------

  /** jtag_dtm_t: the pins and registers are fields that each call updates in place. */
  class Dtm {
    var state: JtagState
    var tck: bool
    var tms: bool
    var tdi: bool
    var tdo: bool
    var ir: nat
    var dr: nat
    var drLength: nat
    var dmi: nat
    var bypass: nat
    var rtiRemaining: nat
    var busyStuck: bool
    /** Run-Test/Idle cycles a DMI access takes. */
    const requiredRtiCycles: nat
    /** The debug module behind the DMI. */
    const dm: DmiPort

    /** The fields, as the value the functions above act on. */
    function Regs(): Tap
      reads this
    {
      Tap(state, tck, tms, tdi, tdo, ir, dr, drLength, dmi, bypass, rtiRemaining, busyStuck)
    }

    ghost predicate Valid()
      reads this
    {
      TapOk(Regs())
    }

    /** Everything starts at zero and the TAP in Test-Logic-Reset. */
    constructor(requiredRtiCycles: nat, dm: DmiPort)
      ensures Valid()
      ensures Regs() == PowerOn
      ensures this.requiredRtiCycles == requiredRtiCycles && this.dm == dm
    {
      this.requiredRtiCycles := requiredRtiCycles;
      this.dm := dm;
      state := TestLogicReset;
      tck, tms, tdi, tdo := false, false, false, false;
      ir, dr, drLength, dmi, bypass := 0, 0, 0, 0, 0;
      rtiRemaining, busyStuck := 0, false;
    }

    method Reset()
      modifies this
      ensures Regs() == ResetTap(old(Regs()))
    {
      state := TestLogicReset;
      busyStuck := false;
      rtiRemaining := 0;
      dmi := 0;
    }

    method CaptureDr()
      modifies this
      ensures Regs() == CaptureDrOf(old(Regs()))
    {
      if ir == IrIdCode {
        dr := IdCode;
        drLength := 32;
      } else if ir == IrDtmControl {
        dr := DtmControl;
        drLength := 32;
      } else if ir == IrDbus {
        if rtiRemaining > 0 || busyStuck {
          dr := DmiOpStatusBusy;
          busyStuck := true;
        } else {
          dr := dmi;
        }
        drLength := ABits + 34;
      } else if ir == IrBypass {
        dr := bypass;
        drLength := 1;
      }
    }

    method UpdateDr()
      modifies this
      ensures Regs() == UpdateDrOf(old(Regs()), requiredRtiCycles, dm)
    {
      if ir == IrDtmControl {
        if Bit(dr, 16) {
          busyStuck := false;
        }
        if Bit(dr, 17) {
          Reset();
        }
      } else if ir == IrBypass {
        bypass := Trunc(dr, 32);
      } else if ir == IrDbus && !busyStuck {
        DbusAccess();
      }
    }

    /** The DBUS branch of update_dr. */
    method DbusAccess()
      modifies this
      ensures Regs() == DbusUpdate(old(Regs()), requiredRtiCycles, dm)
    {
      var op := Trunc(dr, 2);
      var data := Slice(dr, 2, 32);
      var address := Slice(dr, 34, ABits);
      dmi := dr;
      var success := true;
      if op == DmiOpRead {
        var rd := dm.read(address);
        success := rd.0;
        if success {
          dmi := Place(dmi, 2, 32, rd.1);
        }
      } else if op == DmiOpWrite {
        success := dm.write(address, data);
      }
      dmi := Place(dmi, 0, 2, if success then DmiOpStatusSuccess else DmiOpStatusFailed);
      rtiRemaining := requiredRtiCycles;
    }

    /** jtag_dtm_t::set_pins: one call, which keeps the invariant. */
    method SetPins(tck': bool, tms': bool, tdi': bool)
      requires Valid()
      modifies this
      ensures Valid()
      ensures Regs() == SetPinsOf(old(Regs()), tck', tms', tdi', requiredRtiCycles, dm)
    {
      ghost var t := Regs();
      SetPinsKeeps(t, tck', tms', tdi', requiredRtiCycles, dm);
      ghost var after := SetPinsOf(t, tck', tms', tdi', requiredRtiCycles, dm);
      if !tck && tck' {
        ClockEdge();
      } else {
        StateAction();
      }
      tck, tms, tdi := tck', tms', tdi';
      assert Regs() == after;
    }

    /** The rising-edge branch of set_pins. */
    method ClockEdge()
      modifies this
      ensures Regs() == RisingEdge(old(Regs()))
    {
      if state == ShiftDr {
        dr := ShiftIn(dr, drLength, tdi);
      } else if state == ShiftIr {
        ir := ShiftIn(ir, IrLength, tdi);
      }
      state := Next(state, tms);
    }

    /** The other branch of set_pins: the current state's action. */
    method StateAction()
      modifies this
      ensures Regs() == Action(old(Regs()), requiredRtiCycles, dm)
    {
      match state
      case RunTestIdle =>
        if rtiRemaining > 0 {
          rtiRemaining := rtiRemaining - 1;
        }
      case TestLogicReset =>
        ir := IrIdCode;
      case CaptureDr =>
        CaptureDr();
      case ShiftDr =>
        tdo := dr % 2 == 1;
      case UpdateDr =>
        UpdateDr();
      case ShiftIr =>
        tdo := ir % 2 == 1;
      case _ =>
    }
  }
}
