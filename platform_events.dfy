/**
 * The example platform's event classifier: the table giving each model
 * event the number software writes to an mhpmevent selector to count it,
 * and the mask/match tests that decide, from the encoding of the
 * instruction just executed, which model events it signals.
 *
 * Each `WHEN_IS_<insn>` test is a `Pattern`: the instruction ANDed with
 * the mask of its format equals the instruction's fixed bits, and, for
 * some, the rs2 field (bits 24:20) has a given value.  The source tests
 * them one after another; consecutive tests that signal the same events
 * form one group here, kept in the source's order.
 *
 * The enumeration of model events is generated from a file that is not
 * part of this model; the ids below number the events in the order of the
 * platform table, after E_not_defined = 0.
 */
module PlatformEvents {
  import opened Wrappers
  import opened Bits
  import HpmEvents

  const EventBranch: nat := 1
  const EventJal: nat := 2
  const EventJalr: nat := 3
  const EventAuipc: nat := 4
  const EventLoad: nat := 5
  const EventStore: nat := 6
  const EventLr: nat := 7
  const EventSc: nat := 8
  const EventAmo: nat := 9
  const EventShift: nat := 10
  const EventMulDiv: nat := 11
  const EventFp: nat := 12
  const EventFence: nat := 13
  /** E_last: one past the last model event. */
  const ELast: nat := 14

  /** `platform_events`: each model event with its selector value, then the `{E_last, 0}` terminator. */
  const PlatformEventTable: seq<HpmEvents.PlatformEvent> := [
    HpmEvents.PlatformEvent(EventBranch, 3),
    HpmEvents.PlatformEvent(EventJal, 4),
    HpmEvents.PlatformEvent(EventJalr, 5),
    HpmEvents.PlatformEvent(EventAuipc, 6),
    HpmEvents.PlatformEvent(EventLoad, 7),
    HpmEvents.PlatformEvent(EventStore, 8),
    HpmEvents.PlatformEvent(EventLr, 9),
    HpmEvents.PlatformEvent(EventSc, 10),
    HpmEvents.PlatformEvent(EventAmo, 11),
    HpmEvents.PlatformEvent(EventShift, 12),
    HpmEvents.PlatformEvent(EventMulDiv, 13),
    HpmEvents.PlatformEvent(EventFp, 14),
    HpmEvents.PlatformEvent(EventFence, 18),
    HpmEvents.PlatformEvent(ELast, 0)
  ]

  /** The table ends with its terminator; before it, every model event appears once, with a distinct nonzero selector value. */
  lemma PlatformTableShape()
    ensures PlatformEventTable[|PlatformEventTable| - 1] == HpmEvents.PlatformEvent(ELast, 0)
    ensures var entries := PlatformEventTable[..|PlatformEventTable| - 1];
      && |entries| == ELast - 1
      && (forall k :: 0 <= k < |entries| ==> 0 < entries[k].event < ELast && entries[k].platId != 0)
      && (forall j, k :: 0 <= j < k < |entries| ==> entries[j].event != entries[k].event && entries[j].platId != entries[k].platId)
  {
    var entries := PlatformEventTable[..|PlatformEventTable| - 1];
    forall j, k | 0 <= j < k < |entries| ensures entries[j].event != entries[k].event && entries[j].platId != entries[k].platId {
      assert entries[j].event == j + 1 && entries[k].event == k + 1;
    }
  }

  /** A `WHEN_IS_<name>` test; each is listed under its instruction name. */
  datatype Pattern = Pattern(mask: bv64, value: bv64, rs2: Option<bv64>)

  const RMask: bv64 := 0xfe00707f
  const RRoundingMask: bv64 := 0xfe00007f
  const R4Mask: bv64 := 0x0600707f
  const R4RoundingMask: bv64 := 0x0600007f
  const IsbMask: bv64 := 0x0000707f
  const UjMask: bv64 := 0x0000007f
  /** The rs2 field, bits 24:20. */
  const Rs2Mask: bv64 := 0x01f00000

  predicate Matches(p: Pattern, inst: bv64)
  {
    inst & p.mask == p.value && (p.rs2.None? || inst & Rs2Mask == p.rs2.value << 20)
  }

  /** Some test of `patterns` matches `inst`. */
  predicate AnyMatch(patterns: seq<Pattern>, inst: bv64)
  {
    patterns != [] && (AnyMatch(patterns[..|patterns| - 1], inst) || Matches(patterns[|patterns| - 1], inst))
  }

  lemma {:induction false} AnyMatchSome(patterns: seq<Pattern>, inst: bv64)
    ensures AnyMatch(patterns, inst) <==> exists k :: 0 <= k < |patterns| && Matches(patterns[k], inst)
  {
    if patterns != [] {
      var n := |patterns| - 1;
      AnyMatchSome(patterns[..n], inst);
      if exists k :: 0 <= k < |patterns| && Matches(patterns[k], inst) {
        var k :| 0 <= k < |patterns| && Matches(patterns[k], inst);
        if k < n {
          assert patterns[..n][k] == patterns[k];
        }
      }
    }
  }

  /** The events a group of tests signals for `inst`. */
  function GroupEvents(events: seq<nat>, patterns: seq<Pattern>, inst: bv64): set<nat>
  {
    if AnyMatch(patterns, inst) then Elems(events) else {}
  }

  const Branches: seq<Pattern> := [
    Pattern(IsbMask, 0x00000063, None),  // BEQ
    Pattern(IsbMask, 0x00001063, None),  // BNE
    Pattern(IsbMask, 0x00004063, None),  // BLT
    Pattern(IsbMask, 0x00005063, None),  // BGE
    Pattern(IsbMask, 0x00006063, None),  // BLTU
    Pattern(IsbMask, 0x00007063, None)  // BGEU
  ]

  const Jals: seq<Pattern> := [
    Pattern(UjMask, 0x0000006f, None)  // JAL
  ]

  const Jalrs: seq<Pattern> := [
    Pattern(IsbMask, 0x00000067, None)  // JALR
  ]

  const Auipcs: seq<Pattern> := [
    Pattern(UjMask, 0x00000017, None)  // AUIPC
  ]

  const Loads: seq<Pattern> := [
    Pattern(IsbMask, 0x00000003, None),  // LB
    Pattern(IsbMask, 0x00001003, None),  // LH
    Pattern(IsbMask, 0x00002003, None),  // LW
    Pattern(IsbMask, 0x00003003, None),  // LD
    Pattern(IsbMask, 0x00004003, None),  // LBU
    Pattern(IsbMask, 0x00005003, None),  // LHU
    Pattern(IsbMask, 0x00006003, None)  // LWU
  ]

  const Stores: seq<Pattern> := [
    Pattern(IsbMask, 0x00000023, None),  // SB
    Pattern(IsbMask, 0x00001023, None),  // SH
    Pattern(IsbMask, 0x00002023, None),  // SW
    Pattern(IsbMask, 0x00003023, None)  // SD
  ]

  const Shifts: seq<Pattern> := [
    Pattern(RMask, 0x00001013, None),  // SLLI
    Pattern(RMask, 0x00005013, None),  // SRLI
    Pattern(RMask, 0x40005013, None),  // SRAI
    Pattern(RMask, 0x00001033, None),  // SLL
    Pattern(RMask, 0x00005033, None),  // SRL
    Pattern(RMask, 0x40005033, None)  // SRA
  ]

  const Fences: seq<Pattern> := [
    Pattern(IsbMask, 0x0000000f, None),  // FENCE
    Pattern(IsbMask, 0x0000100f, None)  // FENCE.I
  ]

  const MulDivs: seq<Pattern> := [
    Pattern(RMask, 0x02000033, None),  // MUL
    Pattern(RMask, 0x02001033, None),  // MULH
    Pattern(RMask, 0x02002033, None),  // MULHSU
    Pattern(RMask, 0x02003033, None),  // MULHU
    Pattern(RMask, 0x02004033, None),  // DIV
    Pattern(RMask, 0x02005033, None),  // DIVU
    Pattern(RMask, 0x02006033, None),  // REM
    Pattern(RMask, 0x02007033, None),  // REMU
    Pattern(RMask, 0x0200003b, None),  // MULW
    Pattern(RMask, 0x0200403b, None),  // DIVW
    Pattern(RMask, 0x0200503b, None),  // DIVUW
    Pattern(RMask, 0x0200603b, None),  // REMW
    Pattern(RMask, 0x0200703b, None)  // REMUW
  ]

  const LrWord: seq<Pattern> := [
    Pattern(RMask, 0x1000202f, Some(0))  // LR.W
  ]

  const ScWord: seq<Pattern> := [
    Pattern(RMask, 0x1800202f, Some(0))  // SC.W
  ]

  const AmoWord: seq<Pattern> := [
    Pattern(RMask, 0x0800202f, None),  // AMOSWAP.W
    Pattern(RMask, 0x0000202f, None),  // AMOADD.W
    Pattern(RMask, 0x2000202f, None),  // AMOXOR.W
    Pattern(RMask, 0x6000202f, None),  // AMOAND.W
    Pattern(RMask, 0x4000202f, None),  // AMOOR.W
    Pattern(RMask, 0x8000202f, None),  // AMOMIN.W
    Pattern(RMask, 0xa000202f, None),  // AMOMAX.W
    Pattern(RMask, 0xc000202f, None),  // AMOMINU.W
    Pattern(RMask, 0xe000202f, None)  // AMOMAXU.W
  ]

  const LrDouble: seq<Pattern> := [
    Pattern(RMask, 0x1000302f, None)  // LR.D
  ]

  const ScDouble: seq<Pattern> := [
    Pattern(RMask, 0x1800302f, None)  // SC.D
  ]

  const AmoDouble: seq<Pattern> := [
    Pattern(RMask, 0x0800302f, None),  // AMOSWAP.D
    Pattern(RMask, 0x0000302f, None),  // AMOADD.D
    Pattern(RMask, 0x2000302f, None),  // AMOXOR.D
    Pattern(RMask, 0x6000302f, None),  // AMOAND.D
    Pattern(RMask, 0x4000302f, None),  // AMOOR.D
    Pattern(RMask, 0x8000302f, None),  // AMOMIN.D
    Pattern(RMask, 0xa000302f, None),  // AMOMAX.D
    Pattern(RMask, 0xc000302f, None),  // AMOMINU.D
    Pattern(RMask, 0xe000302f, None)  // AMOMAXU.D
  ]

  const FloatOps: seq<Pattern> := [
    Pattern(IsbMask, 0x00002007, None),  // FLW
    Pattern(IsbMask, 0x00002027, None),  // FSW
    Pattern(R4RoundingMask, 0x00000043, None),  // FMADD.S
    Pattern(R4RoundingMask, 0x00000047, None),  // FMSUB.S
    Pattern(R4RoundingMask, 0x0000004b, None),  // FNMSUB.S
    Pattern(R4RoundingMask, 0x0000004f, None),  // FNMADD.S
    Pattern(RRoundingMask, 0x00000053, None),  // FADD.S
    Pattern(RRoundingMask, 0x08000053, None),  // FSUB.S
    Pattern(RRoundingMask, 0x10000053, None),  // FMUL.S
    Pattern(RRoundingMask, 0x18000053, None),  // FDIV.S
    Pattern(RRoundingMask, 0x58000053, Some(0)),  // FSQRT.S
    Pattern(RMask, 0x20000053, None),  // FSGNJ.S
    Pattern(RMask, 0x20001053, None),  // FSGNJN.S
    Pattern(RMask, 0x20002053, None),  // FSGNJX.S
    Pattern(RMask, 0x28000053, None),  // FMIN.S
    Pattern(RMask, 0x28001053, None),  // FMAX.S
    Pattern(RRoundingMask, 0xc0000053, Some(0)),  // FCVT.W.S
    Pattern(RRoundingMask, 0xc0000053, Some(1)),  // FCVT.WU.S
    Pattern(RMask, 0xe0000053, Some(0)),  // FMV.X.W
    Pattern(RMask, 0xa0002053, None),  // FEQ.S
    Pattern(RMask, 0xa0001053, None),  // FLT.S
    Pattern(RMask, 0xa0000053, None),  // FLE.S
    Pattern(RMask, 0xe0001053, None),  // FCLASS.S
    Pattern(RRoundingMask, 0xd0000053, Some(0)),  // FCVT.S.W
    Pattern(RRoundingMask, 0xd0000053, Some(1)),  // FCVT.S.WU
    Pattern(RMask, 0xf0000053, Some(0)),  // FMV.W.X
    Pattern(RRoundingMask, 0xc0000053, Some(2)),  // FCVT.L.S
    Pattern(RRoundingMask, 0xc0000053, Some(3)),  // FCVT.LU.S
    Pattern(RRoundingMask, 0xd0000053, Some(2)),  // FCVT.S.L
    Pattern(RRoundingMask, 0xd0000053, Some(3)),  // FCVT.S.LU
    Pattern(IsbMask, 0x00003007, None),  // FLD
    Pattern(IsbMask, 0x00003027, None),  // FSD
    Pattern(R4RoundingMask, 0x02000043, None),  // FMADD.D
    Pattern(R4RoundingMask, 0x02000047, None),  // FMSUB.D
    Pattern(R4RoundingMask, 0x0200004b, None),  // FNMSUB.D
    Pattern(R4RoundingMask, 0x0200004f, None),  // FNMADD.D
    Pattern(RRoundingMask, 0x02000053, None),  // FADD.D
    Pattern(RRoundingMask, 0x0a000053, None),  // FSUB.D
    Pattern(RRoundingMask, 0x12000053, None),  // FMUL.D
    Pattern(RRoundingMask, 0x1a000053, None),  // FDIV.D
    Pattern(RRoundingMask, 0x5a000053, Some(0)),  // FSQRT.D
    Pattern(RMask, 0x22000053, None),  // FSGNJ.D
    Pattern(RMask, 0x22001053, None),  // FSGNJN.D
    Pattern(RMask, 0x22002053, None),  // FSGNJX.D
    Pattern(RMask, 0x2a000053, None),  // FMIN.D
    Pattern(RMask, 0x2a001053, None),  // FMAX.D
    Pattern(RRoundingMask, 0x40000053, Some(1)),  // FCVT.S.D
    Pattern(RRoundingMask, 0x42000053, Some(0)),  // FCVT.D.S
    Pattern(RMask, 0xa2002053, None),  // FEQ.D
    Pattern(RMask, 0xa2001053, None),  // FLT.D
    Pattern(RMask, 0xa2000053, None),  // FLE.D
    Pattern(RMask, 0xe2001053, None),  // FCLASS.D
    Pattern(RRoundingMask, 0xc2000053, Some(0)),  // FCVT.W.D
    Pattern(RRoundingMask, 0xc2000053, Some(1)),  // FCVT.WU.D
    Pattern(RRoundingMask, 0xd2000053, Some(0)),  // FCVT.D.W
    Pattern(RRoundingMask, 0xd2000053, Some(1)),  // FCVT.D.WU
    Pattern(RRoundingMask, 0xc2000053, Some(2)),  // FCVT.L.D
    Pattern(RRoundingMask, 0xc2000053, Some(3)),  // FCVT.LU.D
    Pattern(RMask, 0xe2000053, None),  // FMV.X.D
    Pattern(RRoundingMask, 0xd2000053, Some(2)),  // FCVT.D.L
    Pattern(RRoundingMask, 0xd2000053, Some(3)),  // FCVT.D.LU
    Pattern(RMask, 0xf2000053, None)  // FMV.D.X
  ]
  /** The number of groups of tests. */
  const Groups: nat := 16

  /** The tests of group `g`, in the source's order. */
  function GroupPatterns(g: nat): seq<Pattern>
  {
    if g == 0 then Branches
    else if g == 1 then Jals
    else if g == 2 then Jalrs
    else if g == 3 then Auipcs
    else if g == 4 then Loads
    else if g == 5 then Stores
    else if g == 6 then Shifts
    else if g == 7 then Fences
    else if g == 8 then MulDivs
    else if g == 9 then LrWord
    else if g == 10 then ScWord
    else if g == 11 then AmoWord
    else if g == 12 then LrDouble
    else if g == 13 then ScDouble
    else if g == 14 then AmoDouble
    else FloatOps
  }

  /** The events a test of group `g` signals, in the order of its calls. */
  function GroupIds(g: nat): seq<nat>
  {
    if g == 0 then [EventBranch]
    else if g == 1 then [EventJal]
    else if g == 2 then [EventJalr]
    else if g == 3 then [EventAuipc]
    else if g == 4 then [EventLoad]
    else if g == 5 then [EventStore]
    else if g == 6 then [EventShift]
    else if g == 7 then [EventFence]
    else if g == 8 then [EventMulDiv]
    else if g == 9 then [EventLr, EventAmo]
    else if g == 10 then [EventSc, EventAmo]
    else if g == 11 then [EventAmo]
    else if g == 12 then [EventLr, EventAmo]
    else if g == 13 then [EventSc, EventAmo]
    else if g == 14 then [EventAmo]
    else [EventFp]
  }

  /** The events the first `n` groups signal for `inst`, group `g` signalling `ids(g)` when one of `patterns(g)` matches. */
  function SignalledBy(ids: nat -> seq<nat>, patterns: nat -> seq<Pattern>, inst: bv64, n: nat): set<nat>
  {
    if n == 0 then {}
    else SignalledBy(ids, patterns, inst, n - 1) + GroupEvents(ids(n - 1), patterns(n - 1), inst)
  }

  /** The model events `signal_platform_events` signals for the instruction `inst`. */
  function Signalled(inst: bv64): set<nat>
  {
    SignalledBy(GroupIds, GroupPatterns, inst, Groups)
  }

  /** An event is signalled exactly when some group that signals it has a matching test. */
  lemma {:induction false} SignalledWhen(ids: nat -> seq<nat>, patterns: nat -> seq<Pattern>, inst: bv64, n: nat, e: nat)
    ensures e in SignalledBy(ids, patterns, inst, n) <==> exists g :: 0 <= g < n && e in ids(g) && AnyMatch(patterns(g), inst)
  {
    if n > 0 {
      SignalledWhen(ids, patterns, inst, n - 1, e);
      if e in SignalledBy(ids, patterns, inst, n) && e !in SignalledBy(ids, patterns, inst, n - 1) {
        assert e in ids(n - 1) && AnyMatch(patterns(n - 1), inst);
      }
    }
  }

  /** An event only one group signals is signalled exactly when that group matches. */
  lemma SignalledByOne(ids: nat -> seq<nat>, patterns: nat -> seq<Pattern>, inst: bv64, n: nat, e: nat, k: nat)
    requires k < n && e in ids(k)
    requires forall g :: 0 <= g < n && e in ids(g) ==> g == k
    ensures e in SignalledBy(ids, patterns, inst, n) <==> AnyMatch(patterns(k), inst)
  {
    SignalledWhen(ids, patterns, inst, n, e);
  }

  /** An event exactly two groups signal is signalled exactly when one of them matches. */
  lemma SignalledByTwo(ids: nat -> seq<nat>, patterns: nat -> seq<Pattern>, inst: bv64, n: nat, e: nat, k1: nat, k2: nat)
    requires k1 < n && e in ids(k1) && k2 < n && e in ids(k2)
    requires forall g :: 0 <= g < n && e in ids(g) ==> g == k1 || g == k2
    ensures e in SignalledBy(ids, patterns, inst, n) <==> AnyMatch(patterns(k1), inst) || AnyMatch(patterns(k2), inst)
  {
    SignalledWhen(ids, patterns, inst, n, e);
  }

  /** A group that signals `e` and matches signals it. */
  lemma SignalledByHit(ids: nat -> seq<nat>, patterns: nat -> seq<Pattern>, inst: bv64, n: nat, e: nat, k: nat)
    requires k < n && e in ids(k) && AnyMatch(patterns(k), inst)
    ensures e in SignalledBy(ids, patterns, inst, n)
  {
    SignalledWhen(ids, patterns, inst, n, e);
  }

  /** Which groups signal the events the lemmas below are about. */
  lemma GroupsSignalling(g: nat)
    requires g < Groups
    ensures EventBranch in GroupIds(g) <==> g == 0
    ensures EventLoad in GroupIds(g) <==> g == 4
    ensures EventStore in GroupIds(g) <==> g == 5
    ensures EventFence in GroupIds(g) <==> g == 7
    ensures EventLr in GroupIds(g) <==> g == 9 || g == 12
    ensures EventSc in GroupIds(g) <==> g == 10 || g == 13
    ensures EventAmo in GroupIds(g) <==> 9 <= g <= 14
  {
  }

  /** The funct3 field, bits 14:12. */
  function Funct3(inst: bv64): bv64
  {
    (inst >> 12) & 7
  }

  lemma SplitIsb(inst: bv64)
    ensures inst & IsbMask == (inst & 0x7f) | (Funct3(inst) << 12)
  {
  }

  /** Exactly the six conditional branches signal a branch: opcode 0x63 with funct3 other than 2 and 3. */
  lemma BranchIff(inst: bv64)
    ensures EventBranch in Signalled(inst) <==> inst & 0x7f == 0x63 && Funct3(inst) in {0, 1, 4, 5, 6, 7}
  {
    BranchesMatch(inst);
    forall g | 0 <= g < Groups && EventBranch in GroupIds(g) ensures g == 0 {
      GroupsSignalling(g);
    }
    SignalledByOne(GroupIds, GroupPatterns, inst, Groups, EventBranch, 0);
    assert GroupPatterns(0) == Branches;
  }

  lemma BranchesMatch(inst: bv64)
    ensures AnyMatch(Branches, inst) <==> inst & 0x7f == 0x63 && Funct3(inst) in {0, 1, 4, 5, 6, 7}
  {
    SplitIsb(inst);
    AnyMatchSome(Branches, inst);
    if AnyMatch(Branches, inst) {
      var k :| 0 <= k < |Branches| && Matches(Branches[k], inst);
      assert k in {0, 1, 2, 3, 4, 5};
    } else {
      assert !Matches(Branches[0], inst) && !Matches(Branches[1], inst) && !Matches(Branches[2], inst);
      assert !Matches(Branches[3], inst) && !Matches(Branches[4], inst) && !Matches(Branches[5], inst);
    }
  }

  /** The loads are opcode 0x03 with funct3 0 to 6 (LB, LH, LW, LD, LBU, LHU, LWU). */
  lemma LoadIff(inst: bv64)
    ensures EventLoad in Signalled(inst) <==> inst & 0x7f == 0x03 && Funct3(inst) <= 6
  {
    LoadsMatch(inst);
    forall g | 0 <= g < Groups && EventLoad in GroupIds(g) ensures g == 4 {
      GroupsSignalling(g);
    }
    SignalledByOne(GroupIds, GroupPatterns, inst, Groups, EventLoad, 4);
    assert GroupPatterns(4) == Loads;
  }

  lemma LoadsMatch(inst: bv64)
    ensures AnyMatch(Loads, inst) <==> inst & 0x7f == 0x03 && Funct3(inst) <= 6
  {
    SplitIsb(inst);
    AnyMatchSome(Loads, inst);
    if AnyMatch(Loads, inst) {
      var k :| 0 <= k < |Loads| && Matches(Loads[k], inst);
      assert k in {0, 1, 2, 3, 4, 5, 6};
    } else {
      assert !Matches(Loads[0], inst) && !Matches(Loads[1], inst) && !Matches(Loads[2], inst) && !Matches(Loads[3], inst);
      assert !Matches(Loads[4], inst) && !Matches(Loads[5], inst) && !Matches(Loads[6], inst);
    }
  }

  /** The stores are opcode 0x23 with funct3 0 to 3 (SB, SH, SW, SD). */
  lemma StoreIff(inst: bv64)
    ensures EventStore in Signalled(inst) <==> inst & 0x7f == 0x23 && Funct3(inst) <= 3
  {
    StoresMatch(inst);
    forall g | 0 <= g < Groups && EventStore in GroupIds(g) ensures g == 5 {
      GroupsSignalling(g);
    }
    SignalledByOne(GroupIds, GroupPatterns, inst, Groups, EventStore, 5);
    assert GroupPatterns(5) == Stores;
  }

  lemma StoresMatch(inst: bv64)
    ensures AnyMatch(Stores, inst) <==> inst & 0x7f == 0x23 && Funct3(inst) <= 3
  {
    SplitIsb(inst);
    AnyMatchSome(Stores, inst);
    if AnyMatch(Stores, inst) {
      var k :| 0 <= k < |Stores| && Matches(Stores[k], inst);
      assert k in {0, 1, 2, 3};
    } else {
      assert !Matches(Stores[0], inst) && !Matches(Stores[1], inst) && !Matches(Stores[2], inst) && !Matches(Stores[3], inst);
    }
  }

  /** FENCE and FENCE.I both count as a fence, and nothing else does. */
  lemma FenceIff(inst: bv64)
    ensures EventFence in Signalled(inst) <==> inst & IsbMask == 0x0f || inst & IsbMask == 0x100f
  {
    FencesMatch(inst);
    forall g | 0 <= g < Groups && EventFence in GroupIds(g) ensures g == 7 {
      GroupsSignalling(g);
    }
    SignalledByOne(GroupIds, GroupPatterns, inst, Groups, EventFence, 7);
    assert GroupPatterns(7) == Fences;
  }

  lemma FencesMatch(inst: bv64)
    ensures AnyMatch(Fences, inst) <==> inst & IsbMask == 0x0f || inst & IsbMask == 0x100f
  {
    AnyMatchSome(Fences, inst);
    if AnyMatch(Fences, inst) {
      var k :| 0 <= k < |Fences| && Matches(Fences[k], inst);
      assert k in {0, 1};
    } else {
      assert !Matches(Fences[0], inst) && !Matches(Fences[1], inst);
    }
  }

  /** Every load-reserved also counts as an atomic. */
  lemma LrIsAtomic(inst: bv64)
    ensures EventLr in Signalled(inst) ==> EventAmo in Signalled(inst)
  {
    forall g | 0 <= g < Groups && EventLr in GroupIds(g) ensures g == 9 || g == 12 {
      GroupsSignalling(g);
    }
    SignalledByTwo(GroupIds, GroupPatterns, inst, Groups, EventLr, 9, 12);
    if AnyMatch(GroupPatterns(9), inst) {
      SignalledByHit(GroupIds, GroupPatterns, inst, Groups, EventAmo, 9);
    } else if AnyMatch(GroupPatterns(12), inst) {
      SignalledByHit(GroupIds, GroupPatterns, inst, Groups, EventAmo, 12);
    }
  }

  /** Every store-conditional also counts as an atomic. */
  lemma ScIsAtomic(inst: bv64)
    ensures EventSc in Signalled(inst) ==> EventAmo in Signalled(inst)
  {
    forall g | 0 <= g < Groups && EventSc in GroupIds(g) ensures g == 10 || g == 13 {
      GroupsSignalling(g);
    }
    SignalledByTwo(GroupIds, GroupPatterns, inst, Groups, EventSc, 10, 13);
    if AnyMatch(GroupPatterns(10), inst) {
      SignalledByHit(GroupIds, GroupPatterns, inst, Groups, EventAmo, 10);
    } else if AnyMatch(GroupPatterns(13), inst) {
      SignalledByHit(GroupIds, GroupPatterns, inst, Groups, EventAmo, 13);
    }
  }

  /**
   * LR.W is recognised only with rs2 = 0, while LR.D is recognised
   * whatever rs2 holds: the same encodings with rs2 = 1 differ.
   */
  lemma LrWordChecksRs2()
    ensures EventLr !in Signalled(0x1010202f)
  {
    forall g | 0 <= g < Groups && EventLr in GroupIds(g) ensures g == 9 || g == 12 {
      GroupsSignalling(g);
    }
    SignalledByTwo(GroupIds, GroupPatterns, 0x1010202f, Groups, EventLr, 9, 12);
    assert GroupPatterns(9) == LrWord && GroupPatterns(12) == LrDouble;
    AnyMatchSome(LrWord, 0x1010202f);
    AnyMatchSome(LrDouble, 0x1010202f);
    assert !Matches(LrWord[0], 0x1010202f) && !Matches(LrDouble[0], 0x1010202f);
  }

  lemma LrDoubleIgnoresRs2()
    ensures EventLr in Signalled(0x1010302f)
  {
    GroupsSignalling(12);
    assert GroupPatterns(12) == LrDouble;
    AnyMatchSome(LrDouble, 0x1010302f);
    assert Matches(LrDouble[0], 0x1010302f);
    SignalledByHit(GroupIds, GroupPatterns, 0x1010302f, Groups, EventLr, 12);
  }

  /** The elements of a sequence of ids. */
  function Elems(ids: seq<nat>): (r: set<nat>)
    ensures forall i :: i in r <==> i in ids
  {
    if ids == [] then {} else Elems(ids[..|ids| - 1]) + {ids[|ids| - 1]}
  }

  /** Every bit of `now` is the bit of `base`, or set for an id in `ids`. */
  ghost predicate Raised(now: nat, base: nat, ids: set<nat>)
  {
    forall i: nat :: Bit(now, i) == (Bit(base, i) || i in ids)
  }

  /** The signal calls of one matching test, in order. */
  method SignalAll(h: HpmEvents.Hpm, events: seq<nat>, ghost base: nat, ghost acc: set<nat>)
    requires h.Valid() && forall e :: e in events ==> e < h.eLast
    requires Raised(h.eventset, base, acc)
    modifies h
    ensures h.Valid() && Raised(h.eventset, base, acc + Elems(events))
    ensures h.eventMap == old(h.eventMap) && h.usable == old(h.usable) && h.counters == old(h.counters)
    ensures h.selectors == old(h.selectors) && h.inhibit == old(h.inhibit)
  {
    for j := 0 to |events|
      invariant h.Valid() && Raised(h.eventset, base, acc + Elems(events[..j]))
      invariant h.eventMap == old(h.eventMap) && h.usable == old(h.usable) && h.counters == old(h.counters)
      invariant h.selectors == old(h.selectors) && h.inhibit == old(h.inhibit)
    {
      ghost var before := h.eventset;
      assert events[j] in events;
      h.SignalEvent(events[j]);
      HpmEvents.SignalSetsBit(before, events[j]);
      assert Elems(events[..j + 1]) == Elems(events[..j]) + {events[j]} by {
        assert events[..j + 1] == events[..j] + [events[j]];
      }
    }
    assert events[..|events|] == events;
  }

  /** A run of consecutive tests that signal the same events. */
  method SignalGroup(h: HpmEvents.Hpm, events: seq<nat>, patterns: seq<Pattern>, inst: bv64, ghost base: nat, ghost acc: set<nat>)
    requires h.Valid() && forall e :: e in events ==> e < h.eLast
    requires Raised(h.eventset, base, acc)
    modifies h
    ensures h.Valid() && Raised(h.eventset, base, acc + GroupEvents(events, patterns, inst))
    ensures h.eventMap == old(h.eventMap) && h.usable == old(h.usable) && h.counters == old(h.counters)
    ensures h.selectors == old(h.selectors) && h.inhibit == old(h.inhibit)
  {
    for k := 0 to |patterns|
      invariant h.Valid() && Raised(h.eventset, base, acc + GroupEvents(events, patterns[..k], inst))
      invariant h.eventMap == old(h.eventMap) && h.usable == old(h.usable) && h.counters == old(h.counters)
      invariant h.selectors == old(h.selectors) && h.inhibit == old(h.inhibit)
    {
      ghost var sofar := acc + GroupEvents(events, patterns[..k], inst);
      assert patterns[..k + 1][..k] == patterns[..k];
      if Matches(patterns[k], inst) {
        SignalAll(h, events, base, sofar);
      }
    }
    assert patterns[..|patterns|] == patterns;
  }

  /**
   * signal_platform_events: every test in the source's order; the event
   * set gains exactly the bits of the events `Signalled` names.
   */
  method SignalPlatformEvents(h: HpmEvents.Hpm, inst: bv64)
    requires h.Valid() && h.eLast == ELast
    modifies h
    ensures h.Valid() && forall i: nat :: Bit(h.eventset, i) == (Bit(old(h.eventset), i) || i in Signalled(inst))
    ensures h.eventMap == old(h.eventMap) && h.usable == old(h.usable) && h.counters == old(h.counters)
    ensures h.selectors == old(h.selectors) && h.inhibit == old(h.inhibit)
  {
    ghost var base := h.eventset;
    for g := 0 to Groups
      invariant h.Valid() && h.eLast == ELast && Raised(h.eventset, base, SignalledBy(GroupIds, GroupPatterns, inst, g))
      invariant h.eventMap == old(h.eventMap) && h.usable == old(h.usable) && h.counters == old(h.counters)
      invariant h.selectors == old(h.selectors) && h.inhibit == old(h.inhibit)
    {
      SignalGroup(h, GroupIds(g), GroupPatterns(g), inst, base, SignalledBy(GroupIds, GroupPatterns, inst, g));
    }
  }
}
