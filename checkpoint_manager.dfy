/**
 * The checkpoint manager (`checkpoint_manager.cpp`): a list of named
 * conditions, each watching one kind of event, and the step, PC, memory,
 * register, CSR and trap callbacks that fire them and ask the snapshot
 * manager for a checkpoint file.
 *
 * The condition list is a class field; a callback returns the snapshot
 * requests it made, in order. Whether creating a snapshot succeeds is the
 * parameter `failing`: the requests whose creation fails.
 */
module CheckpointManager {
  import opened Wrappers
  import opened SnapshotFormat

  // ------------------------------------------------------------ conditions

  datatype ConditionType =
    | InstructionCountType | PcValueType | PcRangeType | MemoryReadType | MemoryWriteType
    | MemoryRangeType | RegisterWriteType | CsrWriteType | CsrReadType | TrapType

  /** A condition's type together with the member of the parameter union that type uses. */
  datatype Kind =
    | InstructionCount(interval: nat)
    | PcValue(pc: nat)
    | PcRange(pcStart: nat, pcEnd: nat)
    | MemoryRead(address: nat)
    | MemoryWrite(address: nat)
    | MemoryRange(start: nat, end: nat)
    | RegisterWrite(regIndex: nat, isFreg: bool)
    | CsrWrite(csrAddr: nat)
    | CsrRead(csrAddr: nat)
    | Trap

  function TypeOf(k: Kind): ConditionType
  {
    match k
    case InstructionCount(_) => InstructionCountType
    case PcValue(_) => PcValueType
    case PcRange(_, _) => PcRangeType
    case MemoryRead(_) => MemoryReadType
    case MemoryWrite(_) => MemoryWriteType
    case MemoryRange(_, _) => MemoryRangeType
    case RegisterWrite(_, _) => RegisterWriteType
    case CsrWrite(_) => CsrWriteType
    case CsrRead(_) => CsrReadType
    case Trap => TrapType
  }

  datatype Condition = Condition(name: string, kind: Kind, snapshotDir: string, snapshotPrefix: string,
                                 autoIncrement: bool, triggerCount: nat, lastCount: nat)

  predicate DistinctNames(cs: seq<Condition>)
  {
    forall i, j :: 0 <= i < j < |cs| ==> cs[i].name != cs[j].name
  }

  function Names(cs: seq<Condition>): (s: set<string>)
    ensures forall i :: 0 <= i < |cs| ==> cs[i].name in s
  {
    if cs == [] then {} else Names(cs[..|cs| - 1]) + {cs[|cs| - 1].name}
  }

  /** `remove_if` on the name: the other conditions, in their order. */
  function Without(cs: seq<Condition>, name: string): (r: seq<Condition>)
    ensures |r| <= |cs|
  {
    if cs == [] then []
    else Without(cs[..|cs| - 1], name) + (if cs[|cs| - 1].name == name then [] else [cs[|cs| - 1]])
  }

  /** Removing a name keeps exactly the conditions with another name. */
  lemma {:induction false} WithoutMembers(cs: seq<Condition>, name: string)
    ensures forall c :: c in Without(cs, name) <==> c in cs && c.name != name
    decreases |cs|
  {
    if cs != [] {
      var p := cs[..|cs| - 1];
      WithoutMembers(p, name);
      assert cs == p + [cs[|cs| - 1]];
    }
  }

  /** Removing a name no condition has changes nothing. */
  lemma {:induction false} WithoutNone(cs: seq<Condition>, name: string)
    requires forall j :: 0 <= j < |cs| ==> cs[j].name != name
    ensures Without(cs, name) == cs
    decreases |cs|
  {
    if cs != [] {
      var p := cs[..|cs| - 1];
      WithoutNone(p, name);
      assert cs == p + [cs[|cs| - 1]];
    }
  }

  /** Removing a name twice is removing it once. */
  lemma WithoutTwice(cs: seq<Condition>, name: string)
    ensures Without(Without(cs, name), name) == Without(cs, name)
  {
    var w := Without(cs, name);
    WithoutMembers(cs, name);
    assert forall j :: 0 <= j < |w| ==> w[j] in w;
    WithoutNone(w, name);
  }

  /** A removal keeps names distinct. */
  lemma {:induction false} WithoutDistinct(cs: seq<Condition>, name: string)
    requires DistinctNames(cs)
    ensures DistinctNames(Without(cs, name))
    decreases |cs|
  {
    if cs != [] {
      var p := cs[..|cs| - 1];
      var last := cs[|cs| - 1];
      WithoutDistinct(p, name);
      if last.name != name {
        var w := Without(p, name);
        WithoutMembers(p, name);
        forall j | 0 <= j < |w|
          ensures w[j].name != last.name
        {
          assert w[j] in p;
          var k :| 0 <= k < |p| && p[k] == w[j];
          assert cs[k] == p[k];
        }
      }
    }
  }

  /** `get_condition_stats`: each name mapped to its trigger count, a later entry overwriting an earlier one. */
  function Stats(cs: seq<Condition>): (m: map<string, nat>)
    ensures m.Keys == Names(cs)
  {
    if cs == [] then map[] else Stats(cs[..|cs| - 1])[cs[|cs| - 1].name := cs[|cs| - 1].triggerCount]
  }

  /** With distinct names, the statistics give every condition its own trigger count. */
  lemma {:induction false} StatsOfDistinct(cs: seq<Condition>, i: nat)
    requires DistinctNames(cs) && i < |cs|
    ensures cs[i].name in Stats(cs) && Stats(cs)[cs[i].name] == cs[i].triggerCount
    decreases |cs|
  {
    if i < |cs| - 1 {
      StatsOfDistinct(cs[..|cs| - 1], i);
    }
  }

  // ---------------------------------------------------------------- triggers

  /** The arguments of `check_conditions`: a type, a value and a register index. */
  datatype Trigger = Trigger(kind: ConditionType, value: nat, reg: nat)

  /**
   * `check_conditions`' test on one condition: same type, then the register
   * index for register writes, the address for CSR accesses and single
   * memory addresses, and nothing more for any other type.
   */
  predicate Matches(k: Kind, t: Trigger)
  {
    match k
    case InstructionCount(_) => t.kind == InstructionCountType
    case PcValue(_) => t.kind == PcValueType
    case PcRange(_, _) => t.kind == PcRangeType
    case MemoryRead(a) => t.kind == MemoryReadType && t.value == a
    case MemoryWrite(a) => t.kind == MemoryWriteType && t.value == a
    case MemoryRange(_, _) => t.kind == MemoryRangeType
    case RegisterWrite(r, _) => t.kind == RegisterWriteType && t.reg == r
    case CsrWrite(a) => t.kind == CsrWriteType && t.value == a
    case CsrRead(a) => t.kind == CsrReadType && t.value == a
    case Trap => t.kind == TrapType
  }

  /**
   * A request to the snapshot manager, made for a condition whose count was
   * just raised: what `create_checkpoint_snapshot` reads of the condition.
   */
  datatype Request = Request(name: string, snapshotDir: string, snapshotPrefix: string, autoIncrement: bool,
                             triggerCount: nat)

  /** Six digits at least, zero-filled on the left (`setw(6)` with `setfill('0')`). */
  function Pad6(s: string): (p: string)
    ensures |p| >= 6 && |p| >= |s| && p[|p| - |s|..] == s
    ensures forall i :: 0 <= i < |p| - |s| ==> p[i] == '0'
  {
    if |s| >= 6 then s else ZeroFill(6 - |s|) + s
  }

  function ZeroFill(k: nat): (z: string)
    ensures |z| == k && forall i :: 0 <= i < k ==> z[i] == '0'
  {
    if k == 0 then [] else ZeroFill(k - 1) + ['0']
  }

  /** The part of the file name before the count: the prefix, or "checkpoint_" and the name. */
  function FileStem(c: Request): string
  {
    if c.snapshotPrefix != "" then c.snapshotPrefix else "checkpoint_" + c.name
  }

  /** `generate_snapshot_filename`. */
  function FileName(c: Request): (f: string)
    ensures |f| >= |FileStem(c)| + 9 && f[..|FileStem(c)|] == FileStem(c) && f[|f| - 9..] == ".snapshot"
  {
    if c.autoIncrement then FileStem(c) + "_" + Pad6(Decimal(c.triggerCount)) + ".snapshot"
    else FileStem(c) + ".snapshot"
  }

  /** Leading zeros do not change a decimal value. */
  lemma {:induction false} ZerosValue(z: string, s: string)
    requires forall i :: 0 <= i < |z| ==> z[i] == '0'
    requires forall i :: 0 <= i < |s| ==> IsDigit(s[i])
    ensures forall i :: 0 <= i < |z + s| ==> IsDigit((z + s)[i])
    ensures DecimalValue(z + s) == DecimalValue(s)
    decreases |s|
  {
    if s == [] {
      assert z + s == z;
      ZerosOnly(z);
    } else {
      var p := s[..|s| - 1];
      ZerosValue(z, p);
      assert (z + s)[..|z + s| - 1] == z + p;
    }
  }

  lemma {:induction false} ZerosOnly(z: string)
    requires forall i :: 0 <= i < |z| ==> z[i] == '0'
    ensures forall i :: 0 <= i < |z| ==> IsDigit(z[i])
    ensures DecimalValue(z) == 0
    decreases |z|
  {
    if z != [] {
      ZerosOnly(z[..|z| - 1]);
    }
  }

  /** The padded count still reads back as the count. */
  lemma PadValue(n: nat)
    ensures forall i :: 0 <= i < |Pad6(Decimal(n))| ==> IsDigit(Pad6(Decimal(n))[i])
    ensures DecimalValue(Pad6(Decimal(n))) == n
  {
    var s := Decimal(n);
    if |s| < 6 {
      var z := ZeroFill(6 - |s|);
      assert Pad6(s) == z + s;
      ZerosValue(z, s);
    } else {
      assert Pad6(s) == s;
    }
  }

  /**
   * With auto-increment on, a condition's checkpoints at different trigger
   * counts get different file names; with it off, every checkpoint of the
   * condition has the same name and overwrites the previous one.
   */
  lemma FileNamesDistinct(c: Request, m: nat, n: nat)
    ensures c.autoIncrement ==>
              (FileName(c.(triggerCount := m)) == FileName(c.(triggerCount := n)) <==> m == n)
    ensures !c.autoIncrement ==> FileName(c.(triggerCount := m)) == FileName(c.(triggerCount := n))
  {
    var cm, cn := c.(triggerCount := m), c.(triggerCount := n);
    assert FileStem(cm) == FileStem(c) == FileStem(cn);
    if c.autoIncrement && FileName(cm) == FileName(cn) {
      var a := FileStem(c) + "_";
      var x := Pad6(Decimal(m));
      var y := Pad6(Decimal(n));
      var b := ".snapshot";
      assert FileName(cm) == a + x + b;
      assert FileName(cn) == a + y + b;
      assert |x| == |y|;
      assert (a + x + b)[|a|..|a| + |x|] == x;
      assert (a + y + b)[|a|..|a| + |y|] == y;
      PadValue(m);
      PadValue(n);
    }
  }

  /** `dir / filename`, or the bare file name when no directory is set. */
  function JoinPath(dir: string, name: string): (p: string)
    ensures dir == "" ==> p == name
    ensures dir != "" ==> |p| >= |dir| + |name| && p[..|dir|] == dir && p[|p| - |name|..] == name
  {
    if dir == "" then name
    else if dir[|dir| - 1] == '/' then dir + name
    else dir + "/" + name
  }

  function RequestFor(c: Condition): Request
  {
    Request(c.name, c.snapshotDir, c.snapshotPrefix, c.autoIncrement, c.triggerCount)
  }

  /** `create_checkpoint_snapshot`'s path: the file name, in the condition's directory if it has one. */
  function SnapshotPath(r: Request): string
  {
    JoinPath(r.snapshotDir, FileName(r))
  }

  /** The reason passed to `create_snapshot`, with the raised trigger count. */
  function Reason(r: Request): string
  {
    "Checkpoint: " + r.name + " (trigger #" + Decimal(r.triggerCount) + ")"
  }

  /** The notes passed to `create_snapshot`. */
  function Notes(r: Request): string
  {
    "Auto-generated checkpoint: " + r.name
  }

  /** The conditions after one `check_conditions` call and the requests it made. */
  datatype Outcome = Outcome(conds: seq<Condition>, requests: seq<Request>)

  /** One condition's part in `check_conditions`. */
  function FireOne(c: Condition, t: Trigger): Condition
  {
    if Matches(c.kind, t) then c.(triggerCount := c.triggerCount + 1) else c
  }

  /** The conditions after a `check_conditions` call: each one handled on its own. */
  function FireAll(cs: seq<Condition>, t: Trigger): (r: seq<Condition>)
    ensures |r| == |cs| && forall j :: 0 <= j < |cs| ==> r[j] == FireOne(cs[j], t)
  {
    seq(|cs|, j requires 0 <= j < |cs| => FireOne(cs[j], t))
  }

  /** The requests of a `check_conditions` call: one per matching condition, in list order. */
  function FireRequests(cs: seq<Condition>, t: Trigger): (rs: seq<Request>)
    ensures |rs| <= |cs|
  {
    Requested(cs, t, |cs|)
  }

  /** The requests made by the first `n` conditions. */
  function Requested(cs: seq<Condition>, t: Trigger, n: nat): (rs: seq<Request>)
    requires n <= |cs|
    ensures |rs| <= n
  {
    if n == 0 then []
    else Requested(cs, t, n - 1) + if Matches(cs[n - 1].kind, t) then [RequestFor(FireOne(cs[n - 1], t))] else []
  }

  /** The number of requests whose snapshot is created. */
  function Created(rs: seq<Request>, failing: set<Request>): (n: nat)
    ensures n <= |rs|
  {
    if rs == [] then 0
    else Created(rs[..|rs| - 1], failing) + if rs[|rs| - 1] in failing then 0 else 1
  }

  lemma CreatedSnoc(rs: seq<Request>, r: Request, failing: set<Request>)
    ensures Created(rs + [r], failing) == Created(rs, failing) + if r in failing then 0 else 1
  {
    assert (rs + [r])[..|rs|] == rs;
  }

  lemma {:induction false} CreatedAppend(a: seq<Request>, b: seq<Request>, failing: set<Request>)
    ensures Created(a + b, failing) == Created(a, failing) + Created(b, failing)
    decreases |b|
  {
    if b == [] {
      assert a + b == a;
    } else {
      var p := b[..|b| - 1];
      CreatedAppend(a, p, failing);
      assert (a + b)[..|a + b| - 1] == a + p;
    }
  }

  // ------------------------------------------------------------ the callbacks

  /** The events the callbacks receive. */
  datatype Event =
    | PcEvent(pc: nat)
    | MemReadEvent(addr: nat)
    | MemWriteEvent(addr: nat)
    | XregWriteEvent(xreg: nat)
    | FregWriteEvent(freg: nat)
    | CsrWriteEvent(csr: nat)
    | CsrReadEvent(csr: nat)
    | TrapEvent(cause: nat)

  /**
   * The outer loop of a callback: the `check_conditions` call a condition
   * makes for an event, if it watches it. PC and range checks are inclusive
   * at both ends.
   */
  function Watch(k: Kind, e: Event): (r: Option<Trigger>)
    ensures r.Some? ==> r.value.kind == TypeOf(k)
  {
    match e
    case PcEvent(pc) =>
      if k.PcValue? && pc == k.pc then Some(Trigger(PcValueType, pc, 0))
      else if k.PcRange? && k.pcStart <= pc <= k.pcEnd then Some(Trigger(PcRangeType, pc, 0))
      else None
    case MemReadEvent(a) =>
      if k.MemoryRead? && a == k.address then Some(Trigger(MemoryReadType, a, 0))
      else if k.MemoryRange? && k.start <= a <= k.end then Some(Trigger(MemoryRangeType, a, 0))
      else None
    case MemWriteEvent(a) =>
      if k.MemoryWrite? && a == k.address then Some(Trigger(MemoryWriteType, a, 0))
      else if k.MemoryRange? && k.start <= a <= k.end then Some(Trigger(MemoryRangeType, a, 0))
      else None
    case XregWriteEvent(r) =>
      if k.RegisterWrite? && !k.isFreg && r == k.regIndex then Some(Trigger(RegisterWriteType, 0, r)) else None
    case FregWriteEvent(r) =>
      if k.RegisterWrite? && k.isFreg && r == k.regIndex then Some(Trigger(RegisterWriteType, 0, r)) else None
    case CsrWriteEvent(r) =>
      if k.CsrWrite? && r == k.csrAddr then Some(Trigger(CsrWriteType, r, 0)) else None
    case CsrReadEvent(r) =>
      if k.CsrRead? && r == k.csrAddr then Some(Trigger(CsrReadType, r, 0)) else None
    case TrapEvent(cause) =>
      if k.Trap? then Some(Trigger(TrapType, cause, 0)) else None
  }

  /** A watching condition always matches the call it makes. */
  lemma WatchedMatches(c: Condition, e: Event)
    requires Watch(c.kind, e).Some?
    ensures Matches(c.kind, Watch(c.kind, e).value)
  {
  }

  /** The calls the outer loop makes, in list order. */
  function WatchTriggers(cs: seq<Condition>, e: Event): (ts: seq<Trigger>)
    ensures |ts| <= |cs|
  {
    if cs == [] then []
    else WatchTriggers(cs[..|cs| - 1], e) +
         match Watch(cs[|cs| - 1].kind, e) case Some(t) => [t] case None => []
  }

  /** The calls `ts`, one after another. */
  function Scan(cs: seq<Condition>, ts: seq<Trigger>): (o: Outcome)
    ensures |o.conds| == |cs|
  {
    if ts == [] then Outcome(cs, [])
    else
      var p := Scan(cs, ts[..|ts| - 1]);
      var t := ts[|ts| - 1];
      Outcome(FireAll(p.conds, t), p.requests + FireRequests(p.conds, t))
  }

  /** The number of calls in `ts` a condition matches. */
  function Hits(c: Condition, ts: seq<Trigger>): (n: nat)
    ensures n <= |ts|
  {
    if ts == [] then 0 else Hits(c, ts[..|ts| - 1]) + if Matches(c.kind, ts[|ts| - 1]) then 1 else 0
  }

  /**
   * After a run of calls every condition has the same setup as before and
   * its count has risen by the number of calls it matches.
   */
  lemma {:induction false} ScanEffect(cs: seq<Condition>, ts: seq<Trigger>, j: nat)
    requires j < |cs|
    ensures Scan(cs, ts).conds[j] == cs[j].(triggerCount := cs[j].triggerCount + Hits(cs[j], ts))
    decreases |ts|
  {
    if ts != [] {
      var p := Scan(cs, ts[..|ts| - 1]);
      ScanEffect(cs, ts[..|ts| - 1], j);
    }
  }

  /** Two more calls extend a run as expected. */
  lemma ScanSnoc(cs: seq<Condition>, ts: seq<Trigger>, t: Trigger)
    ensures Scan(cs, ts + [t]) ==
            Outcome(FireAll(Scan(cs, ts).conds, t), Scan(cs, ts).requests + FireRequests(Scan(cs, ts).conds, t))
  {
    assert (ts + [t])[..|ts + [t]| - 1] == ts;
  }

  /** The loop of a callback (`pc_write_callback` .. `trap_callback`, and the PC part of post-step). */
  function Respond(cs: seq<Condition>, e: Event): Outcome
  {
    Scan(cs, WatchTriggers(cs, e))
  }

  /**
   * As written, a PC_VALUE condition fires when the PC reaches another
   * condition's value: the call that condition makes checks no value, so
   * every PC_VALUE condition is counted.
   */
  lemma CrossFire()
    ensures var a := Condition("a", PcValue(0x100), "", "", false, 0, 0);
            var b := Condition("b", PcValue(0x200), "", "", false, 0, 0);
            var o := Respond([a, b], PcEvent(0x100));
            o.conds[0].triggerCount == 1 && o.conds[1].triggerCount == 1
  {
    var a := Condition("a", PcValue(0x100), "", "", false, 0, 0);
    var b := Condition("b", PcValue(0x200), "", "", false, 0, 0);
    var cs := [a, b];
    var e := PcEvent(0x100);
    var t := Trigger(PcValueType, 0x100, 0);
    assert WatchTriggers([a], e) == [t] by {
      assert [a][..0] == [];
    }
    assert WatchTriggers(cs, e) == [t] by {
      assert cs[..1] == [a];
    }
    ScanEffect(cs, [t], 0);
    ScanEffect(cs, [t], 1);
    assert [t][..0] == [];
  }

  /** As written, two trap conditions each fire twice on one trap: each makes a call that counts both. */
  lemma DoubleFire()
    ensures var a := Condition("a", Trap, "", "", false, 0, 0);
            var b := Condition("b", Trap, "", "", false, 0, 0);
            var o := Respond([a, b], TrapEvent(2));
            o.conds[0].triggerCount == 2 && o.conds[1].triggerCount == 2
  {
    var a := Condition("a", Trap, "", "", false, 0, 0);
    var b := Condition("b", Trap, "", "", false, 0, 0);
    var t := Trigger(TrapType, 2, 0);
    var cs := [a, b];
    TwoTraps(a, b, 2);
    assert Respond(cs, TrapEvent(2)) == Scan(cs, [t, t]);
    TwoHits(a, t);
    TwoHits(b, t);
    ScanEffect(cs, [t, t], 0);
    ScanEffect(cs, [t, t], 1);
  }

  /** Each of two trap conditions makes a call for a trap. */
  lemma TwoTraps(a: Condition, b: Condition, cause: nat)
    requires a.kind == Trap && b.kind == Trap
    ensures WatchTriggers([a, b], TrapEvent(cause)) == [Trigger(TrapType, cause, 0), Trigger(TrapType, cause, 0)]
  {
    assert [a, b][..1] == [a] && [a][..0] == [];
  }

  /** A condition matching a call is counted twice by two such calls. */
  lemma TwoHits(c: Condition, t: Trigger)
    requires Matches(c.kind, t)
    ensures Hits(c, [t, t]) == 2
  {
    assert [t, t][..1] == [t] && [t][..0] == [];
  }

  /** An event as evidently intended: each condition that watches it fires once, and no other. */
  function RespondFixed(cs: seq<Condition>, e: Event): (o: Outcome)
    ensures |o.conds| == |cs|
  {
    if cs == [] then Outcome([], [])
    else
      var p := RespondFixed(cs[..|cs| - 1], e);
      var c := cs[|cs| - 1];
      if Watch(c.kind, e).Some? then
        var d := c.(triggerCount := c.triggerCount + 1);
        Outcome(p.conds + [d], p.requests + [RequestFor(d)])
      else Outcome(p.conds + [c], p.requests)
  }

  /** With the fix, a condition's count rises by one exactly when it watches the event. */
  lemma {:induction false} RespondFixedEffect(cs: seq<Condition>, e: Event, j: nat)
    requires j < |cs|
    ensures RespondFixed(cs, e).conds[j] ==
            if Watch(cs[j].kind, e).Some? then cs[j].(triggerCount := cs[j].triggerCount + 1) else cs[j]
    decreases |cs|
  {
    if j < |cs| - 1 {
      RespondFixedEffect(cs[..|cs| - 1], e, j);
    }
  }

  /** With the fix, one request is made per watching condition. */
  lemma {:induction false} RespondFixedRequests(cs: seq<Condition>, e: Event)
    ensures |RespondFixed(cs, e).requests| == |WatchTriggers(cs, e)|
    decreases |cs|
  {
    if cs != [] {
      RespondFixedRequests(cs[..|cs| - 1], e);
    }
  }

  // ------------------------------------------------------------- pre-step

  const U64Wrap: nat := 0x1_0000_0000_0000_0000

  /** An INSTRUCTION_COUNT condition is due when `count >= last + interval`, the sum in 64 bits. */
  predicate Due(c: Condition, count: nat)
  {
    c.kind.InstructionCount? && count >= (c.lastCount + c.kind.interval) % U64Wrap
  }

  /** The state after the pre-step loop has visited the first `n` conditions. */
  function PreStepUpTo(cs: seq<Condition>, count: nat, n: nat): (o: Outcome)
    requires n <= |cs|
    ensures |o.conds| == |cs|
  {
    if n == 0 then Outcome(cs, [])
    else
      var p := PreStepUpTo(cs, count, n - 1);
      if Due(cs[n - 1], count) then
        var m := p.conds[n - 1 := p.conds[n - 1].(lastCount := count)];
        var t := Trigger(InstructionCountType, count, 0);
        Outcome(FireAll(m, t), p.requests + FireRequests(m, t))
      else p
  }

  /** `pre_step_callback` on an enabled, non-waiting step. */
  function PreStep(cs: seq<Condition>, count: nat): Outcome
  {
    PreStepUpTo(cs, count, |cs|)
  }

  /** The number of due conditions among the first `n`. */
  function DueCount(cs: seq<Condition>, count: nat, n: nat): (k: nat)
    requires n <= |cs|
    ensures k <= n
  {
    if n == 0 then 0 else DueCount(cs, count, n - 1) + if Due(cs[n - 1], count) then 1 else 0
  }

  /** The number of INSTRUCTION_COUNT conditions. */
  function CountConditions(cs: seq<Condition>): (k: nat)
    ensures k <= |cs|
  {
    if cs == [] then 0
    else CountConditions(cs[..|cs| - 1]) + if cs[|cs| - 1].kind.InstructionCount? then 1 else 0
  }

  /** Every INSTRUCTION_COUNT condition matches the pre-step's call, and nothing else does. */
  lemma {:induction false} RequestedCount(cs: seq<Condition>, count: nat, n: nat)
    requires n <= |cs|
    ensures |Requested(cs, Trigger(InstructionCountType, count, 0), n)| == CountConditions(cs[..n])
  {
    if n > 0 {
      RequestedCount(cs, count, n - 1);
      assert cs[..n][..n - 1] == cs[..n - 1];
    }
  }

  /**
   * After the pre-step loop has visited the first `n` conditions, each of
   * them records the count as its last firing where due; every
   * INSTRUCTION_COUNT condition is counted once per due one, since the call
   * checks no value; other conditions are left alone.
   */
  lemma {:induction false} PreStepUpToEffect(cs: seq<Condition>, count: nat, n: nat, j: nat)
    requires n <= |cs| && j < |cs|
    ensures var d := PreStepUpTo(cs, count, n).conds[j];
            d.lastCount == (if j < n && Due(cs[j], count) then count else cs[j].lastCount) &&
            d.triggerCount == cs[j].triggerCount +
              (if cs[j].kind.InstructionCount? then DueCount(cs, count, n) else 0) &&
            d.kind == cs[j].kind && d.name == cs[j].name && d.snapshotDir == cs[j].snapshotDir &&
            d.snapshotPrefix == cs[j].snapshotPrefix && d.autoIncrement == cs[j].autoIncrement
  {
    if n > 0 {
      PreStepUpToEffect(cs, count, n - 1, j);
    }
  }

  /** Each due condition asks for one snapshot per INSTRUCTION_COUNT condition. */
  lemma {:induction false} PreStepUpToRequests(cs: seq<Condition>, count: nat, n: nat)
    requires n <= |cs|
    ensures |PreStepUpTo(cs, count, n).requests| == DueCount(cs, count, n) * CountConditions(cs)
  {
    if n > 0 {
      PreStepUpToRequests(cs, count, n - 1);
      var x := DueCount(cs, count, n - 1);
      var k := CountConditions(cs);
      if Due(cs[n - 1], count) {
        DueRequests(cs, count, n);
        MulSucc(x, k);
      }
    }
  }

  lemma MulSucc(x: nat, k: nat)
    ensures (x + 1) * k == x * k + k
  {
  }

  /** The call a due condition makes asks for one snapshot per INSTRUCTION_COUNT condition. */
  lemma DueRequests(cs: seq<Condition>, count: nat, n: nat)
    requires 0 < n <= |cs| && Due(cs[n - 1], count)
    ensures |PreStepUpTo(cs, count, n).requests| == |PreStepUpTo(cs, count, n - 1).requests| + CountConditions(cs)
  {
    var p := PreStepUpTo(cs, count, n - 1);
    var m := p.conds[n - 1 := p.conds[n - 1].(lastCount := count)];
    forall j | 0 <= j < |cs|
      ensures m[j].kind == cs[j].kind
    {
      PreStepUpToEffect(cs, count, n - 1, j);
    }
    RequestedCount(m, count, |m|);
    KindsCount(cs, m, |cs|);
    assert cs[..|cs|] == cs && m[..|m|] == m;
  }

  /** Two lists of the same kinds have the same number of INSTRUCTION_COUNT conditions. */
  lemma {:induction false} KindsCount(a: seq<Condition>, b: seq<Condition>, n: nat)
    requires n <= |a| == |b|
    requires forall j :: 0 <= j < |a| ==> a[j].kind == b[j].kind
    ensures CountConditions(a[..n]) == CountConditions(b[..n])
  {
    if n > 0 {
      KindsCount(a, b, n - 1);
      assert a[..n][..n - 1] == a[..n - 1];
      assert b[..n][..n - 1] == b[..n - 1];
    }
  }

  /** One more condition visited by the pre-step loop, stated on the loop's own state. */
  lemma PreStepStep(cs: seq<Condition>, count: nat, i: nat, conds: seq<Condition>)
    requires i < |cs| && conds == PreStepUpTo(cs, count, i).conds
    ensures |conds| == |cs| && Due(conds[i], count) == Due(cs[i], count)
    ensures var t := Trigger(InstructionCountType, count, 0);
            var m := conds[i := conds[i].(lastCount := count)];
            PreStepUpTo(cs, count, i + 1) ==
              if Due(conds[i], count) then Outcome(FireAll(m, t), PreStepUpTo(cs, count, i).requests + FireRequests(m, t))
              else PreStepUpTo(cs, count, i)
  {
    PreStepUpToEffect(cs, count, i, i);
  }

  /** The pre-step, as a whole: the above for every condition. */
  lemma PreStepEffect(cs: seq<Condition>, count: nat, j: nat)
    requires j < |cs|
    ensures var d := PreStep(cs, count).conds[j];
            d.lastCount == (if Due(cs[j], count) then count else cs[j].lastCount) &&
            d.triggerCount == cs[j].triggerCount +
              (if cs[j].kind.InstructionCount? then DueCount(cs, count, |cs|) else 0) &&
            d.kind == cs[j].kind && d.name == cs[j].name
    ensures |PreStep(cs, count).requests| == DueCount(cs, count, |cs|) * CountConditions(cs)
  {
    PreStepUpToEffect(cs, count, |cs|, j);
    PreStepUpToRequests(cs, count, |cs|);
  }

  // ------------------------------------------------------------- loop steps

  /** One more condition visited by a callback's outer loop. */
  lemma WatchStep(cs: seq<Condition>, i: nat, e: Event)
    requires i < |cs|
    ensures WatchTriggers(cs[..i + 1], e) ==
            WatchTriggers(cs[..i], e) + if Watch(cs[i].kind, e).Some? then [Watch(cs[i].kind, e).value] else []
  {
    assert cs[..i + 1][..i] == cs[..i];
  }

  /**
   * The loop of `check_conditions` over the list: each matching condition
   * is counted and asks for a snapshot, and the snapshots not in `failing`
   * are created.
   */
  method FireLoop(cs: seq<Condition>, t: Trigger, failing: set<Request>)
      returns (conds: seq<Condition>, requests: seq<Request>, created: nat)
    ensures conds == FireAll(cs, t) && requests == FireRequests(cs, t)
    ensures created == Created(requests, failing)
  {
    conds := cs;
    created := 0;
    requests := [];
    var i := 0;
    while i < |cs|
      invariant i <= |cs| == |conds|
      invariant forall j :: 0 <= j < i ==> conds[j] == FireOne(cs[j], t)
      invariant forall j :: i <= j < |cs| ==> conds[j] == cs[j]
      invariant requests == Requested(cs, t, i)
      invariant created == Created(requests, failing)
    {
      if Matches(conds[i].kind, t) {
        var d := conds[i].(triggerCount := conds[i].triggerCount + 1);
        conds := conds[i := d];
        var req := RequestFor(d);
        CreatedSnoc(requests, req, failing);
        requests := requests + [req];
        if req !in failing {
          created := created + 1;
        }
      }
      i := i + 1;
    }
    assert conds == FireAll(cs, t);
  }

  // ------------------------------------------------------------- the manager

  class Manager {
    var conditions: seq<Condition>
    var enabled: bool
    /** `m_instruction_count`. */
    var instructionCount: nat
    /** `m_total_checkpoints`. */
    var totalCheckpoints: nat

    ghost predicate Valid()
      reads this
    {
      DistinctNames(conditions) && instructionCount < U64Wrap
    }

    constructor()
      ensures Valid() && conditions == [] && enabled && instructionCount == 0 && totalCheckpoints == 0
    {
      conditions := [];
      enabled := true;
      instructionCount := 0;
      totalCheckpoints := 0;
    }

    /**
     * `add_condition`: a name already in the list is an error and changes
     * nothing; otherwise a copy with both counters at 0 is appended.
     */
    method AddCondition(c: Condition) returns (r: Result<()>)
      requires Valid()
      modifies this
      ensures Valid()
      ensures r.Err? <==> exists j :: 0 <= j < |old(conditions)| && old(conditions)[j].name == c.name
      ensures r.Err? ==> conditions == old(conditions)
      ensures r.Ok? ==> conditions == old(conditions) + [c.(triggerCount := 0, lastCount := 0)]
      ensures enabled == old(enabled) && instructionCount == old(instructionCount)
      ensures totalCheckpoints == old(totalCheckpoints)
    {
      var i := 0;
      while i < |conditions|
        invariant i <= |conditions|
        invariant forall j :: 0 <= j < i ==> conditions[j].name != c.name
      {
        if conditions[i].name == c.name {
          return Err("Checkpoint condition with name '" + c.name + "' already exists");
        }
        i := i + 1;
      }
      conditions := conditions + [c.(triggerCount := 0, lastCount := 0)];
      r := Ok(());
    }

    /** `remove_condition`: every condition with the name goes, the others keep their order. */
    method RemoveCondition(name: string)
      requires Valid()
      modifies this
      ensures Valid() && conditions == Without(old(conditions), name)
      ensures enabled == old(enabled) && instructionCount == old(instructionCount)
      ensures totalCheckpoints == old(totalCheckpoints)
    {
      var kept: seq<Condition> := [];
      var i := 0;
      while i < |conditions|
        invariant i <= |conditions|
        invariant kept == Without(conditions[..i], name)
      {
        assert conditions[..i + 1][..i] == conditions[..i];
        if conditions[i].name != name {
          kept := kept + [conditions[i]];
        }
        i := i + 1;
      }
      assert conditions[..i] == conditions;
      WithoutDistinct(conditions, name);
      conditions := kept;
    }

    /** `clear_conditions`. */
    method ClearConditions()
      requires Valid()
      modifies this
      ensures Valid()
      ensures conditions == [] && enabled == old(enabled) && instructionCount == old(instructionCount)
      ensures totalCheckpoints == old(totalCheckpoints)
    {
      conditions := [];
    }

    /** `set_enabled`. */
    method SetEnabled(on: bool)
      requires Valid()
      modifies this
      ensures Valid()
      ensures enabled == on && conditions == old(conditions) && instructionCount == old(instructionCount)
      ensures totalCheckpoints == old(totalCheckpoints)
    {
      enabled := on;
    }

    /** `get_condition_stats`: every condition's name with its trigger count. */
    method ConditionStats() returns (stats: map<string, nat>)
      requires Valid()
      ensures stats == Stats(conditions)
      ensures forall i :: 0 <= i < |conditions| ==>
                conditions[i].name in stats && stats[conditions[i].name] == conditions[i].triggerCount
      ensures stats.Keys == Names(conditions)
    {
      stats := map[];
      var i := 0;
      while i < |conditions|
        invariant i <= |conditions|
        invariant stats == Stats(conditions[..i])
      {
        assert conditions[..i + 1][..i] == conditions[..i];
        stats := stats[conditions[i].name := conditions[i].triggerCount];
        i := i + 1;
      }
      assert conditions[..i] == conditions;
      forall i | 0 <= i < |conditions|
        ensures conditions[i].name in stats && stats[conditions[i].name] == conditions[i].triggerCount
      {
        StatsOfDistinct(conditions, i);
      }
    }

    /**
     * `check_conditions`: every condition matching the call is counted and
     * asks for a snapshot; the total rises by the snapshots created.
     */
    method CheckConditions(t: Trigger, failing: set<Request>) returns (requests: seq<Request>)
      requires Valid()
      modifies this
      ensures Valid()
      ensures conditions == FireAll(old(conditions), t) && requests == FireRequests(old(conditions), t)
      ensures totalCheckpoints == old(totalCheckpoints) + Created(requests, failing)
      ensures enabled == old(enabled) && instructionCount == old(instructionCount)
    {
      var conds, created;
      conds, requests, created := FireLoop(conditions, t, failing);
      conditions, totalCheckpoints := conds, totalCheckpoints + created;
    }

    /**
     * The loop of `pc_write_callback` .. `trap_callback`: each watching
     * condition, in list order, makes its `check_conditions` call. Nothing
     * happens while disabled.
     */
    method OnEvent(e: Event, failing: set<Request>) returns (requests: seq<Request>)
      requires Valid()
      modifies this
      ensures Valid()
      ensures !old(enabled) ==>
                conditions == old(conditions) && requests == [] && totalCheckpoints == old(totalCheckpoints)
      ensures old(enabled) ==> conditions == Respond(old(conditions), e).conds &&
                               requests == Respond(old(conditions), e).requests
      ensures totalCheckpoints == old(totalCheckpoints) + Created(requests, failing)
      ensures enabled == old(enabled) && instructionCount == old(instructionCount)
    {
      requests := [];
      if !enabled {
        return;
      }
      requests := Scanning(e, failing);
    }

    /** The outer loop shared by the callbacks. */
    method Scanning(e: Event, failing: set<Request>) returns (requests: seq<Request>)
      requires Valid()
      modifies this
      ensures Valid()
      ensures conditions == Respond(old(conditions), e).conds && requests == Respond(old(conditions), e).requests
      ensures totalCheckpoints == old(totalCheckpoints) + Created(requests, failing)
      ensures enabled == old(enabled) && instructionCount == old(instructionCount)
    {
      ghost var cs := conditions;
      requests := [];
      var i := 0;
      while i < |conditions|
        invariant |conditions| == |cs| && i <= |cs|
        invariant Valid()
        invariant conditions == Scan(cs, WatchTriggers(cs[..i], e)).conds
        invariant requests == Scan(cs, WatchTriggers(cs[..i], e)).requests
        invariant totalCheckpoints == old(totalCheckpoints) + Created(requests, failing)
        invariant enabled == old(enabled) && instructionCount == old(instructionCount)
      {
        ghost var ts := WatchTriggers(cs[..i], e);
        WatchStep(cs, i, e);
        ScanEffect(cs, ts, i);
        var w := Watch(conditions[i].kind, e);
        if w.Some? {
          var more := CheckConditions(w.value, failing);
          ScanSnoc(cs, ts, w.value);
          CreatedAppend(requests, more, failing);
          requests := requests + more;
        } else {
          assert ts + [] == ts;
        }
        i := i + 1;
      }
      assert cs[..i] == cs;
    }

    /** `pre_step_callback`: due INSTRUCTION_COUNT conditions record the count and make their call. */
    method PreStepCallback(isWaiting: bool, failing: set<Request>) returns (requests: seq<Request>)
      requires Valid()
      modifies this
      ensures Valid()
      ensures !old(enabled) || isWaiting ==>
                conditions == old(conditions) && requests == [] && totalCheckpoints == old(totalCheckpoints)
      ensures old(enabled) && !isWaiting ==>
                conditions == PreStep(old(conditions), instructionCount).conds &&
                requests == PreStep(old(conditions), instructionCount).requests
      ensures totalCheckpoints == old(totalCheckpoints) + Created(requests, failing)
      ensures enabled == old(enabled) && instructionCount == old(instructionCount)
    {
      requests := [];
      if !enabled || isWaiting {
        return;
      }
      ghost var cs := conditions;
      var count := instructionCount;
      var i := 0;
      while i < |conditions|
        invariant |conditions| == |cs| && i <= |cs|
        invariant Valid()
        invariant conditions == PreStepUpTo(cs, count, i).conds
        invariant requests == PreStepUpTo(cs, count, i).requests
        invariant totalCheckpoints == old(totalCheckpoints) + Created(requests, failing)
        invariant enabled == old(enabled) && instructionCount == count
      {
        PreStepStep(cs, count, i, conditions);
        var more := PreStepVisit(i, failing);
        CreatedAppend(requests, more, failing);
        requests := requests + more;
        i := i + 1;
      }
    }

    /** The body of `pre_step_callback`'s loop, on the condition at `i`. */
    method PreStepVisit(i: nat, failing: set<Request>) returns (more: seq<Request>)
      requires Valid() && i < |conditions|
      modifies this
      ensures Valid()
      ensures var t := Trigger(InstructionCountType, instructionCount, 0);
              var m := old(conditions)[i := old(conditions)[i].(lastCount := instructionCount)];
              if Due(old(conditions)[i], instructionCount) then conditions == FireAll(m, t) && more == FireRequests(m, t)
              else conditions == old(conditions) && more == []
      ensures totalCheckpoints == old(totalCheckpoints) + Created(more, failing)
      ensures enabled == old(enabled) && instructionCount == old(instructionCount)
    {
      more := [];
      var c := conditions[i];
      if c.kind.InstructionCount? && instructionCount >= (c.lastCount + c.kind.interval) % U64Wrap {
        conditions := conditions[i := c.(lastCount := instructionCount)];
        more := CheckConditions(Trigger(InstructionCountType, instructionCount, 0), failing);
      }
    }

    /**
     * `post_step_callback`: on an enabled, non-waiting step the instruction
     * count rises by one (in 64 bits), then the new PC is checked against
     * the PC conditions.
     */
    method PostStepCallback(isWaiting: bool, pc: nat, failing: set<Request>) returns (requests: seq<Request>)
      requires Valid()
      modifies this
      ensures Valid()
      ensures !old(enabled) || isWaiting ==>
                conditions == old(conditions) && requests == [] && totalCheckpoints == old(totalCheckpoints) &&
                instructionCount == old(instructionCount)
      ensures old(enabled) && !isWaiting ==>
                instructionCount == (old(instructionCount) + 1) % U64Wrap &&
                conditions == Respond(old(conditions), PcEvent(pc)).conds &&
                requests == Respond(old(conditions), PcEvent(pc)).requests
      ensures totalCheckpoints == old(totalCheckpoints) + Created(requests, failing)
      ensures enabled == old(enabled)
    {
      requests := [];
      if !enabled || isWaiting {
        return;
      }
      instructionCount := (instructionCount + 1) % U64Wrap;
      requests := Scanning(PcEvent(pc), failing);
    }
  }
}
