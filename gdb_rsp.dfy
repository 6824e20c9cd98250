/**
 * The GDB remote serial protocol server's software-breakpoint table and the
 * response builders: the packet start ("+$" or "$"), error replies "Exx",
 * the thread-context reply, stop replies, little-endian register values and
 * the closing "#xx" checksum (the modulo-256 sum of the packet data, as the
 * "Overview" section of the Remote Protocol appendix of the GDB manual
 * defines it).
 */
module GdbRsp {
  import opened Wrappers
  import opened GdbUtils

  // ---------------------------------------------------------------------
  // Breakpoint table
  // ---------------------------------------------------------------------

  /** The lowest inactive slot at or after `i`. */
  function FirstFree(bps: seq<Breakpoint>, i: nat): (r: Option<nat>)
    decreases |bps| - i
    ensures r.Some? ==> i <= r.value < |bps| && !bps[r.value].active
    ensures r.Some? ==> forall j :: i <= j < r.value ==> bps[j].active
    ensures r.None? ==> forall j :: i <= j < |bps| ==> bps[j].active
  {
    if i >= |bps| then None else if !bps[i].active then Some(i) else FirstFree(bps, i + 1)
  }

  /** The lowest active slot at or after `i` that holds `addr`. */
  function FirstAt(bps: seq<Breakpoint>, addr: nat, i: nat): (r: Option<nat>)
    decreases |bps| - i
    ensures r.Some? ==> i <= r.value < |bps| && bps[r.value].active && bps[r.value].addr == addr
    ensures r.Some? ==> forall j :: i <= j < r.value ==> !(bps[j].active && bps[j].addr == addr)
    ensures r.None? ==> forall j :: i <= j < |bps| ==> !(bps[j].active && bps[j].addr == addr)
  {
    if i >= |bps| then None
    else if bps[i].active && bps[i].addr == addr then Some(i)
    else FirstAt(bps, addr, i + 1)
  }

  /** Some active slot holds `addr`. */
  predicate Matches(bps: seq<Breakpoint>, addr: nat)
  {
    exists j :: 0 <= j < |bps| && bps[j].active && bps[j].addr == addr
  }

  /** insert_breakpoint on the slot contents: the status and the new slots. */
  function Insert(bps: seq<Breakpoint>, addr: nat, kind: nat): (r: (int, seq<Breakpoint>))
    ensures r.0 == 0 <==> exists j :: 0 <= j < |bps| && !bps[j].active
    ensures r.0 != 0 ==> r.0 == -1 && r.1 == bps
    ensures r.0 == 0 ==> exists j :: 0 <= j < |bps| && !bps[j].active && (forall k :: 0 <= k < j ==> bps[k].active)
                                  && r.1 == bps[j := Breakpoint(true, kind, addr)]
  {
    match FirstFree(bps, 0)
    case None => (-1, bps)
    case Some(j) => (0, bps[j := Breakpoint(true, kind, addr)])
  }

  /** remove_breakpoint on the slot contents: the first active slot holding `addr` decides. */
  function Remove(bps: seq<Breakpoint>, addr: nat, kind: nat): (r: (int, seq<Breakpoint>))
    ensures r.0 == 0 || r.0 == -1
    ensures r.0 == -1 ==> r.1 == bps
    ensures !Matches(bps, addr) ==> r.0 == -1
    ensures r.0 == 0 ==> exists j :: 0 <= j < |bps| && bps[j].active && bps[j].addr == addr && bps[j].kind == kind
                                  && (forall k :: 0 <= k < j ==> !(bps[k].active && bps[k].addr == addr))
                                  && r.1 == bps[j := bps[j].(active := false)]
  {
    match FirstAt(bps, addr, 0)
    case None => (-1, bps)
    case Some(j) => if bps[j].kind != kind then (-1, bps) else (0, bps[j := bps[j].(active := false)])
  }

  /**
   * insert_breakpoint: the lowest inactive slot takes `(addr, kind)`; -1 and
   * no change when all MAX_BREAKPOINTS slots are active.
   */
  method InsertBreakpoint(m: ModelState, addr: nat, kind: nat) returns (r: int)
    requires kind == 2 || kind == 4
    modifies m.breakpoints
    ensures (r, m.breakpoints[..]) == Insert(old(m.breakpoints[..]), addr, kind)
  {
    var bps := m.breakpoints;
    for i := 0 to bps.Length
      invariant bps[..] == old(bps[..])
      invariant forall j :: 0 <= j < i ==> bps[j].active
    {
      if !bps[i].active {
        FreeAt(bps[..], i);
        bps[i] := Breakpoint(true, kind, addr);
        return 0;
      }
    }
    assert FirstFree(bps[..], 0).None?;
    return -1;
  }

  lemma FreeAt(bps: seq<Breakpoint>, i: nat)
    requires i < |bps| && !bps[i].active
    requires forall j :: 0 <= j < i ==> bps[j].active
    ensures FirstFree(bps, 0) == Some(i)
  {
    var r := FirstFree(bps, 0);
  }

  lemma HeldAt(bps: seq<Breakpoint>, addr: nat, i: nat)
    requires i < |bps| && bps[i].active && bps[i].addr == addr
    requires forall j :: 0 <= j < i ==> !(bps[j].active && bps[j].addr == addr)
    ensures FirstAt(bps, addr, 0) == Some(i)
  {
    var r := FirstAt(bps, addr, 0);
  }

  /**
   * remove_breakpoint: deactivates the first active slot holding `addr` when
   * its kind is `kind`; -1 and no change on a kind mismatch or when no
   * active slot holds `addr`.
   */
  method RemoveBreakpoint(m: ModelState, addr: nat, kind: nat) returns (r: int)
    modifies m.breakpoints
    ensures (r, m.breakpoints[..]) == Remove(old(m.breakpoints[..]), addr, kind)
  {
    var bps := m.breakpoints;
    for i := 0 to bps.Length
      invariant bps[..] == old(bps[..])
      invariant forall j :: 0 <= j < i ==> !(bps[j].active && bps[j].addr == addr)
    {
      if !bps[i].active || bps[i].addr != addr {
        continue;
      }
      HeldAt(bps[..], addr, i);
      if bps[i].kind != kind {
        return -1;
      }
      bps[i] := bps[i].(active := false);
      return 0;
    }
    assert FirstAt(bps[..], addr, 0).None?;
    return -1;
  }

  /** match_breakpoint: 1 exactly when some active slot holds `addr`. */
  method MatchBreakpoint(m: ModelState, addr: nat) returns (r: int)
    ensures r == 0 || r == 1
    ensures r == 1 <==> Matches(m.breakpoints[..], addr)
  {
    var bps := m.breakpoints;
    for i := 0 to bps.Length
      invariant forall j :: 0 <= j < i ==> !(bps[j].active && bps[j].addr == addr)
    {
      if bps[i].active && bps[i].addr == addr {
        assert bps[..][i] == bps[i];
        return 1;
      }
    }
    assert !Matches(bps[..], addr) by {
      forall j | 0 <= j < bps.Length
        ensures !(bps[..][j].active && bps[..][j].addr == addr)
      {
        assert bps[..][j] == bps[j];
      }
    }
    return 0;
  }

  /** A successful insert makes a later match of that address succeed. */
  lemma InsertThenMatch(bps: seq<Breakpoint>, addr: nat, kind: nat)
    requires Insert(bps, addr, kind).0 == 0
    ensures Matches(Insert(bps, addr, kind).1, addr)
  {
    var j := FirstFree(bps, 0).value;
    assert Insert(bps, addr, kind).1[j] == Breakpoint(true, kind, addr);
  }

  /** After init_gdb_model no address matches and the first insert takes slot 0. */
  lemma AfterInit(bps: seq<Breakpoint>, addr: nat, kind: nat)
    requires |bps| == MaxBreakpoints
    requires forall j :: 0 <= j < |bps| ==> bps[j] == Breakpoint(false, 0, 0)
    ensures !Matches(bps, addr)
    ensures Insert(bps, addr, kind) == (0, bps[0 := Breakpoint(true, kind, addr)])
  {
    FreeAt(bps, 0);
  }

  /**
   * Inserting a breakpoint at an address that had none and removing it with
   * the same kind succeeds and leaves no breakpoint at that address, every
   * slot as active as before.
   */
  lemma InsertThenRemove(bps: seq<Breakpoint>, addr: nat, kind: nat)
    requires !Matches(bps, addr)
    requires Insert(bps, addr, kind).0 == 0
    ensures var after := Remove(Insert(bps, addr, kind).1, addr, kind);
      && after.0 == 0
      && !Matches(after.1, addr)
      && |after.1| == |bps|
      && forall j :: 0 <= j < |bps| ==> after.1[j].active == bps[j].active
  {
    var j := FirstFree(bps, 0).value;
    var mid := Insert(bps, addr, kind).1;
    assert mid == bps[j := Breakpoint(true, kind, addr)];
    forall k | 0 <= k < j
      ensures !(mid[k].active && mid[k].addr == addr)
    {
      assert mid[k] == bps[k];
    }
    HeldAt(mid, addr, j);
    var after := Remove(mid, addr, kind).1;
    assert after == mid[j := mid[j].(active := false)];
    forall k | 0 <= k < |after|
      ensures !(after[k].active && after[k].addr == addr)
    {
      if k != j {
        assert after[k] == bps[k];
      }
    }
  }

  /** A kind that differs from the first matching slot's leaves the table as it was. */
  lemma RemoveMismatchKeeps(bps: seq<Breakpoint>, addr: nat, kind: nat, j: nat)
    requires j < |bps| && bps[j].active && bps[j].addr == addr && bps[j].kind != kind
    requires forall k :: 0 <= k < j ==> !(bps[k].active && bps[k].addr == addr)
    ensures Remove(bps, addr, kind) == (-1, bps)
    ensures Matches(Remove(bps, addr, kind).1, addr)
  {
    HeldAt(bps, addr, j);
  }

  // ---------------------------------------------------------------------
  // Responses
  // ---------------------------------------------------------------------

  /** The sum of the character codes of `s`. */
  function Sum(s: seq<char>): nat
  {
    if s == [] then 0 else Sum(s[..|s| - 1]) + s[|s| - 1] as int
  }

  /** The packet data: everything after the first '$'. */
  function Payload(s: seq<char>): (p: seq<char>)
    requires '$' in s
    ensures |p| < |s| && p == s[|s| - |p|..]
    ensures '$' !in s[..|s| - |p| - 1] && s[|s| - |p| - 1] == '$'
  {
    var d := FindTerminator(s, 0, '$');
    if d.None? then
      assert false;
      []
    else
      s[d.value + 1..]
  }

  /** The checksum of a packet: the modulo-256 sum of its data. */
  function Checksum(s: seq<char>): (c: nat)
    ensures c < 256
  {
    Sum(s) % 256
  }

  /**
   * What a receiver accepts: a '$', the data, '#' and two hex digits that
   * spell the modulo-256 sum of the data.
   */
  predicate PacketOk(p: seq<char>)
  {
    && |p| >= 3
    && p[|p| - 3] == '#'
    && '$' in p[..|p| - 3]
    && 16 * IntOfHex(p[|p| - 2]) + IntOfHex(p[|p| - 1]) == Checksum(Payload(p[..|p| - 3]))
  }

  /** prepare_resp: "+$" while acknowledgements are on, "$" once they are off. */
  method PrepareResp(sendAcks: bool, r: RspBuf)
    requires r.Valid()
    modifies r, r.cmd
    ensures r.Valid() && (r.cmd == old(r.cmd) || fresh(r.cmd))
    ensures r.Contents() == old(r.Contents()) + (if sendAcks then "+$" else "$")
  {
    if sendAcks {
      r.AppendMsg("+$");
    } else {
      r.AppendMsg("$");
    }
  }

  /** make_ok_resp. */
  method MakeOkResp(r: RspBuf)
    requires r.Valid()
    modifies r, r.cmd
    ensures r.Valid() && (r.cmd == old(r.cmd) || fresh(r.cmd))
    ensures r.Contents() == old(r.Contents()) + "OK"
  {
    r.AppendMsg("OK");
  }

  /** make_error_resp: 'E' and the two hex digits of the error code. */
  method MakeErrorResp(r: RspBuf, err: nat)
    requires r.Valid() && err < 256
    modifies r, r.cmd
    ensures r.Valid() && (r.cmd == old(r.cmd) || fresh(r.cmd))
    ensures r.Contents() == old(r.Contents()) + ['E'] + PushHexByte(err)
  {
    while r.bufofs + 3 > r.bufsz
      invariant r.Valid() && (r.cmd == old(r.cmd) || fresh(r.cmd))
      invariant r.Contents() == old(r.Contents())
      decreases r.bufofs + 3 - r.bufsz
    {
      r.Grow();
    }
    ghost var before := r.Contents();
    r.cmd[r.bufofs] := 'E';
    assert r.cmd[..r.bufofs + 1] == before + ['E'];
    r.bufofs := r.bufofs + 1;
    r.AppendHexByte(err);
  }

  /** The thread id at `cmd_buf[2]` is "0" or "-1" in an 'H' request. */
  predicate SetContextAccepts(cmd: seq<char>)
    requires |cmd| >= 4
  {
    cmd[0] == 'H' && (cmd[2] == '0' || (cmd[2] == '-' && cmd[3] == '1'))
  }

  /**
   * handle_set_context: "OK" for the thread ids "0" and "-1" (only one
   * thread exists), "E01" otherwise.
   */
  method HandleSetContext(req: RspBuf, resp: RspBuf)
    requires req.Valid() && req.hasBuf && resp.Valid()
    modifies resp, resp.cmd
    ensures resp.Valid()
    ensures resp.Contents() == old(resp.Contents()) + (if SetContextAccepts(old(req.cmd[..])) then "OK" else "E01")
  {
    var accepts := req.cmd[0] == 'H' && (req.cmd[2] == '0' || (req.cmd[2] == '-' && req.cmd[3] == '1'));
    assert accepts == SetContextAccepts(req.cmd[..]);
    if accepts {
      MakeOkResp(resp);
      return;
    }
    MakeErrorResp(resp, 1);
  }

  /** The requests "Hg0" and "Hc-1" are accepted; "Hg1" and "Hc-2" are not. */
  lemma SetContextExamples()
    ensures SetContextAccepts("Hg0#")
    ensures SetContextAccepts("Hc-1")
    ensures !SetContextAccepts("Hg1#")
    ensures !SetContextAccepts("Hc-2")
  {
  }

  /**
   * handle_stop_reply: "S02" (SIGINT) before the model has run and "S05"
   * (SIGTRAP) at a breakpoint; in any other state the server exits.
   */
  method HandleStopReply(state: RunState, resp: RspBuf) returns (exits: bool)
    requires resp.Valid()
    modifies resp, resp.cmd
    ensures resp.Valid()
    ensures exits <==> !(state.RunStart? || state.RunBreakpoint?)
    ensures state.RunStart? ==> resp.Contents() == old(resp.Contents()) + "S02"
    ensures state.RunBreakpoint? ==> resp.Contents() == old(resp.Contents()) + "S05"
    ensures exits ==> resp.Contents() == old(resp.Contents())
  {
    match state {
      case RunStart =>
        resp.AppendMsg("S");
        resp.AppendHexByte(2);
        return false;
      case RunBreakpoint =>
        resp.AppendMsg("S");
        resp.AppendHexByte(5);
        return false;
      case _ =>
        return true;
    }
  }

  /** archlen_t. */
  datatype ArchLen = Arch32 | Arch64

  function RegBytes(arch: ArchLen): nat
  {
    if arch == Arch32 then 4 else 8
  }

  /** The low `n` bytes of `x` as hex digit pairs, least significant byte first. */
  function LeHex(x: nat, n: nat): (s: seq<char>)
    ensures |s| == 2 * n
  {
    if n == 0 then [] else PushHexByte(x % 256) + LeHex(x / 256, n - 1)
  }

  /** Every character LeHex produces is a lower-case hex digit. */
  lemma {:induction false} LeHexDigits(x: nat, n: nat)
    ensures forall k :: 0 <= k < 2 * n ==> IsLowerHexDigit(LeHex(x, n)[k])
  {
    if n > 0 {
      LeHexDigits(x / 256, n - 1);
      var s := LeHex(x, n);
      assert s[2..] == LeHex(x / 256, n - 1);
      forall k | 0 <= k < 2 * n
        ensures IsLowerHexDigit(s[k])
      {
        if k >= 2 {
          assert s[k] == s[2..][k - 2];
        }
      }
    }
  }

  /** send_reg_val: the register's 4 (RV32) or 8 (RV64) bytes, little-endian. */
  method SendRegVal(arch: ArchLen, r: RspBuf, reg: nat)
    requires r.Valid() && reg < U64
    modifies r, r.cmd
    ensures r.Valid() && (r.cmd == old(r.cmd) || fresh(r.cmd))
    ensures r.Contents() == old(r.Contents()) + LeHex(reg, RegBytes(arch))
  {
    var nbytes := RegBytes(arch);
    var v := reg;
    ghost var start := r.Contents();
    var i := 0;
    while i < nbytes
      invariant i <= nbytes
      invariant r.Valid() && (r.cmd == old(r.cmd) || fresh(r.cmd))
      invariant v == DropBytes(reg, i)
      invariant r.Contents() == start + LeHex(reg, i)
    {
      AppendLeHex(start, reg, i);
      DropBytesSnoc(reg, i);
      r.AppendHexByte(v % 256);
      v := v / 256;
      i := i + 1;
    }
  }

  /** LeHex grown at its end: the next byte is the one left after dropping the bytes already sent. */
  lemma {:induction false} LeHexSnoc(x: nat, n: nat)
    ensures LeHex(x, n + 1) == LeHex(x, n) + PushHexByte(DropBytes(x, n) % 256)
  {
    if n > 0 {
      var p, t, q := PushHexByte(x % 256), LeHex(x / 256, n - 1), PushHexByte(DropBytes(x, n) % 256);
      assert DropBytes(x, n) == DropBytes(x / 256, n - 1);
      LeHexSnoc(x / 256, n - 1);
      assert LeHex(x, n + 1) == p + (t + q);
      assert LeHex(x, n) == p + t;
    }
  }

  /** The same, after the text already in the buffer. */
  lemma AppendLeHex(start: seq<char>, x: nat, n: nat)
    ensures start + LeHex(x, n + 1) == (start + LeHex(x, n)) + PushHexByte(DropBytes(x, n) % 256)
  {
    LeHexSnoc(x, n);
  }

  lemma {:induction false} DropBytesSnoc(x: nat, n: nat)
    ensures DropBytes(x, n + 1) == DropBytes(x, n) / 256
  {
    if n > 0 {
      DropBytesSnoc(x / 256, n - 1);
    }
  }

  /** `x / 2^(8n)`. */
  function DropBytes(x: nat, n: nat): nat
  {
    if n == 0 then x else DropBytes(x / 256, n - 1)
  }

  /** The digits send_reg_val emits spell the low `n` bytes; the rest of `x` lies above them. */
  lemma {:induction false} LeValueOfLeHex(x: nat, n: nat)
    ensures x == LeValue(LeHex(x, n)) + ShiftBytes(DropBytes(x, n), n)
  {
    if n > 0 {
      var s := LeHex(x, n);
      LeValueOfLeHex(x / 256, n - 1);
      assert s[2..] == LeHex(x / 256, n - 1);
      assert PairByte(s[0], s[1]) == x % 256;
      assert LeValue(s) == x % 256 + 256 * LeValue(LeHex(x / 256, n - 1));
    }
  }

  /** The same for 2^32 as ModAddMultiple for 2^64. */
  lemma ModAddMultiple32(y: nat, x: nat, h: nat)
    requires y == x + 0x1_0000_0000 * h && x < 0x1_0000_0000
    ensures y % 0x1_0000_0000 == x
  {
    assert y == 0x1_0000_0000 * (y / 0x1_0000_0000) + y % 0x1_0000_0000;
    assert 0x1_0000_0000 * (h - y / 0x1_0000_0000) == y % 0x1_0000_0000 - x;
  }

  /**
   * A register value sent by send_reg_val and terminated by a non-digit is
   * read back by extract_hex_integer_le as the register (its low 32 bits on
   * RV32), the terminator found right after the digits.
   */
  lemma ShiftBytesFour(x: nat)
    ensures ShiftBytes(x, 4) == 0x1_0000_0000 * x
  {
    calc {
      ShiftBytes(x, 4);
      256 * ShiftBytes(x, 3);
      0x1_0000 * ShiftBytes(x, 2);
      0x100_0000 * ShiftBytes(x, 1);
      0x1_0000_0000 * x;
    }
  }

  lemma Pow16Eight()
    ensures Pow16(8) == 0x1_0000_0000
  {
    assert Pow16(2) == 256 by {
      assert Pow16(1) == 16;
    }
    Pow16Add(2, 2);
    Pow16Add(4, 4);
  }

  lemma SendRegValRoundTrip(arch: ArchLen, x: nat, t: char)
    requires x < U64 && !IsLowerHexDigit(t)
    ensures ExtractLe(LeHex(x, RegBytes(arch)) + [t], 0, t)
         == Some((2 * RegBytes(arch), if arch == Arch32 then x % 0x1_0000_0000 else x))
  {
    var n := RegBytes(arch);
    var digits := LeHex(x, n);
    var buf := digits + [t];
    LeHexDigits(x, n);
    TerminatorAt(buf, 0, t, 2 * n);
    assert buf[0..2 * n] == digits;
    LeValueLow(digits);
    assert digits[..Min(|digits|, 16)] == digits;
    if arch == Arch32 {
      LeHexValue32(x);
    } else {
      LeHexValue64(x);
    }
  }

  /** Four bytes sent carry the value modulo 2^32. */
  lemma LeHexValue32(x: nat)
    ensures LeValue(LeHex(x, 4)) == x % 0x1_0000_0000
  {
    var low, high := LeValue(LeHex(x, 4)), DropBytes(x, 4);
    LeValueOfLeHex(x, 4);
    ShiftBytesFour(high);
    Pow16Eight();
    ModAddMultiple32(x, low, high);
  }

  /** Eight bytes sent carry the whole 64-bit value. */
  lemma LeHexValue64(x: nat)
    requires x < U64
    ensures LeValue(LeHex(x, 8)) == x
  {
    var s := LeHex(x, 8);
    var low, high := LeValue(s), DropBytes(x, 8);
    assert x == low + U64 * high by {
      LeValueOfLeHex(x, 8);
      ShiftBytesEight(high);
    }
    assert low < U64 by {
      Pow16Sixteen();
    }
    ModAddMultiple(x, low, high);
  }

  /** Reducing modulo 256 before adding does not change the sum modulo 256. */
  lemma AddMod256(x: nat, c: nat)
    ensures (x % 256 + c) % 256 == (x + c) % 256
  {
    var q := x / 256;
    assert x + c == (x % 256 + c) + 256 * q;
  }

  /** The checksum loop's step: adding one more character modulo 256. */
  lemma SumSnoc(s: seq<char>, c: char)
    ensures Sum(s + [c]) == Sum(s) + c as int
  {
    assert (s + [c])[..|s|] == s;
  }

  /** The index of the first '$' among the first `n` characters of `a`. */
  method FirstDollar(a: array<char>, n: nat) returns (i: nat)
    requires n <= a.Length && '$' in a[..n]
    ensures i < n && a[i] == '$' && '$' !in a[..i]
  {
    ghost var s := a[..n];
    i := 0;
    while a[i] != '$'
      invariant i < n && '$' !in s[..i] && '$' in s[i..]
      decreases n - i
    {
      assert s[..i + 1] == s[..i] + [s[i]];
      assert '$' in s[i + 1..] by {
        var k :| i <= k < n && s[k] == '$';
        assert s[i + 1..][k - i - 1] == '$';
      }
      i := i + 1;
    }
    assert s[..i] == a[..i];
  }

  /** The modulo-256 sum of `a[from..n]`, accumulated one character at a time. */
  method SumMod256(a: array<char>, from: nat, n: nat) returns (chksum: nat)
    requires from <= n <= a.Length
    ensures chksum == Sum(a[from..n]) % 256
  {
    chksum := 0;
    var i := from;
    while i < n
      invariant from <= i <= n
      invariant chksum == Sum(a[from..i]) % 256
    {
      assert a[from..i + 1] == a[from..i] + [a[i]];
      SumSnoc(a[from..i], a[i]);
      AddMod256(Sum(a[from..i]), a[i] as int);
      chksum := (chksum + a[i] as int) % 256;
      i := i + 1;
    }
  }

  /**
   * resp_set_checksum: appends '#' and the two lower-case hex digits of the
   * modulo-256 sum of every character after the first '$'.
   */
  method RespSetChecksum(r: RspBuf)
    requires r.Valid() && '$' in r.Contents()
    modifies r, r.cmd
    ensures r.Valid() && (r.cmd == old(r.cmd) || fresh(r.cmd))
    ensures r.Contents() == old(r.Contents()) + ['#'] + PushHexByte(Checksum(Payload(old(r.Contents()))))
  {
    ghost var s := r.Contents();
    var i := FirstDollar(r.cmd, r.bufofs);
    assert s[..i] == r.cmd[..i];
    assert Payload(s) == s[i + 1..] == r.cmd[i + 1..r.bufofs] by {
      TerminatorAt(s, 0, '$', i);
    }
    var chksum := SumMod256(r.cmd, i + 1, r.bufofs);
    AppendTrailer(r, chksum);
  }

  /** The tail of resp_set_checksum: grows the buffer until three more characters fit, then writes '#' and the two digits. */
  method AppendTrailer(r: RspBuf, chksum: nat)
    requires r.Valid() && chksum < 256
    modifies r, r.cmd
    ensures r.Valid() && (r.cmd == old(r.cmd) || fresh(r.cmd))
    ensures r.Contents() == old(r.Contents()) + ['#'] + PushHexByte(chksum)
  {
    ghost var s := r.Contents();
    while r.bufofs + 3 > r.bufsz
      invariant r.Valid() && (r.cmd == old(r.cmd) || fresh(r.cmd))
      invariant r.Contents() == s
      decreases r.bufofs + 3 - r.bufsz
    {
      r.Grow();
    }
    var digits := PushHexByte(chksum);
    r.cmd[r.bufofs] := '#';
    r.cmd[r.bufofs + 1] := digits[0];
    r.cmd[r.bufofs + 2] := digits[1];
    assert r.cmd[..r.bufofs + 3] == s + ['#'] + digits;
    r.bufofs := r.bufofs + 3;
  }

  /** A packet closed by resp_set_checksum is accepted by the receiver's check. */
  lemma ChecksumAccepted(s: seq<char>)
    requires '$' in s
    ensures PacketOk(s + ['#'] + PushHexByte(Checksum(Payload(s))))
  {
    var ds := PushHexByte(Checksum(Payload(s)));
    var p := s + ['#'] + ds;
    assert p[..|p| - 3] == s;
    assert p[|p| - 3] == '#' && p[|p| - 2] == ds[0] && p[|p| - 1] == ds[1];
  }

  /** The acknowledgement '+' before the '$' does not change the checksum. */
  lemma AckDoesNotChangeChecksum(data: seq<char>)
    ensures Payload("+$" + data) == Payload("$" + data) == data
  {
    assert ("+$" + data)[1] == '$';
    TerminatorAt("+$" + data, 0, '$', 1);
    TerminatorAt("$" + data, 0, '$', 0);
  }
}
