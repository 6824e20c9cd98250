/**
 * The parts of a snapshot `serialize_snapshot`, `deserialize_snapshot`,
 * `serialize_memory_index` and `deserialize_memory_index` move between the
 * emulator's state and JSON (`snapshot_format.cpp`): the register files, the
 * CSR map, the platform state and the memory index, each with the loop the
 * source runs and the round trip it completes.
 */
module SnapshotState {
  import opened Wrappers
  import opened SnapshotFormat

  // ------------------------------------------------------------ 64-bit register files

  /** The loop writing registers 0 .. min(n, 32) - 1 into an object, one member each. */
  method EncodeRegFile(file: char, regs: seq<nat>) returns (obj: map<string, string>)
    ensures obj == RegFile(file, regs)
  {
    obj := map[];
    var i := 0;
    while i < |regs| && i < 32
      invariant i <= |regs| && i <= 32
      invariant obj == RegFileUpTo(file, regs, i)
    {
      obj := obj[RegName(file, i) := Uint64ToHex(regs[i])];
      i := i + 1;
    }
  }

  /** A register that fails to read makes every longer read fail the same way. */
  lemma {:induction false} RegValuesErr(file: char, obj: map<string, string>, n: nat, m: nat)
    requires n <= m && RegValues(file, obj, n).Err?
    ensures RegValues(file, obj, m) == RegValues(file, obj, n)
    decreases m - n
  {
    if n < m {
      RegValuesErr(file, obj, n, m - 1);
    }
  }

  /** The loop reading 32 registers back: a missing member leaves its register 0. */
  method DecodeRegFile(file: char, obj: map<string, string>) returns (r: Result<seq<nat>>)
    ensures r == RegValues(file, obj, 32)
  {
    var vals: seq<nat> := [];
    var i := 0;
    while i < 32
      invariant i <= 32
      invariant RegValues(file, obj, i) == Ok(vals)
    {
      var name := RegName(file, i);
      if name in obj {
        var v := HexToUint64(obj[name]);
        if v.Err? {
          RegValuesErr(file, obj, i + 1, 32);
          return Err(v.error);
        }
        vals := vals + [v.value];
      } else {
        vals := vals + [0];
      }
      i := i + 1;
    }
    r := Ok(vals);
  }

  // ---------------------------------------------------------- vector register files

  predicate AllBytes(regs: seq<seq<nat>>)
  {
    forall i :: 0 <= i < |regs| ==> Bytes(regs[i])
  }

  /** The object the vector registers are written as: registers 0 .. min(n, 32) - 1. */
  function VregFile(regs: seq<seq<nat>>): (obj: map<string, string>)
    requires AllBytes(regs)
  {
    VregFileUpTo(regs, if |regs| < 32 then |regs| else 32)
  }

  function VregFileUpTo(regs: seq<seq<nat>>, n: nat): (obj: map<string, string>)
    requires AllBytes(regs) && n <= |regs|
  {
    if n == 0 then map[]
    else VregFileUpTo(regs, n - 1)[RegName('v', n - 1) := VregHex(regs[n - 1])]
  }

  lemma {:induction false} VregFileUpToMembers(regs: seq<seq<nat>>, n: nat, i: nat)
    requires AllBytes(regs) && n <= |regs|
    ensures RegName('v', i) in VregFileUpTo(regs, n) <==> i < n
    ensures i < n ==> VregFileUpTo(regs, n)[RegName('v', i)] == VregHex(regs[i])
  {
    if n > 0 {
      VregFileUpToMembers(regs, n - 1, i);
      RegNameInjective('v', 'v', i, n - 1);
    }
  }

  lemma VregFileMembers(regs: seq<seq<nat>>, i: nat)
    requires AllBytes(regs)
    ensures RegName('v', i) in VregFile(regs) <==> i < |regs| && i < 32
    ensures i < |regs| && i < 32 ==> VregFile(regs)[RegName('v', i)] == VregHex(regs[i])
  {
    VregFileUpToMembers(regs, if |regs| < 32 then |regs| else 32, i);
  }

  /**
   * Vector registers 0 .. n - 1 read back, with the bytes in the order they
   * were written: a missing member or a value without the "0x" prefix
   * leaves the register empty.
   */
  function VregValues(obj: map<string, string>, n: nat): (r: Result<seq<seq<nat>>>)
    ensures r.Ok? ==> |r.value| == n
  {
    if n == 0 then Ok([])
    else
      match VregValues(obj, n - 1)
      case Err(e) => Err(e)
      case Ok(vs) =>
        var name := RegName('v', n - 1);
        if name !in obj then Ok(vs + [[]])
        else
          match DecodeVregFixed(obj[name])
          case Err(e) => Err(e)
          case Ok(b) => Ok(vs + [b])
  }

  /** Vector registers cut or padded with empty registers to 32. */
  function PaddedVregs(regs: seq<seq<nat>>): (p: seq<seq<nat>>)
    ensures |p| == 32
    ensures forall i :: 0 <= i < 32 ==> p[i] == if i < |regs| then regs[i] else []
  {
    seq(32, i requires 0 <= i < 32 => if i < |regs| then regs[i] else [])
  }

  lemma {:induction false} VregValuesPrefix(regs: seq<seq<nat>>, n: nat)
    requires AllBytes(regs) && n <= 32
    ensures VregValues(VregFile(regs), n) == Ok(PaddedVregs(regs)[..n])
  {
    if n > 0 {
      var obj := VregFile(regs);
      var p := PaddedVregs(regs);
      VregValuesPrefix(regs, n - 1);
      VregFileMembers(regs, n - 1);
      PrefixSnoc(p, n);
      if n - 1 < |regs| {
        VregRoundTrip(regs[n - 1]);
        VregValuesStep(obj, n, p[..n - 1], regs[n - 1]);
      } else {
        assert VregValues(obj, n) == Ok(p[..n - 1] + [[]]);
      }
    }
  }

  lemma VregValuesStep(obj: map<string, string>, n: nat, vs: seq<seq<nat>>, b: seq<nat>)
    requires n > 0 && VregValues(obj, n - 1) == Ok(vs)
    requires RegName('v', n - 1) in obj && DecodeVregFixed(obj[RegName('v', n - 1)]) == Ok(b)
    ensures VregValues(obj, n) == Ok(vs + [b])
  {
  }

  /** Writing the vector registers and reading them back (with the corrected reader) yields 32 registers. */
  lemma VregFileRoundTrip(regs: seq<seq<nat>>)
    requires AllBytes(regs)
    ensures VregValues(VregFile(regs), 32) == Ok(PaddedVregs(regs))
  {
    VregValuesPrefix(regs, 32);
    assert PaddedVregs(regs)[..32] == PaddedVregs(regs);
  }

  lemma {:induction false} HexBytesRevCons(x: nat, b: seq<nat>)
    requires x < 256 && Bytes(b)
    ensures HexBytesRev([x] + b) == HexBytesRev(b) + LowerPair(x)
    decreases |b|
  {
    if b == [] {
      assert ([x] + b)[..0] == [];
    } else {
      var init := b[..|b| - 1];
      assert ([x] + b)[..|b|] == [x] + init;
      HexBytesRevCons(x, init);
    }
  }

  /** The loop writing one vector register: "0x", then its bytes from the last to the first. */
  method EncodeVreg(b: seq<nat>) returns (s: string)
    requires Bytes(b)
    ensures s == VregHex(b)
  {
    s := "0x";
    var i := |b|;
    assert b[i..] == [];
    assert HexBytesRev(b[i..]) == [];
    assert s == "0x" + HexBytesRev(b[i..]);
    while i > 0
      invariant 0 <= i <= |b|
      invariant s == "0x" + HexBytesRev(b[i..])
    {
      assert b[i - 1..] == [b[i - 1]] + b[i..];
      HexBytesRevCons(b[i - 1], b[i..]);
      assert s + LowerPair(b[i - 1]) == "0x" + (HexBytesRev(b[i..]) + LowerPair(b[i - 1]));
      s := s + LowerPair(b[i - 1]);
      i := i - 1;
    }
    assert b[i..] == b;
  }

  /** Bytes already read in front of what is still to be read. */
  function Prepend(acc: seq<nat>, rest: Result<seq<nat>>): Result<seq<nat>>
  {
    match rest
    case Err(e) => Err(e)
    case Ok(bs) => Ok(acc + bs)
  }

  /**
   * The loop reading the digits after "0x" two at a time (the last piece
   * may be one digit), appending each byte as it is read.
   */
  method DecodeVregPairs(h: string) returns (r: Result<seq<nat>>)
    ensures r == HexPairs(h)
  {
    var bytes: seq<nat> := [];
    var j := 0;
    assert h[j..] == h;
    PrependPrepend([], [], HexPairs(h));
    while j < |h|
      invariant j <= |h|
      invariant HexPairs(h) == Prepend(bytes, HexPairs(h[j..]))
    {
      var k := if |h| - j >= 2 then 2 else 1;
      HexPairsStep(h, j, k);
      var b := ParseByte(h[j..j + k]);
      if b.Err? {
        return Err(b.error);
      }
      PrependPrepend(bytes, [b.value], HexPairs(h[j + k..]));
      bytes := bytes + [b.value];
      j := j + k;
    }
    assert h[j..] == [];
    assert bytes + [] == bytes;
    r := Ok(bytes);
  }

  /** One piece read off the front of the digits still to be read. */
  lemma HexPairsStep(h: string, j: nat, k: nat)
    requires j < |h| && k == (if |h| - j >= 2 then 2 else 1)
    ensures HexPairs(h[j..]) == match ParseByte(h[j..j + k])
                               case Err(e) => Err(e)
                               case Ok(b) => Prepend([b], HexPairs(h[j + k..]))
  {
    assert h[j..][..k] == h[j..j + k];
    assert h[j..][k..] == h[j + k..];
  }

  lemma PrependPrepend(a: seq<nat>, b: seq<nat>, r: Result<seq<nat>>)
    ensures Prepend(a, Prepend(b, r)) == Prepend(a + b, r)
    ensures a == [] && b == [] ==> Prepend(a, r) == r
  {
    if r.Ok? {
      assert a + (b + r.value) == (a + b) + r.value;
      assert [] + r.value == r.value;
    }
  }

  // ----------------------------------------------------------------- registers

  /** The register part of a snapshot: pc, next_pc, xregs, fregs and vregs. */
  datatype Registers = Registers(pc: nat, nextPc: nat, xregs: seq<nat>, fregs: seq<nat>, vregs: seq<seq<nat>>)

  /** The "registers" object: "fregs" and "vregs" may be absent. */
  datatype RegistersJson = RegistersJson(
    pc: string, nextPc: string, xregs: map<string, string>,
    fregs: Option<map<string, string>>, vregs: Option<map<string, string>>)

  /** Every value fits its C++ type: 64-bit registers and byte-vector vector registers. */
  predicate Fits(r: Registers)
  {
    r.pc < U64 && r.nextPc < U64 && Fits64(r.xregs) && Fits64(r.fregs) && AllBytes(r.vregs)
  }

  /** The registers as written: "fregs" only when there are any, "vregs" likewise. */
  function EncodeRegisters(r: Registers): (j: RegistersJson)
    requires AllBytes(r.vregs)
    ensures j.fregs.Some? <==> r.fregs != []
    ensures j.vregs.Some? <==> r.vregs != []
  {
    RegistersJson(
      Uint64ToHex(r.pc), Uint64ToHex(r.nextPc), RegFile('x', r.xregs),
      if r.fregs == [] then None else Some(RegFile('f', r.fregs)),
      if r.vregs == [] then None else Some(VregFile(r.vregs)))
  }

  /**
   * The registers read into a state that held `prior`: xregs are always
   * rebuilt as 32 registers; fregs and vregs only when their member is
   * present, and otherwise keep what the state held.
   */
  function DecodeRegisters(j: RegistersJson, prior: Registers): (r: Result<Registers>)
    ensures r.Ok? ==> |r.value.xregs| == 32
    ensures r.Ok? && j.fregs.None? ==> r.value.fregs == prior.fregs
    ensures r.Ok? && j.vregs.None? ==> r.value.vregs == prior.vregs
  {
    var pc :- HexToUint64(j.pc);
    var nextPc :- HexToUint64(j.nextPc);
    var xregs :- RegValues('x', j.xregs, 32);
    var fregs :- if j.fregs.Some? then RegValues('f', j.fregs.value, 32) else Ok(prior.fregs);
    var vregs :- if j.vregs.Some? then VregValues(j.vregs.value, 32) else Ok(prior.vregs);
    Ok(Registers(pc, nextPc, xregs, fregs, vregs))
  }

  /**
   * Writing registers and reading them back gives the same pc and next_pc,
   * 32 xregs padded with zeros, and fregs/vregs padded to 32 when any were
   * written and otherwise left as they were.
   */
  lemma RegistersRoundTrip(r: Registers, prior: Registers)
    requires Fits(r)
    ensures DecodeRegisters(EncodeRegisters(r), prior) == Ok(Registers(
              r.pc, r.nextPc, Padded(r.xregs),
              if r.fregs == [] then prior.fregs else Padded(r.fregs),
              if r.vregs == [] then prior.vregs else PaddedVregs(r.vregs)))
  {
    HexRoundTrip(r.pc);
    HexRoundTrip(r.nextPc);
    RegFileRoundTrip('x', r.xregs);
    RegFileRoundTrip('f', r.fregs);
    VregFileRoundTrip(r.vregs);
  }

  // ---------------------------------------------------------------------- CSRs

  /** Every CSR address fits in 16 bits and every value in 64. */
  predicate CsrsFit(csrs: map<nat, nat>)
  {
    forall a :: a in csrs ==> a < U16 && csrs[a] < U64
  }

  /** The "csrs" object: one member per CSR, named by its padded hex address. */
  function EncodeCsrs(csrs: map<nat, nat>): (obj: map<string, string>)
  {
    map a | a in csrs && a < U16 :: CsrKey(a) := Uint64ToHex(csrs[a])
  }

  lemma EncodeCsrsMembers(csrs: map<nat, nat>, k: string)
    requires CsrsFit(csrs)
    ensures k in EncodeCsrs(csrs) <==> exists a :: a in csrs && CsrKey(a) == k
    ensures forall a :: a in csrs && CsrKey(a) == k ==> EncodeCsrs(csrs)[k] == Uint64ToHex(csrs[a])
  {
  }

  /**
   * The CSR map read from an object whose members are visited in the order
   * `keys`: each member's name is read as a 16-bit address and its value as
   * a 64-bit number, and a later member overwrites an earlier one with the
   * same address.
   */
  function DecodeCsrs(obj: map<string, string>, keys: seq<string>): (r: Result<map<nat, nat>>)
    requires forall k :: k in keys ==> k in obj
    ensures r.Ok? ==> forall a :: a in r.value ==> a < U16 && r.value[a] < U64
  {
    if keys == [] then Ok(map[])
    else
      var last := keys[|keys| - 1];
      match DecodeCsrs(obj, keys[..|keys| - 1])
      case Err(e) => Err(e)
      case Ok(m) =>
        match CsrAddr(last)
        case Err(e) => Err(e)
        case Ok(addr) =>
          match HexToUint64(obj[last])
          case Err(e) => Err(e)
          case Ok(v) => Ok(m[addr := v])
  }

  /** The CSRs whose member names occur among `keys`. */
  function CsrsNamed(csrs: map<nat, nat>, keys: seq<string>): map<nat, nat>
  {
    map a | a in csrs && a < U16 && CsrKey(a) in keys :: csrs[a]
  }

  lemma CsrsNamedStep(csrs: map<nat, nat>, init: seq<string>, a: nat)
    requires a in csrs && a < U16
    ensures CsrsNamed(csrs, init + [CsrKey(a)]) == CsrsNamed(csrs, init)[a := csrs[a]]
  {
    forall b | b in csrs && b < U16
      ensures CsrKey(b) in init + [CsrKey(a)] <==> CsrKey(b) in init || b == a
    {
      CsrKeyRoundTrip(a, b);
    }
  }

  lemma {:induction false} DecodeCsrsPrefix(csrs: map<nat, nat>, keys: seq<string>)
    requires CsrsFit(csrs)
    requires forall k :: k in keys ==> k in EncodeCsrs(csrs)
    ensures DecodeCsrs(EncodeCsrs(csrs), keys) == Ok(CsrsNamed(csrs, keys))
  {
    if keys != [] {
      var init := keys[..|keys| - 1];
      var last := keys[|keys| - 1];
      assert keys == init + [last];
      assert forall k :: k in init ==> k in keys;
      DecodeCsrsPrefix(csrs, init);
      EncodeCsrsMembers(csrs, last);
      var a :| a in csrs && CsrKey(a) == last;
      CsrKeyRoundTrip(a, a);
      HexRoundTrip(csrs[a]);
      CsrsNamedStep(csrs, init, a);
    }
  }

  /**
   * Writing the CSRs and reading them back, whatever order the object's
   * members are visited in, gives the same map.
   */
  lemma CsrsRoundTrip(csrs: map<nat, nat>, keys: seq<string>)
    requires CsrsFit(csrs)
    requires forall k :: k in keys <==> k in EncodeCsrs(csrs)
    ensures DecodeCsrs(EncodeCsrs(csrs), keys) == Ok(csrs)
  {
    assert forall k :: k in keys ==> k in EncodeCsrs(csrs);
    DecodeCsrsPrefix(csrs, keys);
    CsrsAllNamed(csrs, keys);
  }

  lemma CsrsAllNamed(csrs: map<nat, nat>, keys: seq<string>)
    requires CsrsFit(csrs)
    requires forall k :: k in EncodeCsrs(csrs) ==> k in keys
    ensures CsrsNamed(csrs, keys) == csrs
  {
    var named := CsrsNamed(csrs, keys);
    forall a | a in csrs
      ensures a in named
    {
      EncodeCsrsMembers(csrs, CsrKey(a));
    }
  }

  /** A member that fails to read makes the whole read fail the same way. */
  lemma {:induction false} DecodeCsrsErr(obj: map<string, string>, keys: seq<string>, n: nat)
    requires forall k :: k in keys ==> k in obj
    requires n <= |keys| && DecodeCsrs(obj, keys[..n]).Err?
    ensures DecodeCsrs(obj, keys) == DecodeCsrs(obj, keys[..n])
    decreases |keys| - n
  {
    if n < |keys| {
      var init := keys[..|keys| - 1];
      assert init[..n] == keys[..n];
      DecodeCsrsErr(obj, init, n);
    } else {
      assert keys[..n] == keys;
    }
  }

  /** The loop reading the CSR object: the map is cleared, then filled member by member. */
  method DecodeCsrObject(obj: map<string, string>, keys: seq<string>) returns (r: Result<map<nat, nat>>)
    requires forall k :: k in keys ==> k in obj
    ensures r == DecodeCsrs(obj, keys)
  {
    var csrs: map<nat, nat> := map[];
    var i := 0;
    while i < |keys|
      invariant i <= |keys|
      invariant DecodeCsrs(obj, keys[..i]) == Ok(csrs)
    {
      assert keys[..i + 1][..i] == keys[..i];
      var addr := CsrAddr(keys[i]);
      if addr.Err? {
        DecodeCsrsErr(obj, keys, i + 1);
        return Err(addr.error);
      }
      var v := HexToUint64(obj[keys[i]]);
      if v.Err? {
        DecodeCsrsErr(obj, keys, i + 1);
        return Err(v.error);
      }
      csrs := csrs[addr.value := v.value];
      i := i + 1;
    }
    assert keys[..i] == keys;
    r := Ok(csrs);
  }

  // -------------------------------------------------------------- platform state

  datatype PlatformState = PlatformState(
    curPrivilege: string, hartState: string, htifTohost: nat, htifDone: bool,
    htifExitCode: nat, mtime: nat, mtimecmp: nat,
    reservationValid: bool, reservationAddress: nat)

  /** The "platform" object: the 64-bit fields as hex strings, the rest as they are. */
  datatype PlatformJson = PlatformJson(
    curPrivilege: string, hartState: string, htifTohost: string, htifDone: bool,
    htifExitCode: string, mtime: string, mtimecmp: string,
    reservationValid: bool, reservationAddress: string)

  function EncodePlatform(p: PlatformState): (j: PlatformJson)
    ensures j.curPrivilege == p.curPrivilege && j.hartState == p.hartState
    ensures j.htifDone == p.htifDone && j.reservationValid == p.reservationValid
  {
    PlatformJson(
      p.curPrivilege, p.hartState, Uint64ToHex(p.htifTohost), p.htifDone,
      Uint64ToHex(p.htifExitCode), Uint64ToHex(p.mtime), Uint64ToHex(p.mtimecmp),
      p.reservationValid, Uint64ToHex(p.reservationAddress))
  }

  function DecodePlatform(j: PlatformJson): (r: Result<PlatformState>)
    ensures r.Ok? ==> r.value.curPrivilege == j.curPrivilege && r.value.hartState == j.hartState
    ensures r.Ok? ==> r.value.htifDone == j.htifDone && r.value.reservationValid == j.reservationValid
  {
    var tohost :- HexToUint64(j.htifTohost);
    var exitCode :- HexToUint64(j.htifExitCode);
    var mtime :- HexToUint64(j.mtime);
    var mtimecmp :- HexToUint64(j.mtimecmp);
    var address :- HexToUint64(j.reservationAddress);
    Ok(PlatformState(j.curPrivilege, j.hartState, tohost, j.htifDone, exitCode, mtime, mtimecmp,
                     j.reservationValid, address))
  }

  /** The platform state survives a round trip when its 64-bit fields fit in 64 bits. */
  lemma PlatformRoundTrip(p: PlatformState)
    requires p.htifTohost < U64 && p.htifExitCode < U64 && p.mtime < U64
    requires p.mtimecmp < U64 && p.reservationAddress < U64
    ensures DecodePlatform(EncodePlatform(p)) == Ok(p)
  {
    HexRoundTrip(p.htifTohost);
    HexRoundTrip(p.htifExitCode);
    HexRoundTrip(p.mtime);
    HexRoundTrip(p.mtimecmp);
    HexRoundTrip(p.reservationAddress);
  }

  // ---------------------------------------------------------------- memory index

  datatype MemoryBlockInfo = MemoryBlockInfo(blockId: nat, offset: nat, size: nat)

  datatype MemoryIndex = MemoryIndex(blocks: seq<MemoryBlockInfo>, totalSize: nat)

  /** One entry of "blocks": the id as hex, offset and size as numbers. */
  datatype BlockJson = BlockJson(blockId: string, offset: nat, size: nat)

  datatype IndexJson = IndexJson(totalSize: nat, blocks: seq<BlockJson>)

  function EncodeBlock(b: MemoryBlockInfo): (j: BlockJson)
    ensures j.offset == b.offset && j.size == b.size
  {
    BlockJson(Uint64ToHex(b.blockId), b.offset, b.size)
  }

  function EncodeIndex(idx: MemoryIndex): (j: IndexJson)
    ensures j.totalSize == idx.totalSize && |j.blocks| == |idx.blocks|
    ensures forall i :: 0 <= i < |j.blocks| ==> j.blocks[i] == EncodeBlock(idx.blocks[i])
  {
    IndexJson(idx.totalSize, EncodeBlocks(idx.blocks))
  }

  function EncodeBlocks(blocks: seq<MemoryBlockInfo>): (bs: seq<BlockJson>)
    ensures |bs| == |blocks|
    ensures forall i :: 0 <= i < |bs| ==> bs[i] == EncodeBlock(blocks[i])
  {
    seq(|blocks|, i requires 0 <= i < |blocks| => EncodeBlock(blocks[i]))
  }

  /** The blocks read back in array order; a bad id makes the whole read fail. */
  function DecodeBlocks(bs: seq<BlockJson>): (r: Result<seq<MemoryBlockInfo>>)
    ensures r.Ok? ==> |r.value| == |bs|
    ensures r.Ok? ==> forall i :: 0 <= i < |bs| ==>
              r.value[i].offset == bs[i].offset && r.value[i].size == bs[i].size
  {
    if bs == [] then Ok([])
    else
      var last := bs[|bs| - 1];
      match DecodeBlocks(bs[..|bs| - 1])
      case Err(e) => Err(e)
      case Ok(init) =>
        match HexToUint64(last.blockId)
        case Err(e) => Err(e)
        case Ok(id) => Ok(init + [MemoryBlockInfo(id, last.offset, last.size)])
  }

  function DecodeIndex(j: IndexJson): (r: Result<MemoryIndex>)
    ensures r.Ok? ==> r.value.totalSize == j.totalSize && |r.value.blocks| == |j.blocks|
  {
    var blocks :- DecodeBlocks(j.blocks);
    Ok(MemoryIndex(blocks, j.totalSize))
  }

  predicate IdsFit(blocks: seq<MemoryBlockInfo>)
  {
    forall i :: 0 <= i < |blocks| ==> blocks[i].blockId < U64
  }

  lemma {:induction false} DecodeBlocksRoundTrip(blocks: seq<MemoryBlockInfo>)
    requires IdsFit(blocks)
    ensures DecodeBlocks(EncodeBlocks(blocks)) == Ok(blocks)
  {
    if blocks != [] {
      var n := |blocks|;
      var enc := EncodeBlocks(blocks);
      var init := blocks[..n - 1];
      assert enc[..n - 1] == EncodeBlocks(init);
      DecodeBlocksRoundTrip(init);
      var b := blocks[n - 1];
      HexRoundTrip(b.blockId);
      assert enc[n - 1] == BlockJson(Uint64ToHex(b.blockId), b.offset, b.size);
      assert DecodeBlocks(enc) == Ok(init + [MemoryBlockInfo(b.blockId, b.offset, b.size)]);
      PrefixSnoc(blocks, n);
      assert blocks[..n] == blocks;
    }
  }

  /** Every block id, offset and size and the total size survive a round trip of the index. */
  lemma IndexRoundTrip(idx: MemoryIndex)
    requires IdsFit(idx.blocks)
    ensures DecodeIndex(EncodeIndex(idx)) == Ok(idx)
  {
    DecodeBlocksRoundTrip(idx.blocks);
  }

  /** The loop building the "blocks" array, one object per block in order. */
  method SerializeMemoryIndex(idx: MemoryIndex) returns (j: IndexJson)
    ensures j == EncodeIndex(idx)
  {
    var arr: seq<BlockJson> := [];
    var i := 0;
    while i < |idx.blocks|
      invariant i <= |idx.blocks| && |arr| == i
      invariant forall k :: 0 <= k < i ==> arr[k] == EncodeBlock(idx.blocks[k])
    {
      arr := arr + [EncodeBlock(idx.blocks[i])];
      i := i + 1;
    }
    j := IndexJson(idx.totalSize, arr);
  }

  /** A block that fails to read makes the whole read fail the same way. */
  lemma {:induction false} DecodeBlocksErr(bs: seq<BlockJson>, n: nat)
    requires n <= |bs| && DecodeBlocks(bs[..n]).Err?
    ensures DecodeBlocks(bs) == DecodeBlocks(bs[..n])
    decreases |bs| - n
  {
    if n < |bs| {
      var init := bs[..|bs| - 1];
      assert init[..n] == bs[..n];
      DecodeBlocksErr(init, n);
    } else {
      assert bs[..n] == bs;
    }
  }

  /** The loop reading the "blocks" array back after the blocks are cleared. */
  method DeserializeMemoryIndex(j: IndexJson) returns (r: Result<MemoryIndex>)
    ensures r == DecodeIndex(j)
  {
    var blocks: seq<MemoryBlockInfo> := [];
    var i := 0;
    while i < |j.blocks|
      invariant i <= |j.blocks|
      invariant DecodeBlocks(j.blocks[..i]) == Ok(blocks)
    {
      assert j.blocks[..i + 1][..i] == j.blocks[..i];
      var id := HexToUint64(j.blocks[i].blockId);
      if id.Err? {
        DecodeBlocksErr(j.blocks, i + 1);
        return Err(id.error);
      }
      blocks := blocks + [MemoryBlockInfo(id.value, j.blocks[i].offset, j.blocks[i].size)];
      i := i + 1;
    }
    assert j.blocks[..i] == j.blocks;
    r := Ok(MemoryIndex(blocks, j.totalSize));
  }
}
