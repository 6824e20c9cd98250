/**
 * The JSON text of a snapshot (`snapshot_format.cpp`): 64-bit values as
 * "0x"-prefixed uppercase hex, register files as objects keyed "x0".."x31",
 * "f0".."f31" and "v0".."v31", CSRs keyed by their zero-padded hex address,
 * and the memory index as a list of blocks.
 *
 * A JSON object is a `map<string, string>` from member names to the string
 * values stored there; where the source walks an object's members in its
 * iteration order, that order is a parameter. A C++ exception thrown by
 * `std::stoull`/`std::stoul` (which makes the whole deserialisation return
 * false) is an `Err`.
 */
module SnapshotFormat {
  import opened Wrappers

  /** 2^64, the range of a `uint64_t`. */
  const U64: nat := 0x1_0000_0000_0000_0000

  /** 2^16, the range of a `uint16_t` CSR address. */
  const U16: nat := 0x1_0000

  // ---------------------------------------------------------------- hex digits

  predicate IsHex(c: char)
  {
    '0' <= c <= '9' || 'a' <= c <= 'f' || 'A' <= c <= 'F'
  }

  predicate AllHex(s: string)
  {
    forall i :: 0 <= i < |s| ==> IsHex(s[i])
  }

  function HexVal(c: char): (r: nat)
    requires IsHex(c)
    ensures r < 16
  {
    if c <= '9' then c as nat - '0' as nat
    else if 'a' <= c then c as nat - 'a' as nat + 10
    else c as nat - 'A' as nat + 10
  }

  /** The digit `std::uppercase` prints. */
  function UpperDigit(d: nat): (c: char)
    requires d < 16
    ensures IsHex(c) && HexVal(c) == d && !('a' <= c <= 'f')
  {
    if d < 10 then ('0' as int + d) as char else ('A' as int + d - 10) as char
  }

  /** The digit the default (lowercase) hex stream prints. */
  function LowerDigit(d: nat): (c: char)
    requires d < 16
    ensures IsHex(c) && HexVal(c) == d && !('A' <= c <= 'F')
  {
    if d < 10 then ('0' as int + d) as char else ('a' as int + d - 10) as char
  }

  /** The number a run of hex digits denotes, most significant first. */
  function HexValue(ds: string): nat
    requires AllHex(ds)
  {
    if ds == [] then 0 else 16 * HexValue(ds[..|ds| - 1]) + HexVal(ds[|ds| - 1])
  }

  /** `std::hex << std::uppercase << v`: most significant digit first, no leading zero. */
  function UpperHex(v: nat): (s: string)
    ensures 1 <= |s| && AllHex(s)
    ensures forall i :: 0 <= i < |s| ==> !('a' <= s[i] <= 'f')
    decreases v
  {
    if v < 16 then [UpperDigit(v)] else UpperHex(v / 16) + [UpperDigit(v % 16)]
  }

  lemma {:induction false} UpperHexValue(v: nat)
    ensures HexValue(UpperHex(v)) == v
    decreases v
  {
    if v >= 16 {
      UpperHexValue(v / 16);
      assert UpperHex(v)[..|UpperHex(v)| - 1] == UpperHex(v / 16);
    }
  }

  /** Only zero is printed with a leading `0`. */
  lemma {:induction false} UpperHexNoLeadingZero(v: nat)
    ensures UpperHex(v)[0] == '0' <==> v == 0
    decreases v
  {
    if v >= 16 {
      UpperHexNoLeadingZero(v / 16);
    }
  }

  /** Leading zeros do not change the value of a digit run. */
  lemma {:induction false} HexValueLeadingZero(ds: string)
    requires AllHex(ds)
    ensures AllHex(['0'] + ds) && HexValue(['0'] + ds) == HexValue(ds)
  {
    if ds != [] {
      var init := ds[..|ds| - 1];
      HexValueLeadingZero(init);
      assert (['0'] + ds)[..|ds|] == ['0'] + init;
    }
  }

  function Zeros(n: nat): (z: string)
    ensures |z| == n && forall i :: 0 <= i < n ==> z[i] == '0'
  {
    seq(n, _ => '0')
  }

  lemma {:induction false} HexValueZeros(n: nat, ds: string)
    requires AllHex(ds)
    ensures AllHex(Zeros(n) + ds) && HexValue(Zeros(n) + ds) == HexValue(ds)
  {
    if n == 0 {
      assert Zeros(n) + ds == ds;
    } else {
      HexValueZeros(n - 1, ds);
      assert Zeros(n) + ds == ['0'] + (Zeros(n - 1) + ds);
      HexValueLeadingZero(Zeros(n - 1) + ds);
    }
  }

  /** The number of leading hex digits of `s` (where `strtoull` stops). */
  function HexRun(s: string): (n: nat)
    ensures n <= |s| && AllHex(s[..n])
    ensures n < |s| ==> !IsHex(s[n])
  {
    if s == [] || !IsHex(s[0]) then 0
    else
      var n := 1 + HexRun(s[1..]);
      assert s[..n] == [s[0]] + s[1..][..n - 1];
      n
  }

  lemma {:induction false} HexRunAll(s: string)
    requires AllHex(s)
    ensures HexRun(s) == |s|
  {
    if s != [] {
      HexRunAll(s[1..]);
    }
  }

  // ------------------------------------------------------- 64-bit hex values

  /** `uint64_to_hex`. */
  function Uint64ToHex(v: nat): (s: string)
    ensures |s| >= 3 && s[0] == '0' && s[1] == 'x'
  {
    "0x" + UpperHex(v)
  }

  /**
   * `hex_to_uint64`: 0 unless the string starts with "0x"/"0X" (a lone "0"
   * is read as 0 too); otherwise the hex digits after the prefix, up to the
   * first non-digit, read by `std::stoull` (which throws past 64 bits).
   */
  function HexToUint64(s: string): (r: Result<nat>)
    ensures r.Ok? ==> r.value < U64
  {
    if s == [] || s[0] != '0' || (|s| > 1 && s[1] != 'x' && s[1] != 'X') then Ok(0)
    else if |s| == 1 then Ok(0)
    else ReadDigits(s[2..])
  }

  /** `std::stoull` on the text after the prefix: its leading hex digits, if they fit in 64 bits. */
  function ReadDigits(t: string): (r: Result<nat>)
    ensures r.Ok? ==> r.value < U64
  {
    var digits := t[..HexRun(t)];
    if HexValue(digits) < U64 then Ok(HexValue(digits)) else Err("stoull: out of range")
  }

  /** A string without the "0x"/"0X" prefix reads as 0. */
  lemma HexNeedsPrefix(s: string)
    requires !(|s| >= 2 && s[0] == '0' && (s[1] == 'x' || s[1] == 'X'))
    ensures HexToUint64(s) == Ok(0)
  {
  }

  /** The digits after the prefix, up to the first non-digit, are the value read. */
  lemma HexReadsDigits(x: char, ds: string, rest: string)
    requires x == 'x' || x == 'X'
    requires AllHex(ds) && HexValue(ds) < U64
    requires rest == [] || !IsHex(rest[0])
    ensures HexToUint64(['0', x] + ds + rest) == Ok(HexValue(ds))
  {
    var s := ['0', x] + ds + rest;
    assert s[2..] == ds + rest;
    HexRunPrefix(ds, rest);
    assert (ds + rest)[..|ds|] == ds;
  }

  lemma {:induction false} HexRunPrefix(ds: string, rest: string)
    requires AllHex(ds)
    requires rest == [] || !IsHex(rest[0])
    ensures HexRun(ds + rest) == |ds|
  {
    if ds != [] {
      assert (ds + rest)[1..] == ds[1..] + rest;
      HexRunPrefix(ds[1..], rest);
    }
  }

  /** Every 64-bit value survives `uint64_to_hex` then `hex_to_uint64`. */
  lemma HexRoundTrip(v: nat)
    requires v < U64
    ensures HexToUint64(Uint64ToHex(v)) == Ok(v)
  {
    UpperHexValue(v);
    HexReadsDigits('x', UpperHex(v), []);
    assert Uint64ToHex(v) == ['0', 'x'] + UpperHex(v) + [];
  }

  // ------------------------------------------------------------------ CSR keys

  /** A CSR's member name: "0x" and its address in uppercase hex, zero-padded to 3 digits. */
  function CsrKey(addr: nat): (k: string)
    requires addr < U16
    ensures |k| >= 5 && k[0] == '0' && k[1] == 'x'
    ensures HexToUint64(k) == Ok(addr)
  {
    var ds := UpperHex(addr);
    var pad := if |ds| < 3 then 3 - |ds| else 0;
    UpperHexValue(addr);
    HexValueZeros(pad, ds);
    HexReadsDigits('x', Zeros(pad) + ds, []);
    assert ['0', 'x'] + (Zeros(pad) + ds) + [] == "0x" + Zeros(pad) + ds;
    "0x" + Zeros(pad) + ds
  }

  /** The CSR address read back from a member name: `static_cast<uint16_t>(hex_to_uint64(key))`. */
  function CsrAddr(key: string): (r: Result<nat>)
    ensures r.Ok? ==> r.value < U16
  {
    match HexToUint64(key)
    case Ok(v) => Ok(v % U16)
    case Err(e) => Err(e)
  }

  /** Different CSR addresses get different member names, and each name reads back as its address. */
  lemma CsrKeyRoundTrip(a: nat, b: nat)
    requires a < U16 && b < U16
    ensures CsrAddr(CsrKey(a)) == Ok(a)
    ensures CsrKey(a) == CsrKey(b) <==> a == b
  {
  }

  // ------------------------------------------------------------ register names

  predicate IsDigit(c: char)
  {
    '0' <= c <= '9'
  }

  function DigitVal(c: char): (r: nat)
    requires IsDigit(c)
    ensures r < 10
  {
    c as int - '0' as int
  }

  function DecimalValue(s: string): nat
    requires forall i :: 0 <= i < |s| ==> IsDigit(s[i])
  {
    if s == [] then 0 else 10 * DecimalValue(s[..|s| - 1]) + DigitVal(s[|s| - 1])
  }

  /** `std::to_string(n)` for an unsigned `n`. */
  function Decimal(n: nat): (s: string)
    ensures 1 <= |s| && forall i :: 0 <= i < |s| ==> IsDigit(s[i])
    ensures DecimalValue(s) == n
    decreases n
  {
    var last := ('0' as int + n % 10) as char;
    if n < 10 then
      assert [last][..0] == [];
      [last]
    else
      var s := Decimal(n / 10) + [last];
      assert s[..|s| - 1] == Decimal(n / 10);
      s
  }

  /** A register's member name: its file letter and its index in decimal. */
  function RegName(file: char, i: nat): (k: string)
    ensures |k| >= 2 && k[0] == file
    ensures forall j :: 1 <= j < |k| ==> IsDigit(k[j])
    ensures DecimalValue(k[1..]) == i
  {
    assert ([file] + Decimal(i))[1..] == Decimal(i);
    [file] + Decimal(i)
  }

  /** Register names are distinct across indices and files. */
  lemma RegNameInjective(f: char, g: char, i: nat, j: nat)
    ensures RegName(f, i) == RegName(g, j) <==> f == g && i == j
  {
  }

  // ------------------------------------------------------- integer register files

  /** The object a 64-bit register file is written as: registers 0 .. min(n, 32) - 1. */
  function RegFile(file: char, regs: seq<nat>): (obj: map<string, string>)
  {
    RegFileUpTo(file, regs, if |regs| < 32 then |regs| else 32)
  }

  /** The object after the first `n` registers are written, one member each. */
  function RegFileUpTo(file: char, regs: seq<nat>, n: nat): (obj: map<string, string>)
    requires n <= |regs|
  {
    if n == 0 then map[]
    else RegFileUpTo(file, regs, n - 1)[RegName(file, n - 1) := Uint64ToHex(regs[n - 1])]
  }

  lemma {:induction false} RegFileUpToMembers(file: char, regs: seq<nat>, n: nat, i: nat)
    requires n <= |regs|
    ensures RegName(file, i) in RegFileUpTo(file, regs, n) <==> i < n
    ensures i < n ==> RegFileUpTo(file, regs, n)[RegName(file, i)] == Uint64ToHex(regs[i])
  {
    if n > 0 {
      RegFileUpToMembers(file, regs, n - 1, i);
      RegNameInjective(file, file, i, n - 1);
    }
  }

  /** The members present are exactly the registers written. */
  lemma RegFileMembers(file: char, regs: seq<nat>, i: nat)
    ensures RegName(file, i) in RegFile(file, regs) <==> i < |regs| && i < 32
    ensures i < |regs| && i < 32 ==> RegFile(file, regs)[RegName(file, i)] == Uint64ToHex(regs[i])
  {
    RegFileUpToMembers(file, regs, if |regs| < 32 then |regs| else 32, i);
  }

  /** Registers 0 .. n - 1 read back from an object: missing names read as 0. */
  function RegValues(file: char, obj: map<string, string>, n: nat): (r: Result<seq<nat>>)
    ensures r.Ok? ==> |r.value| == n
  {
    if n == 0 then Ok([])
    else
      match RegValues(file, obj, n - 1)
      case Err(e) => Err(e)
      case Ok(vs) =>
        var name := RegName(file, n - 1);
        if name !in obj then Ok(vs + [0])
        else
          match HexToUint64(obj[name])
          case Err(e) => Err(e)
          case Ok(v) => Ok(vs + [v])
  }

  lemma PrefixSnoc<T>(s: seq<T>, n: nat)
    requires 0 < n <= |s|
    ensures s[..n] == s[..n - 1] + [s[n - 1]]
  {
  }

  /** A register file cut or padded with zeros to 32 registers. */
  function Padded(regs: seq<nat>): (p: seq<nat>)
    ensures |p| == 32
    ensures forall i :: 0 <= i < 32 ==> p[i] == if i < |regs| then regs[i] else 0
  {
    seq(32, i requires 0 <= i < 32 => if i < |regs| then regs[i] else 0)
  }

  predicate Fits64(regs: seq<nat>)
  {
    forall i :: 0 <= i < |regs| ==> regs[i] < U64
  }

  lemma {:induction false} RegValuesPrefix(file: char, regs: seq<nat>, n: nat)
    requires Fits64(regs) && n <= 32
    ensures RegValues(file, RegFile(file, regs), n) == Ok(Padded(regs)[..n])
  {
    if n > 0 {
      RegValuesPrefix(file, regs, n - 1);
      RegFileMembers(file, regs, n - 1);
      if n - 1 < |regs| {
        HexRoundTrip(regs[n - 1]);
      }
      PrefixSnoc(Padded(regs), n);
    }
  }

  /**
   * Writing a register file and reading it back yields 32 registers: the
   * first `min(n, 32)` written ones, then zeros.
   */
  lemma RegFileRoundTrip(file: char, regs: seq<nat>)
    requires Fits64(regs)
    ensures RegValues(file, RegFile(file, regs), 32) == Ok(Padded(regs))
  {
    RegValuesPrefix(file, regs, 32);
    assert Padded(regs)[..32] == Padded(regs);
  }

  // ------------------------------------------------------------ vector registers

  predicate Bytes(b: seq<nat>)
  {
    forall i :: 0 <= i < |b| ==> b[i] < 256
  }

  /** One byte as two lowercase hex digits (`std::setw(2)`, fill '0'). */
  function LowerPair(b: nat): (s: string)
    requires b < 256
    ensures |s| == 2 && AllHex(s) && 16 * HexVal(s[0]) + HexVal(s[1]) == b
  {
    [LowerDigit(b / 16), LowerDigit(b % 16)]
  }

  /** The bytes from the last one to the first, two digits each. */
  function HexBytesRev(b: seq<nat>): (s: string)
    requires Bytes(b)
    ensures |s| == 2 * |b|
  {
    if b == [] then [] else LowerPair(b[|b| - 1]) + HexBytesRev(b[..|b| - 1])
  }

  /** A vector register's member value. */
  function VregHex(b: seq<nat>): (s: string)
    requires Bytes(b)
  {
    "0x" + HexBytesRev(b)
  }

  function Reverse(b: seq<nat>): (r: seq<nat>)
    ensures |r| == |b|
    ensures forall i :: 0 <= i < |b| ==> r[i] == b[|b| - 1 - i]
  {
    if b == [] then [] else [b[|b| - 1]] + Reverse(b[..|b| - 1])
  }

  lemma ReverseReverse(b: seq<nat>)
    ensures Reverse(Reverse(b)) == b
  {
  }

  predicate IsSpace(c: char)
  {
    c == ' ' || c == '\t' || c == '\n' || c == '\r' || c == '\U{000B}' || c == '\U{000C}'
  }

  /**
   * `static_cast<uint8_t>(std::stoul(p, nullptr, 16))` for a one- or
   * two-character piece: leading white space and a sign are skipped, a
   * negative value wraps around, and a piece with no hex digit throws.
   */
  function ParseByte(p: string): (r: Result<nat>)
    requires 1 <= |p| <= 2
    ensures r.Ok? ==> r.value < 256
  {
    var c := p[0];
    var next := |p| == 2 && IsHex(p[1]);
    if IsHex(c) then Ok(if next then 16 * HexVal(c) + HexVal(p[1]) else HexVal(c))
    else if next && (IsSpace(c) || c == '+') then Ok(HexVal(p[1]))
    else if next && c == '-' then Ok((256 - HexVal(p[1])) % 256)
    else Err("stoul: invalid argument")
  }

  /** The bytes of a digit string read two characters at a time, first to last. */
  function HexPairs(h: string): (r: Result<seq<nat>>)
    decreases |h|
  {
    if h == [] then Ok([])
    else
      var k := if |h| >= 2 then 2 else 1;
      match ParseByte(h[..k])
      case Err(e) => Err(e)
      case Ok(b) =>
        match HexPairs(h[k..])
        case Err(e) => Err(e)
        case Ok(bs) => Ok([b] + bs)
  }

  /** A vector register read back as written: an empty register unless the value starts with "0x". */
  function DecodeVreg(s: string): (r: Result<seq<nat>>)
  {
    if |s| >= 2 && s[..2] == "0x" then HexPairs(s[2..]) else Ok([])
  }

  lemma {:induction false} HexPairsOfReversed(b: seq<nat>)
    requires Bytes(b)
    ensures HexPairs(HexBytesRev(b)) == Ok(Reverse(b))
  {
    if b != [] {
      var init := b[..|b| - 1];
      HexPairsOfReversed(init);
      var h := HexBytesRev(b);
      assert h[..2] == LowerPair(b[|b| - 1]);
      assert h[2..] == HexBytesRev(init);
    }
  }

  /**
   * As written, reading back a written vector register reverses its bytes:
   * the writer prints them last to first and the reader appends them first
   * to last.
   */
  lemma VregRoundTripReverses(b: seq<nat>)
    requires Bytes(b)
    ensures DecodeVreg(VregHex(b)) == Ok(Reverse(b))
  {
    assert VregHex(b)[..2] == "0x";
    assert VregHex(b)[2..] == HexBytesRev(b);
    HexPairsOfReversed(b);
  }

  /** The register {1, 2} is written "0x0201" and read back as {2, 1}. */
  lemma VregTwoBytes()
    ensures VregHex([1, 2]) == "0x0201"
    ensures DecodeVreg("0x0201") == Ok([2, 1])
  {
    assert LowerPair(2) == "02" && LowerPair(1) == "01";
    assert HexBytesRev([1]) == LowerPair(1) + HexBytesRev([]);
    assert HexBytesRev([1, 2]) == LowerPair(2) + HexBytesRev([1]);
    assert VregHex([1, 2]) == "0x0201";
    VregRoundTripReverses([1, 2]);
    assert Reverse([1]) == [1];
    assert Reverse([1, 2]) == [2, 1];
  }

  /** The reader with the bytes put back in the writer's order. */
  function DecodeVregFixed(s: string): (r: Result<seq<nat>>)
  {
    match DecodeVreg(s)
    case Err(e) => Err(e)
    case Ok(bs) => Ok(Reverse(bs))
  }

  /** With the corrected reader every vector register survives a round trip. */
  lemma VregRoundTrip(b: seq<nat>)
    requires Bytes(b)
    ensures DecodeVregFixed(VregHex(b)) == Ok(b)
  {
    VregRoundTripReverses(b);
    ReverseReverse(b);
  }
}
