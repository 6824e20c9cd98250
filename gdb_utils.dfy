/**
 * Utilities of the GDB remote serial protocol server: hex digit codecs,
 * big- and little-endian hex integers read from a request, growable
 * protocol message buffers, and the debugger's view of the model (run state,
 * step count and software-breakpoint slots).
 *
 * A C `char` is a Dafny `char`; a request buffer `cmd_buf[0 .. bufsz)` that
 * is only read is a `seq<char>`; an `rsp_buf` that is appended to is the
 * class `RspBuf` over an `array<char>`.
 */
module GdbUtils {
  import opened Wrappers

  /** BUFSZ: the first capacity of a message buffer. */
  const BufSz: nat := 2048

  /** MAX_BREAKPOINTS. */
  const MaxBreakpoints: nat := 64

  /** 2^64, the range of a `uint64_t`. */
  const U64: nat := 0x1_0000_0000_0000_0000

  function Pow16(n: nat): (r: nat)
    ensures r >= 1
  {
    if n == 0 then 1 else 16 * Pow16(n - 1)
  }

  lemma {:induction false} Pow16Add(a: nat, b: nat)
    ensures Pow16(a + b) == Pow16(a) * Pow16(b)
  {
    if b > 0 {
      Pow16Add(a, b - 1);
      assert Pow16(a + b) == 16 * Pow16(a + b - 1);
    }
  }

  lemma Pow16Sixteen()
    ensures Pow16(16) == U64
  {
    assert Pow16(2) == 256 by {
      assert Pow16(1) == 16 * Pow16(0);
    }
    assert Pow16(4) == 0x1_0000 by {
      Pow16Add(2, 2);
    }
    assert Pow16(8) == 0x1_0000_0000 by {
      Pow16Add(4, 4);
    }
    Pow16Add(8, 8);
  }

  lemma Pow16Monotone(a: nat, b: nat)
    requires a <= b
    ensures Pow16(a) <= Pow16(b)
  {
    Pow16Add(a, b - a);
  }

  // ---------------------------------------------------------------------
  // Hex digits
  // ---------------------------------------------------------------------

  predicate IsHexDigit(c: char)
  {
    '0' <= c <= '9' || 'a' <= c <= 'f' || 'A' <= c <= 'F'
  }

  predicate IsLowerHexDigit(c: char)
  {
    '0' <= c <= '9' || 'a' <= c <= 'f'
  }

  /** int_of_hex: the value of a hex digit of either case; any other character reads as 0. */
  function IntOfHex(c: char): (r: nat)
    ensures r < 16
    ensures !IsHexDigit(c) ==> r == 0
  {
    if '0' <= c <= '9' then c as int - '0' as int
    else if 'a' <= c <= 'f' then c as int - 'a' as int + 10
    else if 'A' <= c <= 'F' then c as int - 'A' as int + 10
    else 0
  }

  /** hex_of_int: the lower-case digit of a value below 16, which int_of_hex reads back. */
  function HexOfInt(v: nat): (c: char)
    requires v < 16
    ensures IsLowerHexDigit(c)
    ensures IntOfHex(c) == v
  {
    if v < 10 then (v + '0' as int) as char else (v - 10 + 'a' as int) as char
  }

  /** Upper- and lower-case letters name the same digit. */
  lemma HexCaseInsensitive(c: char)
    requires 'a' <= c <= 'f'
    ensures IntOfHex(c) == IntOfHex((c as int - 32) as char)
  {
  }

  /** Every lower-case digit is the one hex_of_int writes for its value. */
  lemma HexOfIntOfHex(c: char)
    requires IsLowerHexDigit(c)
    ensures HexOfInt(IntOfHex(c)) == c
  {
  }

  /** push_hex_byte: the high nibble's digit, then the low nibble's. */
  function PushHexByte(b: nat): (s: seq<char>)
    requires b < 256
    ensures |s| == 2 && IsLowerHexDigit(s[0]) && IsLowerHexDigit(s[1])
    ensures 16 * IntOfHex(s[0]) + IntOfHex(s[1]) == b
  {
    [HexOfInt(b / 16), HexOfInt(b % 16)]
  }

  /** Two digits encode one byte: distinct bytes give distinct digit pairs. */
  lemma PushHexByteInjective(a: nat, b: nat)
    requires a < 256 && b < 256
    requires PushHexByte(a) == PushHexByte(b)
    ensures a == b
  {
  }

  // ---------------------------------------------------------------------
  // Hex integers in a request
  // ---------------------------------------------------------------------

  /** The index of the first `t` at or after `i` in `buf`, if there is one. */
  function FindTerminator(buf: seq<char>, i: nat, t: char): (r: Option<nat>)
    decreases |buf| - i
    ensures r.Some? ==> i <= r.value < |buf| && buf[r.value] == t
    ensures r.Some? ==> forall k :: i <= k < r.value ==> buf[k] != t
    ensures r.None? ==> forall k :: i <= k < |buf| ==> buf[k] != t
  {
    if i >= |buf| then None else if buf[i] == t then Some(i) else FindTerminator(buf, i + 1, t)
  }

  /** The first `t` from `i` is at `j`. */
  lemma TerminatorAt(buf: seq<char>, i: nat, t: char, j: nat)
    requires i <= j < |buf| && buf[j] == t
    requires forall k :: i <= k < j ==> buf[k] != t
    ensures FindTerminator(buf, i, t) == Some(j)
  {
    var r := FindTerminator(buf, i, t);
  }

  /** No `t` lies at or after `i`. */
  lemma NoTerminator(buf: seq<char>, i: nat, t: char)
    requires forall k :: i <= k < |buf| ==> buf[k] != t
    ensures FindTerminator(buf, i, t) == None
  {
    var r := FindTerminator(buf, i, t);
  }

  /** The big-endian value of a string of hex digits, the first digit most significant. */
  function BeValue(ds: seq<char>): (r: nat)
    ensures r < Pow16(|ds|)
  {
    if ds == [] then 0 else 16 * BeValue(ds[..|ds| - 1]) + IntOfHex(ds[|ds| - 1])
  }

  /** The little-endian value of a string of digit pairs, the first pair the least significant byte. */
  function LeValue(ds: seq<char>): (r: nat)
    ensures r < Pow16(|ds|)
  {
    if |ds| < 2 then 0
    else
      assert Pow16(|ds|) == 256 * Pow16(|ds| - 2);
      PairByte(ds[0], ds[1]) + 256 * LeValue(ds[2..])
  }

  /** What extract_hex_integer_be computes: the terminator's index and the digits' value mod 2^64. */
  function ExtractBe(buf: seq<char>, start: nat, t: char): Option<(nat, nat)>
  {
    match FindTerminator(buf, start, t)
    case None => None
    case Some(j) => Some((j, BeValue(buf[start..j]) % U64))
  }

  /** What extract_hex_integer_le computes: a whole number of digit pairs must precede the terminator. */
  function ExtractLe(buf: seq<char>, start: nat, t: char): Option<(nat, nat)>
  {
    match FindTerminator(buf, start, t)
    case None => None
    case Some(j) => if (j - start) % 2 == 1 then None else Some((j, LeValue(buf[start..j]) % U64))
  }

  /** Shifting a 64-bit value left by a nibble and OR-ing a digit into the cleared nibble. */
  lemma ShiftInDigit(x: nat, d: nat)
    requires d < 16
    ensures ((x % U64) * 16) % U64 + d == (16 * x + d) % U64
  {
    var q, r := x / U64, x % U64;
    assert x == U64 * q + r;
    var b, a := (16 * r) / U64, (16 * r) % U64;
    assert 16 * r == U64 * b + a;
    var c := r - 0x1000_0000_0000_0000 * b;
    assert a == 16 * c;
    assert c < 0x1000_0000_0000_0000;
    ModAddMultiple(16 * x + d, a + d, 16 * q + b);
  }

  /**
   * extract_hex_integer_be: reads hex digits from `start` up to the
   * terminator, most significant first, into a 64-bit value; returns -1 when
   * no terminator lies before the end of the buffer.
   */
  method ExtractHexIntegerBe(buf: seq<char>, start: nat, t: char) returns (status: int, ofs: nat, val: nat)
    ensures status == 0 || status == -1
    ensures status == 0 <==> ExtractBe(buf, start, t).Some?
    ensures status == 0 ==> (ofs, val) == ExtractBe(buf, start, t).value
    ensures status == -1 ==> ofs == start
  {
    val := 0;
    if start >= |buf| {
      NoTerminator(buf, start, t);
      return -1, start, val;
    }
    var i := start;
    while i < |buf| && buf[i] != t
      invariant start <= i <= |buf|
      invariant forall k :: start <= k < i ==> buf[k] != t
      invariant val == BeValue(buf[start..i]) % U64
    {
      ShiftInDigit(BeValue(buf[start..i]), IntOfHex(buf[i]));
      assert buf[start..i + 1][..i - start] == buf[start..i];
      // the low nibble of `val << 4` is clear, so OR-ing the digit adds it
      val := (val * 16) % U64 + IntOfHex(buf[i]);
      i := i + 1;
    }
    if i == |buf| {
      NoTerminator(buf, start, t);
      return -1, start, val;
    }
    TerminatorAt(buf, start, t, i);
    status, ofs := 0, i;
  }

  /** The byte a digit pair spells, high nibble first. */
  function PairByte(a: char, b: char): (r: nat)
    ensures r < 256
  {
    16 * IntOfHex(a) + IntOfHex(b)
  }

  /** `x << 8n`: `x` moved up by `n` bytes. */
  function ShiftBytes(x: nat, n: nat): nat
  {
    if n == 0 then x else 256 * ShiftBytes(x, n - 1)
  }

  lemma ShiftBytesEight(x: nat)
    ensures ShiftBytes(x, 8) == U64 * x
  {
    calc {
      ShiftBytes(x, 8);
      256 * ShiftBytes(x, 7);
      0x1_0000 * ShiftBytes(x, 6);
      0x100_0000 * ShiftBytes(x, 5);
      0x1_0000_0000 * ShiftBytes(x, 4);
      0x100_0000_0000 * ShiftBytes(x, 3);
      0x1_0000_0000_0000 * ShiftBytes(x, 2);
      0x100_0000_0000_0000 * ShiftBytes(x, 1);
      U64 * x;
    }
  }

  /** A value `x + 2^64 h` with `x` below 2^64 is `x` modulo 2^64. */
  lemma ModAddMultiple(y: nat, x: nat, h: nat)
    requires y == x + U64 * h && x < U64
    ensures y % U64 == x
  {
    assert y == U64 * (y / U64) + y % U64;
    assert U64 * (h - y / U64) == y % U64 - x;
  }

  /** Appending a digit pair to a little-endian string adds its byte at the next byte position. */
  lemma {:induction false} LeValueSnoc(ds: seq<char>, a: char, b: char, n: nat)
    requires |ds| == 2 * n
    ensures LeValue(ds + [a, b]) == LeValue(ds) + ShiftBytes(PairByte(a, b), n)
  {
    if ds != [] {
      var rest := ds[2..];
      assert (ds + [a, b])[2..] == rest + [a, b];
      assert LeValue(ds + [a, b]) == PairByte(ds[0], ds[1]) + 256 * LeValue(rest + [a, b]);
      LeValueSnoc(rest, a, b, n - 1);
    } else {
      assert LeValue([a, b]) == PairByte(a, b) + 256 * LeValue([]);
    }
  }

  function Min(a: nat, b: nat): nat
  {
    if a < b then a else b
  }

  /** A little-endian string splits at any pair boundary into its low and high parts. */
  lemma {:induction false} LeValueSplit(ds: seq<char>, k: nat, n: nat)
    requires k == 2 * n && k <= |ds|
    ensures LeValue(ds) == LeValue(ds[..k]) + ShiftBytes(LeValue(ds[k..]), n)
  {
    if k > 0 {
      var rest := ds[2..];
      assert rest[..k - 2] == ds[..k][2..];
      assert rest[k - 2..] == ds[k..];
      LeValueSplit(rest, k - 2, n - 1);
      assert LeValue(ds) == PairByte(ds[0], ds[1]) + 256 * LeValue(rest);
      assert LeValue(ds[..k]) == PairByte(ds[0], ds[1]) + 256 * LeValue(rest[..k - 2]);
    } else {
      assert ds[..0] == [] && ds[0..] == ds;
    }
  }

  /** Only the first eight digit pairs matter modulo 2^64. */
  lemma LeValueLow(ds: seq<char>)
    ensures LeValue(ds) % U64 == LeValue(ds[..Min(|ds|, 16)])
  {
    Pow16Sixteen();
    if |ds| <= 16 {
      Pow16Monotone(|ds|, 16);
      assert ds[..|ds|] == ds;
      ModAddMultiple(LeValue(ds), LeValue(ds), 0);
    } else {
      var low, high := ds[..16], ds[16..];
      LeValueSplit(ds, 16, 8);
      ShiftBytesEight(LeValue(high));
      assert |low| == 16;
      assert ds[..Min(|ds|, 16)] == low;
      ModAddMultiple(LeValue(ds), LeValue(low), LeValue(high));
    }
  }

  /** The state of ScanPairs after `pairs` whole pairs from `start`. */
  ghost predicate Scanned(buf: seq<char>, start: nat, t: char, i: nat, pairs: nat, low: seq<char>, val: nat)
  {
    && start <= i <= |buf| && i == start + 2 * pairs
    && (forall k :: start <= k < i ==> buf[k] != t)
    && low == buf[start..Min(i, start + 16)]
    && val == LeValue(low)
  }

  /** One more whole pair read by ScanPairs. */
  lemma ScanStep(buf: seq<char>, start: nat, t: char, i: nat, pairs: nat, low: seq<char>, val: nat, byte: nat)
    returns (low': seq<char>, val': nat)
    requires Scanned(buf, start, t, i, pairs, low, val)
    requires i + 2 <= |buf| && buf[i] != t && buf[i + 1] != t
    requires byte == PairByte(buf[i], buf[i + 1])
    ensures Scanned(buf, start, t, i + 2, pairs + 1, low', val')
    ensures val' == if 8 * pairs < 64 then val + ShiftBytes(byte, 8 * pairs / 8) else val
  {
    if pairs < 8 {
      assert Min(i, start + 16) == i && Min(i + 2, start + 16) == i + 2;
      low' := low + [buf[i], buf[i + 1]];
      assert buf[start..i + 2] == low';
      LeValueSnoc(low, buf[i], buf[i + 1], pairs);
      assert 8 * pairs / 8 == pairs;
      val' := val + ShiftBytes(byte, pairs);
    } else {
      assert Min(i, start + 16) == start + 16 == Min(i + 2, start + 16);
      low', val' := low, val;
    }
  }

  /** The terminator, or the end, met inside a pair. */
  lemma ScanMid(buf: seq<char>, start: nat, t: char, i: nat, pairs: nat, low: seq<char>, val: nat)
    requires Scanned(buf, start, t, i, pairs, low, val)
    requires i < |buf| && buf[i] != t && (i + 1 == |buf| || buf[i + 1] == t)
    ensures forall k :: start <= k < i + 1 ==> buf[k] != t
    ensures (i + 1 - start) % 2 == 1
  {
  }

  /** The terminator, or the end, met at a pair boundary. */
  lemma ScanEnd(buf: seq<char>, start: nat, t: char, i: nat, pairs: nat, low: seq<char>, val: nat)
    requires Scanned(buf, start, t, i, pairs, low, val)
    ensures forall k :: start <= k < i ==> buf[k] != t
    ensures (i - start) % 2 == 0
    ensures val == LeValue(buf[start..i][..Min(i - start, 16)])
  {
    assert buf[start..i][..Min(i - start, 16)] == low;
  }

  /** One pair of digits at `i`, or `mid` when the terminator or the end cuts it short. */
  method ReadPair(buf: seq<char>, i: nat, t: char) returns (mid: bool, byte: nat)
    requires i < |buf|
    ensures mid <==> i + 1 >= |buf| || buf[i + 1] == t
    ensures !mid ==> byte == PairByte(buf[i], buf[i + 1])
  {
    var hi := IntOfHex(buf[i]);
    if i + 1 >= |buf| || buf[i + 1] == t {
      return true, 0;
    }
    byte := 16 * hi + IntOfHex(buf[i + 1]);
    mid := false;
  }

  /**
   * The pair loop of extract_hex_integer_le: stops at the end of the buffer
   * or at a terminator, `midPair` telling whether that happened inside a
   * pair; `val` has the bytes of the whole pairs read that fit in 64 bits.
   */
  method ScanPairs(buf: seq<char>, start: nat, t: char) returns (stop: nat, midPair: bool, val: nat)
    requires start < |buf|
    ensures start <= stop <= |buf| && (stop == |buf| || buf[stop] == t)
    ensures forall k :: start <= k < stop ==> buf[k] != t
    ensures (stop - start) % 2 == (if midPair then 1 else 0)
    ensures !midPair ==> val == LeValue(buf[start..stop][..Min(stop - start, 16)])
  {
    val := 0;
    var i := start;
    var shft := 0;
    ghost var pairs := 0;
    ghost var low: seq<char> := [];
    while i < |buf| && buf[i] != t
      invariant Scanned(buf, start, t, i, pairs, low, val)
      invariant shft == 8 * pairs
    {
      var mid, byte := ReadPair(buf, i, t);
      if mid {
        ScanMid(buf, start, t, i, pairs, low, val);
        return i + 1, true, val;
      }
      ghost var low', val' := ScanStep(buf, start, t, i, pairs, low, val, byte);
      i := i + 2;
      if shft < 64 {
        // the byte lands on cleared bits, so OR-ing it adds it
        val := val + ShiftBytes(byte, shft / 8);
      }
      low := low';
      shft := shft + 8;
      pairs := pairs + 1;
    }
    ScanEnd(buf, start, t, i, pairs, low, val);
    stop, midPair := i, false;
  }

  /**
   * extract_hex_integer_le: reads digit pairs from `start` up to the
   * terminator, pair k being byte k of the 64-bit value; returns -1 when the
   * terminator falls inside a pair or no terminator lies before the end of
   * the buffer.  Each byte is shifted as a 64-bit value: the corrected form
   * of the shift that `LeShiftAsWritten` models.
   */
  method ExtractHexIntegerLe(buf: seq<char>, start: nat, t: char) returns (status: int, ofs: nat, val: nat)
    ensures status == 0 || status == -1
    ensures status == 0 <==> ExtractLe(buf, start, t).Some?
    ensures status == 0 ==> (ofs, val) == ExtractLe(buf, start, t).value
    ensures status == -1 ==> ofs == start
  {
    val := 0;
    if start >= |buf| {
      NoTerminator(buf, start, t);
      return -1, start, val;
    }
    var stop, midPair;
    stop, midPair, val := ScanPairs(buf, start, t);
    if stop == |buf| {
      NoTerminator(buf, start, t);
      return -1, start, val;
    }
    TerminatorAt(buf, start, t, stop);
    if midPair {
      return -1, start, val;
    }
    LeValueLow(buf[start..stop]);
    status, ofs := 0, stop;
  }

  /**
   * `byte << shft` as extract_hex_integer_le writes it: `byte` is an `int`,
   * so the shift is done in 32-bit signed arithmetic before the result is
   * OR-ed into the 64-bit value.  C leaves it undefined (None) once `shft`
   * reaches 32, or when the shifted byte does not fit below 2^31.
   */
  function LeShiftAsWritten(byte: nat, shft: nat): Option<nat>
    requires shft % 8 == 0
  {
    if shft >= 32 then None
    else
      var v := ShiftBytes(byte, shft / 8);
      if v < 0x8000_0000 then Some(v) else None
  }

  lemma ShiftBytesThree(byte: nat)
    ensures ShiftBytes(byte, 3) == 0x100_0000 * byte
  {
    assert ShiftBytes(byte, 3) == 256 * ShiftBytes(byte, 2);
    assert ShiftBytes(byte, 2) == 256 * ShiftBytes(byte, 1);
  }

  /**
   * The as-written shift of a digit pair's byte is defined exactly for the
   * first three pairs, and for the fourth only when the byte is below 0x80;
   * where it is defined it is the 64-bit shift the model uses.
   */
  lemma LeShiftDefinedIffAsWritten(byte: nat, shft: nat)
    requires byte < 256 && shft % 8 == 0
    ensures LeShiftAsWritten(byte, shft).Some? <==> shft < 24 || (shft == 24 && byte < 0x80)
    ensures LeShiftAsWritten(byte, shft).Some? ==> LeShiftAsWritten(byte, shft).value == ShiftBytes(byte, shft / 8)
  {
    if shft < 32 {
      ShiftBytesThree(byte);
      assert ShiftBytes(byte, 1) == 256 * byte;
      if shft == 0 {
      } else if shft == 8 {
      } else if shft == 16 {
        assert ShiftBytes(byte, 2) == 0x1_0000 * byte;
      } else {
        assert shft == 24;
      }
    }
  }

  /**
   * An eight-byte register value sent as "0000000001#": the fifth pair is
   * shifted by 32, undefined as written, while the 64-bit reading is 2^32.
   */
  lemma FifthPairUndefinedAsWritten()
    ensures LeShiftAsWritten(PairByte('0', '1'), 32) == None
    ensures ExtractLe("0000000001#", 0, '#') == Some((10, 0x1_0000_0000))
  {
    var buf := "0000000001#";
    TerminatorAt(buf, 0, '#', 10);
    assert buf[0..10] == "0000000001";
    assert "0000000001"[2..] == "00000001";
    assert "00000001"[2..] == "000001";
    assert "000001"[2..] == "0001";
    assert "0001"[2..] == "01";
    assert LeValue("01") == 1;
    assert LeValue("0001") == 256;
    assert LeValue("000001") == 0x1_0000;
    assert LeValue("00000001") == 0x100_0000;
    assert LeValue("0000000001") == 0x1_0000_0000;
  }

  // ---------------------------------------------------------------------
  // Message buffers
  // ---------------------------------------------------------------------

  /** strlen: the length of the prefix before the first NUL. */
  function StrLen(s: seq<char>): (n: nat)
    ensures n <= |s| && '\0' !in s[..n]
    ensures n < |s| ==> s[n] == '\0'
  {
    if s == [] || s[0] == '\0' then 0
    else
      assert s[..1 + StrLen(s[1..])] == [s[0]] + s[1..][..StrLen(s[1..])];
      1 + StrLen(s[1..])
  }

  /**
   * An `rsp_buf`: `cmd` is `cmd_buf` (absent while `hasBuf` is false), the
   * message is `cmd[..bufofs]`, and the allocation holds `bufsz + 1` chars so
   * that a NUL always fits after a full buffer.
   */
  class RspBuf {
    var cmd: array<char>
    var hasBuf: bool
    var bufofs: nat
    var bufsz: nat

    ghost predicate Valid()
      reads this
    {
      && bufofs <= bufsz
      && (hasBuf ==> cmd.Length == bufsz + 1 && BufSz <= bufsz)
      && (!hasBuf ==> bufofs == 0 && bufsz == 0)
    }

    /** The message held so far. */
    function Contents(): (s: seq<char>)
      requires Valid()
      reads this, cmd
      ensures |s| == bufofs
    {
      cmd[..bufofs]
    }

    /** An empty buffer `{ NULL, 0, 0 }`. */
    constructor ()
      ensures Valid() && !hasBuf && Contents() == []
    {
      cmd := new char[0];
      hasBuf := false;
      bufofs := 0;
      bufsz := 0;
    }

    /**
     * grow_rsp_buf: a missing buffer gets BUFSZ chars and an empty message;
     * an existing one is reallocated to twice its size, keeping its contents.
     */
    method Grow()
      requires Valid()
      modifies this
      ensures Valid() && hasBuf && fresh(cmd)
      ensures old(!hasBuf) ==> bufsz == BufSz && bufofs == 0
      ensures old(hasBuf) ==> bufsz == 2 * old(bufsz) && bufofs == old(bufofs) && cmd[..old(bufsz) + 1] == old(cmd[..])
      ensures Contents() == old(Contents())
    {
      if !hasBuf {
        cmd := new char[BufSz + 1];
        bufofs := 0;
        bufsz := BufSz;
        hasBuf := true;
        return;
      }
      var grown := new char[2 * bufsz + 1];
      forall k | 0 <= k < cmd.Length {
        grown[k] := cmd[k];
      }
      assert grown[..bufofs] == cmd[..bufofs];
      cmd := grown;
      bufsz := 2 * bufsz;
    }

    /**
     * append_rsp_buf_bytes: grows until the message and a NUL fit, copies
     * `msg` after the current message and terminates it with NUL.
     */
    method AppendBytes(msg: seq<char>)
      requires Valid()
      modifies this, cmd
      ensures Valid() && hasBuf && (cmd == old(cmd) || fresh(cmd))
      ensures Contents() == old(Contents()) + msg
      ensures bufofs < bufsz && cmd[bufofs] == '\0'
    {
      while bufofs + |msg| >= bufsz
        invariant Valid() && (cmd == old(cmd) || fresh(cmd))
        invariant bufofs == old(bufofs) && Contents() == old(Contents())
        decreases bufofs + |msg| + 1 - bufsz
      {
        Grow();
      }
      ghost var before := Contents();
      forall k | 0 <= k < |msg| {
        cmd[bufofs + k] := msg[k];
      }
      assert cmd[..bufofs + |msg|] == before + msg;
      bufofs := bufofs + |msg|;
      cmd[bufofs] := '\0';
      assert cmd[..bufofs] == before + msg;
    }

    /** append_rsp_buf_msg: appends a C string, up to its NUL. */
    method AppendMsg(msg: seq<char>)
      requires Valid()
      modifies this, cmd
      ensures Valid() && hasBuf && (cmd == old(cmd) || fresh(cmd))
      ensures Contents() == old(Contents()) + msg[..StrLen(msg)]
      ensures bufofs < bufsz && cmd[bufofs] == '\0'
    {
      AppendBytes(msg[..StrLen(msg)]);
    }

    /** append_rsp_buf_hex_byte: appends the byte's two hex digits and no NUL. */
    method AppendHexByte(b: nat)
      requires Valid() && b < 256
      modifies this, cmd
      ensures Valid() && hasBuf && (cmd == old(cmd) || fresh(cmd))
      ensures Contents() == old(Contents()) + PushHexByte(b)
      ensures bufofs < bufsz
    {
      while bufofs + 2 >= bufsz
        invariant Valid() && (cmd == old(cmd) || fresh(cmd))
        invariant bufofs == old(bufofs) && Contents() == old(Contents())
        decreases bufofs + 3 - bufsz
      {
        Grow();
      }
      ghost var before := Contents();
      var digits := PushHexByte(b);
      cmd[bufofs] := digits[0];
      cmd[bufofs + 1] := digits[1];
      assert cmd[..bufofs + 2] == before + digits;
      bufofs := bufofs + 2;
    }
  }

  // ---------------------------------------------------------------------
  // The debugger's model state
  // ---------------------------------------------------------------------

  /** model_run_state_t. */
  datatype RunState = RunStart | RunRunning | RunBreakpoint | RunHalt

  /** sw_breakpoint: `kind` is 2 (c.ebreak) or 4 (ebreak) once inserted. */
  datatype Breakpoint = Breakpoint(active: bool, kind: int, addr: nat)

  /** model_state: the run state, the step count and MAX_BREAKPOINTS breakpoint slots. */
  class ModelState {
    var runState: RunState
    var stepNo: int
    const breakpoints: array<Breakpoint>

    constructor ()
      ensures breakpoints.Length == MaxBreakpoints && fresh(breakpoints)
    {
      runState := RunStart;
      stepNo := 0;
      breakpoints := new Breakpoint[MaxBreakpoints](_ => Breakpoint(false, 0, 0));
    }

    /** init_gdb_model: zeroes the state, so the run state is START and every slot is inactive. */
    method InitGdbModel()
      modifies this, breakpoints
      ensures runState == RunStart && stepNo == 0
      ensures forall k :: 0 <= k < breakpoints.Length ==> breakpoints[k] == Breakpoint(false, 0, 0)
    {
      forall k | 0 <= k < breakpoints.Length {
        breakpoints[k] := Breakpoint(false, 0, 0);
      }
      runState := RunStart;
      stepNo := 0;
    }
  }
}
