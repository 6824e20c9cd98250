/**
 * The signature dump at the end of a compliance test (`write_signature` in
 * `riscv_sim.cpp`): the memory between the `begin_signature` and
 * `end_signature` symbols is written out one line per word of
 * `signature_granularity` bytes, each word with its highest-addressed byte
 * first, every byte as two lower-case hexadecimal digits. Memory reads are a
 * parameter; the file itself is the returned list of lines, each of which
 * ends with a newline in the file.
 */
module Signature {
  import opened Wrappers

  /** A lower-case hexadecimal digit, as `%x` prints it. */
  predicate IsHexDigit(c: char)
  {
    '0' <= c <= '9' || 'a' <= c <= 'f'
  }

  /** The digit for a value below 16. */
  function Digit(d: nat): (c: char)
    requires d < 16
    ensures IsHexDigit(c)
  {
    if d < 10 then ('0' as int + d) as char else ('a' as int + d - 10) as char
  }

  /** The value of a lower-case hexadecimal digit. */
  function DigitValue(c: char): (v: nat)
    ensures v < 16
  {
    if '0' <= c <= '9' then (c - '0') as nat
    else if 'a' <= c <= 'f' then (c - 'a') as nat + 10
    else 0
  }

  /** Digits and values are inverse to each other. */
  lemma DigitRoundTrip(d: nat, c: char)
    requires d < 16 && IsHexDigit(c)
    ensures DigitValue(Digit(d)) == d
    ensures Digit(DigitValue(c)) == c
  {
  }

  /** `%02x` of a byte. */
  function Hex2(b: nat): (s: string)
    requires b < 256
    ensures |s| == 2 && IsHexDigit(s[0]) && IsHexDigit(s[1])
  {
    [Digit(b / 16), Digit(b % 16)]
  }

  /** Two digits read back as the byte they print. */
  lemma Hex2RoundTrip(b: nat)
    requires b < 256
    ensures 16 * DigitValue(Hex2(b)[0]) + DigitValue(Hex2(b)[1]) == b
  {
    DigitRoundTrip(b / 16, '0');
    DigitRoundTrip(b % 16, '0');
  }

  /** `(uint8_t)read_mem(addr)`. */
  function ByteAt(mem: nat -> nat, addr: nat): (b: nat)
    ensures b < 256
  {
    mem(addr) % 256
  }

  /** The digits of the bytes `g - 1` down to `i` of the word at `addr`. */
  function WordHexFrom(mem: nat -> nat, addr: nat, g: nat, i: nat): (s: string)
    requires i <= g
    ensures |s| == 2 * (g - i)
    decreases g - i
  {
    if i == g then [] else WordHexFrom(mem, addr, g, i + 1) + Hex2(ByteAt(mem, addr + i))
  }

  /** The line for the word at `addr`. */
  function WordHex(mem: nat -> nat, addr: nat, g: nat): (s: string)
    ensures |s| == 2 * g
  {
    WordHexFrom(mem, addr, g, 0)
  }

  /** The byte at offset `j` of a word is printed in the pair of digits `g - 1 - j`: the highest address comes first. */
  lemma {:induction false} WordHexAt(mem: nat -> nat, addr: nat, g: nat, i: nat, j: nat)
    requires i <= j < g
    ensures var s := WordHexFrom(mem, addr, g, i);
            var a := 2 * (g - 1 - j);
            s[a] == Hex2(ByteAt(mem, addr + j))[0] && s[a + 1] == Hex2(ByteAt(mem, addr + j))[1]
    decreases j - i
  {
    var p := WordHexFrom(mem, addr, g, i + 1);
    var h := Hex2(ByteAt(mem, addr + i));
    assert WordHexFrom(mem, addr, g, i) == p + h;
    if i < j {
      WordHexAt(mem, addr, g, i + 1, j);
    }
  }

  /** The inner loop: the bytes of one word, from the highest address down. */
  method WriteWord(mem: nat -> nat, addr: nat, g: nat) returns (line: string)
    ensures line == WordHex(mem, addr, g)
  {
    line := [];
    var i: nat := g;
    while i > 0
      invariant i <= g
      invariant line == WordHexFrom(mem, addr, g, i)
    {
      i := i - 1;
      line := line + Hex2(ByteAt(mem, addr + i));
    }
    assert i == 0;
  }

  lemma MulSucc(n: nat, g: nat)
    ensures (n + 1) * g == n * g + g
  {
  }

  /** The address the signature loop of write_signature visits on its `k`th iteration. */
  function SignatureAddrAsWritten(start: nat, g: nat, k: nat): (a: nat)
    ensures g > 0 ==> a >= start + k
  {
    start + k * g
  }

  /**
   * As written, a granularity of 0 never moves the loop's address: every
   * iteration finds it still below the end, so the loop does not end.
   */
  lemma ZeroGranularityNeverEndsAsWritten(start: nat, end: nat, k: nat)
    requires start < end
    ensures SignatureAddrAsWritten(start, 0, k) == start < end
  {
  }

  /**
   * `write_signature`: `None` for an empty or inverted region, which is
   * reported and writes no file, for a file that does not open (`fileOpened`
   * is what `fopen` gave), and, as corrected, for a granularity of 0.
   * Otherwise there is one line for each word that starts below the end,
   * the `j`th for the word at `start + j * g`.
   */
  method WriteSignature(mem: nat -> nat, start: nat, end: nat, g: nat, fileOpened: bool) returns (r: Option<seq<string>>)
    ensures r.None? <==> start >= end || !fileOpened || g == 0
    ensures r.Some? ==> |r.value| > 0 && start + (|r.value| - 1) * g < end <= start + |r.value| * g
    ensures r.Some? ==> forall j :: 0 <= j < |r.value| ==> r.value[j] == WordHex(mem, start + j * g, g)
  {
    if start >= end || !fileOpened || g == 0 {
      return None;
    }
    var lines: seq<string> := [];
    var addr := start;
    while addr < end
      invariant addr == start + |lines| * g
      invariant |lines| > 0 ==> start + (|lines| - 1) * g < end
      invariant forall j :: 0 <= j < |lines| ==> lines[j] == WordHex(mem, start + j * g, g)
      decreases end - addr
    {
      var line := WriteWord(mem, addr, g);
      MulSucc(|lines|, g);
      lines := lines + [line];
      addr := addr + g;
    }
    return Some(lines);
  }
}
