/**
 * The reset ROM (`make_reset_rom` in `sim_utils.cpp`): eight 32-bit words
 * of boot code that load the hart id and the device-tree address and jump to
 * the entry point, followed by the device tree, zero-filled to a 4 KiB page
 * boundary. The words are laid out in the host's byte order, little-endian
 * here.
 */
module ResetRom {
  import opened Wrappers

  const Page: nat := 0x1000
  const W32: nat := 0x1_0000_0000

  /** `auipc t0, 0`. */
  const Auipc: nat := 0x297
  /** `addi a1, t0, 32`: the device tree follows the 32 bytes of code. */
  const AddiDtb: nat := 0x28593 + 32 * 0x10_0000
  /** `csrr a0, mhartid`. */
  const CsrrHartId: nat := 0xf1402573
  /** `lw t0, 24(t0)`, for a 32-bit hart. */
  const LoadWord: nat := 0x0182a283
  /** `ld t0, 24(t0)`, for a 64-bit hart. */
  const LoadDouble: nat := 0x0182b283
  /** `jr t0`. */
  const JumpT0: nat := 0x28067

  /** `reset_vec`: the code words, with the entry point's two halves as the data the load reads. */
  function ResetVector(is32: bool, entry: nat): (ws: seq<nat>)
    requires entry < W32 * W32
    ensures |ws| == 8 && forall k :: 0 <= k < 8 ==> ws[k] < W32
  {
    [Auipc, AddiDtb, CsrrHartId, if is32 then LoadWord else LoadDouble, JumpT0, 0, entry % W32, entry / W32]
  }

  /** The four bytes of a 32-bit word, least significant first. */
  function WordBytes(w: nat): (bs: seq<nat>)
    ensures |bs| == 4 && forall i :: 0 <= i < 4 ==> bs[i] < 256
  {
    [w % 256, w / 256 % 256, w / 0x1_0000 % 256, w / 0x100_0000 % 256]
  }

  /** The bytes of a list of words, in order. */
  function WordsBytes(ws: seq<nat>): (bs: seq<nat>)
    ensures |bs| == 4 * |ws|
  {
    if ws == [] then [] else WordsBytes(ws[..|ws| - 1]) + WordBytes(ws[|ws| - 1])
  }

  /** The little-endian word at byte offset `off`. */
  function ReadWord(bs: seq<nat>, off: nat): nat
    requires off + 4 <= |bs|
  {
    bs[off] + 256 * bs[off + 1] + 0x1_0000 * bs[off + 2] + 0x100_0000 * bs[off + 3]
  }

  /** A word's bytes read back as the word. */
  lemma WordRoundTrip(w: nat)
    requires w < W32
    ensures ReadWord(WordBytes(w), 0) == w
  {
    var b0 := w % 256;
    var b1 := w / 256 % 256;
    var b2 := w / 0x1_0000 % 256;
    var b3 := w / 0x100_0000 % 256;
    assert w / 0x100_0000 < 256;
    assert w / 0x1_0000 == b2 + 256 * (w / 0x100_0000);
    assert w / 256 == b1 + 256 * (w / 0x1_0000);
    assert w == b0 + 256 * (w / 256);
  }

  /** The `k`th word of a list is read back at byte offset `4 * k` of its bytes. */
  lemma {:induction false} WordsRoundTrip(ws: seq<nat>, k: nat)
    requires k < |ws| && forall j :: 0 <= j < |ws| ==> ws[j] < W32
    ensures ReadWord(WordsBytes(ws), 4 * k) == ws[k]
    decreases |ws|
  {
    var p := ws[..|ws| - 1];
    var bs := WordsBytes(ws);
    assert bs == WordsBytes(p) + WordBytes(ws[|ws| - 1]);
    if k < |ws| - 1 {
      WordsRoundTrip(p, k);
      assert bs[4 * k..4 * k + 4] == WordsBytes(p)[4 * k..4 * k + 4];
    } else {
      WordRoundTrip(ws[k]);
      assert bs[4 * k..4 * k + 4] == WordBytes(ws[k]);
    }
  }

  /** `(n + align - 1) / align * align`: `n` rounded up to a page. */
  function RoundUp(n: nat): (m: nat)
    ensures m % Page == 0 && n <= m < n + Page
  {
    (n + Page - 1) / Page * Page
  }

  /** No page multiple lies between `n` and its round-up. */
  lemma RoundUpLeast(n: nat, m: nat)
    requires m % Page == 0 && n <= m
    ensures RoundUp(n) <= m
  {
    var k := m / Page;
    assert m == k * Page;
    assert n + Page - 1 < (k + 1) * Page;
    assert (n + Page - 1) / Page <= k;
  }

  /** The device tree that is copied: a null pointer or an empty tree copies nothing. */
  function DtbBytes(dtb: Option<seq<nat>>): seq<nat>
  {
    if dtb.Some? && |dtb.value| > 0 then dtb.value else []
  }

  /** `n` zero bytes. */
  function Zeros(n: nat): seq<nat>
  {
    seq(n, _ => 0)
  }

  /** `make_reset_rom`. */
  function MakeResetRom(is32: bool, entry: nat, dtb: Option<seq<nat>>): seq<nat>
    requires entry < W32 * W32
  {
    var code := WordsBytes(ResetVector(is32, entry));
    var d := DtbBytes(dtb);
    code + d + Zeros(RoundUp(32 + |d|) - 32 - |d|)
  }

  /**
   * The ROM is the least whole number of pages holding the code and the
   * device tree; it starts with the code words, then the device tree, and
   * everything after is zero.
   */
  lemma ResetRomLayout(is32: bool, entry: nat, dtb: Option<seq<nat>>)
    requires entry < W32 * W32
    ensures var rom := MakeResetRom(is32, entry, dtb);
            var d := DtbBytes(dtb);
            |rom| % Page == 0 && 32 + |d| <= |rom| < 32 + |d| + Page &&
            rom[..32] == WordsBytes(ResetVector(is32, entry)) &&
            rom[32..32 + |d|] == d &&
            forall i :: 32 + |d| <= i < |rom| ==> rom[i] == 0
  {
    var rom := MakeResetRom(is32, entry, dtb);
    var code := WordsBytes(ResetVector(is32, entry));
    var d := DtbBytes(dtb);
    assert rom[..32] == code;
    assert rom[32..32 + |d|] == d;
  }

  /** No smaller whole number of pages holds the code and the device tree. */
  lemma ResetRomLeast(is32: bool, entry: nat, dtb: Option<seq<nat>>, m: nat)
    requires entry < W32 * W32 && m % Page == 0 && 32 + |DtbBytes(dtb)| <= m
    ensures |MakeResetRom(is32, entry, dtb)| <= m
  {
    RoundUpLeast(32 + |DtbBytes(dtb)|, m);
  }

  /**
   * Read back as words, the ROM's code loads `ld` or `lw` by the hart's
   * width, and its words 6 and 7 are the low and high halves of the entry
   * point.
   */
  lemma ResetRomWords(is32: bool, entry: nat, dtb: Option<seq<nat>>)
    requires entry < W32 * W32
    ensures var rom := MakeResetRom(is32, entry, dtb);
            |rom| >= 32 &&
            ReadWord(rom, 0) == Auipc && ReadWord(rom, 4) == AddiDtb && ReadWord(rom, 8) == CsrrHartId &&
            ReadWord(rom, 12) == (if is32 then LoadWord else LoadDouble) && ReadWord(rom, 16) == JumpT0 &&
            ReadWord(rom, 24) + W32 * ReadWord(rom, 28) == entry
  {
    var ws := ResetVector(is32, entry);
    RomWord(is32, entry, dtb, 0);
    RomWord(is32, entry, dtb, 1);
    RomWord(is32, entry, dtb, 2);
    RomWord(is32, entry, dtb, 3);
    RomWord(is32, entry, dtb, 4);
    RomWord(is32, entry, dtb, 6);
    RomWord(is32, entry, dtb, 7);
    assert ws[6] == entry % W32 && ws[7] == entry / W32;
  }

  /** The ROM's `k`th word, read back, is the `k`th word of the reset vector. */
  lemma RomWord(is32: bool, entry: nat, dtb: Option<seq<nat>>, k: nat)
    requires entry < W32 * W32 && k < 8
    ensures |MakeResetRom(is32, entry, dtb)| >= 32
    ensures ReadWord(MakeResetRom(is32, entry, dtb), 4 * k) == ResetVector(is32, entry)[k]
  {
    var rom := MakeResetRom(is32, entry, dtb);
    var ws := ResetVector(is32, entry);
    var code := WordsBytes(ws);
    ResetRomLayout(is32, entry, dtb);
    WordsRoundTrip(ws, k);
    assert rom[4 * k..4 * k + 4] == code[4 * k..4 * k + 4];
  }

  /** Memory after storing `bs` from address `a` upwards, one byte per address. */
  function Store(m: map<nat, nat>, a: nat, bs: seq<nat>): map<nat, nat>
    decreases |bs|
  {
    if bs == [] then m else Store(m, a, bs[..|bs| - 1])[a + |bs| - 1 := bs[|bs| - 1]]
  }

  /** The stored bytes are in place, and every other address is as before. */
  lemma {:induction false} StoreAt(m: map<nat, nat>, a: nat, bs: seq<nat>, x: nat)
    ensures a <= x < a + |bs| ==> x in Store(m, a, bs) && Store(m, a, bs)[x] == bs[x - a]
    ensures !(a <= x < a + |bs|) ==> (x in Store(m, a, bs) <==> x in m)
    ensures !(a <= x < a + |bs|) && x in m ==> Store(m, a, bs)[x] == m[x]
    decreases |bs|
  {
    if bs != [] {
      StoreAt(m, a, bs[..|bs| - 1], x);
    }
  }

  /** Storing two runs back to back stores their concatenation. */
  lemma {:induction false} StoreAppend(m: map<nat, nat>, a: nat, xs: seq<nat>, ys: seq<nat>)
    ensures Store(Store(m, a, xs), a + |xs|, ys) == Store(m, a, xs + ys)
    decreases |ys|
  {
    if ys != [] {
      var ys' := ys[..|ys| - 1];
      StoreAppend(m, a, xs, ys');
      assert (xs + ys)[..|xs + ys| - 1] == xs + ys';
    } else {
      assert xs + ys == xs;
    }
  }

  /** A page boundary is a whole number of pages further on. */
  lemma RoundUpShift(base: nat, n: nat)
    requires base % Page == 0
    ensures RoundUp(base + n) == base + RoundUp(n)
  {
    var k := base / Page;
    assert base == k * Page;
    assert (base + n + Page - 1) / Page == k + (n + Page - 1) / Page;
  }

  /** `(int)addr`: the low 32 bits of an address, read as a signed number. */
  function Int32Of(x: nat): (i: int)
    ensures -0x8000_0000 <= i < 0x8000_0000
  {
    var lo := x % W32;
    if lo < 0x8000_0000 then lo else lo - W32
  }

  /** The first test of the zero-fill loop, `i < rom_end`, with `i` converted back to 64 bits. */
  function ZeroFillStarts(addr: nat, romEnd: nat): bool
  {
    var i := Int32Of(addr);
    (if i < 0 then i + W32 * W32 else i) < romEnd
  }

  /**
   * With the reset vector at 2 GiB the fill loop does not run at all,
   * although the device tree ends short of the page end: the bytes up to
   * the page end are left unwritten.
   */
  lemma ZeroFillSkippedAsWritten()
    ensures var addr := 0x8000_0000 + 32;
            var romEnd := RoundUp(addr);
            addr < romEnd && !ZeroFillStarts(addr, romEnd)
  {
    assert RoundUp(0x8000_0020) == 0x8000_1000;
  }

  /** The ROM area of the C simulator's memory: its base, its size and the boot address. */
  class RomLoader {
    var mem: map<nat, nat>
    var romBase: nat
    var romSize: nat
    var pc: nat

    constructor(m: map<nat, nat>)
      ensures mem == m && romBase == 0 && romSize == 0 && pc == 0
    {
      mem := m;
      romBase := 0;
      romSize := 0;
      pc := 0;
    }

    /** `write_mem(addr++, ...)` for each of `bs`. */
    method WriteBytes(addr: nat, bs: seq<nat>) returns (next: nat)
      modifies this
      ensures mem == Store(old(mem), addr, bs) && next == addr + |bs|
      ensures romBase == old(romBase) && romSize == old(romSize) && pc == old(pc)
    {
      var i := 0;
      while i < |bs|
        invariant i <= |bs|
        invariant mem == Store(old(mem), addr, bs[..i])
        invariant romBase == old(romBase) && romSize == old(romSize) && pc == old(pc)
      {
        assert bs[..i + 1][..i] == bs[..i];
        mem := mem[addr + i := bs[i]];
        i := i + 1;
      }
      assert bs[..i] == bs;
      next := addr + i;
    }

    /**
     * `init_sail_reset_vector`: the code words, then the device tree, then
     * zeros up to the next page boundary are stored from the reset
     * address; the ROM spans from there to that boundary and the hart
     * boots at its start. Here the zero fill covers the whole gap (see
     * `ZeroFillSkippedAsWritten`).
     */
    method InitResetVector(base: nat, is32: bool, entry: nat, dtb: Option<seq<nat>>)
      requires entry < W32 * W32
      modifies this
      ensures var d := DtbBytes(dtb);
              var romEnd := RoundUp(base + 32 + |d|);
              romBase == base && pc == base && romSize == romEnd - base &&
              mem == Store(old(mem), base, WordsBytes(ResetVector(is32, entry)) + d + Zeros(romEnd - base - 32 - |d|))
    {
      romBase := base;
      var code := WordsBytes(ResetVector(is32, entry));
      var d := DtbBytes(dtb);
      ghost var m0 := mem;
      var addr := WriteBytes(base, code);
      addr := WriteBytes(addr, d);
      assert addr == base + 32 + |d|;
      StoreAppend(m0, base, code, d);
      ghost var m1 := mem;
      assert m1 == Store(m0, base, code + d);
      var romEnd := RoundUp(addr);
      var zeros := Zeros(romEnd - addr);
      addr := WriteBytes(addr, zeros);
      StoreAppend(m0, base, code + d, zeros);
      assert mem == Store(m0, base, code + d + zeros);
      romSize := romEnd - romBase;
      pc := romBase;
    }
  }

  /**
   * For a page-aligned reset address the loaded ROM is the image
   * `make_reset_rom` builds, a whole number of pages long.
   */
  lemma LoadedRomIsResetRom(base: nat, is32: bool, entry: nat, dtb: Option<seq<nat>>)
    requires entry < W32 * W32 && base % Page == 0
    ensures var d := DtbBytes(dtb);
            var romEnd := RoundUp(base + 32 + |d|);
            WordsBytes(ResetVector(is32, entry)) + d + Zeros(romEnd - base - 32 - |d|) ==
              MakeResetRom(is32, entry, dtb) &&
            (romEnd - base) % Page == 0
  {
    RoundUpShift(base, 32 + |DtbBytes(dtb)|);
  }
}
