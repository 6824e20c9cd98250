/**
 * What `SnapshotManager` (`snapshot_manager.cpp`) does with a snapshot
 * beyond its JSON text: which CSRs it restores, how it dumps memory into one
 * binary file plus an index and reads it back, when restoring registers
 * fails, when a snapshot is valid, and how the memory file names derive from
 * the snapshot's path.
 *
 * The hart the state is restored into is a value (`Hart`); the memory is a
 * `SailMemory`. Files are byte sequences and a set of existing paths;
 * whether a file opens or a write fails is a parameter.
 */
module SnapshotManager {
  import opened Wrappers
  import opened SnapshotState
  import opened SnapshotMemory

  // ---------------------------------------------------------------------- CSRs

  /** mvendorid, marchid, mimpid, mhartid and mconfigptr: never written back. */
  predicate ReadOnlyCsr(addr: nat)
  {
    0xf11 <= addr <= 0xf15
  }

  /**
   * `restore_csrs` over the CSR map visited in `order` (its keys): every
   * captured CSR except the read-only ones is written into the hart's CSRs.
   */
  method RestoreCsrs(hartCsrs: map<nat, nat>, csrs: map<nat, nat>, order: seq<nat>) returns (after: map<nat, nat>)
    requires forall a :: a in order <==> a in csrs
    ensures forall a :: a in after <==> a in hartCsrs || (a in csrs && !ReadOnlyCsr(a))
    ensures forall a :: a in after ==>
              after[a] == if a in csrs && !ReadOnlyCsr(a) then csrs[a] else hartCsrs[a]
  {
    after := hartCsrs;
    var i := 0;
    while i < |order|
      invariant i <= |order|
      invariant forall a :: a in after <==> a in hartCsrs || (a in order[..i] && !ReadOnlyCsr(a))
      invariant forall a :: a in after ==>
                  after[a] == if a in order[..i] && !ReadOnlyCsr(a) then csrs[a] else hartCsrs[a]
    {
      assert order[..i + 1] == order[..i] + [order[i]];
      var a := order[i];
      if !ReadOnlyCsr(a) {
        after := after[a := csrs[a]];
      }
      i := i + 1;
    }
    assert order[..i] == order;
  }

  // ---------------------------------------------------------------- registers

  /** The part of the hart a snapshot restores. */
  datatype Hart = Hart(pc: nat, nextPc: nat, xregs: seq<nat>, fregs: seq<nat>, vregs: seq<seq<nat>>,
                       csrs: map<nat, nat>)

  /**
   * `restore_registers`: fails unless there are exactly 32 xregs; fregs and
   * vregs are written only when there are exactly 32 of them.
   */
  function RestoreRegisters(s: Registers, h: Hart): (r: Result<Hart>)
    ensures r.Ok? <==> |s.xregs| == 32
    ensures r.Ok? ==> r.value.xregs == s.xregs && r.value.pc == h.pc && r.value.csrs == h.csrs
    ensures r.Ok? ==> r.value.fregs == (if |s.fregs| == 32 then s.fregs else h.fregs)
    ensures r.Ok? ==> r.value.vregs == (if |s.vregs| == 32 then s.vregs else h.vregs)
  {
    if |s.xregs| != 32 then Err("xregs")
    else
      var h1 := h.(xregs := s.xregs);
      var h2 := if |s.fregs| == 32 then h1.(fregs := s.fregs) else h1;
      var h3 := if |s.vregs| == 32 then h2.(vregs := s.vregs) else h2;
      Ok(h3)
  }

  /**
   * `restore_state`: the pc is set first, so a failing register restore
   * leaves the hart with the new pc and its old registers; otherwise the
   * registers and then the writable CSRs are restored.
   */
  method RestoreState(s: Registers, csrs: map<nat, nat>, order: seq<nat>, h: Hart) returns (ok: bool, after: Hart)
    requires forall a :: a in order <==> a in csrs
    ensures ok <==> |s.xregs| == 32
    ensures after.pc == s.pc && after.nextPc == s.nextPc
    ensures !ok ==> after == h.(pc := s.pc, nextPc := s.nextPc)
    ensures ok ==> after.xregs == s.xregs
    ensures ok ==> forall a :: a in after.csrs <==> a in h.csrs || (a in csrs && !ReadOnlyCsr(a))
    ensures ok ==> forall a :: a in after.csrs ==>
              if a in csrs && !ReadOnlyCsr(a) then after.csrs[a] == csrs[a]
              else a in h.csrs && after.csrs[a] == h.csrs[a]
  {
    after := h.(pc := s.pc, nextPc := s.nextPc);
    var r := RestoreRegisters(s, after);
    if r.Err? {
      return false, after;
    }
    after := r.value;
    var restored := RestoreCsrs(after.csrs, csrs, order);
    after := after.(csrs := restored);
    ok := true;
  }

  // ------------------------------------------------------------------- memory

  function SumSizes(cs: seq<BlockCopy>): nat
  {
    if cs == [] then 0 else SumSizes(cs[..|cs| - 1]) + cs[|cs| - 1].size
  }

  /** The bytes the dump writes: each block's `size` bytes, one after another. */
  function DumpBytes(cs: seq<BlockCopy>): (f: seq<nat>)
    requires forall i :: 0 <= i < |cs| ==> |cs[i].data| == cs[i].size
    ensures |f| == SumSizes(cs)
  {
    if cs == [] then [] else DumpBytes(cs[..|cs| - 1]) + cs[|cs| - 1].data
  }

  /** The index the dump builds: each block at the offset where its bytes start. */
  function DumpIndex(cs: seq<BlockCopy>): (idx: MemoryIndex)
    ensures |idx.blocks| == |cs| && idx.totalSize == SumSizes(cs)
  {
    MemoryIndex(seq(|cs|, i requires 0 <= i < |cs| => MemoryBlockInfo(cs[i].blockId, SumSizes(cs[..i]), cs[i].size)),
                SumSizes(cs))
  }

  function Listed(blocks: Option<seq<BlockCopy>>): seq<BlockCopy>
  {
    if blocks.Some? then blocks.value else []
  }

  predicate Sized(cs: seq<BlockCopy>)
  {
    forall i :: 0 <= i < |cs| ==> |cs[i].data| == cs[i].size
  }

  /**
   * `dump_memory`, given what `snapshot_get_memory_blocks` returned: fails
   * for a NULL list with a non-zero count, when the file does not open, or
   * when writing block `writeFailAt` fails; otherwise writes every block's
   * bytes in list order and returns the index of offsets into the file.
   */
  method DumpMemory(count: nat, blocks: Option<seq<BlockCopy>>, isOpen: bool, writeFailAt: Option<nat>)
    returns (ok: bool, index: MemoryIndex, file: seq<nat>)
    requires Sized(Listed(blocks))
    ensures ok <==> !(blocks.None? && count > 0) && isOpen &&
                    !(writeFailAt.Some? && writeFailAt.value < |Listed(blocks)|)
    ensures ok ==> index == DumpIndex(Listed(blocks)) && file == DumpBytes(Listed(blocks))
  {
    index := MemoryIndex([], 0);
    file := [];
    if blocks.None? && count > 0 {
      return false, index, file;
    }
    if !isOpen {
      return false, index, file;
    }
    var cs := Listed(blocks);
    var infos: seq<MemoryBlockInfo> := [];
    var offset := 0;
    var total := 0;
    var i := 0;
    while i < |cs|
      invariant i <= |cs|
      invariant writeFailAt.Some? ==> writeFailAt.value >= i
      invariant Sized(cs[..i])
      invariant offset == total == SumSizes(cs[..i]) && file == DumpBytes(cs[..i])
      invariant infos == DumpIndex(cs[..i]).blocks
    {
      if writeFailAt == Some(i) {
        return false, index, file;
      }
      DumpStep(cs, i);
      file := file + cs[i].data;
      infos := infos + [MemoryBlockInfo(cs[i].blockId, offset, cs[i].size)];
      offset := offset + cs[i].size;
      total := total + cs[i].size;
      i := i + 1;
    }
    assert cs[..i] == cs;
    index := MemoryIndex(infos, total);
    ok := true;
  }

  /** One more block: its bytes follow the others' and its entry records where they start. */
  lemma DumpStep(cs: seq<BlockCopy>, i: nat)
    requires Sized(cs) && i < |cs|
    ensures Sized(cs[..i]) && Sized(cs[..i + 1])
    ensures SumSizes(cs[..i + 1]) == SumSizes(cs[..i]) + cs[i].size
    ensures DumpBytes(cs[..i + 1]) == DumpBytes(cs[..i]) + cs[i].data
    ensures DumpIndex(cs[..i + 1]).blocks == DumpIndex(cs[..i]).blocks + [MemoryBlockInfo(cs[i].blockId, SumSizes(cs[..i]), cs[i].size)]
  {
    var pre := cs[..i];
    var next := cs[..i + 1];
    assert next[..i] == pre;
    forall k | 0 <= k < i
      ensures next[..k] == pre[..k]
    {
    }
  }

  /**
   * As written, an allocation failure while copying the blocks reaches
   * `dump_memory` as a count of 0 and a NULL list, which passes its check:
   * the dump succeeds with an empty index although memory is not empty.
   */
  method DumpAfterFailedCopy(mem: SailMemory) returns (ok: bool, index: MemoryIndex)
    requires mem.Valid() && |mem.blocks| > 0
    ensures ok && index.blocks == [] && index.totalSize == 0
  {
    var count, blocks := mem.GetMemoryBlocks(true, Some(0));
    var file;
    ok, index, file := DumpMemory(count, blocks, true, None);
  }

  /**
   * The dump with the check the copy's failure needs: a NULL list for a
   * non-empty memory fails, whatever the count.
   */
  method DumpMemoryFixed(mem: SailMemory, failAt: Option<nat>, isOpen: bool, writeFailAt: Option<nat>)
    returns (ok: bool, index: MemoryIndex, file: seq<nat>)
    requires mem.Valid()
    ensures ok ==> index == DumpIndex(Copies(mem.blocks, mem.blockSize)) &&
                   file == DumpBytes(Copies(mem.blocks, mem.blockSize))
    ensures failAt.Some? && failAt.value < |mem.blocks| ==> !ok
  {
    var count, blocks := mem.GetMemoryBlocks(true, failAt);
    if blocks.None? && |mem.blocks| > 0 {
      return false, MemoryIndex([], 0), [];
    }
    ok, index, file := DumpMemory(count, blocks, isOpen, writeFailAt);
  }

  /** Block `i` starts where the blocks before it end, and the total is where the last one ends. */
  lemma DumpOffsets(cs: seq<BlockCopy>, i: nat)
    requires 0 < i < |cs|
    ensures DumpIndex(cs).blocks[0].offset == 0
    ensures DumpIndex(cs).blocks[i].offset == DumpIndex(cs).blocks[i - 1].offset + cs[i - 1].size
    ensures DumpIndex(cs).totalSize == DumpIndex(cs).blocks[|cs| - 1].offset + cs[|cs| - 1].size
  {
    assert cs[..i][..i - 1] == cs[..i - 1];
    assert cs[..|cs|][..|cs| - 1] == cs[..|cs| - 1];
    assert cs[..|cs|] == cs;
  }

  lemma {:induction false} DumpBytesAppend(a: seq<BlockCopy>, b: seq<BlockCopy>)
    requires Sized(a) && Sized(b)
    ensures Sized(a + b)
    ensures DumpBytes(a + b) == DumpBytes(a) + DumpBytes(b)
    ensures SumSizes(a + b) == SumSizes(a) + SumSizes(b)
    decreases |b|
  {
    assert Sized(a + b) by {
      forall i | 0 <= i < |a + b|
        ensures |(a + b)[i].data| == (a + b)[i].size
      {
        if i >= |a| {
          assert (a + b)[i] == b[i - |a|];
        }
      }
    }
    if b == [] {
      assert a + b == a;
    } else {
      var init := b[..|b| - 1];
      assert (a + b)[..|a + b| - 1] == a + init;
      DumpBytesAppend(a, init);
    }
  }

  /** In the dumped file, block `i`'s bytes sit at its offset. */
  lemma DumpChunk(cs: seq<BlockCopy>, i: nat)
    requires Sized(cs) && i < |cs|
    ensures SumSizes(cs[..i]) + cs[i].size <= |DumpBytes(cs)|
    ensures DumpBytes(cs)[SumSizes(cs[..i])..SumSizes(cs[..i]) + cs[i].size] == cs[i].data
  {
    var pre := cs[..i];
    var post := cs[i + 1..];
    assert cs == pre + [cs[i]] + post;
    assert Sized(pre) && Sized(post);
    DumpBytesAppend(pre, [cs[i]]);
    assert DumpBytes([cs[i]]) == cs[i].data by {
      assert [cs[i]][..0] == [];
    }
    DumpBytesAppend(pre + [cs[i]], post);
  }

  /**
   * The block list after `restore_memory` has read each entry's bytes in
   * turn, from position `pos` of the file on, and restored them; `None` when
   * a read runs past the end of the file.
   */
  function RestoreFrom(blocks: seq<Block>, blockSize: nat, mask: nat, bs: seq<MemoryBlockInfo>,
                       file: seq<nat>, pos: nat, allocOk: bool): (r: Option<seq<Block>>)
    requires forall i :: 0 <= i < |blocks| ==> |blocks[i].mem| == blockSize
    ensures r.Some? ==> forall i :: 0 <= i < |r.value| ==> |r.value[i].mem| == blockSize
    decreases |bs|
  {
    if bs == [] then Some(blocks)
    else if pos + bs[0].size > |file| then None
    else
      RestoreFrom(Restored(blocks, blockSize, mask, bs[0].blockId, Some(file[pos..pos + bs[0].size]), bs[0].size, allocOk),
                  blockSize, mask, bs[1..], file, pos + bs[0].size, allocOk)
  }

  /**
   * `restore_memory`: memory is cleared first; then, if the file opens,
   * each entry's bytes are read in turn, ignoring the recorded offsets, and
   * restored. Reading past the end of the file fails, with the blocks
   * restored so far left in place.
   */
  method RestoreMemory(mem: SailMemory, index: MemoryIndex, file: seq<nat>, isOpen: bool, allocOk: bool)
    returns (ok: bool)
    requires mem.Valid()
    modifies mem
    ensures mem.Valid() && mem.tags == []
    ensures !isOpen ==> !ok && mem.blocks == []
    ensures isOpen ==> (ok <==> RestoreFrom([], mem.blockSize, mem.mask, index.blocks, file, 0, allocOk).Some?)
    ensures ok ==> Some(mem.blocks) == RestoreFrom([], mem.blockSize, mem.mask, index.blocks, file, 0, allocOk)
  {
    mem.ClearMemory();
    if !isOpen {
      return false;
    }
    var bs := index.blocks;
    var pos: nat := 0;
    var i := 0;
    while i < |bs|
      invariant i <= |bs| && mem.Valid() && mem.tags == []
      invariant RestoreFrom([], mem.blockSize, mem.mask, bs, file, 0, allocOk) ==
                RestoreFrom(mem.blocks, mem.blockSize, mem.mask, bs[i..], file, pos, allocOk)
    {
      assert bs[i..][0] == bs[i] && bs[i..][1..] == bs[i + 1..];
      if pos + bs[i].size > |file| {
        return false;
      }
      RestoreFromUnfold(mem.blocks, mem.blockSize, mem.mask, bs[i..], file, pos, allocOk);
      mem.RestoreMemoryBlock(bs[i].blockId, Some(file[pos..pos + bs[i].size]), bs[i].size, allocOk);
      pos := pos + bs[i].size;
      i := i + 1;
    }
    ok := true;
  }

  /** The blocks in reverse list order. */
  function RevBlocks(s: seq<Block>): (r: seq<Block>)
    ensures |r| == |s|
  {
    if s == [] then [] else RevBlocks(s[1..]) + [s[0]]
  }

  predicate DistinctIds(blocks: seq<Block>)
  {
    forall i, j :: 0 <= i < j < |blocks| ==> blocks[i].blockId != blocks[j].blockId
  }

  /**
   * The index entries `rest` and the file lay out the blocks `bs` one after
   * another from position `pos`: each entry names its block, its offset and
   * the block size, and the file holds the block's bytes there.
   */
  predicate LaidOut(bs: seq<Block>, rest: seq<MemoryBlockInfo>, file: seq<nat>, pos: nat, blockSize: nat)
    decreases |bs|
  {
    |rest| == |bs| &&
    (bs == [] ||
     (rest[0] == MemoryBlockInfo(bs[0].blockId, pos, blockSize) &&
      pos + blockSize <= |file| && file[pos..pos + blockSize] == bs[0].mem &&
      LaidOut(bs[1..], rest[1..], file, pos + blockSize, blockSize)))
  }

  /** A dump lays out its blocks, from any block `i` on, at the offsets its index records. */
  lemma {:induction false} DumpLaidOut(blocks: seq<Block>, blockSize: nat, i: nat)
    requires forall k :: 0 <= k < |blocks| ==> |blocks[k].mem| == blockSize
    requires i <= |blocks|
    ensures var cs := Copies(blocks, blockSize);
            LaidOut(blocks[i..], DumpIndex(cs).blocks[i..], DumpBytes(cs), SumSizes(cs[..i]), blockSize)
    decreases |blocks| - i
  {
    if i < |blocks| {
      DumpLaidOut(blocks, blockSize, i + 1);
      DumpLaidOutStep(blocks, blockSize, i);
    }
  }

  /** The inductive step of `DumpLaidOut`: block `i` sits where entry `i` says, and the rest follow. */
  lemma DumpLaidOutStep(blocks: seq<Block>, blockSize: nat, i: nat)
    requires forall k :: 0 <= k < |blocks| ==> |blocks[k].mem| == blockSize
    requires i < |blocks|
    requires var cs := Copies(blocks, blockSize);
             LaidOut(blocks[i + 1..], DumpIndex(cs).blocks[i + 1..], DumpBytes(cs), SumSizes(cs[..i + 1]), blockSize)
    ensures var cs := Copies(blocks, blockSize);
            LaidOut(blocks[i..], DumpIndex(cs).blocks[i..], DumpBytes(cs), SumSizes(cs[..i]), blockSize)
  {
    var cs := Copies(blocks, blockSize);
    var bs, rest, file, pos := blocks[i..], DumpIndex(cs).blocks[i..], DumpBytes(cs), SumSizes(cs[..i]);
    assert bs != [] && |rest| == |bs| && rest[0] == MemoryBlockInfo(bs[0].blockId, pos, blockSize) &&
           pos + blockSize <= |file| && file[pos..pos + blockSize] == bs[0].mem &&
           LaidOut(bs[1..], rest[1..], file, pos + blockSize, blockSize) by {
      DumpEntry(blocks, blockSize, i);
      assert bs[1..] == blocks[i + 1..];
    }
    LaidOutCons(bs, rest, file, pos, blockSize);
  }

  lemma LaidOutCons(bs: seq<Block>, rest: seq<MemoryBlockInfo>, file: seq<nat>, pos: nat, blockSize: nat)
    requires bs != [] && |rest| == |bs| && rest[0] == MemoryBlockInfo(bs[0].blockId, pos, blockSize)
    requires pos + blockSize <= |file| && file[pos..pos + blockSize] == bs[0].mem
    requires LaidOut(bs[1..], rest[1..], file, pos + blockSize, blockSize)
    ensures LaidOut(bs, rest, file, pos, blockSize)
  {
  }

  /**
   * Restoring laid-out blocks with distinct ids, none of them already in
   * `acc`, puts each at the head in turn.
   */
  lemma {:induction false} RestoreLaidOut(acc: seq<Block>, blockSize: nat, mask: nat, bs: seq<Block>,
                                          rest: seq<MemoryBlockInfo>, file: seq<nat>, pos: nat)
    requires LaidOut(bs, rest, file, pos, blockSize)
    requires forall k :: 0 <= k < |bs| ==> |bs[k].mem| == blockSize && BlockKey(bs[k].blockId, mask) == bs[k].blockId
    requires DistinctIds(bs)
    requires forall k :: 0 <= k < |acc| ==> |acc[k].mem| == blockSize
    requires forall k, j :: 0 <= k < |acc| && 0 <= j < |bs| ==> acc[k].blockId != bs[j].blockId
    ensures RestoreFrom(acc, blockSize, mask, rest, file, pos, true) == Some(RevBlocks(bs) + acc)
    decreases |bs|
  {
    if bs == [] {
      assert rest == [];
      assert RevBlocks(bs) + acc == acc;
    } else {
      var b := bs[0];
      PushDisjoint(bs, acc);
      PushSizes(b, acc, blockSize);
      RestoreLaidOut([b] + acc, blockSize, mask, bs[1..], rest[1..], file, pos + blockSize);
      RestoreStep(acc, blockSize, mask, rest, file, pos, b, RevBlocks(bs[1..]));
      RevCons(bs, acc);
    }
  }

  lemma PushSizes(b: Block, acc: seq<Block>, blockSize: nat)
    requires |b.mem| == blockSize && forall k :: 0 <= k < |acc| ==> |acc[k].mem| == blockSize
    ensures forall k :: 0 <= k < |[b] + acc| ==> |([b] + acc)[k].mem| == blockSize
  {
  }

  /** The inductive step of `RestoreLaidOut`: the first block goes to the head, then the rest are restored. */
  lemma RestoreStep(acc: seq<Block>, blockSize: nat, mask: nat, rest: seq<MemoryBlockInfo>,
                    file: seq<nat>, pos: nat, b: Block, tail: seq<Block>)
    requires rest != [] && rest[0] == MemoryBlockInfo(b.blockId, pos, blockSize)
    requires pos + blockSize <= |file| && file[pos..pos + blockSize] == b.mem
    requires |b.mem| == blockSize && BlockKey(b.blockId, mask) == b.blockId
    requires forall k :: 0 <= k < |acc| ==> |acc[k].mem| == blockSize
    requires forall k :: 0 <= k < |acc| ==> acc[k].blockId != b.blockId
    requires forall k :: 0 <= k < |[b] + acc| ==> |([b] + acc)[k].mem| == blockSize
    requires RestoreFrom([b] + acc, blockSize, mask, rest[1..], file, pos + blockSize, true) == Some(tail + ([b] + acc))
    ensures RestoreFrom(acc, blockSize, mask, rest, file, pos, true) == Some(tail + ([b] + acc))
  {
    RestoreFromFresh(acc, blockSize, mask, rest, file, pos, b);
  }

  lemma RevCons(bs: seq<Block>, acc: seq<Block>)
    requires bs != []
    ensures RevBlocks(bs[1..]) + ([bs[0]] + acc) == RevBlocks(bs) + acc
  {
  }

  /** The `i`-th entry of a dump records block `i` at the running offset, where its bytes are. */
  lemma DumpEntry(blocks: seq<Block>, blockSize: nat, i: nat)
    requires forall k :: 0 <= k < |blocks| ==> |blocks[k].mem| == blockSize
    requires i < |blocks|
    ensures var cs := Copies(blocks, blockSize);
            var rest := DumpIndex(cs).blocks[i..];
            var pos := SumSizes(cs[..i]);
            rest != [] && rest[0] == MemoryBlockInfo(blocks[i].blockId, pos, blockSize) &&
            rest[1..] == DumpIndex(cs).blocks[i + 1..] &&
            pos + blockSize <= |DumpBytes(cs)| && DumpBytes(cs)[pos..pos + blockSize] == blocks[i].mem &&
            SumSizes(cs[..i + 1]) == pos + blockSize
  {
    var cs := Copies(blocks, blockSize);
    var rest := DumpIndex(cs).blocks[i..];
    var file := DumpBytes(cs);
    var b := blocks[i];
    var pos := SumSizes(cs[..i]);
    assert rest[0] == MemoryBlockInfo(b.blockId, pos, blockSize);
    assert rest[1..] == DumpIndex(cs).blocks[i + 1..];
    DumpChunk(cs, i);
    assert file[pos..pos + blockSize] == b.mem;
    assert cs[..i + 1][..i] == cs[..i];
  }

  /** A block whose id is not yet in the list, restored from its bytes in the file, goes to the head. */
  lemma RestoreFromFresh(acc: seq<Block>, blockSize: nat, mask: nat, rest: seq<MemoryBlockInfo>,
                         file: seq<nat>, pos: nat, b: Block)
    requires rest != [] && rest[0] == MemoryBlockInfo(b.blockId, pos, blockSize)
    requires pos + blockSize <= |file| && file[pos..pos + blockSize] == b.mem
    requires |b.mem| == blockSize && BlockKey(b.blockId, mask) == b.blockId
    requires forall k :: 0 <= k < |acc| ==> |acc[k].mem| == blockSize
    requires forall k :: 0 <= k < |acc| ==> acc[k].blockId != b.blockId
    ensures forall k :: 0 <= k < |[b] + acc| ==> |([b] + acc)[k].mem| == blockSize
    ensures RestoreFrom(acc, blockSize, mask, rest, file, pos, true) ==
            RestoreFrom([b] + acc, blockSize, mask, rest[1..], file, pos + blockSize, true)
  {
    RestoreFromUnfold(acc, blockSize, mask, rest, file, pos, true);
    RestoredFresh(acc, blockSize, mask, b);
  }

  lemma RestoreFromUnfold(blocks: seq<Block>, blockSize: nat, mask: nat, bs: seq<MemoryBlockInfo>,
                          file: seq<nat>, pos: nat, allocOk: bool)
    requires forall i :: 0 <= i < |blocks| ==> |blocks[i].mem| == blockSize
    requires bs != [] && pos + bs[0].size <= |file|
    ensures RestoreFrom(blocks, blockSize, mask, bs, file, pos, allocOk) ==
            RestoreFrom(Restored(blocks, blockSize, mask, bs[0].blockId, Some(file[pos..pos + bs[0].size]), bs[0].size, allocOk),
                        blockSize, mask, bs[1..], file, pos + bs[0].size, allocOk)
  {
  }

  lemma RestoredFresh(acc: seq<Block>, blockSize: nat, mask: nat, b: Block)
    requires |b.mem| == blockSize && BlockKey(b.blockId, mask) == b.blockId
    requires forall k :: 0 <= k < |acc| ==> |acc[k].mem| == blockSize
    requires forall k :: 0 <= k < |acc| ==> acc[k].blockId != b.blockId
    ensures Restored(acc, blockSize, mask, b.blockId, Some(b.mem), blockSize, true) == [b] + acc
  {
    assert FindBlock(acc, b.blockId).None?;
    assert Overwrite(Zeroes(blockSize), b.mem, blockSize) == b.mem;
  }

  /** The first block joins `acc`, and the rest of the blocks stay clear of both. */
  lemma PushDisjoint(bs: seq<Block>, acc: seq<Block>)
    requires bs != [] && DistinctIds(bs)
    requires forall k, j :: 0 <= k < |acc| && 0 <= j < |bs| ==> acc[k].blockId != bs[j].blockId
    ensures DistinctIds(bs[1..])
    ensures forall k :: 0 <= k < |acc| ==> acc[k].blockId != bs[0].blockId
    ensures forall k, j :: 0 <= k < |[bs[0]] + acc| && 0 <= j < |bs[1..]| ==>
              ([bs[0]] + acc)[k].blockId != bs[1..][j].blockId
  {
    forall k, j | 0 <= k < |[bs[0]] + acc| && 0 <= j < |bs[1..]|
      ensures ([bs[0]] + acc)[k].blockId != bs[1..][j].blockId
    {
      if k > 0 {
        assert ([bs[0]] + acc)[k] == acc[k - 1];
      }
    }
  }

  /**
   * Dumping a memory of aligned, distinct blocks and restoring the dump
   * into cleared memory gives back the same blocks with the same bytes, in
   * reverse list order (each restored block is put at the head).
   */
  lemma DumpRestore(blocks: seq<Block>, blockSize: nat, mask: nat)
    requires forall k :: 0 <= k < |blocks| ==> |blocks[k].mem| == blockSize
    requires forall k :: 0 <= k < |blocks| ==> BlockKey(blocks[k].blockId, mask) == blocks[k].blockId
    requires DistinctIds(blocks)
    ensures var cs := Copies(blocks, blockSize);
            RestoreFrom([], blockSize, mask, DumpIndex(cs).blocks, DumpBytes(cs), 0, true) == Some(RevBlocks(blocks))
  {
    var cs := Copies(blocks, blockSize);
    DumpLaidOut(blocks, blockSize, 0);
    assert DumpIndex(cs).blocks[0..] == DumpIndex(cs).blocks;
    assert blocks[0..] == blocks && cs[..0] == [];
    RestoreLaidOut([], blockSize, mask, blocks, DumpIndex(cs).blocks, DumpBytes(cs), 0);
    assert RevBlocks(blocks) + [] == RevBlocks(blocks);
  }

  // -------------------------------------------------------------- file names

  /** A path split as `parent_path()` and `filename()`. */
  datatype FilePath = FilePath(dir: string, name: string)

  /** What a snapshot's JSON says about its files. */
  datatype SnapshotFiles = SnapshotFiles(version: string, memoryFile: string, indexFile: string)

  /** The position of the last '.' in a name, if any. */
  function LastDot(s: string): (r: Option<nat>)
    ensures r.Some? ==> r.value < |s| && s[r.value] == '.' && forall j :: r.value < j < |s| ==> s[j] != '.'
    ensures r.None? ==> forall j :: 0 <= j < |s| ==> s[j] != '.'
  {
    if s == [] then None
    else if s[|s| - 1] == '.' then Some(|s| - 1)
    else LastDot(s[..|s| - 1])
  }

  /**
   * `stem()` of a file name: "." and ".." stay whole, and so does a name
   * whose only dot is its first character; otherwise the part before the
   * last dot.
   */
  function Stem(name: string): (s: string)
    ensures |s| <= |name| && s == name[..|s|]
  {
    if name == "." || name == ".." then name
    else match LastDot(name)
      case None => name
      case Some(i) => if i == 0 then name else name[..i]
  }

  /** A non-empty base name with an extension loses exactly the extension. */
  lemma StemDropsExtension(base: string, ext: string)
    requires base != [] && ext != [] && forall j :: 0 <= j < |ext| ==> ext[j] != '.'
    ensures Stem(base + "." + ext) == base
  {
    var name := base + "." + ext;
    assert name[|base|] == '.';
    assert forall j :: |base| < j < |name| ==> name[j] == ext[j - |base| - 1];
    assert name[..|base|] == base;
  }

  /** The binary dump beside a snapshot whose stem is `base`. */
  function MemoryFileName(base: string): string
  {
    base + "_memory.bin"
  }

  /** The memory index beside a snapshot whose stem is `base`. */
  function IndexFileName(base: string): string
  {
    base + "_memory_index.json"
  }

  /** The two files `create_snapshot` writes and the names it records in the snapshot. */
  datatype Layout = Layout(memPath: FilePath, indexPath: FilePath, recorded: SnapshotFiles)

  /**
   * `create_snapshot`'s file names: the dump and the index go in the
   * snapshot's directory, named after its stem, and the snapshot records
   * their file names with the default version "1.0".
   */
  function CreateLayout(p: FilePath): (l: Layout)
    ensures l.memPath != l.indexPath
    ensures l.memPath.dir == p.dir && l.indexPath.dir == p.dir
    ensures l.recorded == SnapshotFiles("1.0", l.memPath.name, l.indexPath.name)
  {
    var base := Stem(p.name);
    var l := Layout(FilePath(p.dir, MemoryFileName(base)), FilePath(p.dir, IndexFileName(base)),
                    SnapshotFiles("1.0", MemoryFileName(base), IndexFileName(base)));
    assert l.memPath.name[|base| + 7] == '.' && l.indexPath.name[|base| + 7] == '_';
    l
  }

  /**
   * `validate_snapshot`: the snapshot must deserialize, carry version "1.0"
   * and name a dump and an index that exist in its directory. `read` is what
   * deserializing the file gives; `existing` the paths that exist.
   */
  function ValidateSnapshot(p: FilePath, read: Result<SnapshotFiles>, existing: set<FilePath>): (ok: bool)
  {
    read.Ok? && read.value.version == "1.0" &&
    FilePath(p.dir, read.value.memoryFile) in existing && FilePath(p.dir, read.value.indexFile) in existing
  }

  /**
   * A snapshot just created validates exactly when both files it wrote
   * exist.
   */
  lemma CreateThenValidate(p: FilePath, existing: set<FilePath>)
    ensures var l := CreateLayout(p);
            ValidateSnapshot(p, Ok(l.recorded), existing) <==> l.memPath in existing && l.indexPath in existing
  {
  }

  /** A snapshot that fails to deserialize or has another version never validates. */
  lemma ValidateRejects(p: FilePath, read: Result<SnapshotFiles>, existing: set<FilePath>)
    requires read.Err? || read.value.version != "1.0"
    ensures !ValidateSnapshot(p, read, existing)
  {
  }

  /**
   * The files `restore_snapshot` reads: the index by the name the snapshot
   * records, the dump by the snapshot's own stem.
   */
  function RestoreLayout(p: FilePath, f: SnapshotFiles): (r: (FilePath, FilePath))
  {
    (FilePath(p.dir, MemoryFileName(Stem(p.name))), FilePath(p.dir, f.indexFile))
  }

  /** Restoring a snapshot where it was created reads the two files creating it wrote. */
  lemma CreateThenRestore(p: FilePath)
    ensures var l := CreateLayout(p);
            RestoreLayout(p, l.recorded) == (l.memPath, l.indexPath)
  {
  }

  /**
   * A snapshot renamed after creation still validates, since validation
   * follows the recorded names, but restoring it looks for a dump named
   * after the new stem, which does not exist.
   */
  lemma RenamedSnapshot()
    ensures var created := CreateLayout(FilePath("d", "a.json"));
            var moved := FilePath("d", "b.json");
            var existing := {created.memPath, created.indexPath};
            ValidateSnapshot(moved, Ok(created.recorded), existing) &&
            RestoreLayout(moved, created.recorded).0 !in existing
  {
    StemDropsExtension("a", "json");
    StemDropsExtension("b", "json");
    assert "a" + "." + "json" == "a.json" && "b" + "." + "json" == "b.json";
    assert MemoryFileName("b")[0] == 'b' && MemoryFileName("a")[0] == 'a';
  }

  /** The files a restore that follows the recorded names reads. */
  function RestoreLayoutFixed(p: FilePath, f: SnapshotFiles): (r: (FilePath, FilePath))
  {
    (FilePath(p.dir, f.memoryFile), FilePath(p.dir, f.indexFile))
  }

  /**
   * Following the recorded names, every snapshot that validates names two
   * files that exist, and one restored where it was created reads the files
   * creating it wrote.
   */
  lemma ValidThenRestoreFixed(p: FilePath, read: Result<SnapshotFiles>, existing: set<FilePath>)
    ensures ValidateSnapshot(p, read, existing) ==>
              RestoreLayoutFixed(p, read.value).0 in existing && RestoreLayoutFixed(p, read.value).1 in existing
    ensures var l := CreateLayout(p);
            RestoreLayoutFixed(p, l.recorded) == (l.memPath, l.indexPath)
  {
  }
}
