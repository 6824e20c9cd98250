/**
 * The emulator's sparse memory as the snapshot code sees it
 * (`snapshot_memory.c`): a list of fixed-size blocks, each named by its
 * base address (the address with the in-block offset bits, `MASK`,
 * cleared), newest first, plus the list of tag blocks.
 *
 * The linked lists are sequences in list order. A failing `malloc`/`calloc`
 * is a parameter saying which allocation fails; `free` has no counterpart.
 */
module SnapshotMemory {
  import opened Wrappers
  import opened Bits

  /** A block of `sail_memory`: its base address and its bytes. */
  datatype Block = Block(blockId: nat, mem: seq<nat>)

  /** A `memory_block_info` entry of a dump: id, size and a copy of the bytes. */
  datatype BlockCopy = BlockCopy(blockId: nat, size: nat, data: seq<nat>)

  /** `block_id & ~MASK`: the base address of the block holding `id`. */
  function BlockKey(id: nat, mask: nat): (k: nat)
    ensures k <= id
  {
    And(id, Not(mask, 64))
  }

  /**
   * The key has none of the offset bits set, and every address keeps the
   * bits above them: taking the key of a key changes nothing.
   */
  lemma KeyOfKey(id: nat, mask: nat, i: nat)
    ensures Bit(BlockKey(id, mask), i) == (i < 64 && Bit(id, i) && !Bit(mask, i))
    ensures BlockKey(BlockKey(id, mask), mask) == BlockKey(id, mask)
  {
    var n := Not(mask, 64);
    var k := BlockKey(id, mask);
    AndBit(id, n, i);
    NotBit(mask, 64, i);
    forall j: nat
      ensures Bit(And(k, n), j) == Bit(k, j)
    {
      AndBit(k, n, j);
      AndBit(id, n, j);
    }
    Equal(And(k, n), k);
  }

  /** The dump of a block list: one copy per block, in list order, each a whole block. */
  function Copies(blocks: seq<Block>, blockSize: nat): (cs: seq<BlockCopy>)
    ensures |cs| == |blocks|
    ensures forall i :: 0 <= i < |cs| ==>
              cs[i].blockId == blocks[i].blockId && cs[i].size == blockSize && cs[i].data == blocks[i].mem
  {
    seq(|blocks|, i requires 0 <= i < |blocks| => BlockCopy(blocks[i].blockId, blockSize, blocks[i].mem))
  }

  /** The first block with the given id, as the search loop finds it. */
  function FindBlock(blocks: seq<Block>, key: nat): (r: Option<nat>)
    ensures r.Some? ==> r.value < |blocks| && blocks[r.value].blockId == key &&
                        forall j :: 0 <= j < r.value ==> blocks[j].blockId != key
    ensures r.None? ==> forall j :: 0 <= j < |blocks| ==> blocks[j].blockId != key
  {
    if blocks == [] then None
    else if blocks[0].blockId == key then Some(0)
    else
      match FindBlock(blocks[1..], key)
      case None => None
      case Some(j) => Some(j + 1)
  }

  /** `memcpy(mem, data, n)`: the first `n` bytes replaced, the rest kept. */
  function Overwrite(mem: seq<nat>, data: seq<nat>, n: nat): (m: seq<nat>)
    requires n <= |mem| && n <= |data|
    ensures |m| == |mem| && m[..n] == data[..n] && m[n..] == mem[n..]
  {
    data[..n] + mem[n..]
  }

  function Zeroes(n: nat): (z: seq<nat>)
    ensures |z| == n && forall i :: 0 <= i < n ==> z[i] == 0
  {
    seq(n, _ => 0)
  }

  function Min(a: nat, b: nat): nat
  {
    if a < b then a else b
  }

  /**
   * The block list after restoring `size` bytes of `data` for `blockId`:
   * nothing changes for NULL data or when a new block cannot be allocated;
   * otherwise the first block with the key is overwritten in place, or a
   * zeroed block with that key is put at the head and overwritten.
   */
  function Restored(blocks: seq<Block>, blockSize: nat, mask: nat, blockId: nat,
                    data: Option<seq<nat>>, size: nat, allocOk: bool): (r: seq<Block>)
    requires data.Some? ==> |data.value| >= Min(size, blockSize)
    requires forall i :: 0 <= i < |blocks| ==> |blocks[i].mem| == blockSize
    ensures forall i :: 0 <= i < |r| ==> |r[i].mem| == blockSize
  {
    if data.None? then blocks
    else
      var key := BlockKey(blockId, mask);
      var n := Min(size, blockSize);
      match FindBlock(blocks, key)
      case Some(i) => blocks[i := Block(key, Overwrite(blocks[i].mem, data.value, n))]
      case None =>
        if allocOk then [Block(key, Overwrite(Zeroes(blockSize), data.value, n))] + blocks
        else blocks
  }

  /**
   * A restore adds at most one block; afterwards the block with the key
   * starts with the first `min(size, MASK + 1)` bytes of the data and keeps
   * the rest of what it held (zeros for a new block); every other block is
   * unchanged.
   */
  lemma RestoreEffect(blocks: seq<Block>, blockSize: nat, mask: nat, blockId: nat,
                      data: seq<nat>, size: nat, allocOk: bool)
    requires |data| >= Min(size, blockSize)
    requires forall i :: 0 <= i < |blocks| ==> |blocks[i].mem| == blockSize
    ensures var after := Restored(blocks, blockSize, mask, blockId, Some(data), size, allocOk);
            var key := BlockKey(blockId, mask);
            var n := Min(size, blockSize);
            match FindBlock(blocks, key)
            case Some(i) =>
              |after| == |blocks| && FindBlock(after, key) == Some(i) &&
              after[i].mem[..n] == data[..n] && after[i].mem[n..] == blocks[i].mem[n..] &&
              forall j :: 0 <= j < |blocks| && j != i ==> after[j] == blocks[j]
            case None =>
              if allocOk then
                |after| == |blocks| + 1 && FindBlock(after, key) == Some(0) &&
                after[0].mem[..n] == data[..n] && after[0].mem[n..] == Zeroes(blockSize)[n..] &&
                after[1..] == blocks
              else after == blocks
  {
    var key := BlockKey(blockId, mask);
    var after := Restored(blocks, blockSize, mask, blockId, Some(data), size, allocOk);
    match FindBlock(blocks, key)
    case Some(i) =>
      FindFirst(after, key, i);
    case None =>
      if allocOk {
        FindFirst(after, key, 0);
      }
  }

  /** A block with the key, with none before it, is the one the search finds. */
  lemma {:induction false} FindFirst(blocks: seq<Block>, key: nat, i: nat)
    requires i < |blocks| && blocks[i].blockId == key
    requires forall j :: 0 <= j < i ==> blocks[j].blockId != key
    ensures FindBlock(blocks, key) == Some(i)
  {
    if i > 0 {
      FindFirst(blocks[1..], key, i - 1);
    }
  }

  /** Restoring the same block twice adds at most one block in all. */
  lemma RestoreTwice(blocks: seq<Block>, blockSize: nat, mask: nat, blockId: nat,
                     data: seq<nat>, size: nat)
    requires |data| >= Min(size, blockSize)
    requires forall i :: 0 <= i < |blocks| ==> |blocks[i].mem| == blockSize
    ensures var once := Restored(blocks, blockSize, mask, blockId, Some(data), size, true);
            (forall i :: 0 <= i < |once| ==> |once[i].mem| == blockSize) &&
            |Restored(once, blockSize, mask, blockId, Some(data), size, true)| == |once| <= |blocks| + 1
  {
    RestoreEffect(blocks, blockSize, mask, blockId, data, size, true);
    var once := Restored(blocks, blockSize, mask, blockId, Some(data), size, true);
    RestoreEffect(once, blockSize, mask, blockId, data, size, true);
  }

  class SailMemory {
    /** `MASK + 1`: the size of every block. */
    const blockSize: nat
    /** `MASK`: the in-block offset bits. */
    const mask: nat
    /** `sail_memory`, head first. */
    var blocks: seq<Block>
    /** The ids of the blocks of `sail_tags`, head first. */
    var tags: seq<nat>

    ghost predicate Valid()
      reads this
    {
      blockSize == mask + 1 &&
      forall i :: 0 <= i < |blocks| ==> |blocks[i].mem| == blockSize
    }

    constructor(mask: nat)
      ensures Valid() && this.mask == mask && blocks == [] && tags == []
    {
      this.mask := mask;
      blockSize := mask + 1;
      blocks := [];
      tags := [];
    }

    /**
     * `snapshot_get_memory_blocks`: a copy of every block in list order and
     * their number. `outGiven` is false for a NULL `blocks_out`, which gives
     * 0 and writes nothing; `failAt` is the block whose allocation fails, if
     * any, which discards the partial copy and gives 0 and NULL.
     */
    method GetMemoryBlocks(outGiven: bool, failAt: Option<nat>) returns (count: nat, out: Option<seq<BlockCopy>>)
      requires Valid()
      ensures !outGiven ==> count == 0 && out.None?
      ensures outGiven && failAt.Some? && failAt.value < |blocks| ==> count == 0 && out.None?
      ensures outGiven && !(failAt.Some? && failAt.value < |blocks|) ==>
                count == |blocks| && out == Some(Copies(blocks, blockSize))
    {
      if !outGiven {
        return 0, None;
      }
      var copies: seq<BlockCopy> := [];
      var i := 0;
      while i < |blocks|
        invariant i <= |blocks|
        invariant failAt.Some? ==> failAt.value >= i
        invariant copies == Copies(blocks[..i], blockSize)
      {
        if failAt == Some(i) {
          return 0, None;
        }
        copies := copies + [BlockCopy(blocks[i].blockId, blockSize, blocks[i].mem)];
        i := i + 1;
      }
      assert blocks[..i] == blocks;
      count, out := i, Some(copies);
    }

    /** `snapshot_restore_memory_block`; `allocOk` says whether a new block can be allocated. */
    method RestoreMemoryBlock(blockId: nat, data: Option<seq<nat>>, size: nat, allocOk: bool)
      requires Valid()
      requires data.Some? ==> |data.value| >= Min(size, blockSize)
      modifies this
      ensures Valid() && tags == old(tags)
      ensures blocks == Restored(old(blocks), blockSize, mask, blockId, data, size, allocOk)
    {
      if data.None? {
        return;
      }
      var key := BlockKey(blockId, mask);
      var i := 0;
      while i < |blocks| && blocks[i].blockId != key
        invariant i <= |blocks|
        invariant forall j :: 0 <= j < i ==> blocks[j].blockId != key
      {
        i := i + 1;
      }
      var n := if size < blockSize then size else blockSize;
      if i == |blocks| {
        if !allocOk {
          return;
        }
        blocks := [Block(key, Zeroes(blockSize))] + blocks;
        i := 0;
      } else {
        FindFirst(blocks, key, i);
      }
      blocks := blocks[i := Block(key, Overwrite(blocks[i].mem, data.value, n))];
    }

    /** `snapshot_clear_memory`: both lists are emptied, block by block. */
    method ClearMemory()
      requires Valid()
      modifies this
      ensures Valid() && blocks == [] && tags == []
    {
      while blocks != []
        invariant Valid()
        decreases |blocks|
      {
        blocks := blocks[1..];
      }
      while tags != []
        invariant Valid() && blocks == []
        decreases |tags|
      {
        tags := tags[1..];
      }
    }
  }
}
