/**
 * The bootloader's bump allocator (`bootloader_custom_malloc.c`), used by the
 * XZ decoder: one offset into a fixed pool that only grows, and a `free` that
 * does nothing.
 */
module CustomMalloc {
  import opened OtaTypes

  /** One successful allocation: its address and its size. */
  datatype Block = Block(addr: nat, size: nat)

  /** The first address after the last block, or the pool start when none was handed out. */
  function EndOf(pool: nat, blocks: seq<Block>): (e: nat)
  {
    if blocks == [] then pool else blocks[|blocks| - 1].addr + blocks[|blocks| - 1].size
  }

  /** Each block starts where the previous one ended, the first one at the pool start. */
  ghost predicate Contiguous(pool: nat, blocks: seq<Block>)
  {
    blocks == [] ||
    (Contiguous(pool, blocks[..|blocks| - 1]) && blocks[|blocks| - 1].addr == EndOf(pool, blocks[..|blocks| - 1]))
  }

  /** Contiguous blocks lie at or after the pool start and before their end. */
  lemma {:induction false} ContiguousBounds(pool: nat, blocks: seq<Block>)
    requires Contiguous(pool, blocks)
    ensures forall i | 0 <= i < |blocks| :: pool <= blocks[i].addr && blocks[i].addr + blocks[i].size <= EndOf(pool, blocks)
  {
    if blocks != [] {
      var init := blocks[..|blocks| - 1];
      ContiguousBounds(pool, init);
      assert forall i | 0 <= i < |init| :: blocks[i] == init[i];
    }
  }

  /**
   * Blocks from successive successful calls are pairwise disjoint and in
   * increasing address order.
   */
  lemma {:induction false} BlocksDisjoint(pool: nat, blocks: seq<Block>)
    requires Contiguous(pool, blocks)
    ensures forall i, j | 0 <= i < j < |blocks| :: blocks[i].addr + blocks[i].size <= blocks[j].addr
  {
    if blocks != [] {
      var init := blocks[..|blocks| - 1];
      BlocksDisjoint(pool, init);
      ContiguousBounds(pool, init);
      assert forall i | 0 <= i < |init| :: blocks[i] == init[i];
    }
  }

  /**
   * The allocator's static state: `heap_pool` (the pool start), the linker
   * symbol `_dram_start` read as a number (`limit`), and `heap_used_offset`.
   * `blocks` records every successful allocation.
   */
  class BumpAllocator {
    const pool: nat
    const limit: nat
    var heapUsedOffset: nat
    ghost var blocks: seq<Block>

    ghost predicate Valid()
      reads this
    {
      && Contiguous(pool, blocks)
      && EndOf(pool, blocks) == pool + heapUsedOffset
      && (blocks != [] ==> heapUsedOffset < limit)
    }

    constructor (pool: nat, limit: nat)
      ensures Valid()
      ensures this.pool == pool && this.limit == limit
      ensures heapUsedOffset == 0 && blocks == []
    {
      this.pool := pool;
      this.limit := limit;
      heapUsedOffset := 0;
      blocks := [];
    }

    /**
     * `bootloader_custom_malloc`: succeeds exactly when `heap_used_offset + size`
     * is strictly below the limit, handing out the pool address at the old
     * offset; on failure (NULL) nothing changes.
     */
    method Malloc(size: nat) returns (p: Option<nat>)
      requires Valid()
      requires heapUsedOffset + size < 0x1_0000_0000
      modifies this
      ensures Valid()
      ensures p.Some? <==> old(heapUsedOffset) + size < limit
      ensures p.Some? ==> p.value == pool + old(heapUsedOffset)
                          && heapUsedOffset == old(heapUsedOffset) + size
                          && blocks == old(blocks) + [Block(p.value, size)]
      ensures p.None? ==> heapUsedOffset == old(heapUsedOffset) && blocks == old(blocks)
      ensures old(heapUsedOffset) <= heapUsedOffset
    {
      p := None;
      if heapUsedOffset + size < limit {
        p := Some(pool + heapUsedOffset);
        ghost var grown := blocks + [Block(pool + heapUsedOffset, size)];
        assert grown[..|grown| - 1] == blocks;
        assert Contiguous(pool, grown);
        blocks := grown;
        heapUsedOffset := heapUsedOffset + size;
      }
    }

    /** `bootloader_custom_free`: memory is never given back. */
    method Free(ptr: nat)
      requires Valid()
      ensures Valid()
      ensures heapUsedOffset == old(heapUsedOffset) && blocks == old(blocks)
    {
    }
  }
}
