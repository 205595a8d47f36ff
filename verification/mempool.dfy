/** The fixed-size block pool: a singly-linked free list threaded through
    the free blocks themselves, carved at start-up from the static
    allocator. A pool is the list of its free blocks' addresses, head first;
    addresses are offsets into the static pool. */
module Mempool {
  import opened Common
  import StaticAlloc

  /** `mempool_t`: its head, and through the blocks' `next` fields, the
      rest of the free list. */
  datatype Pool = Pool(free: seq<nat>)

  /** `pool_allocate`: an empty pool gives null and stays empty; otherwise
      the head block is handed out and its successor becomes the head. */
  function Allocate(p: Pool): (res: (Pool, Option<nat>))
    ensures p.free == [] ==> res == (p, None)
    ensures p.free != [] ==> res.1 == Some(p.free[0]) && [p.free[0]] + res.0.free == p.free
  {
    if p.free == [] then (p, None) else (Pool(p.free[1..]), Some(p.free[0]))
  }

  /** `pool_deallocate`: the block becomes the head, linked to the old head. */
  function Deallocate(p: Pool, block: nat): (p': Pool)
    ensures |p'.free| == |p.free| + 1 && p'.free[0] == block && p'.free[1..] == p.free
  {
    Pool([block] + p.free)
  }

  /** A block given back is the next one handed out, and handing it out
      restores the pool. */
  lemma DeallocateThenAllocate(p: Pool, block: nat)
    ensures Allocate(Deallocate(p, block)) == (p, Some(block))
  {
  }

  /** Giving back the block just handed out restores the pool. */
  lemma AllocateThenDeallocate(p: Pool)
    requires p.free != []
    ensures Deallocate(Allocate(p).0, Allocate(p).1.value) == p
  {
  }

  /** Blocks given back in the order `bs` come out again in reverse. */
  function DeallocateAll(p: Pool, bs: seq<nat>): (p': Pool)
    decreases |bs|
  {
    if bs == [] then p else DeallocateAll(Deallocate(p, bs[0]), bs[1..])
  }

  function AllocateN(p: Pool, n: nat): (res: (Pool, seq<Option<nat>>))
    decreases n
  {
    if n == 0 then (p, [])
    else
      var first := Allocate(p);
      var rest := AllocateN(first.0, n - 1);
      (rest.0, [first.1] + rest.1)
  }

  /** Blocks given back in the order `bs` sit on the free list last first. */
  lemma {:induction false} DeallocateAllStacks(p: Pool, bs: seq<nat>)
    ensures DeallocateAll(p, bs).free == Reversed(bs) + p.free
    decreases |bs|
  {
    if bs != [] {
      var q := Deallocate(p, bs[0]);
      calc {
        DeallocateAll(p, bs).free;
        DeallocateAll(q, bs[1..]).free;
        { DeallocateAllStacks(q, bs[1..]); }
        Reversed(bs[1..]) + ([bs[0]] + p.free);
        (Reversed(bs[1..]) + [bs[0]]) + p.free;
        Reversed(bs) + p.free;
      }
    }
  }

  /** LIFO: after giving back `bs`, the next `|bs|` allocations return them
      last first and leave the pool as it was. */
  lemma LastFreedFirstAllocated(p: Pool, bs: seq<nat>)
    ensures AllocateN(DeallocateAll(p, bs), |bs|) == (p, Wrapped(Reversed(bs)))
  {
    DeallocateAllStacks(p, bs);
    assert DeallocateAll(p, bs) == Pool(Reversed(bs) + p.free);
    AllocateAppended(Reversed(bs), p.free);
  }

  /** Allocating `|front|` blocks from `front + rest` hands out `front`. */
  lemma {:induction false} AllocateAppended(front: seq<nat>, rest: seq<nat>)
    ensures AllocateN(Pool(front + rest), |front|) == (Pool(rest), Wrapped(front))
    decreases |front|
  {
    if front != [] {
      var q := Pool(front + rest);
      assert (front + rest)[1..] == front[1..] + rest;
      AllocateAppended(front[1..], rest);
      assert Allocate(q) == (Pool(front[1..] + rest), Some(front[0]));
      var tail := AllocateN(Pool(front[1..] + rest), |front| - 1);
      assert AllocateN(q, |front|) == (tail.0, [Some(front[0])] + tail.1);
      assert Wrapped(front) == [Some(front[0])] + Wrapped(front[1..]);
    } else {
      assert front + rest == rest;
    }
  }

  function Reversed(s: seq<nat>): (r: seq<nat>)
    ensures |r| == |s|
  {
    if s == [] then [] else Reversed(s[1..]) + [s[0]]
  }

  function Wrapped(s: seq<nat>): (r: seq<Option<nat>>)
    ensures |r| == |s| && forall i :: 0 <= i < |s| ==> r[i] == Some(s[i])
  {
    if s == [] then [] else [Some(s[0])] + Wrapped(s[1..])
  }

  // ---------------------------------------------------------------------
  // `pool_init`.

  /** `(blocksize + STATIC_ALLOC_ALIGNMENT - 1) & ~(STATIC_ALLOC_ALIGNMENT - 1)`
      in 32-bit arithmetic. */
  function AlignUp(blocksize: U32): U32 {
    StaticAlloc.RoundDown((blocksize + 7) % WORD_MODULUS)
  }

  /** Unless the addition wraps, the aligned size is the smallest multiple
      of 8 that holds a block. */
  lemma AlignUpSpec(blocksize: U32)
    requires blocksize + 7 < WORD_MODULUS
    ensures var r := AlignUp(blocksize);
            r % 8 == 0 && blocksize <= r < blocksize + 8
            && forall m: nat :: m % 8 == 0 && m >= blocksize ==> m >= r
  {
    var r: int := AlignUp(blocksize);
    forall m: nat | m % 8 == 0 && m >= blocksize ensures m >= r {
      assert m == m / 8 * 8 && r == r / 8 * 8;
      assert m / 8 * 8 > r / 8 * 8 - 8;
      assert m / 8 >= r / 8;
    }
  }

  /** The loop of `pool_init`: blocks `i`, `i + 1`, … `n - 1` are given
      back in turn, block `i` at `base` plus the offset `i * size` computed
      in 32-bit `size_t`, which wraps. */
  function AddBlocks(p: Pool, base: nat, size: nat, i: nat, n: nat): (p': Pool)
    requires i <= n
    ensures |p'.free| == |p.free| + (n - i)
    ensures forall j :: 0 <= j < n - i ==> p'.free[j] == base + ((n - 1 - j) * size) % WORD_MODULUS
    ensures p'.free[n - i..] == p.free
    decreases n - i
  {
    if i == n then p else AddBlocks(Deallocate(p, base + (i * size) % WORD_MODULUS), base, size, i + 1, n)
  }

  /** `pool_init` as written: the size of the storage is the product of the
      aligned block size and the block count in 32-bit arithmetic, which
      wraps. If the storage is granted, the blocks are added on top of
      whatever the pool held; if not, the pool is emptied. */
  function InitAsWritten(p: Pool, a: StaticAlloc.Allocator, blocksize: U32, blocks: U32): (res: (Pool, StaticAlloc.Allocator))
  {
    var aligned := AlignUp(blocksize);
    var alloc := StaticAlloc.Alloc(a, (aligned * blocks) % WORD_MODULUS);
    match alloc.1
    case None => (Pool([]), alloc.0)
    case Some(base) => (AddBlocks(p, base, aligned, 0, blocks), alloc.0)
  }

  /** The wrap is real: from a fresh allocator, 65536 blocks of 65536 bytes
      ask for 0 bytes of storage, which is granted, and the pool is handed
      65536 blocks that all lie beyond the 16 KiB static pool. */
  lemma InitAsWrittenOverflows()
    ensures var (p', a') := InitAsWritten(Pool([]), StaticAlloc.Initial(), 65536, 65536);
            && |p'.free| == 65536
            && a' == StaticAlloc.Initial()
            && forall j :: 0 <= j < |p'.free| ==> p'.free[j] >= StaticAlloc.POOLSIZE
  {
    assert AlignUp(65536) == 65536;
    assert (65536 * 65536) % WORD_MODULUS == 0;
  }

  /** The offsets wrap too: from a fresh allocator, 4 blocks of 2 GiB ask
      for 0 bytes, which is granted, and block offsets `i * 0x80000000`
      wrap to 0 and 0x80000000 in turn, so the free list holds each of two
      blocks twice and two allocations hand out the same block. */
  lemma InitAsWrittenDuplicates()
    ensures var (p', a') := InitAsWritten(Pool([]), StaticAlloc.Initial(), 0x8000_0000, 4);
            && |p'.free| == 4
            && p'.free[0] == p'.free[2] && p'.free[1] == p'.free[3]
            && p'.free[0] != p'.free[1]
            && var (q, r) := AllocateN(p', 3);
            r[0] == r[2]
  {
    assert AlignUp(0x8000_0000) == 0x8000_0000;
    assert (0x8000_0000 * 4) % WORD_MODULUS == 0;
    assert (3 * 0x8000_0000) % WORD_MODULUS == 0x8000_0000;
    assert (2 * 0x8000_0000) % WORD_MODULUS == 0;
  }

  /** `pool_init` with the size computed without wrapping: a block size or
      total that does not fit in 32 bits is refused like any other request
      the static allocator cannot meet. */
  function Init(p: Pool, a: StaticAlloc.Allocator, blocksize: U32, blocks: U32): (res: (Pool, StaticAlloc.Allocator))
  {
    if blocksize + 7 >= WORD_MODULUS || AlignUp(blocksize) * blocks >= WORD_MODULUS then
      (Pool([]), a)
    else
      InitAsWritten(p, a, blocksize, blocks)
  }

  /** A block `[x, x + blocksize)` lies inside `[lo, hi)`. */
  predicate Inside(x: nat, blocksize: nat, lo: nat, hi: nat) {
    lo <= x && x + blocksize <= hi
  }

  /** `p'` is `p` with `blocks` new blocks in front, 8-aligned, inside the
      storage between the allocator's new and old index, and not
      overlapping one another. */
  predicate Carved(p: Pool, p': Pool, a: StaticAlloc.Allocator, a': StaticAlloc.Allocator, blocksize: nat, blocks: nat) {
    && |p'.free| == |p.free| + blocks
    && p'.free[blocks..] == p.free
    && (forall j :: 0 <= j < blocks ==>
          p'.free[j] % 8 == 0 && Inside(p'.free[j], blocksize, a'.index, a.index))
    && (forall i, j :: 0 <= i < j < blocks ==>
          Inside(p'.free[j], blocksize, p'.free[j], p'.free[i]))
  }

  /** The storage for `blocks` blocks of `blocksize` bytes is granted: the
      aligned size and the total fit in 32 bits, and the static allocator has
      more than the total left. */
  predicate Granted(a: StaticAlloc.Allocator, blocksize: U32, blocks: U32) {
    && blocksize + 7 < WORD_MODULUS
    && AlignUp(blocksize) * blocks < WORD_MODULUS
    && a.index > AlignUp(blocksize) * blocks
  }

  /** Initialising puts `blocks` new blocks in front of the old free list
      exactly when the storage is granted; the new blocks are 8-aligned, lie
      inside the storage the allocator granted, which lies below its old
      index, and do not overlap one another. Otherwise the pool is emptied
      and the allocator is left alone. */
  lemma InitSpec(p: Pool, a: StaticAlloc.Allocator, blocksize: U32, blocks: U32)
    requires StaticAlloc.Valid(a)
    ensures var res := Init(p, a, blocksize, blocks);
            && StaticAlloc.Valid(res.1)
            && (Granted(a, blocksize, blocks) ==> Carved(p, res.0, a, res.1, blocksize, blocks))
            && (!Granted(a, blocksize, blocks) ==> res.0.free == [] && res.1 == a)
  {
    if blocksize + 7 < WORD_MODULUS && AlignUp(blocksize) * blocks < WORD_MODULUS {
      var aligned := AlignUp(blocksize);
      AlignUpSpec(blocksize);
      var size := aligned * blocks;
      assert size % WORD_MODULUS == size;
      var alloc := StaticAlloc.Alloc(a, size);
      assert InitAsWritten(p, a, blocksize, blocks).1 == alloc.0;
      if alloc.1.Some? {
        var base := alloc.1.value;
        assert Init(p, a, blocksize, blocks).0 == AddBlocks(p, base, aligned, 0, blocks);
        AddBlocksCarved(p, a, alloc.0, aligned, blocksize, blocks);
      }
    }
  }

  /** The blocks `pool_init` adds, each `aligned` bytes apart from the
      allocator's new index, are carved out of the storage it granted. */
  lemma AddBlocksCarved(p: Pool, a: StaticAlloc.Allocator, a': StaticAlloc.Allocator, aligned: nat, blocksize: nat, blocks: nat)
    requires a'.index % 8 == 0 && aligned % 8 == 0 && blocksize <= aligned
    requires a'.index + aligned * blocks <= a.index && aligned * blocks < WORD_MODULUS
    ensures Carved(p, AddBlocks(p, a'.index, aligned, 0, blocks), a, a', blocksize, blocks)
  {
    var base := a'.index;
    var p' := AddBlocks(p, base, aligned, 0, blocks);
    forall j | 0 <= j < blocks
      ensures p'.free[j] % 8 == 0 && Inside(p'.free[j], blocksize, a'.index, a.index)
    {
      NoWrap(aligned, blocks - 1 - j, blocks);
      assert p'.free[j] == base + (blocks - 1 - j) * aligned;
      BlockInside(base, aligned, blocksize, blocks - 1 - j, blocks);
    }
    forall i, j | 0 <= i < j < blocks
      ensures Inside(p'.free[j], blocksize, p'.free[j], p'.free[i])
    {
      NoWrap(aligned, blocks - 1 - j, blocks);
      NoWrap(aligned, blocks - 1 - i, blocks);
      assert p'.free[j] == base + (blocks - 1 - j) * aligned;
      assert p'.free[i] == base + (blocks - 1 - i) * aligned;
      BlocksOrdered(aligned, blocksize, blocks - 1 - j, blocks - 1 - i);
    }
  }

  /** When the whole storage fits in 32 bits, no block offset wraps. */
  lemma NoWrap(aligned: nat, k: nat, n: nat)
    requires k < n && aligned * n < WORD_MODULUS
    ensures (k * aligned) % WORD_MODULUS == k * aligned
  {
    MulMono(k, n, aligned);
  }

  /** Block `k` of `n` fits in the storage. */
  lemma BlockInside(base: nat, aligned: nat, blocksize: nat, k: nat, n: nat)
    requires k < n && blocksize <= aligned && aligned % 8 == 0 && base % 8 == 0
    ensures (base + k * aligned) % 8 == 0
    ensures base + k * aligned + blocksize <= base + aligned * n
  {
    MulMono(k + 1, n, aligned);
    assert (k + 1) * aligned == k * aligned + aligned;
    var q := aligned / 8;
    assert aligned == 8 * q;
    assert k * aligned == 8 * (k * q);
  }

  /** An earlier block ends before a later one starts. */
  lemma BlocksOrdered(aligned: nat, blocksize: nat, k: nat, l: nat)
    requires k < l && blocksize <= aligned
    ensures k * aligned + blocksize <= l * aligned
  {
    MulMono(k + 1, l, aligned);
    assert (k + 1) * aligned == k * aligned + aligned;
  }

  lemma {:induction false} MulMono(x: nat, y: nat, c: nat)
    requires x <= y
    ensures x * c <= y * c
    decreases y - x
  {
    if x < y {
      MulMono(x + 1, y, c);
      assert (x + 1) * c == x * c + c;
    }
  }
}
