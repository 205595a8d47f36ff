/** The static bump allocator: a 16 KiB pool handed out from the top down,
    each block starting on an 8-byte boundary and never given back.

    Addresses are offsets into the pool. `None` is the null pointer the C
    function returns on failure; `Some(0)` is a real block at the bottom of
    the pool. */
module StaticAlloc {
  import opened Common

  /** `STATIC_ALLOC_POOLSIZE`. */
  const POOLSIZE: nat := 16384
  /** `STATIC_ALLOC_ALIGNMENT`. */
  const ALIGNMENT: nat := 8

  /** `pool_index`: everything from here to the top of the pool is taken. */
  datatype Allocator = Allocator(index: nat)

  /** The whole pool is free at start. */
  function Initial(): (a: Allocator)
    ensures a.index == POOLSIZE && Valid(a)
  {
    Allocator(POOLSIZE)
  }

  /** The index stays inside the pool and on an alignment boundary. */
  predicate Valid(a: Allocator) {
    a.index <= POOLSIZE && a.index % ALIGNMENT == 0
  }

  /** `x &= ~(STATIC_ALLOC_ALIGNMENT - 1)`: clearing the three low bits of
      an unsigned value, i.e. rounding it down to a multiple of 8. */
  function RoundDown(x: nat): (r: nat)
    ensures r % ALIGNMENT == 0 && r <= x && x - r < ALIGNMENT
  {
    x - x % ALIGNMENT
  }

  /** `static_alloc`: a request strictly smaller than the free space takes
      `bytes` off the index and rounds the index down to a multiple of 8;
      the new index is the block. Otherwise nothing changes and the result
      is null. So asking for all the free space fails; a granted block is
      aligned, fits below the old index and wastes less than 8 bytes. */
  function Alloc(a: Allocator, bytes: U32): (res: (Allocator, Option<nat>))
    ensures res.1.Some? <==> a.index > bytes
    ensures res.1.None? ==> res.0 == a
    ensures res.1.Some? ==>
              && res.1.value == res.0.index
              && res.1.value % ALIGNMENT == 0
              && res.1.value + bytes <= a.index
              && a.index - bytes - res.1.value < ALIGNMENT
    ensures res.0.index <= a.index
    ensures Valid(a) ==> Valid(res.0)
  {
    if a.index > bytes then
      var index := RoundDown(a.index - bytes);
      (Allocator(index), Some(index))
    else
      (a, None)
  }

  /** Two blocks handed out one after the other do not overlap: the later
      one lies wholly below the earlier one. */
  lemma AllocDisjoint(a: Allocator, b1: U32, b2: U32)
    ensures var (a1, x1) := Alloc(a, b1);
            var (a2, x2) := Alloc(a1, b2);
            x1.Some? && x2.Some? ==> x2.value + b2 <= x1.value
  {
  }

  /** The blocks handed out by a run of requests, in request order. */
  function AllocAll(a: Allocator, reqs: seq<U32>): (blocks: seq<Option<nat>>)
    ensures |blocks| == |reqs|
    decreases |reqs|
  {
    if reqs == [] then []
    else
      var (a1, x) := Alloc(a, reqs[0]);
      [x] + AllocAll(a1, reqs[1..])
  }

  /** However many requests are made, every granted block is aligned and
      lies below the index the run started from, and each block lies wholly
      below every block granted before it, so no two blocks overlap. */
  lemma {:induction false} AllocAllDisjoint(a: Allocator, reqs: seq<U32>)
    ensures var blocks := AllocAll(a, reqs);
            && (forall j :: 0 <= j < |reqs| && blocks[j].Some? ==>
                  blocks[j].value % ALIGNMENT == 0 && blocks[j].value + reqs[j] <= a.index)
            && (forall i, j :: 0 <= i < j < |reqs| && blocks[i].Some? && blocks[j].Some? ==>
                  blocks[j].value + reqs[j] <= blocks[i].value)
    decreases |reqs|
  {
    if reqs != [] {
      var (a1, x) := Alloc(a, reqs[0]);
      var rest := AllocAll(a1, reqs[1..]);
      AllocAllDisjoint(a1, reqs[1..]);
      var blocks := AllocAll(a, reqs);
      assert blocks == [x] + rest;
      forall j | 1 <= j < |reqs| && blocks[j].Some?
        ensures blocks[j].value + reqs[j] <= a1.index
      {
        assert blocks[j] == rest[j - 1] && reqs[j] == reqs[1..][j - 1];
      }
    }
  }
}
