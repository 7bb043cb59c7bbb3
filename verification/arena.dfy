/**
 * The block-based bump allocator `SimpleVectorAlloc` of src/memory/area.cpp.
 *
 * Addresses are naturals (0 is the null pointer). A block, and equally a region
 * handed out to a caller, is an `Extent(start, size)`. The address `malloc`
 * returns for a new block is a parameter (`blockAddr`) of the operations that may
 * need one; the lemmas assume, as `malloc` guarantees, that it is 8-aligned and
 * that the new block overlaps no block the allocator already owns.
 */
module Arena {

  /** kBlockSize: size of a standard block. */
  const BlockSize: nat := 4096
  /** Requests larger than this (kBlockSize / 4) get a dedicated block. */
  const DedicatedThreshold: nat := BlockSize / 4
  /** Alignment of a fast-path result: max(sizeof(void*), 8) on a 64-bit target. */
  const Align: nat := 8
  /** sizeof(char*) on a 64-bit target: the bookkeeping charged per block. */
  const PointerBytes: nat := 8
  /** Requests are `uint32_t`. */
  const Uint32Limit: nat := 0x1_0000_0000

  /** A contiguous range of addresses [start, start + size). */
  datatype Extent = Extent(start: nat, size: nat) {
    function End(): nat { start + size }

    predicate Covers(e: Extent) { start <= e.start && e.End() <= End() }
  }

  /** Two ranges share no address (an empty range overlaps nothing). */
  predicate Disjoint(a: Extent, b: Extent) {
    a.size == 0 || b.size == 0 || a.End() <= b.start || b.End() <= a.start
  }

  /**
   * The allocator's state: the bump pointer `alloc_ptr_`, the byte count
   * `alloc_bytes_remaining_`, the list `blocks_` and the counter `memory_usage_`.
   */
  datatype VectorAlloc = VectorAlloc(ptr: nat, remaining: nat, blocks: seq<Extent>, usage: nat) {
    /** The part of the current block not yet handed out. */
    function Free(): Extent { Extent(ptr, remaining) }
  }

  /** An allocator state after a request, with the address handed back. */
  datatype Grant = Grant(alloc: VectorAlloc, addr: nat)

  /** Bytes charged for a list of blocks: each block's size plus one pointer. */
  function Footprint(blocks: seq<Extent>): nat {
    if |blocks| == 0 then 0 else blocks[0].size + PointerBytes + Footprint(blocks[1..])
  }

  lemma {:induction false} FootprintAppend(blocks: seq<Extent>, b: Extent)
    ensures Footprint(blocks + [b]) == Footprint(blocks) + b.size + PointerBytes
  {
    if |blocks| > 0 {
      assert (blocks + [b])[1..] == blocks[1..] + [b];
      FootprintAppend(blocks[1..], b);
    }
  }

  /** Some block the allocator owns contains `e`; an empty range needs none. */
  ghost predicate InBlock(a: VectorAlloc, e: Extent) {
    e.size == 0 || exists i :: 0 <= i < |a.blocks| && a.blocks[i].Covers(e)
  }

  /** The free range runs from the bump pointer to the end of a standard block. */
  ghost predicate FreeEndsBlock(a: VectorAlloc) {
    exists i :: 0 <= i < |a.blocks| && a.blocks[i].size == BlockSize
      && a.blocks[i].start <= a.ptr && a.Free().End() == a.blocks[i].End()
  }

  /**
   * The allocator's invariant: the usage counter is the footprint of the blocks,
   * the blocks do not overlap, and the bump pointer is either still null with
   * nothing left or inside the current standard block, `remaining` bytes before
   * its end.
   */
  ghost predicate Valid(a: VectorAlloc) {
    && a.usage == Footprint(a.blocks)
    && (forall i, j :: 0 <= i < j < |a.blocks| ==> Disjoint(a.blocks[i], a.blocks[j]))
    && ((a.ptr == 0 && a.remaining == 0) || FreeEndsBlock(a))
  }

  /**
   * What `malloc` is assumed to give for a new block of `size` bytes: a
   * non-null, 8-aligned address whose block overlaps none the allocator owns.
   */
  ghost predicate FreshBlock(a: VectorAlloc, blockAddr: nat, size: nat) {
    blockAddr > 0 && blockAddr % Align == 0 && forall i :: 0 <= i < |a.blocks| ==> Disjoint(Extent(blockAddr, size), a.blocks[i])
  }

  /** Size of the block a request that does not fit will cause to be allocated. */
  function FallbackBlockSize(bytes: nat): nat {
    if bytes > DedicatedThreshold then bytes else BlockSize
  }

  /** The constructor: no blocks, a null pointer, nothing remaining, no usage. */
  function New(): (a: VectorAlloc)
    ensures a.blocks == [] && a.ptr == 0 && a.remaining == 0 && a.usage == 0
    ensures Valid(a)
  {
    VectorAlloc(0, 0, [], 0)
  }

  /** Padding that brings `ptr` up to the next multiple of `Align`. */
  function Slop(ptr: nat): (r: nat)
    ensures r < Align && (ptr + r) % Align == 0
  {
    var m := ptr % Align;
    if m == 0 then 0 else Align - m
  }

  /** The fast-path test of `Allocate`: the padded request fits the current block. */
  predicate Fits(a: VectorAlloc, bytes: nat) {
    bytes + Slop(a.ptr) <= a.remaining
  }

  /**
   * `AllocateNewBlock`: obtains a block of `blockBytes` at `blockAddr`, records it
   * and charges it to the usage counter; the bump pointer is left alone.
   */
  function AllocateNewBlock(a: VectorAlloc, blockBytes: nat, blockAddr: nat): (g: Grant)
    ensures g.addr == blockAddr && g.alloc.blocks == a.blocks + [Extent(blockAddr, blockBytes)]
    ensures g.alloc.ptr == a.ptr && g.alloc.remaining == a.remaining
    ensures g.alloc.usage == a.usage + blockBytes + PointerBytes
    ensures a.usage == Footprint(a.blocks) ==> g.alloc.usage == Footprint(g.alloc.blocks)
  {
    FootprintAppend(a.blocks, Extent(blockAddr, blockBytes));
    Grant(a.(blocks := a.blocks + [Extent(blockAddr, blockBytes)], usage := a.usage + blockBytes + PointerBytes), blockAddr)
  }

  /**
   * `AllocateFallback`: a large request gets a dedicated block and leaves the
   * current block in place; a small one replaces the current block by a new
   * standard block and is carved from its start. Whatever the replaced block
   * still had left is never handed out again (see `SmallFallbackAbandonsLeftover`).
   */
  function AllocateFallback(a: VectorAlloc, bytes: nat, blockAddr: nat): (g: Grant)
    ensures g.addr == blockAddr && g.alloc.blocks == a.blocks + [Extent(blockAddr, FallbackBlockSize(bytes))]
    ensures g.alloc.usage == a.usage + FallbackBlockSize(bytes) + PointerBytes
    ensures bytes > DedicatedThreshold ==> g.alloc.ptr == a.ptr && g.alloc.remaining == a.remaining
    ensures bytes <= DedicatedThreshold ==>
              g.alloc.ptr == blockAddr + bytes && g.alloc.remaining == BlockSize - bytes
  {
    if bytes > DedicatedThreshold then
      AllocateNewBlock(a, bytes, blockAddr)
    else
      var g := AllocateNewBlock(a, BlockSize, blockAddr);
      Grant(g.alloc.(ptr := g.addr + bytes, remaining := BlockSize - bytes), g.addr)
  }

  /**
   * `Allocate`: serves the request from the current block after padding the
   * pointer to an 8-byte boundary when it fits, and falls back otherwise.
   */
  function Allocate(a: VectorAlloc, bytes: nat, blockAddr: nat): (g: Grant)
    requires bytes + Align <= Uint32Limit
    ensures Fits(a, bytes) ==>
              && g.alloc.blocks == a.blocks && g.alloc.usage == a.usage
              && g.addr % Align == 0 && a.ptr <= g.addr < a.ptr + Align
              && g.alloc.ptr == g.addr + bytes
              && g.alloc.Free().End() == a.Free().End()
    ensures !Fits(a, bytes) ==> g == AllocateFallback(a, bytes, blockAddr)
    ensures blockAddr % Align == 0 ==> g.addr % Align == 0
    ensures a.blocks <= g.alloc.blocks && a.usage <= g.alloc.usage
  {
    var slop := Slop(a.ptr);
    var needed := bytes + slop;
    if needed <= a.remaining then
      Grant(a.(ptr := a.ptr + needed, remaining := a.remaining - needed), a.ptr + slop)
    else
      AllocateFallback(a, bytes, blockAddr)
  }

  /** `Deallocate`: unsupported, so the state is returned untouched. */
  function Deallocate(a: VectorAlloc, addr: nat, n: int): (r: VectorAlloc)
    ensures r == a
  {
    a
  }

  /**
   * The regions handed out so far (`granted`) each lie in a block the
   * allocator owns, stay clear of the free range, and do not overlap.
   */
  ghost predicate GrantsDisjoint(a: VectorAlloc, granted: seq<Extent>) {
    && Valid(a)
    && (forall m :: 0 <= m < |granted| ==> InBlock(a, granted[m]) && Disjoint(granted[m], a.Free()))
    && (forall m, n :: 0 <= m < n < |granted| ==> Disjoint(granted[m], granted[n]))
  }

  lemma NewHasNoGrants()
    ensures GrantsDisjoint(New(), [])
  {
  }

  /** A range inside a block stays clear of anything clear of that block. */
  lemma CoveredDisjoint(outer: Extent, inner: Extent, other: Extent)
    requires outer.Covers(inner) && Disjoint(outer, other)
    ensures Disjoint(inner, other)
  {
  }

  /** Anything inside an owned block stays clear of a fresh block. */
  lemma InBlockClearOfFresh(a: VectorAlloc, e: Extent, blockAddr: nat, size: nat)
    requires InBlock(a, e) && FreshBlock(a, blockAddr, size)
    ensures Disjoint(e, Extent(blockAddr, size))
  {
    if e.size > 0 {
      var i :| 0 <= i < |a.blocks| && a.blocks[i].Covers(e);
      CoveredDisjoint(a.blocks[i], e, Extent(blockAddr, size));
    }
  }

  /** A block the allocator owns keeps being owned after more blocks are added. */
  lemma InBlockGrows(a: VectorAlloc, b: VectorAlloc, e: Extent)
    requires a.blocks <= b.blocks && InBlock(a, e)
    ensures InBlock(b, e)
  {
    if e.size > 0 {
      var i :| 0 <= i < |a.blocks| && a.blocks[i].Covers(e);
      assert b.blocks[i] == a.blocks[i];
    }
  }

  /** The free range of a valid allocator lies inside one of its blocks. */
  lemma FreeInBlock(a: VectorAlloc)
    requires Valid(a)
    ensures InBlock(a, a.Free())
  {
    if a.remaining > 0 {
      var i :| 0 <= i < |a.blocks| && a.blocks[i].size == BlockSize
        && a.blocks[i].start <= a.ptr && a.Free().End() == a.blocks[i].End();
      assert a.blocks[i].Covers(a.Free());
    }
  }

  /** The fast path keeps the allocator valid and carves the result from the free range. */
  lemma FastPathShape(a: VectorAlloc, bytes: nat, blockAddr: nat)
    requires Valid(a) && bytes + Align <= Uint32Limit && Fits(a, bytes)
    ensures var g := Allocate(a, bytes, blockAddr);
            && Valid(g.alloc) && g.alloc.blocks == a.blocks
            && a.Free().Covers(Extent(g.addr, bytes)) && a.Free().Covers(g.alloc.Free())
            && Disjoint(Extent(g.addr, bytes), g.alloc.Free())
  {
    var g := Allocate(a, bytes, blockAddr);
    var b := g.alloc;
    assert b.blocks == a.blocks && b.usage == a.usage && b.Free().End() == a.Free().End();
    assert a.ptr <= g.addr && b.ptr == g.addr + bytes;
    if a.ptr == 0 && a.remaining == 0 {
      assert b.ptr == 0 && b.remaining == 0;
    } else {
      var i :| 0 <= i < |a.blocks| && a.blocks[i].size == BlockSize
        && a.blocks[i].start <= a.ptr && a.Free().End() == a.blocks[i].End();
      assert b.blocks[i].start <= b.ptr && b.Free().End() == b.blocks[i].End();
    }
  }

  lemma FastPathKeepsGrants(a: VectorAlloc, granted: seq<Extent>, bytes: nat, blockAddr: nat)
    requires GrantsDisjoint(a, granted) && bytes + Align <= Uint32Limit && Fits(a, bytes)
    ensures var g := Allocate(a, bytes, blockAddr);
            GrantsDisjoint(g.alloc, granted + [Extent(g.addr, bytes)])
  {
    var g := Allocate(a, bytes, blockAddr);
    var r := Extent(g.addr, bytes);
    var b := g.alloc;
    var all := granted + [r];
    FastPathShape(a, bytes, blockAddr);
    FreeInBlock(a);
    assert InBlock(b, r) by {
      if r.size > 0 {
        var i :| 0 <= i < |a.blocks| && a.blocks[i].Covers(a.Free());
        assert b.blocks[i].Covers(r);
      }
    }
    forall m | 0 <= m < |all|
      ensures InBlock(b, all[m]) && Disjoint(all[m], b.Free())
    {
      if m < |granted| {
        InBlockGrows(a, b, granted[m]);
        CoveredDisjoint(a.Free(), b.Free(), granted[m]);
      }
    }
    forall m, n | 0 <= m < n < |all|
      ensures Disjoint(all[m], all[n])
    {
      if n == |granted| {
        CoveredDisjoint(a.Free(), r, granted[m]);
      }
    }
  }

  lemma DedicatedKeepsGrants(a: VectorAlloc, granted: seq<Extent>, bytes: nat, blockAddr: nat)
    requires GrantsDisjoint(a, granted) && bytes + Align <= Uint32Limit && !Fits(a, bytes)
    requires bytes > DedicatedThreshold && FreshBlock(a, blockAddr, bytes)
    ensures var g := Allocate(a, bytes, blockAddr);
            GrantsDisjoint(g.alloc, granted + [Extent(g.addr, bytes)])
  {
    var g := Allocate(a, bytes, blockAddr);
    var r := Extent(blockAddr, bytes);
    var b := g.alloc;
    var all := granted + [r];
    assert b.blocks[|a.blocks|] == r;
    FreeInBlock(a);
    InBlockClearOfFresh(a, a.Free(), blockAddr, bytes);
    assert Valid(b) by {
      if !(a.ptr == 0 && a.remaining == 0) {
        var i :| 0 <= i < |a.blocks| && a.blocks[i].size == BlockSize
          && a.blocks[i].start <= a.ptr && a.Free().End() == a.blocks[i].End();
        assert b.blocks[i] == a.blocks[i];
      }
    }
    forall m | 0 <= m < |all|
      ensures InBlock(b, all[m]) && Disjoint(all[m], b.Free())
    {
      if m < |granted| {
        InBlockGrows(a, b, granted[m]);
      }
    }
    forall m, n | 0 <= m < n < |all|
      ensures Disjoint(all[m], all[n])
    {
      if n == |granted| {
        InBlockClearOfFresh(a, granted[m], blockAddr, bytes);
      }
    }
  }

  lemma StandardFallbackKeepsGrants(a: VectorAlloc, granted: seq<Extent>, bytes: nat, blockAddr: nat)
    requires GrantsDisjoint(a, granted) && bytes + Align <= Uint32Limit && !Fits(a, bytes)
    requires bytes <= DedicatedThreshold && FreshBlock(a, blockAddr, BlockSize)
    ensures var g := Allocate(a, bytes, blockAddr);
            GrantsDisjoint(g.alloc, granted + [Extent(g.addr, bytes)])
  {
    var g := Allocate(a, bytes, blockAddr);
    var block := Extent(blockAddr, BlockSize);
    var r := Extent(blockAddr, bytes);
    var b := g.alloc;
    var all := granted + [r];
    assert b.blocks[|a.blocks|] == block;
    assert block.Covers(r) && block.Covers(b.Free());
    assert FreeEndsBlock(b);
    forall m | 0 <= m < |all|
      ensures InBlock(b, all[m]) && Disjoint(all[m], b.Free())
    {
      if m < |granted| {
        InBlockGrows(a, b, granted[m]);
        InBlockClearOfFresh(a, granted[m], blockAddr, BlockSize);
        CoveredDisjoint(block, b.Free(), granted[m]);
      }
    }
    forall m, n | 0 <= m < n < |all|
      ensures Disjoint(all[m], all[n])
    {
      if n == |granted| {
        InBlockClearOfFresh(a, granted[m], blockAddr, BlockSize);
        CoveredDisjoint(block, r, granted[m]);
      }
    }
  }

  /** A region in an owned block, clear of the free range and of every region so far, can join them. */
  lemma GrantsExtend(a: VectorAlloc, granted: seq<Extent>, e: Extent)
    requires GrantsDisjoint(a, granted) && InBlock(a, e) && Disjoint(e, a.Free())
    requires forall m :: 0 <= m < |granted| ==> Disjoint(granted[m], e)
    ensures GrantsDisjoint(a, granted + [e])
  {
    var all := granted + [e];
    forall m | 0 <= m < |all|
      ensures InBlock(a, all[m]) && Disjoint(all[m], a.Free())
    {
      if m < |granted| {
        assert all[m] == granted[m];
      }
    }
    forall m, n | 0 <= m < n < |all|
      ensures Disjoint(all[m], all[n])
    {
      assert all[m] == granted[m];
    }
  }

  /**
   * Every region `Allocate` hands out lies in a block the allocator owns and
   * overlaps no region handed out before, provided each new block is fresh.
   */
  lemma AllocateKeepsGrantsDisjoint(a: VectorAlloc, granted: seq<Extent>, bytes: nat, blockAddr: nat)
    requires GrantsDisjoint(a, granted) && bytes + Align <= Uint32Limit
    requires FreshBlock(a, blockAddr, FallbackBlockSize(bytes))
    ensures var g := Allocate(a, bytes, blockAddr);
            GrantsDisjoint(g.alloc, granted + [Extent(g.addr, bytes)])
  {
    if Fits(a, bytes) {
      FastPathKeepsGrants(a, granted, bytes, blockAddr);
    } else if bytes > DedicatedThreshold {
      DedicatedKeepsGrants(a, granted, bytes, blockAddr);
    } else {
      StandardFallbackKeepsGrants(a, granted, bytes, blockAddr);
    }
  }

  /**
   * `Deallocate` reclaims nothing: a region passed to it is still never
   * overlapped by the next allocation.
   */
  lemma DeallocateNeverReclaims(a: VectorAlloc, granted: seq<Extent>, m: nat, bytes: nat, blockAddr: nat)
    requires GrantsDisjoint(a, granted) && m < |granted| && bytes + Align <= Uint32Limit
    requires FreshBlock(a, blockAddr, FallbackBlockSize(bytes))
    ensures var g := Allocate(Deallocate(a, granted[m].start, granted[m].size), bytes, blockAddr);
            Disjoint(granted[m], Extent(g.addr, bytes))
  {
    AllocateKeepsGrantsDisjoint(a, granted, bytes, blockAddr);
    var g := Allocate(a, bytes, blockAddr);
    assert (granted + [Extent(g.addr, bytes)])[m] == granted[m];
  }

  /**
   * A small request that does not fit moves the free range into the fresh
   * block, and the bytes the old block still had join the regions that the
   * no-overlap invariant keeps clear of the free range. Since
   * `AllocateKeepsGrantsDisjoint` carries that invariant through every later
   * call, no later allocation ever hands those bytes out.
   */
  lemma SmallFallbackAbandonsLeftover(a: VectorAlloc, granted: seq<Extent>, bytes: nat, blockAddr: nat)
    requires GrantsDisjoint(a, granted) && bytes + Align <= Uint32Limit
    requires !Fits(a, bytes) && bytes <= DedicatedThreshold
    requires FreshBlock(a, blockAddr, BlockSize)
    ensures var g := Allocate(a, bytes, blockAddr);
            && Disjoint(a.Free(), g.alloc.Free())
            && g.alloc.Free().End() == blockAddr + BlockSize
            && GrantsDisjoint(g.alloc, granted + [Extent(g.addr, bytes), a.Free()])
  {
    var g := Allocate(a, bytes, blockAddr);
    var block := Extent(blockAddr, BlockSize);
    var r := Extent(g.addr, bytes);
    var b := g.alloc;
    assert g.addr == blockAddr && b.Free() == Extent(blockAddr + bytes, BlockSize - bytes);
    assert b.blocks == a.blocks + [block];
    StandardFallbackKeepsGrants(a, granted, bytes, blockAddr);
    FreeInBlock(a);
    InBlockGrows(a, b, a.Free());
    InBlockClearOfFresh(a, a.Free(), blockAddr, BlockSize);
    CoveredDisjoint(block, b.Free(), a.Free());
    CoveredDisjoint(block, r, a.Free());
    var before := granted + [r];
    forall m | 0 <= m < |before|
      ensures Disjoint(before[m], a.Free())
    {
      if m < |granted| {
        assert before[m] == granted[m];
      }
    }
    assert before + [a.Free()] == granted + [r, a.Free()];
    GrantsExtend(b, before, a.Free());
  }
}
