/** Puddles: memory headers that live inside a block of another header, with their own index. */
module Puddles {
  import opened FreeList
  import opened MemoryIndex
  import opened ChunkLinks
  import opened Memory
  import opened Tiling
  import opened MemoryList

  /** The size of a structure, whatever the compiler makes of it. */
  const STRUCT_LIMIT: int := 512

  type StructBytes = n: IPtr | 0 < n <= STRUCT_LIMIT witness 1

  type WholeGranules = n: StructBytes | Aligned(n) witness 16

  /** sizeof(struct MemHeader) rounded up. */
  const MEMHEADER_TOTAL: WholeGranules

  /** sizeof(struct MemHeaderAllocatorCtx) */
  const CTX_BYTES: StructBytes

  /** Index levels of a puddle. */
  const POOL_INDEX_SIZE: IPtr := 5

  lemma StructRounded(n: StructBytes)
    ensures n <= RoundUp(n) <= STRUCT_LIMIT && Aligned(RoundUp(n))
  {
  }

  /** mhac_GetCtxSize */
  function CtxSize(): (size: IPtr)
    ensures size >= CTX_BYTES && Aligned(size)
  {
    RoundUp(CTX_BYTES)
  }

  class Puddle {
    /** Address of the struct MemHeader at the start of the puddle. */
    const addr: int
    const mh: MemHeader
    const ctx: AllocatorCtx
    /** The index context and, in the first puddle, the pool header. */
    ghost const fixed: set<Block>
    /** Blocks handed out to the pool's clients. */
    ghost var used: set<Block>

    ghost const Repr: set<object> := {this, mh, ctx, ctx.prevChunks}

    /** The block of the system that the puddle occupies. */
    function Whole(): Block {
      Block(addr, mh.upper - addr)
    }

    ghost function Arena(): set<int> {
      Cells(mh.lower, mh.upper - mh.lower)
    }

    ghost predicate Valid()
      reads this, mh, ctx, ctx.prevChunks
    {
      && mh.Valid() && mh.Indexed(ctx) && mh.lower == addr + MEMHEADER_TOTAL
      && Tiled(Arena(), mh.FreeCells(), fixed + used) && fixed !! used
      && (forall b :: b in fixed + used ==> GoodBlock(b, mh.lower, mh.upper))
      && (exists b :: b in fixed && b.bytes == CtxSize())
    }

    constructor (addr: int, mh: MemHeader, ctx: AllocatorCtx, ghost fixed: set<Block>)
      requires mh.Valid() && mh.Indexed(ctx) && mh.lower == addr + MEMHEADER_TOTAL
      requires Tiled(Cells(mh.lower, mh.upper - mh.lower), mh.FreeCells(), fixed)
      requires forall b :: b in fixed ==> GoodBlock(b, mh.lower, mh.upper)
      requires exists b :: b in fixed && b.bytes == CtxSize()
      ensures Valid() && this.addr == addr && this.mh == mh && this.ctx == ctx && this.fixed == fixed && used == {}
    {
      this.addr, this.mh, this.ctx, this.fixed, this.used := addr, mh, ctx, fixed, {};
      new;
      assert fixed + used == fixed;
    }

    /** The header of the puddle was asked for size bytes and has answered with r. */
    twostate predicate Answered(size: int, reverse: bool, r: int)
      requires 0 <= size < IPTR_MODULUS
      reads mh, ctx, ctx.prevChunks
    {
      var now, entries := mh.blocks, Entries(ctx);
      old(mh.Grants(ctx, size, reverse, r, now, entries))
    }

    /** stdAlloc on the header of the puddle: the granules it takes. */
    method TakeGranules(size: IPtr, reverse: bool) returns (r: int)
      requires mh.Valid() && mh.Indexed(ctx) && 0 < size < LONG_LIMIT
      modifies mh, ctx.prevChunks
      ensures mh.Valid() && mh.Indexed(ctx)
      ensures r != NULL <==> Fits(old(mh.blocks), RoundUp(size))
      ensures r == NULL ==> mh.blocks == old(mh.blocks) && mh.free == old(mh.free)
      ensures r != NULL ==>
          && GoodBlock(Block(r, RoundUp(size)), mh.lower, mh.upper)
          && Cells(r, RoundUp(size)) <= old(mh.FreeCells())
          && mh.FreeCells() == old(mh.FreeCells()) - Cells(r, RoundUp(size))
      ensures Answered(size, reverse, r)
    {
      RequestBytes(size);
      hide RoundUp, Cells, Wf, Linked, Take, FreeSet, Inside, Aligned, Fits, AfterAlloc, IsChosen, MemHeader.StartsAt,
          Entries, Cleared, IsFirstFit, FitsFrom, FitsBefore, Serves, GoodBlock, MemHeader.Indexed;
      ghost var k, k0;
      r, k, k0 := mh.StdAlloc(ctx, size, reverse);
      ghost var now, entries := mh.blocks, Entries(ctx);
      assert old(mh.Grants(ctx, size, reverse, r, now, entries));
    }

    /** stdAlloc on the puddle. */
    method Serve(size: IPtr, reverse: bool) returns (r: int)
      requires Valid() && 0 < size < LONG_LIMIT
      modifies this`used, mh, ctx.prevChunks
      ensures Valid()
      ensures (r != NULL <==> Fits(old(mh.blocks), RoundUp(size))) && r >= 0
      ensures r == NULL ==> used == old(used) && mh.blocks == old(mh.blocks) && mh.free == old(mh.free)
      ensures r != NULL ==> used == old(used) + {Block(r, RoundUp(size))} && Block(r, RoundUp(size)) !in old(used)
      ensures Answered(size, reverse, r)
    {
      hide Valid, Answered, MemHeader.Valid, MemHeader.Indexed, RoundUp, Cells, Fits, GoodBlock;
      InOrder();
      r := TakeGranules(size, reverse);
      if r != NULL {
        used := used + {Block(r, RoundUp(size))};
      }
      ServedFrom(size, r);
    }

    lemma InOrder()
      requires Valid()
      ensures mh.Valid() && mh.Indexed(ctx)
    {
    }

    /** What stdAlloc has taken is a new block of the puddle. */
    twostate lemma ServedFrom(new size: int, new r: int)
      requires old(Valid()) && mh.Valid() && mh.Indexed(ctx) && 0 < size < LONG_LIMIT
      requires r == NULL ==> used == old(used) && mh.blocks == old(mh.blocks)
      requires r != NULL ==>
          && used == old(used) + {Block(r, RoundUp(size))}
          && GoodBlock(Block(r, RoundUp(size)), mh.lower, mh.upper)
          && Cells(r, RoundUp(size)) <= old(mh.FreeCells())
          && mh.FreeCells() == old(mh.FreeCells()) - Cells(r, RoundUp(size))
      ensures Valid() && r >= 0 && (r != NULL ==> Block(r, RoundUp(size)) !in old(used))
    {
      hide Tiled, RoundUp, Cells, Wf, Linked, FreeSet, Aligned, CtxSize, MemHeader.Indexed;
      if r != NULL {
        NowUsed(Arena(), old(mh.FreeCells()), fixed, old(used), Block(r, RoundUp(size)));
      }
    }

    /** stdDealloc of a block that was handed out. */
    method TakeBack(start: int, size: IPtr)
      requires Valid() && size > 0 && Rounded(start, size) in used && start + size < IPTR_MODULUS
      modifies this`used, mh, ctx.prevChunks
      ensures Valid() && used == old(used) - {Rounded(start, size)}
    {
      ghost var b, free := Rounded(start, size), mh.FreeCells();
      RoundedCovers(start, size, mh.lower, mh.upper);
      NoLongerUsed(Arena(), free, fixed, used, b);
      hide Tiled, RoundDown, Covering, Cells, Wf, Linked, FreeSet, Aligned, CtxSize, AfterGive, Give, Between, Entries;
      var alert;
      ghost var k;
      alert, k := mh.StdDealloc(ctx, start, size);
      assert !alert;
      used := used - {b};
    }

    /** Two blocks of the puddle start at different addresses. */
    lemma UsedDistinct(b: Block, d: Block)
      requires Valid() && b in used && d in used && b != d
      ensures b.addr != d.addr
    {
      assert GoodBlock(b, mh.lower, mh.upper) && GoodBlock(d, mh.lower, mh.upper);
      assert b in fixed + used && d in fixed + used;
      assert b.addr in BlockCells(b) && d.addr in BlockCells(d);
    }

    /** `mh->mh_Free + mhac_GetCtxSize() == size`: the test whether a puddle can be given back. */
    predicate LooksEmpty()
      reads mh
    {
      mh.free + CtxSize() == mh.upper - mh.lower
    }

    /** The test holds exactly when the index context is the only block left in the puddle. */
    lemma EmptyIffUnused()
      requires Valid()
      ensures LooksEmpty() <==> |fixed| == 1 && used == {}
    {
      hide Cells, Tiled, Linked, Wf, Total, FreeSet, RoundUp, Aligned, EntriesLead;
      var b := CtxBlock();
      FreeBytes();
      EmptyCount(b, fixed + used, mh.FreeCells(), mh.lower, mh.upper - mh.lower);
      OnlyBlock(fixed, used, b);
    }

    /** The block of the index context. */
    lemma CtxBlock() returns (b: Block)
      requires Valid()
      ensures b in fixed && b.bytes == CtxSize() && Aligned(b.addr) && Aligned(b.bytes) && b.bytes > 0
    {
      b :| b in fixed && b.bytes == CtxSize();
      assert GoodBlock(b, mh.lower, mh.upper);
    }

    lemma FreeBytes()
      requires Valid()
      ensures mh.free == |mh.FreeCells()| * MEMCHUNK_TOTAL && Aligned(mh.lower) && Aligned(mh.upper - mh.lower)
    {
      hide Wf, Linked, Total, FreeSet, Tiled, Cells, GoodBlock, MemHeader.Indexed, CtxSize;
      AlignedSpan(mh.lower, mh.upper);
      TotalCount(mh.blocks, mh.lower, mh.upper);
    }
  }

  lemma AlignedSpan(lo: int, hi: int)
    requires Aligned(lo) && Aligned(hi)
    ensures Aligned(hi - lo)
  {
  }

  lemma OnlyBlock(fixed: set<Block>, used: set<Block>, b: Block)
    requires b in fixed && fixed !! used
    ensures fixed + used == {b} <==> |fixed| == 1 && used == {}
  {
    assert fixed == (fixed - {b}) + {b};
    if fixed + used == {b} {
      assert fixed == {b};
      assert forall d :: d in used ==> d in fixed + used;
    }
    assert |fixed| == 1 ==> fixed - {b} == {};
  }

  // ---------- making and unmaking puddles ----------

  /** Allocate() on a header with one free block: the request comes from its start. */
  method AllocateFront(mh: MemHeader, size: IPtr, ghost lo: int, ghost n: int) returns (r: int)
    requires mh.Valid() && mh.blocks == [Block(lo, n)] && 0 < size < LONG_LIMIT && RoundUp(size) < n
    modifies mh
    ensures mh.Valid() && r == lo && mh.blocks == [Block(lo + RoundUp(size), n - RoundUp(size))]
  {
    RequestBytes(size);
    FrontFitsIn(mh.blocks, lo, n, RoundUp(size), mh.lower, mh.upper);
    hide Wf, Linked, Take, FreeSet, Inside, Aligned, Cells, RoundUp, Total;
    if size == 0 || mh.free < size {
      return NULL;
    }
    ghost var k, k0;
    r, k, k0 := mh.StdAlloc(null, size, false);
  }

  lemma FrontFitsIn(list: seq<Block>, lo: int, n: int, m: int, hiLo: int, hi: int)
    requires list == [Block(lo, n)] && 0 < m < n && Wf(list, hiLo, hi)
    ensures Fits(list, m) && Total(list) == n
    ensures Take(list, 0, lo, m) == [Block(lo + m, n - m)]
    ensures forall k, r :: Serves(list, k, r, m, false) ==> k == 0 && r == lo
  {
    assert list[0].bytes >= m;
    assert Pieces(list[0], lo, m) == [Block(lo + m, n - m)];
  }

  /** The header has the attributes and the priority of the memory it lies in. */
  predicate Inherits(mh: MemHeader, orig: MemHeader) {
    mh.attributes == orig.attributes && mh.pri == orig.pri
  }

  /** AllocMemHeader */
  method AllocMemHeader(sys: MemList, size: IPtr, requirements: set<int>, reverse: bool) returns (addr: int,
                        mh: MemHeader?)
    requires sys.Valid() && Aligned(size) && MEMHEADER_TOTAL < size && sys.Answers(size, requirements)
    modifies sys.Repr
    ensures sys.Valid()
    ensures mh == null <==> !old(sys.Available(size, requirements))
    ensures mh != null ==> size < LONG_LIMIT
    ensures mh == null ==> sys.live == old(sys.live)
    ensures mh != null ==>
        fresh(mh) && mh.Valid() && requirements <= mh.attributes && mh.lower == addr + MEMHEADER_TOTAL
    ensures mh != null ==> mh.upper == addr + size && mh.blocks == [Block(mh.lower, size - MEMHEADER_TOTAL)]
    ensures mh != null ==> sys.live == old(sys.live) + {Block(addr, size)} && Block(addr, size) !in old(sys.live)
    ensures mh != null ==>
        exists i :: 0 <= i < |sys.headers| == |sys.ctxs| && sys.Holds(i, Block(addr, size)) &&
            Inherits(mh, sys.headers[i]) && sys.Answered(i, size, requirements, reverse, addr)
  {
    hide RoundUp, MemList.Valid, MemHeader.Valid, Aligned, MemList.Holds, Fits, MemList.Eligible, MemList.Available,
        MemList.Answered, MemList.Same, MemList.Answers;
    RoundedSize(size);
    NotTooLarge(sys, size, requirements);
    ghost var h;
    addr, h := sys.AllocMem(size, requirements, reverse);
    if addr == NULL {
      return addr, null;
    }
    var i := sys.FindMem(addr);
    sys.FoundMem(addr, size, i, h);
    mh := InitMemHeader(sys, i, addr, size);
  }

  /** What can be had can be asked for. */
  lemma NotTooLarge(sys: MemList, size: IPtr, requirements: set<int>)
    requires sys.Answers(size, requirements)
    ensures sys.Available(size, requirements) ==> size < LONG_LIMIT
  {
  }

  /** `Initialize new MemHeader.` */
  method InitMemHeader(sys: MemList, i: nat, addr: int, size: IPtr) returns (mh: MemHeader)
    requires sys.Valid() && i < |sys.headers| && sys.Holds(i, Block(addr, size)) && 0 < addr &&
        addr + size < IPTR_MODULUS
    requires MEMHEADER_TOTAL < size
    ensures fresh(mh) && mh.Valid() && Inherits(mh, sys.headers[i]) && mh.lower == addr + MEMHEADER_TOTAL
    ensures mh.upper == addr + size && mh.blocks == [Block(mh.lower, size - MEMHEADER_TOTAL)]
    ensures sys.Valid()
  {
    InsideBlock(sys, i, addr, size);
    hide MemList.Valid, MemList.Holds, MemHeader.Valid, Aligned;
    mh := new MemHeader(addr + MEMHEADER_TOTAL, addr + size, sys.headers[i].attributes, sys.headers[i].pri);
  }

  /** mhac_PoolMemHeaderSetup: the index context is allocated inside the puddle. */
  method SetUpPuddle(addr: int, mh: MemHeader, ghost header: set<Block>, ghost lo: int,
                     ghost n: int) returns (p: Puddle)
    requires mh.Valid() && mh.lower == addr + MEMHEADER_TOTAL && mh.blocks == [Block(lo, n)] && CtxSize() < n
    requires Tiled(Cells(mh.lower, mh.upper - mh.lower), mh.FreeCells(), header)
    requires forall b :: b in header ==> GoodBlock(b, mh.lower, mh.upper)
    modifies mh
    ensures p.Valid() && fresh(p) && fresh(p.ctx) && fresh(p.ctx.prevChunks) && p.mh == mh && p.addr == addr &&
        p.used == {}
    ensures p.fixed == header + {Block(lo, CtxSize())} && Block(lo, CtxSize()) !in header
    ensures mh.blocks == [Block(lo + CtxSize(), n - CtxSize())]
  {
    hide MemHeader.Valid, Tiled, Cells, FreeSet, Aligned, GoodBlock, RoundUp, SpanOf, EntriesLead;
    ghost var b := Block(lo, CtxSize());
    CtxFits(mh, header, lo, n, b);
    var r := AllocateFront(mh, CTX_BYTES, lo, n);
    var ctx := new AllocatorCtx(SpanOf(mh), POOL_INDEX_SIZE);
    NothingIndexed(mh, ctx);
    p := new Puddle(addr, mh, ctx, header + {b});
  }

  /** The index context fits in front of what is free, and the puddle stays tiled. */
  lemma CtxFits(mh: MemHeader, header: set<Block>, lo: int, n: int, b: Block)
    requires mh.Valid() && mh.blocks == [Block(lo, n)] && CtxSize() < n && b == Block(lo, CtxSize())
    requires Tiled(Cells(mh.lower, mh.upper - mh.lower), mh.FreeCells(), header)
    requires forall d :: d in header ==> GoodBlock(d, mh.lower, mh.upper)
    ensures Tiled(Cells(mh.lower, mh.upper - mh.lower), FreeSet([Block(lo + CtxSize(), n - CtxSize())]), header + {b})
    ensures forall d :: d in header + {b} ==> GoodBlock(d, mh.lower, mh.upper)
    ensures b !in header && b in header + {b} && b.bytes == CtxSize() && CtxSize() == RoundUp(CTX_BYTES)
  {
    hide Tiled, Cells, FreeSet;
    FrontTaken(mh.blocks, lo, n, CtxSize(), mh.lower, mh.upper);
    assert header + {} == header && header + ({} + {b}) == header + {b};
    NowUsed(Cells(mh.lower, mh.upper - mh.lower), mh.FreeCells(), header, {}, b);
  }

  /** mh_Upper - mh_Lower */
  function SpanOf(mh: MemHeader): IPtr {
    Wrap(mh.upper - mh.lower)
  }

  lemma NothingIndexed(mh: MemHeader, ctx: AllocatorCtx)
    requires mh.Valid() && ctx.Valid() && forall i :: 0 <= i < ALLOCATORCTXINDEXSIZE ==> ctx.prevChunks[i] == 0
    requires ctx.indexSize == 0 ==> SpanOf(mh) < 2 * FIRSTPOT
    ensures mh.Indexed(ctx)
  {
  }

  /** The front of a one-block list, and the list without it. */
  lemma FrontTaken(list: seq<Block>, lo: int, n: int, m: int, lower: int, upper: int)
    requires list == [Block(lo, n)] && Wf(list, lower, upper) && 0 < m < n && Aligned(m)
    ensures GoodBlock(Block(lo, m), lower, upper) && BlockCells(Block(lo, m)) <= FreeSet(list)
    ensures FreeSet([Block(lo + m, n - m)]) == FreeSet(list) - BlockCells(Block(lo, m))
  {
    assert GoodBlock(list[0], lower, upper);
    FrontFitsIn(list, lo, n, m, lower, upper);
    TakeKeeps(list, 0, lo, m, lower, upper);
  }

  /** FreeMemHeader */
  method FreePuddle(sys: MemList, p: Puddle)
    requires sys.Valid() && p.Whole() in sys.live
    modifies sys.Repr
    ensures sys.Valid() && sys.live == old(sys.live) - {p.Whole()}
  {
    hide MemList.Valid, Rounded, Without, MemList.InBounds, BlockCells, Union, Puddle.Whole, Covering, RoundDown,
        RoundUp,
        Aligned;
    WholeIsRounded(sys, p);
    var start, size: IPtr := p.addr, p.mh.upper - p.addr;
    ghost var whole := p.Whole();
    var outcome := sys.FreeMem(start, size);
    assert sys.live == old(sys.live) - {whole};
  }

  lemma WholeIsRounded(sys: MemList, p: Puddle)
    requires sys.Valid() && p.Whole() in sys.live
    ensures 0 < p.mh.upper - p.addr < IPTR_MODULUS && p.mh.upper < IPTR_MODULUS
    ensures Rounded(p.addr, p.mh.upper - p.addr) == p.Whole()
  {
    hide Tiled, Apart, Wf, Linked, Union, FreeSet, Cells, MemHeader.Indexed, RoundDown, Covering;
    var i :| 0 <= i < |sys.headers| && sys.Holds(i, p.Whole());
    assert sys.HeaderOk(i);
    AlignedCovering(p.addr, p.mh.upper - p.addr);
  }

  lemma InsideBlock(sys: MemList, i: nat, addr: int, size: int)
    requires i < |sys.headers| && sys.Holds(i, Block(addr, size)) && addr > 0
    ensures Aligned(addr + MEMHEADER_TOTAL) && Aligned(addr + size)
  {
  }

  lemma RoundedSize(size: IPtr)
    requires Aligned(size)
    ensures RoundUp(size) == size && Aligned(MEMHEADER_TOTAL)
  {
  }

  lemma NowUsed(arena: set<int>, free: set<int>, fixed: set<Block>, used: set<Block>, b: Block)
    requires Tiled(arena, free, fixed + used) && b.bytes > 0 && Aligned(b.addr) && BlockCells(b) <= free
    ensures b !in fixed + used && Tiled(arena, free - BlockCells(b), fixed + (used + {b}))
  {
    assert b.addr in BlockCells(b);
    TakeTiled(arena, free, fixed + used, b);
    assert fixed + used + {b} == fixed + (used + {b});
  }

  lemma NoLongerUsed(arena: set<int>, free: set<int>, fixed: set<Block>, used: set<Block>, b: Block)
    requires Tiled(arena, free, fixed + used) && b in used && fixed !! used
    ensures BlockCells(b) !! free && Tiled(arena, free + BlockCells(b), fixed + (used - {b}))
  {
    GiveTiled(arena, free, fixed + used, b);
    assert fixed + used - {b} == fixed + (used - {b});
  }

  /** Free granules and those of one block fill an arena exactly when that block is the only one. */
  lemma EmptyCount(b: Block, live: set<Block>, free: set<int>, lo: int, bytes: int)
    requires b in live && Tiled(Cells(lo, bytes), free, live)
    requires Aligned(lo) && Aligned(bytes) && bytes >= 0 && Aligned(b.addr) && Aligned(b.bytes) && b.bytes > 0
    ensures |free| * MEMCHUNK_TOTAL + b.bytes == bytes <==> live == {b}
  {
    hide Cells, Tiled, LiveCells, BlockCells;
    CellsCount(lo, bytes);
    CellsCount(b.addr, b.bytes);
    RestApart(Cells(lo, bytes), free, live, b);
    hide Aligned;
    CountThree(free, BlockCells(b), LiveCells(live - {b}), Cells(lo, bytes));
    assert BlockCells(b) == Cells(b.addr, b.bytes) by {
      SameCells(b);
    }
  }

  lemma SameCells(b: Block)
    ensures BlockCells(b) == Cells(b.addr, b.bytes)
  {
  }

  lemma CountThree(x: set<int>, y: set<int>, z: set<int>, all: set<int>)
    requires x !! y && x + y !! z && x + y + z == all
    ensures |all| == |x| + |y| + |z|
  {
    assert |x + y| == |x| + |y|;
    assert |x + y + z| == |x + y| + |z|;
  }

  lemma RestApart(arena: set<int>, free: set<int>, live: set<Block>, b: Block)
    requires Tiled(arena, free, live) && b in live
    ensures free !! BlockCells(b) && free + BlockCells(b) !! LiveCells(live - {b})
    ensures free + BlockCells(b) + LiveCells(live - {b}) == arena
    ensures LiveCells(live - {b}) == {} <==> live == {b}
  {
    hide Cells;
    LiveCellsAdd(live - {b}, b);
    assert live - {b} + {b} == live;
    NothingElse(arena, free, live, b);
  }

  lemma NothingElse(arena: set<int>, free: set<int>, live: set<Block>, b: Block)
    requires Tiled(arena, free, live) && b in live
    ensures LiveCells(live - {b}) == {} <==> live == {b}
  {
    hide BlockCells;
    assert b in live && (forall d :: d in live ==> d == b) ==> live == {b};
    if live != {b} {
      var d :| d in live && d != b;
      assert d in live - {b};
      assert BlockCells(d) != {};
      var a := SomeCell(BlockCells(d));
      assert a in LiveCells(live - {b});
    } else {
      assert live - {b} == {};
    }
  }
}
