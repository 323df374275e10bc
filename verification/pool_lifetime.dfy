/** CreatePool, and what holds from there to DeletePool. */
module PoolLifetime {
  import opened FreeList
  import opened MemoryIndex
  import opened ChunkLinks
  import opened Memory
  import opened Tiling
  import opened MemoryList
  import opened Puddles
  import opened Pools

  /** sizeof(struct Pool) and sizeof(struct ProtectedPool) */
  const POOL_BYTES: StructBytes
  const PROTECTED_POOL_BYTES: StructBytes

  const LEAST_PAGE: int := 4096

  /** `if (align < 4095) align = 4095` */
  function PoolPage(page: int): int {
    if page < LEAST_PAGE then LEAST_PAGE else page
  }

  /** The size of the first puddle for pools whose puddles shall hold size bytes. */
  function FirstPuddleSize(size: IPtr, page: int): int
    requires page > 0
  {
    RoundPage(Wrap(size + Overhead() + POINTER_BYTES), PoolPage(page))
  }

  lemma FirstPuddleHoldsPool(size: IPtr, page: int)
    requires PageOk(page) && size + Overhead() + POINTER_BYTES + PoolPage(page) - 1 < IPTR_MODULUS
    ensures var s := FirstPuddleSize(size, page);
      && Aligned(s) && Overhead() + STRUCT_LIMIT < s < IPTR_MODULUS
      && size + POINTER_BYTES <= s - Overhead()
      && (size + Overhead() + POINTER_BYTES + PoolPage(page) - 1 < LONG_LIMIT ==> s < LONG_LIMIT)
  {
    var p, x := PoolPage(page), size + Overhead() + POINTER_BYTES;
    assert PageOk(p) && p >= LEAST_PAGE;
    OverheadIsSmall();
    assert Wrap(x) == x;
    hide RoundPage, Overhead, Aligned, PageOk, PoolPage, Wrap;
    RoundPageBounds(x, p);
    AtLeastAPage(x, p);
  }

  lemma OverheadIsSmall()
    ensures Overhead() <= 2 * STRUCT_LIMIT
  {
    StructRounded(CTX_BYTES);
  }

  lemma AboveHeader()
    ensures MEMHEADER_TOTAL < Overhead()
  {
  }

  lemma OverheadParts()
    ensures Overhead() == MEMHEADER_TOTAL + CtxSize()
  {
  }

  lemma AtLeastAPage(x: IPtr, p: int)
    requires PageOk(p) && 0 < x && x + p - 1 < IPTR_MODULUS
    ensures RoundPage(x, p) >= p
  {
    var y := x + (p - 1);
    assert y >= p;
    WholePages(y, p);
  }

  lemma WholePages(y: int, p: int)
    requires p > 0 && y >= p
    ensures y - y % p >= p
  {
    assert y == (y / p) * p + y % p;
    assert y / p >= 1;
    assert (y / p - 1) * p >= 0;
  }

  /** The system has room for the first puddle. */
  ghost predicate CanCreate(sys: MemList, requirements: set<int>, size: IPtr, page: int)
    reads sys.headers
  {
    && page > 0 && 0 <= FirstPuddleSize(size, page) < IPTR_MODULUS
    && sys.Available(FirstPuddleSize(size, page), requirements)
  }

  /** The size computation does not wrap around, and nommu_AllocMem comes back when asked for as much. */
  ghost predicate CreateOk(sys: MemList, requirements: set<int>, size: IPtr, page: int)
    reads sys.headers
  {
    && page > 0 && size + Overhead() + POINTER_BYTES + PoolPage(page) - 1 < IPTR_MODULUS
    && 0 <= FirstPuddleSize(size, page) < IPTR_MODULUS
    && sys.Answers(FirstPuddleSize(size, page), requirements)
  }

  /** Up to this limit every request on the system has an answer. */
  function Bound(sys: MemList): int {
    if sys.Small() then IPTR_MODULUS else LONG_LIMIT
  }

  lemma CreateOkWhen(sys: MemList, requirements: set<int>, size: IPtr, page: int)
    requires sys.Valid() && PageOk(page) && size + Overhead() + POINTER_BYTES + PoolPage(page) - 1 < Bound(sys)
    ensures CreateOk(sys, requirements, size, page)
  {
    hide MemList.Valid, Overhead, PoolPage, FirstPuddleSize, Aligned, PageOk;
    FirstPuddleHoldsPool(size, page);
    PagePositive(page);
    if sys.Small() {
      sys.SmallAnswers(FirstPuddleSize(size, page), requirements);
    }
  }

  lemma PagePositive(page: int)
    requires PageOk(page)
    ensures page > 0
  {
  }

  /** CreatePool.  The pool header is the first allocation in the first puddle, so it lies right
      behind the struct MemHeader whose address is the pool's handle. */
  method CreatePool(sys: MemList, requirements: set<int>, reverse: bool, semaphore: bool, size: IPtr, page: int)
    returns (pool: Pool?, header: int)
    requires sys.Valid() && PageOk(page) && CreateOk(sys, requirements, size, page)
    modifies sys.Repr
    ensures sys.Valid()
    ensures pool == null <==> !old(CanCreate(sys, requirements, size, page))
    ensures pool == null ==> sys.live == old(sys.live)
    ensures pool != null ==>
        pool.Valid() && fresh(pool) && pool.sys == sys && pool.base == old(sys.live) && pool.live == {}
    ensures pool != null ==> fresh(Objects(pool.puddles)) && pool.puddles == [pool.first]
    ensures pool != null ==> header == pool.first.addr + MEMHEADER_TOTAL
    ensures pool != null ==> size + POINTER_BYTES <= pool.puddleSize - Overhead() && pool.page == page
    ensures pool != null ==>
        LeastPages(pool.puddleSize, size + POINTER_BYTES + Overhead(), if page < 4096 then 4096 else page) &&
        pool.first.Whole().bytes == pool.puddleSize
    ensures pool != null ==>
        requirements == pool.requirements <= pool.first.mh.attributes && pool.reverse == reverse &&
        pool.first.fixed == HeaderAndIndex(header, semaphore)
  {
    hide MemList.Valid, MemHeader.Valid, Pool.Valid, PageOk, Objects, PoolPage, Overhead, Aligned, HeaderAndIndex,
        LeastPages, MemList.Answered, MemList.Holds, Inherits;
    var puddleSize := PuddleBytes(size, page);
    var addr, mh := AllocMemHeader(sys, puddleSize, requirements, reverse);
    if mh == null {
      return null, NULL;
    }
    pool, header := InitPool(sys, addr, mh, requirements, reverse, semaphore, puddleSize, page, old(sys.live));
  }

  /** The pool header, large enough for a semaphore if asked for, and the index context behind it. */
  function HeaderAndIndex(header: int, semaphore: bool): set<Block> {
    var poolBytes := RoundUp(if semaphore then PROTECTED_POOL_BYTES else POOL_BYTES);
    {Block(header, poolBytes), Block(header + poolBytes, CtxSize())}
  }

  /** The puddle size that CreatePool computes. */
  method PuddleBytes(size: IPtr, page: int) returns (s: IPtr)
    requires PageOk(page) && size + Overhead() + POINTER_BYTES + PoolPage(page) - 1 < IPTR_MODULUS
    ensures Aligned(s) && Overhead() + STRUCT_LIMIT < s && MEMHEADER_TOTAL < s
    ensures size + POINTER_BYTES <= s - Overhead()
    ensures page > 0 && s == FirstPuddleSize(size, page)
    ensures LeastPages(s, size + POINTER_BYTES + Overhead(), if page < 4096 then 4096 else page)
  {
    hide Overhead, LeastPages, RoundPage;
    FirstPuddleHoldsPool(size, page);
    AboveHeader();
    RoundPageLeast(size + Overhead() + POINTER_BYTES, PoolPage(page));
    s := FirstPuddleSize(size, page);
  }

  /** CreatePool from the new header on. */
  method InitPool(sys: MemList, addr: int, mh: MemHeader, requirements: set<int>, reverse: bool, semaphore: bool,
                  puddleSize: IPtr, page: int, ghost base: set<Block>)
    returns (pool: Pool, header: int)
    requires sys.Valid() && PageOk(page) && mh !in sys.Repr
    requires mh.Valid() && mh.lower == addr + MEMHEADER_TOTAL && mh.upper == addr + puddleSize
    requires mh.blocks == [Block(mh.lower, puddleSize - MEMHEADER_TOTAL)]
    requires Overhead() + STRUCT_LIMIT < puddleSize < LONG_LIMIT && Aligned(puddleSize)
    requires sys.live == base + {Block(addr, puddleSize)} && Block(addr, puddleSize) !in base
    modifies mh
    ensures sys.Valid() && sys.live == old(sys.live)
    ensures pool.Valid() && fresh(pool) && pool.sys == sys && pool.base == base && pool.live == {}
    ensures (forall o :: o in Objects(pool.puddles) ==> o == mh || fresh(o)) && pool.puddles == [pool.first]
    ensures header == addr + MEMHEADER_TOTAL == pool.first.addr + MEMHEADER_TOTAL && pool.puddleSize == puddleSize &&
        pool.page == page
    ensures pool.requirements == requirements && pool.reverse == reverse && pool.first.mh == mh
    ensures pool.first.fixed == HeaderAndIndex(header, semaphore)
  {
    AboveHeader();
    hide MemList.Valid, MemHeader.Valid, Puddle.Valid, Pool.Valid, RoundUp, Aligned, Overhead, PageOk, Objects,
        HeaderAndIndex;
    var first;
    first, header := FirstPuddle(addr, mh, puddleSize, semaphore);
    pool := new Pool(sys, first, puddleSize, page, requirements, reverse, base);
    FirstObjects(pool.puddles, first);
  }

  lemma FirstObjects(s: seq<Puddle>, p: Puddle)
    requires s == [p]
    ensures Objects(s) == p.Repr
  {
  }

  /** The first puddle with pool header and index context. */
  method FirstPuddle(addr: int, mh: MemHeader, size: IPtr, semaphore: bool) returns (p: Puddle, header: int)
    requires mh.Valid() && mh.lower == addr + MEMHEADER_TOTAL && mh.upper == addr + size
    requires mh.blocks == [Block(mh.lower, size - MEMHEADER_TOTAL)] && Overhead() + STRUCT_LIMIT < size
    modifies mh
    ensures p.Valid() && fresh(p) && fresh(p.ctx) && fresh(p.ctx.prevChunks) && p.mh == mh && p.addr == addr &&
        p.used == {}
    ensures |p.fixed| == 2 && header == addr + MEMHEADER_TOTAL && p.fixed == HeaderAndIndex(header, semaphore)
  {
    hide MemHeader.Valid, Puddle.Valid, Tiled, Cells, FreeSet, Aligned, RoundUp, GoodBlock, Overhead, CtxSize;
    var poolBytes := if semaphore then PROTECTED_POOL_BYTES else POOL_BYTES;
    StructRounded(poolBytes);
    OverheadParts();
    ghost var n, m := size - MEMHEADER_TOTAL, RoundUp(poolBytes);
    ghost var b := Block(mh.lower, m);
    HeaderFits(mh, n, m, b);
    header := AllocateFront(mh, poolBytes, mh.lower, n);
    p := SetUpPuddle(addr, mh, {b}, mh.lower + m, n - m);
    assert p.fixed == {b, Block(mh.lower + m, CtxSize())};
  }

  lemma HeaderFits(mh: MemHeader, n: int, m: int, b: Block)
    requires mh.Valid() && mh.blocks == [Block(mh.lower, n)] && n == mh.upper - mh.lower && 0 < m < n && Aligned(m) &&
        b == Block(mh.lower, m)
    ensures Tiled(Cells(mh.lower, mh.upper - mh.lower), FreeSet([Block(mh.lower + m, n - m)]), {b})
    ensures GoodBlock(b, mh.lower, mh.upper)
  {
    NothingLive(mh, n);
    hide Tiled, Cells, FreeSet;
    FrontTaken(mh.blocks, mh.lower, n, m, mh.lower, mh.upper);
    var none: set<Block> := {};
    assert none + none == none && none + (none + {b}) == {b};
    NowUsed(Cells(mh.lower, mh.upper - mh.lower), mh.FreeCells(), none, none, b);
  }

  // ---------- whole runs ----------

  datatype PoolRequest = Want(size: IPtr) | WantVec(size: IPtr) | GiveBack(k: nat)

  /** What a client holds: the pointer it got, the size it asked for, and by which of the two calls. */
  datatype Handle = Handle(memory: int, size: IPtr, vec: bool)

  /** The handles are the pool's blocks, each held once. */
  ghost predicate HoldsAll(pool: Pool, handles: seq<Handle>)
    reads pool`live, pool`vecSize
  {
    && pool.live == BlocksFor(pool, handles)
    && (forall i :: 0 <= i < |handles| ==> Good(pool, handles[i]))
    && (forall i, j :: 0 <= i < j < |handles| ==> BlockFor(pool, handles[i]) != BlockFor(pool, handles[j]))
  }

  function BlockFor(pool: Pool, h: Handle): Block {
    if h.vec then pool.VecBlockOf(h.memory, h.size) else pool.BlockOf(h.memory, h.size)
  }

  ghost function BlocksFor(pool: Pool, handles: seq<Handle>): set<Block> {
    set h | h in handles :: BlockFor(pool, h)
  }

  lemma OneMore(pool: Pool, handles: seq<Handle>, h: Handle)
    ensures BlocksFor(pool, handles + [h]) == BlocksFor(pool, handles) + {BlockFor(pool, h)}
  {
    hide BlockFor;
    forall b
      ensures b in BlocksFor(pool, handles + [h]) <==> b in BlocksFor(pool, handles) || b == BlockFor(pool, h)
    {
      assert (handles + [h])[|handles|] == h;
    }
  }

  lemma OneLess(pool: Pool, handles: seq<Handle>, k: nat)
    requires k < |handles|
    requires forall i, j :: 0 <= i < j < |handles| ==> BlockFor(pool, handles[i]) != BlockFor(pool, handles[j])
    ensures BlocksFor(pool, WithoutAt(handles, k)) == BlocksFor(pool, handles) - {BlockFor(pool, handles[k])}
  {
    hide BlockFor;
    var now := WithoutAt(handles, k);
    forall b
      ensures b in BlocksFor(pool, now) <==> b in BlocksFor(pool, handles) && b != BlockFor(pool, handles[k])
    {
      if b in BlocksFor(pool, handles) && b != BlockFor(pool, handles[k]) {
        var h :| h in handles && BlockFor(pool, h) == b;
        var i :| 0 <= i < |handles| && handles[i] == h;
        assert now[if i < k then i else i - 1] == h;
      }
    }
  }

  function WithoutAt(handles: seq<Handle>, k: nat): seq<Handle> {
    if k < |handles| then handles[..k] + handles[k + 1..] else handles
  }

  ghost predicate Good(pool: Pool, h: Handle)
    reads pool`live, pool`vecSize
  {
    && h.memory != NULL && h.size > 0 && h.memory + h.size < IPTR_MODULUS && BlockFor(pool, h) in pool.live
    && (h.vec ==>
         && POINTER_BYTES < h.memory && h.memory - POINTER_BYTES in pool.vecSize
         && pool.vecSize[h.memory - POINTER_BYTES] == h.size + POINTER_BYTES)
  }

  /** A request that the pool's size computations can take. */
  ghost predicate Takes(pool: Pool, request: PoolRequest)
    reads pool.sys.headers
  {
    && (request.Want? && request.size > 0 ==> pool.Reasonable(request.size + POINTER_BYTES))
    && (request.WantVec? && request.size > 0 ==> pool.Reasonable(request.size + 2 * POINTER_BYTES))
  }

  lemma TakesWhen(pool: Pool, request: PoolRequest)
    requires pool.Valid() && (!request.GiveBack? ==> Bytes(request) + Overhead() + pool.page - 1 < Bound(pool.sys))
    ensures Takes(pool, request)
  {
    hide MemList.Valid, Pool.PuddlesOk, Pool.Owned, Pool.AccountsOf, Pool.Reasonable, Overhead;
    if !request.GiveBack? && request.size > 0 {
      PagePositive(pool.page);
      pool.ReasonableWhen(Bytes(request));
    }
  }

  /** The bytes a request takes, with the words in front of the block. */
  function Bytes(request: PoolRequest): int {
    match request
    case Want(size) => size + POINTER_BYTES
    case WantVec(size) => size + 2 * POINTER_BYTES
    case GiveBack(_) => 0
  }

  /** A listed puddle or the system has room for the request. */
  ghost predicate Servable(pool: Pool, request: PoolRequest)
    reads pool`puddles, pool.sys.headers, Objects(pool.puddles)
  {
    && !request.GiveBack? && request.size > 0
    && (pool.ListedCanServe(Bytes(request)) || pool.SystemCanServe(Bytes(request)))
  }

  /** What the clients hold after a request. */
  ghost predicate Answered(request: PoolRequest, served: bool, was: seq<Handle>, now: seq<Handle>) {
    match request
    case GiveBack(k) => now == WithoutAt(was, k)
    case _ => if served then IsMore(was, now, request.size, request.WantVec?) else now == was
  }

  ghost predicate IsMore(was: seq<Handle>, now: seq<Handle>, size: IPtr, vec: bool) {
    |now| == |was| + 1 && now[..|was|] == was && now[|was|].size == size && now[|was|].vec == vec
  }

  /** One request of a client. */
  method Serve(pool: Pool, request: PoolRequest, handles: seq<Handle>) returns (now: seq<Handle>)
    requires pool.Valid() && HoldsAll(pool, handles) && Takes(pool, request)
    modifies pool, pool.sys.Repr, Objects(pool.puddles)
    ensures pool.Valid() && HoldsAll(pool, now) && pool.base == old(pool.base)
    ensures Answered(request, old(Servable(pool, request)), handles, now)
    ensures forall o :: o in Objects(pool.puddles) ==> o in old(Objects(pool.puddles)) || fresh(o)
  {
    hide Pool.Valid, Objects, HoldsAll, Servable;
    match request
    case Want(size) =>
      now := ServeWant(pool, size, handles);
    case WantVec(size) =>
      now := ServeVec(pool, size, handles);
    case GiveBack(k) =>
      now := ServeBack(pool, k, handles);
  }

  method ServeBack(pool: Pool, k: nat, handles: seq<Handle>) returns (now: seq<Handle>)
    requires pool.Valid() && HoldsAll(pool, handles)
    modifies pool, pool.sys.Repr, Objects(pool.puddles)
    ensures pool.Valid() && HoldsAll(pool, now) && pool.base == old(pool.base) && now == WithoutAt(handles, k)
    ensures Objects(pool.puddles) <= old(Objects(pool.puddles))
  {
    hide Pool.Valid, Objects, Pool.BlockOf, Pool.VecBlockOf, HoldsAll, WithoutAt;
    pool.NotInside();
    now := WithoutAt(handles, k);
    NobodyGivesBack(handles, k);
    if k < |handles| {
      var h := handles[k];
      HeldOne(pool, handles, k);
      if h.vec {
        pool.FreeVecPooled(h.memory, h.size);
      } else {
        pool.FreePooled(h.memory, h.size);
      }
      StillHolds(pool, handles, k);
    }
  }

  lemma NobodyGivesBack(handles: seq<Handle>, k: nat)
    ensures k >= |handles| ==> WithoutAt(handles, k) == handles
  {
  }

  lemma HeldOne(pool: Pool, handles: seq<Handle>, k: nat)
    requires HoldsAll(pool, handles) && k < |handles|
    ensures Good(pool, handles[k])
  {
  }

  twostate lemma StillGood(new pool: Pool, new h: Handle)
    requires old(allocated(pool)) && old(Good(pool, h)) && BlockFor(pool, h) in pool.live
    requires pool.vecSize == old(pool.vecSize)
    ensures Good(pool, h)
  {
    hide BlockFor;
  }

  twostate lemma StillHolds(new pool: Pool, new handles: seq<Handle>, new k: int)
    requires old(allocated(pool)) && 0 <= k < |handles| && old(HoldsAll(pool, handles))
    requires pool.live == old(pool.live) - {BlockFor(pool, handles[k])} && pool.vecSize == old(pool.vecSize)
    ensures HoldsAll(pool, WithoutAt(handles, k))
  {
    hide BlockFor, BlocksFor, Good;
    OneLess(pool, handles, k);
    var now := WithoutAt(handles, k);
    forall i | 0 <= i < |now|
      ensures now[i] == handles[if i < k then i else i + 1] && Good(pool, now[i])
    {
      var l := if i < k then i else i + 1;
      assert old(Good(pool, handles[l])) && BlockFor(pool, handles[l]) != BlockFor(pool, handles[k]);
      InLive(pool, handles, l);
      StillGood(pool, handles[l]);
    }
    forall i, j | 0 <= i < j < |now|
      ensures BlockFor(pool, now[i]) != BlockFor(pool, now[j])
    {
      var l, m := if i < k then i else i + 1, if j < k then j else j + 1;
      assert BlockFor(pool, handles[l]) != BlockFor(pool, handles[m]);
    }
  }

  lemma InLive(pool: Pool, handles: seq<Handle>, k: nat)
    requires k < |handles|
    ensures BlockFor(pool, handles[k]) in BlocksFor(pool, handles)
  {
  }

  method ServeWant(pool: Pool, size: IPtr, handles: seq<Handle>) returns (now: seq<Handle>)
    requires pool.Valid() && HoldsAll(pool, handles) && Takes(pool, Want(size))
    modifies pool, pool.sys.Repr, Objects(pool.puddles)
    ensures pool.Valid() && HoldsAll(pool, now) && pool.base == old(pool.base)
    ensures Answered(Want(size), old(Servable(pool, Want(size))), handles, now)
    ensures forall o :: o in Objects(pool.puddles) ==> o in old(Objects(pool.puddles)) || fresh(o)
  {
    hide Pool.Valid, Objects, Pool.BlockOf, Pool.VecBlockOf, Pool.ListedCanServe, Pool.SystemCanServe;
    pool.NotInside();
    now := handles;
    var r, created := pool.AllocPooled(size);
    if r != NULL {
      now := handles + [Handle(r, size, false)];
      OneMore(pool, handles, Handle(r, size, false));
    }
  }

  method ServeVec(pool: Pool, size: IPtr, handles: seq<Handle>) returns (now: seq<Handle>)
    requires pool.Valid() && HoldsAll(pool, handles) && Takes(pool, WantVec(size))
    modifies pool, pool.sys.Repr, Objects(pool.puddles)
    ensures pool.Valid() && HoldsAll(pool, now) && pool.base == old(pool.base)
    ensures Answered(WantVec(size), old(Servable(pool, WantVec(size))), handles, now)
    ensures forall o :: o in Objects(pool.puddles) ==> o in old(Objects(pool.puddles)) || fresh(o)
  {
    hide Pool.Valid, Objects, Pool.ListedCanServe, Pool.SystemCanServe, RoundUp;
    pool.NotInside();
    now := handles;
    var r := pool.AllocVecPooled(size);
    if r != NULL {
      pool.LiveApart();
      now := handles + [Handle(r, size, true)];
      OneMore(pool, handles, Handle(r, size, true));
    }
  }

  /** From CreatePool through any run of allocations and frees, in any order and with anything still
      allocated at the end, to DeletePool: the system's free lists end exactly as they began. */
  method Lifetime(sys: MemList, requirements: set<int>, reverse: bool, semaphore: bool, size: IPtr, page: int,
                  script: seq<PoolRequest>)
    requires sys.Valid() && PageOk(page)
    requires size + Overhead() + POINTER_BYTES + PoolPage(page) - 1 < Bound(sys)
    requires forall k :: 0 <= k < |script| && !script[k].GiveBack? ==>
        Bytes(script[k]) + Overhead() + page - 1 < Bound(sys)
    modifies sys.Repr
    ensures sys.Valid() && sys.live == old(sys.live)
    ensures forall i :: 0 <= i < |sys.headers| ==>
        sys.headers[i].blocks == old(sys.headers[i].blocks) && sys.headers[i].free == old(sys.headers[i].free)
  {
    hide MemList.Valid, Pool.Valid, Objects, Overhead, PoolPage, PageOk, CreateOk, Takes, Bytes, Bound;
    CreateOkWhen(sys, requirements, size, page);
    var pool, header := CreatePool(sys, requirements, reverse, semaphore, size, page);
    if pool != null {
      var handles: seq<Handle> := [];
      var k := 0;
      while k < |script|
        invariant 0 <= k <= |script| && pool.Valid() && HoldsAll(pool, handles) && fresh(Objects(pool.puddles))
        invariant pool.base == old(sys.live)
      {
        TakesWhen(pool, script[k]);
        handles := Serve(pool, script[k], handles);
        k := k + 1;
      }
      var gone := pool.DeletePool();
    }
    sys.SameLiveSameLists();
  }
}
