/** Memory pools: puddles that are created on demand and given back when they are empty. */
module Pools {
  import opened Arithmetic
  import opened FreeList
  import opened MemoryIndex
  import opened ChunkLinks
  import opened Memory
  import opened Tiling
  import opened MemoryList
  import opened Puddles

  /** sizeof(struct MemHeader *) and sizeof(IPTR) */
  const POINTER_BYTES: int := 4

  /** What a puddle needs besides its blocks: the header and the index context. */
  function Overhead(): (o: int)
    ensures Aligned(o) && o > MEMHEADER_TOTAL
  {
    MEMHEADER_TOTAL + CtxSize()
  }

  // ---------- puddle sizes ----------

  /** `(size + align) & ~align` with align + 1 a power of two */
  function RoundPage(size: IPtr, page: int): int
    requires page > 0
  {
    Wrap(size + (page - 1)) - Wrap(size + (page - 1)) % page
  }

  /** The size of the puddle InternalAllocPooled creates for a request of memSize bytes, which
      include the pointer to the header. */
  function NewPuddleSize(memSize: IPtr, puddleSize: IPtr, page: int): int
    requires page > 0
  {
    if memSize > Wrap(puddleSize - Overhead()) then RoundPage(Wrap(memSize + Overhead()), page) else puddleSize
  }

  predicate PageOk(page: int) {
    0 < page <= IPTR_MODULUS && Aligned(page)
  }

  lemma RoundPageBounds(size: IPtr, page: int)
    requires PageOk(page)
    ensures size + page - 1 < IPTR_MODULUS ==> size <= RoundPage(size, page) <= size + page - 1
    ensures 0 <= RoundPage(size, page) <= Wrap(size + (page - 1))
    ensures Aligned(RoundPage(size, page))
  {
    var y := Wrap(size + (page - 1));
    MultipleAligned(y / page, page);
    hide Aligned;
    WholeMultiple(y, page);
    assert size + page - 1 < IPTR_MODULUS ==> y == size + (page - 1);
  }

  predicate Paged(n: int, page: int)
    requires page > 0
  {
    n % page == 0
  }

  /** r is the smallest number of whole pages that hold n bytes. */
  ghost predicate LeastPages(r: int, n: int, page: int)
    requires page > 0
  {
    r >= n && Paged(r, page) && forall m :: m >= n && Paged(m, page) ==> r <= m
  }

  /** Short of a wrap-around the size is rounded up to the next page boundary and not beyond it. */
  lemma RoundPageLeast(size: IPtr, page: int)
    requires page > 0 && size + page - 1 < IPTR_MODULUS
    ensures LeastPages(RoundPage(size, page), size, page)
  {
    var y := size + (page - 1);
    WholeMultiple(y, page);
    MultipleIsWhole(y / page, page);
    assert RoundPage(size, page) == (y / page) * page;
    hide RoundPage, Paged;
    forall m | m >= size && Paged(m, page)
      ensures (y / page) * page <= m
    {
      NoneBetween(size, page, m);
    }
  }

  lemma NoneBetween(size: int, page: int, m: int)
    requires page > 0 && size >= 0 && m >= size && Paged(m, page)
    ensures ((size + (page - 1)) / page) * page <= m
  {
    var y := size + (page - 1);
    StepsApart(y / page, m / page, y % page, size, page);
  }

  lemma StepsApart(k: int, q: int, r: int, size: int, page: int)
    requires page > 0 && k * page + r == size + (page - 1) && 0 <= r && q * page >= size
    ensures k * page <= q * page
  {
    MulStep(q, k, page);
    MulOrder(k, q, page);
  }

  lemma MultipleIsWhole(q: int, page: int)
    requires page > 0
    ensures Paged(q * page, page)
  {
    RemainderIs(q * page, q, 0, page);
  }

  /** A new puddle has the pool's usual size if the request fits into it next to header and index context, else it
      is as many pages as these three need. */
  lemma NewPuddleSizeIs(memSize: IPtr, puddleSize: IPtr, page: int)
    requires PageOk(page) && Overhead() <= puddleSize && memSize + Overhead() + page - 1 < IPTR_MODULUS
    ensures if memSize + Overhead() <= puddleSize then NewPuddleSize(memSize, puddleSize, page) == puddleSize
            else LeastPages(NewPuddleSize(memSize, puddleSize, page), memSize + Overhead(), page)
  {
    hide Overhead, RoundPage, LeastPages;
    if memSize + Overhead() > puddleSize {
      RoundPageLeast(memSize + Overhead(), page);
    }
  }

  lemma WholeMultiple(y: nat, page: int)
    requires page > 0
    ensures y - y % page == (y / page) * page && 0 <= y - y % page <= y && y - y % page > y - page
  {
  }

  lemma MultipleAligned(q: int, page: int)
    requires Aligned(page)
    ensures Aligned(q * page)
  {
    var m := page / MEMCHUNK_TOTAL;
    assert page == m * MEMCHUNK_TOTAL;
    assert q * page == (q * m) * MEMCHUNK_TOTAL;
  }

  /** A fresh puddle has room for the request that caused it, after its header and index context
      are taken out, if and only if the size computation does not wrap around. */
  lemma FreshPuddleFits(memSize: IPtr, puddleSize: IPtr, page: int)
    requires PageOk(page) && Overhead() <= puddleSize
    ensures NewPuddleSize(memSize, puddleSize, page) - Overhead() >= memSize
       <==> memSize <= puddleSize - Overhead() || memSize + Overhead() + page - 1 < IPTR_MODULUS
  {
    hide RoundPage, Overhead, Aligned;
    if memSize > puddleSize - Overhead() {
      if memSize + Overhead() < IPTR_MODULUS {
        RoundPageBounds(memSize + Overhead(), page);
      } else {
        RoundPageBounds(memSize + Overhead() - IPTR_MODULUS, page);
      }
    }
  }

  /** What the new puddle leaves for blocks is a whole number of granules, so the request still
      fits after stdAlloc rounds it up. */
  lemma FreshPuddleFitsRounded(memSize: IPtr, puddleSize: IPtr, page: int)
    requires PageOk(page) && Overhead() < puddleSize && Aligned(puddleSize)
    requires memSize <= puddleSize - Overhead() || memSize + Overhead() + page - 1 < IPTR_MODULUS
    requires 0 < memSize && memSize + MEMCHUNK_TOTAL <= IPTR_MODULUS
    ensures NewPuddleSize(memSize, puddleSize, page) == puddleSize ||
        NewPuddleSize(memSize, puddleSize, page) <= memSize + Overhead() + page - 1
    ensures Aligned(NewPuddleSize(memSize, puddleSize, page))
    ensures NewPuddleSize(memSize, puddleSize, page) - Overhead() >= RoundUp(memSize) >= memSize
  {
    hide RoundPage, Overhead, Aligned, RoundUp;
    FreshPuddleFits(memSize, puddleSize, page);
    if memSize > puddleSize - Overhead() {
      RoundPageBounds(memSize + Overhead(), page);
    }
    RequestBytes(memSize);
    RoundUpCovers(memSize);
    AlignedSpan(Overhead(), NewPuddleSize(memSize, puddleSize, page));
    LeastMultiple(RoundUp(memSize), memSize, NewPuddleSize(memSize, puddleSize, page) - Overhead());
  }

  lemma LeastMultiple(r: int, m: int, n: int)
    requires Aligned(r) && Aligned(n) && m <= n && r < m + MEMCHUNK_TOTAL
    ensures r <= n
  {
  }

  // ---------- the list of puddles ----------

  ghost predicate NoDup(s: seq<Puddle>) {
    forall i, j :: 0 <= i < j < |s| ==> s[i] != s[j]
  }

  ghost predicate SortedByPri(s: seq<Puddle>) {
    forall i, j :: 0 <= i < j < |s| ==> s[i].mh.pri >= s[j].mh.pri
  }

  lemma SortedWithout(s: seq<Puddle>, j: nat)
    requires SortedByPri(s) && j < |s|
    ensures SortedByPri(s[..j] + s[j + 1..])
  {
  }

  /** s with p put in front of position i. */
  function Inserted(s: seq<Puddle>, i: nat, p: Puddle): seq<Puddle>
    requires i <= |s|
  {
    s[..i] + [p] + s[i..]
  }

  lemma InsertedMembers(s: seq<Puddle>, i: nat, p: Puddle)
    requires i <= |s|
    ensures forall q :: q in Inserted(s, i, p) <==> q in s || q == p
    ensures NoDup(s) && p !in s ==> NoDup(Inserted(s, i, p))
  {
    assert s == s[..i] + s[i..];
  }

  /** Position i lies behind the puddles of the same or a higher priority than p. */
  ghost predicate Behind(s: seq<Puddle>, i: int, p: Puddle) {
    && 0 <= i <= |s| && (forall j :: 0 <= j < i ==> s[j].mh.pri >= p.mh.pri)
    && (forall j :: i <= j < |s| ==> s[j].mh.pri < p.mh.pri)
  }

  /** Position i lies in front of the puddles of the same or a lower priority than p. */
  ghost predicate InFront(s: seq<Puddle>, i: int, p: Puddle) {
    && 0 <= i <= |s| && (forall j :: 0 <= j < i ==> s[j].mh.pri > p.mh.pri)
    && (forall j :: i <= j < |s| ==> s[j].mh.pri <= p.mh.pri)
  }

  /** s without position j. */
  function Dropped(s: seq<Puddle>, j: int): seq<Puddle>
    requires 0 <= j < |s|
  {
    s[..j] + s[j + 1..]
  }

  /** In after, p is gone, and all others stand as before. */
  ghost predicate TakenOff(before: seq<Puddle>, p: Puddle, after: seq<Puddle>) {
    exists j :: 0 <= j < |before| && before[j] == p && after == Dropped(before, j)
  }

  /** In after, p has moved in front of the puddles of its priority. */
  ghost predicate MovedForward(before: seq<Puddle>, p: Puddle, after: seq<Puddle>) {
    exists j, i :: 0 <= j < |before| && before[j] == p && InFront(Dropped(before, j), i, p) &&
        after == Inserted(Dropped(before, j), i, p)
  }

  /** `mh->mh_Free > 32`: a puddle that has some memory left is moved forward. */
  ghost predicate Resorted(before: seq<Puddle>, p: Puddle, after: seq<Puddle>)
    reads p.mh
  {
    if p.mh.free > 32 then MovedForward(before, p, after) else after == before
  }

  /** Enqueue(): in front of the first puddle of lower priority. */
  method Enqueue(s: seq<Puddle>, p: Puddle) returns (i: nat)
    requires SortedByPri(s)
    ensures i <= |s| && SortedByPri(Inserted(s, i, p)) && Behind(s, i, p)
  {
    i := 0;
    while i < |s| && !(p.mh.pri > s[i].mh.pri)
      invariant i <= |s|
      invariant forall j :: 0 <= j < i ==> s[j].mh.pri >= p.mh.pri
    {
      i := i + 1;
    }
  }

  /** EnqueueMemHeader: in front of the first puddle of lower or equal priority. */
  method EnqueueMemHeader(s: seq<Puddle>, p: Puddle) returns (i: nat)
    requires SortedByPri(s)
    ensures i <= |s| && SortedByPri(Inserted(s, i, p)) && InFront(s, i, p)
  {
    i := 0;
    while i < |s| && !(p.mh.pri >= s[i].mh.pri)
      invariant i <= |s|
      invariant forall j :: 0 <= j < i ==> s[j].mh.pri > p.mh.pri
    {
      i := i + 1;
    }
  }

  /** The objects that puddles consist of. */
  ghost function Objects(s: seq<Puddle>): set<object> {
    (set p: Puddle | p in s :: p as object) + (set p: Puddle | p in s :: p.mh as object)
    + (set p: Puddle | p in s :: p.ctx as object) + (set p: Puddle | p in s :: p.ctx.prevChunks as object)
  }

  lemma InObjects(s: seq<Puddle>, p: Puddle)
    requires p in s
    ensures p in Objects(s) && p.mh in Objects(s) && p.ctx in Objects(s) && p.ctx.prevChunks in Objects(s)
  {
  }

  lemma ObjectsGrow(s: seq<Puddle>, i: nat, p: Puddle)
    requires i <= |s|
    ensures Objects(Inserted(s, i, p)) == Objects(s) + p.Repr
  {
    InsertedMembers(s, i, p);
  }

  lemma ObjectsWithin(s: seq<Puddle>, t: seq<Puddle>)
    requires forall q :: q in s ==> q in t
    ensures Objects(s) <= Objects(t)
  {
  }

  lemma SomeBlock(s: set<Block>) returns (b: Block)
    requires s != {}
    ensures b in s
  {
    assert (forall d :: d !in s) ==> s == {};
    b :| b in s;
  }

  class Pool {
    const sys: MemList
    /** The puddle that also holds the pool header; its address is the pool handle. */
    const first: Puddle
    const puddleSize: IPtr
    const page: int
    const requirements: set<int>
    const reverse: bool
    /** PuddleList */
    var puddles: seq<Puddle>
    /** The word in front of each block: `*((struct MemHeader **)ret) = mh`. */
    var owner: map<int, Puddle>
    /** The words in front of blocks from AllocVecPooled. */
    var vecSize: map<int, int>
    /** The blocks that the pool's clients hold. */
    ghost var live: set<Block>
    /** Blocks of the system that do not belong to the pool. */
    ghost var base: set<Block>

    /** The blocks of the system that hold the puddles. */
    static ghost function WholesOf(s: seq<Puddle>): set<Block> {
      set p | p in s :: p.Whole()
    }

    /** Which objects there are, and that they are all different. */
    ghost predicate ShapeOf(s: seq<Puddle>) {
      && first in s && NoDup(s) && SortedByPri(s) && this !in sys.Repr
      && (forall p :: p in s ==> p.Repr !! sys.Repr && this !in p.Repr)
      && (forall p, q :: p in s && q in s && p != q ==> p.Repr !! q.Repr)
      && PageOk(page) && Overhead() < puddleSize < LONG_LIMIT && Aligned(puddleSize)
    }

    ghost predicate Shape()
      reads this`puddles
    {
      ShapeOf(puddles)
    }

    lemma ShapeInserted(s: seq<Puddle>, i: nat, p: Puddle)
      requires ShapeOf(s) && i <= |s| && SortedByPri(Inserted(s, i, p)) && p !in s
      requires p.Repr !! sys.Repr && this !in p.Repr && p.Repr !! Objects(s)
      ensures ShapeOf(Inserted(s, i, p))
    {
      hide PageOk, Overhead, Aligned, SortedByPri, NoDup, Objects;
      forall q | q in s
        ensures p.Repr !! q.Repr
      {
        InObjects(s, q);
      }
      InsertedMembers(s, i, p);
    }

    /** Every puddle is in order; all but the first one, and spare, hold a block of a client. */
    ghost predicate PuddlesOk(spare: Puddle?)
      reads this`puddles, Objects(puddles)
    {
      forall p :: p in puddles ==>
        && p.Valid()
        && |p.fixed| == (if p == first then 2 else 1)
        && (p != first && p != spare ==> p.used != {})
    }

    /** The word in front of every block leads to its puddle, and the clients' blocks are those
        that the puddles have handed out. */
    ghost predicate Owned()
      reads this`puddles, this`live, this`owner, Objects(puddles)
    {
      && (forall p, b :: p in puddles && b in p.used ==> b in live && b.addr in owner && owner[b.addr] == p)
      && (forall b :: b in live ==> b.addr in owner && owner[b.addr] in puddles && b in owner[b.addr].used)
    }

    /** The system's live blocks are the puddles of s and what was there before. */
    ghost predicate AccountsOf(s: seq<Puddle>)
      reads this`base, sys
    {
      && sys.live == base + WholesOf(s)
      && (forall p :: p in s ==> p.Whole() !in base && MEMHEADER_TOTAL < p.Whole().bytes < LONG_LIMIT)
      && (forall p, q :: p in s && q in s && p != q ==> p.Whole() != q.Whole())
    }

    ghost predicate Accounts()
      reads this`puddles, this`base, sys, sys.Repr
    {
      sys.Valid() && AccountsOf(puddles)
    }

    ghost predicate Valid()
      reads this, sys, sys.Repr, Objects(puddles)
    {
      Shape() && PuddlesOk(null) && Owned() && Accounts()
    }

    /** What does not depend on the system: the puddles are in order, and each has a block of its own. */
    ghost predicate InOrderAlone()
      reads this`puddles, this`live, this`owner, Objects(puddles)
    {
      Shape() && PuddlesOk(null) && Owned() && OwnWholes(puddles)
    }

    ghost predicate OwnWholes(s: seq<Puddle>) {
      && (forall p :: p in s ==> MEMHEADER_TOTAL < p.Whole().bytes < LONG_LIMIT)
      && (forall p, q :: p in s && q in s && p != q ==> p.Whole() != q.Whole())
    }

    lemma Alone()
      requires Valid()
      ensures InOrderAlone() && sys.Valid() && sys.live == base + WholesOf(puddles) && WholesOf(puddles) !! base
    {
      hide Puddle.Valid, MemList.Valid, ShapeOf, Owned, PuddlesOk;
    }

    lemma NotInside()
      requires Valid()
      ensures this !in Objects(puddles) && this !in sys.Repr && Objects(puddles) !! sys.Repr
    {
      hide Puddle.Valid, MemList.Valid, Owned, PuddlesOk, Accounts;
      ObjectsApart();
    }

    /** Blocks that are held start at different addresses. */
    lemma LiveApart()
      requires Valid()
      ensures forall b, d :: b in live && d in live && b != d ==> b.addr != d.addr
    {
      hide Puddle.Valid, MemList.Valid, ShapeOf, AccountsOf;
      forall b, d | b in live && d in live && b.addr == d.addr
        ensures b == d
      {
        var p := owner[b.addr];
        AllInOrder(null);
        assert p.Valid();
        if b != d {
          p.UsedDistinct(b, d);
        }
      }
    }

    /** The pool takes note of what else lives in the system now. */
    ghost method Rebase()
      requires InOrderAlone() && sys.Valid() && WholesOf(puddles) <= sys.live
      modifies this`base
      ensures Valid() && base == sys.live - WholesOf(puddles)
    {
      hide Puddle.Valid, MemList.Valid, ShapeOf, Owned, PuddlesOk;
      assert forall p :: p in puddles ==> p.Whole() in WholesOf(puddles);
      ObjectsApart();
      base := sys.live - WholesOf(puddles);
    }

    /** Between two requests every puddle but the first holds a block of a client, and the first one
        is on the list. */
    lemma NoEmptyPuddle(p: Puddle)
      requires Valid() && p in puddles
      ensures first in puddles && (p != first ==> exists b :: b in p.used && b in live)
    {
      hide Puddle.Valid, Accounts;
      if p != first {
        assert p.used != {};
        var b := SomeBlock(p.used);
        assert b in live;
      }
    }

    /** `Initialize pool header` and AddTail of the first puddle. */
    constructor (sys: MemList, first: Puddle, puddleSize: IPtr, page: int, requirements: set<int>, reverse: bool,
        ghost base: set<Block>)
      requires sys.Valid() && first.Valid() && first.Repr !! sys.Repr && |first.fixed| == 2 && first.used == {}
      requires PageOk(page) && Overhead() < puddleSize < LONG_LIMIT && Aligned(puddleSize)
      requires sys.live == base + {first.Whole()} && first.Whole() !in base &&
          MEMHEADER_TOTAL < first.Whole().bytes < LONG_LIMIT
      ensures Valid() && puddles == [first] && live == {} && this.first == first && this.sys == sys && this.base == base
      ensures this.requirements == requirements && this.reverse == reverse && this.puddleSize == puddleSize &&
          this.page == page
    {
      hide Puddle.Valid, MemList.Valid, Overhead, Aligned;
      this.sys, this.first, this.puddleSize, this.page := sys, first, puddleSize, page;
      this.requirements, this.reverse, this.base := requirements, reverse, base;
      puddles, owner, vecSize, live := [first], map[], map[], {};
    }

    /** Blocks of different puddles lie apart. */
    lemma UsedApart(p: Puddle, q: Puddle, b: Block, d: Block)
      requires Accounts() && p in puddles && q in puddles && p != q && p.Valid() && q.Valid() && b in p.used &&
          d in q.used
      ensures b.addr != d.addr
    {
      StartInside(p, b);
      StartInside(q, d);
      hide Puddle.Valid, Cells, MemList.AllOk, Union;
      assert p.Whole() in WholesOf(puddles) && q.Whole() in WholesOf(puddles);
      assert BlockCells(p.Whole()) !! BlockCells(q.Whole());
    }

    static lemma StartInside(p: Puddle, b: Block)
      requires p.Valid() && b in p.used
      ensures b.addr in BlockCells(p.Whole())
    {
      assert GoodBlock(b, p.mh.lower, p.mh.upper);
    }

    /** One puddle changed and is in order; the others are as they were. */
    twostate lemma OthersInOrder(new p: Puddle, new spare: Puddle?)
      requires old(allocated(p))
      requires Shape() && old(PuddlesOk(p)) && p in puddles && puddles == old(puddles)
      requires forall q :: q in puddles && q != p ==>
          unchanged(q) && unchanged(q.mh) && unchanged(q.ctx) && unchanged(q.ctx.prevChunks)
      requires p.Valid() && (p != first && p != spare ==> p.used != {})
      ensures PuddlesOk(spare)
    {
      hide Puddle.Valid;
      forall q | q in puddles
        ensures q.Valid() && |q.fixed| == (if q == first then 2 else 1) && (q != first && q != spare ==> q.used != {})
      {
        assert old(q.Valid());
      }
    }

    /** An attempt of InternalAllocPooled on one puddle. */
    method TryPuddle(p: Puddle, memSize: IPtr) returns (r: int)
      requires Shape() && PuddlesOk(p) && p in puddles && 0 < memSize < LONG_LIMIT
      modifies p, p.mh, p.ctx.prevChunks
      ensures PuddlesOk(if r == NULL then p else null)
      ensures r == NULL ==> p.used == old(p.used) && p.mh.blocks == old(p.mh.blocks) && p.mh.free == old(p.mh.free)
      ensures r != NULL ==>
          p.used == old(p.used) + {Block(r, RoundUp(memSize))} && Block(r, RoundUp(memSize)) !in old(p.used)
      ensures (r != NULL <==> Fits(old(p.mh.blocks), RoundUp(memSize))) && r >= 0
      ensures p.Answered(memSize, reverse, r)
    {
      hide Puddle.Valid, Puddle.Answered, RoundUp, Fits, NoDup, SortedByPri;
      assert PuddlesOk(p) ==> p.Valid();
      r := p.Serve(memSize, reverse);
      OthersInOrder(p, if r == NULL then p else null);
    }

    /** The pool between the steps of an operation: one puddle may be unused. */
    ghost predicate Sound(spare: Puddle?)
      reads this, sys, sys.Repr, Objects(puddles)
    {
      Shape() && PuddlesOk(spare) && Owned() && Accounts()
    }

    /** The address of a block that is new in puddle p is not that of another block. */
    lemma NewAddress(p: Puddle, b: Block)
      requires Shape() && Accounts() && p in puddles && (forall q :: q in puddles ==> q.Valid()) && b in p.used
      ensures forall q, d :: q in puddles && d in q.used && (q != p || d != b) ==> d.addr != b.addr
    {
      forall q, d | q in puddles && d in q.used && (q != p || d != b)
        ensures d.addr != b.addr
      {
        if q == p {
          p.UsedDistinct(b, d);
        } else {
          UsedApart(p, q, b, d);
        }
      }
    }

    /** A puddle of the pool has no object in common with the system or the pool header. */
    lemma SysApart(p: Puddle)
      requires Shape() && p in puddles
      ensures p.Repr !! sys.Repr && this !in p.Repr && this !in sys.Repr && this !in Objects(puddles)
    {
    }

    lemma ObjectsApart()
      requires Shape()
      ensures Objects(puddles) !! sys.Repr && this !in Objects(puddles) && this !in sys.Repr
    {
    }

    lemma FirstListed()
      requires Shape()
      ensures first in puddles
    {
    }

    lemma AllInOrder(spare: Puddle?)
      requires PuddlesOk(spare)
      ensures forall q :: q in puddles ==> q.Valid()
    {
    }

    /** One block was handed out by p and its pointer stored. */
    twostate lemma OwnedAfter(new p: Puddle, new b: Block)
      requires old(allocated(p)) && old(Owned()) && puddles == old(puddles) && p in puddles
      requires forall q :: q in puddles && q != p ==> q.used == old(q.used)
      requires b !in old(p.used) && p.used == old(p.used) + {b} && live == old(live) + {b} &&
          owner == old(owner)[b.addr := p]
      requires forall q, d :: q in puddles && d in q.used && (q != p || d != b) ==> d.addr != b.addr
      ensures Owned() && b !in old(live)
    {
      forall d | d in live
        ensures d.addr in owner && owner[d.addr] in puddles && d in owner[d.addr].used
      {
        if d != b {
          var q := old(owner[d.addr]);
          assert q in puddles && d in q.used;
        }
      }
    }

    /** No block was handed out; the list may have been rearranged. */
    twostate lemma OwnedSame()
      requires old(Owned()) && live == old(live) && owner == old(owner)
      requires forall q :: q in puddles <==> q in old(puddles)
      requires forall q :: q in old(puddles) ==> q.used == old(q.used)
      ensures Owned()
    {
    }

    twostate lemma InOrderSame()
      requires old(PuddlesOk(null))
      requires forall q :: q in puddles <==> q in old(puddles)
      requires forall q :: q in old(puddles) ==>
          unchanged(q) && unchanged(q.mh) && unchanged(q.ctx) && unchanged(q.ctx.prevChunks)
      ensures PuddlesOk(null)
    {
      hide Puddle.Valid;
      forall q | q in puddles
        ensures q.Valid() && |q.fixed| == (if q == first then 2 else 1) && (q != first ==> q.used != {})
      {
        assert old(q.Valid());
      }
    }

    /** A puddle serves a request and the pointer to it is stored in front of the block. */
    method ServeFrom(p: Puddle, memSize: IPtr) returns (r: int)
      requires Sound(p) && p in puddles && 0 < memSize < LONG_LIMIT
      modifies this`owner, this`live, p, p.mh, p.ctx.prevChunks
      ensures Sound(if r == NULL then p else null)
      ensures r == NULL ==>
          p.used == old(p.used) && live == old(live) && p.mh.blocks == old(p.mh.blocks) && p.mh.free == old(p.mh.free)
      ensures r != NULL ==> live == old(live) + {Block(r, RoundUp(memSize))} && Block(r, RoundUp(memSize)) !in old(live)
      ensures (r != NULL <==> Fits(old(p.mh.blocks), RoundUp(memSize))) && r >= 0
      ensures p.Answered(memSize, reverse, r) && owner == if r == NULL then old(owner) else old(owner)[r := p]
    {
      hide Puddle.Valid, Puddle.Answered, MemList.Valid, RoundUp, Fits, ShapeOf, AccountsOf, PuddlesOk, Owned;
      SysApart(p);
      r := TryPuddle(p, memSize);
      if r != NULL {
        ghost var b := Block(r, RoundUp(memSize));
        AllInOrder(null);
        NewAddress(p, b);
        owner := owner[r := p];
        live := live + {b};
        OwnedAfter(p, b);
      } else {
        OwnedSame();
      }
    }

    /** A request for which no size computation of the pool wraps around. */
    predicate NoWrap(memSize: int) {
      0 < memSize && memSize + Overhead() + page - 1 < IPTR_MODULUS
    }

    /** nommu_AllocMem comes back when it is asked for the puddle that a request of memSize bytes needs. */
    ghost predicate Reasonable(memSize: int)
      reads sys.headers
    {
      && NoWrap(memSize) && page > 0 && 0 <= NewPuddleSize(memSize, puddleSize, page) < IPTR_MODULUS
      && sys.Answers(NewPuddleSize(memSize, puddleSize, page), requirements)
    }

    /** Requests whose size computation stays below 2^31 are of this kind, and all when no header spans as
        many bytes. */
    lemma ReasonableWhen(memSize: int)
      requires Shape() && sys.Valid() && NoWrap(memSize)
      requires memSize + Overhead() + page - 1 < LONG_LIMIT || sys.Small()
      ensures Reasonable(memSize)
    {
      hide NoDup, SortedByPri, MemList.Valid, Overhead, RoundUp, NewPuddleSize, Aligned;
      AboveGranule();
      FreshPuddleFitsRounded(memSize, puddleSize, page);
      if sys.Small() {
        sys.SmallAnswers(NewPuddleSize(memSize, puddleSize, page), requirements);
      }
    }

    static lemma OverheadIs()
      ensures Overhead() == MEMHEADER_TOTAL + CtxSize()
    {
    }

    static lemma AboveGranule()
      ensures Overhead() > MEMCHUNK_TOTAL
    {
    }

    /** `Get a new one.`: a puddle is created and added to the list. */
    method AddPuddle(memSize: IPtr) returns (i: nat, p: Puddle?)
      requires Sound(null) && Reasonable(memSize)
      modifies this`puddles, sys.Repr
      ensures p == null <==> !old(SystemCanServe(memSize))
      ensures p == null ==> Sound(null) && puddles == old(puddles) && sys.live == old(sys.live)
      ensures p != null ==> Sound(p) && fresh(p) && fresh(p.mh) && fresh(p.ctx) && fresh(p.ctx.prevChunks)
      ensures p != null ==> i <= |old(puddles)| && puddles == Inserted(old(puddles), i, p)
      ensures p != null ==> p != first && p.used == {} && Fits(p.mh.blocks, RoundUp(memSize)) && memSize < LONG_LIMIT
      ensures p != null ==> IsNew(p, memSize) && Behind(old(puddles), i, p)
    {
      hide Puddle.Valid, MemList.Valid, RoundUp, Fits, PageOk, Overhead, Aligned, SortedByPri, NoDup, PuddlesOk,
          Owned, Inserted, ShapeOf, AccountsOf, AccountsPlus, SystemCanServe, Reasonable, Objects, IsNew, Behind;
      ObjectsApart();
      FirstListed();
      ListedInside();
      assert allocated(Objects(puddles));
      i := 0;
      p := NewPuddle(memSize);
      if p != null {
        AccountsGrow(puddles, p);
        i := Enlist(p);
      } else {
        AccountsSame(puddles);
      }
    }

    lemma ListedInside()
      ensures forall q :: q in puddles ==> q in Objects(puddles)
    {
    }

    /** The system's live blocks are those of AccountsOf and the new puddle. */
    ghost predicate AccountsPlus(s: seq<Puddle>, p: Puddle)
      reads this`base, sys
    {
      && sys.live == base + WholesOf(s) + {p.Whole()} && p.Whole() !in base + WholesOf(s)
      && MEMHEADER_TOTAL < p.Whole().bytes < LONG_LIMIT
      && (forall q :: q in s ==> q.Whole() !in base && MEMHEADER_TOTAL < q.Whole().bytes < LONG_LIMIT)
      && (forall q, r :: q in s && r in s && q != r ==> q.Whole() != r.Whole())
    }

    twostate lemma AccountsSame(new s: seq<Puddle>)
      requires old(allocated(s)) && old(AccountsOf(s)) && sys.live == old(sys.live) && base == old(base)
      ensures AccountsOf(s)
    {
    }

    twostate lemma AccountsGrow(new s: seq<Puddle>, new p: Puddle)
      requires base == old(base)
      requires old(allocated(s)) && old(AccountsOf(s)) && sys.live == old(sys.live) + {p.Whole()} &&
          p.Whole() !in old(sys.live)
      requires MEMHEADER_TOTAL < p.Whole().bytes < LONG_LIMIT
      ensures AccountsPlus(s, p)
    {
    }

    /** The new puddle is put on the list. */
    method Enlist(p: Puddle) returns (i: nat)
      requires Shape() && PuddlesOk(null) && Owned() && sys.Valid() && p !in puddles
      requires p.Valid() && |p.fixed| == 1 && p.used == {} && p != first
      requires p.Repr !! sys.Repr && this !in p.Repr && p.Repr !! Objects(puddles)
      requires AccountsPlus(puddles, p)
      modifies this`puddles
      ensures Sound(p) && i <= |old(puddles)| && puddles == Inserted(old(puddles), i, p) && Behind(old(puddles), i, p)
    {
      hide Puddle.Valid, MemList.Valid, ShapeOf, AccountsOf, AccountsPlus, Owned, Inserted, SortedByPri;
      InOrder();
      i := Enqueue(puddles, p);
      ShapeInserted(puddles, i, p);
      AccountsInserted(puddles, i, p);
      InsertedMembers(puddles, i, p);
      puddles := Inserted(puddles, i, p);
      OwnedWithMore(p);
    }

    lemma InOrder()
      requires Shape()
      ensures SortedByPri(puddles)
    {
    }

    /** An unused puddle joined the list. */
    twostate lemma OwnedWithMore(new p: Puddle)
      requires old(allocated(p)) && old(Owned()) && p.used == {}
      requires live == old(live) && owner == old(owner)
      requires forall q :: q in puddles <==> q in old(puddles) || q == p
      requires forall q :: q in old(puddles) ==> q.used == old(q.used)
      ensures Owned()
    {
    }

    lemma AccountsInserted(s: seq<Puddle>, i: nat, p: Puddle)
      requires i <= |s| && AccountsPlus(s, p)
      ensures AccountsOf(Inserted(s, i, p))
    {
      InsertedMembers(s, i, p);
      assert WholesOf(Inserted(s, i, p)) == WholesOf(s) + {p.Whole()};
    }

    /** The system has room for the puddle that a request of memSize bytes would create. */
    ghost predicate SystemCanServe(memSize: int)
      reads sys.headers
    {
      && page > 0 && 0 <= memSize < IPTR_MODULUS && 0 <= NewPuddleSize(memSize, puddleSize, page) < IPTR_MODULUS
      && sys.Available(NewPuddleSize(memSize, puddleSize, page), requirements)
    }

    /** The puddle is as large as the request needs it, and behind its index context all of it is free. */
    ghost predicate IsNew(p: Puddle, memSize: int)
      requires page > 0 && 0 <= memSize < IPTR_MODULUS
      reads p.mh
    {
      && p.Whole().bytes == NewPuddleSize(memSize, puddleSize, page)
      && p.mh.blocks == [Block(p.mh.lower + CtxSize(), p.mh.upper - p.mh.lower - CtxSize())]
    }

    /** The new puddle, which is not on the list yet. */
    method NewPuddle(memSize: IPtr) returns (p: Puddle?)
      requires Shape() && sys.Valid() && Reasonable(memSize)
      modifies sys.Repr
      ensures p == null <==> !old(SystemCanServe(memSize))
      ensures sys.Valid() && sys.live == old(sys.live) + (if p == null then {} else {p.Whole()})
      ensures p != null ==> fresh(p) && fresh(p.mh) && fresh(p.ctx) && fresh(p.ctx.prevChunks)
      ensures p != null ==> p.Valid() && |p.fixed| == 1 && p.used == {} && Fits(p.mh.blocks, RoundUp(memSize))
      ensures p != null ==> p.Whole() !in old(sys.live) && MEMHEADER_TOTAL < p.Whole().bytes < LONG_LIMIT
      ensures p != null ==> memSize < LONG_LIMIT && IsNew(p, memSize)
    {
      hide Puddle.Valid, MemList.Valid, MemHeader.Valid, RoundUp, Fits, PageOk, Overhead, Aligned, NewPuddleSize,
          CtxSize, NoDup, SortedByPri, Reasonable, SystemCanServe, ShapeOf, MemList.Holds, MemList.Answered, Inherits;
      CanBeMade(memSize);
      var size := SizeOfNew(memSize);
      var addr, mh := AllocMemHeader(sys, size, requirements, reverse);
      p := null;
      if mh != null {
        p := FreshPuddle(addr, mh, size, memSize);
      }
    }

    /** What Reasonable and SystemCanServe say about the puddle to be made. */
    lemma CanBeMade(memSize: IPtr)
      requires Reasonable(memSize)
      ensures NoWrap(memSize) && page > 0 && 0 <= NewPuddleSize(memSize, puddleSize, page) < IPTR_MODULUS
      ensures sys.Answers(NewPuddleSize(memSize, puddleSize, page), requirements)
      ensures SystemCanServe(memSize) <==> sys.Available(NewPuddleSize(memSize, puddleSize, page), requirements)
    {
    }

    method SizeOfNew(memSize: IPtr) returns (size: IPtr)
      requires Shape() && NoWrap(memSize)
      ensures page > 0 && size == NewPuddleSize(memSize, puddleSize, page) && Aligned(size)
      ensures size - Overhead() >= RoundUp(memSize) > 0 && size > memSize && size > MEMHEADER_TOTAL + CtxSize() &&
          Overhead() == MEMHEADER_TOTAL + CtxSize()
    {
      hide RoundUp, Aligned, NewPuddleSize, NoDup, SortedByPri, CtxSize, Overhead;
      AboveGranule();
      OverheadIs();
      FreshPuddleFitsRounded(memSize, puddleSize, page);
      size := NewPuddleSize(memSize, puddleSize, page);
    }

    /** After an allocation the puddle moves to the front of those with its priority when it has
        some free memory left. */
    method Resort(p: Puddle)
      requires Valid() && p in puddles
      modifies this`puddles
      ensures Valid() && (forall q :: q in puddles <==> q in old(puddles))
      ensures Resorted(old(puddles), p, puddles)
    {
      hide Puddle.Valid, MemList.Valid, ShapeOf, AccountsOf, Inserted, SortedByPri, PuddlesOk, Owned, InFront;
      InOrder();
      if p.mh.free > 32 {
        var j := Position(p);
        var rest := Dropped(puddles, j);
        SortedWithout(puddles, j);
        var i := EnqueueMemHeader(rest, p);
        Moved(puddles, j, i, p);
        puddles := Inserted(rest, i, p);
        OwnedSame();
        InOrderSame();
      }
    }

    /** Where a puddle stands on the list. */
    method Position(p: Puddle) returns (j: nat)
      requires p in puddles
      ensures j < |puddles| && puddles[j] == p
    {
      j := 0;
      while puddles[j] != p
        invariant j < |puddles| && p !in puddles[..j]
        decreases |puddles| - j
      {
        assert j + 1 < |puddles| by {
          assert puddles == puddles[..j] + [puddles[j]] + puddles[j + 1..];
        }
        j := j + 1;
      }
    }

    /** Moving one puddle keeps the list in order and its members. */
    lemma Moved(s: seq<Puddle>, j: nat, i: nat, p: Puddle)
      requires ShapeOf(s) && j < |s| && s[j] == p && i <= |s| - 1
      requires SortedByPri(Inserted(s[..j] + s[j + 1..], i, p))
      ensures ShapeOf(Inserted(s[..j] + s[j + 1..], i, p))
      ensures forall q :: q in Inserted(s[..j] + s[j + 1..], i, p) <==> q in s
      ensures AccountsOf(s) ==> AccountsOf(Inserted(s[..j] + s[j + 1..], i, p))
    {
      NoneTwice(s);
      hide ShapeOf, AccountsOf, SortedByPri;
      MovedMembers(s, j, i, p);
      SameMembers(s, Inserted(s[..j] + s[j + 1..], i, p));
    }

    lemma NoneTwice(s: seq<Puddle>)
      requires ShapeOf(s)
      ensures NoDup(s)
    {
    }

    lemma MovedMembers(s: seq<Puddle>, j: nat, i: nat, p: Puddle)
      requires NoDup(s) && j < |s| && s[j] == p && i <= |s| - 1
      ensures NoDup(Inserted(s[..j] + s[j + 1..], i, p))
      ensures forall q :: q in Inserted(s[..j] + s[j + 1..], i, p) <==> q in s
    {
      var rest := s[..j] + s[j + 1..];
      assert s == s[..j] + [p] + s[j + 1..];
      InsertedMembers(rest, i, p);
    }

    lemma SameMembers(s: seq<Puddle>, t: seq<Puddle>)
      requires ShapeOf(s) && SortedByPri(t) && NoDup(t) && forall q :: q in t <==> q in s
      ensures ShapeOf(t) && (AccountsOf(s) ==> AccountsOf(t))
    {
      hide PageOk, Overhead, Aligned, NoDup, SortedByPri;
      assert WholesOf(t) == WholesOf(s);
    }

    /** The attempt on a puddle of the list. */
    method TryListed(p: Puddle, memSize: IPtr) returns (r: int)
      requires Valid() && p in puddles && 0 < memSize < LONG_LIMIT
      modifies this`puddles, this`owner, this`live, p, p.mh, p.ctx.prevChunks
      ensures Valid()
      ensures sys.live == old(sys.live)
      ensures r == NULL ==>
          puddles == old(puddles) && live == old(live) && p.mh.blocks == old(p.mh.blocks) && p.mh.free == old(p.mh.free)
      ensures r != NULL ==> live == old(live) + {Block(r, RoundUp(memSize))} && Block(r, RoundUp(memSize)) !in old(live)
      ensures (r != NULL <==> Fits(old(p.mh.blocks), RoundUp(memSize))) && r >= 0
      ensures p.Answered(memSize, reverse, r) && owner == if r == NULL then old(owner) else old(owner)[r := p]
      ensures r != NULL ==> Resorted(old(puddles), p, puddles)
      ensures Objects(puddles) <= old(Objects(puddles))
    {
      hide Puddle.Valid, Puddle.Answered, MemList.Valid, RoundUp, Fits, NoDup, SortedByPri, PageOk, Overhead, Aligned,
          AccountsOf, ShapeOf, MovedForward;
      ghost var used := p.used;
      r := ServeFrom(p, memSize);
      if r != NULL {
        Resort(p);
        ObjectsWithin(puddles, old(puddles));
      }
    }

    /** The new puddle p has served the request from the asked end; on the list, which was before, it was put
        behind the puddles of its priority, and then moved forward if it has memory left. */
    ghost predicate JoinedAndServed(before: seq<Puddle>, p: Puddle, memSize: int, r: int)
      requires page > 0 && 0 <= memSize < IPTR_MODULUS
      reads this`puddles, p.mh
    {
      && p in puddles && NewSizeFor(p.Whole().bytes, memSize)
      && r == (if reverse then p.mh.upper - RoundUp(memSize) else p.mh.lower + CtxSize())
      && exists i :: Behind(before, i, p) && Resorted(Inserted(before, i, p), p, puddles)
    }

    /** A puddle of so many bytes is made for the request: the pool's usual size if it fits in, else whole pages. */
    ghost predicate NewSizeFor(bytes: int, memSize: int)
      requires page > 0
    {
      if memSize + Overhead() <= puddleSize then bytes == puddleSize else LeastPages(bytes, memSize + Overhead(), page)
    }

    /** The attempt on a new puddle, which always has room. */
    method TryNew(memSize: IPtr) returns (r: int, ghost created: nat, ghost p: Puddle?)
      requires Valid() && Reasonable(memSize)
      modifies this`puddles, this`owner, this`live, sys.Repr
      ensures Valid() && created <= 1
      ensures r >= 0 &&
          (r == NULL ==> created == 0 && puddles == old(puddles) && live == old(live) && sys.live == old(sys.live))
      ensures created == 0 <==> r == NULL
      ensures r == NULL <==> !old(SystemCanServe(memSize))
      ensures r != NULL ==> live == old(live) + {Block(r, RoundUp(memSize))} && Block(r, RoundUp(memSize)) !in old(live)
      ensures fresh(Objects(puddles) - old(Objects(puddles)))
      ensures if r == NULL then owner == old(owner) && p == null else
          p != null && fresh(p) && owner == old(owner)[r := p] && page > 0 &&
          JoinedAndServed(old(puddles), p, memSize, r)
    {
      hide Puddle.Valid, MemList.Valid, RoundUp, Fits, Aligned, AccountsOf, ShapeOf, PuddlesOk, Owned, Objects,
          Inserted, Accounts, SystemCanServe, IsNew, Behind, Resorted, Puddle.Whole, NewPuddleSize, MemHeader.Grants,
              NewSizeFor,
          Reasonable, NoWrap;
      CanBeMade(memSize);
      var i, q := AddPuddle(memSize);
      p := q;
      if q == null {
        return NULL, 0, null;
      }
      InsertedMembers(old(puddles), i, q);
      ObjectsGrow(old(puddles), i, q);
      ghost var listed := puddles;
      created := 1;
      ServesAtEnd(q, memSize);
      r := ServeFrom(q, memSize);
      assert r != NULL;
      Resort(q);
      ObjectsWithin(puddles, listed);
    }

    /** What a new puddle hands out. */
    lemma ServesAtEnd(p: Puddle, memSize: IPtr)
      requires Shape() && NoWrap(memSize) && page > 0 && IsNew(p, memSize)
      ensures NewSizeFor(p.Whole().bytes, memSize)
      ensures forall mc, now, entries :: mc != NULL && p.mh.Grants(p.ctx, memSize, reverse, mc, now, entries) ==>
          mc == if reverse then p.mh.upper - RoundUp(memSize) else p.mh.lower + CtxSize()
    {
      hide RoundUp, NewPuddleSize, LeastPages, Overhead, NoDup, SortedByPri, Aligned;
      NewPuddleSizeIs(memSize, puddleSize, page);
      p.mh.OneChunkGrants(p.ctx, memSize, reverse);
    }

    /** The block a client's pointer r stands for: it starts with the pointer to the puddle. */
    function BlockOf(r: int, size: IPtr): Block {
      Block(r - POINTER_BYTES, RoundUp(Wrap(size + POINTER_BYTES)))
    }

    /** A puddle that has so much free memory is asked for less than 2^31 bytes. */
    lemma SmallRequest(p: Puddle, memSize: int)
      requires Valid() && p in puddles && p.mh.free >= memSize
      ensures memSize < LONG_LIMIT
    {
      hide Owned, NoDup, SortedByPri, Tiled, Cells, GoodBlock, MemHeader.Valid, MemHeader.Indexed, CtxSize,
          MemList.Valid;
      assert p.Valid();
      p.mh.HeaderIsSane();
    }

    /** The puddle is asked for memSize bytes, and has room. */
    ghost predicate CanServe(p: Puddle, memSize: int)
      reads p.mh
    {
      && 0 < memSize < IPTR_MODULUS && requirements <= p.mh.attributes
      && p.mh.free >= memSize && Fits(p.mh.blocks, RoundUp(memSize))
    }

    ghost predicate ListedCanServe(memSize: int)
      reads this`puddles, Objects(puddles)
    {
      exists p :: p in puddles && CanServe(p, memSize)
    }

    /** p is the first puddle of the list that can serve the request. */
    ghost predicate FirstThatCan(p: Puddle, memSize: int)
      reads this`puddles, Objects(puddles)
    {
      exists n :: 0 <= n < |puddles| && puddles[n] == p && CanServe(p, memSize) &&
          forall j :: 0 <= j < n ==> !CanServe(puddles[j], memSize)
    }

    /** The loop of InternalAllocPooled over the puddles of the list; p is the one that serves. */
    method TryAllListed(memSize: IPtr) returns (r: int, ghost p: Puddle?)
      requires Valid() && 0 < memSize
      modifies this`puddles, this`owner, this`live, Objects(puddles)
      ensures Valid() && sys.live == old(sys.live) && r >= 0
      ensures r != NULL <==> old(ListedCanServe(memSize))
      ensures r == NULL ==>
          puddles == old(puddles) && live == old(live) && (SystemCanServe(memSize) <==> old(SystemCanServe(memSize)))
      ensures r == NULL && old(Reasonable(memSize)) ==> Reasonable(memSize)
      ensures r != NULL ==> live == old(live) + {Block(r, RoundUp(memSize))} && Block(r, RoundUp(memSize)) !in old(live)
      ensures if r == NULL then owner == old(owner) && p == null else
          p != null && p in old(puddles) && owner == old(owner)[r := p] && Resorted(old(puddles), p, puddles)
      ensures r != NULL ==> old(FirstThatCan(p, memSize)) && p.Answered(memSize, reverse, r)
      ensures Objects(puddles) <= old(Objects(puddles))
    {
      hide Puddle.Valid, MemList.Valid, RoundUp, Fits, Aligned, AccountsOf, PuddlesOk, Owned, ShapeOf,
          SystemCanServe, Reasonable, Objects, Resorted, MemHeader.Grants;
      ObjectsApart();
      var i := 0;
      r, p := NULL, null;
      while i < |puddles|
        invariant Valid() && i <= |puddles| && puddles == old(puddles) && live == old(live) && sys.live == old(sys.live)
        invariant r == NULL
        invariant SystemCanServe(memSize) <==> old(SystemCanServe(memSize))
        invariant Reasonable(memSize) <==> old(Reasonable(memSize))
        invariant forall q :: q in puddles ==> q.mh.blocks == old(q.mh.blocks) && q.mh.free == old(q.mh.free)
        invariant forall j :: 0 <= j < i ==> !old(CanServe(puddles[j], memSize))
        invariant owner == old(owner) && p == null && forall j :: i <= j < |puddles| ==> Untouched(puddles[j])
        decreases |puddles| - i
      {
        var next := puddles[i];
        InObjects(puddles, next);
        HeadersApart(i);
        if next.mh.free >= memSize && requirements <= next.mh.attributes {
          SmallRequest(next, memSize);
          label Before:
          r := TryListed(next, memSize);
          if r != NULL {
            ghost var now, entries := next.mh.blocks, Entries(next.ctx);
            assert old(next.mh.Grants(next.ctx, memSize, reverse, r, now, entries)) ==
                old@Before(next.mh.Grants(next.ctx, memSize, reverse, r, now, entries));
            assert old(CanServe(next, memSize));
            p := next;
            return;
          }
        }
        i := i + 1;
      }
    }

    /** Puddle, header and index are as they were. */
    twostate predicate Untouched(p: Puddle)
      reads p, p.mh, p.ctx, p.ctx.prevChunks
    {
      unchanged(p) && unchanged(p.mh) && unchanged(p.ctx) && unchanged(p.ctx.prevChunks)
    }

    lemma HeadersApart(i: nat)
      requires Shape() && i < |puddles|
      ensures forall q :: q in puddles && q != puddles[i] ==> q.mh != puddles[i].mh
      ensures forall j :: 0 <= j < |puddles| && j != i ==>
          puddles[j] != puddles[i] && puddles[j].ctx.prevChunks != puddles[i].ctx.prevChunks
      ensures puddles[i].mh !in sys.Repr
    {
      var p := puddles[i];
      assert p in puddles && forall q :: q in puddles && q != p ==> p.Repr !! q.Repr;
      assert forall j :: 0 <= j < |puddles| && j != i ==> puddles[j] != p;
      forall q | q in puddles && q != p
        ensures q.mh != p.mh && q.ctx.prevChunks != p.ctx.prevChunks
      {
        assert q.mh in q.Repr && q.ctx.prevChunks in q.Repr && p.mh in p.Repr && p.ctx.prevChunks in p.Repr;
      }
    }

    lemma Unwrapped(memSize: int)
      requires Valid() && Reasonable(memSize)
      ensures 0 < memSize < IPTR_MODULUS
    {
      hide NoDup, SortedByPri, Owned, PuddlesOk, Accounts;
    }

    /** InternalAllocPooled; created counts the new puddles.  It fails only when no puddle of the list
        and no header of the system has room.  p is the puddle that serves: the first of the list that can, or
        the new one. */
    method InternalAllocPooled(size: IPtr) returns (r: int, ghost created: nat, ghost p: Puddle?)
      requires Valid() && 0 < size && Reasonable(size + POINTER_BYTES)
      modifies this`puddles, this`owner, this`live, sys.Repr, Objects(puddles)
      ensures Valid()
      ensures created == if !old(ListedCanServe(size + POINTER_BYTES)) &&
          old(SystemCanServe(size + POINTER_BYTES)) then 1 else 0
      ensures r == NULL <==> !old(ListedCanServe(size + POINTER_BYTES)) && !old(SystemCanServe(size + POINTER_BYTES))
      ensures r >= 0 && (r == NULL ==> live == old(live))
      ensures r != NULL ==> live == old(live) + {BlockOf(r, size)} && BlockOf(r, size) !in old(live)
      ensures created == 0 ==> sys.live == old(sys.live)
      ensures fresh(Objects(puddles) - old(Objects(puddles)))
      ensures if r == NULL then owner == old(owner) && puddles == old(puddles) else
          p != null && owner == old(owner)[r - POINTER_BYTES := p]
      ensures r != NULL && created == 0 ==>
          p in old(puddles) && old(FirstThatCan(p, size + POINTER_BYTES)) && Resorted(old(puddles), p, puddles) &&
          p.Answered(size + POINTER_BYTES, reverse, r - POINTER_BYTES)
      ensures created == 1 ==>
          fresh(p) && page > 0 && JoinedAndServed(old(puddles), p, size + POINTER_BYTES, r - POINTER_BYTES)
    {
      hide Pool.Valid, RoundUp, Objects, Overhead, SystemCanServe, ListedCanServe, Reasonable, NoWrap, FirstThatCan,
          Resorted, Puddle.Answered, JoinedAndServed;
      Unwrapped(size + POINTER_BYTES);
      var memSize: IPtr := size + POINTER_BYTES;
      created := 0;
      r, p := TryAllListed(memSize);
      if r == NULL {
        label Listed:
        r, created, p := TryNew(memSize);
        assert old@Listed(puddles) == old(puddles);
        forall o: object | o in Objects(puddles) && o !in old(Objects(puddles))
          ensures fresh(o)
        {
          assert fresh@Listed(o);
        }
      } else {
        assert Objects(puddles) - old(Objects(puddles)) == {};
      }
      if r != NULL {
        r := r + POINTER_BYTES;
      }
    }

    /** One block was taken back by p. */
    twostate lemma OwnedWithout(new p: Puddle, new b: Block)
      requires old(allocated(p)) && old(Owned()) && puddles == old(puddles) && owner == old(owner) && p in puddles
      requires forall q :: q in puddles && q != p ==> q.used == old(q.used)
      requires b in old(p.used) && p.used == old(p.used) - {b} && live == old(live) - {b}
      ensures Owned()
    {
    }

    /** stdDealloc on the puddle a block came from. */
    method TakeBackFrom(p: Puddle, start: int, size: IPtr)
      requires Valid() && p in puddles && size > 0 && start + size < IPTR_MODULUS && Rounded(start, size) in p.used
      modifies this`live, p, p.mh, p.ctx.prevChunks
      ensures Sound(p) && p.used == old(p.used) - {Rounded(start, size)} && live == old(live) - {Rounded(start, size)}
    {
      hide Puddle.Valid, MemList.Valid, NoDup, SortedByPri, PageOk, Overhead, Aligned, AccountsOf, Owned, Rounded,
          Objects, WholesOf;
      SysApart(p);
      p.TakeBack(start, size);
      OthersInOrder(p, p);
      live := live - {Rounded(start, size)};
      OwnedWithout(p, Rounded(start, size));
    }

    /** The list without the puddle at position j. */
    lemma Removed(s: seq<Puddle>, j: nat, p: Puddle)
      requires ShapeOf(s) && j < |s| && s[j] == p && p != first
      ensures ShapeOf(s[..j] + s[j + 1..])
      ensures forall q :: q in s[..j] + s[j + 1..] <==> q in s && q != p
      ensures AccountsOf(s) ==> AccountsPlus(s[..j] + s[j + 1..], p)
    {
      assert s == s[..j] + [p] + s[j + 1..];
      SortedWithout(s, j);
      hide PageOk, Overhead, Aligned, SortedByPri, AccountsOf, AccountsPlus;
      AccountsLess(s, s[..j] + s[j + 1..], p);
    }

    lemma AccountsLess(s: seq<Puddle>, rest: seq<Puddle>, p: Puddle)
      requires p in s && forall q :: q in rest <==> q in s && q != p
      ensures AccountsOf(s) ==> AccountsPlus(rest, p)
    {
      assert WholesOf(s) == WholesOf(rest) + {p.Whole()};
    }

    twostate lemma AccountsShrink(new s: seq<Puddle>, new p: Puddle)
      requires old(allocated(s) && allocated(p)) && old(AccountsPlus(s, p)) && sys.live == old(sys.live) - {p.Whole()}
      requires base == old(base)
      ensures AccountsOf(s)
    {
    }

    twostate lemma LessOne(new p: Puddle)
      requires old(allocated(p)) && old(PuddlesOk(p)) && old(Owned()) && p.used == {} && live == old(live) &&
          owner == old(owner)
      requires forall q :: q in puddles <==> q in old(puddles) && q != p
      requires forall q :: q in old(puddles) ==>
          unchanged(q) && unchanged(q.mh) && unchanged(q.ctx) && unchanged(q.ctx.prevChunks)
      ensures PuddlesOk(null) && Owned()
    {
      hide Puddle.Valid;
      forall q | q in puddles
        ensures q.Valid() && |q.fixed| == (if q == first then 2 else 1) && (q != first ==> q.used != {})
      {
        assert old(q.Valid());
      }
    }

    lemma Accounted(p: Puddle)
      requires AccountsOf(puddles) && p in puddles
      ensures p.Whole() in sys.live
    {
      assert p.Whole() in WholesOf(puddles);
    }

    /** `Remove(&mh->mh_Node)` */
    method Unlist(p: Puddle)
      requires Sound(p) && p in puddles && p != first && p.used == {}
      modifies this`puddles
      ensures Shape() && PuddlesOk(null) && Owned() && AccountsPlus(puddles, p)
      ensures TakenOff(old(puddles), p, puddles) && forall q :: q in puddles <==> q in old(puddles) && q != p
    {
      hide Puddle.Valid, MemList.Valid, ShapeOf, AccountsOf, AccountsPlus, Owned, PuddlesOk;
      ObjectsApart();
      var j := Position(p);
      Removed(puddles, j, p);
      puddles := Dropped(puddles, j);
      LessOne(p);
    }

    /** `Puddle is empty, giving back to the system` */
    method Release(p: Puddle)
      requires Sound(p) && p in puddles && p != first && p.used == {}
      modifies this`puddles, sys.Repr
      ensures Valid() && live == old(live) && sys.live == old(sys.live) - {p.Whole()}
      ensures TakenOff(old(puddles), p, puddles) && forall q :: q in puddles <==> q in old(puddles) && q != p
    {
      hide TakenOff, Puddle.Valid, MemList.Valid, ShapeOf, AccountsOf, AccountsPlus, Owned, PuddlesOk, Puddle.Whole,
          WholesOf,
          Overhead, PageOk, NoDup, SortedByPri, Aligned, Objects;
      ObjectsApart();
      Accounted(p);
      Unlist(p);
      ObjectsApart();
      assert allocated(Objects(puddles));
      label Unlisted:
      FreePuddle(sys, p);
      AccountsShrink@Unlisted(puddles, p);
    }

    /** The pointer in front of a live block leads to the puddle that holds it. */
    lemma OwnerOf(memory: int, size: IPtr, b: Block) returns (p: Puddle)
      requires Owned() && b == BlockOf(memory, size) && b in live
      ensures memory - POINTER_BYTES in owner && owner[memory - POINTER_BYTES] == p && p in puddles && b in p.used
    {
      p := owner[b.addr];
    }

    lemma InPuddle(p: Puddle, memory: int, size: IPtr, b: Block)
      requires p.Valid() && b == BlockOf(memory, size) && b in p.used && memory + size < IPTR_MODULUS && size > 0
      ensures size + POINTER_BYTES < IPTR_MODULUS && Rounded(memory - POINTER_BYTES, size + POINTER_BYTES) == b
      ensures p.mh.lower <= memory - POINTER_BYTES && memory + size <= p.mh.upper
    {
      assert GoodBlock(b, p.mh.lower, p.mh.upper);
      FrontPointer(memory, size, b, p.mh.lower);
    }

    /** The body of InternalFreePooled once the puddle is known. */
    method FreeIn(p: Puddle, start: int, size: IPtr) returns (ghost released: bool)
      requires Valid() && p in puddles && size > 0 && start + size < IPTR_MODULUS && Rounded(start, size) in p.used
      modifies this`puddles, this`live, p, p.mh, p.ctx.prevChunks, sys.Repr
      ensures Valid() && live == old(live) - {Rounded(start, size)}
      ensures released <==> p != first && old(p.used) == {Rounded(start, size)}
      ensures sys.live == old(sys.live) - (if released then {p.Whole()} else {})
      ensures forall q :: q in puddles <==> q in old(puddles) && !(released && q == p)
      ensures if released then TakenOff(old(puddles), p, puddles) else puddles == old(puddles)
      ensures Objects(puddles) <= old(Objects(puddles))
    {
      hide TakenOff, Puddle.Valid, MemList.Valid, ShapeOf, AccountsOf, Rounded, Owned, PuddlesOk;
      SysApart(p);
      TakeBackFrom(p, start, size);
      FixedCount(p, p);
      p.EmptyIffUnused();
      released := p.used == {} && p != first;
      if p.LooksEmpty() {
        Release(p);
      } else {
        Unreleased(p);
      }
      ObjectsWithin(puddles, old(puddles));
    }

    lemma FixedCount(p: Puddle, spare: Puddle?)
      requires PuddlesOk(spare) && p in puddles
      ensures p.Valid() && |p.fixed| == if p == first then 2 else 1
    {
    }

    lemma Unreleased(p: Puddle)
      requires PuddlesOk(p) && (p == first || p.used != {})
      ensures PuddlesOk(null)
    {
    }

    /** InternalFreePooled.  The puddle is given back exactly when it held no other block and is not
        the first one. */
    method InternalFreePooled(memory: int, size: IPtr) returns (ghost p: Puddle?, ghost released: bool)
      requires Valid()
      requires memory != NULL && size > 0 ==> BlockOf(memory, size) in live && memory + size < IPTR_MODULUS
      modifies this`puddles, this`live, sys.Repr, Objects(puddles)
      ensures Valid()
      ensures memory == NULL || size == 0 ==> !released && live == old(live) && puddles == old(puddles)
      ensures memory != NULL && size > 0 ==> live == old(live) - {BlockOf(memory, size)}
      ensures memory != NULL && size > 0 ==> p != null && p in old(puddles) && BlockOf(memory, size) in old(p.used)
      ensures memory != NULL && size > 0 ==> (released <==> p != first && old(p.used) == {BlockOf(memory, size)})
      ensures sys.live == old(sys.live) - (if released then {p.Whole()} else {})
      ensures if released then TakenOff(old(puddles), p, puddles) else puddles == old(puddles)
      ensures Objects(puddles) <= old(Objects(puddles))
    {
      hide TakenOff, Puddle.Valid, MemList.Valid, ShapeOf, AccountsOf, Rounded, Owned, BlockOf, PuddlesOk;
      p, released := null, false;
      if memory == NULL || size == 0 {
        return;
      }
      ghost var b := BlockOf(memory, size);
      p := OwnerOf(memory, size, b);
      FixedCount(p, null);
      InPuddle(p, memory, size, b);
      InObjects(puddles, p);
      var start, freeSize := memory - POINTER_BYTES, size + POINTER_BYTES;
      var mh := owner[start];
      if start < mh.mh.lower || start + freeSize > mh.mh.upper {
        return;
      }
      released := FreeIn(mh, start, freeSize);
    }

    // ---------- the entry points ----------

    /** AllocPooled */
    method AllocPooled(size: IPtr) returns (r: int, ghost created: nat)
      requires Valid() && (size > 0 ==> Reasonable(size + POINTER_BYTES))
      modifies this`puddles, this`owner, this`live, sys.Repr, Objects(puddles)
      ensures Valid()
      ensures r == NULL <==>
          size == 0 || (!old(ListedCanServe(size + POINTER_BYTES)) && !old(SystemCanServe(size + POINTER_BYTES)))
      ensures created == if size > 0 && !old(ListedCanServe(size + POINTER_BYTES)) && r != NULL then 1 else 0
      ensures r >= 0 && (r == NULL ==> live == old(live))
      ensures r != NULL ==> live == old(live) + {BlockOf(r, size)} && BlockOf(r, size) !in old(live)
      ensures created == 0 ==> sys.live == old(sys.live)
      ensures fresh(Objects(puddles) - old(Objects(puddles)))
      ensures r != NULL ==> r + size < IPTR_MODULUS
    {
      hide Pool.Valid, Objects, BlockOf, Overhead, ListedCanServe, SystemCanServe, FirstThatCan, Resorted,
          Puddle.Answered, JoinedAndServed, RoundUp;
      if size == 0 {
        return NULL, 0;
      }
      ghost var p;
      r, created, p := InternalAllocPooled(size);
      if r != NULL {
        BlockEnds(r, size);
      }
    }

    /** Live blocks lie below the end of the address space. */
    lemma BlockEnds(r: int, size: IPtr)
      requires Valid() && BlockOf(r, size) in live && size + POINTER_BYTES + MEMCHUNK_TOTAL <= IPTR_MODULUS
      ensures r + size < IPTR_MODULUS
    {
      hide Puddle.Valid, MemList.Valid, ShapeOf, AccountsOf, Accounts, RoundUp, BlockOf;
      var b := BlockOf(r, size);
      var p := OwnerOf(r, size, b);
      FixedCount(p, null);
      BlockInside(p, b);
      BlockSpan(r, size);
    }

    lemma BlockSpan(r: int, size: IPtr)
      requires size + POINTER_BYTES + MEMCHUNK_TOTAL <= IPTR_MODULUS
      ensures BlockOf(r, size).End() >= r + size
    {
      RoundUpCovers(size + POINTER_BYTES);
    }

    static lemma BlockInside(p: Puddle, b: Block)
      requires p.Valid() && b in p.used
      ensures b.End() <= p.mh.upper < IPTR_MODULUS
    {
      assert GoodBlock(b, p.mh.lower, p.mh.upper);
    }

    /** FreePooled */
    method FreePooled(memory: int, size: IPtr)
      requires Valid()
      requires memory != NULL && size > 0 ==> BlockOf(memory, size) in live && memory + size < IPTR_MODULUS
      modifies this`puddles, this`live, sys.Repr, Objects(puddles)
      ensures Valid()
      ensures live == if memory == NULL || size == 0 then old(live) else old(live) - {BlockOf(memory, size)}
      ensures Objects(puddles) <= old(Objects(puddles))
    {
      if size == 0 || memory == NULL {
        return;
      }
      ghost var p, released;
      p, released := InternalFreePooled(memory, size);
    }

    /** The block behind a pointer from AllocVecPooled. */
    function VecBlockOf(r: int, size: IPtr): Block {
      BlockOf(r - POINTER_BYTES, Wrap(size + POINTER_BYTES))
    }

    /** AllocVecPooled stores the size in front of the block. */
    method AllocVecPooled(size: IPtr) returns (r: int)
      requires Valid() && (size > 0 ==> Reasonable(size + 2 * POINTER_BYTES))
      modifies this`puddles, this`owner, this`live, this`vecSize, sys.Repr, Objects(puddles)
      ensures Valid()
      ensures r == NULL <==>
          size == 0 || (!old(ListedCanServe(size + 2 * POINTER_BYTES)) &&
              !old(SystemCanServe(size + 2 * POINTER_BYTES)))
      ensures r == NULL ==> live == old(live) && vecSize == old(vecSize)
      ensures r != NULL ==> live == old(live) + {VecBlockOf(r, size)} && VecBlockOf(r, size) !in old(live)
      ensures r != NULL ==> vecSize == old(vecSize)[r - POINTER_BYTES := size + POINTER_BYTES]
      ensures r != NULL ==> POINTER_BYTES < r && r + size < IPTR_MODULUS
      ensures fresh(Objects(puddles) - old(Objects(puddles)))
    {
      hide Puddle.Valid, MemList.Valid, ShapeOf, AccountsOf, Owned, BlockOf, PuddlesOk, RoundUp, Overhead, Accounts,
          ListedCanServe, SystemCanServe, NewPuddleSize, Objects;
      NotInside();
      if size == 0 {
        return NULL;
      }
      ghost var created;
      r, created := AllocPooled(size + POINTER_BYTES);
      if r != NULL {
        ObjectsApart();
        vecSize := vecSize[r := size + POINTER_BYTES];
        r := r + POINTER_BYTES;
      }
    }

    /** FreeVecPooled finds the size again that AllocVecPooled was called with. */
    method FreeVecPooled(memory: int, ghost size: IPtr)
      requires Valid()
      requires memory != NULL ==>
          memory - POINTER_BYTES in vecSize && vecSize[memory - POINTER_BYTES] == size + POINTER_BYTES
      requires memory != NULL ==>
          POINTER_BYTES < memory && memory + size < IPTR_MODULUS && VecBlockOf(memory, size) in live
      modifies this`puddles, this`live, sys.Repr, Objects(puddles)
      ensures Valid()
      ensures live == if memory == NULL then old(live) else old(live) - {VecBlockOf(memory, size)}
      ensures Objects(puddles) <= old(Objects(puddles))
    {
      hide Puddle.Valid, MemList.Valid, ShapeOf, AccountsOf, Owned, BlockOf, PuddlesOk, RoundUp, Accounts;
      if memory == NULL {
        return;
      }
      var start := memory - POINTER_BYTES;
      var stored: IPtr := vecSize[start];
      FreePooled(start, stored);
    }

    /** DeletePool: every puddle goes back, the first one last.  What is left of the system's live
        blocks is exactly what was there when the pool was created.  gone is the order in which they go. */
    method DeletePool() returns (ghost gone: seq<Puddle>)
      requires Valid()
      modifies sys.Repr
      ensures sys.Valid() && sys.live == base
      ensures NoDup(gone) && (set p | p in gone) == (set p | p in puddles)
      ensures gone != [] && gone[|gone| - 1] == first
    {
      hide Puddle.Valid, MemList.Valid, ShapeOf, Owned, PuddlesOk, AccountsOf, SortedByPri, Objects, WholesOf;
      var i := 0;
      gone := [];
      FirstListed();
      LeftAtStart(puddles);
      WholesApart();
      while i < |puddles|
        invariant 0 <= i <= |puddles| && sys.Valid() && sys.live == base + Left(puddles, i)
        invariant GoneSoFar(gone, i)
      {
        LeftStep(puddles, i);
        OneMoreGone(gone, i);
        if puddles[i] != first {
          FreePuddle(sys, puddles[i]);
          gone := gone + [puddles[i]];
        }
        i := i + 1;
      }
      assert Left(puddles, i) == {first.Whole()};
      FreePuddle(sys, first);
      AllGone(gone);
      gone := gone + [first];
    }

    /** Of the first i puddles all but the very first of the pool have been freed. */
    ghost predicate GoneSoFar(gone: seq<Puddle>, i: nat)
      requires i <= |puddles|
      reads this`puddles
    {
      NoDup(gone) && (set p | p in gone) == (set p | p in puddles[..i]) - {first}
    }

    lemma OneMoreGone(gone: seq<Puddle>, i: nat)
      requires i < |puddles| && NoDup(puddles) && GoneSoFar(gone, i)
      ensures GoneSoFar(if puddles[i] != first then gone + [puddles[i]] else gone, i + 1)
    {
      var p := puddles[i];
      assert puddles[..i + 1] == puddles[..i] + [p];
      assert p !in puddles[..i];
      assert p !in (set q | q in puddles[..i]);
      assert (set q | q in gone + [p]) == (set q | q in gone) + {p};
    }

    lemma AllGone(gone: seq<Puddle>)
      requires GoneSoFar(gone, |puddles|) && first in puddles
      ensures NoDup(gone + [first]) && (set p | p in gone + [first]) == (set p | p in puddles)
    {
      assert puddles[..|puddles|] == puddles;
      assert first !in (set p | p in gone);
      assert (set p | p in gone + [first]) == (set p | p in gone) + {first};
    }

    /** The blocks that DeletePool has not given back after i rounds. */
    ghost function Left(s: seq<Puddle>, i: nat): set<Block> {
      (set k | i <= k < |s| :: s[k].Whole()) + {first.Whole()}
    }

    ghost predicate DistinctWholes(s: seq<Puddle>)
      reads this`base
    {
      && first in s && NoDup(s)
      && (forall p :: p in s ==> p.Whole() !in base)
      && (forall p, q :: p in s && q in s && p != q ==> p.Whole() != q.Whole())
    }

    lemma WholesApart()
      requires Shape() && AccountsOf(puddles)
      ensures DistinctWholes(puddles) && sys.live == base + WholesOf(puddles)
    {
    }

    lemma LeftAtStart(s: seq<Puddle>)
      requires first in s
      ensures Left(s, 0) == WholesOf(s)
    {
      assert forall k :: 0 <= k < |s| ==> s[k] in s;
    }

    lemma LeftStep(s: seq<Puddle>, i: nat)
      requires DistinctWholes(s) && i < |s|
      ensures s[i].Whole() in Left(s, i)
      ensures Left(s, i + 1) == if s[i] == first then Left(s, i) else Left(s, i) - {s[i].Whole()}
      ensures s[i].Whole() !in base && first.Whole() !in base && first.Whole() in Left(s, i)
    {
      assert s[i] in s;
      forall k | i < k < |s|
        ensures s[k].Whole() != s[i].Whole()
      {
        assert s[k] in s && s[k] != s[i];
      }
      assert (set k | i <= k < |s| :: s[k].Whole()) == (set k | i + 1 <= k < |s| :: s[k].Whole()) + {s[i].Whole()};
    }
  }

  /** A block starts with the pointer to its puddle, so it starts on a granule. */
  lemma FrontPointer(memory: int, size: IPtr, b: Block, lo: int)
    requires b == Block(memory - POINTER_BYTES, RoundUp(Wrap(size + POINTER_BYTES))) && Aligned(b.addr) &&
        0 < lo <= b.addr
    requires memory + size < IPTR_MODULUS && size > 0
    ensures size + POINTER_BYTES < IPTR_MODULUS && Rounded(memory - POINTER_BYTES, size + POINTER_BYTES) == b
    ensures memory + size <= b.End()
  {
    RoundUpCovers(size + POINTER_BYTES);
  }

  /** A new header with its index context. */
  method FreshPuddle(addr: int, mh: MemHeader, size: IPtr, memSize: IPtr) returns (p: Puddle)
    requires mh.Valid() && mh.lower == addr + MEMHEADER_TOTAL && mh.upper == addr + size
    requires mh.blocks == [Block(mh.lower, size - MEMHEADER_TOTAL)] && size - Overhead() >= RoundUp(memSize) > 0
    modifies mh
    ensures p.Valid() && fresh(p) && fresh(p.ctx) && fresh(p.ctx.prevChunks) && p.mh == mh && p.addr == addr &&
        p.used == {}
    ensures |p.fixed| == 1 && Fits(mh.blocks, RoundUp(memSize))
    ensures mh.blocks == [Block(mh.lower + CtxSize(), mh.upper - mh.lower - CtxSize())]
  {
    NothingLive(mh, size - MEMHEADER_TOTAL);
    hide Tiled, Cells, RoundUp, MemHeader.Valid, Puddle.Valid, FreeSet;
    p := SetUpPuddle(addr, mh, {}, mh.lower, size - MEMHEADER_TOTAL);
    assert mh.blocks[0].bytes >= RoundUp(memSize);
    assert p.fixed == {Block(mh.lower, CtxSize())};
  }

  lemma NothingLive(mh: MemHeader, n: int)
    requires mh.blocks == [Block(mh.lower, n)] && n == mh.upper - mh.lower
    ensures Tiled(Cells(mh.lower, mh.upper - mh.lower), mh.FreeCells(), {})
  {
    OneBlock(Block(mh.lower, n));
    assert LiveCells({}) == {};
  }
}
