/** The system allocator without MMU: a list of memory headers. */
module MemoryList {
  import opened FreeList
  import opened MemoryIndex
  import opened ChunkLinks
  import opened Memory
  import opened Tiling

  ghost function Union(sets: seq<set<int>>): set<int> {
    set i, a | 0 <= i < |sets| && a in sets[i] :: a
  }

  ghost predicate Apart(sets: seq<set<int>>) {
    forall i, j :: 0 <= i < |sets| && 0 <= j < |sets| && i != j ==> sets[i] !! sets[j]
  }

  lemma UnionTake(sets: seq<set<int>>, i: nat, x: set<int>)
    requires i < |sets| && Apart(sets) && x <= sets[i]
    ensures x <= Union(sets) && Union(sets[i := sets[i] - x]) == Union(sets) - x
  {
    var now := sets[i := sets[i] - x];
    forall a | a in x
      ensures a in Union(sets)
    {
      assert a in sets[i];
    }
    forall a
      ensures a in Union(now) <==> a in Union(sets) && a !in x
    {
      if a in Union(sets) && a !in x {
        var j :| 0 <= j < |sets| && a in sets[j];
        assert a in now[j];
      }
    }
  }

  lemma UnionGive(sets: seq<set<int>>, i: nat, x: set<int>)
    requires i < |sets|
    ensures Union(sets[i := sets[i] + x]) == Union(sets) + x
  {
    var now := sets[i := sets[i] + x];
    forall a
      ensures a in Union(now) <==> a in Union(sets) || a in x
    {
      assert a in x ==> a in now[i];
      if a in Union(sets) {
        var j :| 0 <= j < |sets| && a in sets[j];
        assert a in now[j];
      }
    }
  }

  /** Block b is taken from the free granules sets[i]. */
  lemma TookBlock(arena: set<int>, sets: seq<set<int>>, i: nat, b: Block, live: set<Block>)
    requires i < |sets| && Apart(sets) && Tiled(arena, Union(sets), live)
    requires b.bytes > 0 && Aligned(b.addr) && BlockCells(b) <= sets[i]
    ensures b !in live && Tiled(arena, Union(sets[i := sets[i] - BlockCells(b)]), live + {b})
  {
    assert b.addr in BlockCells(b);
    UnionTake(sets, i, BlockCells(b));
    TakeTiled(arena, Union(sets), live, b);
  }

  /** A stretch b of live granules goes back to the free granules sets[i]. */
  lemma GaveStretch(arena: set<int>, sets: seq<set<int>>, i: nat, b: Block, live: set<Block>)
    requires i < |sets| && Tiled(arena, Union(sets), live) && Granular(b) && forall x :: x in live ==> Granular(x)
    requires BlockCells(b) <= arena && BlockCells(b) !! Union(sets)
    ensures Tiled(arena, Union(sets[i := sets[i] + BlockCells(b)]), Without(live, b))
    ensures b in live ==> Without(live, b) == live - {b}
    ensures forall p :: p in Without(live, b) ==>
        Granular(p) && exists x :: x in live && x.addr <= p.addr && p.End() <= x.End()
  {
    hide BlockCells, Granular, Without;
    UnionGive(sets, i, BlockCells(b));
    PartTiled(arena, Union(sets), live, b);
  }

  datatype FreeOutcome = Freed | NothingToFree | FreeTwice | BadFreeAddr

  /** The whole granules around a stretch of memory. */
  function Rounded(addr: int, byteSize: IPtr): Block {
    Block(RoundDown(addr), Covering(addr, byteSize))
  }

  class MemList {
    /** SysBase->MemList, in list order, and the index context of each header. */
    const headers: seq<MemHeader>
    const ctxs: seq<AllocatorCtx>
    ghost var live: set<Block>

    ghost const Repr: set<object> :=
      {this as object} + (set h: MemHeader | h in headers :: h as object)
      + (set c: AllocatorCtx | c in ctxs :: c as object) + (set c: AllocatorCtx | c in ctxs :: c.prevChunks as object)

    ghost predicate Distinct() {
      && |headers| == |ctxs|
      && (forall i, j :: 0 <= i < |headers| && 0 <= j < |headers| && i != j ==> headers[i] != headers[j])
      && (forall i, j :: 0 <= i < |headers| && 0 <= j < |headers| && i != j ==>
            ctxs[i] != ctxs[j] && ctxs[i].prevChunks != ctxs[j].prevChunks)
    }

    ghost function Arena(i: int): set<int>
      requires 0 <= i < |headers|
    {
      Cells(headers[i].lower, headers[i].upper - headers[i].lower)
    }

    ghost function Arenas(): seq<set<int>> {
      seq(|headers|, i requires 0 <= i < |headers| => Arena(i))
    }

    ghost function FreeSets(): seq<set<int>>
      reads headers
    {
      seq(|headers|, i requires 0 <= i < |headers| reads headers => headers[i].FreeCells())
    }

    ghost predicate HeaderOk(i: int)
      requires 0 <= i < |headers| == |ctxs|
      reads headers[i], ctxs[i], ctxs[i].prevChunks
    {
      headers[i].Valid() && headers[i].Indexed(ctxs[i])
    }

    ghost predicate Valid()
      reads this, headers, ctxs, set i | 0 <= i < |ctxs| :: ctxs[i].prevChunks
    {
      && Distinct() && Apart(Arenas())
      && (forall i :: 0 <= i < |headers| ==> HeaderOk(i))
      && Tiled(Union(Arenas()), Union(FreeSets()), live)
      && (forall b :: b in live ==> exists i :: 0 <= i < |headers| && Holds(i, b))
    }

    constructor (headers: seq<MemHeader>, ctxs: seq<AllocatorCtx>, ghost live: set<Block>)
      requires |headers| == |ctxs|
      requires forall i, j :: 0 <= i < |headers| && 0 <= j < |headers| && i != j ==> headers[i] != headers[j]
      requires forall i, j :: 0 <= i < |headers| && 0 <= j < |headers| && i != j ==>
                 ctxs[i] != ctxs[j] && ctxs[i].prevChunks != ctxs[j].prevChunks
      requires forall i, j :: 0 <= i < |headers| && 0 <= j < |headers| && i != j ==>
                 headers[i].upper <= headers[j].lower || headers[j].upper <= headers[i].lower
      requires forall i :: 0 <= i < |headers| ==> headers[i].Valid() && headers[i].Indexed(ctxs[i])
      requires forall b :: b in live ==>
          exists i :: 0 <= i < |headers| && GoodBlock(b, headers[i].lower, headers[i].upper)
      requires Tiled(
          Union(seq(|headers|, i requires 0 <= i < |headers| =>
            Cells(headers[i].lower, headers[i].upper - headers[i].lower))),
          Union(seq(|headers|, i requires 0 <= i < |headers| reads headers => headers[i].FreeCells())),
          live)
      ensures Valid() && this.live == live && this.headers == headers && this.ctxs == ctxs
    {
      this.headers, this.ctxs, this.live := headers, ctxs, live;
      new;
      assert Arenas() == seq(|headers|,
          i requires 0 <= i < |headers| => Cells(headers[i].lower, headers[i].upper - headers[i].lower));
      assert FreeSets() == seq(|headers|, i requires 0 <= i < |headers| reads headers => headers[i].FreeCells());
      forall b | b in live
        ensures exists i :: 0 <= i < |headers| && Holds(i, b)
      {
        var i :| 0 <= i < |headers| && GoodBlock(b, headers[i].lower, headers[i].upper);
        assert Holds(i, b);
      }
    }

    /** Every header's free granules lie in its own arena. */
    lemma FreeInArena(i: int)
      requires 0 <= i < |headers| == |ctxs| && HeaderOk(i)
      ensures headers[i].FreeCells() <= Arena(i)
    {
      FreeSetBounds(headers[i].blocks, headers[i].lower, headers[i].upper);
    }

    lemma FreeApart()
      requires Valid()
      ensures Apart(FreeSets())
    {
      forall i | 0 <= i < |headers|
        ensures FreeSets()[i] <= Arenas()[i]
      {
        assert HeaderOk(i);
        FreeInArena(i);
      }
    }

    /** Only header i and its index changed; the others are as they were. */
    twostate lemma OthersOk(i: int)
      requires 0 <= i < |headers| && Distinct()
      requires forall j :: 0 <= j < |headers| && j != i ==>
                 unchanged(headers[j]) && unchanged(ctxs[j]) && unchanged(ctxs[j].prevChunks)
      requires forall j :: 0 <= j < |headers| ==> old(HeaderOk(j))
      requires HeaderOk(i)
      ensures forall j :: 0 <= j < |headers| ==> HeaderOk(j)
      ensures FreeSets() == old(FreeSets())[i := headers[i].FreeCells()]
    {
      forall j | 0 <= j < |headers|
        ensures HeaderOk(j)
      {
        assert old(HeaderOk(j));
      }
    }

    ghost predicate Holds(i: int, b: Block)
      requires 0 <= i < |headers|
    {
      GoodBlock(b, headers[i].lower, headers[i].upper)
    }

    ghost predicate AllOk()
      reads headers, ctxs, set i | 0 <= i < |ctxs| :: ctxs[i].prevChunks
    {
      Distinct() && forall i :: 0 <= i < |headers| ==> HeaderOk(i)
    }

    /** On header i the request was granted, or turned down with r NULL. */
    twostate predicate Granted(i: int, byteSize: int, reverse: bool, r: int)
      requires 0 <= i < |headers| == |ctxs| && 0 <= byteSize < IPTR_MODULUS
      reads headers[i], ctxs[i], ctxs[i].prevChunks
    {
      var now, entries := headers[i].blocks, Entries(ctxs[i]);
      old(headers[i].Grants(ctxs[i], byteSize, reverse, r, now, entries))
    }

    /** stdAlloc on header i and its index, which leaves the other headers alone. */
    method AllocOn(i: nat, byteSize: IPtr, reverse: bool) returns (r: int)
      requires AllOk() && i < |headers| && headers[i].free >= byteSize && byteSize < LONG_LIMIT
      modifies headers[i], ctxs[i].prevChunks
      ensures AllOk() && FreeSets() == old(FreeSets())[i := headers[i].FreeCells()]
      ensures r != NULL <==> Fits(old(headers[i].blocks), RoundUp(byteSize))
      ensures r == NULL || byteSize == 0 ==>
          headers[i].blocks == old(headers[i].blocks) && headers[i].free == old(headers[i].free)
      ensures r != NULL && byteSize > 0 ==>
        && GoodBlock(Block(r, RoundUp(byteSize)), headers[i].lower, headers[i].upper)
        && Cells(r, RoundUp(byteSize)) <= old(headers[i].FreeCells())
        && headers[i].FreeCells() == old(headers[i].FreeCells()) - Cells(r, RoundUp(byteSize))
      ensures Granted(i, byteSize, reverse, r)
    {
      hide RoundUp, Wf, Linked, Take, Cells, FreeSet, Inside, Aligned, Fits, GoodBlock, AfterAlloc, IsChosen,
          MemHeader.StartsAt, Entries, Cleared, IsFirstFit, FitsFrom, FitsBefore, Serves;
      RequestBytes(byteSize);
      assert HeaderOk(i);
      ghost var k, k0;
      r, k, k0 := headers[i].StdAlloc(ctxs[i], byteSize, reverse);
      ghost var now, entries := headers[i].blocks, Entries(ctxs[i]);
      assert old(headers[i].Grants(ctxs[i], byteSize, reverse, r, now, entries));
      OthersOk(i);
    }

    /** stdAlloc on header i takes its granules out of those of the whole list. */
    method AllocFrom(i: nat, byteSize: IPtr, reverse: bool) returns (r: int)
      requires Valid() && i < |headers| && headers[i].free >= byteSize && byteSize < LONG_LIMIT
      modifies this`live, headers[i], ctxs[i].prevChunks
      ensures Valid()
      ensures r != NULL <==> Fits(old(headers[i].blocks), RoundUp(byteSize))
      ensures r == NULL || byteSize == 0 ==>
          live == old(live) && headers[i].blocks == old(headers[i].blocks) && headers[i].free == old(headers[i].free)
      ensures r != NULL && byteSize > 0 ==>
          live == old(live) + {Block(r, RoundUp(byteSize))} && Block(r, RoundUp(byteSize)) !in old(live)
      ensures r != NULL && byteSize > 0 ==> GoodBlock(Block(r, RoundUp(byteSize)), headers[i].lower, headers[i].upper)
      ensures Granted(i, byteSize, reverse, r)
    {
      hide Valid, Granted, HeaderOk, RoundUp, Cells, Fits, GoodBlock, Apart;
      InOrder();
      FreeApart();
      r := AllocOn(i, byteSize, reverse);
      if r != NULL && byteSize > 0 {
        live := live + {Block(r, RoundUp(byteSize))};
      }
      TookFrom(i, byteSize, r);
    }

    lemma InOrder()
      requires Valid()
      ensures AllOk() && Distinct()
    {
    }

    static lemma BlockAligned(b: Block, lo: int, hi: int)
      requires GoodBlock(b, lo, hi)
      ensures Aligned(b.addr) && b.bytes > 0
    {
    }

    /** stdAlloc on header i leaves the arenas tiled. */
    twostate lemma TookFrom(new i: int, new byteSize: int, new r: int)
      requires old(Valid()) && old(Apart(FreeSets())) && AllOk() && 0 <= i < |headers| && 0 <= byteSize < LONG_LIMIT
      requires FreeSets() == old(FreeSets())[i := headers[i].FreeCells()]
      requires r == NULL || byteSize == 0 ==> headers[i].blocks == old(headers[i].blocks) && live == old(live)
      requires r != NULL && byteSize > 0 ==>
        && live == old(live) + {Block(r, RoundUp(byteSize))}
        && GoodBlock(Block(r, RoundUp(byteSize)), headers[i].lower, headers[i].upper)
        && Cells(r, RoundUp(byteSize)) <= old(headers[i].FreeCells())
        && headers[i].FreeCells() == old(headers[i].FreeCells()) - Cells(r, RoundUp(byteSize))
      ensures Valid() && (r != NULL && byteSize > 0 ==> Block(r, RoundUp(byteSize)) !in old(live))
    {
      hide RoundUp, Union, Tiled, Apart, Cells, HeaderOk;
      if r != NULL && byteSize > 0 {
        RequestBytes(byteSize);
        BlockAligned(Block(r, RoundUp(byteSize)), headers[i].lower, headers[i].upper);
        hide Aligned, GoodBlock;
        TookBlock(Union(Arenas()), old(FreeSets()), i, Block(r, RoundUp(byteSize)), old(live));
        assert Holds(i, Block(r, RoundUp(byteSize)));
      } else {
        assert FreeSets() == old(FreeSets());
      }
    }

    /** Header i has the requested properties and, by its count, enough free memory. */
    ghost predicate Asked(i: int, byteSize: int, requirements: set<int>)
      requires 0 <= i < |headers|
      reads headers[i]
    {
      requirements <= headers[i].attributes && headers[i].free >= byteSize
    }

    /** Header j and its index are as they were. */
    twostate predicate Same(j: int)
      requires 0 <= j < |headers| == |ctxs|
      reads headers[j], ctxs[j], ctxs[j].prevChunks
    {
      headers[j].blocks == old(headers[j].blocks) && headers[j].free == old(headers[j].free) &&
      Entries(ctxs[j]) == old(Entries(ctxs[j]))
    }

    /** Header j answers the request with r, or is not in question. */
    twostate predicate Answered(j: int, byteSize: int, requirements: set<int>, reverse: bool, r: int)
      requires 0 <= j < |headers| == |ctxs| && 0 <= byteSize < IPTR_MODULUS
      reads headers[j], ctxs[j], ctxs[j].prevChunks
    {
      if old(Asked(j, byteSize, requirements)) then Granted(j, byteSize, reverse, r) else r == NULL && Same(j)
    }

    /** The attempt of nommu_AllocMem on header i. */
    method AllocNext(i: nat, byteSize: IPtr, requirements: set<int>, reverse: bool) returns (r: int)
      requires Valid() && i < |headers| == |ctxs| && Answers(byteSize, requirements)
      modifies this`live, headers[i], ctxs[i].prevChunks
      ensures Valid()
      ensures r != NULL <==> old(Eligible(i, byteSize, requirements))
      ensures r == NULL || byteSize == 0 ==> live == old(live)
      ensures r == NULL ==> headers[i].blocks == old(headers[i].blocks) && headers[i].free == old(headers[i].free)
      ensures r != NULL && byteSize > 0 ==>
          live == old(live) + {Block(r, RoundUp(byteSize))} && Block(r, RoundUp(byteSize)) !in old(live)
      ensures r != NULL && byteSize > 0 ==> Holds(i, Block(r, RoundUp(byteSize)))
      ensures Answered(i, byteSize, requirements, reverse, r)
    {
      hide Granted, RoundUp, GoodBlock, Fits, Entries, Valid;
      r := NULL;
      var mh := headers[i];
      if requirements <= mh.attributes && mh.free >= byteSize {
        r := AllocFrom(i, byteSize, reverse);
      }
    }

    /** nommu_AllocMem; i is the header that serves the request, the first eligible one.  Those in front of it that
        are in question turn the request down, and nothing else changes.  A request that is negative as a LONG and
        not larger than the free memory of an eligible header would keep mhac_CalcIndex in its loop. */
    method AllocMem(byteSize: IPtr, requirements: set<int>, reverse: bool) returns (r: int, ghost i: nat)
      requires Valid()
      requires Answers(byteSize, requirements)
      modifies this`live, headers, set i | 0 <= i < |ctxs| :: ctxs[i].prevChunks
      ensures Valid() && |ctxs| == |headers|
      ensures r != NULL <==> old(Available(byteSize, requirements))
      ensures r == NULL || byteSize == 0 ==> live == old(live)
      ensures r != NULL && byteSize > 0 ==>
          live == old(live) + {Block(r, RoundUp(byteSize))} && Block(r, RoundUp(byteSize)) !in old(live)
      ensures if r == NULL then i == |headers| else i < |headers| && old(Eligible(i, byteSize, requirements))
      ensures r != NULL && byteSize > 0 ==>
          requirements <= headers[i].attributes && Holds(i, Block(r, RoundUp(byteSize)))
      ensures forall j :: 0 <= j < i ==>
          !old(Eligible(j, byteSize, requirements)) && Answered(j, byteSize, requirements, reverse, NULL)
      ensures r != NULL ==> Answered(i, byteSize, requirements, reverse, r)
      ensures forall j :: i < j < |headers| ==> Same(j)
    {
      hide MemHeader.Grants, RoundUp, GoodBlock, Fits, Entries, Valid;
      InOrder();
      r := NULL;
      i := 0;
      var n := 0;
      while n < |headers|
        invariant 0 <= n == i <= |headers| && r == NULL
        invariant Valid() && live == old(live) && Answers(byteSize, requirements)
        invariant forall j :: n <= j < |headers| ==>
            unchanged(headers[j]) && unchanged(ctxs[j]) && unchanged(ctxs[j].prevChunks)
        invariant forall j :: 0 <= j < n ==> headers[j].free == old(headers[j].free)
        invariant forall j :: 0 <= j < n ==>
            !old(Eligible(j, byteSize, requirements)) && Answered(j, byteSize, requirements, reverse, NULL)
      {
        label Before:
        r := AllocNext(n, byteSize, requirements, reverse);
        ghost var now, entries := headers[n].blocks, Entries(ctxs[n]);
        assert old(headers[n].Grants(ctxs[n], byteSize, reverse, r, now, entries)) ==
            old@Before(headers[n].Grants(ctxs[n], byteSize, reverse, r, now, entries));
        assert Answered(n, byteSize, requirements, reverse, r);
        if r != NULL {
          return;
        }
        n, i := n + 1, i + 1;
      }
    }

    /** nommu_AllocMem comes back: the request is not negative as a LONG, or larger than the free memory of
        every header with the requested properties. */
    ghost predicate Answers(byteSize: IPtr, requirements: set<int>)
      reads headers
    {
      byteSize < LONG_LIMIT || forall i :: 0 <= i < |headers| && requirements <= headers[i].attributes ==>
          headers[i].free < byteSize
    }

    /** No header spans 2^31 bytes. */
    predicate Small() {
      forall i :: 0 <= i < |headers| ==> headers[i].upper - headers[i].lower < LONG_LIMIT
    }

    lemma SmallAnswers(byteSize: IPtr, requirements: set<int>)
      requires Valid() && Small()
      ensures Answers(byteSize, requirements)
    {
      forall i | 0 <= i < |headers|
        ensures headers[i].free < LONG_LIMIT
      {
        assert HeaderOk(i);
        headers[i].HeaderIsSane();
      }
    }

    /** Header i has the requested properties and a chunk that is large enough. */
    ghost predicate Eligible(i: int, byteSize: IPtr, requirements: set<int>)
      requires 0 <= i < |headers|
      reads headers[i]
    {
      requirements <= headers[i].attributes && headers[i].free >= byteSize && Fits(headers[i].blocks, RoundUp(byteSize))
    }

    /** Some header can serve the request. */
    ghost predicate Available(byteSize: IPtr, requirements: set<int>)
      reads headers
    {
      exists i :: 0 <= i < |headers| && Eligible(i, byteSize, requirements)
    }

    /** The first header whose bounds hold the given stretch. */
    method FindHeader(lo: int, hi: int) returns (i: nat)
      ensures i <= |headers|
      ensures i < |headers| ==> headers[i].lower <= lo && hi <= headers[i].upper
      ensures forall j :: 0 <= j < i ==> !(headers[j].lower <= lo && hi <= headers[j].upper)
    {
      i := 0;
      while i < |headers|
        invariant i <= |headers|
        invariant forall j :: 0 <= j < i ==> !(headers[j].lower <= lo && hi <= headers[j].upper)
      {
        if headers[i].lower <= lo && headers[i].upper >= hi {
          return;
        }
        i := i + 1;
      }
    }

    /** FindMem: the header an address belongs to. */
    method FindMem(address: int) returns (i: nat)
      ensures i <= |headers|
      ensures i < |headers| ==> headers[i].lower <= address < headers[i].upper
      ensures i == |headers| ==> forall j :: 0 <= j < |headers| ==> !(headers[j].lower <= address < headers[j].upper)
    {
      i := 0;
      while i < |headers|
        invariant i <= |headers|
        invariant forall j :: 0 <= j < i ==> !(headers[j].lower <= address < headers[j].upper)
      {
        if address >= headers[i].lower && address < headers[i].upper {
          return;
        }
        i := i + 1;
      }
    }

    /** FindMem finds the header that served a request. */
    lemma FoundMem(addr: int, size: IPtr, i: nat, j: nat)
      requires Valid() && size > 0 && i <= |headers| && j < |headers| && Holds(j, Block(addr, size))
      requires i < |headers| ==> headers[i].lower <= addr < headers[i].upper
      requires i == |headers| ==> forall j :: 0 <= j < |headers| ==> !(headers[j].lower <= addr < headers[j].upper)
      ensures i == j && 0 < addr && addr + size < IPTR_MODULUS
    {
      assert HeaderOk(j) && i < |headers| && HeaderOk(i);
      assert addr in Arenas()[i] && addr in Arenas()[j];
    }

    /** A stretch inside two headers' bounds would be in two arenas. */
    lemma OneHeader(i: nat, j: nat, lo: int, n: IPtr)
      requires Valid() && i < |headers| && j < |headers| && n > 0
      requires headers[i].lower <= lo && lo + n <= headers[i].upper
      requires headers[j].lower <= lo && lo + n <= headers[j].upper
      ensures i == j
    {
      assert HeaderOk(i) && HeaderOk(j);
      CoveringBlock(lo, n, headers[i].lower, headers[i].upper);
      CoveringBlock(lo, n, headers[j].lower, headers[j].upper);
      assert RoundDown(lo) in Arenas()[i] && RoundDown(lo) in Arenas()[j];
    }

    /** nommu_AllocAbs on header i and its index. */
    method AbsOn(i: nat, location: int, byteSize: IPtr) returns (r: int)
      requires AllOk() && i < |headers| && byteSize > 0
      requires headers[i].lower <= location && location + byteSize <= headers[i].upper
      modifies headers[i], ctxs[i].prevChunks
      ensures AllOk() && FreeSets() == old(FreeSets())[i := headers[i].FreeCells()]
      ensures r != NULL <==> Cells(RoundDown(location), Covering(location, byteSize)) <= old(headers[i].FreeCells())
      ensures r == NULL ==> headers[i].FreeCells() == old(headers[i].FreeCells())
      ensures r != NULL ==> r == RoundDown(location)
      ensures r != NULL ==>
          headers[i].FreeCells() ==
            old(headers[i].FreeCells()) - Cells(RoundDown(location), Covering(location, byteSize))
    {
      hide RoundDown, Covering, Wf, Linked, Cells, FreeSet, Take, Inside;
      assert HeaderOk(i);
      ghost var k;
      r, k := headers[i].AllocAbs(ctxs[i], location, byteSize);
      OthersOk(i);
    }

    /** nommu_AllocAbs; its caller AllocAbs turns requests for no bytes away. */
    method AllocAbs(location: int, byteSize: IPtr) returns (r: int)
      requires Valid() && byteSize > 0 && location + byteSize < IPTR_MODULUS
      modifies this`live, headers, set i | 0 <= i < |ctxs| :: ctxs[i].prevChunks
      ensures Valid()
      ensures r != NULL <==> exists i :: 0 <= i < |headers| && old(FreeAt(i, location, byteSize))
      ensures r == NULL ==> live == old(live)
      ensures r != NULL ==> r == RoundDown(location)
      ensures r != NULL ==>
          live == old(live) + {Rounded(location, byteSize)} && Rounded(location, byteSize) !in old(live)
    {
      var i := FindHeader(location, location + byteSize);
      if i == |headers| {
        return NULL;
      }
      forall j | 0 <= j < |headers| && old(FreeAt(j, location, byteSize))
        ensures j == i
      {
        OneHeader(i, j, location, byteSize);
      }
      r := AbsFrom(i, location, byteSize);
      assert r != NULL ==> old(FreeAt(i, location, byteSize));
    }

    /** The free granules of header i hold the rounded stretch. */
    ghost predicate FreeAt(i: int, location: int, byteSize: IPtr)
      requires 0 <= i < |headers|
      reads headers[i]
    {
      && headers[i].lower <= location && location + byteSize <= headers[i].upper
      && BlockCells(Rounded(location, byteSize)) <= headers[i].FreeCells()
    }

    method AbsFrom(i: nat, location: int, byteSize: IPtr) returns (r: int)
      requires Valid() && i < |headers| && byteSize > 0
      requires headers[i].lower <= location && location + byteSize <= headers[i].upper
      modifies this`live, headers[i], ctxs[i].prevChunks
      ensures Valid()
      ensures r != NULL <==> old(FreeAt(i, location, byteSize))
      ensures r == NULL ==> live == old(live)
      ensures r != NULL ==> r == RoundDown(location)
      ensures r != NULL ==>
          live == old(live) + {Rounded(location, byteSize)} && Rounded(location, byteSize) !in old(live)
    {
      FreeApart();
      assert HeaderOk(i);
      ghost var sets, b := FreeSets(), Rounded(location, byteSize);
      CoveringBlock(location, byteSize, headers[i].lower, headers[i].upper);
      hide RoundDown, Covering, Union, Tiled, Apart, Cells, HeaderOk, Aligned;
      r := AbsOn(i, location, byteSize);
      if r != NULL {
        TookBlock(Union(Arenas()), sets, i, b, live);
        live := live + {b};
        assert Holds(i, b);
      } else {
        assert FreeSets() == sets;
      }
    }

    /** stdDealloc on header i and its index. */
    method FreeOn(i: nat, addr: int, byteSize: IPtr) returns (alert: bool)
      requires AllOk() && i < |headers| && byteSize > 0
      requires headers[i].lower <= addr && addr + byteSize <= headers[i].upper
      modifies headers[i], ctxs[i].prevChunks
      ensures AllOk() && FreeSets() == old(FreeSets())[i := headers[i].FreeCells()]
      ensures alert <==> !(BlockCells(Rounded(addr, byteSize)) !! old(headers[i].FreeCells()))
      ensures alert ==> headers[i].FreeCells() == old(headers[i].FreeCells())
      ensures !alert ==> headers[i].FreeCells() == old(headers[i].FreeCells()) + BlockCells(Rounded(addr, byteSize))
    {
      hide RoundDown, Covering, Wf, Linked, Cells, FreeSet, AfterGive, Give, Between, Entries;
      assert HeaderOk(i);
      ghost var k;
      alert, k := headers[i].StdDealloc(ctxs[i], addr, byteSize);
      OthersOk(i);
    }

    /** Live blocks are not free, and they lie inside the bounds of some header. */
    lemma LiveHeld(addr: int, byteSize: IPtr)
      requires Valid() && addr + byteSize < IPTR_MODULUS && byteSize > 0 && Rounded(addr, byteSize) in live
      ensures InBounds(addr, byteSize) && BlockCells(Rounded(addr, byteSize)) !! Union(FreeSets())
    {
      var i :| 0 <= i < |headers| && Holds(i, Rounded(addr, byteSize));
      assert HeaderOk(i);
      RoundedCovers(addr, byteSize, headers[i].lower, headers[i].upper);
    }

    /** The stretch lies inside the bounds of one header. */
    ghost predicate InBounds(addr: int, byteSize: IPtr) {
      exists i :: 0 <= i < |headers| && headers[i].lower <= addr && addr + byteSize <= headers[i].upper
    }

    /** What overlaps free memory inside header i overlaps that header's free memory. */
    lemma OverlapHere(i: nat, b: Block)
      requires Valid() && i < |headers| && Holds(i, b)
      ensures BlockCells(b) !! FreeSets()[i] <==> BlockCells(b) !! Union(FreeSets())
      ensures BlockCells(b) <= Union(Arenas()) && Granular(b)
    {
      forall j, a | 0 <= j < |headers| && j != i && a in FreeSets()[j]
        ensures a !in BlockCells(b)
      {
        assert HeaderOk(j);
        FreeInArena(j);
        assert a in Arenas()[j];
        assert BlockCells(b) <= Arenas()[i];
      }
      assert forall a :: a in FreeSets()[i] ==> a in Union(FreeSets());
      assert forall a :: a in Arenas()[i] ==> a in Union(Arenas());
    }

    lemma LiveGranular()
      requires Valid()
      ensures forall x :: x in live ==> Granular(x)
    {
      forall x | x in live
        ensures Granular(x)
      {
        var i :| 0 <= i < |headers| && Holds(i, x);
      }
    }

    /** What is left of a live block lies where the block lay. */
    lemma PartsHeld(rest: set<Block>)
      requires Valid()
      requires forall p :: p in rest ==>
          Granular(p) && exists x :: x in live && x.addr <= p.addr && p.End() <= x.End()
      ensures forall p :: p in rest ==> exists i :: 0 <= i < |headers| && Holds(i, p)
    {
      forall p | p in rest
        ensures exists i :: 0 <= i < |headers| && Holds(i, p)
      {
        var x :| x in live && x.addr <= p.addr && p.End() <= x.End();
        var i :| 0 <= i < |headers| && Holds(i, x);
        assert Holds(i, p);
      }
    }

    /** nommu_FreeMem on the header that was found. */
    method FreeFrom(i: nat, addr: int, byteSize: IPtr) returns (outcome: FreeOutcome)
      requires Valid() && i < |headers| && byteSize > 0
      requires headers[i].lower <= addr && addr + byteSize <= headers[i].upper
      modifies this`live, headers[i], ctxs[i].prevChunks
      ensures Valid()
      ensures outcome == if BlockCells(Rounded(addr, byteSize)) !! old(Union(FreeSets())) then Freed else FreeTwice
      ensures outcome == Freed ==> live == Without(old(live), Rounded(addr, byteSize))
      ensures Rounded(addr, byteSize) in old(live) ==>
          Without(old(live), Rounded(addr, byteSize)) == old(live) - {Rounded(addr, byteSize)}
      ensures outcome != Freed ==> live == old(live) && FreeSets() == old(FreeSets())
    {
      ghost var sets, b := FreeSets(), Rounded(addr, byteSize);
      assert HeaderOk(i);
      CoveringBlock(addr, byteSize, headers[i].lower, headers[i].upper);
      assert Holds(i, b);
      OverlapHere(i, b);
      LiveGranular();
      LiveNotFree(b);
      hide RoundDown, Covering, Rounded, Union, Tiled, Apart, Cells, BlockCells, HeaderOk, Holds, Aligned, Granular,
          Without;
      if BlockCells(b) !! Union(sets) {
        GaveStretch(Union(Arenas()), sets, i, b, live);
        PartsHeld(Without(live, b));
      }
      var alert := FreeOn(i, addr, byteSize);
      if alert {
        assert FreeSets() == sets;
        return FreeTwice;
      }
      live := Without(live, b);
      outcome := Freed;
    }

    lemma LiveNotFree(b: Block)
      requires Valid()
      ensures b in live ==> BlockCells(b) !! Union(FreeSets())
      ensures forall x :: x in live && b in live && x != b ==> BlockCells(x) !! BlockCells(b)
    {
    }

    /** nommu_FreeMem of any stretch: nothing for no bytes, an alert when no header holds it or when part
        of it is free, and else its granules are no longer live, whichever blocks they were part of. */
    method FreeMem(addr: int, byteSize: IPtr) returns (outcome: FreeOutcome)
      requires Valid() && addr + byteSize < IPTR_MODULUS
      modifies this`live, headers, set i | 0 <= i < |ctxs| :: ctxs[i].prevChunks
      ensures Valid()
      ensures outcome ==
              if byteSize == 0 then NothingToFree
              else if !InBounds(addr, byteSize) then BadFreeAddr
              else if BlockCells(Rounded(addr, byteSize)) !! old(Union(FreeSets())) then Freed
              else FreeTwice
      ensures outcome == Freed ==> live == Without(old(live), Rounded(addr, byteSize))
      ensures outcome != Freed ==> live == old(live) && FreeSets() == old(FreeSets())
      ensures byteSize > 0 && Rounded(addr, byteSize) in old(live) ==>
          outcome == Freed && live == old(live) - {Rounded(addr, byteSize)}
    {
      if byteSize == 0 {
        return NothingToFree;
      }
      ghost var b := Rounded(addr, byteSize);
      if b in live {
        LiveHeld(addr, byteSize);
      }
      var i := FindHeader(addr, addr + byteSize);
      if i == |headers| {
        return BadFreeAddr;
      }
      outcome := FreeFrom(i, addr, byteSize);
    }

    /** Where a reserved stretch lies. */
    lemma ReservedWhere(location: int, byteSize: IPtr)
      requires Valid() && byteSize > 0 && location + byteSize < IPTR_MODULUS && Rounded(location, byteSize) in live
      ensures 0 < location && location + byteSize + MEMCHUNK_TOTAL <= IPTR_MODULUS
      ensures InBounds(RoundDown(location), byteSize)
    {
      hide Tiled, Union, Apart, Linked, Wf, BlockCells, Total, MemHeader.Indexed, Covering;
      var i :| 0 <= i < |headers| && Holds(i, Rounded(location, byteSize));
      assert HeaderOk(i);
      RoundedCovers(location, byteSize, headers[i].lower, headers[i].upper);
      LastGranule(headers[i].upper);
      assert headers[i].lower <= RoundDown(location) <= location;
    }

    /** What freeing the pointer of a reservation with the requested size means. */
    lemma Reservation(location: int, byteSize: IPtr, r: int)
      requires Valid() && byteSize > 0 && location + byteSize < IPTR_MODULUS && r == RoundDown(location)
      requires Rounded(location, byteSize) in live
      ensures r + byteSize < IPTR_MODULUS && InBounds(r, byteSize)
      ensures BlockCells(Rounded(r, byteSize)) !! Union(FreeSets())
      ensures Without(live, Rounded(r, byteSize)) == live - {Rounded(location, byteSize)} + LeftOver(location, byteSize)
    {
      ReservedWhere(location, byteSize);
      Requested(location, byteSize);
      LiveGranular();
      LiveNotFree(Rounded(location, byteSize));
      hide Valid, Covering, Rounded, RoundUp, Holds, Granular, InBounds, Union, Without, BlockCells;
      EndLeft(live, Rounded(location, byteSize), Rounded(r, byteSize));
    }

    /** Whether the lists are restored when a reservation was freed. */
    twostate lemma RestoredWhen(new location: int, new byteSize: IPtr)
      requires old(Valid()) && Valid() && live == old(live) + LeftOver(location, byteSize)
      requires LeftOver(location, byteSize) !! old(live)
      ensures LeftOver(location, byteSize) == {} <==>
          forall i :: 0 <= i < |headers| ==> headers[i].blocks == old(headers[i].blocks)
    {
      assert (forall i :: 0 <= i < |headers| ==> headers[i].blocks == old(headers[i].blocks)) ==>
          FreeSets() == old(FreeSets());
      if LeftOver(location, byteSize) == {} {
        SameLiveSameLists();
      } else {
        var d :| d in LeftOver(location, byteSize);
        NewlyLive(Union(Arenas()), Union(FreeSets()), live, Union(old(FreeSets())), old(live), d);
      }
    }

    /** A reservation is freed with the pointer it returned and the size it was asked for. */
    method FreeReserved(location: int, byteSize: IPtr, r: int)
      requires Valid() && byteSize > 0 && location + byteSize < IPTR_MODULUS && r == RoundDown(location)
      requires Rounded(location, byteSize) in live
      modifies this`live, headers, set i | 0 <= i < |ctxs| :: ctxs[i].prevChunks
      ensures Valid() && live == old(live) - {Rounded(location, byteSize)} + LeftOver(location, byteSize)
    {
      Reservation(location, byteSize, r);
      hide MemList.Valid, RoundDown, Without, Rounded, InBounds, LeftOver;
      var outcome := FreeMem(r, byteSize);
    }

    /** AllocAbs and then FreeMem of the pointer it returned, with the size it was asked for: the free lists
        are restored if and only if the size rounds up to what was reserved.  Else the last granule of
        the reservation stays live. */
    method ReserveThenFree(location: int, byteSize: IPtr) returns (r: int)
      requires Valid() && byteSize > 0 && location + byteSize < IPTR_MODULUS
      modifies this`live, headers, set i | 0 <= i < |ctxs| :: ctxs[i].prevChunks
      ensures Valid()
      ensures r == NULL ==> live == old(live)
      ensures r != NULL ==> live == old(live) + LeftOver(location, byteSize)
      ensures r != NULL ==>
          (Covering(location, byteSize) == RoundUp(byteSize) <==>
            forall i :: 0 <= i < |headers| ==> headers[i].blocks == old(headers[i].blocks))
    {
      hide MemList.Valid, RoundDown, Covering, RoundUp, Rounded;
      r := AllocAbs(location, byteSize);
      if r != NULL {
        NewLeftOver(location, byteSize, old(live));
        FreeReserved(location, byteSize, r);
        RestoredWhen(location, byteSize);
      }
    }

    /** The granule that stays live was part of the reservation. */
    lemma NewLeftOver(location: int, byteSize: IPtr, was: set<Block>)
      requires Valid() && byteSize > 0 && location + byteSize < IPTR_MODULUS && Rounded(location, byteSize) !in was
      requires live == was + {Rounded(location, byteSize)}
      ensures LeftOver(location, byteSize) !! was
      ensures LeftOver(location, byteSize) == {} <==> Covering(location, byteSize) == RoundUp(byteSize)
    {
      ReservedWhere(location, byteSize);
      Requested(location, byteSize);
      LiveNotFree(Rounded(location, byteSize));
      hide Valid, Covering, Rounded, RoundUp, InBounds, Union, BlockCells, RoundDown, LiveCells, Aligned;
      var whole, d := Rounded(location, byteSize), Block(RoundDown(location) + RoundUp(byteSize), MEMCHUNK_TOTAL);
      if LeftOver(location, byteSize) != {} {
        EndCell(whole, d);
        assert d in was ==> d in live && d != whole;
      }
    }

    /** In every reachable state the free list of a header is determined by the live blocks alone. */
    lemma ListFromLive(i: nat)
      requires Valid() && i < |headers|
      ensures headers[i].FreeCells() == Arena(i) - LiveCells(live)
    {
      forall j | 0 <= j < |headers|
        ensures FreeSets()[j] <= Arenas()[j]
      {
        assert HeaderOk(j);
        FreeInArena(j);
      }
      FreeFromLive(Arenas(), FreeSets(), i, live);
    }

    /** Over any run: whenever the same blocks are live again, whatever was allocated, freed or
        reserved in between and in whichever order, every free list is identical again. */
    twostate lemma SameLiveSameLists()
      requires old(Valid()) && Valid() && live == old(live)
      ensures forall i :: 0 <= i < |headers| ==>
          headers[i].blocks == old(headers[i].blocks) && headers[i].free == old(headers[i].free)
    {
      OldFreeInArena();
      forall i | 0 <= i < |headers|
        ensures headers[i].blocks == old(headers[i].blocks) && headers[i].free == old(headers[i].free)
      {
        assert HeaderOk(i) && old(HeaderOk(i));
        ListFromLive(i);
        FreeFromLive(Arenas(), old(FreeSets()), i, old(live));
        Canonical(headers[i].blocks, old(headers[i].blocks), headers[i].lower, headers[i].upper);
      }
    }

    twostate lemma OldFreeInArena()
      requires old(Valid())
      ensures forall j :: 0 <= j < |headers| ==> old(FreeSets())[j] <= Arenas()[j]
    {
      forall j | 0 <= j < |headers|
        ensures old(FreeSets())[j] <= Arenas()[j]
      {
        assert old(HeaderOk(j));
        FreeSetBounds(old(headers[j].blocks), headers[j].lower, headers[j].upper);
      }
    }
  }

  /** What stays live when the pointer AllocAbs returned is freed with the size it was asked for. */
  ghost function LeftOver(location: int, byteSize: IPtr): set<Block> {
    if Covering(location, byteSize) == RoundUp(byteSize) then {}
    else {Block(RoundDown(location) + RoundUp(byteSize), MEMCHUNK_TOTAL)}
  }

  /** The block that the request itself rounds to, and what the reservation has beyond it. */
  lemma Requested(location: int, byteSize: IPtr)
    requires 0 < location && byteSize > 0 && location + byteSize + MEMCHUNK_TOTAL <= IPTR_MODULUS
    ensures var whole, b := Rounded(location, byteSize), Rounded(RoundDown(location), byteSize);
      && b == Block(RoundDown(location), RoundUp(byteSize)) && b.addr == whole.addr && b.bytes <= whole.bytes
      && (b.bytes == whole.bytes <==> Covering(location, byteSize) == RoundUp(byteSize))
      && (b.bytes != whole.bytes ==> whole.bytes - b.bytes == MEMCHUNK_TOTAL)
      && Granular(b) && byteSize <= b.bytes && Aligned(b.End())
  {
    hide RoundUp, RoundDown, Covering, Aligned;
    InCovering(location, byteSize);
    RequestedSizes(byteSize, location % MEMCHUNK_TOTAL);
    SumAligned(RoundDown(location), RoundUp(byteSize));
  }

  lemma InCovering(location: int, byteSize: IPtr)
    requires 0 < location && byteSize > 0 && location + byteSize + MEMCHUNK_TOTAL <= IPTR_MODULUS
    ensures Aligned(RoundDown(location)) && RoundDown(RoundDown(location)) == RoundDown(location)
    ensures Covering(RoundDown(location), byteSize) == RoundUp(byteSize)
    ensures byteSize + location % MEMCHUNK_TOTAL < IPTR_MODULUS
    ensures Covering(location, byteSize) == RoundUp(byteSize + location % MEMCHUNK_TOTAL)
  {
    hide RoundUp;
    assert RoundDown(location) % MEMCHUNK_TOTAL == 0;
    assert Wrap(byteSize) == byteSize;
    assert Wrap(byteSize + location % MEMCHUNK_TOTAL) == byteSize + location % MEMCHUNK_TOTAL;
  }

  lemma RequestedSizes(byteSize: IPtr, o: int)
    requires byteSize > 0 && 0 <= o < MEMCHUNK_TOTAL && byteSize + o + MEMCHUNK_TOTAL <= IPTR_MODULUS
    ensures Aligned(RoundUp(byteSize)) && RoundUp(byteSize) >= byteSize
    ensures RoundUp(byteSize + o) == RoundUp(byteSize) || RoundUp(byteSize + o) == RoundUp(byteSize) + MEMCHUNK_TOTAL
  {
    hide RoundUp;
    RoundUpCovers(byteSize);
    RoundUpCovers(byteSize + o);
    NextMultiple(RoundUp(byteSize + o), RoundUp(byteSize));
  }

  lemma SumAligned(a: int, b: int)
    requires Aligned(a) && Aligned(b)
    ensures Aligned(a + b)
  {
  }

  lemma LastGranule(a: int)
    requires Aligned(a) && a < IPTR_MODULUS
    ensures a + MEMCHUNK_TOTAL <= IPTR_MODULUS
  {
  }

  lemma NextMultiple(a: int, b: int)
    requires Aligned(a) && Aligned(b)
    ensures -MEMCHUNK_TOTAL < a - b < 2 * MEMCHUNK_TOTAL ==> a == b || a == b + MEMCHUNK_TOTAL
  {
  }

  lemma EndCell(whole: Block, d: Block)
    requires Aligned(d.addr) && d.bytes > 0 && whole.addr <= d.addr && d.End() <= whole.End()
    ensures !(BlockCells(whole) !! BlockCells(d))
  {
    assert d.addr in BlockCells(d) && d.addr in BlockCells(whole);
  }

  /** The reservation is one granule longer than the rounded size exactly when the stretch crosses one
      more granule boundary than its size demands, as 16 bytes at 4104 do. */
  lemma CrossesBoundary(location: int, byteSize: IPtr)
    requires location >= 0 && byteSize > 0 && byteSize + 2 * MEMCHUNK_TOTAL < IPTR_MODULUS
    ensures Covering(location, byteSize)
            == if location % MEMCHUNK_TOTAL + (byteSize - 1) % MEMCHUNK_TOTAL < MEMCHUNK_TOTAL then RoundUp(byteSize)
               else RoundUp(byteSize) + MEMCHUNK_TOTAL
    ensures Covering(4104, 16) == RoundUp(16) + MEMCHUNK_TOTAL
  {
    var o := location % MEMCHUNK_TOTAL;
    assert Wrap(byteSize + o) == byteSize + o;
    RoundUpIs(byteSize);
    RoundUpIs(byteSize + o);
    RoundUpIs(16);
    assert Wrap(16 + 4104 % MEMCHUNK_TOTAL) == 24;
    RoundUpIs(24);
    hide RoundUp, Wrap;
    SumRemainder(o, byteSize - 1);
  }

  lemma SumRemainder(o: int, m: nat)
    requires 0 <= o < MEMCHUNK_TOTAL
    ensures var s := o + m % MEMCHUNK_TOTAL;
      (m + o) % MEMCHUNK_TOTAL == if s < MEMCHUNK_TOTAL then s else s - MEMCHUNK_TOTAL
  {
  }

  lemma RoundUpIs(n: IPtr)
    requires n > 0 && n + MEMCHUNK_TOTAL < IPTR_MODULUS
    ensures RoundUp(n) == n + MEMCHUNK_TOTAL - 1 - (n - 1) % MEMCHUNK_TOTAL
  {
    assert Wrap(n + MEMCHUNK_TOTAL - 1) == n + MEMCHUNK_TOTAL - 1;
  }

  /** Free granules of part i are those of its arena that no live block holds. */
  lemma FreeFromLive(arenas: seq<set<int>>, sets: seq<set<int>>, i: nat, live: set<Block>)
    requires i < |arenas| == |sets| && Apart(arenas)
    requires forall j :: 0 <= j < |arenas| ==> sets[j] <= arenas[j]
    requires Tiled(Union(arenas), Union(sets), live)
    ensures sets[i] == arenas[i] - LiveCells(live)
  {
    forall a | a in arenas[i]
      ensures a in sets[i] <==> a !in LiveCells(live)
    {
      assert a in Union(arenas);
      if a in Union(sets) {
        var j :| 0 <= j < |sets| && a in sets[j];
        assert a in arenas[j];
        NotLive(Union(arenas), Union(sets), live, a);
      } else {
        assert a !in sets[i];
      }
    }
  }

  lemma NotLive(arena: set<int>, free: set<int>, live: set<Block>, a: int)
    requires Tiled(arena, free, live) && a in free
    ensures a !in LiveCells(live)
  {
  }

  lemma RoundedCovers(addr: int, byteSize: IPtr, lo: int, hi: int)
    requires addr + byteSize < IPTR_MODULUS && byteSize > 0 && 0 < lo && hi < IPTR_MODULUS && Aligned(lo)
    requires GoodBlock(Rounded(addr, byteSize), lo, hi)
    ensures lo <= addr && addr + byteSize <= hi
  {
    hide RoundUp;
    var x := byteSize + addr % MEMCHUNK_TOTAL;
    assert addr >= RoundDown(addr) >= lo >= MEMCHUNK_TOTAL;
    assert Wrap(x) == x;
    RoundUpCovers(x);
  }

  lemma RequestBytes(byteSize: IPtr)
    requires byteSize + MEMCHUNK_TOTAL <= IPTR_MODULUS
    ensures RoundUp(byteSize) == 0 <==> byteSize == 0
    ensures byteSize <= RoundUp(byteSize) && Aligned(RoundUp(byteSize))
  {
    RoundUpCovers(byteSize);
  }
}
