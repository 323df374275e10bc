/** An indexed allocation need not be a first fit: a run that leaves a fitting chunk in front. */
module FirstFit {
  import opened FreeList
  import opened MemoryIndex
  import opened ChunkLinks
  import opened Memory

  /** Reserving whole granules of block k. */
  method Reserve(mh: MemHeader, c: AllocatorCtx, location: int, n: IPtr, ghost k: nat)
    requires mh.Valid() && mh.Indexed(c) && k < |mh.blocks| && Inside(mh.blocks[k], location, n)
    modifies mh, c.prevChunks
    ensures mh.Valid() && mh.Indexed(c) && IndexEmpty(c)
    ensures mh.blocks == Take(old(mh.blocks), k, location, n)
  {
    WholeGranules(mh.blocks, k, location, n, mh.lower, mh.upper);
    var r;
    ghost var j;
    hide Take, Cells, FreeSet, Linked, Covering, RoundDown, MemHeader.Indexed;
    r, j := mh.AllocAbs(c, location, n);
    SameBlock(old(mh.blocks), j, k, location, n, mh.lower, mh.upper);
  }

  lemma WholeGranules(list: seq<Block>, k: nat, at: int, n: IPtr, lo: int, hi: int)
    requires Wf(list, lo, hi) && 0 < lo && hi < IPTR_MODULUS && k < |list| && Inside(list[k], at, n)
    ensures RoundDown(at) == at && Covering(at, n) == n && Cells(at, n) <= FreeSet(list)
    ensures lo <= at && at + n <= hi
  {
    assert GoodBlock(list[k], lo, hi);
    AlignedCovering(at, n);
    hide Wf, RoundUp, Aligned;
    TakeKeeps(list, k, at, n, lo, hi);
  }

  lemma SameBlock(list: seq<Block>, j: nat, k: nat, at: int, n: int, lo: int, hi: int)
    requires Wf(list, lo, hi) && j < |list| && k < |list| && Inside(list[j], at, n) && Inside(list[k], at, n)
    ensures j == k
  {
    assert j < k || k < j ==> false;
  }

  /** Three reservations leave the chunks x, y and the rest, and an empty index. */
  method Reserved() returns (mh: MemHeader, c: AllocatorCtx)
    ensures mh.Valid() && mh.Indexed(c) && IndexEmpty(c) && c.indexSize > 0
    ensures fresh(mh) && fresh(c) && fresh(c.prevChunks)
    ensures mh.lower == 4096 && mh.upper == 8192
    ensures mh.blocks == [Block(4096, 16), Block(4176, 16), Block(4208, 3984)]
  {
    hide Pow2;
    mh := new MemHeader(4096, 8192, {}, 0);
    c := new AllocatorCtx(4096, ALLOCATORCTXINDEXSIZE);
    SomeLevels(c.indexSize);
    hide MemHeader.Valid, MemHeader.Indexed, IsClass;
    Reserve(mh, c, 4112, 48, 0);
    assert mh.blocks == [Block(4096, 16), Block(4160, 4032)];
    Reserve(mh, c, 4160, 16, 1);
    assert mh.blocks == [Block(4096, 16), Block(4176, 4016)];
    Reserve(mh, c, 4192, 16, 1);
  }

  lemma SomeLevels(levels: nat)
    requires exists n: nat ::
        IsClass(4096, n) && levels == Least(n, Least(ALLOCATORCTXINDEXSIZE, ALLOCATORCTXINDEXSIZE))
    ensures levels > 0
  {
    assert Pow2(1) == 2;
  }

  /** The free list in which the last request misses the first chunk. */
  function Before(): seq<Block> {
    [Block(4096, 64), Block(4176, 16), Block(4240, 3952)]
  }

  /** A request for 32 bytes comes from the rest and leaves y in the index. */
  method Indexing() returns (mh: MemHeader, c: AllocatorCtx)
    ensures mh.Valid() && mh.Indexed(c) && c.indexSize > 0 && Entries(c) != [] && Entries(c)[0] == 4176
    ensures fresh(mh) && fresh(c) && fresh(c.prevChunks)
    ensures mh.lower == 4096 && mh.upper == 8192
    ensures mh.blocks == [Block(4096, 16), Block(4176, 16), Block(4240, 3952)]
  {
    mh, c := Reserved();
    ghost var s := Entries(c);
    mh.EmptyIndexStarts(32, c);
    assert |s| == ALLOCATORCTXINDEXSIZE;
    hide MemHeader.Valid, MemHeader.Indexed, MemHeader.StartsAt, Cells, FreeSet, AfterAlloc, IsChosen, Take, Fits;
    RestFits32(mh.blocks);
    var mc;
    ghost var k, k0;
    mc, k, k0 := mh.StdAlloc(c, 32, false);
    ServedFromRest(s, k, c.indexSize);
  }

  lemma RestFits32(list: seq<Block>)
    requires list == [Block(4096, 16), Block(4176, 16), Block(4208, 3984)]
    ensures Fits(list, RoundUp(32)) && RoundUp(32) == 32
  {
    assert list[2].bytes >= 32;
  }

  lemma ServedFromRest(s: seq<int>, k: nat, levels: nat)
    requires s == Cleared(s) && |s| == ALLOCATORCTXINDEXSIZE && levels > 0
    ensures var list := [Block(4096, 16), Block(4176, 16), Block(4208, 3984)];
      IsChosen(list, 0, k, 32, false) ==>
        && k == 2 && Take(list, k, 4208, 32) == [Block(4096, 16), Block(4176, 16), Block(4240, 3952)]
        && |AfterAlloc(s, list, 0, k, 32, levels)| == |s| && AfterAlloc(s, list, 0, k, 32, levels)[0] == 4176
  {
    var list := [Block(4096, 16), Block(4176, 16), Block(4208, 3984)];
    assert list[2].bytes >= 32;
    assert Pow2(0) == 1;
    assert s[0] == NULL;
  }

  /** The 48 bytes behind x are freed, and x grows without being indexed. */
  method FreeBehindX() returns (mh: MemHeader, c: AllocatorCtx)
    ensures mh.Valid() && mh.Indexed(c) && c.indexSize > 0 && Entries(c) != [] && Entries(c)[0] == 4176
    ensures fresh(mh) && fresh(c) && fresh(c.prevChunks) && mh.blocks == Before()
  {
    mh, c := Indexing();
    ghost var s := Entries(c);
    hide MemHeader.Valid, MemHeader.Indexed, Cells, FreeSet, AfterGive, Give, Between;
    JoinsX(mh, s, c.indexSize);
    var alert;
    ghost var k;
    alert, k := mh.StdDealloc(c, 4112, 48);
  }

  lemma JoinsX(mh: MemHeader, s: seq<int>, levels: nat)
    requires s != [] && s[0] == 4176 && mh.blocks == [Block(4096, 16), Block(4176, 16), Block(4240, 3952)]
    ensures RoundDown(4112) == 4112 && Covering(4112, 48) == 48 && Cells(4112, 48) !! mh.FreeCells()
    ensures forall k: nat :: Between(mh.blocks, k, 4112, 48) ==>
        && k <= |mh.blocks| && Give(mh.blocks, k, 4112, 48) == Before()
        && |AfterGive(s, mh.blocks, k, 4112, 48, levels)| == |s| &&
            AfterGive(s, mh.blocks, k, 4112, 48, levels)[0] == 4176
  {
    var list := mh.blocks;
    assert FreeSet(list[1..][1..]) == Cells(4240, 3952) + FreeSet([]);
    assert FreeSet(list[1..]) == Cells(4176, 16) + FreeSet(list[1..][1..]);
    forall k: nat | Between(list, k, 4112, 48)
      ensures k == 1
    {
    }
  }

  /** The whole run. */
  method MissedFirstFit() returns (mh: MemHeader, c: AllocatorCtx, mc: int)
    ensures mh.Valid() && mh.Indexed(c)
    ensures mc == 4240 && mh.blocks == Take(Before(), 2, mc, 32)
    ensures IsFirstFit(Before(), 0, 32) && !IsFirstFit(Before(), 2, 32)
  {
    mh, c := FreeBehindX();
    hide MemHeader.Valid, MemHeader.Indexed, MemHeader.StartsAt, Cells, FreeSet, AfterAlloc, IsChosen, Take, Fits;
    ghost var k, k0;
    StartsBehindY(mh, c);
    mc, k, k0 := mh.StdAlloc(c, 32, false);
    ChosenBehindY(k0, k);
  }

  /** The search for 32 bytes starts at the chunk that the index entry y leads to. */
  lemma StartsBehindY(mh: MemHeader, c: AllocatorCtx)
    requires mh.Valid() && mh.Indexed(c) && c.indexSize > 0 && Entries(c)[0] == 4176 && mh.blocks == Before()
    ensures forall k0: nat :: mh.StartsAt(k0, 32, c) ==> k0 == 2
    ensures Fits(mh.blocks, RoundUp(32)) && RoundUp(32) == 32
  {
    assert mh.blocks[2].bytes >= 32;
    forall k0: nat | mh.StartsAt(k0, 32, c)
      ensures k0 == 2
    {
      var cls: nat :| IsClass(32, cls) && MemHeader.IsBetter(Slot(mh.blocks, k0), HEAD, cls, c);
      Pow2Monotone(if cls > 0 then 1 else 0, cls);
      assert Pow2(1) == 2;
      assert c.prevChunks[0] == 4176;
    }
  }

  lemma ChosenBehindY(k0: nat, k: nat)
    ensures k0 == 2 && IsChosen(Before(), k0, k, 32, false) ==> k == 2
    ensures IsFirstFit(Before(), 0, 32) && !IsFirstFit(Before(), 2, 32)
  {
    assert Before()[2].bytes >= 32 && Before()[0].bytes >= 32;
  }
}
