/** A memory header: an address-ordered, coalescing list of free chunks with an optional size index. */
module Memory {
  import opened FreeList
  import opened MemoryIndex
  import opened ChunkLinks

  class MemHeader {
    const lower: int
    const upper: int
    const attributes: set<int>
    const pri: int
    var first: int
    var free: int
    var chunk: map<int, MemChunk>
    ghost var blocks: seq<Block>

    ghost predicate Valid()
      reads this
    {
      && 0 < lower <= upper < IPTR_MODULUS && Aligned(lower) && Aligned(upper)
      && Linked(first, chunk, blocks) && Wf(blocks, lower, upper) && free == Total(blocks)
    }

    /** Every index entry is NULL, or the header slot or a chunk of the list with a successor. */
    ghost predicate Indexed(c: AllocatorCtx?)
      reads this, c, if c == null then {} else {c.prevChunks}
    {
      EntriesLead(c, blocks) && (c != null && c.indexSize == 0 ==> upper - lower < 2 * FIRSTPOT)
    }

    /** The granules that are free. */
    ghost function FreeCells(): set<int>
      reads this
    {
      FreeSet(blocks)
    }

    /** A header as AllocMemHeader sets it up: one chunk spans it. */
    constructor (lower: int, upper: int, attributes: set<int>, pri: int)
      requires 0 < lower < upper < IPTR_MODULUS && Aligned(lower) && Aligned(upper)
      ensures Valid() && this.lower == lower && this.upper == upper && this.attributes == attributes && this.pri == pri
      ensures blocks == [Block(lower, upper - lower)]
    {
      this.lower, this.upper, this.attributes, this.pri := lower, upper, attributes, pri;
      first, free := lower, upper - lower;
      chunk := map[lower := MemChunk(NULL, upper - lower)];
      blocks := [Block(lower, upper - lower)];
      new;
      assert Total(blocks) == upper - lower;
    }

    // ---------- consistency checks ----------

    /** validateHeader */
    predicate ValidateHeader()
      reads this
    {
      Aligned(first) && Aligned(free) && (first != NULL ==> lower <= first && first + free <= upper)
    }

    /** validateChunk */
    predicate ValidateChunk(p: int)
      requires p in chunk
      reads this
    {
      && Aligned(chunk[p].next) && chunk[p].bytes != 0 && Aligned(chunk[p].bytes)
      && p + chunk[p].bytes <= upper
      && (chunk[p].next != NULL ==> p + chunk[p].bytes + MEMCHUNK_TOTAL <= chunk[p].next <= upper - MEMCHUNK_TOTAL)
    }

    /** No reachable header is rejected. */
    lemma HeaderIsSane()
      requires Valid()
      ensures ValidateHeader() && 0 <= free <= upper - lower
    {
      TotalFits(blocks, lower, upper);
    }

    /** No chunk of a reachable header is rejected. */
    lemma ChunkIsSane(k: nat)
      requires Valid()
      ensures k < |blocks| ==> blocks[k].addr in chunk && ValidateChunk(blocks[k].addr)
    {
      assert k < |blocks| ==> blocks[k].addr in chunk;
      if k + 1 < |blocks| {
        assert blocks[k].End() + MEMCHUNK_TOTAL <= blocks[k + 1].addr;
        assert GoodBlock(blocks[k + 1], lower, upper);
        AtLeastOneGranule(blocks[k + 1].bytes);
      }
    }

    // ---------- the index ----------

    /** What an index entry points to can be read. */
    ghost predicate Readable(p: int)
      reads this
    {
      p == NULL || p == HEAD || p in chunk
    }

    function Next(p: int): int
      requires p == HEAD || p in chunk
      reads this
    {
      NextOf(first, chunk, p)
    }

    /** What an index entry becomes when the chunk mc leaves the list. */
    ghost function WithoutClaimed(e: int, mc: int): int
      requires Readable(e)
      reads this
    {
      if e != NULL && (e == mc || Next(e) == mc) then NULL else e
    }

    /** What entry i becomes when the chunk mc appears behind mcPrev. */
    ghost function WithCreated(e: int, mc: int, mcPrev: int, i: nat, indexSize: nat): int
      requires Readable(e) && mc in chunk
      reads this
    {
      if i < indexSize && FIRSTPOT * Pow2(i) <= chunk[mc].bytes && (e == NULL || Next(e) > mc) then mcPrev else e
    }

    /** mhac_MemChunkClaimed: forget the entries that are mc or lead to it. */
    method Claimed(mc: int, c: AllocatorCtx?)
      requires c != null ==> c.Valid() && forall i :: 0 <= i < ALLOCATORCTXINDEXSIZE ==> Readable(c.prevChunks[i])
      modifies if c == null then {} else {c.prevChunks}
      ensures c != null ==> c.Valid() && forall i :: 0 <= i < ALLOCATORCTXINDEXSIZE ==>
                Readable(old(c.prevChunks[i])) && c.prevChunks[i] == WithoutClaimed(old(c.prevChunks[i]), mc)
    {
      if c == null {
        return;
      }
      var i := 0;
      while i < c.indexSize
        invariant 0 <= i <= c.indexSize && c.Valid()
        invariant forall j :: 0 <= j < i ==>
                    Readable(old(c.prevChunks[j])) && c.prevChunks[j] == WithoutClaimed(old(c.prevChunks[j]), mc)
        invariant forall j :: i <= j < ALLOCATORCTXINDEXSIZE ==> c.prevChunks[j] == old(c.prevChunks[j])
      {
        var e := c.prevChunks[i];
        if e != NULL && (e == mc || Next(e) == mc) {
          c.prevChunks[i] := NULL;
        }
        i := i + 1;
      }
    }

    /** mhac_MemChunkCreated: mcPrev leads to the chunk mc, which may come first among the chunks of
        its classes. */
    method Created(mc: int, mcPrev: int, c: AllocatorCtx?)
      requires mc in chunk
      requires c != null ==> c.Valid() && forall i :: 0 <= i < ALLOCATORCTXINDEXSIZE ==> Readable(c.prevChunks[i])
      modifies if c == null then {} else {c.prevChunks}
      ensures c != null ==> c.Valid() && forall i :: 0 <= i < ALLOCATORCTXINDEXSIZE ==>
                Readable(old(c.prevChunks[i])) &&
                    c.prevChunks[i] == WithCreated(old(c.prevChunks[i]), mc, mcPrev, i, c.indexSize)
    {
      if chunk[mc].bytes < FIRSTPOT {
        if c != null {
          SmallForAll(chunk[mc].bytes, 0);
        }
        return;
      }
      if c == null {
        return;
      }
      var i, v := 0, FIRSTPOT;
      while i < c.indexSize
        invariant 0 <= i <= c.indexSize && c.Valid() && v == FIRSTPOT * Pow2(i)
        invariant forall j :: 0 <= j < i ==>
                    Readable(old(c.prevChunks[j])) &&
                        c.prevChunks[j] == WithCreated(old(c.prevChunks[j]), mc, mcPrev, j, c.indexSize)
        invariant forall j :: i <= j < ALLOCATORCTXINDEXSIZE ==> c.prevChunks[j] == old(c.prevChunks[j])
      {
        if chunk[mc].bytes < v {
          SmallForAll(chunk[mc].bytes, i);
          break;
        }
        var e := c.prevChunks[i];
        if e == NULL || (e != NULL && Next(e) > mc) {
          c.prevChunks[i] := mcPrev;
        }
        i, v := i + 1, v * 2;
      }
    }

    /** p is the entry of the highest class up to cls that has one, or prev when none has. */
    static ghost predicate IsBetter(p: int, prev: int, cls: nat, c: AllocatorCtx)
      requires c.Valid()
      reads c, c.prevChunks
    {
      || (p == prev && EmptyAbove(-1, cls, c))
      || exists i :: 0 <= i <= cls && i < c.indexSize && p == c.prevChunks[i] && p != NULL && EmptyAbove(i, cls, c)
    }

    static ghost predicate EmptyAbove(i: int, cls: nat, c: AllocatorCtx)
      requires c.Valid()
      reads c, c.prevChunks
    {
      forall j :: 0 <= j < c.indexSize && i < j <= cls ==> c.prevChunks[j] == NULL
    }

    /** mhac_GetBetterPrevMemChunk: the entry of the highest class that is not above the class of
        the request, or prev when there is none. */
    method GetBetterPrev(prev: int, size: IPtr, c: AllocatorCtx?) returns (p: int)
      requires c != null ==> c.Valid() && size < LONG_LIMIT && (c.indexSize == 0 ==> size < 2 * FIRSTPOT)
      ensures c == null || size < FIRSTPOT ==> p == prev
      ensures c != null && size >= FIRSTPOT ==> exists cls: nat :: IsClass(size, cls) && IsBetter(p, prev, cls, c)
    {
      hide Pow2, IsClass;
      p := prev;
      if size < FIRSTPOT {
        return;
      }
      if c != null {
        var ii := CalcIndex(size, c.indexSize);
        ghost var cls: nat :| IsClass(size, cls) &&
            ii == if cls > Wrap(c.indexSize - 1) then Wrap(c.indexSize - 1) else cls;
        ClassBounds(size, c.indexSize, ii);
        if c.prevChunks[ii] != NULL {
          p := c.prevChunks[ii];
          assert EmptyAbove(ii, cls, c);
        } else {
          var i: int := ii as int - 1;
          assert EmptyAbove(i, cls, c);
          while i >= 0
            invariant -1 <= i < ii && p == prev && EmptyAbove(i, cls, c)
          {
            if c.prevChunks[i] != NULL {
              p := c.prevChunks[i];
              break;
            }
            i := i - 1;
          }
        }
        assert IsBetter(p, prev, cls, c);
      }
    }

    /** The index entry e leads to no chunk below addr that is higher than limit. */
    ghost predicate NotCloser(e: int, addr: int, limit: int)
      reads this
    {
      e != NULL && Readable(e) && Next(e) < addr ==> Next(e) <= limit
    }

    /** mhac_GetCloserPrevMemChunk: of prev and the entries leading to a chunk below addr, one whose
        chunk is the highest. */
    method GetCloserPrev(prev: int, addr: int, c: AllocatorCtx?) returns (p: int)
      requires prev == HEAD || prev in chunk
      requires c != null ==> c.Valid() && forall i :: 0 <= i < ALLOCATORCTXINDEXSIZE ==> Readable(c.prevChunks[i])
      ensures p == prev || (c != null && p != NULL && p in c.prevChunks[..] && Readable(p) && Next(p) < addr)
      ensures Next(prev) <= Next(p)
      ensures c != null ==> forall i :: 0 <= i < c.indexSize ==> NotCloser(c.prevChunks[i], addr, Next(p))
    {
      p := prev;
      if c != null {
        var i := 0;
        while i < c.indexSize
          invariant 0 <= i <= c.indexSize
          invariant p == prev || (p != NULL && p in c.prevChunks[..] && Readable(p) && Next(p) < addr)
          invariant Next(prev) <= Next(p)
          invariant forall j :: 0 <= j < i ==> NotCloser(c.prevChunks[j], addr, Next(p))
        {
          var e := c.prevChunks[i];
          if e != NULL && Next(e) < addr && Next(e) > Next(p) {
            p := e;
          }
          i := i + 1;
        }
      }
    }

    // ---------- allocation ----------

    /** Index entries may be followed. */
    lemma EntriesReadable(c: AllocatorCtx)
      requires Linked(first, chunk, blocks) && 0 < lower && Wf(blocks, lower, upper) && Indexed(c)
      ensures forall i :: 0 <= i < ALLOCATORCTXINDEXSIZE ==> Readable(c.prevChunks[i])
    {
      forall i | 0 <= i < ALLOCATORCTXINDEXSIZE && c.prevChunks[i] != NULL
        ensures Readable(c.prevChunks[i])
      {
        var k :| 0 <= k < |blocks| && Slot(blocks, k) == c.prevChunks[i];
        SlotNext(first, chunk, blocks, k, lower, upper);
      }
    }

    /** `p->mc_Next = q` */
    method SetNext(p: int, q: int)
      requires p == HEAD || p in chunk
      modifies this`first, this`chunk
      ensures NextSet(old(first), old(chunk), p, q, first, chunk)
    {
      if p == HEAD {
        first := q;
      } else {
        chunk := chunk[p := MemChunk(q, chunk[p].bytes)];
      }
    }

    /** The chunk at block j, if there is one. */
    lemma Standing(j: nat)
      requires Valid() && j <= |blocks|
      ensures (At(blocks, j) == NULL <==> j == |blocks|) && Slot(blocks, j) != NULL
      ensures j < |blocks| ==> At(blocks, j) == blocks[j].addr == Slot(blocks, j + 1) && blocks[j].addr in chunk
      ensures j < |blocks| ==> chunk[blocks[j].addr] == MemChunk(At(blocks, j + 1), blocks[j].bytes)
      ensures j < |blocks| ==> blocks[j].addr > 0 && Next(blocks[j].addr) == At(blocks, j + 1)
    {
      assert j < |blocks| ==> blocks[j].addr in chunk;
    }

    /** The search loop of stdAlloc from the chunk behind `start`: the last pointer to the first
        chunk that is large enough, or with MEMF_REVERSE to the last one. */
    method Search(start: int, byteSize: int, reverse: bool, ghost k0: nat) returns (sane: bool, mc: int, ghost k: nat)
      requires Valid() && k0 <= |blocks| && start == Slot(blocks, k0)
      ensures sane
      ensures mc == NULL ==> forall i :: k0 <= i < |blocks| ==> blocks[i].bytes < byteSize
      ensures mc != NULL ==> k0 <= k < |blocks| && mc == Slot(blocks, k) && blocks[k].bytes >= byteSize
      ensures mc != NULL && !reverse ==> forall i :: k0 <= i < k ==> blocks[i].bytes < byteSize
      ensures mc != NULL && reverse ==> forall i :: k < i < |blocks| ==> blocks[i].bytes < byteSize
    {
      hide Linked, Wf, At, Slot, Total, Aligned, NextOf, ValidateChunk;
      SlotNext(first, chunk, blocks, k0, lower, upper);
      var p1, p2 := start, Next(start);
      mc, k := NULL, k0;
      ghost var j := k0;
      while p2 != NULL
        invariant k0 <= j <= |blocks| && p1 == Slot(blocks, j) && p2 == At(blocks, j)
        invariant mc == NULL ==> forall i :: k0 <= i < j ==> blocks[i].bytes < byteSize
        invariant mc != NULL ==> reverse && k0 <= k < j && mc == Slot(blocks, k) && blocks[k].bytes >= byteSize
        invariant mc != NULL ==> forall i :: k < i < j ==> blocks[i].bytes < byteSize
        decreases |blocks| - j
      {
        Standing(j);
        ChunkIsSane(j);
        if !ValidateChunk(p2) {
          return false, NULL, k0;
        }
        if chunk[p2].bytes >= byteSize {
          mc, k := p1, j;
          if !reverse {
            return true, mc, k;
          }
        }
        p1 := p2;
        p2 := Next(p1);
        j := j + 1;
      }
      sane := true;
      Standing(j);
    }

    /** The chunk behind p1 is used up completely. */
    method TakeWhole(p1: int, c: AllocatorCtx?, ghost k: nat) returns (mc: int)
      requires Valid() && Indexed(c) && k < |blocks| && p1 == Slot(blocks, k)
      modifies this, if c == null then {} else {c.prevChunks}
      ensures Linked(first, chunk, blocks) && Indexed(c) && free == old(free)
      ensures mc == old(blocks[k].addr)
      ensures blocks == old(blocks)[..k] + [] + old(blocks)[k + 1..]
      ensures Entries(c) == AfterServe(old(Entries(c)), old(blocks), k, old(blocks[k].bytes), Levels(c))
    {
      ghost var was := blocks;
      SlotNext(first, chunk, was, k, lower, upper);
      assert blocks[k].addr in chunk && NextOf(first, chunk, blocks[k].addr) == At(blocks, k + 1);
      hide Linked, Wf, AfterClaim, AfterCreate;
      var p2 := Next(p1);
      ClaimBehind(p2, c, k, []);
      NothingCreated(Entries(c), p1, Levels(c));
      SetNext(p1, Next(p2));
      mc := p2;
      blocks := was[..k] + [] + was[k + 1..];
      UnlinkedWhole(old(first), old(chunk), was, k, first, chunk, lower, upper);
    }

    /** The chunk behind p1 gives byteSize bytes away and keeps the rest at p. */
    method WriteRest(p1: int, byteSize: int, reverse: bool) returns (mc: int, p: int, ghost mid: map<int, MemChunk>)
      requires (p1 == HEAD || p1 in chunk) && Next(p1) in chunk && Next(p1) != p1 && Next(p1) != HEAD && p1 != NULL
      requires Next(p1) > 0 && byteSize >= 0
      modifies this`first, this`chunk
      ensures mc == if reverse then old(Next(p1) + chunk[Next(p1)].bytes) - byteSize else old(Next(p1))
      ensures p == if reverse then old(Next(p1)) else old(Next(p1)) + byteSize
      ensures NextSet(old(first), old(chunk), p1, p, first, mid)
      ensures chunk == mid[p := MemChunk(old(chunk[Next(p1)].next), old(chunk[Next(p1)].bytes) - byteSize)]
    {
      var p2 := Next(p1);
      var bytes := chunk[p2].bytes;
      if reverse {
        SetNext(p1, p2);
        mc := p2 + bytes - byteSize;
      } else {
        SetNext(p1, p2 + byteSize);
        mc := p2;
      }
      mid := chunk;
      p := Next(p1);
      chunk := chunk[p := MemChunk(Next(p2), bytes - byteSize)];
    }

    /** What is left of block k when bytes are taken from one of its ends. */
    lemma RestOf(k: nat, byteSize: int, rest: Block, reverse: bool)
      requires Valid() && k < |blocks| && Aligned(byteSize) && 0 <= byteSize < blocks[k].bytes
      requires rest == Block(if reverse then blocks[k].addr else blocks[k].addr + byteSize, blocks[k].bytes - byteSize)
      ensures var p1 := Slot(blocks, k);
        && (p1 == HEAD || p1 in chunk) && p1 != NULL && p1 < blocks[k].addr && Next(p1) == blocks[k].addr
      ensures blocks[k].addr in chunk && chunk[blocks[k].addr] == MemChunk(At(blocks, k + 1), blocks[k].bytes)
      ensures blocks[k].addr > 0 && rest.addr > 0 && 0 < lower
      ensures Wf(blocks[..k] + [rest] + blocks[k + 1..], lower, upper)
      ensures forall x :: 0 <= x < |blocks| && !(k <= x < k + 1) ==> blocks[x].addr != rest.addr
    {
      SlotNext(first, chunk, blocks, k, lower, upper);
      Standing(k);
      SlotOrder(blocks, k, k + 1, lower, upper);
      assert GoodBlock(blocks[k], lower, upper);
      RestFits(blocks[k], byteSize, rest, reverse);
      OthersApart(blocks, k, rest.addr, lower, upper);
      hide Wf, Linked, Aligned;
      Shrunk(blocks, k, rest, lower, upper);
    }

    /** Bytes are taken from one end of the chunk behind p1. */
    method TakePart(p1: int, byteSize: int, reverse: bool, c: AllocatorCtx?, ghost k: nat, ghost rest: Block)
      returns (mc: int)
      requires Valid() && Indexed(c) && k < |blocks| && p1 == Slot(blocks, k)
      requires Aligned(byteSize) && 0 <= byteSize < blocks[k].bytes
      requires rest == Block(if reverse then blocks[k].addr else blocks[k].addr + byteSize, blocks[k].bytes - byteSize)
      modifies this, if c == null then {} else {c.prevChunks}
      ensures Linked(first, chunk, blocks) && Indexed(c) && free == old(free)
      ensures mc == if reverse then rest.End() else old(blocks[k].addr)
      ensures blocks == old(blocks)[..k] + [rest] + old(blocks)[k + 1..]
      ensures Entries(c) == AfterServe(old(Entries(c)), old(blocks), k, byteSize, Levels(c))
    {
      hide Linked, Wf, Leads, Aligned, AfterClaim, AfterCreate, NextSet, At, NextOf, EntriesLead, Entries, Total;
      ghost var was := blocks;
      RestOf(k, byteSize, rest, reverse);
      ClaimBehind(Next(p1), c, k, [rest]);
      var p;
      ghost var mid;
      mc, p, mid := WriteRest(p1, byteSize, reverse);
      blocks := was[..k] + [rest] + was[k + 1..];
      OneReplaced(old(first), old(chunk), was, k, rest, k + 1, first, mid, chunk, lower, upper);
      Announce(p, p1, c, k);
    }

    /** mhac_MemChunkCreated for block k of the list. */
    method Announce(p: int, pp: int, c: AllocatorCtx?, ghost k: nat)
      requires Linked(first, chunk, blocks) && 0 < lower && Wf(blocks, lower, upper) && Indexed(c)
      requires k < |blocks| && p == blocks[k].addr && pp == Slot(blocks, k)
      requires chunk[p].bytes == blocks[k].bytes
      modifies if c == null then {} else {c.prevChunks}
      ensures Indexed(c) && Entries(c) == AfterCreate(old(Entries(c)), blocks[k].bytes, pp, Levels(c))
    {
      assert Leads(blocks, pp);
      if c != null {
        EntriesReadable(c);
        EntriesInOrder(c, k);
      }
      Created(p, pp, c);
    }

    /** An entry leads behind block k exactly when it lies behind the pointer to block k. */
    lemma EntriesInOrder(c: AllocatorCtx, k: nat)
      requires Linked(first, chunk, blocks) && 0 < lower && Wf(blocks, lower, upper) && Indexed(c) && k < |blocks|
      ensures forall i :: 0 <= i < ALLOCATORCTXINDEXSIZE && c.prevChunks[i] != NULL ==>
          Readable(c.prevChunks[i]) && (Next(c.prevChunks[i]) > blocks[k].addr <==> c.prevChunks[i] > Slot(blocks, k))
          && (Next(c.prevChunks[i]) == blocks[k].addr <==> c.prevChunks[i] == Slot(blocks, k))
    {
      forall i | 0 <= i < ALLOCATORCTXINDEXSIZE && c.prevChunks[i] != NULL
        ensures Readable(c.prevChunks[i])
        ensures Next(c.prevChunks[i]) > blocks[k].addr <==> c.prevChunks[i] > Slot(blocks, k)
        ensures Next(c.prevChunks[i]) == blocks[k].addr <==> c.prevChunks[i] == Slot(blocks, k)
      {
        var o :| 0 <= o < |blocks| && Slot(blocks, o) == c.prevChunks[i];
        SlotNext(first, chunk, blocks, o, lower, upper);
        SlotOrder(blocks, o, k, lower, upper);
        SlotOrder(blocks, k, o, lower, upper);
      }
    }

    /** mhac_MemChunkClaimed for a chunk p2 that will be replaced by mid. */
    method ClaimBehind(p2: int, c: AllocatorCtx?, ghost k: nat, ghost mid: seq<Block>)
      requires Valid() && Indexed(c) && k < |blocks| && p2 == blocks[k].addr
      modifies if c == null then {} else {c.prevChunks}
      ensures EntriesLead(c, blocks[..k] + mid + blocks[k + 1..]) && Indexed(c)
      ensures Entries(c) == AfterClaim(old(Entries(c)), p2, Slot(blocks, k))
    {
      if c != null {
        EntriesReadable(c);
        EntriesInOrder(c, k);
        forall i | 0 <= i < ALLOCATORCTXINDEXSIZE && c.prevChunks[i] != NULL &&
            WithoutClaimed(c.prevChunks[i], p2) != NULL
          ensures Leads(blocks[..k] + mid + blocks[k + 1..], c.prevChunks[i])
        {
          Survives(k, mid, c.prevChunks[i]);
        }
      }
      Claimed(p2, c);
    }

    lemma Survives(k: nat, mid: seq<Block>, e: int)
      requires Valid() && k < |blocks| && Leads(blocks, e) && Readable(e) && e != NULL
      requires e != blocks[k].addr && Next(e) != blocks[k].addr
      ensures Leads(blocks[..k] + mid + blocks[k + 1..], e)
    {
      SlotNext(first, chunk, blocks, k, lower, upper);
      LeadsKept(blocks, k, mid, k + 1, e);
    }

    /** `if (p2->mc_Bytes == byteSize)` */
    method TakeBytes(p1: int, byteSize: int, reverse: bool, c: AllocatorCtx?, ghost k: nat, ghost rest: Block)
      returns (mc: int)
      requires Valid() && Indexed(c) && k < |blocks| && p1 == Slot(blocks, k)
      requires Aligned(byteSize) && 0 <= byteSize <= blocks[k].bytes
      requires rest == Block(if reverse then blocks[k].addr else blocks[k].addr + byteSize, blocks[k].bytes - byteSize)
      modifies this, if c == null then {} else {c.prevChunks}
      ensures Linked(first, chunk, blocks) && Indexed(c) && free == old(free)
      ensures mc == if reverse && byteSize < old(blocks[k].bytes) then rest.End() else old(blocks[k].addr)
      ensures blocks ==
          old(blocks)[..k] + (if byteSize == old(blocks[k].bytes) then [] else [rest]) + old(blocks)[k + 1..]
      ensures Entries(c) == AfterServe(old(Entries(c)), old(blocks), k, byteSize, Levels(c))
    {
      SlotNext(first, chunk, blocks, k, lower, upper);
      Standing(k);
      hide Linked, Wf, Leads, Aligned, Slot, Indexed, Total, AfterServe, Entries, NextOf, At;
      var p2 := Next(p1);
      if chunk[p2].bytes == byteSize {
        mc := TakeWhole(p1, c, k);
      } else {
        mc := TakePart(p1, byteSize, reverse, c, k, rest);
      }
    }

    /** The block behind p1 serves a request of byteSize bytes. */
    method Serve(p1: int, byteSize: int, reverse: bool, c: AllocatorCtx?, ghost k: nat) returns (mc: int)
      requires Valid() && Indexed(c) && k < |blocks| && p1 == Slot(blocks, k)
      requires Aligned(byteSize) && 0 <= byteSize <= blocks[k].bytes
      modifies this, if c == null then {} else {c.prevChunks}
      ensures Valid() && Indexed(c) && mc != NULL
      ensures mc == if reverse then old(blocks[k].End()) - byteSize else old(blocks[k].addr)
      ensures byteSize > 0 ==> Inside(old(blocks[k]), mc, byteSize) && blocks == Take(old(blocks), k, mc, byteSize)
      ensures byteSize == 0 ==> blocks == old(blocks)
      ensures Entries(c) == AfterServe(old(Entries(c)), old(blocks), k, byteSize, Levels(c))
    {
      hide Linked, Wf, Leads, Aligned, Take, Slot, EntriesLead, Inside, Total, AfterServe, Entries, Levels, NextOf;
      ghost var b := blocks[k];
      ghost var rest := Block(if reverse then b.addr else b.addr + byteSize, b.bytes - byteSize);
      ghost var at, next := ServedBlock(k, byteSize, rest, reverse);
      mc := TakeBytes(p1, byteSize, reverse, c, k, rest);
      assert blocks == next && mc == at;
      free := free - byteSize;
    }

    /** What serving a request from block k does to the list. */
    lemma ServedBlock(k: nat, byteSize: int, rest: Block, reverse: bool) returns (at: int, next: seq<Block>)
      requires Valid() && k < |blocks| && Aligned(byteSize) && 0 <= byteSize <= blocks[k].bytes
      requires rest == Block(if reverse then blocks[k].addr else blocks[k].addr + byteSize, blocks[k].bytes - byteSize)
      ensures blocks[k].addr in chunk && chunk[blocks[k].addr].bytes == blocks[k].bytes && blocks[k].bytes > 0 &&
          blocks[k].addr > 0
      ensures (Slot(blocks, k) == HEAD || Slot(blocks, k) in chunk) && Next(Slot(blocks, k)) == blocks[k].addr
      ensures at != NULL && at == if reverse then blocks[k].End() - byteSize else blocks[k].addr
      ensures at == (if reverse then rest.End() else blocks[k].addr) &&
          (byteSize == blocks[k].bytes ==> at == blocks[k].addr)
      ensures next == blocks[..k] + (if byteSize == blocks[k].bytes then [] else [rest]) + blocks[k + 1..]
      ensures byteSize > 0 ==> Inside(blocks[k], at, byteSize) && next == Take(blocks, k, at, byteSize)
      ensures byteSize == 0 ==> next == blocks
      ensures Wf(next, lower, upper) && Total(next) == free - byteSize
    {
      hide Linked, Cells, FreeSet, Take, Pieces, Inside, Wf;
      var b := blocks[k];
      at := if reverse then b.End() - byteSize else b.addr;
      next := blocks[..k] + (if byteSize == b.bytes then [] else [rest]) + blocks[k + 1..];
      SlotNext(first, chunk, blocks, k, lower, upper);
      Standing(k);
      GoodOne(blocks, k, lower, upper);
      if byteSize > 0 {
        ServedRest(blocks, k, byteSize, at, rest, reverse, lower, upper);
      } else {
        assert next == blocks;
      }
    }

    static lemma GoodOne(list: seq<Block>, k: nat, lo: int, hi: int)
      requires Wf(list, lo, hi) && k < |list|
      ensures GoodBlock(list[k], lo, hi)
    {
    }

    static lemma ServedRest(list: seq<Block>, k: nat, byteSize: int, at: int, rest: Block, reverse: bool, lo: int,
                            hi: int)
      requires Wf(list, lo, hi) && k < |list| && Aligned(byteSize) && 0 < byteSize <= list[k].bytes
      requires rest == Block(if reverse then list[k].addr else list[k].addr + byteSize, list[k].bytes - byteSize)
      requires at == if reverse then list[k].End() - byteSize else list[k].addr
      ensures var next := list[..k] + (if byteSize == list[k].bytes then [] else [rest]) + list[k + 1..];
        && Inside(list[k], at, byteSize) && next == Take(list, k, at, byteSize)
        && Wf(next, lo, hi) && Total(next) == Total(list) - byteSize
    {
      var b := list[k];
      assert GoodBlock(b, lo, hi);
      EndInside(b, byteSize, at);
      assert Pieces(b, at, byteSize) == if byteSize == b.bytes then [] else [rest];
      hide Linked, Wf, Aligned, Pieces, Total;
      TakeKeeps(list, k, at, byteSize, lo, hi);
    }

    /** A search for size bytes starts at block k0: the one that the index entry leads to which
        mhac_GetBetterPrevMemChunk finds, else the first one. */
    ghost predicate StartsAt(k0: nat, size: IPtr, c: AllocatorCtx?)
      requires c != null ==> c.Valid()
      reads this, c, if c == null then {} else {c.prevChunks}
    {
      && k0 <= |blocks|
      && if c == null || size < FIRSTPOT then k0 == 0
         else exists cls: nat :: IsClass(size, cls) && IsBetter(Slot(blocks, k0), HEAD, cls, c)
    }

    /** The pointer an indexed search starts from. */
    method StartOfSearch(size: IPtr, c: AllocatorCtx?) returns (p: int, ghost k: nat)
      requires Valid() && Indexed(c) && (c == null || size < LONG_LIMIT) && RoundUp(size) <= free
      ensures k <= |blocks| && p == Slot(blocks, k) && (IndexEmpty(c) ==> k == 0) && StartsAt(k, size, c)
    {
      TotalFits(blocks, lower, upper);
      RoundUpCovers(size);
      p := GetBetterPrev(HEAD, size, c);
      k := 0;
      if p != HEAD {
        k :| 0 <= k < |blocks| && Slot(blocks, k) == p;
      }
    }

    /** A search with an empty index starts at the head. */
    lemma EmptyIndexStarts(size: IPtr, c: AllocatorCtx?)
      requires Valid() && (c != null ==> c.Valid()) && IndexEmpty(c)
      ensures forall k0: nat :: StartsAt(k0, size, c) ==> k0 == 0
      ensures Cleared(Entries(c)) == Entries(c)
    {
      forall k0: nat | StartsAt(k0, size, c)
        ensures k0 == 0
      {
        SlotOrder(blocks, k0, 0, lower, upper);
      }
    }

    /** What a served request took out of the list. */
    lemma ServedCells(was: seq<Block>, k: nat, mc: int, n: int)
      requires Wf(was, lower, upper) && k < |was| && (n > 0 ==> Inside(was[k], mc, n))
      ensures n > 0 ==> GoodBlock(Block(mc, n), lower, upper) && Cells(mc, n) <= FreeSet(was)
      ensures n > 0 ==> FreeSet(Take(was, k, mc, n)) == FreeSet(was) - Cells(mc, n)
    {
      if n > 0 {
        TakeKeeps(was, k, mc, n, lower, upper);
      }
    }

    /** `if (!mhac_IsIndexEmpty(mhac)) mhac_ClearIndex(mhac)` */
    method ForgetIndex(ghost size: IPtr, c: AllocatorCtx?) returns (empty: bool)
      requires Valid() && Indexed(c)
      modifies if c == null then {} else {c.prevChunks}
      ensures Valid() && Indexed(c) && IndexEmpty(c) && empty == old(IndexEmpty(c))
      ensures Entries(c) == Cleared(old(Entries(c))) && Cleared(Entries(c)) == Entries(c)
      ensures forall k0: nat :: StartsAt(k0, size, c) ==> k0 == 0
    {
      EmptyEntries(c, Entries(c));
      empty := IsIndexEmpty(c);
      if !empty {
        ClearIndex(c);
      }
      EmptyEntries(c, old(Entries(c)));
      EmptyIndexStarts(size, c);
    }

    /** What serving n bytes at mc from block k means for the list. */
    ghost predicate HandsOut(was: seq<Block>, k: int, mc: int, n: int, reverse: bool)
      reads this
    {
      && mc != NULL && Serves(was, k, mc, n, reverse)
      && (n > 0 ==>
        && blocks == Take(was, k, mc, n) && GoodBlock(Block(mc, n), lower, upper)
        && Cells(mc, n) <= FreeSet(was) && FreeCells() == FreeSet(was) - Cells(mc, n))
      && (n == 0 ==> blocks == was)
    }

    /** The search of stdAlloc from the indexed chunk on, and what follows when it finds something. */
    method Attempt(c: AllocatorCtx?, size: IPtr, reverse: bool) returns (mc: int, ghost k: nat, ghost k0: nat)
      requires Valid() && Indexed(c) && (c == null || size < LONG_LIMIT) && RoundUp(size) <= free
      modifies this, if c == null then {} else {c.prevChunks}
      ensures Valid() && Indexed(c) && old(StartsAt(k0, size, c)) && (old(IndexEmpty(c)) ==> k0 == 0)
      ensures mc == NULL ==> blocks == old(blocks) && free == old(free) && Entries(c) == old(Entries(c))
      ensures mc == NULL ==> (IndexEmpty(c) <==> old(IndexEmpty(c)))
      ensures mc == NULL <==> !FitsFrom(old(blocks), k0, RoundUp(size))
      ensures mc == NULL && k0 == 0 ==> !Fits(old(blocks), RoundUp(size))
      ensures mc != NULL ==> HandsOut(old(blocks), k, mc, RoundUp(size), reverse)
      ensures mc != NULL ==> IsChosen(old(blocks), k0, k, RoundUp(size), reverse) && Fits(old(blocks), RoundUp(size))
      ensures mc != NULL ==>
          k < |old(blocks)| && Entries(c) == AfterServe(old(Entries(c)), old(blocks), k, RoundUp(size), Levels(c))
    {
      var byteSize := RoundUp(size);
      RoundUpCovers(size);
      hide Wf, Linked, Aligned, RoundUp, Leads, Take, Cells, FreeSet, Inside, GoodBlock, StartsAt, AfterServe, Entries,
          IsChosen, FitsFrom, Fits, Indexed, IndexEmpty, Total;
      var p1;
      p1, k0 := StartOfSearch(size, c);
      var sane;
      sane, mc, k := Search(p1, byteSize, reverse, k0);
      SearchTells(blocks, k0, k, byteSize, mc != NULL, reverse);
      if mc != NULL {
        mc := Serve(mc, byteSize, reverse, c, k);
        ServedCells(old(blocks), k, mc, byteSize);
      }
    }

    /** stdAlloc.  With an index, a size that is negative as a LONG and passes the check against
        mh_Free would keep mhac_CalcIndex in its loop.  k is the block that serves the request, k0 the
        one at which the search started. */
    method StdAlloc(c: AllocatorCtx?, size: IPtr, reverse: bool) returns (mc: int, ghost k: nat, ghost k0: nat)
      requires Valid() && Indexed(c)
      requires c == null || size < LONG_LIMIT || free < RoundUp(size)
      modifies this, if c == null then {} else {c.prevChunks}
      ensures Valid() && Indexed(c)
      ensures mc != NULL <==> Fits(old(blocks), RoundUp(size))
      ensures mc == NULL || RoundUp(size) == 0 ==> blocks == old(blocks)
      ensures mc != NULL ==> Serves(old(blocks), k, mc, RoundUp(size), reverse)
      ensures mc != NULL && RoundUp(size) > 0 ==> blocks == Take(old(blocks), k, mc, RoundUp(size))
      ensures mc != NULL && RoundUp(size) > 0 ==> GoodBlock(Block(mc, RoundUp(size)), lower, upper)
      ensures mc != NULL && RoundUp(size) > 0 ==>
          Cells(mc, RoundUp(size)) <= old(FreeCells()) && FreeCells() == old(FreeCells()) - Cells(mc, RoundUp(size))
      ensures mc != NULL ==> old(StartsAt(k0, size, c)) && IsChosen(old(blocks), k0, k, RoundUp(size), reverse)
      ensures mc != NULL && !reverse ==>
          (IsFirstFit(old(blocks), k, RoundUp(size)) <==>
            !FitsBefore(old(blocks), k0, RoundUp(size)) || !FitsFrom(old(blocks), k0, RoundUp(size)))
      ensures mc != NULL ==>
          Entries(c) == AfterAlloc(old(Entries(c)), old(blocks), k0, k, RoundUp(size), Levels(c))
      ensures mc == NULL ==>
          Entries(c) == if old(free) < RoundUp(size) then old(Entries(c)) else Cleared(old(Entries(c)))
      decreases if IndexEmpty(c) then 0 else 1
    {
      hide Wf, Linked, Aligned, RoundUp, Leads, Take, Cells, FreeSet, Inside, GoodBlock, StartsAt, AfterServe, Serves,
          Entries, Cleared, FitsBefore, IsFirstFit, IsLastFit, IsChosen, IsFirstFitFrom, FitsFrom, Fits, Indexed,
          IndexEmpty, Total;
      var byteSize := RoundUp(size);
      RoundUpCovers(size);
      HeaderIsSane();
      mc, k, k0 := NULL, 0, 0;
      if !ValidateHeader() {
        return;
      }
      if free < byteSize {
        NothingFits(blocks, byteSize, lower, upper);
        return;
      }
      mc, k, k0 := Attempt(c, size, reverse);
      if mc == NULL {
        var empty := ForgetIndex(size, c);
        if empty {
          return;
        }
        ghost var head;
        mc, k, head := StdAlloc(c, size, reverse);
        if mc == NULL {
          return;
        }
        assert head == 0;
        SearchAgain(old(blocks), k0, k, byteSize, reverse);
      }
      if !reverse {
        WhenFirstFit(old(blocks), k0, k, byteSize);
      }
    }

    /** What stdAlloc makes of a request for size bytes: mc is NULL when no chunk fits, else the asked end of the
        chunk that a search from where the index leads to comes upon; now and entries are the list and the index
        afterwards. */
    ghost predicate Grants(c: AllocatorCtx, size: IPtr, reverse: bool, mc: int, now: seq<Block>, entries: seq<int>)
      reads this, c, c.prevChunks
    {
      if mc == NULL then
        && !Fits(blocks, RoundUp(size)) && now == blocks
        && entries == if free < RoundUp(size) then Entries(c) else Cleared(Entries(c))
      else
        && c.Valid()
        && exists k: nat, k0: nat ::
          && StartsAt(k0, size, c) && IsChosen(blocks, k0, k, RoundUp(size), reverse)
          && Serves(blocks, k, mc, RoundUp(size), reverse)
          && now == (if RoundUp(size) == 0 then blocks else Take(blocks, k, mc, RoundUp(size)))
          && entries == AfterAlloc(Entries(c), blocks, k0, k, RoundUp(size), Levels(c))
    }

    /** From a single chunk stdAlloc takes one of its ends. */
    lemma OneChunkGrants(c: AllocatorCtx, size: IPtr, reverse: bool)
      requires |blocks| == 1
      ensures forall mc, now, entries :: mc != NULL && Grants(c, size, reverse, mc, now, entries) ==>
          mc == if reverse then blocks[0].End() - RoundUp(size) else blocks[0].addr
    {
      hide StartsAt, IsChosen, RoundUp, Entries, AfterAlloc;
    }

    // ---------- deallocation ----------

    /** The walk of stdDealloc to the first chunk at or behind p3; alert when p4 lies behind its start. */
    method FindGap(addr: int, p3: int, p4: int, c: AllocatorCtx?)
      returns (sane: bool, alert: bool, p1: int, p2: int, ghost k: nat)
      requires Valid() && Indexed(c) && blocks != [] && p3 == RoundDown(addr)
      ensures sane && k <= |blocks| && p1 == Slot(blocks, k) && p2 == At(blocks, k)
      ensures k > 0 ==> blocks[k - 1].addr < p3
      ensures k < |blocks| ==> p3 <= blocks[k].addr
      ensures alert <==> k < |blocks| && blocks[k].addr < p4
    {
      p1, p2, k := StartOfWalk(addr, p3, c);
      hide Linked, Wf, At, Slot, Total, Aligned, NextOf, ValidateChunk, Indexed;
      Standing(k);
      sane, alert := true, false;
      while p2 != NULL
        invariant sane && !alert && k <= |blocks| && p1 == Slot(blocks, k) && p2 == At(blocks, k)
        invariant k > 0 ==> blocks[k - 1].addr < p3
        decreases |blocks| - k
      {
        Standing(k);
        ChunkIsSane(k);
        if !ValidateChunk(p2) {
          sane := false;
          return;
        }
        if p2 >= p3 {
          alert := p4 > p2;
          return;
        }
        p1 := p2;
        p2 := Next(p2);
        k := k + 1;
      }
      Standing(k);
    }

    /** Where the walk starts: the header or a chunk in front of the address. */
    method StartOfWalk(addr: int, p3: int, c: AllocatorCtx?) returns (p1: int, p2: int, ghost k: nat)
      requires Valid() && Indexed(c) && blocks != [] && p3 == RoundDown(addr)
      ensures k < |blocks| && p1 == Slot(blocks, k) && p2 == At(blocks, k)
      ensures k > 0 ==> blocks[k - 1].addr < p3
    {
      if c != null {
        EntriesReadable(c);
      }
      p1 := GetCloserPrev(HEAD, addr, c);
      k := 0;
      if p1 != HEAD {
        assert Leads(blocks, p1);
        k :| 0 <= k < |blocks| && Slot(blocks, k) == p1;
      }
      SlotNext(first, chunk, blocks, k, lower, upper);
      p2 := Next(p1);
      if p1 != HEAD {
        BelowAligned(blocks, k, addr, lower, upper);
      }
    }

    /** `if (p4 == p2 && p2 != NULL)`: the chunk behind is swallowed and leaves the index. */
    method SwallowRight(p2: int, p4: int, c: AllocatorCtx?, ghost list: seq<Block>, ghost i: nat, ghost m: Block,
                        ghost j: nat)
      returns (next: int, end: int)
      requires (p2 != NULL ==> p2 in chunk) && AllReadable(c, chunk) && NoneLeads(c, first, chunk, p2)
      requires EntriesLead(c, list) && i <= j <= |list|
      requires forall x :: i <= x < j ==> (p4 == p2 && p2 != NULL && list[x].addr == p2) || Avoids(c, list[x].addr)
      modifies if c == null then {} else {c.prevChunks}
      ensures next == if p4 == p2 && p2 != NULL then chunk[p2].next else p2
      ensures end == if p4 == p2 && p2 != NULL then p4 + chunk[p2].bytes else p4
      ensures EntriesLead(c, list[..i] + [m] + list[j..])
      ensures Entries(c) == if p4 == p2 && p2 != NULL then AfterClaim(old(Entries(c)), p2, p2) else old(Entries(c))
    {
      next, end := p2, p4;
      if p4 == p2 && p2 != NULL {
        Claimed(p2, c);
        end := end + chunk[p2].bytes;
        next := chunk[p2].next;
      }
      if c != null {
        forall y | 0 <= y < ALLOCATORCTXINDEXSIZE && c.prevChunks[y] != NULL
          ensures Leads(list[..i] + [m] + list[j..], c.prevChunks[y])
        {
          LeadsKept(list, i, [m], j, c.prevChunks[y]);
        }
      }
    }

    /** The merging half of stdDealloc when the chunk in front of p3, if any, does not touch it. */
    method PutApart(p1: int, p2: int, p3: int, n: int, c: AllocatorCtx?, ghost k: nat)
      requires k <= |blocks|
      requires Valid() && Indexed(c) && GivesBack(k, p1, p2, p3, n) && !JoinsLeft(blocks, k, p3) && blocks != []
      modifies this, if c == null then {} else {c.prevChunks}
      ensures Valid() && Indexed(c) && blocks == Give(old(blocks), k, p3, n)
      ensures Entries(c) == AfterGive(old(Entries(c)), old(blocks), k, p3, n, Levels(c))
    {
      hide Linked, Wf, Aligned, Leads, Slot, Total, GivesBack, Merged, To, Give, JoinsLeft, JoinsRight, NextOf,
          AllReadable, EntriesLead, Avoids, NextSet, At, NoneLeads, LeadAlone, Entries, AfterClaim, AfterCreate,
          AfterGive;
      ghost var was, m := blocks, Merged(blocks, k, p3, n);
      ghost var j: nat := To(blocks, k, p3 + n);
      Giving(k, p1, p2, p3, n, m, j);
      GapChunks(k, p1, p2, p3, n, j);
      ReadableNow(c);
      GapEntries(c, k, p1, p2, p3, n);
      GivenApart(Entries(c), was, k, p3, n, Levels(c));
      SetNext(p1, p3);
      ghost var midFirst, midChunk := first, chunk;
      StillReadable(c, old(first), old(chunk), p1, p3, first, chunk);
      NoneLeadsNow(c, old(first), old(chunk), p1, p2, p3, first, chunk);
      var q, p4 := SwallowRight(p2, p3 + n, c, was, k, m, j);
      chunk := chunk[p3 := MemChunk(q, p4 - p3)];
      free := free + n;
      blocks := was[..k] + [m] + was[j..];
      OneReplaced(old(first), old(chunk), was, k, m, j, midFirst, midChunk, chunk, lower, upper);
      Announce(p3, p1, c, k);
    }

    /** The merging half of stdDealloc when the chunk p1 in front of p3 touches it and grows. */
    method PutJoined(p1: int, p2: int, p3: int, n: int, c: AllocatorCtx?, ghost k: nat)
      requires k <= |blocks|
      requires Valid() && Indexed(c) && GivesBack(k, p1, p2, p3, n) && JoinsLeft(blocks, k, p3)
      modifies this, if c == null then {} else {c.prevChunks}
      ensures Valid() && Indexed(c) && blocks == Give(old(blocks), k, p3, n)
      ensures Entries(c) == AfterGive(old(Entries(c)), old(blocks), k, p3, n, Levels(c))
    {
      hide Linked, Wf, Aligned, Leads, Slot, Total, GivesBack, Merged, To, Give, JoinsLeft, JoinsRight, NextOf,
          AllReadable, EntriesLead, Avoids, NextSet, At, NoneLeads, LeadAlone, Entries, AfterClaim, AfterCreate,
          AfterGive;
      ghost var was, m := blocks, Merged(blocks, k, p3, n);
      ghost var j: nat := To(blocks, k, p3 + n);
      GivingJoined(k, p1, p2, p3, n, m, j);
      GapChunks(k, p1, p2, p3, n, j);
      ReadableNow(c);
      assert NextSet(first, chunk, Slot(blocks, k - 1), m.addr, first, chunk) by {
        NothingToSet(first, chunk, blocks, k - 1, lower, upper);
      }
      GapEntries(c, k, p1, p2, p3, n);
      GivenJoined(Entries(c), was, k, p3, n, Levels(c));
      ClaimLeft(p1, c, Slot(blocks, k - 1), p2);
      var q, p4 := SwallowRight(p2, p3 + n, c, was, k - 1, m, j);
      chunk := chunk[p1 := MemChunk(q, p4 - p1)];
      free := free + n;
      blocks := was[..k - 1] + [m] + was[j..];
      OneReplaced(old(first), old(chunk), was, k - 1, m, j, first, old(chunk), chunk, lower, upper);
    }

    lemma ReadableNow(c: AllocatorCtx?)
      requires Valid() && Indexed(c)
      ensures AllReadable(c, chunk) && EntriesLead(c, blocks)
    {
      if c != null {
        EntriesReadable(c);
      }
    }

    /** Only the pointer to block k leads to it. */
    lemma WhoLeads(c: AllocatorCtx?, k: nat, p: int)
      requires Valid() && Indexed(c) && k <= |blocks| && p == At(blocks, k)
      ensures p != NULL ==> LeadAlone(c, first, chunk, Slot(blocks, k), p)
    {
      if c != null && p != NULL {
        EntriesReadable(c);
        EntriesInOrder(c, k);
      }
    }

    /** The entries that lead to the chunks around the place of a block that is given back. */
    lemma GapEntries(c: AllocatorCtx?, k: nat, p1: int, p2: int, p3: int, n: int)
      requires Valid() && Indexed(c) && GivesBack(k, p1, p2, p3, n)
      ensures p2 != NULL <==> k < |blocks|
      ensures p2 != NULL ==> p2 == blocks[k].addr && LeadAlone(c, first, chunk, p1, p2)
      ensures p2 != p3
      ensures k > 0 ==> LeadAlone(c, first, chunk, Slot(blocks, k - 1), p1)
    {
      Standing(k);
      WhoLeads(c, k, p2);
      if k > 0 {
        Standing(k - 1);
        WhoLeads(c, k - 1, p1);
      }
    }

    /** mhac_MemChunkClaimed for a chunk that grows: no entry is the chunk any more. */
    method ClaimLeft(p1: int, c: AllocatorCtx?, ghost pp: int, ghost p2: int)
      requires AllReadable(c, chunk) && EntriesLead(c, blocks) && p1 != NULL && LeadAlone(c, first, chunk, pp, p1)
      requires p2 != NULL ==> LeadAlone(c, first, chunk, p1, p2)
      modifies if c == null then {} else {c.prevChunks}
      ensures AllReadable(c, chunk) && EntriesLead(c, blocks) && Avoids(c, p1) && NoneLeads(c, first, chunk, p2)
      ensures Entries(c) == AfterClaim(old(Entries(c)), p1, pp)
    {
      Claimed(p1, c);
    }

    /** stdDealloc's block and the place found for it. */
    ghost predicate GivesBack(k: nat, p1: int, p2: int, p3: int, n: int)
      reads this
    {
      && Between(blocks, k, p3, n) && GoodBlock(Block(p3, n), lower, upper)
      && p1 == Slot(blocks, k) && p2 == At(blocks, k)
    }

    /** The chunks around the place of a block that is given back. */
    lemma GapChunks(k: nat, p1: int, p2: int, p3: int, n: int, j: nat)
      requires Valid() && GivesBack(k, p1, p2, p3, n) && j == To(blocks, k, p3 + n)
      ensures k <= j <= |blocks| && p3 > 0 && (p1 == HEAD || p1 in chunk) && p1 == Slot(blocks, k)
      ensures k > 0 ==>
          p1 > 0 && p1 == blocks[k - 1].addr == At(blocks, k - 1) && p1 in chunk && Next(Slot(blocks, k - 1)) == p1
      ensures p2 != NULL ==> k < |blocks| && p2 == blocks[k].addr && p2 in chunk
      ensures p2 != NULL ==> chunk[p2].next == At(blocks, k + 1) && p2 + chunk[p2].bytes == blocks[k].End()
      ensures p2 != NULL ==> p2 > p1
      ensures p3 + n == p2 && p2 != NULL ==> j == k + 1
      ensures !(p3 + n == p2 && p2 != NULL) ==> j == k && At(blocks, j) == p2
    {
      SlotNext(first, chunk, blocks, k, lower, upper);
      Standing(k);
      if k > 0 {
        Standing(k - 1);
        SlotNext(first, chunk, blocks, k - 1, lower, upper);
      }
    }

    /** What giving a block back does to the list, for the case that it does not touch the chunk in front. */
    lemma Giving(k: nat, p1: int, p2: int, p3: int, n: int, m: Block, j: nat)
      requires Valid() && GivesBack(k, p1, p2, p3, n) && !JoinsLeft(blocks, k, p3)
      requires m == Merged(blocks, k, p3, n) && j == To(blocks, k, p3 + n)
      ensures k <= j <= |blocks| && m.addr == p3
      ensures j == k ==> m.bytes == n
      ensures j > k ==> m.End() == blocks[k].End()
      ensures forall x :: 0 <= x < |blocks| && !(k <= x < j) ==> blocks[x].addr != m.addr
      ensures Give(blocks, k, p3, n) == blocks[..k] + [m] + blocks[j..]
      ensures Wf(Give(blocks, k, p3, n), lower, upper) && Total(Give(blocks, k, p3, n)) == free + n
      ensures Slot(blocks[..k] + [m] + blocks[j..], k) == p1 && (blocks[..k] + [m] + blocks[j..])[k] == m
    {
      hide Linked, Aligned, Total;
      GiveKeeps(blocks, k, p3, n, lower, upper);
      NotAStart(blocks, k, p3, n, lower, upper);
    }

    /** The same for the case that it touches the chunk in front. */
    lemma GivingJoined(k: nat, p1: int, p2: int, p3: int, n: int, m: Block, j: nat)
      requires Valid() && GivesBack(k, p1, p2, p3, n) && JoinsLeft(blocks, k, p3)
      requires m == Merged(blocks, k, p3, n) && j == To(blocks, k, p3 + n)
      ensures 0 < k <= j <= |blocks| && m.addr == p1
      ensures m.End() == if j == k then p3 + n else blocks[k].End()
      ensures forall x :: 0 <= x < |blocks| && !(k - 1 <= x < j) ==> blocks[x].addr != m.addr
      ensures Give(blocks, k, p3, n) == blocks[..k - 1] + [m] + blocks[j..]
      ensures Wf(Give(blocks, k, p3, n), lower, upper) && Total(Give(blocks, k, p3, n)) == free + n
    {
      hide Linked, Aligned, Total;
      GiveKeeps(blocks, k, p3, n, lower, upper);
      Distinct(blocks, lower, upper);
    }

    /** No chunk in the list: the block becomes the only one. */
    method PutOnly(p3: int, n: int, c: AllocatorCtx?)
      requires Valid() && Indexed(c) && blocks == [] && GoodBlock(Block(p3, n), lower, upper)
      modifies this
      ensures Valid() && Indexed(c) && blocks == [Block(p3, n)] && Entries(c) == old(Entries(c))
    {
      if c != null {
        forall i | 0 <= i < ALLOCATORCTXINDEXSIZE
          ensures c.prevChunks[i] == NULL
        {
        }
      }
      chunk := chunk[p3 := MemChunk(NULL, n)];
      first := p3;
      free := free + n;
      blocks := [Block(p3, n)];
      assert Total(blocks) == n;
    }

    /** stdDealloc: alert when part of the block is free already. */
    method StdDealloc(c: AllocatorCtx?, addr: int, size: IPtr) returns (alert: bool, ghost k: nat)
      requires Valid() && Indexed(c) && size > 0 && lower <= addr && addr + size <= upper
      modifies this, if c == null then {} else {c.prevChunks}
      ensures Valid() && Indexed(c)
      ensures alert <==> !(Cells(RoundDown(addr), Covering(addr, size)) !! old(FreeCells()))
      ensures alert ==> blocks == old(blocks)
      ensures !alert ==> FreeCells() == old(FreeCells()) + Cells(RoundDown(addr), Covering(addr, size))
      ensures !alert ==> Between(old(blocks), k, RoundDown(addr), Covering(addr, size))
      ensures !alert ==> blocks == Give(old(blocks), k, RoundDown(addr), Covering(addr, size))
      ensures Entries(c) == if alert then old(Entries(c)) else
          AfterGive(old(Entries(c)), old(blocks), k, RoundDown(addr), Covering(addr, size), Levels(c))
    {
      HeaderIsSane();
      k := 0;
      alert := false;
      if !ValidateHeader() {
        return;
      }
      var p3, n := RoundDown(addr), Covering(addr, size);
      CoveringBlock(addr, size, lower, upper);
      hide Wf, Linked, Aligned, Covering, RoundDown, Total, Give, Between, Slot, At, Cells, JoinsLeft, Indexed,
          AfterGive,
          Entries;
      if first == NULL {
        NoFirst();
        PutOnly(p3, n, c);
        OneBlock(Block(p3, n));
        GiveToNone(old(Entries(c)), p3, n, Levels(c));
        return;
      }
      NoFirst();
      var sane, p1, p2;
      sane, alert, p1, p2, k := FindGap(addr, p3, p3 + n, c);
      if !sane || alert {
        Overlap(k, p1, p2, p3, n);
        return;
      }
      if p1 != HEAD && p1 + chunk[p1].bytes > p3 {
        Overlap(k, p1, p2, p3, n);
        alert := true;
        return;
      }
      Overlap(k, p1, p2, p3, n);
      GiveKeeps(blocks, k, p3, n, lower, upper);
      if p1 != HEAD && p1 + chunk[p1].bytes == p3 {
        PutJoined(p1, p2, p3, n, c, k);
      } else {
        PutApart(p1, p2, p3, n, c, k);
      }
    }

    lemma NoFirst()
      requires Valid()
      ensures first == NULL <==> blocks == []
      ensures blocks == [] ==> FreeCells() == {}
    {
      Standing(0);
    }

    /** The two overlap checks of stdDealloc together are exact. */
    lemma Overlap(k: nat, p1: int, p2: int, p3: int, n: int)
      requires Valid() && k <= |blocks| && p1 == Slot(blocks, k) && p2 == At(blocks, k) &&
          GoodBlock(Block(p3, n), lower, upper)
      requires (k > 0 ==> blocks[k - 1].addr < p3) && (k < |blocks| ==> p3 <= blocks[k].addr)
      ensures p1 != HEAD ==> k > 0 && p1 in chunk && chunk[p1].bytes == blocks[k - 1].bytes && p1 == blocks[k - 1].addr
      ensures p1 == HEAD ==> k == 0
      ensures Cells(p3, n) !! FreeCells() <==>
        && !(k < |blocks| && blocks[k].addr < p3 + n)
        && !(p1 != HEAD && p1 + chunk[p1].bytes > p3)
      ensures Cells(p3, n) !! FreeCells() ==> Between(blocks, k, p3, n) && GivesBack(k, p1, p2, p3, n)
      ensures JoinsLeft(blocks, k, p3) <==> p1 != HEAD && p1 + chunk[p1].bytes == p3
    {
      ApartIsBetween(blocks, k, p3, n, lower, upper);
      if k > 0 {
        Standing(k - 1);
      }
    }

    // ---------- allocation at a given address ----------

    /** The search loop of nommu_AllocAbs for the chunk that holds p3..p4. */
    method FindHolder(p3: int, p4: int) returns (p1: int, p2: int, ghost k: nat)
      requires Valid()
      ensures p2 != NULL ==>
          k < |blocks| && p1 == Slot(blocks, k) && p2 == blocks[k].addr && p2 <= p3 && p4 <= blocks[k].End()
      ensures p2 == NULL ==> forall i :: 0 <= i < |blocks| ==> !(blocks[i].addr <= p3 && p4 <= blocks[i].End())
    {
      hide Linked, Wf, At, Slot, Total, NextOf, ValidateChunk;
      ListStart();
      p1, p2, k := HEAD, first, 0;
      while p2 != NULL
        invariant k <= |blocks| && p1 == Slot(blocks, k) && p2 == At(blocks, k)
        invariant forall i :: 0 <= i < k ==> !(blocks[i].addr <= p3 && p4 <= blocks[i].End())
        decreases |blocks| - k
      {
        Standing(k);
        ChunkIsSane(k);
        ChecksPass(k);
        if !Aligned(p2) || !Aligned(chunk[p2].bytes) {
          return p1, NULL, k;
        }
        if chunk[p2].next != NULL && p2 + chunk[p2].bytes >= chunk[p2].next {
          return p1, NULL, k;
        }
        if p2 + chunk[p2].bytes >= p4 && p2 <= p3 {
          return;
        }
        p1 := p2;
        p2 := Next(p2);
        k := k + 1;
      }
      Standing(k);
    }

    lemma ListStart()
      requires Valid()
      ensures Slot(blocks, 0) == HEAD && first == At(blocks, 0)
    {
    }

    /** The consistency checks of nommu_AllocAbs never reject a reachable chunk. */
    lemma ChecksPass(k: nat)
      requires Valid() && k < |blocks|
      ensures Aligned(blocks[k].addr) && Aligned(blocks[k].bytes)
      ensures At(blocks, k + 1) != NULL ==> blocks[k].End() < At(blocks, k + 1)
    {
    }

    /** `Check if there's memory left at the end.` */
    method WriteTail(p2: int, p4: int)
      requires p2 in chunk && p2 > 0
      modifies this`first, this`chunk
      ensures first == old(first) && chunk == AfterTail(old(chunk), p2, p4, p2 + old(chunk[p2].bytes))
    {
      var end, next := p2 + chunk[p2].bytes, chunk[p2].next;
      if end != p4 {
        chunk := chunk[p4 := MemChunk(next, end - p4)];
        SetNext(p2, p4);
      }
    }

    /** The pointer writes of nommu_AllocAbs. */
    method WriteCut(p1: int, p2: int, p3: int, p4: int)
      requires p2 in chunk && p2 > 0 && (p1 == HEAD || p1 in chunk)
      modifies this`first, this`chunk
      ensures CutFrom(old(first), old(chunk), p1, p2, p3, p4, p2 + old(chunk[p2].bytes), first, chunk)
    {
      TailKeeps(chunk, p2, p4, p2 + chunk[p2].bytes, p1);
      hide AfterTail, NextSet;
      WriteTail(p2, p4);
      if p2 != p3 {
        chunk := chunk[p2 := MemChunk(chunk[p2].next, p3 - p2)];
      } else {
        SetNext(p1, chunk[p2].next);
      }
    }

    /** Cutting the stretch p3..p4 out of the chunk p2. */
    method CutOut(p1: int, p2: int, p3: int, p4: int, ghost k: nat)
      requires Valid() && k < |blocks| && p1 == Slot(blocks, k) && p2 == blocks[k].addr &&
          Inside(blocks[k], p3, p4 - p3)
      modifies this
      ensures Valid() && blocks == Take(old(blocks), k, p3, p4 - p3)
    {
      hide Wf, Linked, Aligned, Total, Take, Slot, At, NextOf, Inside, CutFrom, AfterTail, NextSet, Pieces;
      ghost var was := blocks;
      Holder(k, p3, p4);
      WriteCut(p1, p2, p3, p4);
      free := free - (p4 - p3);
      blocks := Take(was, k, p3, p4 - p3);
      CutLinks(old(first), old(chunk), was, k, p3, p4, first, chunk, lower, upper);
    }

    lemma Holder(k: nat, p3: int, p4: int)
      requires Valid() && k < |blocks| && Inside(blocks[k], p3, p4 - p3)
      ensures blocks[k].addr in chunk && chunk[blocks[k].addr] == MemChunk(At(blocks, k + 1), blocks[k].bytes) &&
          blocks[k].addr > 0
      ensures (Slot(blocks, k) == HEAD || Slot(blocks, k) in chunk) && Slot(blocks, k) < blocks[k].addr
      ensures Wf(Take(blocks, k, p3, p4 - p3), lower, upper) && Total(Take(blocks, k, p3, p4 - p3)) == free - (p4 - p3)
      ensures blocks[k].addr <= p3 < p4 <= blocks[k].End()
    {
      SlotNext(first, chunk, blocks, k, lower, upper);
      Standing(k);
      TakeKeeps(blocks, k, p3, p4 - p3, lower, upper);
      SlotOrder(blocks, k, k + 1, lower, upper);
    }

    /** The part of nommu_AllocAbs that works on the header which holds the location.  Its caller
        AllocAbs turns requests for no bytes away. */
    method AllocAbs(c: AllocatorCtx?, location: int, size: IPtr) returns (r: int, ghost k: nat)
      requires Valid() && Indexed(c) && size > 0 && lower <= location && location + size <= upper
      modifies this, if c == null then {} else {c.prevChunks}
      ensures Valid() && Indexed(c)
      ensures r != NULL <==> Cells(RoundDown(location), Covering(location, size)) <= old(FreeCells())
      ensures r == NULL ==> blocks == old(blocks)
      ensures r != NULL ==> r == RoundDown(location) && IndexEmpty(c)
      ensures r != NULL ==> FreeCells() == old(FreeCells()) - Cells(RoundDown(location), Covering(location, size))
      ensures r != NULL ==> k < |old(blocks)| && Inside(old(blocks)[k], RoundDown(location), Covering(location, size))
      ensures r != NULL ==> blocks == Take(old(blocks), k, RoundDown(location), Covering(location, size))
    {
      var p3, n := RoundDown(location), Covering(location, size);
      CoveringBlock(location, size, lower, upper);
      hide Wf, Linked, Aligned, Covering, RoundDown, Total, Take, Slot, At, Cells, FreeSet, Inside;
      var p1, p2;
      p1, p2, k := FindHolder(p3, p3 + n);
      if p2 == NULL {
        NoHolder(p3, n);
        r := NULL;
        return;
      }
      HeldBy(k, p3, n);
      ClearIndex(c);
      CutOut(p1, p2, p3, p3 + n, k);
      r := p3;
    }

    lemma NoHolder(p3: int, n: int)
      requires Valid() && GoodBlock(Block(p3, n), lower, upper)
      requires forall i :: 0 <= i < |blocks| ==> !(blocks[i].addr <= p3 && p3 + n <= blocks[i].End())
      ensures !(Cells(p3, n) <= FreeCells())
    {
      if Cells(p3, n) <= FreeCells() {
        var k := InOneBlock(blocks, p3, n, lower, upper);
        assert false;
      }
    }

    lemma HeldBy(k: nat, p3: int, n: int)
      requires Valid() && GoodBlock(Block(p3, n), lower, upper) && k < |blocks|
      requires blocks[k].addr <= p3 && p3 + n <= blocks[k].End()
      ensures Inside(blocks[k], p3, n) && Cells(p3, n) <= FreeCells()
      ensures FreeSet(Take(blocks, k, p3, n)) == FreeCells() - Cells(p3, n)
    {
      TakeKeeps(blocks, k, p3, n, lower, upper);
    }
  }
}
