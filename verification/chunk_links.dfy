/** Free chunks as they stand in memory: how the next pointers spell out a free list, and what the
    pointer changes of the allocator do to it. */
module ChunkLinks {
  import opened FreeList
  import opened MemoryIndex

  const NULL: int := 0

  /** (struct MemChunk *)&mh->mh_First: the header seen as the chunk before the first chunk. */
  const HEAD: int := -1

  datatype MemChunk = MemChunk(next: int, bytes: int)

  /** The address of block k, or NULL behind the last block. */
  function At(list: seq<Block>, k: nat): int {
    if k < |list| then list[k].addr else NULL
  }

  /** The pointer whose mc_Next leads to block k. */
  function Slot(list: seq<Block>, k: nat): int
    requires k <= |list|
  {
    if k == 0 then HEAD else list[k - 1].addr
  }

  /** p is the header or a chunk of the list, and another chunk follows it. */
  ghost predicate Leads(list: seq<Block>, p: int) {
    exists k :: 0 <= k < |list| && Slot(list, k) == p
  }

  /** The pointers first and chunk spell out the list. */
  ghost predicate Linked(first: int, chunk: map<int, MemChunk>, list: seq<Block>) {
    && first == At(list, 0)
    && forall k {:trigger list[k].addr in chunk} {:trigger chunk[list[k].addr]} :: 0 <= k < |list| ==>
         list[k].addr in chunk && chunk[list[k].addr] == MemChunk(At(list, k + 1), list[k].bytes)
  }

  function NextOf(first: int, chunk: map<int, MemChunk>, p: int): int
    requires p == HEAD || p in chunk
  {
    if p == HEAD then first else chunk[p].next
  }

  lemma SlotNext(first: int, chunk: map<int, MemChunk>, list: seq<Block>, k: nat, lo: int, hi: int)
    requires Linked(first, chunk, list) && Wf(list, lo, hi) && lo > 0 && k <= |list|
    ensures Slot(list, k) == HEAD || Slot(list, k) in chunk
    ensures NextOf(first, chunk, Slot(list, k)) == At(list, k)
  {
    if k > 0 {
      assert list[k - 1].addr in chunk;
    }
  }

  /** The blocks of a list start at different addresses, none of them NULL or HEAD. */
  lemma Distinct(list: seq<Block>, lo: int, hi: int)
    requires Wf(list, lo, hi) && lo > 0
    ensures forall i, k :: 0 <= i < |list| && 0 <= k < |list| && i != k ==> list[i].addr != list[k].addr
    ensures forall i :: 0 <= i < |list| ==> list[i].addr > 0
  {
  }

  /** Slots are ordered, so a pointer names one position only. */
  lemma SlotOrder(list: seq<Block>, i: nat, k: nat, lo: int, hi: int)
    requires Wf(list, lo, hi) && lo > 0 && i <= |list| && k <= |list|
    ensures Slot(list, i) == Slot(list, k) <==> i == k
    ensures i < k ==> Slot(list, i) < Slot(list, k)
    ensures i < k ==> Slot(list, k) != NULL && Slot(list, i) < At(list, i) <= Slot(list, k)
  {
  }

  /** Replacing the blocks i..j of a list by mid, in memory. */
  lemma Relinked(first: int, chunk: map<int, MemChunk>, list: seq<Block>, i: nat, mid: seq<Block>, j: nat,
                 newFirst: int, newChunk: map<int, MemChunk>)
    requires Linked(first, chunk, list) && i <= j <= |list|
    requires var now := list[..i] + mid + list[j..];
      && (if i == 0 then newFirst == At(now, 0) else newFirst == first)
      && (i > 0 ==>
          list[i - 1].addr in newChunk && newChunk[list[i - 1].addr] == MemChunk(At(now, i), list[i - 1].bytes))
      && (forall m :: 0 <= m < |mid| ==>
          mid[m].addr in newChunk && newChunk[mid[m].addr] == MemChunk(At(now, i + m + 1), mid[m].bytes))
    requires forall k :: 0 <= k < |list| && (k + 1 < i || j <= k) ==>
        list[k].addr in newChunk && newChunk[list[k].addr] == chunk[list[k].addr]
    ensures Linked(newFirst, newChunk, list[..i] + mid + list[j..])
  {
    var now := list[..i] + mid + list[j..];
    forall k | 0 <= k < |now|
      ensures now[k].addr in newChunk && newChunk[now[k].addr] == MemChunk(At(now, k + 1), now[k].bytes)
    {
      if k < i {
        assert now[k] == list[k];
      } else if k < i + |mid| {
        assert now[k] == mid[k - i];
      } else {
        var o := k - i - |mid| + j;
        assert now[k] == list[o];
        assert At(now, k + 1) == At(list, o + 1);
      }
    }
  }

  /** Which pointers still lead to a chunk after blocks i..j were replaced by mid. */
  lemma LeadsKept(list: seq<Block>, i: nat, mid: seq<Block>, j: nat, p: int)
    requires i <= j <= |list| && Leads(list, p)
    requires forall k :: i <= k <= j && k < |list| && (k > i || mid == []) ==> p != Slot(list, k)
    ensures Leads(list[..i] + mid + list[j..], p)
  {
    var now := list[..i] + mid + list[j..];
    var k :| 0 <= k < |list| && Slot(list, k) == p;
    if k <= i {
      assert Slot(now, k) == p;
    } else {
      var o := k - j + i + |mid|;
      assert list[k - 1] == now[o - 1];
      assert Slot(now, o) == p;
    }
  }

  lemma RestFits(b: Block, byteSize: int, rest: Block, reverse: bool)
    requires Aligned(b.addr) && Aligned(b.bytes) && Aligned(byteSize) && 0 <= byteSize < b.bytes
    requires rest == Block(if reverse then b.addr else b.addr + byteSize, b.bytes - byteSize)
    ensures rest.bytes > 0 && Aligned(rest.addr) && Aligned(rest.bytes) && b.addr <= rest.addr && rest.End() <= b.End()
  {
  }

  lemma Shrunk(list: seq<Block>, k: nat, rest: Block, lo: int, hi: int)
    requires Wf(list, lo, hi) && k < |list| && rest.bytes > 0 && Aligned(rest.addr) && Aligned(rest.bytes)
    requires list[k].addr <= rest.addr && rest.End() <= list[k].End()
    ensures Wf(list[..k] + [rest] + list[k + 1..], lo, hi)
  {
    hide Aligned;
    AroundBounds(list, k, lo, hi);
    WfConcat(list[..k], [rest], lo, list[k].addr - MEMCHUNK_TOTAL, list[k].End());
    WfConcat(list[..k] + [rest], list[k + 1..], lo, list[k].End(), hi);
  }

  /** The effect of `p->mc_Next = q` on the header and the chunks. */
  ghost predicate NextSet(first: int, chunk: map<int, MemChunk>, p: int, q: int, newFirst: int, newChunk: map<int,
                          MemChunk>) {
    if p == HEAD then newFirst == q && newChunk == chunk
    else p in chunk && newFirst == first && newChunk == chunk[p := MemChunk(q, chunk[p].bytes)]
  }

  /** Block k is unlinked by `p1->mc_Next = p2->mc_Next`. */
  lemma UnlinkedWhole(first: int, chunk: map<int, MemChunk>, list: seq<Block>, k: nat, newFirst: int,
                      newChunk: map<int, MemChunk>, lo: int, hi: int)
    requires Linked(first, chunk, list) && Wf(list, lo, hi) && lo > 0 && k < |list|
    requires NextSet(first, chunk, Slot(list, k), At(list, k + 1), newFirst, newChunk)
    ensures Linked(newFirst, newChunk, list[..k] + [] + list[k + 1..])
  {
    hide Wf, Linked, At, NextSet, Slot;
    AroundNone(first, chunk, list, k, newFirst, newChunk, lo, hi);
    Relinked(first, chunk, list, k, [], k + 1, newFirst, newChunk);
  }

  lemma AroundNone(first: int, chunk: map<int, MemChunk>, list: seq<Block>, k: nat, newFirst: int, newChunk: map<int,
                   MemChunk>, lo: int, hi: int)
    requires Linked(first, chunk, list) && Wf(list, lo, hi) && lo > 0 && k < |list|
    requires NextSet(first, chunk, Slot(list, k), At(list, k + 1), newFirst, newChunk)
    ensures var now := list[..k] + [] + list[k + 1..];
      && (if k == 0 then newFirst == At(now, 0) else newFirst == first)
      && (k > 0 ==>
          list[k - 1].addr in newChunk && newChunk[list[k - 1].addr] == MemChunk(At(now, k), list[k - 1].bytes))
    ensures forall x :: 0 <= x < |list| && (x + 1 < k || k + 1 <= x) ==>
        list[x].addr in newChunk && newChunk[list[x].addr] == chunk[list[x].addr]
  {
    Distinct(list, lo, hi);
    hide Wf;
    assert At(list[..k] + [] + list[k + 1..], k) == At(list, k + 1);
    assert k > 0 ==> list[k - 1].addr in chunk;
    forall x | 0 <= x < |list| && x + 1 != k
      ensures list[x].addr in newChunk && newChunk[list[x].addr] == chunk[list[x].addr]
    {
      assert list[x].addr in chunk;
    }
  }

  /** Blocks i..j are replaced by the one block m, to which the chunk before them leads now. */
  lemma OneReplaced(first: int, chunk: map<int, MemChunk>, list: seq<Block>, i: nat, m: Block, j: nat,
                    midFirst: int, midChunk: map<int, MemChunk>, newChunk: map<int, MemChunk>, lo: int, hi: int)
    requires Linked(first, chunk, list) && Wf(list, lo, hi) && lo > 0 && i <= j <= |list| && m.addr > 0
    requires forall x :: 0 <= x < |list| && !(i <= x < j) ==> list[x].addr != m.addr
    requires NextSet(first, chunk, Slot(list, i), m.addr, midFirst, midChunk)
    requires newChunk == midChunk[m.addr := MemChunk(At(list, j), m.bytes)]
    ensures Linked(midFirst, newChunk, list[..i] + [m] + list[j..])
  {
    hide Wf, Linked, At, NextSet, Slot;
    AroundOne(first, chunk, list, i, m, j, lo, hi);
    ThenWritten(first, chunk, Slot(list, i), m.addr, midFirst, midChunk, At(list, j), m.bytes);
    OthersKept(chunk, newChunk, list, i, j, Slot(list, i), m.addr);
    Relinked(first, chunk, list, i, [m], j, midFirst, newChunk);
  }

  /** After setting the next pointer of p and then writing the chunk header at a. */
  lemma ThenWritten(first: int, chunk: map<int, MemChunk>, p: int, a: int, midFirst: int, midChunk: map<int,
                    MemChunk>, next: int, bytes: int)
    requires NextSet(first, chunk, p, a, midFirst, midChunk) && a != p
    ensures var now := midChunk[a := MemChunk(next, bytes)];
      && (if p == HEAD then midFirst == a
          else midFirst == first && p in now && p in chunk && now[p] == MemChunk(a, chunk[p].bytes))
      && (forall x :: x in chunk && x != p && x != a ==> x in now && now[x] == chunk[x])
  {
  }

  lemma OthersKept(chunk: map<int, MemChunk>, now: map<int, MemChunk>, list: seq<Block>, i: nat, j: nat, p: int, a: int)
    requires forall x :: x in chunk && x != p && x != a ==> x in now && now[x] == chunk[x]
    requires forall x :: 0 <= x < |list| && (x < i || j <= x) ==> list[x].addr in chunk && list[x].addr != a
    requires forall x :: 0 <= x < |list| && x + 1 != i ==> list[x].addr != p
    requires i <= j
    ensures forall k :: 0 <= k < |list| && (k + 1 < i || j <= k) ==>
        list[k].addr in now && now[list[k].addr] == chunk[list[k].addr]
  {
  }

  lemma AroundOne(first: int, chunk: map<int, MemChunk>, list: seq<Block>, i: nat, m: Block, j: nat, lo: int, hi: int)
    requires Linked(first, chunk, list) && Wf(list, lo, hi) && lo > 0 && i <= j <= |list|
    requires forall x :: 0 <= x < |list| && !(i <= x < j) ==> list[x].addr != m.addr
    ensures var now := list[..i] + [m] + list[j..]; At(now, i) == m.addr && At(now, i + 1) == At(list, j)
    ensures i > 0 ==> list[i - 1].addr in chunk && chunk[list[i - 1].addr].bytes == list[i - 1].bytes
    ensures forall x :: 0 <= x < |list| && x + 1 != i ==> list[x].addr != Slot(list, i)
    ensures forall x :: 0 <= x < |list| && (x < i || j <= x) ==> list[x].addr in chunk && list[x].addr != m.addr
    ensures if i == 0 then Slot(list, i) == HEAD else Slot(list, i) == list[i - 1].addr && Slot(list, i) != HEAD
    ensures m.addr > 0 ==> m.addr != Slot(list, i)
  {
    Distinct(list, lo, hi);
  }

  /** Addresses inside block k are not where another block starts. */
  lemma OthersApart(list: seq<Block>, k: nat, a: int, lo: int, hi: int)
    requires Wf(list, lo, hi) && lo > 0 && k < |list|
    requires list[k].addr <= a < list[k].End()
    ensures forall i :: 0 <= i < |list| && i != k ==> list[i].addr != a
    ensures a > 0 && Slot(list, k) != a
  {
    forall i | 0 <= i < |list| && i != k
      ensures list[i].addr != a
    {
      assert i < k || k < i;
    }
    assert k > 0 ==> list[k - 1].addr < list[k].addr;
  }

  /** Some block has room for n bytes: what the plain search from the head of the list looks for. */
  ghost predicate Fits(list: seq<Block>, n: int) {
    exists k :: 0 <= k < |list| && list[k].bytes >= n
  }

  /** n bytes at address at come from the end of block k that the request asked for. */
  ghost predicate Serves(list: seq<Block>, k: int, at: int, n: int, reverse: bool) {
    && 0 <= k < |list| && n <= list[k].bytes
    && at == (if reverse then list[k].End() - n else list[k].addr)
    && (n > 0 ==> Inside(list[k], at, n))
  }

  ghost predicate IsFirstFit(list: seq<Block>, k: int, n: int) {
    0 <= k < |list| && list[k].bytes >= n && forall i :: 0 <= i < k ==> list[i].bytes < n
  }

  /** Some block from k0 on has room for n bytes. */
  ghost predicate FitsFrom(list: seq<Block>, k0: int, n: int) {
    exists k :: 0 <= k0 <= k < |list| && list[k].bytes >= n
  }

  /** Block k is the first one from k0 on that has room for n bytes. */
  ghost predicate IsFirstFitFrom(list: seq<Block>, k0: int, k: int, n: int) {
    0 <= k0 <= k < |list| && list[k].bytes >= n && forall i :: k0 <= i < k ==> list[i].bytes < n
  }

  /** Some block in front of k0 has room for n bytes. */
  ghost predicate FitsBefore(list: seq<Block>, k0: int, n: int) {
    exists k :: 0 <= k < k0 && k < |list| && list[k].bytes >= n
  }

  ghost predicate IsLastFit(list: seq<Block>, k: int, n: int) {
    0 <= k < |list| && list[k].bytes >= n && forall i :: k < i < |list| ==> list[i].bytes < n
  }

  /** The block that serves a request when the search starts at block k0: the last one that fits, or the
      first one from k0 on, or, when there is none, the first one of the list. */
  ghost predicate IsChosen(list: seq<Block>, k0: int, k: int, n: int, reverse: bool) {
    if reverse then IsLastFit(list, k, n)
    else if FitsFrom(list, k0, n) then IsFirstFitFrom(list, k0, k, n)
    else IsFirstFit(list, k, n)
  }

  /** It is the first fit of the whole list if and only if nothing fits in front of k0, or nothing from
      there on. */
  lemma WhenFirstFit(list: seq<Block>, k0: int, k: int, n: int)
    requires IsChosen(list, k0, k, n, false)
    ensures IsFirstFit(list, k, n) <==> !FitsBefore(list, k0, n) || !FitsFrom(list, k0, n)
  {
  }

  /** What a search from k0 on tells: some is whether it found a block, k. */
  lemma SearchTells(list: seq<Block>, k0: nat, k: int, n: int, some: bool, reverse: bool)
    requires k0 <= |list|
    requires !some ==> forall i :: k0 <= i < |list| ==> list[i].bytes < n
    requires some ==> k0 <= k < |list| && list[k].bytes >= n
    requires some && !reverse ==> forall i :: k0 <= i < k ==> list[i].bytes < n
    requires some && reverse ==> forall i :: k < i < |list| ==> list[i].bytes < n
    ensures FitsFrom(list, k0, n) <==> some
    ensures some ==> IsChosen(list, k0, k, n, reverse) && Fits(list, n)
    ensures !some && k0 == 0 ==> !Fits(list, n)
  {
  }

  /** A search from the head that follows a vain one from k0 on. */
  lemma SearchAgain(list: seq<Block>, k0: int, k: int, n: int, reverse: bool)
    requires IsChosen(list, 0, k, n, reverse) && !FitsFrom(list, k0, n)
    ensures IsChosen(list, k0, k, n, reverse)
  {
  }

  // ---------- the index as a value ----------

  ghost function Entries(c: AllocatorCtx?): seq<int>
    reads c, if c == null then {} else {c.prevChunks}
  {
    if c == null then [] else c.prevChunks[..]
  }

  ghost function Levels(c: AllocatorCtx?): nat
    reads c
  {
    if c == null then 0 else c.indexSize
  }

  ghost predicate IndexEmpty(c: AllocatorCtx?)
    reads c, if c == null then {} else {c.prevChunks}
  {
    c == null || (c.prevChunks.Length == ALLOCATORCTXINDEXSIZE
      && forall i :: 0 <= i < ALLOCATORCTXINDEXSIZE ==> c.prevChunks[i] == NULL)
  }

  function Cleared(s: seq<int>): seq<int> {
    seq(|s|, i => NULL)
  }

  /** Entries that are the chunk mc, or its predecessor pp, are forgotten. */
  function AfterClaim(s: seq<int>, mc: int, pp: int): seq<int> {
    seq(|s|, i requires 0 <= i < |s| => if s[i] == mc || s[i] == pp then NULL else s[i])
  }

  /** A chunk behind pp is noted in the classes it is large enough for, unless their entry leads to
      a chunk in front of it.  Pointers lie in list order, so that is an entry in front of pp. */
  function AfterCreate(s: seq<int>, bytes: int, pp: int, levels: nat): seq<int> {
    seq(|s|, i requires 0 <= i < |s| =>
      if i < levels && FIRSTPOT * Pow2(i) <= bytes && (s[i] == NULL || s[i] > pp) then pp else s[i])
  }

  /** The index after block k has served n bytes. */
  function AfterServe(s: seq<int>, list: seq<Block>, k: nat, n: int, levels: nat): seq<int>
    requires k < |list|
  {
    AfterCreate(AfterClaim(s, list[k].addr, Slot(list, k)), list[k].bytes - n, Slot(list, k), levels)
  }

  /** The index after a search from k0 on ended with block k; it is cleared when no block from k0 on fits. */
  ghost function AfterAlloc(s: seq<int>, list: seq<Block>, k0: nat, k: nat, n: int, levels: nat): seq<int>
    requires k < |list|
  {
    AfterServe(if FitsFrom(list, k0, n) then s else Cleared(s), list, k, n, levels)
  }

  lemma EmptyEntries(c: AllocatorCtx?, s: seq<int>)
    requires (c != null ==> c.Valid()) && |s| == |Entries(c)|
    ensures IndexEmpty(c) <==> Entries(c) == Cleared(s)
  {
    if Entries(c) == Cleared(s) && c != null {
      assert forall i :: 0 <= i < ALLOCATORCTXINDEXSIZE ==> c.prevChunks[i] == Entries(c)[i];
    }
  }

  /** The index after n bytes at addr were put in front of block k.  A chunk that grows at its end is
      forgotten and not noted again; so is the only chunk of a list. */
  function AfterGive(s: seq<int>, list: seq<Block>, k: nat, addr: int, n: int, levels: nat): seq<int>
    requires k <= |list|
  {
    var t := if JoinsLeft(list, k, addr) then AfterClaim(s, list[k - 1].addr, Slot(list, k - 1)) else s;
    var u := if JoinsRight(list, k, addr + n) then AfterClaim(t, list[k].addr, list[k].addr) else t;
    if list == [] || JoinsLeft(list, k, addr) then u
    else AfterCreate(u, Merged(list, k, addr, n).bytes, Slot(list, k), levels)
  }

  lemma GivenApart(s: seq<int>, list: seq<Block>, k: nat, addr: int, n: int, levels: nat)
    requires k <= |list| && !JoinsLeft(list, k, addr) && list != []
    ensures AfterGive(s, list, k, addr, n, levels)
            == AfterCreate(
                if k < |list| && addr + n == list[k].addr then AfterClaim(s, list[k].addr, list[k].addr) else s,
                           Merged(list, k, addr, n).bytes, Slot(list, k), levels)
  {
  }

  lemma GivenJoined(s: seq<int>, list: seq<Block>, k: nat, addr: int, n: int, levels: nat)
    requires k <= |list| && JoinsLeft(list, k, addr)
    ensures k > 0 && var t := AfterClaim(s, list[k - 1].addr, Slot(list, k - 1));
      AfterGive(s, list, k, addr, n, levels)
      == if k < |list| && addr + n == list[k].addr then AfterClaim(t, list[k].addr, list[k].addr) else t
  {
  }

  lemma GiveToNone(s: seq<int>, addr: int, n: int, levels: nat)
    ensures Between([], 0, addr, n) && Give([], 0, addr, n) == [Block(addr, n)]
    ensures AfterGive(s, [], 0, addr, n, levels) == s
  {
  }

  lemma NothingCreated(s: seq<int>, pp: int, levels: nat)
    ensures AfterCreate(s, 0, pp, levels) == s
  {
    forall i | 0 <= i < |s|
      ensures FIRSTPOT * Pow2(i) > 0
    {
      Pow2Monotone(0, i);
    }
  }

  /** Every entry of the index is NULL or leads to a chunk of the list. */
  ghost predicate EntriesLead(c: AllocatorCtx?, list: seq<Block>)
    reads c, if c == null then {} else {c.prevChunks}
  {
    c == null || (c.Valid() &&
        forall i :: 0 <= i < ALLOCATORCTXINDEXSIZE ==> c.prevChunks[i] == NULL || Leads(list, c.prevChunks[i]))
  }

  /** No block starts where a block that is not free starts. */
  lemma NotAStart(list: seq<Block>, k: nat, addr: int, n: int, lo: int, hi: int)
    requires Wf(list, lo, hi) && lo > 0 && Between(list, k, addr, n) && n > 0
    ensures forall x :: 0 <= x < |list| ==> list[x].addr != addr
  {
    forall x | 0 <= x < |list|
      ensures list[x].addr != addr
    {
      assert k > 0 ==> list[x].addr <= list[k - 1].addr || x >= k;
      assert x >= k ==> list[k].addr <= list[x].addr;
    }
  }

  /** The byte count stdDealloc and nommu_AllocAbs round a block up to, once its start is rounded down. */
  function Covering(addr: int, size: IPtr): IPtr {
    RoundUp(Wrap(size + addr % MEMCHUNK_TOTAL))
  }

  lemma AlignedCovering(at: int, n: IPtr)
    requires Aligned(at) && Aligned(n) && 0 < at && at + n < IPTR_MODULUS
    ensures RoundDown(at) == at && Covering(at, n) == n
  {
    RoundUpCovers(n);
    hide RoundUp;
    assert Wrap(n + at % MEMCHUNK_TOTAL) == n;
  }

  /** The rounded block is the smallest one of whole granules around the given one. */
  lemma CoveringBlock(addr: int, size: IPtr, lo: int, hi: int)
    requires 0 < lo <= addr && addr + size <= hi < IPTR_MODULUS && size > 0 && Aligned(lo) && Aligned(hi)
    ensures GoodBlock(Block(RoundDown(addr), Covering(addr, size)), lo, hi)
    ensures RoundDown(addr) <= addr < RoundDown(addr) + MEMCHUNK_TOTAL
    ensures addr + size <= RoundDown(addr) + Covering(addr, size) < addr + size + MEMCHUNK_TOTAL
  {
    hide RoundUp;
    var x := size + addr % MEMCHUNK_TOTAL;
    AtLeastGranule(addr, lo, hi);
    assert Wrap(x) == x;
    RoundUpCovers(x);
    NotBeyond(RoundDown(addr) + RoundUp(x), addr + size, hi);
  }

  lemma AtLeastGranule(addr: int, lo: int, hi: int)
    requires 0 < lo <= addr && hi < IPTR_MODULUS && Aligned(lo) && Aligned(hi)
    ensures lo <= RoundDown(addr) <= addr < RoundDown(addr) + MEMCHUNK_TOTAL && Aligned(RoundDown(addr))
    ensures hi + MEMCHUNK_TOTAL <= IPTR_MODULUS && lo >= MEMCHUNK_TOTAL
  {
  }

  lemma NotBeyond(end: int, least: int, hi: int)
    requires Aligned(end) && Aligned(hi) && least <= hi && end < least + MEMCHUNK_TOTAL
    ensures end <= hi
  {
  }

  /** The chunks after the tail behind p4 of the chunk p2 was given its own header. */
  function AfterTail(chunk: map<int, MemChunk>, p2: int, p4: int, end: int): map<int, MemChunk>
    requires p2 in chunk
  {
    if end == p4 then chunk
    else chunk[p4 := MemChunk(chunk[p2].next, end - p4)][p2 := MemChunk(p4, chunk[p2].bytes)]
  }

  /** The effect of nommu_AllocAbs on the header and the chunks. */
  ghost predicate CutFrom(first: int, chunk: map<int, MemChunk>, p1: int, p2: int, p3: int, p4: int, end: int,
                          newFirst: int, newChunk: map<int, MemChunk>)
    requires p2 in chunk
  {
    var tailed := AfterTail(chunk, p2, p4, end);
    if p2 != p3 then newFirst == first && newChunk == tailed[p2 := MemChunk(tailed[p2].next, p3 - p2)]
    else NextSet(first, tailed, p1, tailed[p2].next, newFirst, newChunk)
  }

  /** What is written where no block of the list starts does not matter. */
  lemma GarbageIgnored(first: int, chunk: map<int, MemChunk>, list: seq<Block>, a: int, garbage: MemChunk)
    requires Linked(first, chunk, list) && forall x :: 0 <= x < |list| ==> list[x].addr != a
    ensures Linked(first, chunk[a := garbage], list)
  {
    forall k | 0 <= k < |list|
      ensures list[k].addr in chunk && chunk[a := garbage][list[k].addr] == chunk[list[k].addr]
    {
    }
  }

  /** Cutting p3..p4 out of block k leaves the pointers of the remaining list. */
  lemma CutLinks(first: int, chunk: map<int, MemChunk>, list: seq<Block>, k: nat, p3: int, p4: int, newFirst: int,
                 newChunk: map<int, MemChunk>, lo: int, hi: int)
    requires Linked(first, chunk, list) && Wf(list, lo, hi) && lo > 0 && k < |list| && Inside(list[k], p3, p4 - p3)
    requires list[k].addr in chunk && chunk[list[k].addr] == MemChunk(At(list, k + 1), list[k].bytes)
    requires CutFrom(first, chunk, Slot(list, k), list[k].addr, p3, p4, list[k].End(), newFirst, newChunk)
    ensures Linked(newFirst, newChunk, Take(list, k, p3, p4 - p3))
  {
    if list[k].addr == p3 {
      if list[k].End() == p4 {
        UnlinkedWhole(first, chunk, list, k, newFirst, newChunk, lo, hi);
        assert Pieces(list[k], p3, p4 - p3) == [];
      } else {
        CutFront(first, chunk, list, k, p4, newFirst, newChunk, lo, hi);
      }
    } else if list[k].End() == p4 {
      CutBack(first, chunk, list, k, p3, newChunk, lo, hi);
      assert Pieces(list[k], p3, p4 - p3) == [Block(list[k].addr, p3 - list[k].addr)];
    } else {
      CutMiddle(first, chunk, list, k, p3, p4, newChunk, lo, hi);
    }
  }

  lemma CutFront(first: int, chunk: map<int, MemChunk>, list: seq<Block>, k: nat, p4: int, newFirst: int,
                 newChunk: map<int, MemChunk>, lo: int, hi: int)
    requires Linked(first, chunk, list) && Wf(list, lo, hi) && lo > 0 && k < |list| && list[k].addr < p4 < list[k].End()
    requires list[k].addr in chunk && chunk[list[k].addr] == MemChunk(At(list, k + 1), list[k].bytes)
    requires NextSet(first, AfterTail(chunk, list[k].addr, p4, list[k].End()), Slot(list, k), p4, newFirst, newChunk)
    ensures Linked(newFirst, newChunk, Take(list, k, list[k].addr, p4 - list[k].addr))
  {
    var p2, tail := list[k].addr, Block(p4, list[k].End() - p4);
    assert Pieces(list[k], p2, p4 - p2) == [tail];
    SlotNext(first, chunk, list, k, lo, hi);
    OthersApart(list, k, p4, lo, hi);
    OthersApart(list, k, p2, lo, hi);
    hide Linked, Wf, At, Pieces, Slot;
    var p1 := Slot(list, k);
    var midFirst := if p1 == HEAD then p4 else first;
    var midChunk := if p1 == HEAD then chunk else chunk[p1 := MemChunk(p4, chunk[p1].bytes)];
    var clean := midChunk[p4 := MemChunk(At(list, k + 1), tail.bytes)];
    OneReplaced(first, chunk, list, k, tail, k + 1, midFirst, midChunk, clean, lo, hi);
    StartsElsewhere(list, k, [tail], k + 1, p2);
    GarbageIgnored(midFirst, clean, list[..k] + [tail] + list[k + 1..], p2, MemChunk(p4, list[k].bytes));
    assert newChunk == clean[p2 := MemChunk(p4, list[k].bytes)];
  }

  lemma TailKeeps(chunk: map<int, MemChunk>, p2: int, p4: int, end: int, p1: int)
    requires p2 in chunk && (p1 == HEAD || p1 in chunk)
    ensures p2 in AfterTail(chunk, p2, p4, end)
    ensures p1 == HEAD || p1 in AfterTail(chunk, p2, p4, end)
  {
  }

  lemma StartsElsewhere(list: seq<Block>, i: nat, mid: seq<Block>, j: nat, a: int)
    requires i <= j <= |list|
    requires forall x :: 0 <= x < |list| && !(i <= x < j) ==> list[x].addr != a
    requires forall x :: 0 <= x < |mid| ==> mid[x].addr != a
    ensures var now := list[..i] + mid + list[j..]; forall x :: 0 <= x < |now| ==> now[x].addr != a
  {
  }

  lemma CutBack(first: int, chunk: map<int, MemChunk>, list: seq<Block>, k: nat, p3: int, newChunk: map<int,
                MemChunk>, lo: int, hi: int)
    requires Linked(first, chunk, list) && Wf(list, lo, hi) && lo > 0 && k < |list| &&
        list[k].addr < p3 <= list[k].End()
    requires newChunk == chunk[list[k].addr := MemChunk(At(list, k + 1), p3 - list[k].addr)]
    ensures Linked(first, newChunk, list[..k] + [Block(list[k].addr, p3 - list[k].addr)] + list[k + 1..])
  {
    OthersApart(list, k, list[k].addr, lo, hi);
    NothingToSet(first, chunk, list, k, lo, hi);
    OneReplaced(first, chunk, list, k, Block(list[k].addr, p3 - list[k].addr), k + 1, first, chunk, newChunk, lo, hi);
  }

  lemma CutMiddle(first: int, chunk: map<int, MemChunk>, list: seq<Block>, k: nat, p3: int, p4: int,
                  newChunk: map<int, MemChunk>, lo: int, hi: int)
    requires Linked(first, chunk, list) && Wf(list, lo, hi) && lo > 0 && k < |list| && Inside(list[k], p3, p4 - p3)
    requires list[k].addr < p3 < p4 < list[k].End()
    requires list[k].addr in chunk && chunk[list[k].addr] == MemChunk(At(list, k + 1), list[k].bytes)
    requires newChunk == AfterTail(chunk, list[k].addr, p4,
        list[k].End())[list[k].addr := MemChunk(p4, p3 - list[k].addr)]
    ensures Linked(first, newChunk, Take(list, k, p3, p4 - p3))
  {
    hide Linked, Aligned, Inside, Pieces, Take, Wf;
    var p2, next := list[k].addr, At(list, k + 1);
    var front, tail := Block(p2, p3 - p2), Block(p4, list[k].End() - p4);
    var halfway, chunk1 := list[..k] + [front] + list[k + 1..], chunk[p2 := MemChunk(next, p3 - p2)];
    var chunk2 := chunk1[p2 := MemChunk(p4, p3 - p2)];
    CutBack(first, chunk, list, k, p3, chunk1, lo, hi);
    OthersApart(list, k, p4, lo, hi);
    FrontFits(list[k], p3, p4);
    TwoPieces(list, k, front, tail, p3, p4);
    Shrunk(list, k, front, lo, hi);
    StartsElsewhere(list, k, [front], k + 1, p4);
    OneReplaced(first, chunk1, halfway, k + 1, tail, k + 1, first, chunk2, chunk2[p4 := MemChunk(next, tail.bytes)],
        lo, hi);
    assert newChunk == chunk2[p4 := MemChunk(next, tail.bytes)];
  }

  lemma FrontFits(b: Block, p3: int, p4: int)
    requires Inside(b, p3, p4 - p3) && b.addr < p3
    ensures Aligned(b.addr) && Aligned(p3 - b.addr) && p3 - b.addr > 0
  {
  }

  lemma TwoPieces(list: seq<Block>, k: nat, front: Block, tail: Block, p3: int, p4: int)
    requires k < |list| && list[k].addr < p3 < p4 < list[k].End()
    requires front == Block(list[k].addr, p3 - list[k].addr) && tail == Block(p4, list[k].End() - p4)
    ensures var halfway := list[..k] + [front] + list[k + 1..];
      && Take(list, k, p3, p4 - p3) == halfway[..k + 1] + [tail] + halfway[k + 1..]
      && At(halfway, k + 1) == At(list, k + 1) && Slot(halfway, k + 1) == list[k].addr
  {
    var halfway := list[..k] + [front] + list[k + 1..];
    assert Pieces(list[k], p3, p4 - p3) == [front] + [tail];
    assert halfway[..k + 1] == list[..k] + [front] && halfway[k + 1..] == list[k + 1..];
  }

  lemma BelowAligned(list: seq<Block>, k: nat, addr: int, lo: int, hi: int)
    requires Wf(list, lo, hi) && k < |list| && list[k].addr < addr
    ensures k > 0 ==> list[k - 1].addr < RoundDown(addr)
  {
    assert Aligned(list[k].addr);
    RoundDownKeeps(list[k].addr, addr);
  }

  lemma RoundDownKeeps(a: int, addr: int)
    requires Aligned(a) && a <= addr
    ensures a <= RoundDown(addr)
  {
  }

  /** No entry of the index is p. */
  ghost predicate Avoids(c: AllocatorCtx?, p: int)
    reads c, if c == null then {} else {c.prevChunks}
  {
    c == null || (c.Valid() && forall i :: 0 <= i < ALLOCATORCTXINDEXSIZE ==> c.prevChunks[i] != p)
  }

  /** All entries of the index can be followed. */
  ghost predicate AllReadable(c: AllocatorCtx?, chunk: map<int, MemChunk>)
    reads c, if c == null then {} else {c.prevChunks}
  {
    c == null || (c.Valid() && forall i :: 0 <= i < ALLOCATORCTXINDEXSIZE ==>
      c.prevChunks[i] == NULL || c.prevChunks[i] == HEAD || c.prevChunks[i] in chunk)
  }

  /** No entry of the index leads to p. */
  ghost predicate NoneLeads(c: AllocatorCtx?, first: int, chunk: map<int, MemChunk>, p: int)
    reads c, if c == null then {} else {c.prevChunks}
  {
    p == NULL || c == null || (c.Valid() && forall i :: 0 <= i < ALLOCATORCTXINDEXSIZE ==>
      var e := c.prevChunks[i];
      e != NULL && (e == HEAD || e in chunk) ==> NextOf(first, chunk, e) != p)
  }

  /** An entry of the index leads to p exactly when it is pp. */
  ghost predicate LeadAlone(c: AllocatorCtx?, first: int, chunk: map<int, MemChunk>, pp: int, p: int)
    reads c, if c == null then {} else {c.prevChunks}
  {
    c == null || (c.Valid() && forall i :: 0 <= i < ALLOCATORCTXINDEXSIZE ==>
      var e := c.prevChunks[i];
      e != NULL ==> (e == HEAD || e in chunk) && (NextOf(first, chunk, e) == p <==> e == pp))
  }

  lemma NoneLeadsNow(c: AllocatorCtx?, first: int, chunk: map<int, MemChunk>, p1: int, p2: int, p3: int,
                     newFirst: int, newChunk: map<int, MemChunk>)
    requires p2 != NULL ==> LeadAlone(c, first, chunk, p1, p2)
    requires NextSet(first, chunk, p1, p3, newFirst, newChunk) && p3 != p2
    ensures NoneLeads(c, newFirst, newChunk, p2)
  {
  }

  lemma StillReadable(c: AllocatorCtx?, first: int, chunk: map<int, MemChunk>, p: int, q: int, newFirst: int,
                      newChunk: map<int, MemChunk>)
    requires AllReadable(c, chunk) && NextSet(first, chunk, p, q, newFirst, newChunk)
    ensures AllReadable(c, newChunk)
    ensures forall a :: a in chunk ==> a in newChunk
    ensures forall a :: a in chunk && a != p ==> newChunk[a] == chunk[a]
  {
  }

  lemma NothingToSet(first: int, chunk: map<int, MemChunk>, list: seq<Block>, i: nat, lo: int, hi: int)
    requires Linked(first, chunk, list) && Wf(list, lo, hi) && lo > 0 && i <= |list|
    ensures NextSet(first, chunk, Slot(list, i), At(list, i), first, chunk)
  {
    SlotNext(first, chunk, list, i, lo, hi);
    if i > 0 {
      assert list[i - 1].addr in chunk;
    }
  }

  lemma {:induction false} NothingFits(list: seq<Block>, n: int, lo: int, hi: int)
    requires Wf(list, lo, hi) && Total(list) < n
    ensures !Fits(list, n)
  {
    forall k | 0 <= k < |list|
      ensures list[k].bytes < n
    {
      WfAround(list, k, lo, hi);
      TotalFits(list[..k], lo, list[k].addr - MEMCHUNK_TOTAL);
      TotalFits(list[k + 1..], list[k].End() + MEMCHUNK_TOTAL, hi);
    }
  }

  lemma EndInside(b: Block, n: int, at: int)
    requires Aligned(b.addr) && Aligned(b.bytes) && Aligned(n) && 0 < n <= b.bytes
    requires at == b.addr || at == b.End() - n
    ensures Inside(b, at, n)
  {
  }

  lemma AtLeastOneGranule(n: int)
    requires n > 0 && Aligned(n)
    ensures n >= MEMCHUNK_TOTAL
  {
  }

  lemma {:induction false} TotalFits(list: seq<Block>, lo: int, hi: int)
    requires Wf(list, lo, hi)
    ensures Aligned(Total(list)) && Total(list) >= 0
    ensures list != [] ==> list[0].addr + Total(list) <= hi
  {
    if list != [] {
      TotalFits(list[1..], lo, hi);
      if |list| > 1 {
        assert list[0].End() + MEMCHUNK_TOTAL <= list[1].addr;
      }
    }
  }

  lemma SmallForAll(bytes: int, i: nat)
    requires bytes < FIRSTPOT * Pow2(i)
    ensures forall j :: i <= j < ALLOCATORCTXINDEXSIZE ==> bytes < FIRSTPOT * Pow2(j)
  {
    forall j | i <= j < ALLOCATORCTXINDEXSIZE
      ensures bytes < FIRSTPOT * Pow2(j)
    {
      Pow2Monotone(i, j);
    }
  }

  /** The computed class lies inside the index, even for an index of no entries. */
  lemma ClassBounds(size: IPtr, indexSize: nat, r: nat)
    requires indexSize <= ALLOCATORCTXINDEXSIZE && (indexSize == 0 ==> size < 2 * FIRSTPOT)
    requires exists c: nat :: IsClass(size, c) && r == if c > Wrap(indexSize - 1) then Wrap(indexSize - 1) else c
    ensures r < ALLOCATORCTXINDEXSIZE
  {
    var c: nat :| IsClass(size, c) && r == if c > Wrap(indexSize - 1) then Wrap(indexSize - 1) else c;
    if indexSize == 0 && c > 0 {
      Pow2Monotone(1, c);
      assert Pow2(1) == 2;
    }
  }
}
