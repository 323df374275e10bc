/** Free lists as values: which blocks are free, and what taking and giving back memory does. */
module FreeList {

  /** IPTR and ULONG of a 32-bit target. */
  const IPTR_MODULUS: int := 0x1_0000_0000

  type IPtr = i: int | 0 <= i < IPTR_MODULUS

  function Wrap(i: int): IPtr {
    i % IPTR_MODULUS
  }

  /** Alignment unit of the allocator, a power of two; the size of a struct MemChunk fits in it. */
  const MEMCHUNK_TOTAL: int := 16

  predicate Aligned(a: int) {
    a % MEMCHUNK_TOTAL == 0
  }

  /** a & ~(MEMCHUNK_TOTAL - 1) */
  function RoundDown(a: int): int {
    a - a % MEMCHUNK_TOTAL
  }

  /** AROS_ROUNDUP2(size, MEMCHUNK_TOTAL) in IPTR arithmetic. */
  function RoundUp(size: IPtr): IPtr {
    RoundDown(Wrap(size + MEMCHUNK_TOTAL - 1))
  }

  /** Rounding a request up covers it exactly when the addition does not wrap around. */
  lemma RoundUpCovers(size: IPtr)
    ensures Aligned(RoundUp(size))
    ensures RoundUp(size) >= size <==> size <= IPTR_MODULUS - MEMCHUNK_TOTAL
    ensures size <= IPTR_MODULUS - MEMCHUNK_TOTAL ==> RoundUp(size) < size + MEMCHUNK_TOTAL
    ensures size > IPTR_MODULUS - MEMCHUNK_TOTAL ==> RoundUp(size) == 0
  {
    if size > IPTR_MODULUS - MEMCHUNK_TOTAL {
      assert Wrap(size + MEMCHUNK_TOTAL - 1) == size + MEMCHUNK_TOTAL - 1 - IPTR_MODULUS;
    } else {
      assert Wrap(size + MEMCHUNK_TOTAL - 1) == size + MEMCHUNK_TOTAL - 1;
    }
  }

  // ---------- blocks ----------

  datatype Block = Block(addr: int, bytes: int) {
    function End(): int {
      addr + bytes
    }
  }

  /** The granules of a stretch of memory, each named by its first address. */
  function Cells(addr: int, bytes: int): set<int> {
    set a | addr <= a < addr + bytes && Aligned(a)
  }

  ghost predicate GoodBlock(b: Block, lo: int, hi: int) {
    lo <= b.addr && b.End() <= hi && b.bytes > 0 && Aligned(b.addr) && Aligned(b.bytes)
  }

  /** A free list: aligned blocks between lo and hi, lowest first, with at least one allocated
      granule between any two. */
  ghost predicate Wf(list: seq<Block>, lo: int, hi: int) {
    && (forall i :: 0 <= i < |list| ==> GoodBlock(list[i], lo, hi))
    && (forall i, j :: 0 <= i < j < |list| ==> list[i].End() + MEMCHUNK_TOTAL <= list[j].addr)
  }

  function FreeSet(list: seq<Block>): set<int> {
    if list == [] then {} else Cells(list[0].addr, list[0].bytes) + FreeSet(list[1..])
  }

  function Total(list: seq<Block>): int {
    if list == [] then 0 else list[0].bytes + Total(list[1..])
  }

  lemma {:induction false} FreeSetConcat(a: seq<Block>, b: seq<Block>)
    ensures FreeSet(a + b) == FreeSet(a) + FreeSet(b)
    ensures Total(a + b) == Total(a) + Total(b)
  {
    if a == [] {
      assert a + b == b;
    } else {
      FreeSetConcat(a[1..], b);
      assert (a + b)[1..] == a[1..] + b;
    }
  }

  lemma {:induction false} InFreeSet(list: seq<Block>, a: int) returns (i: int)
    ensures a in FreeSet(list) ==> 0 <= i < |list| && a in Cells(list[i].addr, list[i].bytes)
    ensures forall j :: 0 <= j < |list| && a in Cells(list[j].addr, list[j].bytes) ==> a in FreeSet(list)
  {
    i := -1;
    if list != [] {
      var k := InFreeSet(list[1..], a);
      i := if a in Cells(list[0].addr, list[0].bytes) then 0 else k + 1;
      forall j | 0 <= j < |list| && a in Cells(list[j].addr, list[j].bytes)
        ensures a in FreeSet(list)
      {
        if j > 0 {
          assert list[1..][j - 1] == list[j];
        }
      }
    }
  }

  /** Everything free lies between the bounds. */
  lemma FreeSetBounds(list: seq<Block>, lo: int, hi: int)
    requires Wf(list, lo, hi)
    ensures forall a :: a in FreeSet(list) ==> lo <= a < hi && Aligned(a)
  {
    forall a | a in FreeSet(list)
      ensures lo <= a < hi && Aligned(a)
    {
      var i := InFreeSet(list, a);
    }
  }

  lemma CellsSplit(addr: int, x: int, y: int)
    requires x >= 0 && y >= 0
    ensures Cells(addr, x + y) == Cells(addr, x) + Cells(addr + x, y)
    ensures Cells(addr, x) !! Cells(addr + x, y)
  {
  }

  lemma OneCell(addr: int, a: int)
    requires Aligned(addr) && addr <= a < addr + MEMCHUNK_TOTAL && Aligned(a)
    ensures a == addr
  {
  }

  lemma LastCell(addr: int, bytes: int)
    requires bytes >= MEMCHUNK_TOTAL && Aligned(addr) && Aligned(bytes)
    ensures Cells(addr, bytes) == Cells(addr, bytes - MEMCHUNK_TOTAL) + {addr + bytes - MEMCHUNK_TOTAL}
    ensures addr + bytes - MEMCHUNK_TOTAL !in Cells(addr, bytes - MEMCHUNK_TOTAL)
    ensures Aligned(bytes - MEMCHUNK_TOTAL)
  {
    var last := addr + bytes - MEMCHUNK_TOTAL;
    assert Aligned(last);
    forall a | a in Cells(addr, bytes) && a >= last
      ensures a == last
    {
      OneCell(last, a);
    }
    hide Aligned;
  }

  /** A stretch of n bytes holds n / MEMCHUNK_TOTAL granules. */
  lemma {:induction false} CellsCount(addr: int, bytes: int)
    requires bytes >= 0 && Aligned(addr) && Aligned(bytes)
    ensures |Cells(addr, bytes)| * MEMCHUNK_TOTAL == bytes
    decreases bytes
  {
    if bytes == 0 {
      hide Aligned;
      assert Cells(addr, bytes) == {};
    } else {
      assert bytes >= MEMCHUNK_TOTAL;
      hide Aligned, Cells;
      LastCell(addr, bytes);
      CellsCount(addr, bytes - MEMCHUNK_TOTAL);
    }
  }

  /** The byte count of a free list is what its granules add up to. */
  lemma {:induction false} TotalCount(list: seq<Block>, lo: int, hi: int)
    requires Wf(list, lo, hi)
    ensures Total(list) == |FreeSet(list)| * MEMCHUNK_TOTAL
  {
    if list != [] {
      TotalCount(list[1..], lo, hi);
      CellsCount(list[0].addr, list[0].bytes);
      HeadApart(list, lo, hi);
      assert FreeSet(list) == Cells(list[0].addr, list[0].bytes) + FreeSet(list[1..]);
    }
  }

  lemma HeadApart(list: seq<Block>, lo: int, hi: int)
    requires Wf(list, lo, hi) && list != []
    ensures Wf(list[1..], list[0].End() + MEMCHUNK_TOTAL, hi)
    ensures Cells(list[0].addr, list[0].bytes) !! FreeSet(list[1..])
    ensures forall a :: a in FreeSet(list[1..]) ==> a >= list[0].End() + MEMCHUNK_TOTAL
  {
    FreeSetBounds(list[1..], list[0].End() + MEMCHUNK_TOTAL, hi);
  }

  lemma NotFree(list: seq<Block>)
    ensures list == [] ==> FreeSet(list) == {}
    ensures list != [] && list[0].bytes > 0 && Aligned(list[0].addr) ==> list[0].addr in FreeSet(list)
  {
  }

  /** The free list is a function of the set of free granules. */
  lemma {:induction false} Canonical(a: seq<Block>, b: seq<Block>, lo: int, hi: int)
    requires Wf(a, lo, hi) && Wf(b, lo, hi) && FreeSet(a) == FreeSet(b)
    ensures a == b
    decreases |a|
  {
    if a == [] || b == [] {
      NotFree(a);
      NotFree(b);
    } else {
      HeadApart(a, lo, hi);
      HeadApart(b, lo, hi);
      SameHead(a, b, lo, hi);
      SameHead(b, a, lo, hi);
      Canonical(a[1..], b[1..], lo, hi);
      assert a == [a[0]] + a[1..] && b == [b[0]] + b[1..];
    }
  }

  lemma HeadCells(list: seq<Block>)
    requires list != []
    ensures forall a :: a in Cells(list[0].addr, list[0].bytes) ==> a in FreeSet(list)
  {
  }

  lemma SameHead(a: seq<Block>, b: seq<Block>, lo: int, hi: int)
    requires Wf(a, lo, hi) && Wf(b, lo, hi) && FreeSet(a) == FreeSet(b) && a != [] && b != []
    ensures b[0].addr <= a[0].addr
    ensures a[0].addr == b[0].addr ==> b[0].End() <= a[0].End()
  {
    HeadApart(a, lo, hi);
    HeadApart(b, lo, hi);
    assert a[0].addr in FreeSet(a);
    assert a[0].End() !in FreeSet(a);
    HeadCells(b);
  }

  // ---------- taking ----------

  /** What is left of a free block when n bytes at address at are taken out of it. */
  function Pieces(b: Block, at: int, n: int): seq<Block> {
    (if at > b.addr then [Block(b.addr, at - b.addr)] else [])
    + (if at + n < b.End() then [Block(at + n, b.End() - (at + n))] else [])
  }

  function Take(list: seq<Block>, k: nat, at: int, n: int): seq<Block>
    requires k < |list|
  {
    list[..k] + Pieces(list[k], at, n) + list[k + 1..]
  }

  lemma WfConcat(a: seq<Block>, b: seq<Block>, lo: int, mid: int, hi: int)
    requires Wf(a, lo, mid) && Wf(b, mid + MEMCHUNK_TOTAL, hi) && lo <= mid + MEMCHUNK_TOTAL && mid <= hi
    ensures Wf(a + b, lo, hi)
  {
  }

  lemma CutAt<T>(s: seq<T>, k: nat)
    requires k < |s|
    ensures s == s[..k] + ([s[k]] + s[k + 1..])
  {
  }

  lemma OneBlock(b: Block)
    ensures FreeSet([b]) == Cells(b.addr, b.bytes) && Total([b]) == b.bytes
    ensures FreeSet([]) == {} && Total([]) == 0
  {
  }

  lemma AroundBounds(list: seq<Block>, k: nat, lo: int, hi: int)
    requires Wf(list, lo, hi) && k < |list|
    ensures Wf(list[..k], lo, list[k].addr - MEMCHUNK_TOTAL)
    ensures Wf(list[k + 1..], list[k].End() + MEMCHUNK_TOTAL, hi)
    ensures FreeSet(list[..k]) !! Cells(list[k].addr, list[k].bytes)
    ensures FreeSet(list[k + 1..]) !! Cells(list[k].addr, list[k].bytes)
  {
    hide Aligned;
    FreeSetBounds(list[..k], lo, list[k].addr - MEMCHUNK_TOTAL);
    FreeSetBounds(list[k + 1..], list[k].End() + MEMCHUNK_TOTAL, hi);
  }

  /** The parts of a free list around block k, with room between them and it. */
  lemma WfAround(list: seq<Block>, k: nat, lo: int, hi: int)
    requires Wf(list, lo, hi) && k < |list|
    ensures Wf(list[..k], lo, list[k].addr - MEMCHUNK_TOTAL)
    ensures Wf(list[k + 1..], list[k].End() + MEMCHUNK_TOTAL, hi)
    ensures FreeSet(list) == FreeSet(list[..k]) + Cells(list[k].addr, list[k].bytes) + FreeSet(list[k + 1..])
    ensures Total(list) == Total(list[..k]) + list[k].bytes + Total(list[k + 1..])
    ensures FreeSet(list[..k]) !! Cells(list[k].addr, list[k].bytes)
    ensures FreeSet(list[k + 1..]) !! Cells(list[k].addr, list[k].bytes)
  {
    AroundBounds(list, k, lo, hi);
    hide Cells, Aligned, Wf, FreeSet, Total;
    CutAt(list, k);
    FreeSetConcat(list[..k], [list[k]] + list[k + 1..]);
    FreeSetConcat([list[k]], list[k + 1..]);
    OneBlock(list[k]);
  }

  lemma NoCells(addr: int, n: int)
    ensures n <= 0 ==> Cells(addr, n) == {}
  {
  }

  /** n bytes at address at lie inside block b. */
  predicate Inside(b: Block, at: int, n: int) {
    && b.bytes > 0 && Aligned(b.addr) && Aligned(b.bytes) && Aligned(at) && Aligned(n)
    && b.addr <= at && n > 0 && at + n <= b.End()
  }

  lemma InsideCells(b: Block, at: int, n: int)
    requires Inside(b, at, n)
    ensures Cells(at, n) <= Cells(b.addr, b.bytes)
  {
  }

  lemma PiecesWf(b: Block, at: int, n: int)
    requires Inside(b, at, n)
    ensures Wf(Pieces(b, at, n), b.addr, b.End())
  {
    PieceSizes(b, at, n);
    hide Aligned, Inside;
  }

  lemma PieceSizes(b: Block, at: int, n: int)
    requires Inside(b, at, n)
    ensures Aligned(b.addr) && Aligned(at - b.addr) && Aligned(at + n) && Aligned(b.End() - (at + n))
    ensures b.addr <= at && at + n <= b.End() && n >= MEMCHUNK_TOTAL
  {
  }

  lemma PiecesKeep(b: Block, at: int, n: int)
    requires Inside(b, at, n)
    ensures FreeSet(Pieces(b, at, n)) == Cells(b.addr, b.bytes) - Cells(at, n)
    ensures Total(Pieces(b, at, n)) == b.bytes - n
  {
    var x, y := at - b.addr, b.End() - (at + n);
    CellsSplit(b.addr, x, n + y);
    CellsSplit(at, n, y);
    NoCells(b.addr, x);
    NoCells(at + n, y);
    hide Cells, Aligned, FreeSet, Total;
    OneBlock(Block(b.addr, x));
    OneBlock(Block(at + n, y));
    FreeSetConcat(if x > 0 then [Block(b.addr, x)] else [], if y > 0 then [Block(at + n, y)] else []);
  }

  /** Taking n bytes out of a free block. */
  lemma TakeKeeps(list: seq<Block>, k: nat, at: int, n: int, lo: int, hi: int)
    requires Wf(list, lo, hi) && k < |list| && Aligned(at) && Aligned(n) && n > 0
    requires list[k].addr <= at && at + n <= list[k].End()
    ensures Wf(Take(list, k, at, n), lo, hi)
    ensures Cells(at, n) <= FreeSet(list)
    ensures FreeSet(Take(list, k, at, n)) == FreeSet(list) - Cells(at, n)
    ensures Total(Take(list, k, at, n)) == Total(list) - n
  {
    hide Wf, FreeSet, Total, Take, Cells;
    TakeIsWf(list, k, at, n, lo, hi);
    TakeCells(list, k, at, n, lo, hi);
  }

  lemma TakeIsWf(list: seq<Block>, k: nat, at: int, n: int, lo: int, hi: int)
    requires Wf(list, lo, hi) && k < |list| && Aligned(at) && Aligned(n) && n > 0
    requires list[k].addr <= at && at + n <= list[k].End()
    ensures Wf(Take(list, k, at, n), lo, hi)
  {
    var b, pieces := list[k], Pieces(list[k], at, n);
    assert Inside(b, at, n);
    hide Inside, Cells, Aligned, Pieces, Wf, FreeSet, Total;
    WfAround(list, k, lo, hi);
    PiecesWf(b, at, n);
    WfConcat(list[..k], pieces, lo, b.addr - MEMCHUNK_TOTAL, b.End());
    WfConcat(list[..k] + pieces, list[k + 1..], lo, b.End(), hi);
  }

  lemma TakeCells(list: seq<Block>, k: nat, at: int, n: int, lo: int, hi: int)
    requires Wf(list, lo, hi) && k < |list| && Aligned(at) && Aligned(n) && n > 0
    requires list[k].addr <= at && at + n <= list[k].End()
    ensures Cells(at, n) <= FreeSet(list)
    ensures FreeSet(Take(list, k, at, n)) == FreeSet(list) - Cells(at, n)
    ensures Total(Take(list, k, at, n)) == Total(list) - n
  {
    var b, pieces := list[k], Pieces(list[k], at, n);
    assert Inside(b, at, n);
    hide Inside, Cells, Aligned, Pieces, Wf, FreeSet, Total;
    WfAround(list, k, lo, hi);
    PiecesKeep(b, at, n);
    InsideCells(b, at, n);
    FreeSetConcat(list[..k], pieces);
    FreeSetConcat(list[..k] + pieces, list[k + 1..]);
    TakenOut(FreeSet(list[..k]), Cells(b.addr, b.bytes), FreeSet(list[k + 1..]), Cells(at, n));
  }

  lemma TakenOut(a: set<int>, b: set<int>, c: set<int>, d: set<int>)
    requires a !! b && c !! b && d <= b
    ensures a + (b - d) + c == a + b + c - d
  {
  }

  // ---------- giving back ----------

  predicate JoinsLeft(list: seq<Block>, k: nat, addr: int)
    requires k <= |list|
  {
    k > 0 && list[k - 1].End() == addr
  }

  predicate JoinsRight(list: seq<Block>, k: nat, end: int)
    requires k <= |list|
  {
    k < |list| && end == list[k].addr
  }

  /** The block that results from putting n bytes at addr in front of block k. */
  function Merged(list: seq<Block>, k: nat, addr: int, n: int): Block
    requires k <= |list|
  {
    var start := if JoinsLeft(list, k, addr) then list[k - 1].addr else addr;
    var end := if JoinsRight(list, k, addr + n) then list[k].End() else addr + n;
    Block(start, end - start)
  }

  /** The neighbours list[From..To] are swallowed by the merged block. */
  function From(list: seq<Block>, k: nat, addr: int): nat
    requires k <= |list|
  {
    if JoinsLeft(list, k, addr) then k - 1 else k
  }

  function To(list: seq<Block>, k: nat, end: int): nat
    requires k <= |list|
  {
    if JoinsRight(list, k, end) then k + 1 else k
  }

  /** The free list after the block at addr, n bytes long, is put in front of block k and merged
      with the neighbours it touches. */
  function Give(list: seq<Block>, k: nat, addr: int, n: int): seq<Block>
    requires k <= |list|
  {
    list[..From(list, k, addr)] + [Merged(list, k, addr, n)] + list[To(list, k, addr + n)..]
  }

  /** Where a block that is not free belongs in the list. */
  ghost predicate Between(list: seq<Block>, k: nat, addr: int, n: int) {
    && k <= |list|
    && (k > 0 ==> list[k - 1].End() <= addr)
    && (k < |list| ==> addr + n <= list[k].addr)
  }

  lemma AlignedGap(x: int, y: int)
    requires Aligned(x) && Aligned(y) && x < y
    ensures x + MEMCHUNK_TOTAL <= y
  {
  }

  lemma WfPrefix(list: seq<Block>, k: nat, mid: int, lo: int, hi: int)
    requires Wf(list, lo, hi) && k <= |list| && (k > 0 ==> list[k - 1].End() <= mid)
    ensures Wf(list[..k], lo, mid)
  {
  }

  lemma WfSuffix(list: seq<Block>, k: nat, mid: int, lo: int, hi: int)
    requires Wf(list, lo, hi) && k <= |list| && (k < |list| ==> mid <= list[k].addr)
    ensures Wf(list[k..], mid, hi)
  {
  }

  /** The merged block keeps its distance from the blocks that are left. */
  lemma MergedFits(list: seq<Block>, k: nat, addr: int, n: int, lo: int, hi: int)
    requires Wf(list, lo, hi) && Between(list, k, addr, n) && GoodBlock(Block(addr, n), lo, hi)
    ensures GoodBlock(Merged(list, k, addr, n), lo, hi)
    ensures var i, m := From(list, k, addr), Merged(list, k, addr, n); i > 0 ==>
        list[i - 1].End() + MEMCHUNK_TOTAL <= m.addr
    ensures var j, m := To(list, k, addr + n), Merged(list, k, addr, n); j < |list| ==>
        m.End() + MEMCHUNK_TOTAL <= list[j].addr
  {
    if k > 0 && list[k - 1].End() != addr {
      AlignedGap(list[k - 1].End(), addr);
    }
    if k < |list| && addr + n != list[k].addr {
      AlignedGap(addr + n, list[k].addr);
    }
  }

  lemma GiveIsWf(list: seq<Block>, k: nat, addr: int, n: int, lo: int, hi: int)
    requires Wf(list, lo, hi) && Between(list, k, addr, n) && GoodBlock(Block(addr, n), lo, hi)
    ensures Wf(Give(list, k, addr, n), lo, hi)
  {
    var i, j, m := From(list, k, addr), To(list, k, addr + n), Merged(list, k, addr, n);
    MergedFits(list, k, addr, n, lo, hi);
    hide From, To, Merged;
    WfPrefix(list, i, m.addr - MEMCHUNK_TOTAL, lo, hi);
    WfSuffix(list, j, m.End() + MEMCHUNK_TOTAL, lo, hi);
    OneIsWf(m, lo, hi);
    WfConcat(list[..i], [m], lo, m.addr - MEMCHUNK_TOTAL, m.End());
    WfConcat(list[..i] + [m], list[j..], lo, m.End(), hi);
  }

  lemma OneIsWf(b: Block, lo: int, hi: int)
    requires GoodBlock(b, lo, hi)
    ensures Wf([b], b.addr, b.End())
  {
  }

  lemma CutTwice<T>(s: seq<T>, i: nat, j: nat, m: T)
    requires i <= j <= |s|
    ensures s == s[..i] + s[i..j] + s[j..]
    ensures var t := s[..i] + [m] + s[j..]; |t| > i && t[i] == m && t[..i] == s[..i] && t[i + 1..] == s[j..]
  {
  }

  lemma MergedPieces(list: seq<Block>, k: nat, addr: int, n: int)
    requires Between(list, k, addr, n) && n > 0
    requires k > 0 ==> list[k - 1].bytes > 0
    requires k < |list| ==> list[k].bytes > 0
    ensures Pieces(Merged(list, k, addr, n), addr, n) == list[From(list, k, addr)..To(list, k, addr + n)]
  {
  }

  /** Giving back is the inverse of taking. */
  lemma TakeAfterGive(list: seq<Block>, k: nat, addr: int, n: int) returns (i: nat)
    requires Between(list, k, addr, n) && n > 0
    requires k > 0 ==> list[k - 1].bytes > 0
    requires k < |list| ==> list[k].bytes > 0
    ensures i < |Give(list, k, addr, n)|
    ensures Give(list, k, addr, n)[i].addr <= addr && addr + n <= Give(list, k, addr, n)[i].End()
    ensures Take(Give(list, k, addr, n), i, addr, n) == list
  {
    i := From(list, k, addr);
    MergedPieces(list, k, addr, n);
    CutTwice(list, i, To(list, k, addr + n), Merged(list, k, addr, n));
    hide Pieces;
  }

  /** Giving back n bytes that are not free. */
  lemma GiveKeeps(list: seq<Block>, k: nat, addr: int, n: int, lo: int, hi: int)
    requires Wf(list, lo, hi) && Between(list, k, addr, n) && GoodBlock(Block(addr, n), lo, hi)
    ensures Wf(Give(list, k, addr, n), lo, hi)
    ensures FreeSet(Give(list, k, addr, n)) == FreeSet(list) + Cells(addr, n)
    ensures Cells(addr, n) !! FreeSet(list)
    ensures Total(Give(list, k, addr, n)) == Total(list) + n
  {
    GiveIsWf(list, k, addr, n, lo, hi);
    var j := TakeAfterGive(list, k, addr, n);
    TakeKeeps(Give(list, k, addr, n), j, addr, n, lo, hi);
  }

  /** A stretch whose granules are all free lies inside one block of the list. */
  lemma {:induction false} InOneBlock(list: seq<Block>, addr: int, n: int, lo: int, hi: int) returns (k: nat)
    requires Wf(list, lo, hi) && n > 0 && Aligned(addr) && Aligned(n) && Cells(addr, n) <= FreeSet(list)
    ensures k < |list| && list[k].addr <= addr && addr + n <= list[k].End()
  {
    assert addr in Cells(addr, n);
    var i := InFreeSet(list, addr);
    k := i;
    if addr + n > list[k].End() {
      EndAligned(list[k], lo, hi);
      assert list[k].End() in Cells(addr, n);
      var j := InFreeSet(list, list[k].End());
      EndOutside(list, k, j, lo, hi);
    }
  }

  lemma EndAligned(b: Block, lo: int, hi: int)
    requires GoodBlock(b, lo, hi)
    ensures Aligned(b.End())
  {
  }

  /** No block reaches up to the next one. */
  lemma EndOutside(list: seq<Block>, k: nat, j: nat, lo: int, hi: int)
    requires Wf(list, lo, hi) && k < |list| && j < |list|
    ensures !(list[j].addr <= list[k].End() < list[j].End())
  {
    assert GoodBlock(list[k], lo, hi) && GoodBlock(list[j], lo, hi);
    assert j < k || j == k || k < j;
  }

  /** A stretch with no free granule has a place between the blocks, and the other way round. */
  lemma ApartIsBetween(list: seq<Block>, k: nat, addr: int, n: int, lo: int, hi: int)
    requires Wf(list, lo, hi) && n > 0 && Aligned(addr) && Aligned(n) && k <= |list|
    requires k > 0 ==> list[k - 1].addr < addr
    requires k < |list| ==> addr <= list[k].addr
    ensures Between(list, k, addr, n) <==> Cells(addr, n) !! FreeSet(list)
  {
    if Between(list, k, addr, n) {
      forall a | a in FreeSet(list)
        ensures a !in Cells(addr, n)
      {
        var i := InFreeSet(list, a);
        assert i < k || i >= k;
      }
    } else if k > 0 && list[k - 1].End() > addr {
      var _ := InFreeSet(list, addr);
      assert addr in Cells(list[k - 1].addr, list[k - 1].bytes);
      assert addr in Cells(addr, n);
    } else {
      var _ := InFreeSet(list, list[k].addr);
      assert list[k].addr in Cells(list[k].addr, list[k].bytes);
      assert list[k].addr in Cells(addr, n);
    }
  }

  // ---------- consequences for whole histories ----------

  /** Taking a block and giving it back, wherever it lay, restores the identical list. */
  lemma TakeThenGive(list: seq<Block>, i: nat, k: nat, at: int, n: int, lo: int, hi: int)
    requires Wf(list, lo, hi) && i < |list| && Aligned(at) && Aligned(n) && n > 0
    requires list[i].addr <= at && at + n <= list[i].End()
    requires Between(Take(list, i, at, n), k, at, n)
    ensures Give(Take(list, i, at, n), k, at, n) == list
  {
    hide Take, Give, Pieces;
    TakeKeeps(list, i, at, n, lo, hi);
    GiveKeeps(Take(list, i, at, n), k, at, n, lo, hi);
    Canonical(Give(Take(list, i, at, n), k, at, n), list, lo, hi);
  }
}
