/** Free granules and live blocks: what every run of allocations and frees keeps. */
module Tiling {
  import opened FreeList

  function BlockCells(b: Block): set<int> {
    Cells(b.addr, b.bytes)
  }

  /** The granules of all blocks of a set. */
  ghost function LiveCells(live: set<Block>): set<int> {
    set b, a | b in live && a in BlockCells(b) :: a
  }

  /** Free granules and live blocks cover the arena exactly, and nothing twice. */
  ghost predicate Tiled(arena: set<int>, free: set<int>, live: set<Block>) {
    && free + LiveCells(live) == arena
    && (forall b :: b in live ==> BlockCells(b) !! free && BlockCells(b) != {})
    && (forall b, d :: b in live && d in live && b != d ==> BlockCells(b) !! BlockCells(d))
  }

  /** Handing out a block of free granules. */
  lemma TakeTiled(arena: set<int>, free: set<int>, live: set<Block>, b: Block)
    requires Tiled(arena, free, live) && BlockCells(b) <= free && BlockCells(b) != {}
    ensures b !in live && Tiled(arena, free - BlockCells(b), live + {b})
  {
    LiveCellsAdd(live, b);
    forall d | d in live
      ensures BlockCells(d) !! BlockCells(b)
    {
    }
    hide BlockCells, LiveCells;
  }

  lemma LiveCellsAdd(live: set<Block>, b: Block)
    ensures LiveCells(live + {b}) == LiveCells(live) + BlockCells(b)
  {
    hide BlockCells;
    forall a | a in LiveCells(live) + BlockCells(b)
      ensures a in LiveCells(live + {b})
    {
      if a in BlockCells(b) {
        assert b in live + {b};
      } else {
        var d :| d in live && a in BlockCells(d);
        assert d in live + {b};
      }
    }
  }

  /** Taking a live block back.  It was not free, so the deallocation raises no alert. */
  lemma GiveTiled(arena: set<int>, free: set<int>, live: set<Block>, b: Block)
    requires Tiled(arena, free, live) && b in live
    ensures BlockCells(b) !! free && Tiled(arena, free + BlockCells(b), live - {b})
  {
    LiveCellsAdd(live - {b}, b);
    assert live - {b} + {b} == live;
    hide BlockCells;
  }

  // ---------- giving back part of what is live ----------

  /** What lies in front of b, and behind it, in block x; there is nothing when the size is not positive. */
  function Front(x: Block, b: Block): Block {
    Block(x.addr, (if x.End() < b.addr then x.End() else b.addr) - x.addr)
  }

  function Back(x: Block, b: Block): Block {
    var s := if x.addr > b.End() then x.addr else b.End();
    Block(s, x.End() - s)
  }

  /** What is left of block x once the stretch b is given back. */
  function Remains(x: Block, b: Block): set<Block> {
    (if Front(x, b).bytes > 0 then {Front(x, b)} else {}) + (if Back(x, b).bytes > 0 then {Back(x, b)} else {})
  }

  /** What is left of the live blocks. */
  ghost function Without(live: set<Block>, b: Block): set<Block> {
    set x, p | x in live && p in Remains(x, b) :: p
  }

  predicate Granular(b: Block) {
    Aligned(b.addr) && Aligned(b.bytes) && b.bytes > 0
  }

  lemma FrontCells(x: Block, b: Block)
    requires Granular(x) && Granular(b)
    ensures Front(x, b).bytes > 0 ==> Granular(Front(x, b)) && BlockCells(Front(x, b)) != {}
    ensures Front(x, b).addr == x.addr && Front(x, b).End() <= x.End()
    ensures forall a :: a in BlockCells(Front(x, b)) <==> a in BlockCells(x) && a < b.addr
  {
    if Front(x, b).bytes > 0 {
      assert x.addr in BlockCells(Front(x, b));
    }
  }

  lemma BackCells(x: Block, b: Block)
    requires Granular(x) && Granular(b)
    ensures Back(x, b).bytes > 0 ==> Granular(Back(x, b)) && BlockCells(Back(x, b)) != {}
    ensures x.addr <= Back(x, b).addr && Back(x, b).End() == x.End()
    ensures forall a :: a in BlockCells(Back(x, b)) <==> a in BlockCells(x) && a >= b.End()
  {
    if Back(x, b).bytes > 0 {
      assert Back(x, b).addr in BlockCells(Back(x, b));
    }
  }

  lemma CellRange(b: Block)
    ensures forall a :: a in BlockCells(b) <==> b.addr <= a < b.End() && Aligned(a)
  {
  }

  lemma RemainsCells(x: Block, b: Block)
    requires Granular(x) && Granular(b)
    ensures forall p :: p in Remains(x, b) ==> Granular(p) && x.addr <= p.addr && p.End() <= x.End()
    ensures forall p :: p in Remains(x, b) ==> BlockCells(p) != {} && BlockCells(p) <= BlockCells(x) - BlockCells(b)
    ensures forall p, q :: p in Remains(x, b) && q in Remains(x, b) && p != q ==> BlockCells(p) !! BlockCells(q)
  {
    hide BlockCells, Granular, Front, Back;
    FrontCells(x, b);
    BackCells(x, b);
    CellRange(b);
    Positive(b);
    forall a | a in BlockCells(Front(x, b))
      ensures a in BlockCells(x) && a !in BlockCells(b) && a !in BlockCells(Back(x, b))
    {
    }
    forall a | a in BlockCells(Back(x, b))
      ensures a in BlockCells(x) && a !in BlockCells(b)
    {
    }
  }

  lemma Positive(b: Block)
    requires Granular(b)
    ensures b.addr < b.End()
  {
  }

  lemma RemainsAll(x: Block, b: Block, a: int)
    requires Granular(x) && Granular(b) && a in BlockCells(x) && a !in BlockCells(b)
    ensures exists p :: p in Remains(x, b) && a in BlockCells(p)
  {
    CellRange(x);
    CellRange(b);
    FrontCells(x, b);
    BackCells(x, b);
    if a < b.addr {
      CellRange(Front(x, b));
      assert Front(x, b) in Remains(x, b);
    } else {
      CellRange(Back(x, b));
      assert Back(x, b) in Remains(x, b);
    }
  }

  /** A stretch of live granules goes back, whichever blocks it is part of. */
  lemma PartTiled(arena: set<int>, free: set<int>, live: set<Block>, b: Block)
    requires Tiled(arena, free, live) && Granular(b) && BlockCells(b) <= arena && BlockCells(b) !! free
    requires forall x :: x in live ==> Granular(x)
    ensures Tiled(arena, free + BlockCells(b), Without(live, b))
    ensures LiveCells(Without(live, b)) == LiveCells(live) - BlockCells(b)
    ensures b in live ==> Without(live, b) == live - {b}
    ensures forall p :: p in Without(live, b) ==>
        Granular(p) && exists x :: x in live && x.addr <= p.addr && p.End() <= x.End()
  {
    forall x | x in live
      ensures forall p :: p in Remains(x, b) ==> BlockCells(p) != {} && BlockCells(p) <= BlockCells(x) - BlockCells(b)
    {
      RemainsCells(x, b);
    }
    PartCells(live, b);
    PartsApart(live, b);
    if b in live {
      WholeBack(arena, free, live, b);
    }
  }

  lemma PartCells(live: set<Block>, b: Block)
    requires Granular(b) && forall x :: x in live ==> Granular(x)
    ensures LiveCells(Without(live, b)) == LiveCells(live) - BlockCells(b)
  {
    hide Remains, BlockCells, Granular;
    forall a
      ensures a in LiveCells(Without(live, b)) <==> a in LiveCells(live) && a !in BlockCells(b)
    {
      if a in LiveCells(Without(live, b)) {
        var p :| p in Without(live, b) && a in BlockCells(p);
        var x :| x in live && p in Remains(x, b);
        RemainsCells(x, b);
      }
      if a in LiveCells(live) && a !in BlockCells(b) {
        var x :| x in live && a in BlockCells(x);
        RemainsAll(x, b, a);
        var p :| p in Remains(x, b) && a in BlockCells(p);
        assert p in Without(live, b);
      }
    }
  }

  lemma PartsApart(live: set<Block>, b: Block)
    requires Granular(b) && forall x :: x in live ==> Granular(x)
    requires forall x, y :: x in live && y in live && x != y ==> BlockCells(x) !! BlockCells(y)
    ensures forall p, q :: p in Without(live, b) && q in Without(live, b) && p != q ==> BlockCells(p) !! BlockCells(q)
    ensures forall p :: p in Without(live, b) ==> BlockCells(p) != {} && BlockCells(p) !! BlockCells(b)
    ensures forall p :: p in Without(live, b) ==> exists x :: x in live && x.addr <= p.addr && p.End() <= x.End()
    ensures forall p :: p in Without(live, b) ==> Granular(p)
  {
    hide Remains, BlockCells, Granular;
    forall p | p in Without(live, b)
      ensures BlockCells(p) != {} && BlockCells(p) !! BlockCells(b) && Granular(p)
      ensures exists x :: x in live && x.addr <= p.addr && p.End() <= x.End()
    {
      var x :| x in live && p in Remains(x, b);
      RemainsCells(x, b);
    }
    forall p, q | p in Without(live, b) && q in Without(live, b) && p != q
      ensures BlockCells(p) !! BlockCells(q)
    {
      var x :| x in live && p in Remains(x, b);
      var y :| y in live && q in Remains(y, b);
      RemainsCells(x, b);
      RemainsCells(y, b);
    }
  }

  lemma WholeBack(arena: set<int>, free: set<int>, live: set<Block>, b: Block)
    requires Tiled(arena, free, live) && b in live && forall x :: x in live ==> Granular(x)
    ensures Without(live, b) == live - {b}
  {
    forall x | x in live && x != b
      ensures Remains(x, b) == {x}
    {
      ApartRemains(x, b);
    }
    assert Remains(b, b) == {};
  }

  lemma ApartRemains(x: Block, b: Block)
    requires Granular(x) && Granular(b) && BlockCells(x) !! BlockCells(b)
    ensures Remains(x, b) == {x}
  {
    assert x.addr in BlockCells(x) && b.addr in BlockCells(b);
  }

  /** Giving back the front of a live block leaves its end. */
  lemma EndLeft(live: set<Block>, whole: Block, b: Block)
    requires whole in live && (forall x :: x in live ==> Granular(x))
    requires forall x :: x in live && x != whole ==> BlockCells(x) !! BlockCells(whole)
    requires Granular(b) && b.addr == whole.addr && b.bytes <= whole.bytes
    ensures Without(live, b)
            == live - {whole} + if b.bytes == whole.bytes then {} else {Block(b.End(), whole.bytes - b.bytes)}
  {
    CellRange(b);
    CellRange(whole);
    forall x | x in live && x != whole
      ensures Remains(x, b) == {x}
    {
      assert BlockCells(b) <= BlockCells(whole);
      ApartRemains(x, b);
    }
    assert Remains(whole, b) == if b.bytes == whole.bytes then {} else {Block(b.End(), whole.bytes - b.bytes)};
    OneChanged(live, whole, b);
  }

  lemma OneChanged(live: set<Block>, whole: Block, b: Block)
    requires whole in live && forall x :: x in live && x != whole ==> Remains(x, b) == {x}
    ensures Without(live, b) == live - {whole} + Remains(whole, b)
  {
    hide Remains;
    forall p
      ensures p in Without(live, b) <==> p in live - {whole} + Remains(whole, b)
    {
      if p in live - {whole} {
        assert p in Remains(p, b);
      }
    }
  }

  /** A block that became live took granules that were free. */
  lemma NewlyLive(arena: set<int>, free: set<int>, live: set<Block>, was: set<int>, wasLive: set<Block>, d: Block)
    requires Tiled(arena, free, live) && Tiled(arena, was, wasLive) && wasLive <= live && d in live && d !in wasLive
    ensures free != was
  {
    hide BlockCells;
    var a := SomeCell(BlockCells(d));
    assert a in LiveCells(live);
    forall x | x in wasLive
      ensures a !in BlockCells(x)
    {
      assert x in live && x != d;
    }
    assert a in was;
  }

  lemma SomeCell(cells: set<int>) returns (a: int)
    requires cells != {}
    ensures a in cells
  {
    assert (forall x :: x !in cells) ==> cells == {};
    a :| a in cells;
  }

  /** Once everything is given back the whole arena is free. */
  lemma AllGivenBack(arena: set<int>, free: set<int>)
    requires Tiled(arena, free, {})
    ensures free == arena
  {
    assert LiveCells({}) == {};
  }

  /** The free list of a header whose every granule is free. */
  lemma WholeList(list: seq<Block>, lo: int, hi: int)
    requires Wf(list, lo, hi) && lo < hi && Aligned(lo) && Aligned(hi) && FreeSet(list) == Cells(lo, hi - lo)
    ensures list == [Block(lo, hi - lo)]
  {
    OneIsWf(Block(lo, hi - lo), lo, hi);
    OneBlock(Block(lo, hi - lo));
    Canonical(list, [Block(lo, hi - lo)], lo, hi);
  }

  // ---------- order of freeing ----------

  /** Giving back the blocks of a sequence one after the other. */
  ghost function GivenBack(free: set<int>, order: seq<Block>): set<int>
    decreases order
  {
    if order == [] then free else GivenBack(free + BlockCells(order[0]), order[1..])
  }

  lemma {:induction false} GivenBackCells(free: set<int>, order: seq<Block>)
    ensures GivenBack(free, order) == free + LiveCells(set b | b in order)
    decreases order
  {
    if order == [] {
      assert (set b | b in order) == {};
    } else {
      GivenBackCells(free + BlockCells(order[0]), order[1..]);
      assert (set b | b in order) == (set b | b in order[1..]) + {order[0]};
      LiveCellsAdd((set b | b in order[1..]), order[0]);
    }
  }

  /** Freeing the same blocks in any two orders leaves the identical free list. */
  lemma AnyOrder(free: set<int>, xs: seq<Block>, ys: seq<Block>, a: seq<Block>, b: seq<Block>, lo: int, hi: int)
    requires (forall x :: x in xs <==> x in ys)
    requires Wf(a, lo, hi) && Wf(b, lo, hi)
    requires FreeSet(a) == GivenBack(free, xs) && FreeSet(b) == GivenBack(free, ys)
    ensures a == b
  {
    GivenBackCells(free, xs);
    GivenBackCells(free, ys);
    assert (set x | x in xs) == (set y | y in ys);
    Canonical(a, b, lo, hi);
  }
}
