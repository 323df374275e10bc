/** ISA PnP resource iterators: every card's choices of IRQ, DMA channel and IO range, locked in one
    shared context. */
module PnpIterators {
  import opened Arithmetic

  const UWORD_MODULUS: int := 0x1_0000

  const IRQS: int := 16
  const CHANNELS: int := 8

  type Bits16 = s: set<int> | forall b :: b in s ==> 0 <= b < IRQS witness {}
  type Bits8 = s: set<int> | forall b :: b in s ==> 0 <= b < CHANNELS witness {}
  type UWord = i: int | 0 <= i < UWORD_MODULUS

  /** A resource a card asks for.  IO ranges have a positive length and alignment and stay within
      16 bits one step behind their last base, as the loops of the source need. */
  datatype Resource =
    | Irq(mask: Bits16)
    | Dma(channels: Bits8)
    | Io(minBase: UWord, maxBase: UWord, alignment: UWord, length: UWord)
    | Mem
  {
    predicate Usable() {
      Io? ==> length > 0 && alignment > 0 && maxBase + alignment < UWORD_MODULUS
    }

    /** The choices an iterator walks through, in ascending order. */
    predicate Candidate(c: int) {
      match this
      case Irq(mask) => c in mask
      case Dma(channels) => c in channels
      case Io(minBase, maxBase, alignment, _) => minBase <= c <= maxBase && OnGrid(c - minBase, alignment)
      case Mem => false
    }
  }

  predicate OnGrid(d: int, step: int) {
    step > 0 && d % step == 0
  }

  /** Bases are step apart, with none in between. */
  lemma GridStep(d: int, step: int)
    requires OnGrid(d, step)
    ensures OnGrid(d + step, step)
    ensures forall e :: d < e < d + step ==> !OnGrid(e, step)
  {
    var q := d / step;
    assert d + step == (q + 1) * step;
    Multiple(q + 1, step);
    forall e | d < e < d + step
      ensures !OnGrid(e, step)
    {
      NotBetween(q, e / step, step);
    }
  }

  lemma Multiple(q: int, step: int)
    requires step > 0
    ensures (q * step) % step == 0
  {
    MulStep(q, (q * step) / step, step);
    MulStep((q * step) / step, q, step);
  }

  lemma NotBetween(q: int, r: int, step: int)
    requires step > 0
    ensures !(q * step < r * step < q * step + step)
  {
    MulStep(q, r, step);
    MulStep(r, q, step);
  }

  class ResourceIterator {
    const resource: Resource
    var irqBit: int
    var channelBit: int
    var base: UWord
    var length: UWord
    var hasLock: bool
    var inConflict: bool

    constructor (resource: Resource)
      ensures this.resource == resource && !hasLock && !inConflict
    {
      this.resource := resource;
      irqBit, channelBit, base, length, hasLock, inConflict := 0, 0, 0, 0, false, false;
    }

    /** The current choice. */
    function Choice(): int
      reads this`irqBit, this`channelBit, this`base
    {
      match resource
      case Irq(_) => irqBit
      case Dma(_) => channelBit
      case Io(_, _, _, _) => base
      case Mem => 0
    }

    /** The choice is one the resource allows. */
    predicate Chosen()
      reads this`irqBit, this`channelBit, this`base, this`length
    {
      resource.Usable() && resource.Candidate(Choice()) && (resource.Io? ==> length == resource.length)
    }
  }

  function Overlap(base: int, length: int, other: int, otherLength: int): bool {
    base < other + otherLength && other < base + length
  }

  /** now is list with x inserted in front of position k. */
  lemma WithAt<T>(list: seq<T>, k: nat, x: T, now: seq<T>)
    requires k <= |list| && now == list[..k] + [x] + list[k..]
    ensures |now| == |list| + 1 && now[..k] == list[..k] && now[k] == x && now[k + 1..] == list[k..]
    ensures forall y :: y in list || y == x ==> y in now
  {
    assert list == list[..k] + list[k..];
  }

  /** rest is list without position k. */
  lemma WithoutAt<T>(list: seq<T>, k: nat, rest: seq<T>)
    requires k < |list| && rest == list[..k] + list[k + 1..]
    ensures forall j :: 0 <= j < |rest| ==> rest[j] == list[if j < k then j else j + 1]
    ensures forall x :: x in list ==> x in rest || x == list[k]
  {
    assert list == list[..k] + [list[k]] + list[k + 1..];
  }

  class ResourceContext {
    const irq: array<ResourceIterator?>
    const dma: array<ResourceIterator?>
    var io: seq<ResourceIterator>
    /** The iterators that hold a lock in this context. */
    ghost var locked: set<ResourceIterator>

    /** AllocResourceIteratorContext */
    constructor ()
      ensures Valid() && locked == {} && fresh(irq) && fresh(dma)
    {
      irq := new ResourceIterator?[IRQS](i => null);
      dma := new ResourceIterator?[CHANNELS](i => null);
      io, locked := [], {};
    }

    /** The IRQ slots are exactly the IRQ iterators of held. */
    ghost predicate IrqOk(held: set<ResourceIterator>)
      reads irq, held`irqBit
    {
      && irq.Length == IRQS
      && (forall b :: 0 <= b < IRQS && irq[b] != null ==> irq[b] in held && irq[b].resource.Irq? && irq[b].irqBit == b)
      && (forall i :: i in held && i.resource.Irq? ==> 0 <= i.irqBit < IRQS && irq[i.irqBit] == i)
    }

    ghost predicate DmaOk(held: set<ResourceIterator>)
      reads dma, held`channelBit
    {
      && dma.Length == CHANNELS
      && (forall b :: 0 <= b < CHANNELS && dma[b] != null ==>
          dma[b] in held && dma[b].resource.Dma? && dma[b].channelBit == b)
      && (forall i :: i in held && i.resource.Dma? ==> 0 <= i.channelBit < CHANNELS && dma[i.channelBit] == i)
    }

    /** The ranges of the list are not empty, sorted and disjoint. */
    ghost predicate Sorted(list: seq<ResourceIterator>)
      reads list`base, list`length
    {
      && (forall k :: 0 <= k < |list| ==> list[k].length > 0)
      && (forall j, k :: 0 <= j < k < |list| ==> list[j].base + list[j].length <= list[k].base)
    }

    /** The list holds exactly the IO iterators of held. */
    static ghost predicate Lists(list: seq<ResourceIterator>, held: set<ResourceIterator>) {
      (forall i :: i in list ==> i in held && i.resource.Io?) && (forall i :: i in held && i.resource.Io? ==> i in list)
    }

    ghost predicate IoOk(list: seq<ResourceIterator>, held: set<ResourceIterator>)
      reads list`base, list`length
    {
      Sorted(list) && Lists(list, held)
    }

    ghost predicate HeldOk(held: set<ResourceIterator>)
      reads held`hasLock, held`irqBit, held`channelBit, held`base, held`length
    {
      forall i :: i in held ==> i.hasLock && i.Chosen()
    }

    ghost predicate Valid()
      reads this, irq, dma, locked, io
    {
      IrqOk(locked) && DmaOk(locked) && IoOk(io, locked) && HeldOk(locked)
    }

    /** Adding or removing an iterator of one kind does not touch the others. */
    lemma OtherKinds(held: set<ResourceIterator>, iter: ResourceIterator)
      ensures IrqOk(held) && !iter.resource.Irq? ==> IrqOk(held + {iter}) && IrqOk(held - {iter})
      ensures DmaOk(held) && !iter.resource.Dma? ==> DmaOk(held + {iter}) && DmaOk(held - {iter})
      ensures IoOk(io, held) && !iter.resource.Io? ==> IoOk(io, held + {iter}) && IoOk(io, held - {iter})
    {
    }

    /** Inserting an IO range between those below and above it. */
    lemma IoInserted(list: seq<ResourceIterator>, held: set<ResourceIterator>, k: nat, iter: ResourceIterator)
      requires IoOk(list, held) && k <= |list| && iter.resource.Io? && iter.length > 0
      requires forall j :: 0 <= j < k ==> list[j].base + list[j].length <= iter.base
      requires forall j :: k <= j < |list| ==> iter.base + iter.length <= list[j].base
      ensures IoOk(list[..k] + [iter] + list[k..], held + {iter})
    {
      var now := list[..k] + [iter] + list[k..];
      WithAt(list, k, iter, now);
      SortedWith(list, k, iter, now);
    }

    lemma SortedWith(list: seq<ResourceIterator>, k: nat, iter: ResourceIterator, now: seq<ResourceIterator>)
      requires Sorted(list) && k <= |list| && iter.length > 0 && |now| == |list| + 1
      requires now[..k] == list[..k] && now[k] == iter && now[k + 1..] == list[k..]
      requires forall j :: 0 <= j < k ==> list[j].base + list[j].length <= iter.base
      requires forall j :: k <= j < |list| ==> iter.base + iter.length <= list[j].base
      ensures Sorted(now)
    {
      forall j | 0 <= j < |now|
        ensures now[j] == if j < k then list[j] else if j == k then iter else list[j - 1]
      {
        if j < k {
          assert now[..k][j] == list[..k][j];
        } else if j > k {
          assert now[k + 1..][j - k - 1] == list[k..][j - k - 1];
        }
      }
      forall i, j | 0 <= i < j < |now|
        ensures now[i].base + now[i].length <= now[j].base
      {
        if i == k {
          assert iter.base + iter.length <= list[j - 1].base;
        }
      }
    }

    lemma IoRemoved(list: seq<ResourceIterator>, held: set<ResourceIterator>, k: nat, iter: ResourceIterator)
      requires IoOk(list, held) && k < |list| && list[k] == iter
      ensures IoOk(list[..k] + list[k + 1..], held - {iter})
    {
      var rest := list[..k] + list[k + 1..];
      WithoutAt(list, k, rest);
      IoDistinct(list, k);
      SortedWithout(list, k, rest);
    }

    lemma SortedWithout(list: seq<ResourceIterator>, k: nat, rest: seq<ResourceIterator>)
      requires Sorted(list) && k < |list| && |rest| == |list| - 1
      requires forall j :: 0 <= j < |rest| ==> rest[j] == list[if j < k then j else j + 1]
      ensures Sorted(rest)
    {
    }

    lemma IoDistinct(list: seq<ResourceIterator>, k: nat)
      requires Sorted(list) && k < |list|
      ensures forall j :: 0 <= j < |list| && j != k ==> list[j] != list[k]
    {
    }

    lemma HeldAdded(held: set<ResourceIterator>, iter: ResourceIterator)
      requires HeldOk(held) && iter.hasLock && iter.Chosen()
      ensures HeldOk(held + {iter})
    {
    }

    lemma HeldLess(held: set<ResourceIterator>, iter: ResourceIterator)
      requires HeldOk(held)
      ensures HeldOk(held - {iter})
    {
    }

    twostate lemma IrqAdded(new held: set<ResourceIterator>, new iter: ResourceIterator)
      requires old(allocated(held) && allocated(iter)) && old(IrqOk(held)) && iter.resource.Irq? &&
          0 <= iter.irqBit < IRQS == irq.Length
      requires var b := iter.irqBit; old(irq[b]) == null
      requires forall b :: 0 <= b < IRQS ==> irq[b] == if b == iter.irqBit then iter else old(irq[b])
      requires forall i :: i in held ==> i.irqBit == old(i.irqBit)
      ensures IrqOk(held + {iter})
    {
      forall i | i in held + {iter} && i.resource.Irq?
        ensures 0 <= i.irqBit < IRQS && irq[i.irqBit] == i
      {
        if i != iter {
          assert old(irq[i.irqBit]) == i;
        }
      }
    }

    twostate lemma IrqRemoved(new held: set<ResourceIterator>, new iter: ResourceIterator)
      requires old(allocated(held) && allocated(iter)) && old(IrqOk(held)) && iter in held && iter.resource.Irq? &&
          IRQS == irq.Length
      requires forall b :: 0 <= b < IRQS ==> irq[b] == if b == iter.irqBit then null else old(irq[b])
      requires forall i :: i in held ==> i.irqBit == old(i.irqBit)
      ensures IrqOk(held - {iter})
    {
      forall b | 0 <= b < IRQS && irq[b] != null
        ensures irq[b] in held - {iter} && irq[b].resource.Irq? && irq[b].irqBit == b
      {
        assert old(irq[b]) == irq[b];
      }
      forall i | i in held - {iter} && i.resource.Irq?
        ensures 0 <= i.irqBit < IRQS && irq[i.irqBit] == i
      {
        assert old(irq[i.irqBit]) == i;
      }
    }

    twostate lemma DmaAdded(new held: set<ResourceIterator>, new iter: ResourceIterator)
      requires old(allocated(held) && allocated(iter)) && old(DmaOk(held)) && iter.resource.Dma? &&
          0 <= iter.channelBit < CHANNELS == dma.Length
      requires var b := iter.channelBit; old(dma[b]) == null
      requires forall b :: 0 <= b < CHANNELS ==> dma[b] == if b == iter.channelBit then iter else old(dma[b])
      requires forall i :: i in held ==> i.channelBit == old(i.channelBit)
      ensures DmaOk(held + {iter})
    {
      forall i | i in held + {iter} && i.resource.Dma?
        ensures 0 <= i.channelBit < CHANNELS && dma[i.channelBit] == i
      {
        if i != iter {
          assert old(dma[i.channelBit]) == i;
        }
      }
    }

    twostate lemma DmaRemoved(new held: set<ResourceIterator>, new iter: ResourceIterator)
      requires old(allocated(held) && allocated(iter)) && old(DmaOk(held)) && iter in held && iter.resource.Dma? &&
          CHANNELS == dma.Length
      requires forall b :: 0 <= b < CHANNELS ==> dma[b] == if b == iter.channelBit then null else old(dma[b])
      requires forall i :: i in held ==> i.channelBit == old(i.channelBit)
      ensures DmaOk(held - {iter})
    {
      forall b | 0 <= b < CHANNELS && dma[b] != null
        ensures dma[b] in held - {iter} && dma[b].resource.Dma? && dma[b].channelBit == b
      {
        assert old(dma[b]) == dma[b];
      }
      forall i | i in held - {iter} && i.resource.Dma?
        ensures 0 <= i.channelBit < CHANNELS && dma[i.channelBit] == i
      {
        assert old(dma[i.channelBit]) == i;
      }
    }

    /** Some iterator of held has choice c of the resource, or a range that overlaps it. */
    static ghost predicate Clash(held: set<ResourceIterator>, r: Resource, c: int)
      reads held`irqBit, held`channelBit, held`base, held`length
    {
      exists i :: i in held && ClashWith(i, r, c)
    }

    static ghost predicate ClashWith(i: ResourceIterator, r: Resource, c: int)
      reads i`irqBit, i`channelBit, i`base, i`length
    {
      match r
      case Irq(_) => i.resource.Irq? && i.irqBit == c
      case Dma(_) => i.resource.Dma? && i.channelBit == c
      case Io(_, _, _, length) => i.resource.Io? && Overlap(c, length, i.base, i.length)
      case Mem => false
    }

    /** i is the iterator that LockResource meets when it tries choice c: of several overlapping IO ranges the
        lowest one. */
    static ghost predicate Meets(held: set<ResourceIterator>, i: ResourceIterator, r: Resource, c: int)
      reads held`irqBit, held`channelBit, held`base, held`length
    {
      && i in held && ClashWith(i, r, c)
      && (r.Io? ==> forall m :: m in held && ClashWith(m, r, c) ==> i.base <= m.base)
    }

    /** Some choice strictly between lo and hi meets i. */
    static ghost predicate MetBetween(held: set<ResourceIterator>, i: ResourceIterator, r: Resource, lo: int, hi: int)
      reads held`irqBit, held`channelBit, held`base, held`length
    {
      exists d :: lo < d < hi && r.Candidate(d) && Meets(held, i, r, d)
    }

    /** In conflict are those that were before, and those met by a choice strictly between lo and hi. */
    twostate predicate MarkedBetween(held: set<ResourceIterator>, r: Resource, lo: int, hi: int)
      reads held`irqBit, held`channelBit, held`base, held`length, held`inConflict
    {
      forall i :: i in held ==> (i.inConflict <==> old(i.inConflict) || MetBetween(held, i, r, lo, hi))
    }

    /** The bounds a and b have the same choices behind lo. */
    static lemma MetAlike(held: set<ResourceIterator>, r: Resource, lo: int, a: int, b: int)
      requires forall d :: r.Candidate(d) ==> (lo < d < a <==> lo < d < b)
      ensures forall i :: i in held ==> (MetBetween(held, i, r, lo, a) <==> MetBetween(held, i, r, lo, b))
    {
      hide Meets, Resource.Candidate;
    }

    /** Behind lo the bound b has one more choice than a, which is c. */
    static lemma MetOneMore(held: set<ResourceIterator>, r: Resource, lo: int, a: int, c: int, b: int)
      requires r.Candidate(c) && lo < c < b
      requires forall d :: r.Candidate(d) ==> (lo < d < b <==> lo < d < a || d == c)
      ensures forall i :: i in held ==>
          (MetBetween(held, i, r, lo, b) <==> MetBetween(held, i, r, lo, a) || Meets(held, i, r, c))
    {
      hide Meets, Resource.Candidate;
    }

    // ---------- LockResource ----------

    /** The walk along the IO list: a colliding iterator, or the place for the new range. */
    method FindIoPlace(iter: ResourceIterator) returns (conflict: ResourceIterator?, k: nat)
      requires IoOk(io, locked) && iter.length > 0
      ensures k <= |io|
      ensures conflict != null ==>
          k < |io| && conflict == io[k] && Overlap(iter.base, iter.length, io[k].base, io[k].length)
      ensures conflict != null ==> forall j :: 0 <= j < k ==> io[j].base + io[j].length <= iter.base
      ensures conflict == null ==> FitsAt(iter, k)
    {
      var base, length := iter.base, iter.length;
      k := 0;
      while k < |io|
        invariant k <= |io|
        invariant forall j :: 0 <= j < k ==> io[j].base + io[j].length <= base
      {
        var ioBase: int, ioLength: int := io[k].base, io[k].length;
        if (base <= ioBase && base + length > ioBase) || (base >= ioBase && base < ioBase + ioLength) {
          return io[k], k;
        }
        if base + length <= ioBase {
          return null, k;
        }
        k := k + 1;
      }
      conflict := null;
    }

    lemma Slots()
      requires Valid()
      ensures irq.Length == IRQS && dma.Length == CHANNELS
    {
    }

    lemma SlotOf(iter: ResourceIterator)
      requires Valid() && iter in locked
      ensures iter.resource.Irq? ==> 0 <= iter.irqBit < irq.Length
      ensures iter.resource.Dma? ==> 0 <= iter.channelBit < dma.Length
    {
    }

    /** A slot is taken exactly when a locked iterator has that choice. */
    lemma SlotHeld(iter: ResourceIterator)
      requires Valid() && iter.Chosen()
      ensures iter.resource.Irq? ==> 0 <= iter.irqBit < irq.Length
      ensures iter.resource.Irq? ==> (irq[iter.irqBit] != null <==> Clash(locked, iter.resource, iter.irqBit))
      ensures iter.resource.Irq? && irq[iter.irqBit] != null ==>
          Meets(locked, irq[iter.irqBit], iter.resource, iter.irqBit)
      ensures iter.resource.Dma? ==> 0 <= iter.channelBit < dma.Length
      ensures iter.resource.Dma? ==> (dma[iter.channelBit] != null <==> Clash(locked, iter.resource, iter.channelBit))
      ensures iter.resource.Dma? && dma[iter.channelBit] != null ==>
          Meets(locked, dma[iter.channelBit], iter.resource, iter.channelBit)
    {
      if iter.resource.Irq? && irq[iter.irqBit] != null {
        assert ClashWith(irq[iter.irqBit], iter.resource, iter.irqBit);
      }
      if iter.resource.Dma? && dma[iter.channelBit] != null {
        assert ClashWith(dma[iter.channelBit], iter.resource, iter.channelBit);
      }
    }

    /** The outcome of the walk is exact. */
    lemma IoTaken(iter: ResourceIterator, conflict: ResourceIterator?, k: nat)
      requires IoOk(io, locked) && iter.resource.Io? && iter.length == iter.resource.length && k <= |io|
      requires conflict != null ==> k < |io| && conflict == io[k]
      requires conflict != null ==> Overlap(iter.base, iter.length, io[k].base, io[k].length)
      requires conflict != null ==> forall j :: 0 <= j < k ==> io[j].base + io[j].length <= iter.base
      requires conflict == null ==> FitsAt(iter, k)
      ensures conflict != null <==> Clash(locked, iter.resource, iter.base)
      ensures conflict != null ==> Meets(locked, conflict, iter.resource, iter.base)
    {
      if conflict != null {
        assert io[k] in io && ClashWith(io[k], iter.resource, iter.base);
        FirstIsLowest(iter, k);
      } else {
        forall i | i in locked
          ensures !ClashWith(i, iter.resource, iter.base)
        {
          if i.resource.Io? {
            assert i in io;
          }
        }
      }
    }

    /** The first range of the list that overlaps is the lowest one. */
    lemma FirstIsLowest(iter: ResourceIterator, k: nat)
      requires IoOk(io, locked) && iter.resource.Io? && iter.length == iter.resource.length && k < |io|
      requires forall j :: 0 <= j < k ==> io[j].base + io[j].length <= iter.base
      ensures forall m :: m in locked && ClashWith(m, iter.resource, iter.base) ==> io[k].base <= m.base
    {
      forall m | m in locked && ClashWith(m, iter.resource, iter.base)
        ensures io[k].base <= m.base
      {
        var j :| 0 <= j < |io| && io[j] == m;
        IoApart(io, k, j);
      }
    }

    /** A choice meets one iterator at most. */
    lemma OneMet(i: ResourceIterator, j: ResourceIterator, r: Resource, c: int)
      requires Valid() && Meets(locked, i, r, c) && Meets(locked, j, r, c)
      ensures i == j && i in locked
    {
      if r.Io? {
        var k :| 0 <= k < |io| && io[k] == i;
        var l :| 0 <= l < |io| && io[l] == j;
        IoApart(io, k, l);
        IoApart(io, l, k);
      }
    }

    lemma OnlyMet(i: ResourceIterator, r: Resource, c: int)
      requires Valid() && Meets(locked, i, r, c)
      ensures i in locked && forall j :: j in locked ==> (Meets(locked, j, r, c) <==> j == i)
    {
      hide IrqOk, DmaOk, IoOk, HeldOk, Meets;
      OneMet(i, i, r, c);
      forall j | j in locked && Meets(locked, j, r, c)
        ensures j == i
      {
        OneMet(i, j, r, c);
      }
    }

    lemma MetMeansClash(r: Resource, c: int)
      ensures forall i :: i in locked && Meets(locked, i, r, c) ==> Clash(locked, r, c)
    {
      hide ClashWith;
    }

    /** What a valid choice says about the slots. */
    lemma InRange(iter: ResourceIterator)
      requires iter.Chosen()
      ensures iter.resource.Irq? ==> 0 <= iter.irqBit < IRQS
      ensures iter.resource.Dma? ==> 0 <= iter.channelBit < CHANNELS
      ensures iter.resource.Io? ==> iter.length == iter.resource.length > 0
      ensures !iter.resource.Mem?
    {
    }

    lemma IoMember(k: nat)
      requires IoOk(io, locked)
      ensures k < |io| ==> io[k] in locked
    {
    }

    method LockIrq(iter: ResourceIterator) returns (conflict: ResourceIterator?)
      requires Valid() && iter !in locked && iter.Chosen() && iter.resource.Irq?
      modifies irq, this`locked, iter`hasLock
      ensures Valid() && iter.hasLock == (conflict == null) &&
          locked == if conflict == null then old(locked) + {iter} else old(locked)
      ensures conflict != null <==> old(Clash(locked, iter.resource, iter.irqBit))
      ensures conflict != null ==> Meets(locked, conflict, iter.resource, iter.Choice())
    {
      hide ResourceIterator.Chosen, IrqOk, DmaOk, IoOk, HeldOk, Clash, Meets;
      InRange(iter);
      Slots();
      conflict := irq[iter.irqBit];
      SlotHeld(iter);
      if conflict != null {
        iter.hasLock := false;
      } else {
        TakeIrq(iter);
      }
    }

    method TakeIrq(iter: ResourceIterator)
      requires Valid() && iter !in locked && iter.Chosen() && iter.resource.Irq? &&
          0 <= iter.irqBit < IRQS == irq.Length
      requires irq[iter.irqBit] == null
      modifies irq, this`locked, iter`hasLock
      ensures Valid() && iter.hasLock && locked == old(locked) + {iter}
    {
      hide ResourceIterator.Chosen, IrqOk, DmaOk, IoOk, HeldOk;
      OtherKinds(locked, iter);
      irq[iter.irqBit] := iter;
      IrqAdded(locked, iter);
      iter.hasLock := true;
      HeldAdded(locked, iter);
      locked := locked + {iter};
    }

    method LockDma(iter: ResourceIterator) returns (conflict: ResourceIterator?)
      requires Valid() && iter !in locked && iter.Chosen() && iter.resource.Dma?
      modifies dma, this`locked, iter`hasLock
      ensures Valid() && iter.hasLock == (conflict == null) &&
          locked == if conflict == null then old(locked) + {iter} else old(locked)
      ensures conflict != null <==> old(Clash(locked, iter.resource, iter.channelBit))
      ensures conflict != null ==> Meets(locked, conflict, iter.resource, iter.Choice())
    {
      hide ResourceIterator.Chosen, IrqOk, DmaOk, IoOk, HeldOk, Clash, Meets;
      InRange(iter);
      Slots();
      conflict := dma[iter.channelBit];
      SlotHeld(iter);
      if conflict != null {
        iter.hasLock := false;
      } else {
        TakeDma(iter);
      }
    }

    method TakeDma(iter: ResourceIterator)
      requires Valid() && iter !in locked && iter.Chosen() && iter.resource.Dma? &&
          0 <= iter.channelBit < CHANNELS == dma.Length
      requires dma[iter.channelBit] == null
      modifies dma, this`locked, iter`hasLock
      ensures Valid() && iter.hasLock && locked == old(locked) + {iter}
    {
      hide ResourceIterator.Chosen, IrqOk, DmaOk, IoOk, HeldOk;
      OtherKinds(locked, iter);
      dma[iter.channelBit] := iter;
      DmaAdded(locked, iter);
      iter.hasLock := true;
      HeldAdded(locked, iter);
      locked := locked + {iter};
    }

    method LockIo(iter: ResourceIterator) returns (conflict: ResourceIterator?)
      requires Valid() && iter !in locked && iter.Chosen() && iter.resource.Io?
      modifies this`io, this`locked, iter`hasLock
      ensures Valid() && iter.hasLock == (conflict == null) &&
          locked == if conflict == null then old(locked) + {iter} else old(locked)
      ensures conflict != null <==> old(Clash(locked, iter.resource, iter.base))
      ensures conflict != null ==> Meets(locked, conflict, iter.resource, iter.Choice())
    {
      InRange(iter);
      hide ResourceIterator.Chosen, IrqOk, DmaOk, IoOk, HeldOk, Clash, Meets, Overlap, FitsAt;
      var k;
      conflict, k := FindIoPlace(iter);
      IoMember(k);
      IoTaken(iter, conflict, k);
      if conflict != null {
        iter.hasLock := false;
      } else {
        InsertIo(iter, k);
      }
    }

    /** The range fits in at position k of the IO list. */
    ghost predicate FitsAt(iter: ResourceIterator, k: nat)
      reads this`io, iter`base, iter`length, io
    {
      && k <= |io|
      && (forall j :: 0 <= j < k ==> io[j].base + io[j].length <= iter.base)
      && (forall j :: k <= j < |io| ==> iter.base + iter.length <= io[j].base)
    }

    method InsertIo(iter: ResourceIterator, k: nat)
      requires Valid() && iter !in locked && iter.Chosen() && iter.resource.Io? && iter.length > 0 && FitsAt(iter, k)
      modifies this`io, this`locked, iter`hasLock
      ensures Valid() && iter.hasLock && locked == old(locked) + {iter}
    {
      hide ResourceIterator.Chosen, IrqOk, DmaOk, IoOk, HeldOk;
      OtherKinds(locked, iter);
      IoInserted(io, locked, k, iter);
      io := io[..k] + [iter] + io[k..];
      iter.hasLock := true;
      HeldAdded(locked, iter);
      locked := locked + {iter};
    }

    /** The switch of LockResource. */
    method LockKind(iter: ResourceIterator) returns (conflict: ResourceIterator?)
      requires Valid() && iter !in locked && iter.Chosen()
      modifies this`io, this`locked, irq, dma, iter`hasLock
      ensures Valid() && iter.hasLock == (conflict == null) &&
          locked == if conflict == null then old(locked) + {iter} else old(locked)
      ensures conflict != null <==> old(Clash(locked, iter.resource, iter.Choice()))
      ensures conflict != null ==> Meets(locked, conflict, iter.resource, iter.Choice())
    {
      hide ResourceIterator.Chosen, IrqOk, DmaOk, IoOk, HeldOk, Clash, Meets;
      InRange(iter);
      conflict := null;
      match iter.resource {
        case Irq(_) => conflict := LockIrq(iter);
        case Dma(_) => conflict := LockDma(iter);
        case Io(_, _, _, _) => conflict := LockIo(iter);
      }
    }

    /** LockResource, for an iterator that holds no lock. */
    method LockResource(iter: ResourceIterator) returns (ok: bool)
      requires Valid() && iter !in locked && iter.Chosen()
      modifies this`io, this`locked, irq, dma, iter`hasLock, locked`inConflict
      ensures Valid() && ok == iter.hasLock
      ensures ok <==> !old(Clash(locked, iter.resource, iter.Choice()))
      ensures locked == if ok then old(locked) + {iter} else old(locked)
      ensures forall i :: i in old(locked) ==>
          (i.inConflict <==> old(i.inConflict) || Meets(old(locked), i, iter.resource, iter.Choice()))
      ensures ok ==> forall i :: i in old(locked) ==> i.inConflict == old(i.inConflict)
      ensures !ok ==> exists i :: i in locked && Meets(locked, i, iter.resource, iter.Choice())
    {
      hide ResourceIterator.Chosen, IrqOk, DmaOk, IoOk, HeldOk, Clash, Meets;
      MetMeansClash(iter.resource, iter.Choice());
      var conflict := LockKind(iter);
      if conflict != null {
        OnlyMet(conflict, iter.resource, iter.Choice());
        conflict.inConflict := true;
      }
      ok := iter.hasLock;
    }

    // ---------- UnlockResource ----------

    method UnlockIo(iter: ResourceIterator)
      requires Valid() && iter in locked && iter.resource.Io?
      modifies this`io, this`locked, iter`hasLock
      ensures Valid() && !iter.hasLock && locked == old(locked) - {iter}
    {
      hide ResourceIterator.Chosen, IrqOk, DmaOk, IoOk;
      var k := 0;
      while k < |io| && io[k].base != iter.base
        invariant 0 <= k <= |io| && forall j :: 0 <= j < k ==> io[j] != iter
      {
        k := k + 1;
      }
      FoundIo(k, iter);
      OtherKinds(locked, iter);
      IoRemoved(io, locked, k, iter);
      io := io[..k] + io[k + 1..];
      iter.hasLock := false;
      locked := locked - {iter};
    }

    /** The first range with the iterator's base is its own. */
    lemma FoundIo(k: nat, iter: ResourceIterator)
      requires IoOk(io, locked) && iter in locked && iter.resource.Io?
      requires k <= |io| && (forall j :: 0 <= j < k ==> io[j] != iter) && (k < |io| ==> io[k].base == iter.base)
      ensures k < |io| && io[k] == iter
    {
      var j :| 0 <= j < |io| && io[j] == iter;
      IoApart(io, k, j);
    }

    lemma IoApart(list: seq<ResourceIterator>, j: nat, k: nat)
      requires Sorted(list)
      ensures j < k < |list| ==> list[j].base < list[k].base
    {
    }

    /** UnlockResource */
    method UnlockResource(iter: ResourceIterator)
      requires Valid() && (iter.hasLock ==> iter in locked)
      modifies this`io, this`locked, irq, dma, iter`hasLock
      ensures Valid() && !iter.hasLock && locked == old(locked) - {iter}
    {
      if !iter.hasLock {
        return;
      }
      match iter.resource {
        case Irq(_) => UnlockIrq(iter);
        case Dma(_) => UnlockDma(iter);
        case Io(_, _, _, _) => UnlockIo(iter);
      }
    }

    method UnlockIrq(iter: ResourceIterator)
      requires Valid() && iter in locked && iter.resource.Irq?
      modifies this`locked, irq, iter`hasLock
      ensures Valid() && !iter.hasLock && locked == old(locked) - {iter}
    {
      hide ResourceIterator.Chosen, IrqOk, DmaOk, IoOk, HeldOk;
      Slots();
      SlotOf(iter);
      OtherKinds(locked, iter);
      HeldLess(locked, iter);
      irq[iter.irqBit] := null;
      IrqRemoved(locked, iter);
      iter.hasLock := false;
      locked := locked - {iter};
    }

    method UnlockDma(iter: ResourceIterator)
      requires Valid() && iter in locked && iter.resource.Dma?
      modifies this`locked, dma, iter`hasLock
      ensures Valid() && !iter.hasLock && locked == old(locked) - {iter}
    {
      hide ResourceIterator.Chosen, IrqOk, DmaOk, IoOk, HeldOk;
      Slots();
      SlotOf(iter);
      OtherKinds(locked, iter);
      HeldLess(locked, iter);
      dma[iter.channelBit] := null;
      DmaRemoved(locked, iter);
      iter.hasLock := false;
      locked := locked - {iter};
    }

    // ---------- ResetResourceIterator ----------

    /** All candidates in front of c are taken. */
    static ghost predicate TakenBelow(others: set<ResourceIterator>, r: Resource, c: int)
      reads others`irqBit, others`channelBit, others`base, others`length
    {
      forall d :: d < c && r.Candidate(d) ==> Clash(others, r, d)
    }

    method ResetIrq(iter: ResourceIterator, mask: Bits16) returns (rc: bool)
      requires Valid() && iter !in locked && !iter.hasLock && iter.resource == Irq(mask)
      modifies this`io, this`locked, irq, dma, iter`irqBit, iter`hasLock, locked`inConflict
      ensures Valid() && iter.hasLock == rc && (rc ==> iter.Chosen())
      ensures locked == if rc then old(locked) + {iter} else old(locked)
      ensures rc ==>
          TakenBelow(old(locked), iter.resource, iter.irqBit) && !Clash(old(locked), iter.resource, iter.irqBit)
      ensures !rc ==> TakenBelow(locked, iter.resource, IRQS)
      ensures MarkedBetween(old(locked), iter.resource, -1, if rc then iter.irqBit else IRQS)
    {
      hide IrqOk, DmaOk, IoOk, HeldOk, Clash, Meets, MetBetween, Valid;
      NothingMet(locked, iter.resource, -1, 0);
      NotListed(iter);
      iter.irqBit := 0;
      rc := false;
      while iter.irqBit < IRQS
        invariant MarkedBetween(old(locked), iter.resource, -1, iter.irqBit)
        invariant 0 <= iter.irqBit <= IRQS && Valid() && locked == old(locked) && !rc && !iter.hasLock
        invariant TakenBelow(locked, iter.resource, iter.irqBit)
      {
        if iter.irqBit in mask {
          rc := LockResource(iter);
          if rc {
            return;
          }
          MetOneMore(locked, iter.resource, -1, iter.irqBit, iter.irqBit, iter.irqBit + 1);
        } else {
          MetAlike(locked, iter.resource, -1, iter.irqBit, iter.irqBit + 1);
        }
        NotListed(iter);
        iter.irqBit := iter.irqBit + 1;
      }
    }

    method ResetDma(iter: ResourceIterator, channels: Bits8) returns (rc: bool)
      requires Valid() && iter !in locked && !iter.hasLock && iter.resource == Dma(channels)
      modifies this`io, this`locked, irq, dma, iter`channelBit, iter`hasLock, locked`inConflict
      ensures Valid() && iter.hasLock == rc && (rc ==> iter.Chosen())
      ensures locked == if rc then old(locked) + {iter} else old(locked)
      ensures rc ==>
          TakenBelow(old(locked), iter.resource, iter.channelBit) && !Clash(old(locked), iter.resource, iter.channelBit)
      ensures !rc ==> TakenBelow(locked, iter.resource, CHANNELS)
      ensures MarkedBetween(old(locked), iter.resource, -1, if rc then iter.channelBit else CHANNELS)
    {
      hide IrqOk, DmaOk, IoOk, HeldOk, Clash, Meets, MetBetween, Valid;
      NothingMet(locked, iter.resource, -1, 0);
      NotListed(iter);
      iter.channelBit := 0;
      rc := false;
      while iter.channelBit < CHANNELS
        invariant MarkedBetween(old(locked), iter.resource, -1, iter.channelBit)
        invariant 0 <= iter.channelBit <= CHANNELS && Valid() && locked == old(locked) && !rc && !iter.hasLock
        invariant TakenBelow(locked, iter.resource, iter.channelBit)
      {
        if iter.channelBit in channels {
          rc := LockResource(iter);
          if rc {
            return;
          }
          MetOneMore(locked, iter.resource, -1, iter.channelBit, iter.channelBit, iter.channelBit + 1);
        } else {
          MetAlike(locked, iter.resource, -1, iter.channelBit, iter.channelBit + 1);
        }
        NotListed(iter);
        iter.channelBit := iter.channelBit + 1;
      }
    }

    method ResetIo(iter: ResourceIterator) returns (rc: bool)
      requires Valid() && iter !in locked && !iter.hasLock && iter.resource.Io? && iter.resource.Usable()
      modifies this`io, this`locked, irq, dma, iter`base, iter`length, iter`hasLock, locked`inConflict
      ensures Valid() && iter.hasLock == rc && (rc ==> iter.Chosen())
      ensures locked == if rc then old(locked) + {iter} else old(locked)
      ensures rc ==> TakenBelow(old(locked), iter.resource, iter.base) && !Clash(old(locked), iter.resource, iter.base)
      ensures !rc ==> TakenBelow(locked, iter.resource, iter.resource.maxBase + 1)
      ensures MarkedBetween(old(locked), iter.resource, -1, if rc then iter.base else iter.resource.maxBase + 1)
    {
      hide IrqOk, DmaOk, IoOk, HeldOk, Clash, OnGrid, Meets, MetBetween, Valid;
      var r := iter.resource;
      NotListed(iter);
      iter.base, iter.length := r.minBase, r.length;
      GridStart(r);
      NothingMet(locked, r, -1, r.minBase);
      rc := false;
      while iter.base <= r.maxBase
        invariant MarkedBetween(old(locked), r, -1, iter.base)
        invariant Valid() && locked == old(locked) && !rc && !iter.hasLock && iter.length == r.length
        invariant r.minBase <= iter.base <= r.maxBase + r.alignment || iter.base == r.minBase
        invariant OnGrid(iter.base - r.minBase, r.alignment) && TakenBelow(locked, r, iter.base)
        decreases r.maxBase + r.alignment - iter.base
      {
        rc := LockResource(iter);
        if rc {
          return;
        }
        TakenStep(locked, r, iter.base);
        NoneBetween(r, iter.base);
        MetOneMore(locked, r, -1, iter.base, iter.base, iter.base + r.alignment);
        NotListed(iter);
        iter.base := iter.base + r.alignment;
      }
      MetAlike(locked, r, -1, iter.base, r.maxBase + 1);
    }

    static lemma NothingMet(held: set<ResourceIterator>, r: Resource, lo: int, hi: int)
      requires forall d :: r.Candidate(d) ==> !(lo < d < hi)
      ensures forall i :: i in held ==> !MetBetween(held, i, r, lo, hi)
    {
    }

    static lemma NoneBetween(r: Resource, c: int)
      requires r.Io? && OnGrid(c - r.minBase, r.alignment)
      ensures forall d :: r.Candidate(d) ==> !(c < d < c + r.alignment)
    {
      GridStep(c - r.minBase, r.alignment);
      hide OnGrid;
      forall d | c < d < c + r.alignment
        ensures !r.Candidate(d)
      {
        assert !OnGrid(d - r.minBase, r.alignment);
      }
    }

    lemma NotListed(iter: ResourceIterator)
      requires Valid() && iter !in locked
      ensures iter !in io
    {
    }

    static lemma GridStart(r: Resource)
      requires r.Io? && r.alignment > 0
      ensures OnGrid(0, r.alignment)
      ensures forall c :: r.Candidate(c) ==> c >= r.minBase
    {
    }

    /** The next base follows without a candidate in between. */
    static lemma TakenStep(others: set<ResourceIterator>, r: Resource, c: int)
      requires r.Io? && OnGrid(c - r.minBase, r.alignment) && TakenBelow(others, r, c) && Clash(others, r, c)
      ensures OnGrid(c + r.alignment - r.minBase, r.alignment) && TakenBelow(others, r, c + r.alignment)
    {
      GridStep(c - r.minBase, r.alignment);
      hide OnGrid, Clash;
      forall d | d < c + r.alignment && r.Candidate(d)
        ensures Clash(others, r, d)
      {
      }
    }

    /** One past the last choice of a resource. */
    static function Limit(r: Resource): int {
      match r
      case Irq(_) => IRQS
      case Dma(_) => CHANNELS
      case Io(_, maxBase, _, _) => maxBase + 1
      case Mem => 0
    }

    /** ResetResourceIterator takes the least choice that clashes with no locked iterator; it fails
        exactly when there is none. */
    method ResetResourceIterator(iter: ResourceIterator) returns (rc: bool)
      requires Valid() && iter !in locked && !iter.hasLock && iter.resource.Usable()
      modifies this`io, this`locked, irq, dma, iter, locked`inConflict
      ensures Valid() && iter.hasLock == rc && (rc ==> iter.Chosen())
      ensures locked == if rc then old(locked) + {iter} else old(locked)
      ensures rc ==>
          TakenBelow(old(locked), iter.resource, iter.Choice()) && !Clash(old(locked), iter.resource, iter.Choice())
      ensures !rc ==> TakenBelow(locked, iter.resource, Limit(iter.resource))
      ensures iter.inConflict == old(iter.inConflict)
      ensures MarkedBetween(old(locked), iter.resource, -1, if rc then iter.Choice() else Limit(iter.resource))
    {
      hide IrqOk, DmaOk, IoOk, HeldOk, Clash, OnGrid, MetBetween;
      NothingMet(locked, iter.resource, -1, 0);
      rc := false;
      match iter.resource {
        case Irq(mask) => rc := ResetIrq(iter, mask);
        case Dma(channels) => rc := ResetDma(iter, channels);
        case Io(_, _, _, _) => rc := ResetIo(iter);
        case Mem =>
      }
    }

    // ---------- IncResourceIterator ----------

    /** All candidates strictly between two choices are taken. */
    static ghost predicate TakenBetween(others: set<ResourceIterator>, r: Resource, lo: int, hi: int)
      reads others`irqBit, others`channelBit, others`base, others`length
    {
      forall d :: lo < d < hi && r.Candidate(d) ==> Clash(others, r, d)
    }

    method IncIrq(iter: ResourceIterator, mask: Bits16) returns (rc: bool)
      requires Valid() && iter !in locked && !iter.hasLock && iter.resource == Irq(mask) && 0 <= iter.irqBit < IRQS
      modifies this`io, this`locked, irq, dma, iter`irqBit, iter`hasLock, locked`inConflict
      ensures Valid() && iter.hasLock == rc && (rc ==> iter.Chosen() && iter.irqBit > old(iter.irqBit))
      ensures locked == if rc then old(locked) + {iter} else old(locked)
      ensures TakenBetween(old(locked), iter.resource, old(iter.irqBit), if rc then iter.irqBit else IRQS)
      ensures MarkedBetween(old(locked), iter.resource, old(iter.irqBit), if rc then iter.irqBit else IRQS)
    {
      hide IrqOk, DmaOk, IoOk, HeldOk, Clash, Meets, MetBetween, Valid;
      NothingMet(locked, iter.resource, iter.irqBit, iter.irqBit + 1);
      rc := false;
      while !rc && iter.irqBit < IRQS
        invariant MarkedBetween(old(locked), iter.resource, old(iter.irqBit),
            if rc then iter.irqBit else iter.irqBit + 1)
        invariant old(iter.irqBit) <= iter.irqBit <= IRQS && Valid() && iter.hasLock == rc
        invariant locked == if rc then old(locked) + {iter} else old(locked)
        invariant rc ==> iter.Chosen() && iter.irqBit > old(iter.irqBit)
        invariant TakenBetween(old(locked), iter.resource, old(iter.irqBit),
            if rc then iter.irqBit else iter.irqBit + 1)
        decreases !rc, IRQS - iter.irqBit
      {
        NotListed(iter);
        iter.irqBit := iter.irqBit + 1;
        ghost var c := iter.irqBit;
        if iter.irqBit in mask {
          rc := LockResource(iter);
          if !rc {
            MetOneMore(old(locked), iter.resource, old(iter.irqBit), c, c, c + 1);
          }
        } else {
          MetAlike(old(locked), iter.resource, old(iter.irqBit), c, c + 1);
        }
      }
      MetAlike(old(locked), iter.resource, old(iter.irqBit), if rc then iter.irqBit else iter.irqBit + 1,
               if rc then iter.irqBit else IRQS);
    }

    method IncDma(iter: ResourceIterator, channels: Bits8) returns (rc: bool)
      requires Valid() && iter !in locked && !iter.hasLock && iter.resource == Dma(channels) &&
          0 <= iter.channelBit < CHANNELS
      modifies this`io, this`locked, irq, dma, iter`channelBit, iter`hasLock, locked`inConflict
      ensures Valid() && iter.hasLock == rc && (rc ==> iter.Chosen() && iter.channelBit > old(iter.channelBit))
      ensures locked == if rc then old(locked) + {iter} else old(locked)
      ensures TakenBetween(old(locked), iter.resource, old(iter.channelBit), if rc then iter.channelBit else CHANNELS)
      ensures MarkedBetween(old(locked), iter.resource, old(iter.channelBit), if rc then iter.channelBit else CHANNELS)
    {
      hide IrqOk, DmaOk, IoOk, HeldOk, Clash, Meets, MetBetween, Valid;
      NothingMet(locked, iter.resource, iter.channelBit, iter.channelBit + 1);
      rc := false;
      while !rc && iter.channelBit < CHANNELS
        invariant MarkedBetween(old(locked), iter.resource, old(iter.channelBit),
            if rc then iter.channelBit else iter.channelBit + 1)
        invariant old(iter.channelBit) <= iter.channelBit <= CHANNELS && Valid() && iter.hasLock == rc
        invariant locked == if rc then old(locked) + {iter} else old(locked)
        invariant rc ==> iter.Chosen() && iter.channelBit > old(iter.channelBit)
        invariant TakenBetween(old(locked), iter.resource, old(iter.channelBit),
            if rc then iter.channelBit else iter.channelBit + 1)
        decreases !rc, CHANNELS - iter.channelBit
      {
        NotListed(iter);
        iter.channelBit := iter.channelBit + 1;
        ghost var c := iter.channelBit;
        if iter.channelBit in channels {
          rc := LockResource(iter);
          if !rc {
            MetOneMore(old(locked), iter.resource, old(iter.channelBit), c, c, c + 1);
          }
        } else {
          MetAlike(old(locked), iter.resource, old(iter.channelBit), c, c + 1);
        }
      }
      MetAlike(old(locked), iter.resource, old(iter.channelBit), if rc then iter.channelBit else iter.channelBit + 1,
               if rc then iter.channelBit else CHANNELS);
    }

    method IncIo(iter: ResourceIterator) returns (rc: bool)
      requires Valid() && iter !in locked && !iter.hasLock && iter.resource.Io? && iter.Chosen()
      modifies this`io, this`locked, irq, dma, iter`base, iter`hasLock, locked`inConflict
      ensures Valid() && iter.hasLock == rc && (rc ==> iter.Chosen() && iter.base > old(iter.base))
      ensures locked == if rc then old(locked) + {iter} else old(locked)
      ensures TakenBetween(old(locked), iter.resource, old(iter.base),
          if rc then iter.base else iter.resource.maxBase + 1)
      ensures MarkedBetween(old(locked), iter.resource, old(iter.base),
          if rc then iter.base else iter.resource.maxBase + 1)
    {
      hide IrqOk, DmaOk, IoOk, HeldOk, Clash, OnGrid, Meets, MetBetween, Valid;
      NothingMet(locked, iter.resource, iter.base, iter.base + 1);
      var r := iter.resource;
      rc := false;
      while iter.base <= r.maxBase
        invariant MarkedBetween(old(locked), r, old(iter.base), iter.base + 1)
        invariant old(iter.base) <= iter.base <= r.maxBase + r.alignment && Valid() && !iter.hasLock && !rc
        invariant locked == old(locked) && iter.length == r.length
        invariant OnGrid(iter.base - r.minBase, r.alignment)
        invariant TakenBetween(locked, r, old(iter.base), iter.base + 1)
        decreases r.maxBase + r.alignment - iter.base
      {
        NotListed(iter);
        BetweenStep(locked, r, old(iter.base), iter.base);
        NoneBetween(r, iter.base);
        ghost var b := iter.base;
        iter.base := iter.base + r.alignment;
        if iter.base <= r.maxBase {
          rc := LockResource(iter);
          MetAlike(old(locked), r, old(iter.base), b + 1, b + r.alignment);
          if rc {
            return;
          }
          MetOneMore(locked, r, old(iter.base), b + r.alignment, b + r.alignment, b + r.alignment + 1);
        } else {
          MetAlike(locked, r, old(iter.base), b + 1, b + r.alignment + 1);
        }
      }
      MetAlike(locked, r, old(iter.base), iter.base + 1, r.maxBase + 1);
    }

    /** The next base follows without a candidate in between. */
    static lemma BetweenStep(others: set<ResourceIterator>, r: Resource, lo: int, c: int)
      requires r.Io? && OnGrid(c - r.minBase, r.alignment) && TakenBetween(others, r, lo, c + 1)
      ensures OnGrid(c + r.alignment - r.minBase, r.alignment) && TakenBetween(others, r, lo, c + r.alignment)
    {
      GridStep(c - r.minBase, r.alignment);
      hide OnGrid, Clash;
      forall d | lo < d < c + r.alignment && r.Candidate(d)
        ensures Clash(others, r, d)
      {
      }
    }

    /** A locked iterator shares its IRQ, DMA channel or IO ports with no other locked iterator. */
    lemma NothingShared(iter: ResourceIterator)
      requires Valid() && iter in locked
      ensures !Clash(locked - {iter}, iter.resource, iter.Choice())
    {
      forall i | i in locked - {iter}
        ensures !ClashWith(i, iter.resource, iter.Choice())
      {
        if i.resource.Io? && iter.resource.Io? {
          IoDisjoint(i, iter);
        }
      }
    }

    lemma IoDisjoint(i: ResourceIterator, iter: ResourceIterator)
      requires IoOk(io, locked) && i in locked && iter in locked && i.resource.Io? && iter.resource.Io? && i != iter
      ensures !Overlap(iter.base, iter.length, i.base, i.length)
    {
      var j :| 0 <= j < |io| && io[j] == i;
      var k :| 0 <= k < |io| && io[k] == iter;
      assert j < k || k < j;
    }

    /** IncResourceIterator moves on to the next choice that is not taken, or gives the lock up. */
    method IncResourceIterator(iter: ResourceIterator) returns (rc: bool)
      requires Valid() && iter in locked
      modifies this`io, this`locked, irq, dma, iter, locked`inConflict
      ensures Valid() && iter.hasLock == rc && iter.inConflict == old(iter.inConflict)
      ensures locked == if rc then old(locked) else old(locked) - {iter}
      ensures rc ==> iter.Chosen() && iter.Choice() > old(iter.Choice())
      ensures TakenBetween(old(locked) - {iter}, iter.resource, old(iter.Choice()),
          if rc then iter.Choice() else Limit(iter.resource))
      ensures MarkedBetween(old(locked) - {iter}, iter.resource, old(iter.Choice()),
          if rc then iter.Choice() else Limit(iter.resource))
    {
      HeldIs(iter);
      InRange(iter);
      hide IrqOk, DmaOk, IoOk, HeldOk, Clash, OnGrid, MetBetween;
      UnlockResource(iter);
      assert old(locked) - {iter} + {iter} == old(locked);
      rc := false;
      match iter.resource {
        case Irq(mask) => rc := IncIrq(iter, mask);
        case Dma(channels) => rc := IncDma(iter, channels);
        case Io(_, _, _, _) => rc := IncIo(iter);
      }
    }

    lemma HeldIs(iter: ResourceIterator)
      requires Valid() && iter in locked
      ensures iter.hasLock && iter.Chosen()
    {
    }

    // ---------- lists of iterators ----------

    /** UnlockResource, then ResetResourceIterator: the old choice is still there, so it succeeds, and
        the new choice is not above the old one. */
    method StartOver(iter: ResourceIterator, ghost was: int)
      requires Valid() && iter !in locked && !iter.hasLock && iter.resource.Usable()
      requires iter.resource.Candidate(was) && !Clash(locked, iter.resource, was)
      modifies this`io, this`locked, irq, dma, iter, locked`inConflict
      ensures Valid() && locked == old(locked) + {iter} && iter.Choice() <= was &&
          iter.inConflict == old(iter.inConflict)
      ensures TakenBelow(old(locked), iter.resource, iter.Choice())
      ensures MarkedBetween(old(locked), iter.resource, -1, iter.Choice())
    {
      BelowLimit(iter.resource, was);
      hide IrqOk, DmaOk, IoOk, HeldOk, Clash, OnGrid, MetBetween;
      var rc := ResetResourceIterator(iter);
    }

    static lemma BelowLimit(r: Resource, c: int)
      requires r.Candidate(c)
      ensures 0 <= c < Limit(r) <= UWORD_MODULUS
    {
    }

    // ---------- choices as values ----------

    /** The choice of every locked iterator. */
    ghost function Standing(): map<ResourceIterator, int>
      reads this`locked, locked`irqBit, locked`channelBit, locked`base
    {
      map i | i in locked :: i.Choice()
    }

    static predicate Collide(r: Resource, c: int, s: Resource, d: int) {
      match r
      case Irq(_) => s.Irq? && d == c
      case Dma(_) => s.Dma? && d == c
      case Io(_, _, _, length) => s.Io? && Overlap(c, length, d, s.length)
      case Mem => false
    }

    /** Iterator i may take choice c while the others stand where at says. */
    static ghost predicate Free(at: map<ResourceIterator, int>, i: ResourceIterator, c: int) {
      i.resource.Candidate(c) && forall j :: j in at && j != i ==> !Collide(i.resource, c, j.resource, at[j])
    }

    static ghost predicate LeastFree(at: map<ResourceIterator, int>, i: ResourceIterator, c: int) {
      Free(at, i, c) && forall d :: d < c ==> !Free(at, i, d)
    }

    static ghost predicate NextFree(at: map<ResourceIterator, int>, i: ResourceIterator, c: int)
      requires i in at
    {
      Free(at, i, c) && at[i] < c && forall d :: at[i] < d < c ==> !Free(at, i, d)
    }

    static ghost predicate NoneFreeAbove(at: map<ResourceIterator, int>, i: ResourceIterator)
      requires i in at
    {
      forall d :: at[i] < d ==> !Free(at, i, d)
    }

    /** Choice c of iterator i meets x while the others stand where at says: they collide, and of several IO
        ranges x is the lowest. */
    static ghost predicate Met(at: map<ResourceIterator, int>, i: ResourceIterator, c: int, x: ResourceIterator) {
      && x in at && x != i && Collide(i.resource, c, x.resource, at[x])
      && (i.resource.Io? ==>
          forall y :: y in at && y != i && Collide(i.resource, c, y.resource, at[y]) ==> at[x] <= at[y])
    }

    /** Iterator i tries choice d in vain in a turn that takes it to choice c: those above its old choice when it
        is in conflict, and if it cannot move on there, those below c. */
    static predicate InVain(was: int, r: Resource, conflict: bool, rc: bool, c: int, d: int) {
      r.Candidate(d) && if rc then was < d < c else d < c || (conflict && was < d)
    }

    /** In its turn iterator i meets x. */
    static ghost predicate MetInTurn(at: map<ResourceIterator, int>, i: ResourceIterator, conflict: bool, rc: bool,
                                     c: int, x: ResourceIterator)
      requires i in at
    {
      exists d :: InVain(at[i], i.resource, conflict, rc, c, d) && Met(at, i, d, x)
    }

    /** The same, told by the state of the context. */
    static ghost predicate MetMoving(held: set<ResourceIterator>, x: ResourceIterator, r: Resource, was: int,
                                     conflict: bool, rc: bool, c: int)
      reads held`irqBit, held`channelBit, held`base, held`length
    {
      || (conflict && MetBetween(held, x, r, was, if rc then c else Limit(r)))
      || (!rc && MetBetween(held, x, r, -1, c))
    }

    lemma MetMeans(at: map<ResourceIterator, int>, i: ResourceIterator)
      requires Valid() && at.Keys == locked && forall j :: j in locked && j != i ==> at[j] == j.Choice()
      ensures forall x, d :: x in locked && x != i ==> (Met(at, i, d, x) <==> Meets(locked - {i}, x, i.resource, d))
    {
      CollideMeans(at, i);
      hide IrqOk, DmaOk, IoOk, HeldOk, ClashWith, Collide;
    }

    lemma CollideMeans(at: map<ResourceIterator, int>, i: ResourceIterator)
      requires Valid() && at.Keys == locked && forall j :: j in locked && j != i ==> at[j] == j.Choice()
      ensures forall j, d :: j in locked && j != i ==>
          (Collide(i.resource, d, j.resource, at[j]) <==> ClashWith(j, i.resource, d))
    {
      hide IrqOk, DmaOk, IoOk;
      forall j, d | j in locked && j != i
        ensures Collide(i.resource, d, j.resource, at[j]) <==> ClashWith(j, i.resource, d)
      {
        assert j.Chosen();
      }
    }

    lemma MetMovingMeans(at: map<ResourceIterator, int>, i: ResourceIterator, conflict: bool, rc: bool)
      requires Valid() && i in locked && at.Keys == locked && (rc ==> conflict)
      requires forall j :: j in locked && j != i ==> at[j] == j.Choice()
      ensures forall x :: x in locked && x != i ==>
          (MetInTurn(at, i, conflict, rc, i.Choice(), x) <==>
           MetMoving(locked - {i}, x, i.resource, at[i], conflict, rc, i.Choice()))
      ensures !MetInTurn(at, i, conflict, rc, i.Choice(), i)
    {
      MetMeans(at, i);
      Choosable(i.resource);
      assert forall d :: !Met(at, i, d, i);
      hide IrqOk, DmaOk, IoOk, HeldOk, Met, Meets, Resource.Candidate, Limit;
      forall x | x in locked && x != i
        ensures MetInTurn(at, i, conflict, rc, i.Choice(), x) <==>
                MetMoving(locked - {i}, x, i.resource, at[i], conflict, rc, i.Choice())
      {
        forall d | i.resource.Candidate(d)
          ensures Met(at, i, d, x) <==> Meets(locked - {i}, x, i.resource, d)
        {
        }
      }
    }

    static lemma Choosable(r: Resource)
      ensures forall d :: r.Candidate(d) ==> -1 < d < Limit(r)
    {
    }

    lemma FreeMeans(at: map<ResourceIterator, int>, i: ResourceIterator)
      requires Valid() && at.Keys == locked && forall j :: j in locked && j != i ==> at[j] == j.Choice()
      ensures forall d :: Free(at, i, d) <==> i.resource.Candidate(d) && !Clash(locked - {i}, i.resource, d)
    {
      CollideMeans(at, i);
      hide IrqOk, DmaOk, IoOk, HeldOk, ClashWith, Collide;
    }

    /** One round of IncResourceIteratorList: an iterator in conflict moves on to its next free choice;
        one that is not, or has none left, falls back to its least free choice. */
    method IncStep(current: ResourceIterator) returns (rc: bool)
      requires Valid() && current in locked
      modifies this`io, this`locked, irq, dma, current, locked`inConflict
      ensures Valid() && locked == old(locked)
      ensures if rc then current.Choice() > old(current.Choice()) else current.Choice() <= old(current.Choice())
      ensures rc ==> old(current.inConflict)
      ensures forall x :: x in locked ==>
          (x.inConflict <==> old(x.inConflict) || MetInTurn(old(Standing()), current, old(current.inConflict), rc,
                                                            current.Choice(), x))
      ensures Standing() == old(Standing())[current := current.Choice()]
      ensures rc ==> NextFree(old(Standing()), current, current.Choice())
      ensures !rc ==> LeastFree(old(Standing()), current, current.Choice())
      ensures !rc && old(current.inConflict) ==> NoneFreeAbove(old(Standing()), current)
    {
      hide IrqOk, DmaOk, IoOk, HeldOk, Clash, OnGrid, TakenBelow, TakenBetween, NextFree, LeastFree, NoneFreeAbove,
          ResourceIterator.Chosen, Limit;
      hide MetMoving, MetInTurn;
      rc := IncOrReset(current);
      MetMovingMeans(old(Standing()), current, old(current.inConflict), rc);
      WentTo(old(Standing()), current, rc, old(current.inConflict));
    }

    method IncOrReset(current: ResourceIterator) returns (rc: bool)
      requires Valid() && current in locked
      modifies this`io, this`locked, irq, dma, current, locked`inConflict
      ensures Valid() && locked == old(locked)
      ensures if rc then current.Choice() > old(current.Choice()) else current.Choice() <= old(current.Choice())
      ensures rc ==> old(current.inConflict)
      ensures current.inConflict == old(current.inConflict)
      ensures forall x :: x in locked - {current} ==>
          (x.inConflict <==> old(x.inConflict) || MetMoving(locked - {current}, x, current.resource,
                                                            old(current.Choice()), old(current.inConflict), rc,
                                                            current.Choice()))
      ensures rc ==>
          TakenBetween(locked - {current}, current.resource, old(current.Choice()), current.Choice())
      ensures !rc && old(current.inConflict) ==>
          TakenBetween(locked - {current}, current.resource, old(current.Choice()), Limit(current.resource))
      ensures !rc ==> TakenBelow(locked - {current}, current.resource, current.Choice())
    {
      hide IrqOk, DmaOk, IoOk, HeldOk, Clash, OnGrid, TakenBelow, TakenBetween, Limit, MetBetween,
          ResourceIterator.Chosen, Resource.Candidate, Resource.Usable;
      ghost var was := current.Choice();
      StandsAlone(current);
      rc := false;
      if current.inConflict {
        rc := IncResourceIterator(current);
      } else {
        UnlockResource(current);
      }
      if !rc {
        assert old(locked) - {current} + {current} == old(locked);
        StartOver(current, was);
      }
    }

    /** Once it has given its lock up, an iterator can have its old choice back. */
    lemma StandsAlone(iter: ResourceIterator)
      requires Valid() && iter in locked
      ensures iter.resource.Usable() && iter.resource.Candidate(iter.Choice())
      ensures !Clash(locked - {iter}, iter.resource, iter.Choice())
    {
      NothingShared(iter);
      HeldIs(iter);
    }

    lemma WentTo(at: map<ResourceIterator, int>, i: ResourceIterator, rc: bool, conflict: bool)
      requires Valid() && i in locked && at.Keys == locked
      requires forall j :: j in locked && j != i ==> at[j] == j.Choice()
      requires if rc then i.Choice() > at[i] else i.Choice() <= at[i]
      requires rc ==> TakenBetween(locked - {i}, i.resource, at[i], i.Choice())
      requires !rc && conflict ==> TakenBetween(locked - {i}, i.resource, at[i], Limit(i.resource))
      requires !rc ==> TakenBelow(locked - {i}, i.resource, i.Choice())
      ensures Standing() == at[i := i.Choice()]
      ensures if rc then NextFree(at, i, i.Choice()) else LeastFree(at, i, i.Choice())
      ensures !rc && conflict ==> NoneFreeAbove(at, i)
    {
      FreeMeans(at, i);
      NothingShared(i);
      HeldIs(i);
      hide IrqOk, DmaOk, IoOk, HeldOk, Clash, Free;
      forall d | at[i] < d && !rc && conflict
        ensures !Free(at, i, d)
      {
        if i.resource.Candidate(d) {
          BelowLimit(i.resource, d);
        }
      }
    }

    /** The tuple of current choices. */
    static ghost function Choices(list: seq<ResourceIterator>): (cs: seq<int>)
      reads list`irqBit, list`channelBit, list`base
      ensures |cs| == |list| && forall k :: 0 <= k < |list| ==> cs[k] == list[k].Choice()
    {
      if list == [] then [] else [list[0].Choice()] + Choices(list[1..])
    }

    /** a comes before b when the last position in which they differ is lower in a. */
    static ghost predicate LexLess(a: seq<int>, b: seq<int>) {
      |a| == |b| && exists k :: 0 <= k < |a| && a[k] < b[k] && a[k + 1..] == b[k + 1..]
    }

    static ghost predicate NoDup(list: seq<ResourceIterator>) {
      forall j, k :: 0 <= j < k < |list| ==> list[j] != list[k]
    }

    /** The choices when the first j entries of the list have had their turn. */
    static ghost function Turned(list: seq<ResourceIterator>, j: nat, before: map<ResourceIterator, int>,
                                 after: map<ResourceIterator, int>): map<ResourceIterator, int>
      requires j <= |list| && before.Keys == after.Keys
    {
      map i | i in before :: if i in list[..j] then after[i] else before[i]
    }

    /** Entry j fell back to its least free choice; if it was in conflict, nothing above was free. */
    static ghost predicate FellBack(list: seq<ResourceIterator>, j: nat, conflict: seq<bool>,
                                    before: map<ResourceIterator, int>, after: map<ResourceIterator, int>)
      requires j < |list| && j < |conflict| && before.Keys == after.Keys && list[j] in before
    {
      && LeastFree(Turned(list, j, before, after), list[j], after[list[j]])
      && (conflict[j] ==> NoneFreeAbove(Turned(list, j, before, after), list[j]))
    }

    /** In the turn of entry m, which was in conflict as told and moved on as told, x is met. */
    static ghost predicate MetAtTurn(list: seq<ResourceIterator>, m: nat, conflict: bool, rc: bool,
                                     before: map<ResourceIterator, int>, after: map<ResourceIterator, int>,
                                     x: ResourceIterator)
      requires m < |list| && before.Keys == after.Keys && list[m] in before
    {
      MetInTurn(Turned(list, m, before, after), list[m], conflict, rc, after[list[m]], x)
    }

    /** One of the first n entries, which all fell back, met x. */
    static ghost predicate MetBefore(list: seq<ResourceIterator>, conflict: seq<bool>, n: nat,
                                     before: map<ResourceIterator, int>, after: map<ResourceIterator, int>,
                                     x: ResourceIterator)
      requires n <= |list| && n <= |conflict| && before.Keys == after.Keys && forall i :: i in list ==> i in before
    {
      exists m :: 0 <= m < n && MetAtTurn(list, m, conflict[m], false, before, after, x)
    }

    /** The first n entries were in conflict when their turn came exactly if they were marked at the start or
        an earlier turn met them. */
    static ghost predicate ConflictsFrom(list: seq<ResourceIterator>, marked: set<ResourceIterator>,
                                         conflict: seq<bool>, n: nat, before: map<ResourceIterator, int>,
                                         after: map<ResourceIterator, int>)
      requires n <= |list| && n <= |conflict| && before.Keys == after.Keys && forall i :: i in list ==> i in before
    {
      forall j :: 0 <= j < n ==>
          (conflict[j] <==> list[j] in marked || MetBefore(list, conflict, j, before, after, list[j]))
    }

    /** The choices that follow: entry k moves on to its next free choice, those in front of it fall back and
        all others stay; when there is no such entry, k is the length of the list and all fall back.  marked are
        the iterators in conflict at the start, and conflict tells of each entry whether it was in conflict when
        its turn came. */
    static ghost predicate IsSuccessor(list: seq<ResourceIterator>, marked: set<ResourceIterator>,
                                       conflict: seq<bool>, k: nat, before: map<ResourceIterator, int>,
                                       after: map<ResourceIterator, int>)
    {
      && k <= |list| && |conflict| == (if k < |list| then k + 1 else k)
      && before.Keys == after.Keys && (forall i :: i in list ==> i in before)
      && ConflictsFrom(list, marked, conflict, |conflict|, before, after)
      && (forall j :: 0 <= j < k ==> FellBack(list, j, conflict, before, after))
      && (k < |list| ==> conflict[k] && NextFree(Turned(list, k, before, after), list[k], after[list[k]]))
      && (forall i :: i in before && i !in list[..|conflict|] ==> after[i] == before[i])
    }

    /** In conflict when entry k has moved on or all have fallen back: marked at the start, or met in one of
        the turns. */
    static ghost predicate InConflictAfter(list: seq<ResourceIterator>, marked: set<ResourceIterator>,
                                           conflict: seq<bool>, k: nat, before: map<ResourceIterator, int>,
                                           after: map<ResourceIterator, int>, x: ResourceIterator)
      requires IsSuccessor(list, marked, conflict, k, before, after)
    {
      || x in marked || MetBefore(list, conflict, k, before, after, x)
      || (k < |list| && MetAtTurn(list, k, true, true, before, after, x))
    }

    static lemma TurnOver(list: seq<ResourceIterator>, k: nat, before: map<ResourceIterator, int>,
                          now: map<ResourceIterator, int>, next: map<ResourceIterator, int>)
      requires NoDup(list) && k < |list| && before.Keys == now.Keys && list[k] in before
      requires now == Turned(list, k, before, now) && next.Keys == now.Keys && next == now[list[k] := next[list[k]]]
      ensures next == Turned(list, k + 1, before, next)
      ensures forall j :: 0 <= j <= k ==> Turned(list, j, before, next) == Turned(list, j, before, now)
    {
      assert list[..k + 1] == list[..k] + [list[k]];
      forall j | 0 <= j <= k
        ensures Turned(list, j, before, next) == Turned(list, j, before, now)
      {
        assert list[k] !in list[..j];
      }
    }

    /** The first n entries have had their turn, and none could move on; marks are in conflict now. */
    static ghost predicate Underway(list: seq<ResourceIterator>, marked: set<ResourceIterator>, conflict: seq<bool>,
                                    n: nat, before: map<ResourceIterator, int>, now: map<ResourceIterator, int>,
                                    marks: set<ResourceIterator>)
    {
      && n <= |list| && |conflict| == n && before.Keys == now.Keys && (forall i :: i in list ==> i in before)
      && now == Turned(list, n, before, now) && ConflictsFrom(list, marked, conflict, n, before, now)
      && (forall j :: 0 <= j < n ==> FellBack(list, j, conflict, before, now) && now[list[j]] <= before[list[j]])
      && (forall x :: x in before ==> (x in marks <==> x in marked || MetBefore(list, conflict, n, before, now, x)))
    }

    /** What the turn of entry n leaves of the turns before it. */
    static lemma TurnKeeps(list: seq<ResourceIterator>, marked: set<ResourceIterator>, conflict: seq<bool>, n: nat,
                           before: map<ResourceIterator, int>, now: map<ResourceIterator, int>,
                           marks: set<ResourceIterator>, next: map<ResourceIterator, int>, more: seq<bool>)
      requires NoDup(list) && n < |list| && Underway(list, marked, conflict, n, before, now, marks)
      requires next.Keys == now.Keys && next == now[list[n] := next[list[n]]]
      requires |more| == n + 1 && more[..n] == conflict && more[n] == (list[n] in marks)
      ensures next == Turned(list, n + 1, before, next) && Turned(list, n, before, next) == now
      ensures before[list[n]] == now[list[n]] && ConflictsFrom(list, marked, more, n + 1, before, next)
      ensures forall j :: 0 <= j < n ==> FellBack(list, j, more, before, next) && next[list[j]] <= before[list[j]]
      ensures forall x :: x in before ==>
          (x in marks <==> x in marked || MetBefore(list, more, n, before, next, x))
    {
      hide LeastFree, NoneFreeAbove, MetBefore;
      TurnOver(list, n, before, now, next);
      assert list[n] !in list[..n];
      forall j | 0 <= j < n
        ensures more[j] == conflict[j] && now[list[j]] == next[list[j]]
        ensures FellBack(list, j, more, before, next) && next[list[j]] <= before[list[j]]
      {
        assert more[..n][j] == conflict[j] && FellBack(list, j, conflict, before, now);
      }
      hide Turned, FellBack;
      forall j, x | 0 <= j <= n
        ensures MetBefore(list, more, j, before, next, x) <==> MetBefore(list, conflict, j, before, now, x)
      {
        SameMet(list, conflict, more, j, before, now, next, x);
      }
    }

    /** Entry n falls back. */
    static lemma TurnLost(list: seq<ResourceIterator>, marked: set<ResourceIterator>, conflict: seq<bool>, n: nat,
                          before: map<ResourceIterator, int>, now: map<ResourceIterator, int>,
                          marks: set<ResourceIterator>, next: map<ResourceIterator, int>,
                          nextMarks: set<ResourceIterator>, more: seq<bool>)
      requires NoDup(list) && n < |list| && Underway(list, marked, conflict, n, before, now, marks)
      requires next.Keys == now.Keys && next == now[list[n] := next[list[n]]]
      requires LeastFree(now, list[n], next[list[n]]) && next[list[n]] <= now[list[n]]
      requires list[n] in marks ==> NoneFreeAbove(now, list[n])
      requires |more| == n + 1 && more[..n] == conflict && more[n] == (list[n] in marks)
      requires forall x :: x in before ==>
          (x in nextMarks <==> x in marks || MetInTurn(now, list[n], list[n] in marks, false, next[list[n]], x))
      ensures Underway(list, marked, more, n + 1, before, next, nextMarks)
    {
      TurnKeeps(list, marked, conflict, n, before, now, marks, next, more);
      hide LeastFree, NoneFreeAbove, MetInTurn, Turned, ConflictsFrom;
    }

    /** Entry n moves on. */
    static lemma TurnWon(list: seq<ResourceIterator>, marked: set<ResourceIterator>, conflict: seq<bool>, n: nat,
                         before: map<ResourceIterator, int>, now: map<ResourceIterator, int>,
                         marks: set<ResourceIterator>, next: map<ResourceIterator, int>,
                         nextMarks: set<ResourceIterator>, more: seq<bool>)
      requires NoDup(list) && n < |list| && Underway(list, marked, conflict, n, before, now, marks)
      requires next.Keys == now.Keys && next == now[list[n] := next[list[n]]]
      requires list[n] in marks && NextFree(now, list[n], next[list[n]])
      requires |more| == n + 1 && more[..n] == conflict && more[n] == (list[n] in marks)
      requires forall x :: x in before ==>
          (x in nextMarks <==> x in marks || MetInTurn(now, list[n], list[n] in marks, true, next[list[n]], x))
      ensures IsSuccessor(list, marked, more, n, before, next) && next[list[n]] > before[list[n]]
      ensures forall x :: x in before ==>
          (x in nextMarks <==> InConflictAfter(list, marked, more, n, before, next, x))
    {
      TurnKeeps(list, marked, conflict, n, before, now, marks, next, more);
      OthersStay(list, n, before, next);
      hide LeastFree, NoneFreeAbove, Free, MetInTurn, Turned, ConflictsFrom, FellBack, MetBefore;
    }

    static lemma OthersStay(list: seq<ResourceIterator>, n: nat, before: map<ResourceIterator, int>,
                            next: map<ResourceIterator, int>)
      requires n < |list| && before.Keys == next.Keys && next == Turned(list, n + 1, before, next)
      ensures forall i :: i in before && i !in list[..n + 1] ==> next[i] == before[i]
    {
    }

    static lemma NobodyTurned(list: seq<ResourceIterator>, marked: set<ResourceIterator>,
                              at: map<ResourceIterator, int>)
      requires forall i :: i in list ==> i in at
      ensures Underway(list, marked, [], 0, at, at, marked)
    {
    }

    static lemma AllTurned(list: seq<ResourceIterator>, marked: set<ResourceIterator>, conflict: seq<bool>,
                           before: map<ResourceIterator, int>, after: map<ResourceIterator, int>,
                           marks: set<ResourceIterator>)
      requires Underway(list, marked, conflict, |list|, before, after, marks)
      ensures IsSuccessor(list, marked, conflict, |list|, before, after)
      ensures forall j :: 0 <= j < |list| ==> after[list[j]] <= before[list[j]]
      ensures forall x :: x in before ==>
          (x in marks <==> InConflictAfter(list, marked, conflict, |list|, before, after, x))
    {
      hide LeastFree, NoneFreeAbove, Free;
    }

    /** Turns in front of entry n are the same in both accounts. */
    static lemma SameMet(list: seq<ResourceIterator>, conflict: seq<bool>, more: seq<bool>, n: nat,
                         before: map<ResourceIterator, int>, one: map<ResourceIterator, int>,
                         two: map<ResourceIterator, int>, x: ResourceIterator)
      requires n <= |list| && n <= |conflict| && n <= |more| && before.Keys == one.Keys == two.Keys
      requires forall i :: i in list ==> i in before
      requires forall m :: 0 <= m < n ==> Turned(list, m, before, one) == Turned(list, m, before, two)
      requires forall m :: 0 <= m < n ==> conflict[m] == more[m] && one[list[m]] == two[list[m]]
      ensures MetBefore(list, conflict, n, before, one, x) <==> MetBefore(list, more, n, before, two, x)
    {
      hide Turned, MetInTurn;
      forall m | 0 <= m < n
        ensures MetAtTurn(list, m, conflict[m], false, before, one, x) <==>
                MetAtTurn(list, m, more[m], false, before, two, x)
      {
      }
    }

    /** The tuple goes up. */
    static lemma MovedUp(list: seq<ResourceIterator>, marked: set<ResourceIterator>, conflict: seq<bool>, k: nat,
                         before: map<ResourceIterator, int>, after: map<ResourceIterator, int>, was: seq<int>,
                         now: seq<int>)
      requires NoDup(list) && k < |list| && IsSuccessor(list, marked, conflict, k, before, after)
      requires |was| == |now| == |list| && after[list[k]] > before[list[k]]
      requires forall j :: 0 <= j < |list| ==> was[j] == before[list[j]] && now[j] == after[list[j]]
      ensures LexLess(was, now)
    {
      hide FellBack, NextFree, Turned, ConflictsFrom;
      forall j | k < j < |list|
        ensures now[j] == was[j]
      {
        assert list[j] !in list[..k + 1];
      }
      assert was[k + 1..] == now[k + 1..];
    }

    /** The choices and the marks at the start leave only one way to go on. */
    static lemma SuccessorUnique(list: seq<ResourceIterator>, marked: set<ResourceIterator>, conflict: seq<bool>,
                                 more: seq<bool>, k: nat, l: nat, before: map<ResourceIterator, int>,
                                 one: map<ResourceIterator, int>, two: map<ResourceIterator, int>)
      requires IsSuccessor(list, marked, conflict, k, before, one) && IsSuccessor(list, marked, more, l, before, two)
      ensures k == l && conflict == more && one == two
    {
      hide FellBack, NextFree, ConflictsFrom, Turned;
      NotLater(list, marked, conflict, more, k, l, before, one, two);
      NotLater(list, marked, more, conflict, l, k, before, two, one);
      SameTurns(list, marked, conflict, more, k, l, before, one, two, k);
      if k < |list| {
        SameMove(list, marked, conflict, more, k, before, one, two);
      }
      forall i | i in before
        ensures one[i] == two[i]
      {
        if i in list[..|conflict|] {
          var j :| 0 <= j < |conflict| && list[j] == i;
        }
      }
    }

    /** An entry that moves on in one account does not fall back in the other. */
    static lemma NotLater(list: seq<ResourceIterator>, marked: set<ResourceIterator>, conflict: seq<bool>,
                          more: seq<bool>, k: nat, l: nat, before: map<ResourceIterator, int>,
                          one: map<ResourceIterator, int>, two: map<ResourceIterator, int>)
      requires IsSuccessor(list, marked, conflict, k, before, one) && IsSuccessor(list, marked, more, l, before, two)
      ensures l <= k
    {
      assert k < l ==> FellBack(list, k, more, before, two);
      if k < l {
        SameTurns(list, marked, conflict, more, k, l, before, one, two, k);
        SameConflict(list, marked, conflict, more, k, before, one, two);
      }
    }

    static lemma SameMove(list: seq<ResourceIterator>, marked: set<ResourceIterator>, conflict: seq<bool>,
                          more: seq<bool>, k: nat, before: map<ResourceIterator, int>,
                          one: map<ResourceIterator, int>, two: map<ResourceIterator, int>)
      requires IsSuccessor(list, marked, conflict, k, before, one) && IsSuccessor(list, marked, more, k, before, two)
      requires k < |list| && Alike(list, conflict, more, k, before, one, two)
      ensures one[list[k]] == two[list[k]]
    {
      hide Free, Turned, ConflictsFrom, FellBack;
    }

    /** The turns of the first n entries are the same in both accounts. */
    static ghost predicate Alike(list: seq<ResourceIterator>, conflict: seq<bool>, more: seq<bool>, n: nat,
                                 before: map<ResourceIterator, int>, one: map<ResourceIterator, int>,
                                 two: map<ResourceIterator, int>)
    {
      && n <= |list| && n <= |conflict| && n <= |more| && before.Keys == one.Keys == two.Keys
      && (forall i :: i in list ==> i in before)
      && (forall m :: 0 <= m <= n ==> Turned(list, m, before, one) == Turned(list, m, before, two))
      && (forall m :: 0 <= m < n ==> conflict[m] == more[m] && one[list[m]] == two[list[m]])
    }

    static lemma {:induction false} SameTurns(list: seq<ResourceIterator>, marked: set<ResourceIterator>,
                                              conflict: seq<bool>, more: seq<bool>, k: nat, l: nat,
                                              before: map<ResourceIterator, int>, one: map<ResourceIterator, int>,
                                              two: map<ResourceIterator, int>, j: nat)
      requires j <= k && j <= l
      requires IsSuccessor(list, marked, conflict, k, before, one) && IsSuccessor(list, marked, more, l, before, two)
      ensures Alike(list, conflict, more, j, before, one, two)
    {
      hide FellBack, NextFree, LeastFree, Turned, ConflictsFrom;
      if j == 0 {
        NoTurn(list, before, one, two);
      } else {
        SameTurns(list, marked, conflict, more, k, l, before, one, two, j - 1);
        SameConflict(list, marked, conflict, more, j - 1, before, one, two);
        LeastInTurn(list, conflict, before, one, j - 1);
        LeastInTurn(list, more, before, two, j - 1);
        OneLeast(Turned(list, j - 1, before, one), list[j - 1], one[list[j - 1]], two[list[j - 1]]);
        SameTurn(list, j - 1, before, one, two);
      }
    }

    /** Who is in conflict follows from the turns so far. */
    static lemma SameConflict(list: seq<ResourceIterator>, marked: set<ResourceIterator>, conflict: seq<bool>,
                              more: seq<bool>, n: nat, before: map<ResourceIterator, int>,
                              one: map<ResourceIterator, int>, two: map<ResourceIterator, int>)
      requires Alike(list, conflict, more, n, before, one, two) && n < |conflict| <= |list| && n < |more| <= |list|
      requires ConflictsFrom(list, marked, conflict, |conflict|, before, one)
      requires ConflictsFrom(list, marked, more, |more|, before, two)
      ensures conflict[n] == more[n]
    {
      hide MetBefore, Turned;
      SameMet(list, conflict, more, n, before, one, two, list[n]);
    }

    static lemma LeastInTurn(list: seq<ResourceIterator>, conflict: seq<bool>, before: map<ResourceIterator, int>,
                             after: map<ResourceIterator, int>, j: nat)
      requires j < |list| && j < |conflict| && before.Keys == after.Keys && list[j] in before
      requires FellBack(list, j, conflict, before, after)
      ensures LeastFree(Turned(list, j, before, after), list[j], after[list[j]])
    {
    }

    static lemma NoTurn(list: seq<ResourceIterator>, before: map<ResourceIterator, int>,
                        one: map<ResourceIterator, int>, two: map<ResourceIterator, int>)
      requires before.Keys == one.Keys == two.Keys
      ensures Turned(list, 0, before, one) == Turned(list, 0, before, two)
    {
    }

    static lemma OneLeast(at: map<ResourceIterator, int>, i: ResourceIterator, c: int, d: int)
      requires LeastFree(at, i, c) && LeastFree(at, i, d)
      ensures c == d
    {
      hide Free;
    }

    static lemma SameTurn(list: seq<ResourceIterator>, j: nat, before: map<ResourceIterator, int>,
                          one: map<ResourceIterator, int>, two: map<ResourceIterator, int>)
      requires j < |list| && list[j] in before && before.Keys == one.Keys == two.Keys
      requires Turned(list, j, before, one) == Turned(list, j, before, two) && one[list[j]] == two[list[j]]
      ensures Turned(list, j + 1, before, one) == Turned(list, j + 1, before, two)
    {
      assert list[..j + 1] == list[..j] + [list[j]];
      forall i | i in before
        ensures Turned(list, j + 1, before, one)[i] == Turned(list, j + 1, before, two)[i]
      {
        assert Turned(list, j, before, one)[i] == Turned(list, j, before, two)[i];
      }
    }

    /** The locked iterators that are in conflict. */
    ghost function Marks(): set<ResourceIterator>
      reads this`locked, locked`inConflict
    {
      set i | i in locked && i.inConflict
    }

    /** IncResourceIteratorList: the choices and the marks become those that follow, and a TRUE return moves the
        tuple up in lexicographic order, the last entry of the list counting most.  All iterators stay locked. */
    method IncResourceIteratorList(list: seq<ResourceIterator>)
      returns (rc: bool, ghost k: nat, ghost conflict: seq<bool>)
      requires Valid() && NoDup(list) && forall i :: i in list ==> i in locked
      modifies this`io, this`locked, irq, dma, list, locked`inConflict
      ensures Valid() && locked == old(locked)
      ensures IsSuccessor(list, old(Marks()), conflict, k, old(Standing()), Standing()) && (rc <==> k < |list|)
      ensures forall x :: x in locked ==>
          (x.inConflict <==> InConflictAfter(list, old(Marks()), conflict, k, old(Standing()), Standing(), x))
      ensures rc ==> LexLess(old(Choices(list)), Choices(list))
      ensures !rc ==> forall j :: 0 <= j < |list| ==> Choices(list)[j] <= old(Choices(list))[j]
    {
      hide IrqOk, DmaOk, IoOk, HeldOk, Choices, NextFree, LeastFree, NoneFreeAbove, Underway, IsSuccessor,
          InConflictAfter, MetInTurn;
      rc := false;
      k, conflict := 0, [];
      NobodyTurned(list, Marks(), Standing());
      var n := 0;
      while n < |list|
        invariant 0 <= n == k == |conflict| <= |list| && Valid() && locked == old(locked) && !rc
        invariant Underway(list, old(Marks()), conflict, n, old(Standing()), Standing(), Marks())
      {
        ghost var now, marks, was := Standing(), Marks(), conflict;
        conflict := conflict + [list[n].inConflict];
        rc := IncStep(list[n]);
        if rc {
          TurnWon(list, old(Marks()), was, n, old(Standing()), now, marks, Standing(), Marks(), conflict);
          MovedUp(list, old(Marks()), conflict, n, old(Standing()), Standing(), old(Choices(list)), Choices(list));
          return;
        }
        TurnLost(list, old(Marks()), was, n, old(Standing()), now, marks, Standing(), Marks(), conflict);
        n, k := n + 1, k + 1;
      }
      AllTurned(list, old(Marks()), conflict, old(Standing()), Standing(), Marks());
    }

    /** AllocResourceIterator; memory tells whether AllocVec finds any. */
    method AllocResourceIterator(resource: Resource, memory: bool) returns (iter: ResourceIterator?)
      requires Valid() && resource.Usable()
      modifies this`io, this`locked, irq, dma, locked`inConflict
      ensures Valid()
      ensures iter == null ==> locked == old(locked)
      ensures iter != null ==> memory && fresh(iter) && iter.resource == resource && locked == old(locked) + {iter}
      ensures iter != null ==>
          !Clash(old(locked), resource, iter.Choice()) && TakenBelow(old(locked), resource, iter.Choice())
      ensures iter == null ==> !memory || TakenBelow(locked, resource, Limit(resource))
      ensures iter != null ==> resource.Candidate(iter.Choice()) && !iter.inConflict
      ensures memory ==>
          MarkedBetween(old(locked), resource, -1, if iter == null then Limit(resource) else iter.Choice())
      ensures !memory ==> forall i :: i in locked ==> i.inConflict == old(i.inConflict)
    {
      hide IrqOk, DmaOk, IoOk, HeldOk, Clash, TakenBelow, MetBetween, ResourceIterator.Chosen, Resource.Candidate,
          Resource.Usable, Limit, Valid;
      if !memory {
        return null;
      }
      var candidate := new ResourceIterator(resource);
      var rc := ResetResourceIterator(candidate);
      iter := candidate;
      if rc {
        StandsAlone(candidate);
      } else {
        UnlockResource(candidate);
        iter := null;
      }
    }

    /** FreeResourceIteratorList: the list's locks are gone, all others remain. */
    method FreeResourceIteratorList(list: seq<ResourceIterator>) returns (rc: bool)
      requires Valid() && NoDup(list) && forall i :: i in list ==> i in locked
      modifies this`io, this`locked, irq, dma, list`hasLock
      ensures Valid() && locked == old(locked) - (set i | i in list)
      ensures rc <==> exists i :: i in list && i.inConflict
    {
      hide IrqOk, DmaOk, IoOk, HeldOk;
      rc := false;
      var k := 0;
      while k < |list|
        invariant 0 <= k <= |list| && Valid()
        invariant locked == old(locked) - (set i | i in list[..k])
        invariant rc <==> exists j :: 0 <= j < k && list[j].inConflict
        invariant forall j :: k <= j < |list| ==> list[j] in locked
      {
        assert list[..k + 1] == list[..k] + [list[k]];
        UnlockResource(list[k]);
        if list[k].inConflict {
          rc := true;
        }
        k := k + 1;
      }
      assert list[..k] == list;
    }

    /** The iterators of done, allocated one by one for the first resources next to those of held, each took the
        least choice that was still free. */
    static ghost predicate Placed(held: set<ResourceIterator>, done: seq<ResourceIterator>, resources: seq<Resource>)
      reads held`irqBit, held`channelBit, held`base, held`length
      reads done`irqBit, done`channelBit, done`base, done`length
    {
      && |done| <= |resources|
      && (forall k :: 0 <= k < |done| ==> done[k].resource == resources[k] && resources[k].Candidate(done[k].Choice()))
      && (forall k :: 0 <= k < |done| ==> !Clash(With(held, done[..k]), resources[k], done[k].Choice()))
      && (forall k :: 0 <= k < |done| ==> TakenBelow(With(held, done[..k]), resources[k], done[k].Choice()))
    }

    static ghost function With(held: set<ResourceIterator>, done: seq<ResourceIterator>): set<ResourceIterator> {
      held + (set i | i in done)
    }

    /** Taking its least choice, one of done met x. */
    static ghost predicate MetPlacing(held: set<ResourceIterator>, done: seq<ResourceIterator>,
                                      resources: seq<Resource>, x: ResourceIterator)
      requires |done| <= |resources|
      reads held`irqBit, held`channelBit, held`base, held`length
      reads done`irqBit, done`channelBit, done`base, done`length
    {
      exists k :: 0 <= k < |done| && MetBetween(With(held, done[..k]), x, resources[k], -1, done[k].Choice())
    }

    static lemma NothingPlaced(held: set<ResourceIterator>, resources: seq<Resource>)
      ensures Placed(held, [], resources) && With(held, []) == held
      ensures forall x :: !MetPlacing(held, [], resources, x)
    {
    }

    static lemma PlacedOneMore(held: set<ResourceIterator>, done: seq<ResourceIterator>, resources: seq<Resource>,
                               one: ResourceIterator)
      requires Placed(held, done, resources) && |done| < |resources| && one !in With(held, done)
      requires one.resource == resources[|done|] && one.resource.Candidate(one.Choice())
      requires !Clash(With(held, done), one.resource, one.Choice())
      requires TakenBelow(With(held, done), one.resource, one.Choice())
      ensures Placed(held, done + [one], resources) && With(held, done + [one]) == With(held, done) + {one}
      ensures forall x :: MetPlacing(held, done + [one], resources, x) <==>
          MetPlacing(held, done, resources, x) || MetBetween(With(held, done), x, one.resource, -1, one.Choice())
      ensures !MetPlacing(held, done + [one], resources, one)
    {
      hide Clash, TakenBelow, Resource.Candidate, Meets, MetBetween, With, MetPlacing;
      var more := done + [one];
      assert more[..|done|] == done && forall k :: 0 <= k < |done| ==> more[..k] == done[..k] && more[k] == done[k];
      WithOneMore(held, done, one);
      MetPlacingMore(held, done, resources, one);
      NewIsNotMet(held, done, resources, one);
    }

    static lemma WithOneMore(held: set<ResourceIterator>, done: seq<ResourceIterator>, one: ResourceIterator)
      ensures With(held, done + [one]) == With(held, done) + {one}
    {
    }

    static lemma MetPlacingMore(held: set<ResourceIterator>, done: seq<ResourceIterator>, resources: seq<Resource>,
                                one: ResourceIterator)
      requires |done| < |resources| && one.resource == resources[|done|]
      ensures forall x :: MetPlacing(held, done + [one], resources, x) <==>
          MetPlacing(held, done, resources, x) || MetBetween(With(held, done), x, one.resource, -1, one.Choice())
    {
      hide MetBetween, With;
      var more := done + [one];
      assert more[..|done|] == done && forall k :: 0 <= k < |done| ==> more[..k] == done[..k] && more[k] == done[k];
    }

    /** Those that are met were there before. */
    static lemma NewIsNotMet(held: set<ResourceIterator>, done: seq<ResourceIterator>, resources: seq<Resource>,
                             one: ResourceIterator)
      requires |done| < |resources| && one !in With(held, done)
      ensures !MetPlacing(held, done + [one], resources, one)
    {
      hide MetBetween;
      var more := done + [one];
      forall k | 0 <= k < |more|
        ensures !MetBetween(With(held, more[..k]), one, resources[k], -1, more[k].Choice())
      {
        assert more[..k] == done[..k];
        if MetBetween(With(held, more[..k]), one, resources[k], -1, more[k].Choice()) {
          MetIsHeld(With(held, done[..k]), one, resources[k], -1, more[k].Choice());
        }
      }
    }

    static lemma MetIsHeld(held: set<ResourceIterator>, x: ResourceIterator, r: Resource, lo: int, hi: int)
      requires MetBetween(held, x, r, lo, hi)
      ensures x in held
    {
    }

    /** AllocResourceIteratorList: a locked iterator for every resource, or the context of before.  Each takes the
        least choice left; done is how far it came.  In conflict are afterwards those that were before, and those
        that a choice tried on the way met.  listMemory and memory tell which calls of AllocVec find any. */
    method AllocResourceIteratorList(resources: seq<Resource>, listMemory: bool, memory: seq<bool>)
      returns (ok: bool, list: seq<ResourceIterator>, ghost done: seq<ResourceIterator>)
      requires Valid() && |memory| == |resources| && forall r :: r in resources ==> r.Usable()
      modifies this`io, this`locked, irq, dma, locked`inConflict
      ensures Valid()
      ensures Placed(old(locked), done, resources) && NoDup(done) && forall i :: i in done ==> fresh(i)
      ensures list == if ok then done else []
      ensures ok <==> listMemory && |done| == |resources|
      ensures forall k :: 0 <= k < |done| ==> memory[k]
      ensures listMemory && !ok ==>
          !memory[|done|] ||
          TakenBelow(With(old(locked), done), resources[|done|], Limit(resources[|done|]))
      ensures ok ==> locked == With(old(locked), list)
      ensures !ok ==> locked == old(locked) && SameContext()
      ensures forall x :: x in locked ==>
          (x.inConflict <==> (x in old(locked) && old(x.inConflict)) || MetPlacing(old(locked), done, resources, x) ||
                             (listMemory && !ok && memory[|done|] &&
                              MetBetween(With(old(locked), done), x, resources[|done|], -1,
                                         Limit(resources[|done|]))))
    {
      hide IrqOk, DmaOk, IoOk, HeldOk, Clash, TakenBelow, MetBetween, ResourceIterator.Chosen, Resource.Candidate,
          Resource.Usable, Limit, Valid, Placed, MetPlacing, ResourceIterator.Choice;
      list, done := [], [];
      NothingPlaced(locked, resources);
      if !listMemory {
        return false, [], [];
      }
      var k := 0;
      while k < |resources|
        invariant 0 <= k <= |resources| && (forall j :: 0 <= j < k ==> memory[j]) && Valid() && |list| == k &&
            NoDup(list) && list == done
        invariant Placed(old(locked), list, resources)
        invariant (forall i :: i in list ==> fresh(i)) && locked == With(old(locked), list)
        invariant forall x :: x in locked ==>
            (x.inConflict <==> (x in old(locked) && old(x.inConflict)) || MetPlacing(old(locked), list, resources, x))
      {
        var iter := AllocResourceIterator(resources[k], memory[k]);
        if iter == null {
          var rc := FreeResourceIteratorList(list);
          assert With(old(locked), list) - (set i | i in list) == old(locked);
          SameLocksSameContext();
          return false, [], done;
        }
        var one: ResourceIterator := iter;
        assert forall j :: 0 <= j < k ==> list[j] in list;
        PlacedOneMore(old(locked), list, resources, one);
        list := list + [one];
        done := list;
        k := k + 1;
      }
      ok := true;
    }

    // ---------- the context is a function of what is locked ----------

    /** The same locks at the same choices make up the same context: slots and IO list are restored
        exactly, whatever was locked and unlocked in between. */
    twostate lemma SameLocksSameContext()
      requires old(Valid()) && Valid() && locked == old(locked)
      requires forall i :: i in locked ==> i.Choice() == old(i.Choice())
      ensures SameContext()
    {
      SameSlots();
      forall i | i in locked && i.resource.Io?
        ensures i.base == old(i.base) && i.length == old(i.length)
      {
        assert i.Choice() == old(i.Choice()) && i.Chosen() && old(i.Chosen());
      }
      hide IrqOk, DmaOk, ResourceIterator.Chosen;
      assert forall k :: 0 <= k < |old(io)| ==> old(io)[k] in old(io);
      assert Sorted(old(io));
      SortedUnique(io, old(io));
      assert irq.Length == IRQS && dma.Length == CHANNELS;
    }

    /** Slots and IO list are what they were. */
    twostate predicate SameContext()
      reads this`io, irq, dma
    {
      io == old(io) && irq[..] == old(irq[..]) && dma[..] == old(dma[..])
    }

    /** A list of iterators comes and goes: allocated, taken through any number of combinations, and freed.
        Whether the allocation fails or not, slots and IO list are the same again. */
    method ComeAndGo(resources: seq<Resource>, listMemory: bool, memory: seq<bool>, rounds: nat)
      requires Valid() && |memory| == |resources| && forall r :: r in resources ==> r.Usable()
      modifies this`io, this`locked, irq, dma, locked`inConflict
      ensures Valid() && locked == old(locked) && SameContext()
    {
      hide Valid, SameContext, Placed, MetPlacing, MetBetween, TakenBelow, IsSuccessor, InConflictAfter, Choices,
          LexLess;
      var ok, list, done := AllocResourceIteratorList(resources, listMemory, memory);
      if ok {
        var more, n := true, 0;
        while more && n < rounds
          invariant Valid() && locked == With(old(locked), list)
          invariant forall k :: 0 <= k < |list| ==> fresh(list[k])
          invariant forall i :: i in locked ==> i in old(locked) || fresh(i)
        {
          ghost var k, conflict;
          more, k, conflict := IncResourceIteratorList(list);
          n := n + 1;
        }
        var conflicts := FreeResourceIteratorList(list);
        assert With(old(locked), list) - (set i | i in list) == old(locked);
        SameLocksSameContext();
      }
    }

    static ghost predicate Within(a: seq<ResourceIterator>, b: seq<ResourceIterator>) {
      forall i :: i in a ==> i in b
    }

    /** A sorted list is determined by its members. */
    lemma {:induction false} SortedUnique(a: seq<ResourceIterator>, b: seq<ResourceIterator>)
      requires Sorted(a) && Sorted(b) && Within(a, b) && Within(b, a)
      ensures a == b
      decreases |a|
    {
      hide Sorted, Within;
      NoMembers(a, b);
      NoMembers(b, a);
      if a != [] && b != [] {
        SameFirst(a, b);
        TailMembers(a, b);
        TailMembers(b, a);
        SortedUnique(a[1..], b[1..]);
        assert a == [a[0]] + a[1..] && b == [b[0]] + b[1..];
      }
    }

    lemma NoMembers(a: seq<ResourceIterator>, b: seq<ResourceIterator>)
      requires Within(a, b)
      ensures b == [] ==> a == []
    {
      assert a != [] ==> a[0] in a;
    }

    lemma SameFirst(a: seq<ResourceIterator>, b: seq<ResourceIterator>)
      requires Sorted(a) && Sorted(b) && Within(a, b) && Within(b, a) && a != [] && b != []
      ensures a[0] == b[0]
    {
      assert a[0] in b && b[0] in a;
      var j :| 0 <= j < |b| && b[j] == a[0];
      var i :| 0 <= i < |a| && a[i] == b[0];
    }

    lemma TailMembers(a: seq<ResourceIterator>, b: seq<ResourceIterator>)
      requires Sorted(a) && Sorted(b) && Within(a, b) && a != [] && b != [] && a[0] == b[0]
      ensures Within(a[1..], b[1..])
      ensures Sorted(a[1..])
    {
      forall k | 0 <= k < |a[1..]|
        ensures a[1..][k] in b[1..]
      {
        assert a[k + 1] in b && a[k + 1] != a[0];
        var j :| 0 <= j < |b| && b[j] == a[k + 1];
        assert b[1..][j - 1] == a[k + 1];
      }
    }

    twostate lemma SameSlots()
      requires old(Valid()) && Valid() && locked == old(locked)
      requires forall i :: i in locked ==> i.Choice() == old(i.Choice())
      ensures forall b :: 0 <= b < IRQS ==> irq[b] == old(irq[b])
      ensures forall b :: 0 <= b < CHANNELS ==> dma[b] == old(dma[b])
    {
      hide ResourceIterator.Chosen;
      forall b | 0 <= b < IRQS
        ensures irq[b] == old(irq[b])
      {
        if irq[b] != null {
          assert irq[b].Choice() == old(irq[b].Choice());
        }
      }
    }
  }

  // ---------- the iteration ends ----------

  /** More than any choice. */
  const CHOICES: int := 0x1_0000

  ghost predicate Bounded(cs: seq<int>) {
    forall k :: 0 <= k < |cs| ==> 0 <= cs[k] < CHOICES
  }

  /** The number that a tuple of choices spells, its last entry the leading digit. */
  ghost function Rank(cs: seq<int>): int {
    if cs == [] then 0 else cs[0] + CHOICES * Rank(cs[1..])
  }

  ghost function Power(n: nat): int {
    if n == 0 then 1 else CHOICES * Power(n - 1)
  }

  lemma {:induction false} RankBounds(cs: seq<int>)
    requires Bounded(cs)
    ensures 0 <= Rank(cs) < Power(|cs|)
  {
    if cs != [] {
      RankBounds(cs[1..]);
    }
  }

  lemma {:induction false} RankGrows(a: seq<int>, b: seq<int>)
    requires Bounded(a) && Bounded(b) && ResourceContext.LexLess(a, b)
    ensures Rank(a) < Rank(b)
  {
    var k :| 0 <= k < |a| && a[k] < b[k] && a[k + 1..] == b[k + 1..];
    if k == 0 {
      assert a[1..] == b[1..];
    } else {
      assert a[1..][k - 1] < b[1..][k - 1] && a[1..][k..] == b[1..][k..];
      RankGrows(a[1..], b[1..]);
    }
  }

  /** Asking for the next combination over and over ends. */
  method WalkThrough(ctx: ResourceContext, list: seq<ResourceIterator>) returns (ghost rounds: nat)
    requires ctx.Valid() && ResourceContext.NoDup(list) && forall i :: i in list ==> i in ctx.locked
    modifies ctx, ctx.irq, ctx.dma, list, ctx.locked`inConflict
    ensures ctx.Valid() && ctx.locked == old(ctx.locked)
    ensures rounds < Power(|list|)
  {
    rounds := 0;
    ChoicesBounded(ctx, list);
    RankBounds(ResourceContext.Choices(list));
    var more := true;
    while more
      invariant ctx.Valid() && ctx.locked == old(ctx.locked)
      invariant more ==> rounds <= Rank(ResourceContext.Choices(list))
      invariant rounds < Power(|list|) && Bounded(ResourceContext.Choices(list))
      decreases more, Power(|list|) - Rank(ResourceContext.Choices(list))
    {
      ghost var was := ResourceContext.Choices(list);
      ghost var k, conflict;
      more, k, conflict := ctx.IncResourceIteratorList(list);
      ChoicesBounded(ctx, list);
      RankBounds(ResourceContext.Choices(list));
      if more {
        RankGrows(was, ResourceContext.Choices(list));
        rounds := rounds + 1;
      }
    }
  }

  lemma ChoicesBounded(ctx: ResourceContext, list: seq<ResourceIterator>)
    requires ctx.Valid() && forall i :: i in list ==> i in ctx.locked
    ensures Bounded(ResourceContext.Choices(list))
  {
    forall k | 0 <= k < |list|
      ensures 0 <= list[k].Choice() < CHOICES
    {
      assert list[k] in list;
      ctx.HeldIs(list[k]);
      ctx.BelowLimit(list[k].resource, list[k].Choice());
    }
  }
}
