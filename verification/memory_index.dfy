/** The size index of a memory header: where a search for a free chunk may start. */
module MemoryIndex {
  import opened FreeList

  const FIRSTPOT: int := 32
  const ALLOCATORCTXINDEXSIZE: nat := 10

  const LONG_LIMIT: int := 0x8000_0000

  /** An IPTR passed as LONG. */
  function ToLong(size: IPtr): int {
    if size < LONG_LIMIT then size else size - IPTR_MODULUS
  }

  function Pow2(n: nat): nat {
    if n == 0 then 1 else 2 * Pow2(n - 1)
  }

  lemma {:induction false} Pow2Monotone(m: nat, n: nat)
    requires m <= n
    ensures 1 <= Pow2(m) <= Pow2(n)
    decreases n
  {
    if m < n {
      Pow2Monotone(m, n - 1);
    } else if n > 0 {
      Pow2Monotone(n - 1, n - 1);
    }
  }

  /** n rounds of `size >>= 1` on a LONG; the shift is arithmetic. */
  function Halved(size: int, n: nat): int {
    if n == 0 then size else Halved(size, n - 1) / 2
  }

  /** The loop of mhac_CalcIndex ends if and only if the size, seen as a LONG, is not negative. */
  lemma {:induction false} CalcIndexEnds(size: IPtr)
    ensures (exists n :: n > 0 && Halved(ToLong(size) / FIRSTPOT, n) == 0) <==> size < LONG_LIMIT
  {
    var start := ToLong(size) / FIRSTPOT;
    if size < LONG_LIMIT {
      HalvedBound(start, 32);
    } else {
      forall n: nat | n > 0
        ensures Halved(start, n) < 0
      {
        HalvedNegative(start, n);
      }
    }
  }

  lemma {:induction false} HalvedNegative(size: int, n: nat)
    requires size < 0
    ensures Halved(size, n) < 0
  {
    if n > 0 {
      HalvedNegative(size, n - 1);
    }
  }

  lemma {:induction false} HalvedBound(size: int, n: nat)
    requires 0 <= size
    ensures 0 <= Halved(size, n) && (Halved(size, n) == 0 || Halved(size, n) * Pow2(n) <= size)
    ensures n == 32 && size < IPTR_MODULUS ==> Halved(size, n) == 0
  {
    if n > 0 {
      HalvedBound(size, n - 1);
      var h, p: int := Halved(size, n - 1), Pow2(n - 1);
      assert Halved(size, n) == h / 2;
      if h > 0 {
        Pow2Monotone(0, n - 1);
        HalfTimes(h, p);
      }
      if n == 32 {
        assert Pow2(32) == IPTR_MODULUS by { PowersOfTwo(); }
        var r := Halved(size, 32);
        assert r >= 1 ==> r * IPTR_MODULUS >= IPTR_MODULUS;
      }
    }
  }

  lemma HalfTimes(h: int, p: int)
    requires h > 0 && p >= 1
    ensures (h / 2) * (2 * p) <= h * p
  {
    var q := h / 2;
    assert 2 * q <= h;
    assert q * (2 * p) == (2 * q) * p;
    assert (h - 2 * q) * p >= 0;
  }

  lemma PowersOfTwo()
    ensures Pow2(8) == 256 && Pow2(16) == 0x1_0000 && Pow2(32) == IPTR_MODULUS
  {
    assert Pow2(4) == 16;
    assert Pow2(8) == 256;
    assert Pow2(12) == 4096;
    assert Pow2(16) == 0x1_0000;
    assert Pow2(20) == 0x10_0000;
    assert Pow2(24) == 0x100_0000;
    assert Pow2(28) == 0x1000_0000;
  }

  /** The size class of a request of size bytes: the largest r with FIRSTPOT * 2^r <= size, and 0
      for sizes below the first class. */
  ghost predicate IsClass(size: int, r: nat) {
    (r > 0 ==> FIRSTPOT * Pow2(r) <= size) && size < FIRSTPOT * Pow2(r + 1)
  }

  /** size divided by FIRSTPOT * 2^(r + 1) is rest, and rem is the remainder. */
  ghost predicate InClasses(size: int, r: nat, rest: int, rem: int) {
    0 <= rem < FIRSTPOT * Pow2(r + 1) && size == Product(rest, FIRSTPOT * Pow2(r + 1)) + rem
  }

  function Product(a: int, b: int): int {
    a * b
  }

  /** One more shift: the next size class. */
  lemma NextClass(size: int, rest: int, r: nat, rem: int) returns (next: int)
    requires rest > 0 && InClasses(size, r, rest, rem)
    ensures FIRSTPOT * Pow2(r + 1) <= size
    ensures InClasses(size, r + 1, rest / 2, next)
  {
    var p, h: int := Pow2(r + 1), rest / 2;
    next := if rest % 2 == 0 then rem else FIRSTPOT * p + rem;
    assert Pow2(r + 2) == 2 * p;
    hide Product, Pow2;
    HalfProduct(h, FIRSTPOT * p);
    AtLeastOnce(rest, FIRSTPOT * p);
  }

  lemma HalfProduct(h: int, p: int)
    ensures Product(2 * h, p) == Product(h, 2 * p) && Product(2 * h + 1, p) == Product(h, 2 * p) + p
  {
  }

  lemma AtLeastOnce(a: int, p: int)
    requires a > 0 && p >= 0
    ensures Product(a, p) >= p
  {
    assert (a - 1) * p >= 0;
  }

  lemma FirstClass(size: nat)
    ensures InClasses(size, 0, size / FIRSTPOT / 2, size % (2 * FIRSTPOT))
  {
    assert Pow2(1) == 2;
    assert size / FIRSTPOT / 2 == size / (2 * FIRSTPOT);
  }

  lemma LastClass(size: int, r: nat, rem: int)
    requires InClasses(size, r, 0, rem) && (r > 0 ==> FIRSTPOT * Pow2(r) <= size)
    ensures IsClass(size, r)
  {
  }

  /** mhac_CalcIndex */
  method CalcIndex(size: IPtr, indexSize: IPtr) returns (r: nat)
    requires size < LONG_LIMIT
    ensures exists c: nat :: IsClass(size, c) && r == if c > Wrap(indexSize - 1) then Wrap(indexSize - 1) else c
  {
    var rest: int := ToLong(size) / FIRSTPOT / 2;
    r := 0;
    ghost var rem: int := size % (2 * FIRSTPOT);
    FirstClass(size);
    hide InClasses, IsClass, Pow2;
    while rest != 0
      invariant 0 <= rest && InClasses(size, r, rest, rem)
      invariant r > 0 ==> FIRSTPOT * Pow2(r) <= size
      decreases rest
    {
      rem := NextClass(size, rest, r, rem);
      r := r + 1;
      rest := rest / 2;
    }
    LastClass(size, r, rem);
    if r > Wrap(indexSize - 1) {
      r := Wrap(indexSize - 1);
    }
  }

  lemma SmallSpan(span: int, n: nat)
    requires IsClass(span, n)
    ensures n == 0 ==> span < 2 * FIRSTPOT
  {
    assert Pow2(1) == 2;
  }

  function Least(a: int, b: int): int {
    if a < b then a else b
  }

  /** struct MemHeaderAllocatorCtx. Entry i leads to a chunk of at least FIRSTPOT * 2^i bytes. */
  class AllocatorCtx {
    var indexSize: nat
    const prevChunks: array<int>

    ghost predicate Valid()
      reads this, prevChunks
    {
      && prevChunks.Length == ALLOCATORCTXINDEXSIZE && indexSize <= ALLOCATORCTXINDEXSIZE
      && forall i :: indexSize <= i < ALLOCATORCTXINDEXSIZE ==> prevChunks[i] == 0
    }

    /** mhac_SetupMemHeaderAllocatorCtx for a header of span bytes. */
    constructor (span: IPtr, maxIndexSize: IPtr)
      requires maxIndexSize < LONG_LIMIT
      ensures Valid() && fresh(prevChunks)
      ensures forall i :: 0 <= i < ALLOCATORCTXINDEXSIZE ==> prevChunks[i] == 0
      ensures indexSize == 0 ==> span < 2 * FIRSTPOT || maxIndexSize == 0
      ensures exists n: nat ::
                IsClass(span, n) && indexSize == Least(n, Least(maxIndexSize, ALLOCATORCTXINDEXSIZE))
    {
      var size: int, n: nat := span / FIRSTPOT / 2, 0;
      ghost var rem := span % (2 * FIRSTPOT);
      FirstClass(span);
      hide InClasses, IsClass, Pow2;
      while size > 0
        invariant 0 <= size && InClasses(span, n, size, rem)
        invariant n > 0 ==> FIRSTPOT * Pow2(n) <= span
        decreases size
      {
        rem := NextClass(span, size, n, rem);
        n := n + 1;
        size := size / 2;
      }
      LastClass(span, n, rem);
      SmallSpan(span, n);
      if n > maxIndexSize {
        n := maxIndexSize;
      }
      if n > ALLOCATORCTXINDEXSIZE {
        n := ALLOCATORCTXINDEXSIZE;
      }
      indexSize := n;
      prevChunks := new int[ALLOCATORCTXINDEXSIZE](i => 0);
    }
  }

  /** mhac_IsIndexEmpty */
  method IsIndexEmpty(c: AllocatorCtx?) returns (empty: bool)
    requires c != null ==> c.Valid()
    ensures empty <==> c == null || forall i :: 0 <= i < ALLOCATORCTXINDEXSIZE ==> c.prevChunks[i] == 0
  {
    if c == null {
      return true;
    }
    var i := 0;
    while i < c.indexSize
      invariant 0 <= i <= c.indexSize
      invariant forall j :: 0 <= j < i ==> c.prevChunks[j] == 0
    {
      if c.prevChunks[i] != 0 {
        return false;
      }
      i := i + 1;
    }
    return true;
  }

  /** mhac_ClearIndex */
  method ClearIndex(c: AllocatorCtx?)
    requires c != null ==> c.Valid()
    modifies if c == null then {} else {c.prevChunks}
    ensures c != null ==> c.Valid() && forall i :: 0 <= i < ALLOCATORCTXINDEXSIZE ==> c.prevChunks[i] == 0
  {
    if c == null {
      return;
    }
    var i := 0;
    while i < ALLOCATORCTXINDEXSIZE
      invariant 0 <= i <= ALLOCATORCTXINDEXSIZE
      invariant forall j :: 0 <= j < i ==> c.prevChunks[j] == 0
      invariant c.Valid()
    {
      c.prevChunks[i] := 0;
      i := i + 1;
    }
  }
}
