/** The boot block checksum: a sum of longwords with end-around carry. */
module BootBlock {
  import opened Arithmetic

  const MODULUS: int := 0x1_0000_0000

  /** 2^32 - 1, and the value with all bits set. */
  const ALL_ONES: int := 0xFFFF_FFFF

  const UWORD_MODULUS: int := 0x1_0000

  type ULong = i: int | 0 <= i < MODULUS
  type Byte = i: int | 0 <= i < 256

  /** AROS_LONG2BE of the longword at byte offset i. */
  function LongAt(block: seq<Byte>, i: nat): (v: ULong)
    requires i + 4 <= |block|
  {
    ((block[i] as int * 256 + block[i + 1] as int) * 256 + block[i + 2] as int) * 256 + block[i + 3] as int
  }

  /** The longwords that are summed up: all but the stored checksum, which counts as zero. */
  function Words(block: seq<Byte>, n: nat): (w: seq<ULong>)
    requires 4 * n <= |block|
    ensures |w| == n && forall k :: 0 <= k < n ==> w[k] == if k == 1 then 0 else LongAt(block, 4 * k)
  {
    if n == 0 then [] else Words(block, n - 1) + [if n - 1 == 1 then 0 else LongAt(block, 4 * (n - 1))]
  }

  function Sum(w: seq<ULong>): nat {
    if w == [] then 0 else Sum(w[..|w| - 1]) + w[|w| - 1]
  }

  predicate AllZero(w: seq<ULong>) {
    forall i :: 0 <= i < |w| ==> w[i] == 0
  }

  /** A sum folded into 32 bits: congruent modulo 2^32 - 1, and zero only for the sum zero. */
  function Folded(sum: nat): ULong {
    if sum == 0 then 0 else (sum - 1) % ALL_ONES + 1
  }

  /** One addition with end-around carry. */
  lemma CarryIn(sum: nat, v: ULong)
    ensures Folded(sum + v) == if Folded(sum) + v >= MODULUS then Folded(sum) + v - ALL_ONES else Folded(sum) + v
  {
    if sum > 0 {
      AddMod(sum - 1, v, ALL_ONES);
    } else if v > 0 {
      AddMod(0, v - 1, ALL_ONES);
    }
  }

  lemma AddMod(a: nat, v: nat, m: nat)
    requires 0 < m && v <= m
    ensures var r := a % m + v; (a + v) % m == if r >= 2 * m then r - 2 * m else if r >= m then r - m else r
  {
    var q, r := a / m, a % m;
    assert a == q * m + r;
    var k := if r + v >= 2 * m then 2 else if r + v >= m then 1 else 0;
    assert a + v == (q + k) * m + (r + v - k * m);
    RemainderIs(a + v, q + k, r + v - k * m, m);
  }

  /** BootBlockCheckSum.  The index is a UWORD, so the loop ends only for blocks of up to 65532 bytes. */
  method CheckSum(block: array<Byte>) returns (ok: bool)
    requires block.Length % 4 == 0 && block.Length <= UWORD_MODULUS - 4
    ensures ok <==> Accepted(block[..])
  {
    hide LongAt, Words, Sum, Folded;
    var crc: ULong, crc2: ULong := 0, 0;
    var i := 0;
    ghost var b := block[..];
    NoWords(b);
    while i < block.Length
      invariant 0 <= i <= block.Length && i % 4 == 0
      invariant crc == Folded(Sum(Words(b, i / 4)))
      invariant crc2 == if i > 4 then LongAt(b, 4) else 0
    {
      var v: ULong := LongAt(block[..], i);
      if i == 4 {
        crc2 := v;
        v := 0;
      }
      WordsMore(b, i / 4);
      CarryIn(Sum(Words(b, i / 4)), v);
      if (crc + v) % MODULUS < crc {
        crc := (crc + 1) % MODULUS;
      }
      crc := (crc + v) % MODULUS;
      i := (i + 4) % UWORD_MODULUS;
    }
    crc := ALL_ONES - crc;
    ok := crc == crc2;
  }

  /** The checksum a block carries: its second longword. */
  function Stored(block: seq<Byte>): ULong {
    if |block| >= 8 then LongAt(block, 4) else 0
  }

  /** A block is accepted when the complement of the folded sum is the checksum it carries. */
  predicate Accepted(block: seq<Byte>) {
    Stored(block) == ALL_ONES - Folded(Sum(Words(block, |block| / 4)))
  }

  lemma NoWords(block: seq<Byte>)
    ensures Folded(Sum(Words(block, 0))) == 0
  {
  }

  lemma WordsMore(block: seq<Byte>, n: nat)
    requires 4 * (n + 1) <= |block|
    ensures Sum(Words(block, n + 1)) == Sum(Words(block, n)) + if n == 1 then 0 else LongAt(block, 4 * n)
  {
    var w := Words(block, n + 1);
    assert w[..n] == Words(block, n);
  }

  /** The UWORD index of the loop after n rounds. */
  function Index(n: nat): int {
    4 * n % UWORD_MODULUS
  }

  /** The loop ends if and only if the block has at most 65532 bytes. */
  lemma LoopEnds(size: ULong)
    ensures (exists n: nat :: Index(n) >= size) <==> size <= UWORD_MODULUS - 4
  {
    if size <= UWORD_MODULUS - 4 {
      assert Index(16383) == UWORD_MODULUS - 4;
    } else {
      forall n: nat
        ensures Index(n) <= UWORD_MODULUS - 4
      {
        assert 4 * n % UWORD_MODULUS == 4 * (n % 16384);
      }
    }
  }

  // ---------- what the checksum tells ----------

  lemma {:induction false} SumConcat(a: seq<ULong>, b: seq<ULong>)
    ensures Sum(a + b) == Sum(a) + Sum(b)
    decreases b
  {
    if b == [] {
      assert a + b == a;
    } else {
      SumConcat(a, b[..|b| - 1]);
      assert (a + b)[..|a + b| - 1] == a + b[..|b| - 1];
    }
  }

  /** The order of the longwords does not matter. */
  lemma {:induction false} OrderIrrelevant(a: seq<ULong>, b: seq<ULong>)
    requires multiset(a) == multiset(b)
    ensures Folded(Sum(a)) == Folded(Sum(b))
    decreases |a|
  {
    SamePermutedSum(a, b);
  }

  lemma {:induction false} SamePermutedSum(a: seq<ULong>, b: seq<ULong>)
    requires multiset(a) == multiset(b)
    ensures Sum(a) == Sum(b)
    decreases |a|
  {
    if a == [] {
      assert |multiset(b)| == |b| == 0;
    } else {
      var x, front := a[|a| - 1], a[..|a| - 1];
      assert a == front + [x];
      assert x in multiset(b);
      var k :| 0 <= k < |b| && b[k] == x;
      var rest := b[..k] + b[k + 1..];
      hide Sum;
      TakenOut(a, |a| - 1, front);
      TakenOut(b, k, rest);
      SamePermutedSum(front, rest);
    }
  }

  lemma TakenOut(a: seq<ULong>, k: nat, rest: seq<ULong>)
    requires k < |a| && rest == a[..k] + a[k + 1..]
    ensures multiset(rest) == multiset(a) - multiset{a[k]} && Sum(a) == Sum(rest) + a[k]
  {
    assert a == a[..k] + [a[k]] + a[k + 1..];
    SumAround(a[..k], a[k], a[k + 1..]);
  }

  /** Congruent modulo 2^32 - 1, and zero only when every longword is. */
  lemma {:induction false} FoldedMeans(w: seq<ULong>)
    ensures Folded(Sum(w)) % ALL_ONES == Sum(w) % ALL_ONES
    ensures Folded(Sum(w)) == 0 <==> AllZero(w)
  {
    SumZero(w);
    var s := Sum(w);
    if s > 0 {
      var q, r := (s - 1) / ALL_ONES, (s - 1) % ALL_ONES;
      assert s == q * ALL_ONES + r + 1;
    }
  }

  lemma {:induction false} SumZero(w: seq<ULong>)
    ensures Sum(w) == 0 <==> AllZero(w)
  {
    if w != [] {
      SumZero(w[..|w| - 1]);
      assert w == w[..|w| - 1] + [w[|w| - 1]];
    }
  }

  /** Changing one longword from x to y goes unnoticed exactly when 0 is exchanged with 0xFFFFFFFF
      and some other longword is not zero. */
  lemma OneChange(a: seq<ULong>, x: ULong, y: ULong, b: seq<ULong>)
    ensures Folded(Sum(a + [x] + b)) == Folded(Sum(a + [y] + b))
       <==> x == y || ({x, y} == {0, ALL_ONES} && Sum(a + b) > 0)
  {
    hide Sum, Folded;
    SumAround(a, x, b);
    SumAround(a, y, b);
    FoldedSame(Sum(a + b), x, y);
  }

  lemma SumAround(a: seq<ULong>, x: ULong, b: seq<ULong>)
    ensures Sum(a + [x] + b) == Sum(a + b) + x
  {
    SumConcat(a + [x], b);
    SumConcat(a, [x]);
    SumConcat(a, b);
  }

  lemma FoldedSame(s: nat, x: ULong, y: ULong)
    ensures Folded(s + x) == Folded(s + y) <==> x == y || ({x, y} == {0, ALL_ONES} && s > 0)
  {
    CarryIn(s, x);
    CarryIn(s, y);
    assert s > 0 <==> Folded(s) > 0;
    hide Folded;
    assert {x, y} == {0, ALL_ONES} <==> (x == 0 && y == ALL_ONES) || (x == ALL_ONES && y == 0) by {
      assert x in {x, y} && y in {x, y};
      assert 0 in {0, ALL_ONES} && ALL_ONES in {0, ALL_ONES};
    }
  }

  /** Longword k is data, and the only one in which two blocks differ. */
  predicate DifferOnlyIn(a: seq<Byte>, b: seq<Byte>, k: nat) {
    && |a| == |b| && |a| % 4 == 0 && k != 1 && k < |a| / 4
    && forall j :: 0 <= j < |a| / 4 && j != k ==> LongAt(a, 4 * j) == LongAt(b, 4 * j)
  }

  predicate DataWord(a: seq<Byte>, j: nat) {
    j != 1 && j < |a| / 4 && LongAt(a, 4 * j) != 0
  }

  /** Changing one data longword of an accepted block is noticed, except that 0 may be exchanged with
      0xFFFFFFFF while some other data longword is not zero. */
  lemma OneWordChanged(a: seq<Byte>, b: seq<Byte>, k: nat)
    requires DifferOnlyIn(a, b, k)
    requires Accepted(a)
    ensures Accepted(b) <==>
              || LongAt(a, 4 * k) == LongAt(b, 4 * k)
              || ({LongAt(a, 4 * k), LongAt(b, 4 * k)} == {0, ALL_ONES}
                  && exists j: nat :: j != k && DataWord(a, j))
  {
    hide LongAt, Sum, Folded;
    var n := |a| / 4;
    var u, w := Words(a, n), Words(b, n);
    var front, back := u[..k], u[k + 1..];
    assert u == front + [u[k]] + back;
    assert w == front + [w[k]] + back;
    OneChange(front, u[k], w[k], back);
    SumZero(front + back);
    OtherWords(a, k);
    assert |a| >= 8 ==> LongAt(a, 4 * 1) == LongAt(b, 4 * 1);
    assert Stored(a) == Stored(b);
  }

  lemma OtherWords(a: seq<Byte>, k: nat)
    requires k < |a| / 4
    ensures AllZero(Words(a, |a| / 4)[..k] + Words(a, |a| / 4)[k + 1..]) <==> !exists j: nat :: j != k && DataWord(a, j)
  {
    OthersZero(Words(a, |a| / 4), k);
    hide LongAt, AllZero;
    forall j: nat
      ensures DataWord(a, j) <==> j < |a| / 4 && Words(a, |a| / 4)[j] != 0
    {
    }
  }

  lemma OthersZero(u: seq<ULong>, k: nat)
    requires k < |u|
    ensures AllZero(u[..k] + u[k + 1..]) <==> forall j :: 0 <= j < |u| && j != k ==> u[j] == 0
  {
    var r := u[..k] + u[k + 1..];
    assert forall j :: 0 <= j < |u| && j != k ==> u[j] == r[if j < k then j else j - 1];
  }
  // ---------- acceptance in bytes ----------

  /** The weight of the byte at offset i: the first byte of a longword is the highest. */
  function Weight(i: nat): nat {
    match i % 4
    case 0 => 0x100_0000
    case 1 => 0x1_0000
    case 2 => 0x100
    case 3 => 1
  }

  function Weighed(block: seq<Byte>): nat {
    if block == [] then 0 else
      Weighed(block[..|block| - 1]) + block[|block| - 1] as int * Weight(|block| - 1)
  }

  predicate NoBytes(block: seq<Byte>) {
    forall i :: 0 <= i < |block| ==> block[i] == 0
  }

  /** The four bytes of the checksum have all bits set. */
  predicate StoredFull(block: seq<Byte>) {
    |block| >= 8 && forall i :: 4 <= i < 8 ==> block[i] == 0xFF
  }

  lemma OneMoreByte(block: seq<Byte>, n: nat)
    requires n < |block|
    ensures Weighed(block[..n + 1]) == Weighed(block[..n]) + block[n] as int * Weight(n)
  {
    var a := block[..n + 1];
    assert a[..n] == block[..n];
  }

  lemma Weights(n: nat)
    ensures Weight(4 * n) == 0x100_0000 && Weight(4 * n + 1) == 0x1_0000
    ensures Weight(4 * n + 2) == 0x100 && Weight(4 * n + 3) == 1
  {
  }

  lemma FourMore(block: seq<Byte>, n: nat)
    requires |block| == 4 * n + 4
    ensures Weighed(block) == Weighed(block[..4 * n]) + LongAt(block, 4 * n)
  {
    hide Weighed, Weight;
    Weights(n);
    OneMoreByte(block, 4 * n);
    OneMoreByte(block, 4 * n + 1);
    OneMoreByte(block, 4 * n + 2);
    OneMoreByte(block, 4 * n + 3);
    assert block[..4 * n + 4] == block;
  }

  lemma SameWords(block: seq<Byte>, n: nat, m: nat)
    requires n <= m && 4 * m <= |block|
    ensures Words(block[..4 * m], n) == Words(block, n)
  {
  }

  /** The weighed bytes are the longwords, the stored checksum included. */
  lemma {:induction false} WeighedIsSum(block: seq<Byte>, n: nat)
    requires |block| == 4 * n
    ensures Weighed(block) == Sum(Words(block, n)) + Stored(block)
    decreases n
  {
    hide LongAt, Weighed, Sum, Words, Stored;
    if n == 0 {
      NoneAtAll(block);
    } else {
      var front := block[..4 * (n - 1)];
      FourMore(block, n - 1);
      WeighedIsSum(front, n - 1);
      WordsMore(block, n - 1);
      SameWords(block, n - 1, n - 1);
      SameStored(block, n - 1);
    }
  }

  lemma NoneAtAll(block: seq<Byte>)
    requires block == []
    ensures Weighed(block) == Sum(Words(block, 0)) + Stored(block) == 0
  {
  }

  lemma SameStored(block: seq<Byte>, n: nat)
    requires |block| == 4 * n + 4
    ensures Stored(block) == Stored(block[..4 * n]) + if n == 1 then LongAt(block, 4) else 0
  {
  }

  lemma {:induction false} NoneWeighed(block: seq<Byte>)
    ensures Weighed(block) == 0 <==> NoBytes(block)
  {
    if block != [] {
      NoneWeighed(block[..|block| - 1]);
      assert block == block[..|block| - 1] + [block[|block| - 1]];
    }
  }

  lemma FullMeans(block: seq<Byte>)
    ensures StoredFull(block) <==> Stored(block) == ALL_ONES
  {
  }

  lemma FoldedFull(s: nat, stored: ULong)
    ensures stored == ALL_ONES - Folded(s) <==>
              (s + stored) % ALL_ONES == 0 && s + stored > 0 && (stored == ALL_ONES ==> s == 0)
  {
    if s > 0 {
      var q, r := (s - 1) / ALL_ONES, (s - 1) % ALL_ONES;
      assert s + stored == q * ALL_ONES + (r + 1 + stored);
      AddMultiple(q, r + 1 + stored);
    }
  }

  lemma AddMultiple(q: nat, v: nat)
    requires v <= 2 * ALL_ONES
    ensures (q * ALL_ONES + v) % ALL_ONES == 0 <==> v == 0 || v == ALL_ONES || v == 2 * ALL_ONES
  {
    var k := if v < ALL_ONES then 0 else if v < 2 * ALL_ONES then 1 else 2;
    assert q * ALL_ONES + v == (q + k) * ALL_ONES + (v - k * ALL_ONES);
    RemainderIs(q * ALL_ONES + v, q + k, v - k * ALL_ONES, ALL_ONES);
  }

  /** A block is accepted if and only if its bytes, each weighed by its place in its longword, add up to a
      multiple of 2^32 - 1, not all of them are zero, and the checksum has all bits set only when all others
      are zero. */
  lemma AcceptedInBytes(block: seq<Byte>)
    requires |block| % 4 == 0
    ensures Accepted(block) <==>
              && Weighed(block) % ALL_ONES == 0 && !NoBytes(block)
              && (StoredFull(block) ==> Weighed(block) == ALL_ONES)
  {
    hide Sum, Words, Folded, Weighed, StoredFull, NoBytes, Stored;
    WeighedIsSum(block, |block| / 4);
    NoneWeighed(block);
    FullMeans(block);
    FoldedFull(Sum(Words(block, |block| / 4)), Stored(block));
  }
}
