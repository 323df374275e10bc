/** Several pools and plain allocations on one system, in any order. */
module PoolRuns {
  import opened FreeList
  import opened MemoryIndex
  import opened ChunkLinks
  import opened Memory
  import opened Tiling
  import opened MemoryList
  import opened Puddles
  import opened Pools
  import opened PoolLifetime

  // ---------- who holds which block of the system ----------

  ghost function AllOf(ws: seq<set<Block>>): set<Block> {
    set i, b | 0 <= i < |ws| && b in ws[i] :: b
  }

  /** The live blocks are those from before, plain ones and those of the parts, all of them different. */
  ghost predicate Split(live: set<Block>, start: set<Block>, plain: set<Block>, ws: seq<set<Block>>) {
    && live == start + plain + AllOf(ws) && start !! plain
    && (forall i :: 0 <= i < |ws| ==> ws[i] !! start && ws[i] !! plain)
    && (forall i, j :: 0 <= i < j < |ws| ==> ws[i] !! ws[j])
  }

  lemma PartIn(live: set<Block>, start: set<Block>, plain: set<Block>, ws: seq<set<Block>>, i: nat)
    requires Split(live, start, plain, ws) && i < |ws|
    ensures ws[i] <= live
  {
  }

  lemma PartChanged(live: set<Block>, start: set<Block>, plain: set<Block>, ws: seq<set<Block>>, i: nat, w: set<Block>)
    requires Split(live, start, plain, ws) && i < |ws| && w !! live - ws[i]
    ensures Split(live - ws[i] + w, start, plain, ws[i := w])
  {
    var now := ws[i := w];
    forall b
      ensures b in AllOf(now) <==> b in w || (b in AllOf(ws) && b !in ws[i])
    {
      if b in AllOf(ws) && b !in ws[i] {
        var j :| 0 <= j < |ws| && b in ws[j];
        assert now[j] == ws[j];
      }
      if b in AllOf(now) && b !in w {
        var j :| 0 <= j < |now| && b in now[j];
        assert j != i && b in ws[j];
      }
      assert b in w ==> b in now[i];
    }
    forall j | 0 <= j < |ws|
      ensures j != i ==> ws[j] <= live - ws[i]
    {
    }
  }

  lemma PartAdded(live: set<Block>, start: set<Block>, plain: set<Block>, ws: seq<set<Block>>, w: set<Block>)
    requires Split(live, start, plain, ws) && w !! live
    ensures Split(live + w, start, plain, ws + [w])
  {
    var now := ws + [w];
    forall b
      ensures b in AllOf(now) <==> b in w || b in AllOf(ws)
    {
      if b in AllOf(ws) {
        var j :| 0 <= j < |ws| && b in ws[j];
        assert now[j] == ws[j];
      }
      assert b in w ==> b in now[|ws|];
    }
    forall j | 0 <= j < |ws|
      ensures ws[j] <= live
    {
    }
  }

  lemma PartGone(live: set<Block>, start: set<Block>, plain: set<Block>, ws: seq<set<Block>>, i: nat)
    requires Split(live, start, plain, ws) && i < |ws|
    ensures Split(live - ws[i], start, plain, ws[..i] + ws[i + 1..])
  {
    OthersLeft(ws, i);
    ApartLeft(ws, i);
    hide AllOf;
    var now := ws[..i] + ws[i + 1..];
    assert forall j :: 0 <= j < |now| ==> now[j] == ws[if j < i then j else j + 1];
    assert live - ws[i] == start + plain + AllOf(now);
  }

  lemma OthersLeft(ws: seq<set<Block>>, i: nat)
    requires i < |ws| && forall j, k :: 0 <= j < k < |ws| ==> ws[j] !! ws[k]
    ensures AllOf(ws[..i] + ws[i + 1..]) == AllOf(ws) - ws[i]
  {
    var now := ws[..i] + ws[i + 1..];
    forall b
      ensures b in AllOf(now) <==> b in AllOf(ws) && b !in ws[i]
    {
      if b in AllOf(ws) && b !in ws[i] {
        var j :| 0 <= j < |ws| && b in ws[j];
        assert now[if j < i then j else j - 1] == ws[j];
      }
      if b in AllOf(now) {
        var j :| 0 <= j < |now| && b in now[j];
        assert now[j] == ws[if j < i then j else j + 1];
      }
    }
  }

  lemma ApartLeft(ws: seq<set<Block>>, i: nat)
    requires i < |ws| && forall j, k :: 0 <= j < k < |ws| ==> ws[j] !! ws[k]
    ensures var now := ws[..i] + ws[i + 1..]; forall j, k :: 0 <= j < k < |now| ==> now[j] !! now[k]
  {
  }

  lemma PlainAdded(live: set<Block>, start: set<Block>, plain: set<Block>, ws: seq<set<Block>>, b: Block)
    requires Split(live, start, plain, ws) && b !in live
    ensures Split(live + {b}, start, plain + {b}, ws) && b !in plain
  {
    forall j | 0 <= j < |ws|
      ensures ws[j] <= live
    {
    }
  }

  lemma PlainGone(live: set<Block>, start: set<Block>, plain: set<Block>, ws: seq<set<Block>>, b: Block)
    requires Split(live, start, plain, ws) && b in plain
    ensures b in live && Split(live - {b}, start, plain - {b}, ws)
  {
  }

  // ---------- the clients of one system ----------

  /** An allocation without a pool: where it was served or reserved, and the size asked for. */
  datatype Plain = Plain(memory: int, size: IPtr) {
    function Taken(): Block {
      Rounded(memory, size)
    }

    predicate Good() {
      size > 0 && memory + size < IPTR_MODULUS
    }
  }

  datatype Request =
    | Create(requirements: set<int>, reverse: bool, semaphore: bool, size: IPtr)
    | Delete(i: nat)
    | Ask(i: nat, request: PoolRequest)
    | Alloc(size: IPtr, requirements: set<int>, reverse: bool)
    | Reserve(location: int, size: IPtr)
    | Free(k: nat)

  /** A request whose sizes the size computations can take. */
  predicate Sized(request: Request, sys: MemList, page: int) {
    match request
    case Create(_, _, _, size) => size + Overhead() + POINTER_BYTES + PoolPage(page) - 1 < Bound(sys)
    case Ask(_, ask) => ask.GiveBack? || Bytes(ask) + Overhead() + page - 1 < Bound(sys)
    case Alloc(size, _, _) => size < Bound(sys)
    case Reserve(location, size) => location + size < IPTR_MODULUS
    case _ => true
  }

  lemma AlignedPointer(r: int, size: IPtr, hi: int)
    requires 0 < size < LONG_LIMIT && 0 < r && Aligned(r) && r + RoundUp(size) <= hi < IPTR_MODULUS && Aligned(hi)
    requires size <= RoundUp(size)
    ensures r + size < IPTR_MODULUS && Rounded(r, size) == Block(r, RoundUp(size))
  {
    hide RoundUp;
    assert r % MEMCHUNK_TOTAL == 0;
    assert Wrap(size) == size;
    assert RoundDown(r) == r;
  }

  ghost function PlainBlocks(plain: seq<Plain>): set<Block> {
    set p | p in plain :: p.Taken()
  }

  ghost predicate PlainOk(plain: seq<Plain>) {
    && (forall k :: 0 <= k < |plain| ==> plain[k].Good())
    && (forall k, l :: 0 <= k < l < |plain| ==> plain[k].Taken() != plain[l].Taken())
  }

  lemma PlainMore(plain: seq<Plain>, p: Plain)
    requires PlainOk(plain) && p.Good() && p.Taken() !in PlainBlocks(plain)
    ensures PlainOk(plain + [p]) && PlainBlocks(plain + [p]) == PlainBlocks(plain) + {p.Taken()}
  {
    hide Plain.Good, Plain.Taken;
    var now := plain + [p];
    forall k | 0 <= k < |plain|
      ensures plain[k].Taken() in PlainBlocks(plain)
    {
    }
    forall b
      ensures b in PlainBlocks(now) <==> b in PlainBlocks(plain) || b == p.Taken()
    {
      assert now[|plain|] == p;
    }
  }

  lemma PlainLess(plain: seq<Plain>, k: nat)
    requires PlainOk(plain) && k < |plain|
    ensures PlainOk(plain[..k] + plain[k + 1..])
    ensures PlainBlocks(plain[..k] + plain[k + 1..]) == PlainBlocks(plain) - {plain[k].Taken()}
  {
    hide Plain.Good, Plain.Taken;
    var now := plain[..k] + plain[k + 1..];
    forall b
      ensures b in PlainBlocks(now) <==> b in PlainBlocks(plain) && b != plain[k].Taken()
    {
      if b in PlainBlocks(plain) && b != plain[k].Taken() {
        var p :| p in plain && p.Taken() == b;
        var l :| 0 <= l < |plain| && plain[l] == p;
        assert now[if l < k then l else l - 1] == p;
      }
    }
  }

  /** A pool and what its clients hold. */
  datatype Member = Member(pool: Pool, handles: seq<Handle>)

  /** The member is in order, whatever the rest of the system does; objects are what it consists of
      and part is what it holds of the system. */
  ghost predicate MemberOk(m: Member, objects: set<object>, part: set<Block>, sys: MemList, page: int)
    reads m.pool, Objects(m.pool.puddles)
  {
    && m.pool.sys == sys && m.pool.page == page && part == Pool.WholesOf(m.pool.puddles)
    && objects == {m.pool} + Objects(m.pool.puddles)
    && m.pool.InOrderAlone() && HoldsAll(m.pool, m.handles)
  }

  twostate lemma MemberKept(new m: Member, new objects: set<object>, new part: set<Block>, new sys: MemList,
      new page: int)
    requires old(allocated(m)) && old(allocated(objects)) && old(allocated(sys))
    requires old(MemberOk(m, objects, part, sys, page)) && forall o :: o in objects ==> unchanged(o)
    ensures MemberOk(m, objects, part, sys, page)
  {
    hide Pool.InOrderAlone, HoldsAll, Objects;
  }

  ghost function AllIn(sets: seq<set<object>>): set<object> {
    set i, o | 0 <= i < |sets| && o in sets[i] :: o
  }

  /** No two of the sets have an object in common, nor one with the others. */
  ghost predicate Separate(sets: seq<set<object>>, others: set<object>) {
    && (forall i :: 0 <= i < |sets| ==> sets[i] !! others)
    && (forall i, j :: 0 <= i < j < |sets| ==> sets[i] !! sets[j])
  }

  lemma SeparateChanged(sets: seq<set<object>>, others: set<object>, i: nat, now: set<object>)
    requires Separate(sets, others) && i < |sets| && now !! others
    requires forall j :: 0 <= j < |sets| && j != i ==> now !! sets[j]
    ensures Separate(sets[i := now], others) && AllIn(sets[i := now]) - AllIn(sets) <= now - sets[i]
  {
    forall o | o in AllIn(sets[i := now]) && o !in now
      ensures o in AllIn(sets)
    {
      var j :| 0 <= j < |sets| && o in sets[i := now][j];
      assert o in sets[j];
    }
  }

  lemma SeparateGone(sets: seq<set<object>>, others: set<object>, i: nat)
    requires Separate(sets, others) && i < |sets|
    ensures Separate(sets[..i] + sets[i + 1..], others) && AllIn(sets[..i] + sets[i + 1..]) <= AllIn(sets)
    ensures AllIn(sets[..i] + sets[i + 1..]) !! sets[i] + others
  {
    var now := sets[..i] + sets[i + 1..];
    forall o | o in AllIn(now)
      ensures o in AllIn(sets)
    {
      var j :| 0 <= j < |now| && o in now[j];
      assert o in sets[if j < i then j else j + 1];
    }
  }

  lemma InAll(sets: seq<set<object>>, j: nat)
    requires j < |sets|
    ensures sets[j] <= AllIn(sets)
  {
  }

  lemma SeparateMore(sets: seq<set<object>>, others: set<object>, more: set<object>)
    requires Separate(sets, others) && more !! AllIn(sets) && more !! others
    ensures Separate(sets + [more], others) && AllIn(sets + [more]) - AllIn(sets) <= more
  {
    forall o | o in AllIn(sets + [more]) && o !in more
      ensures o in AllIn(sets)
    {
      var j :| 0 <= j < |sets + [more]| && o in (sets + [more])[j];
      assert o in sets[j];
    }
    forall j | 0 <= j < |sets|
      ensures sets[j] <= AllIn(sets)
    {
      InAll(sets, j);
    }
  }

  lemma Outside(pool: Pool)
    requires pool.InOrderAlone()
    ensures pool !in Objects(pool.puddles) && pool !in pool.sys.Repr && Objects(pool.puddles) !! pool.sys.Repr
  {
    hide Pool.Owned, Pool.PuddlesOk;
    pool.ObjectsApart();
  }

  lemma NewMember(pool: Pool, objects: set<object>, sys: MemList, page: int)
    requires pool.Valid() && pool.live == {} && pool.sys == sys && pool.page == page
    requires objects == {pool} + Objects(pool.puddles)
    ensures MemberOk(Member(pool, []), objects, Pool.WholesOf(pool.puddles), sys, page)
    ensures sys.Valid() && sys.live == pool.base + Pool.WholesOf(pool.puddles) &&
        Pool.WholesOf(pool.puddles) !! pool.base
  {
    hide Pool.Valid, Pool.InOrderAlone, MemList.Valid, Objects;
    pool.Alone();
    assert BlocksFor(pool, []) == {};
  }

  /** A request to a pool that does not know what else lives in the system. */
  method ServeAmongOthers(pool: Pool, request: PoolRequest, handles: seq<Handle>) returns (now: seq<Handle>)
    requires pool.InOrderAlone() && pool.sys.Valid() && Pool.WholesOf(pool.puddles) <= pool.sys.live
    requires HoldsAll(pool, handles) && Sized(Ask(0, request), pool.sys, pool.page)
    modifies pool, pool.sys.Repr, Objects(pool.puddles)
    ensures pool.InOrderAlone() && pool.sys.Valid() && HoldsAll(pool, now)
    ensures Pool.WholesOf(pool.puddles) !! old(pool.sys.live) - old(Pool.WholesOf(pool.puddles))
    ensures pool.sys.live
            == old(pool.sys.live) - old(Pool.WholesOf(pool.puddles)) + Pool.WholesOf(pool.puddles)
    ensures Answered(request, old(Servable(pool, request)), handles, now)
    ensures forall o :: o in Objects(pool.puddles) ==> o in old(Objects(pool.puddles)) || fresh(o)
    ensures pool !in Objects(pool.puddles) && {pool} + Objects(pool.puddles) !! pool.sys.Repr
  {
    hide Pool.InOrderAlone, MemList.Valid, HoldsAll, Pool.Valid, Objects, Answered, Pool.WholesOf, Pool.SystemCanServe;
    Outside(pool);
    pool.Rebase();
    assert Servable(pool, request) == old(Servable(pool, request));
    pool.NotInside();
    TakesWhen(pool, request);
    now := Serve(pool, request, handles);
    pool.Alone();
    pool.NotInside();
  }

  class Clients {
    const sys: MemList
    const page: int
    /** What was live before. */
    ghost const start: set<Block>
    var members: seq<Member>
    var plain: seq<Plain>
    ghost var objects: seq<set<object>>
    ghost var parts: seq<set<Block>>

    ghost function AllObjects(): set<object>
      reads this`objects
    {
      AllIn(objects)
    }

    /** No two members have an object in common, nor one with the system. */
    ghost predicate Apart()
      reads this`objects
    {
      this !in sys.Repr && Separate(objects, {this} + sys.Repr)
    }

    ghost function ThePools(): set<object>
      reads this`members
    {
      set m: Member | m in members :: m.pool
    }

    ghost function Insides(): set<object>
      reads this`members, ThePools()
    {
      set m: Member, o | m in members && o in Objects(m.pool.puddles) :: o
    }

    ghost predicate AllOk()
      reads this`members, this`objects, this`parts, ThePools(), Insides()
    {
      && |members| == |objects| == |parts|
      && forall i :: 0 <= i < |members| ==> MemberOk(members[i], objects[i], parts[i], sys, page)
    }

    ghost predicate Valid()
      reads this, sys, sys.Repr, ThePools(), Insides()
    {
      && sys.Valid() && PageOk(page) && AllOk() && Apart() && PlainOk(plain)
      && Split(sys.live, start, PlainBlocks(plain), parts)
    }

    constructor (sys: MemList, page: int)
      requires sys.Valid() && PageOk(page)
      ensures Valid() && this.sys == sys && this.page == page && start == sys.live
      ensures members == [] && objects == [] && plain == []
    {
      this.sys, this.page, start, members, plain, objects, parts := sys, page, sys.live, [], [], [], [];
      new;
      assert PlainBlocks(plain) == {} && AllOf(parts) == {};
    }

    /** What member i needs to know before a request. */
    lemma Turn(i: nat)
      requires Valid() && i < |members|
      ensures var pool := members[i].pool;
        && pool.sys == sys && pool.page == page && pool.InOrderAlone() && HoldsAll(pool, members[i].handles)
        && parts[i] == Pool.WholesOf(pool.puddles) <= sys.live && objects[i] == {pool} + Objects(pool.puddles)
      ensures sys.Valid() && objects[i] <= AllObjects() && objects[i] !! {this} + sys.Repr
    {
      hide Pool.InOrderAlone, MemList.Valid, HoldsAll;
      assert MemberOk(members[i], objects[i], parts[i], sys, page);
      PartIn(sys.live, start, PlainBlocks(plain), parts, i);
    }

    lemma PoolIn(i: nat)
      requires Valid() && i < |members|
      ensures members[i].pool in AllObjects()
    {
      Turn(i);
    }

    /** Every member but i is untouched. */
    twostate lemma OthersKept(new i: int)
      requires old(AllOk()) && |members| == old(|members|) && |objects| == |parts| == |members|
      requires forall j :: 0 <= j < |members| && j != i ==>
          members[j] == old(members[j]) && objects[j] == old(objects[j]) && parts[j] == old(parts[j])
      requires forall j, o :: 0 <= j < |members| && j != i && o in objects[j] ==> unchanged(o)
      ensures forall j :: 0 <= j < |members| && j != i ==> MemberOk(members[j], objects[j], parts[j], sys, page)
    {
      hide MemberOk, MemList.Valid, Split, PlainOk, Apart;
      forall j | 0 <= j < |members| && j != i
        ensures MemberOk(members[j], objects[j], parts[j], sys, page)
      {
        assert old(MemberOk(members[j], objects[j], parts[j], sys, page));
        MemberKept(members[j], objects[j], parts[j], sys, page);
      }
    }

    /** Member i is off the lists and the others are untouched. */
    twostate lemma RestKept(new i: int)
      requires old(Valid()) && 0 <= i < old(|members|)
      requires members == old(members[..i] + members[i + 1..]) && objects == old(objects[..i] + objects[i + 1..])
      requires parts == old(parts[..i] + parts[i + 1..])
      requires forall j, o :: 0 <= j < |members| && o in objects[j] ==> unchanged(o)
      ensures AllOk()
    {
      hide MemberOk, MemList.Valid, Split, PlainOk, Apart;
      forall j | 0 <= j < |members|
        ensures MemberOk(members[j], objects[j], parts[j], sys, page)
      {
        ghost var l := if j < i then j else j + 1;
        assert old(MemberOk(members[l], objects[l], parts[l], sys, page));
        MemberKept(members[j], objects[j], parts[j], sys, page);
      }
    }

    /** A client of member i makes a request. */
    method Ask(i: nat, request: PoolRequest)
      requires Valid() && i < |members| && Sized(Request.Ask(i, request), sys, page)
      modifies this`members, this`objects, this`parts, sys.Repr, objects[i]
      ensures Valid() && fresh(AllObjects() - old(AllObjects()))
      ensures |members| == old(|members|) &&
          members == old(members)[i := Member(old(members[i].pool), members[i].handles)]
      ensures Answered(request, old(Servable(members[i].pool, request)), old(members[i].handles), members[i].handles)
    {
      hide Pool.InOrderAlone, MemList.Valid, HoldsAll, Pool.Valid, Split, PlainOk, Objects, Servable, Answered,
          AllIn;
      Turn(i);
      var pool := members[i].pool;
      var now := ServeAmongOthers(pool, request, members[i].handles);
      PartChanged(old(sys.live), start, PlainBlocks(plain), parts, i, Pool.WholesOf(pool.puddles));
      ghost var mine := {pool} + Objects(pool.puddles);
      StillSeparate(i, mine);
      members := members[i := Member(pool, now)];
      objects := objects[i := mine];
      parts := parts[i := Pool.WholesOf(pool.puddles)];
      OthersKept(i);
    }

    /** The objects of member i grew by new ones. */
    twostate lemma StillSeparate(new i: int, new mine: set<object>)
      requires 0 <= i < |objects| && objects == old(objects) && Apart() && mine !! sys.Repr + {this}
      requires forall o :: o in mine ==> o in objects[i] || fresh(o)
      ensures Separate(objects[i := mine], {this} + sys.Repr)
      ensures fresh(AllIn(objects[i := mine]) - AllIn(objects))
    {
      SeparateChanged(objects, {this} + sys.Repr, i, mine);
    }

    /** CreatePool by a new client. */
    method Create(requirements: set<int>, reverse: bool, semaphore: bool, size: IPtr)
      requires Valid() && Sized(Request.Create(requirements, reverse, semaphore, size), sys, page)
      modifies this`members, this`objects, this`parts, sys.Repr
      ensures Valid() && fresh(AllObjects() - old(AllObjects()))
      ensures if old(CanCreate(sys, requirements, size, page))
              then |members| == old(|members|) + 1 && members[..old(|members|)] == old(members)
                   && members[old(|members|)].handles == []
              else members == old(members) && sys.live == old(sys.live)
    {
      hide Pool.InOrderAlone, MemList.Valid, HoldsAll, Pool.Valid, Split, PlainOk, Objects, PageOk, PoolPage, CanCreate,
          Overhead;
      CreateOkWhen(sys, requirements, size, page);
      var pool, header := CreatePool(sys, requirements, reverse, semaphore, size, page);
      if pool != null {
        pool.NotInside();
        NewMember(pool, {pool} + Objects(pool.puddles), sys, page);
        OthersKept(-1);
        PartAdded(old(sys.live), start, PlainBlocks(plain), parts, Pool.WholesOf(pool.puddles));
        SeparateMore(objects, {this} + sys.Repr, {pool} + Objects(pool.puddles));
        members := members + [Member(pool, [])];
        objects := objects + [{pool} + Objects(pool.puddles)];
        parts := parts + [Pool.WholesOf(pool.puddles)];
      } else {
        OthersKept(-1);
      }
    }

    /** DeletePool of member i, whatever its clients still hold. */
    method Delete(i: nat)
      requires Valid() && i < |members|
      modifies this`members, this`objects, this`parts, sys.Repr, members[i].pool
      ensures Valid() && AllObjects() <= old(AllObjects())
      ensures members == old(members[..i] + members[i + 1..]) && sys.live == old(sys.live) - old(parts[i])
    {
      hide Pool.InOrderAlone, MemList.Valid, HoldsAll, Pool.Valid, Split, PlainOk, Objects, MemberOk, Separate, AllIn;
      Turn(i);
      members[i].pool.Rebase();
      var gone := members[i].pool.DeletePool();
      PartGone(old(sys.live), start, PlainBlocks(plain), parts, i);
      SeparateGone(objects, {this} + sys.Repr, i);
      members := members[..i] + members[i + 1..];
      objects := objects[..i] + objects[i + 1..];
      parts := parts[..i] + parts[i + 1..];
      assert old(members[i].pool) in old(objects[i]);
      forall j, o | 0 <= j < |members| && o in objects[j]
        ensures unchanged(o)
      {
        InAll(objects, j);
        assert o in old(objects[if j < i then j else j + 1]);
      }
      RestKept(i);
    }

    /** A plain AllocMem. */
    method Alloc(size: IPtr, requirements: set<int>, reverse: bool)
      requires Valid() && Sized(Request.Alloc(size, requirements, reverse), sys, page)
      modifies this`plain, sys.Repr
      ensures Valid()
      ensures if size > 0 && old(sys.Available(size, requirements))
              then |plain| == old(|plain|) + 1 && plain[..old(|plain|)] == old(plain) &&
                  plain[old(|plain|)].size == size
              else plain == old(plain) && sys.live == old(sys.live)
    {
      hide Pool.InOrderAlone, MemList.Valid, HoldsAll, Pool.Valid, PlainOk, Objects, MemberOk, Plain.Good, Split,
          Sized, MemList.Answers, MemList.Available, MemList.Answered, MemList.Same, MemList.Eligible, MemList.Holds,
          RoundUp;
      HasAnswer(size, requirements, reverse);
      var r;
      ghost var h;
      r, h := sys.AllocMem(size, requirements, reverse);
      if r != NULL && size > 0 {
        GoodPointer(r, size, h);
        PlainAdded(old(sys.live), start, PlainBlocks(plain), parts, Block(r, RoundUp(size)));
        PlainMore(plain, Plain(r, size));
        plain := plain + [Plain(r, size)];
      }
      OthersKept(-1);
    }

    lemma HasAnswer(size: IPtr, requirements: set<int>, reverse: bool)
      requires sys.Valid() && Sized(Request.Alloc(size, requirements, reverse), sys, page)
      ensures sys.Answers(size, requirements)
      ensures sys.Available(size, requirements) ==> size < LONG_LIMIT
    {
      hide MemList.Valid;
      if sys.Small() {
        sys.SmallAnswers(size, requirements);
      }
    }

    lemma GoodPointer(r: int, size: IPtr, i: nat)
      requires sys.Valid() && 0 < size < LONG_LIMIT
      requires i < |sys.headers| && sys.Holds(i, Block(r, RoundUp(size)))
      ensures Plain(r, size).Good() && Plain(r, size).Taken() == Block(r, RoundUp(size))
    {
      hide MemHeader.Indexed, RoundUp;
      RoundUpCovers(size);
      assert sys.HeaderOk(i);
      AlignedPointer(r, size, sys.headers[i].upper);
    }

    /** AllocAbs. */
    method Reserve(location: int, size: IPtr)
      requires Valid() && Sized(Request.Reserve(location, size), sys, page)
      modifies this`plain, sys.Repr
      ensures Valid()
      ensures if size > 0 && exists i :: 0 <= i < |sys.headers| && old(sys.FreeAt(i, location, size))
              then plain == old(plain) + [Plain(location, size)]
              else plain == old(plain) && sys.live == old(sys.live)
    {
      hide Pool.InOrderAlone, MemList.Valid, HoldsAll, Pool.Valid, PlainOk, Objects, MemberOk, MemList.FreeAt, Rounded;
      if size > 0 {
        var r := sys.AllocAbs(location, size);
        if r != NULL {
          PlainAdded(old(sys.live), start, PlainBlocks(plain), parts, Rounded(location, size));
          PlainMore(plain, Plain(location, size));
          plain := plain + [Plain(location, size)];
        }
      }
      OthersKept(-1);
    }

    /** FreeMem of a plain block, with the location and the size that were asked for. */
    method Free(k: nat)
      requires Valid() && k < |plain|
      modifies this`plain, sys.Repr
      ensures Valid() && plain == old(plain[..k] + plain[k + 1..]) &&
          sys.live == old(sys.live) - {old(plain[k].Taken())}
    {
      hide Pool.InOrderAlone, MemList.Valid, HoldsAll, Pool.Valid, Objects, MemberOk, Rounded;
      var p := plain[k];
      PlainGone(sys.live, start, PlainBlocks(plain), parts, p.Taken());
      PlainLess(plain, k);
      var outcome := sys.FreeMem(p.memory, p.size);
      plain := plain[..k] + plain[k + 1..];
      OthersKept(-1);
    }

    /** Any request; one with an index that nobody has does nothing. */
    method Step(request: Request)
      requires Valid() && Sized(request, sys, page)
      modifies this`members, this`objects, this`parts, this`plain, sys.Repr, AllObjects()
      ensures Valid() && fresh(AllObjects() - old(AllObjects()))
    {
      hide Valid, Sized;
      match request
      case Create(requirements, reverse, semaphore, size) =>
        Create(requirements, reverse, semaphore, size);
      case Delete(i) =>
        if i < |members| {
          Turn(i);
          Delete(i);
        }
      case Ask(i, ask) =>
        if i < |members| {
          Turn(i);
          Ask(i, ask);
        }
      case Alloc(size, requirements, reverse) =>
        Alloc(size, requirements, reverse);
      case Reserve(location, size) =>
        Reserve(location, size);
      case Free(k) =>
        if k < |plain| {
          Free(k);
        }
    }

    /** All pools are deleted and all plain blocks freed. */
    method Close()
      requires Valid()
      modifies this`members, this`objects, this`parts, this`plain, sys.Repr, AllObjects()
      ensures sys.Valid() && sys.live == start
    {
      hide MemList.Valid, AllOk, Apart, AllObjects;
      DeleteAll();
      while |plain| > 0
        invariant Valid() && |members| == 0
      {
        Free(|plain| - 1);
      }
      NothingMore();
    }

    method DeleteAll()
      requires Valid()
      modifies this`members, this`objects, this`parts, sys.Repr, AllObjects()
      ensures Valid() && |members| == 0
    {
      hide Valid, AllObjects;
      while |members| > 0
        invariant Valid() && AllObjects() <= old(AllObjects())
      {
        PoolIn(|members| - 1);
        Delete(|members| - 1);
      }
    }

    lemma NothingMore()
      requires Valid() && |members| == 0 && |plain| == 0
      ensures sys.Valid() && sys.live == start
    {
      hide MemList.Valid;
      assert PlainBlocks(plain) == {} && AllOf(parts) == {};
    }
  }

  /** Any number of pools, created, used and deleted in any order, with plain allocations in between: once
      the pools are deleted and the plain blocks freed, every free list is exactly what it was. */
  method Run(sys: MemList, page: int, script: seq<Request>)
    requires sys.Valid() && PageOk(page) && forall k :: 0 <= k < |script| ==> Sized(script[k], sys, page)
    modifies sys.Repr
    ensures sys.Valid() && sys.live == old(sys.live)
    ensures forall i :: 0 <= i < |sys.headers| ==>
        sys.headers[i].blocks == old(sys.headers[i].blocks) && sys.headers[i].free == old(sys.headers[i].free)
  {
    hide MemList.Valid, Clients.Valid, Sized, PageOk;
    var clients := new Clients(sys, page);
    var k := 0;
    while k < |script|
      invariant 0 <= k <= |script| && clients.Valid() && fresh(clients.AllObjects())
    {
      clients.Step(script[k]);
      k := k + 1;
    }
    clients.Close();
    sys.SameLiveSameLists();
  }
}
