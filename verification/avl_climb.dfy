/** The pointer surgery of the AVL tree: rotations and relinking of a parent. */
module AvlClimb {
  import opened AvlShape

  function Other(dir: Dir): Dir {
    1 - dir
  }

  /** The optional node behind a link, as a set. */
  function Opt(n: AvlNode?): set<AvlNode> {
    if n == null then {} else {n}
  }

  /** rotate_single: `next`, the child of `scan` away from dir, becomes the parent of `scan`. */
  method RotateSingle(scan: AvlNode, next: AvlNode, dir: Dir) returns (subroot: AvlNode)
    requires |scan.link| == 2 && |next.link| == 2
    requires scan != next && next.link[dir] != scan && next.link[dir] != next
    modifies {scan, next}`link, ({scan} + Opt(next.link[dir]))`parent
    ensures subroot == next
    ensures scan.link == old(scan.link)[Other(dir) := old(next.link[dir])]
    ensures next.link == old(next.link)[dir := scan]
    ensures scan.parent == next
    ensures old(next.link[dir]) != null ==> old(next.link[dir]).parent == scan
  {
    subroot := next;
    var other := Other(dir);
    scan.link := scan.link[other := next.link[dir]];
    if next.link[dir] != null {
      next.link[dir].parent := scan;
    }
    next.link := next.link[dir := scan];
    scan.parent := next;
  }

  /** Only the three rotated nodes changed links; only they and the two moved roots q and r changed parents. */
  twostate predicate OnlyRotated(new s: set<AvlNode>, new three: set<AvlNode>, new q: AvlNode?, new r: AvlNode?)
    reads s
  {
    && old(allocated(s))
    && (forall n :: n in s && n !in three ==> n.link == old(n.link))
    && (forall n :: n in s && n !in three && n != q && n != r ==> n.parent == old(n.parent))
  }

  /** rotate_double: the inner grandchild becomes the parent of both `scan` and `next`. */
  method RotateDouble(scan: AvlNode, next: AvlNode, dir: Dir, ghost rest: set<AvlNode>) returns (subroot: AvlNode)
    requires |scan.link| == 2 && |next.link| == 2
    requires next.link[dir] != null && |next.link[dir].link| == 2
    requires scan != next && next.link[dir] != scan && next.link[dir] != next
    requires forall d: Dir :: next.link[dir].link[d] !in {scan, next, next.link[dir]}
    requires next.link[dir].link[LEFT] == null || next.link[dir].link[LEFT] != next.link[dir].link[RIGHT]
    modifies {scan, next, next.link[dir]}`link
    modifies ({scan, next} + Opt(next.link[dir].link[LEFT]) + Opt(next.link[dir].link[RIGHT]))`parent
    ensures subroot == old(next.link[dir])
    ensures next.link == old(next.link)[dir := old(next.link[dir].link[Other(dir)])]
    ensures scan.link == old(scan.link)[Other(dir) := old(next.link[dir].link[dir])]
    ensures subroot.link == old(next.link[dir].link)[Other(dir) := next][dir := scan]
    ensures scan.parent == subroot && next.parent == subroot
    ensures OnlyRotated(rest, {scan, next, subroot}, old(next.link[dir].link[dir]),
        old(next.link[dir].link[Other(dir)]))
    ensures old(next.link[dir].link[Other(dir)]) != null ==> old(next.link[dir].link[Other(dir)]).parent == next
    ensures old(next.link[dir].link[dir]) != null ==> old(next.link[dir].link[dir]).parent == scan
  {
    subroot := next.link[dir];
    var other := Other(dir);
    next.link := next.link[dir := subroot.link[other]];
    if subroot.link[other] != null {
      subroot.link[other].parent := next;
    }
    subroot.link := subroot.link[other := next];
    scan.link := scan.link[other := subroot.link[dir]];
    if subroot.link[dir] != null {
      subroot.link[dir].parent := scan;
    }
    subroot.link := subroot.link[dir := scan];
    next.parent := subroot;
    scan.parent := subroot;
  }

  // ---------- what the surgery means for trees ----------

  /** The nodes of s keep their links and parents, except for the parent of p. */
  twostate predicate Kept(new s: set<AvlNode>, new p: AvlNode?)
    reads s
  {
    && old(allocated(s))
    && (forall n :: n in s ==> n.link == old(n.link))
    && (forall n :: n in s && n != p ==> n.parent == old(n.parent))
  }

  /** A tree none of whose nodes was touched. */
  twostate lemma {:induction false} Untouched(new t: Tree, new p: AvlNode?, new parent: AvlNode?)
    requires old(allocated(t) && allocated(p) && allocated(parent))
    requires old(Linked(t, p, parent))
    requires Kept(Nodes(t), null)
    ensures Linked(t, p, parent)
  {
  }

  /** A tree that was hung below another parent. */
  twostate lemma {:induction false} Rehung(new t: Tree, new p: AvlNode?, new was: AvlNode?, new parent: AvlNode?)
    requires old(allocated(t) && allocated(p) && allocated(was) && allocated(parent))
    requires old(allocated(p) && Linked(t, p, was))
    requires Kept(Nodes(t), p)
    requires p != null ==> p.parent == parent
    ensures Linked(t, p, parent)
  {
    if t.Node? {
      Untouched(t.left, p.link[LEFT], p);
      Untouched(t.right, p.link[RIGHT], p);
    }
  }

  lemma JoinIsLinked(dir: Dir, t: Tree, n: AvlNode, s: Tree)
    requires |n.link| == 2
    requires n !in Nodes(t) && n !in Nodes(s) && Nodes(t) !! Nodes(s)
    requires Linked(t, n.link[dir], n) && Linked(s, n.link[Other(dir)], n)
    ensures Linked(Join(dir, t, n, s), n, n.parent)
    ensures Nodes(Join(dir, t, n, s)) == Nodes(t) + {n} + Nodes(s)
  {
  }

  /** What is known of the parts of a linked tree before the surgery. */
  twostate lemma {:induction false} WasJoin(new dir: Dir, new t: Tree, new n: AvlNode, new s: Tree, new p: AvlNode?,
                                            new parent: AvlNode?)
    requires old(allocated(t) && allocated(n) && allocated(s) && allocated(p) && allocated(parent))
    requires old(Linked(Join(dir, t, n, s), p, parent))
    ensures old(p == n && n.parent == parent && |n.link| == 2)
    ensures n !in Nodes(t) && n !in Nodes(s) && Nodes(t) !! Nodes(s)
    ensures old(Linked(t, n.link[dir], n) && Linked(s, n.link[Other(dir)], n))
    ensures Nodes(Join(dir, t, n, s)) == Nodes(t) + {n} + Nodes(s)
  {
  }

  /** n keeps the tree on side dir and takes over, on the other side, the tree `got` rooted at q. */
  twostate lemma {:induction false} TookOver(new dir: Dir, new keep: Tree, new n: AvlNode, new got: Tree,
                                             new q: AvlNode?, new from: AvlNode)
    requires old(allocated(keep) && allocated(n) && allocated(got) && allocated(q) && allocated(from))
    requires old(allocated(q))
    requires n !in Nodes(keep) && n !in Nodes(got) && Nodes(keep) !! Nodes(got)
    requires old(|n.link| == 2 && Linked(keep, n.link[dir], n) && Linked(got, q, from))
    requires n.link == old(n.link)[Other(dir) := q]
    requires q != null ==> q.parent == n
    requires Kept(Nodes(keep), null) && Kept(Nodes(got), q)
    ensures Linked(Join(dir, keep, n, got), n, n.parent)
    ensures Nodes(Join(dir, keep, n, got)) == Nodes(keep) + {n} + Nodes(got)
  {
    RootInNodes(got, q, from);
    Untouched(keep, n.link[dir], n);
    Rehung(got, q, from, n);
    JoinIsLinked(dir, keep, n, got);
  }

  twostate lemma {:induction false} RootInNodes(new t: Tree, new p: AvlNode?, new parent: AvlNode?)
    requires old(allocated(t) && allocated(p) && allocated(parent))
    requires old(allocated(p) && Linked(t, p, parent))
    ensures p != null ==> p in Nodes(t)
  {
  }

  function SingleBefore(dir: Dir, a: Tree, scan: AvlNode, b: Tree, next: AvlNode, c: Tree): Tree {
    Join(dir, a, scan, Join(dir, b, next, c))
  }

  function SingleAfter(dir: Dir, a: Tree, scan: AvlNode, b: Tree, next: AvlNode, c: Tree): Tree {
    Join(dir, Join(dir, a, scan, b), next, c)
  }

  twostate lemma {:induction false} WasSingle(new dir: Dir, new a: Tree, new scan: AvlNode, new b: Tree,
                                              new next: AvlNode, new c: Tree, new above: AvlNode?)
    requires old(allocated(a) && allocated(scan) && allocated(b) && allocated(next) && allocated(c) && allocated(above))
    requires old(Linked(SingleBefore(dir, a, scan, b, next, c), scan, above))
    ensures old(|scan.link| == 2 && |next.link| == 2 && scan.link[Other(dir)] == next)
    ensures {scan} !! {next} !! Nodes(a) !! Nodes(b) !! Nodes(c)
    ensures old(Linked(a, scan.link[dir], scan) && Linked(b, next.link[dir], next) &&
        Linked(c, next.link[Other(dir)], next))
  {
    WasJoin(dir, a, scan, Join(dir, b, next, c), scan, above);
    WasJoin(dir, b, next, c, next, scan);
  }

  /** The effect of RotateSingle on the tree a scan (b next c). */
  twostate lemma {:induction false} SingleLinked(new dir: Dir, new a: Tree, new scan: AvlNode, new b: Tree,
                                                 new next: AvlNode, new c: Tree, new above: AvlNode?)
    requires old(allocated(a) && allocated(scan) && allocated(b) && allocated(next) && allocated(c) && allocated(above))
    requires old(Linked(SingleBefore(dir, a, scan, b, next, c), scan, above))
    requires old(|scan.link| == 2 && |next.link| == 2)
    requires scan.link == old(scan.link)[Other(dir) := old(next.link[dir])]
    requires next.link == old(next.link)[dir := scan]
    requires scan.parent == next
    requires old(next.link[dir]) != null ==> old(next.link[dir]).parent == scan
    requires Kept(Nodes(a), null) && Kept(Nodes(b), old(next.link[dir])) && Kept(Nodes(c), null)
    ensures Linked(SingleAfter(dir, a, scan, b, next, c), next, next.parent)
  {
    WasSingle(dir, a, scan, b, next, c, above);
    RootInNodes(b, old(next.link[dir]), next);
    TookOver(dir, a, scan, b, old(next.link[dir]), next);
    Untouched(c, next.link[Other(dir)], next);
    JoinIsLinked(dir, Join(dir, a, scan, b), next, c);
  }

  function DoubleBefore(dir: Dir, a: Tree, scan: AvlNode, b: Tree, inner: AvlNode, c: Tree, next: AvlNode,
                        d: Tree): Tree {
    Join(dir, a, scan, Join(dir, Join(dir, b, inner, c), next, d))
  }

  function DoubleAfter(dir: Dir, a: Tree, scan: AvlNode, b: Tree, inner: AvlNode, c: Tree, next: AvlNode,
                       d: Tree): Tree {
    Join(dir, Join(dir, a, scan, b), inner, Join(dir, c, next, d))
  }

  twostate lemma {:induction false} WasDouble(new dir: Dir, new a: Tree, new scan: AvlNode, new b: Tree,
                                              new inner: AvlNode, new c: Tree, new next: AvlNode, new d: Tree,
                                              new above: AvlNode?)
    requires old(allocated(a) && allocated(scan) && allocated(b) && allocated(inner) && allocated(c) &&
        allocated(next) && allocated(d) && allocated(above))
    requires old(Linked(DoubleBefore(dir, a, scan, b, inner, c, next, d), scan, above))
    ensures old(|scan.link| == 2 && |next.link| == 2 && |inner.link| == 2)
    ensures old(scan.link[Other(dir)] == next && next.link[dir] == inner)
    ensures {scan} !! {next} !! {inner} !! Nodes(a) !! Nodes(b) !! Nodes(c) !! Nodes(d)
    ensures old(Linked(a, scan.link[dir], scan) && Linked(b, inner.link[dir], inner))
    ensures old(Linked(c, inner.link[Other(dir)], inner) && Linked(d, next.link[Other(dir)], next))
  {
    var top := Join(dir, b, inner, c);
    WasJoin(dir, a, scan, Join(dir, top, next, d), scan, above);
    WasJoin(dir, top, next, d, next, scan);
    WasJoin(dir, b, inner, c, inner, next);
  }

  /** What RotateDouble did to the fields, as far as the two sides of inner are concerned. */
  twostate predicate DoubleMoved(new dir: Dir, new keep: Tree, new n: AvlNode, new got: Tree, new inner: AvlNode)
    reads {n} + Nodes(keep) + Nodes(got)
  {
    && old(allocated(n) && allocated(inner) && |n.link| == 2 && |inner.link| == 2)
    && n.link == old(n.link)[Other(dir) := old(inner.link[dir])]
    && n.parent == inner
    && (forall k :: k in Nodes(got) && k == old(inner.link[dir]) ==> k.parent == n)
    && Kept(Nodes(keep), null) && Kept(Nodes(got), old(inner.link[dir]))
  }

  /** The effect of RotateDouble on the tree a scan ((b inner c) next d). */
  twostate lemma {:induction false} DoubleLinked(new dir: Dir, new a: Tree, new scan: AvlNode, new b: Tree,
                                                 new inner: AvlNode, new c: Tree, new next: AvlNode, new d: Tree,
                                                 new above: AvlNode?)
    requires old(allocated(a) && allocated(scan) && allocated(b) && allocated(inner) && allocated(c) &&
        allocated(next) && allocated(d) && allocated(above))
    requires old(Linked(DoubleBefore(dir, a, scan, b, inner, c, next, d), scan, above))
    requires DoubleMoved(dir, a, scan, b, inner) && DoubleMoved(Other(dir), d, next, c, inner)
    requires inner.link == old(inner.link)[Other(dir) := next][dir := scan]
    ensures Linked(DoubleAfter(dir, a, scan, b, inner, c, next, d), inner, inner.parent)
  {
    DoubleHalves(dir, a, scan, b, inner, c, next, d, above);
    JoinIsLinked(dir, Join(dir, a, scan, b), inner, Join(dir, c, next, d));
  }

  twostate lemma {:induction false} DoubleHalves(new dir: Dir, new a: Tree, new scan: AvlNode, new b: Tree,
                                                 new inner: AvlNode, new c: Tree, new next: AvlNode, new d: Tree,
                                                 new above: AvlNode?)
    requires old(allocated(a) && allocated(scan) && allocated(b) && allocated(inner) && allocated(c) &&
        allocated(next) && allocated(d) && allocated(above))
    requires old(Linked(DoubleBefore(dir, a, scan, b, inner, c, next, d), scan, above))
    requires DoubleMoved(dir, a, scan, b, inner) && DoubleMoved(Other(dir), d, next, c, inner)
    ensures Linked(Join(dir, a, scan, b), scan, inner) && Linked(Join(dir, c, next, d), next, inner)
    ensures inner !in Nodes(Join(dir, a, scan, b)) && inner !in Nodes(Join(dir, c, next, d))
    ensures Nodes(Join(dir, a, scan, b)) !! Nodes(Join(dir, c, next, d))
  {
    hide Linked, DoubleMoved, DoubleBefore, Nodes;
    WasDouble(dir, a, scan, b, inner, c, next, d, above);
    DoubleSide(dir, a, scan, b, inner);
    DoubleSide(Other(dir), d, next, c, inner);
  }

  twostate lemma {:induction false} DoubleSide(new dir: Dir, new keep: Tree, new n: AvlNode, new got: Tree,
                                               new inner: AvlNode)
    requires old(allocated(keep) && allocated(n) && allocated(got) && allocated(inner))
    requires {n} !! {inner} !! Nodes(keep) !! Nodes(got)
    requires old(|n.link| == 2 && |inner.link| == 2 && Linked(keep, n.link[dir], n) &&
        Linked(got, inner.link[dir], inner))
    requires DoubleMoved(dir, keep, n, got, inner)
    ensures Linked(Join(dir, keep, n, got), n, inner)
    ensures Nodes(Join(dir, keep, n, got)) == Nodes(keep) + {n} + Nodes(got)
  {
    RootInNodes(got, old(inner.link[dir]), inner);
    TookOver(dir, keep, n, got, old(inner.link[dir]), inner);
  }

  // ---------- rotations as tree surgery ----------

  lemma SingleNodes(dir: Dir, a: Tree, scan: AvlNode, b: Tree, next: AvlNode, c: Tree)
    ensures Nodes(SingleBefore(dir, a, scan, b, next, c)) == {scan, next} + Nodes(a) + Nodes(b) + Nodes(c)
    ensures Nodes(SingleAfter(dir, a, scan, b, next, c)) == {scan, next} + Nodes(a) + Nodes(b) + Nodes(c)
  {
  }

  lemma DoubleNodes(dir: Dir, a: Tree, scan: AvlNode, b: Tree, inner: AvlNode, c: Tree, next: AvlNode, d: Tree)
    ensures Nodes(DoubleBefore(dir, a, scan, b, inner, c, next, d))
         == {scan, inner, next} + Nodes(a) + Nodes(b) + Nodes(c) + Nodes(d)
    ensures Nodes(DoubleAfter(dir, a, scan, b, inner, c, next, d))
         == {scan, inner, next} + Nodes(a) + Nodes(b) + Nodes(c) + Nodes(d)
  {
    SingleNodes(Other(dir), d, next, c, inner, b);
    SingleNodes(dir, a, scan, b, inner, Join(dir, c, next, d));
  }

  twostate lemma {:induction false} SingleShape(new dir: Dir, new a: Tree, new scan: AvlNode, new b: Tree,
                                                new next: AvlNode, new c: Tree, new above: AvlNode?)
    requires old(allocated(a) && allocated(scan) && allocated(b) && allocated(next) && allocated(c) && allocated(above))
    requires old(Linked(SingleBefore(dir, a, scan, b, next, c), scan, above))
    ensures old(|scan.link| == 2 && |next.link| == 2 && scan.link[Other(dir)] == next)
    ensures {scan} !! {next} !! Nodes(a) !! Nodes(b) !! Nodes(c)
    ensures old(next.link[dir] != null ==> next.link[dir] in Nodes(b))
  {
    WasSingle(dir, a, scan, b, next, c, above);
    RootInNodes(b, old(next.link[dir]), next);
  }

  /** rotate_single on a linked tree; balance fields keep their values. */
  method RotateSingleTree(scan: AvlNode, next: AvlNode, dir: Dir, ghost a: Tree, ghost b: Tree, ghost c: Tree,
                          ghost above: AvlNode?)
    returns (subroot: AvlNode)
    requires Linked(SingleBefore(dir, a, scan, b, next, c), scan, above)
    modifies {scan, next}`link, ({scan} + Nodes(b))`parent
    ensures subroot == next
    ensures Linked(SingleAfter(dir, a, scan, b, next, c), subroot, subroot.parent)
  {
    assert allocated(Nodes(a)) && allocated(Nodes(b)) && allocated(Nodes(c));
    SingleShape(dir, a, scan, b, next, c, above);
    label Before:
    subroot := RotateSingle(scan, next, dir);
    SingleLinked@Before(dir, a, scan, b, next, c, above);
  }

  twostate lemma {:induction false} DoubleShape(new dir: Dir, new a: Tree, new scan: AvlNode, new b: Tree,
                                                new inner: AvlNode, new c: Tree, new next: AvlNode, new d: Tree,
                                                new above: AvlNode?)
    requires old(allocated(a) && allocated(scan) && allocated(b) && allocated(inner) && allocated(c) &&
        allocated(next) && allocated(d) && allocated(above))
    requires old(Linked(DoubleBefore(dir, a, scan, b, inner, c, next, d), scan, above))
    ensures old(|scan.link| == 2 && |next.link| == 2 && |inner.link| == 2)
    ensures old(scan.link[Other(dir)] == next && next.link[dir] == inner)
    ensures {scan} !! {next} !! {inner} !! Nodes(a) !! Nodes(b) !! Nodes(c) !! Nodes(d)
    ensures old(inner.link[dir] != null ==> inner.link[dir] in Nodes(b))
    ensures old(inner.link[Other(dir)] != null ==> inner.link[Other(dir)] in Nodes(c))
  {
    WasDouble(dir, a, scan, b, inner, c, next, d, above);
    RootInNodes(b, old(inner.link[dir]), inner);
    RootInNodes(c, old(inner.link[Other(dir)]), inner);
  }

  twostate lemma {:induction false} DoubleKept(new three: set<AvlNode>, new a: set<AvlNode>, new b: set<AvlNode>,
                                               new c: set<AvlNode>, new d: set<AvlNode>, new q: AvlNode?,
                                               new r: AvlNode?)
    requires three !! a !! b !! c !! d
    requires (q == null || q in b) && (r == null || r in c)
    requires OnlyRotated(a + b + c + d, three, q, r)
    ensures Kept(a, null) && Kept(b, q) && Kept(c, r) && Kept(d, null)
  {
    assert old(allocated(a + b + c + d));
  }

  /** The whole effect of RotateDouble on the tree, from what it does to the fields. */
  twostate lemma {:induction false} DoubleRotated(new dir: Dir, new a: Tree, new scan: AvlNode, new b: Tree,
                                                  new inner: AvlNode, new c: Tree, new next: AvlNode, new d: Tree,
                                                  new above: AvlNode?, new q: AvlNode?, new r: AvlNode?,
                                                  new rest: set<AvlNode>)
    requires old(allocated(a) && allocated(scan) && allocated(b) && allocated(inner) && allocated(c) &&
        allocated(next) && allocated(d) && allocated(above))
    requires old(Linked(DoubleBefore(dir, a, scan, b, inner, c, next, d), scan, above))
    requires old(|scan.link| == 2 && |next.link| == 2 && |inner.link| == 2 && q == inner.link[dir] &&
        r == inner.link[Other(dir)])
    requires rest == Nodes(a) + Nodes(b) + Nodes(c) + Nodes(d) && OnlyRotated(rest, {scan, next, inner}, q, r)
    requires next.link == old(next.link)[dir := r] && scan.link == old(scan.link)[Other(dir) := q]
    requires inner.link == old(inner.link)[Other(dir) := next][dir := scan]
    requires scan.parent == inner && next.parent == inner
    requires (q != null ==> q.parent == scan) && (r != null ==> r.parent == next)
    ensures Linked(DoubleAfter(dir, a, scan, b, inner, c, next, d), inner, inner.parent)
  {
    DoubleShape(dir, a, scan, b, inner, c, next, d, above);
    DoubleKept({scan, next, inner}, Nodes(a), Nodes(b), Nodes(c), Nodes(d), q, r);
    DoubleLinked(dir, a, scan, b, inner, c, next, d, above);
  }

  /** rotate_double on a linked tree; balance fields keep their values. */
  method RotateDoubleTree(scan: AvlNode, next: AvlNode, dir: Dir,
                          ghost a: Tree, ghost b: Tree, ghost inner: AvlNode, ghost c: Tree, ghost d: Tree,
                          ghost above: AvlNode?)
    returns (subroot: AvlNode)
    requires Linked(DoubleBefore(dir, a, scan, b, inner, c, next, d), scan, above)
    modifies {scan, inner, next}`link, ({scan, next} + Nodes(b) + Nodes(c))`parent
    ensures subroot == inner
    ensures Linked(DoubleAfter(dir, a, scan, b, inner, c, next, d), subroot, subroot.parent)
  {
    assert allocated(Nodes(a)) && allocated(Nodes(b)) && allocated(Nodes(c)) && allocated(Nodes(d));
    DoubleShape(dir, a, scan, b, inner, c, next, d, above);
    label Before:
    ghost var q, r, rest := inner.link[dir], inner.link[Other(dir)], Nodes(a) + Nodes(b) + Nodes(c) + Nodes(d);
    subroot := RotateDouble(scan, next, dir, rest);
    DoubleRotated@Before(dir, a, scan, b, inner, c, next, d, above, q, r, rest);
  }
}
