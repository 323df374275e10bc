/** Removing a node with two children: its predecessor is cut out and relinked into its place. */
module AvlSwap {
  import opened AvlShape
  import opened AvlClimb

  // ---------- contexts in two parts ----------

  lemma {:induction false} AppendNodes(a: Ctx, b: Ctx)
    ensures CtxNodes(Append(a, b)) == CtxNodes(a) + CtxNodes(b)
    decreases a
  {
    if a.Below? {
      AppendNodes(a.up, b);
    }
  }

  lemma {:induction false} AppendOrder(a: Ctx, b: Ctx)
    ensures Before(Append(a, b)) == Before(b) + Before(a)
    ensures After(Append(a, b)) == After(a) + After(b)
    decreases a
  {
    if a.Below? {
      AppendOrder(a.up, b);
    }
  }

  lemma {:induction false} AppendBalanced(a: Ctx, b: Ctx, h: nat)
    ensures CtxBalanced(Append(a, b), h) <==> CtxBalanced(a, h) && CtxBalanced(b, HeightAbove(a, h))
    decreases a
  {
    if a.Below? {
      AppendBalanced(a.up, b, 1 + Max(h, Height(a.sibling)));
    }
  }

  /** The pointer at the top of the nodes of a, when p hangs in its hole. */
  function TopOf(a: Ctx, p: AvlNode?): AvlNode?
    decreases a
  {
    if a.Top? then p else TopOf(a.up, a.node)
  }

  /** The node above the hole of b. */
  function HoleParent(b: Ctx): AvlNode? {
    if b.Top? then null else b.node
  }

  lemma {:induction false} TopInCtx(a: Ctx, p: AvlNode?)
    ensures a.Below? ==> TopOf(a, p) != null && TopOf(a, p) in CtxNodes(a)
    decreases a
  {
    if a.Below? && a.up.Below? {
      TopInCtx(a.up, a.node);
    }
  }

  twostate lemma {:induction false} WasAppended(new a: Ctx, new b: Ctx, new p: AvlNode?, new parent: AvlNode?,
                                                new top: AvlNode?)
    requires old(allocated(a) && allocated(b) && allocated(p) && allocated(parent) && allocated(top))
    requires old(CtxLinked(Append(a, b), p, parent, top, null))
    ensures old(CtxLinked(a, p, parent, TopOf(a, p), HoleParent(b)) &&
        CtxLinked(b, TopOf(a, p), HoleParent(b), top, null))
    ensures CtxNodes(a) !! CtxNodes(b)
    decreases a
  {
    if a.Below? {
      AppendNodes(a.up, b);
      WasAppended(a.up, b, a.node, old(a.node.parent), top);
    }
  }

  lemma {:induction false} Appended(a: Ctx, b: Ctx, p: AvlNode?, parent: AvlNode?, mp: AvlNode?, top: AvlNode?)
    requires CtxLinked(a, p, parent, TopOf(a, p), mp) && CtxLinked(b, TopOf(a, p), mp, top, null)
    requires CtxNodes(a) !! CtxNodes(b)
    ensures CtxLinked(Append(a, b), p, parent, top, null)
    decreases a
  {
    if a.Below? {
      AppendNodes(a.up, b);
      Appended(a.up, b, a.node, a.node.parent, mp, top);
    }
  }

  /** The top of a part of a context was hung below another parent, and q put into its hole. */
  twostate lemma {:induction false} Retopped(new a: Ctx, new p: AvlNode?, new q: AvlNode?, new was: AvlNode?,
                                             new mp: AvlNode?)
    requires old(allocated(a) && allocated(p) && allocated(was) && allocated(mp))
    requires a.Below? && old(allocated(CtxNodes(a)) && CtxLinked(a, p, a.node, TopOf(a, p), was))
    requires a.node.link == old(a.node.link)[a.dir := q]
    requires forall n :: n in CtxNodes(a) && n != a.node ==> n.link == old(n.link)
    requires forall n :: n in CtxNodes(a) && n != TopOf(a, p) ==> n.parent == old(n.parent)
    requires TopOf(a, p) != null ==> TopOf(a, p).parent == mp
    ensures CtxLinked(a, q, a.node, TopOf(a, p), mp)
    decreases a
  {
    assert old(allocated(Nodes(a.sibling)) && allocated(CtxNodes(a.up)));
    TopInCtx(a, p);
    if a.up.Below? {
      TopInCtx(a.up, a.node);
      Untouched(a.sibling, old(a.node.link)[1 - a.dir], a.node);
      assert old(a.node.parent) == a.up.node;
      Retopped(a.up, a.node, a.node, was, mp);
    } else {
      Untouched(a.sibling, old(a.node.link)[1 - a.dir], a.node);
    }
  }

  // ---------- the predecessor ----------

  /** The last node of a non-empty tree hangs at the end of a path of right links s, above its
      left subtree. */
  lemma {:induction false} LastNode(t: Tree) returns (s: Ctx, left: Tree, last: AvlNode)
    requires t.Node?
    ensures t == Plug(s, Node(left, last, Leaf))
    ensures After(s) == [] && (s.Below? ==> s.dir == RIGHT)
    ensures Inorder(t) == Before(s) + Inorder(left) + [last]
    decreases t
  {
    if t.right.Leaf? {
      s, left, last := Top, t.left, t.node;
    } else {
      var below;
      below, left, last := LastNode(t.right);
      var end := Below(RIGHT, t.node, t.left, Top);
      s := Append(below, end);
      PlugAppend(below, end, Node(left, last, Leaf));
      AppendOrder(below, end);
      assert Before(s) == Inorder(t.left) + [t.node] + Before(below);
      var a, b, c := Inorder(t.left) + [t.node], Before(below) + Inorder(left), [last];
      assert Inorder(t) == a + (b + c);
      assert a + Before(below) + Inorder(left) == a + b;
    }
  }

  // ---------- the surgery ----------

  /** Links and parents of s, except the link field of n and the parent field of p. */
  twostate predicate KeptBut(new s: set<AvlNode>, new n: AvlNode?, new p: AvlNode?)
    reads s
  {
    && old(allocated(s))
    && (forall k :: k in s && k != n ==> k.link == old(k.link))
    && (forall k :: k in s && k != p ==> k.parent == old(k.parent))
  }

  /** `toremove` does not hang directly below `node`: cut it out of its place and give it both
      subtrees of `node`. */
  method RelinkDistant(node: AvlNode, toremove: AvlNode, ghost spine: set<AvlNode>, ghost left: set<AvlNode>,
                       ghost right: set<AvlNode>)
    returns (dir: Dir)
    requires |node.link| == 2 && |toremove.link| == 2 && toremove.parent != null && |toremove.parent.link| == 2
    requires node.link[LEFT] != null && node.link[RIGHT] != null && node.link[LEFT] != node.link[RIGHT]
    requires toremove != node && toremove.parent != node && toremove.parent != toremove
    requires toremove.parent.link[RIGHT] == toremove
    requires toremove.link[LEFT] !in {node, toremove, toremove.parent, node.link[LEFT], node.link[RIGHT]}
    requires toremove !in {node.link[LEFT], node.link[RIGHT]}
    requires {toremove} !! spine !! left !! right && toremove.parent in spine && node.link[LEFT] in spine
    requires node.link[RIGHT] in right && (toremove.link[LEFT] != null ==> toremove.link[LEFT] in left)
    modifies {toremove, toremove.parent}`link
    modifies (Opt(toremove.link[LEFT]) + Opt(node.link[LEFT]) + Opt(node.link[RIGHT]))`parent
    ensures dir == RIGHT
    ensures KeptBut(spine, old(toremove.parent), old(node.link[LEFT]))
    ensures Kept(left, old(toremove.link[LEFT])) && Kept(right, old(node.link[RIGHT]))
    ensures old(toremove.parent).link == old(toremove.parent.link)[RIGHT := old(toremove.link[LEFT])]
    ensures old(toremove.link[LEFT]) != null ==> old(toremove.link[LEFT]).parent == old(toremove.parent)
    ensures toremove.link == [node.link[LEFT], node.link[RIGHT]]
    ensures node.link[LEFT].parent == toremove && node.link[RIGHT].parent == toremove
  {
    var scan := toremove.parent;
    var side: int := if scan.link[1] == toremove then 1 else 0;
    dir := side;
    scan.link := scan.link[dir := toremove.link[0]];
    if toremove.link[0] != null {
      toremove.link[0].parent := scan;
    }
    toremove.link := toremove.link[0 := node.link[0]];
    if node.link[0] != null {
      node.link[0].parent := toremove;
    }
    toremove.link := toremove.link[1 := node.link[1]];
    if node.link[1] != null {
      node.link[1].parent := toremove;
    }
  }

  /** `toremove` is the left child of `node` and has no right child: it only takes over the right one. */
  method RelinkImmediate(node: AvlNode, toremove: AvlNode, ghost left: set<AvlNode>, ghost right: set<AvlNode>)
    requires |node.link| == 2 && |toremove.link| == 2 && node != toremove
    requires node.link[RIGHT] != null && node.link[RIGHT] != toremove
    requires {toremove} !! left !! right && node.link[RIGHT] in right
    modifies {toremove}`link, Opt(node.link[RIGHT])`parent
    ensures toremove.link == old(toremove.link)[RIGHT := node.link[RIGHT]]
    ensures node.link[RIGHT].parent == toremove
    ensures Kept(left, null) && Kept(right, node.link[RIGHT])
  {
    toremove.link := toremove.link[1 := node.link[1]];
    if node.link[1] != null {
      node.link[1].parent := toremove;
    }
  }

  // ---------- what the surgery means ----------

  /** The context of the predecessor: right links s down the left subtree of node, whose right
      subtree is r and which itself hangs in c. */
  function PredCtx(s: Ctx, node: AvlNode, r: Tree, c: Ctx): Ctx {
    Append(s, Below(LEFT, node, r, c))
  }

  /** node and its predecessor last, as they stand in a tree. */
  ghost predicate Neighbours(s: Ctx, node: AvlNode, r: Tree, c: Ctx, left: Tree, last: AvlNode, root: AvlNode?)
    reads CtxNodes(PredCtx(s, node, r, c)), Nodes(Node(left, last, Leaf))
  {
    && (s.Below? ==> s.dir == RIGHT)
    && CtxLinked(PredCtx(s, node, r, c), last, last.parent, root, null)
    && Linked(Node(left, last, Leaf), last, last.parent)
    && CtxNodes(PredCtx(s, node, r, c)) !! Nodes(Node(left, last, Leaf))
  }

  /** The parts of Neighbours one by one. */
  twostate lemma {:induction false} WereNeighbours(new s: Ctx, new node: AvlNode, new r: Tree, new c: Ctx,
                                                   new left: Tree, new last: AvlNode, new root: AvlNode?)
    requires old(allocated(s) && allocated(node) && allocated(r) && allocated(c) && allocated(left) &&
        allocated(last) && allocated(root))
    requires old(Neighbours(s, node, r, c, left, last, root))
    ensures old(|last.link| == 2 && |node.link| == 2 && last.link[RIGHT] == null)
    ensures old(Linked(left, last.link[LEFT], last) && Linked(r, node.link[RIGHT], node))
    ensures old(CtxLinked(s, last, last.parent, TopOf(s, last), node))
    ensures old(node.link[LEFT]) == TopOf(s, last) && TopOf(s, last) != null
    ensures old(CtxLinked(c, node, node.parent, root, null))
    ensures {node} !! {last} !! Nodes(left) !! Nodes(r) !! CtxNodes(s) !! CtxNodes(c)
    ensures CtxNodes(PredCtx(s, node, r, c)) == CtxNodes(s) + {node} + Nodes(r) + CtxNodes(c)
  {
    var b := Below(LEFT, node, r, c);
    WasAppended(s, b, last, old(last.parent), root);
    AppendNodes(s, b);
    TopInCtx(s, last);
    assert old(Linked(Leaf, last.link[RIGHT], last));
  }

  /** The predecessor is cut out and holds both subtrees of node; it does not hang anywhere yet. */
  ghost predicate Cut(s: Ctx, r: Tree, left: Tree, last: AvlNode, scan: AvlNode, q: AvlNode?)
    reads CtxNodes(s), Nodes(r), Nodes(left), {last}`link
  {
    && |last.link| == 2
    && scan == (if s.Top? then last else s.node)
    && CtxLinked(s, q, scan, last.link[LEFT], last) && last.link[LEFT] == TopOf(s, q)
    && Linked(left, q, scan) && Linked(r, last.link[RIGHT], last)
  }

  twostate lemma {:induction false} CutDistantLinked(new s: Ctx, new node: AvlNode, new r: Tree, new c: Ctx,
                                                     new left: Tree, new last: AvlNode, new root: AvlNode?,
                                                     new q: AvlNode?)
    requires old(allocated(s) && allocated(node) && allocated(r) && allocated(c) && allocated(left) &&
        allocated(last) && allocated(root) && allocated(q))
    requires old(Neighbours(s, node, r, c, left, last, root)) && s.Below? && r.Node?
    requires old(|last.link| == 2 && |node.link| == 2 && last.link[LEFT] == q)
    requires KeptBut(CtxNodes(s), s.node, old(node.link[LEFT])) && Kept(Nodes(left), q) &&
        Kept(Nodes(r), old(node.link[RIGHT]))
    requires s.node.link == old(s.node.link)[RIGHT := q] && last.link == old(node.link)
    requires q != null ==> q.parent == s.node
    requires forall n :: n in last.link && n != null ==> n.parent == last
    ensures Cut(s, r, left, last, s.node, q)
  {
    WereNeighbours(s, node, r, c, left, last, root);
    assert last.link[LEFT] in last.link && last.link[RIGHT] in last.link;
    RootInNodes(r, old(node.link[RIGHT]), node);
    Rehung(left, q, last, s.node);
    Rehung(r, old(node.link[RIGHT]), node, last);
    Retopped(s, last, q, node, last);
  }

  twostate lemma {:induction false} CutImmediateLinked(new node: AvlNode, new r: Tree, new c: Ctx, new left: Tree,
                                                       new last: AvlNode, new root: AvlNode?)
    requires old(allocated(node) && allocated(r) && allocated(c) && allocated(left) && allocated(last) &&
        allocated(root))
    requires old(Neighbours(Top, node, r, c, left, last, root)) && r.Node?
    requires old(|last.link| == 2 && |node.link| == 2)
    requires Kept(Nodes(left), null) && Kept(Nodes(r), old(node.link[RIGHT]))
    requires last.link == old(last.link)[RIGHT := old(node.link[RIGHT])]
    requires old(node.link[RIGHT]) != null && old(node.link[RIGHT]).parent == last
    ensures Cut(Top, r, left, last, last, last.link[LEFT])
  {
    WereNeighbours(Top, node, r, c, left, last, root);
    Untouched(left, last.link[LEFT], last);
    Rehung(r, old(node.link[RIGHT]), node, last);
  }

  /** Which nodes the surgery around node and last may touch, and that they are all different. */
  twostate lemma {:induction false} Apart(new s: Ctx, new node: AvlNode, new r: Tree, new c: Ctx, new left: Tree,
                                          new last: AvlNode, new root: AvlNode?)
    requires old(allocated(s) && allocated(node) && allocated(r) && allocated(c) && allocated(left) &&
        allocated(last) && allocated(root))
    requires old(Neighbours(s, node, r, c, left, last, root)) && r.Node?
    ensures old(|last.link| == 2 && |node.link| == 2)
    ensures {node} !! {last} !! Nodes(left) !! Nodes(r) !! CtxNodes(s) !! CtxNodes(c)
    ensures old(last.link[LEFT] != null ==> last.link[LEFT] in Nodes(left))
    ensures old(node.link[RIGHT]) != null && old(node.link[RIGHT]) in Nodes(r)
    ensures old(node.link[LEFT]) == TopOf(s, last)
    ensures s.Top? ==> old(last.parent) == node && old(node.link[LEFT]) == last
    ensures s.Below? ==>
        old(last.parent) == s.node && s.node in CtxNodes(s) && old(|s.node.link| == 2 && s.node.link[RIGHT] == last)
    ensures s.Below? ==> old(node.link[LEFT]) != null && old(node.link[LEFT]) in CtxNodes(s)
  {
    WereNeighbours(s, node, r, c, left, last, root);
    RootInNodes(left, old(last.link[LEFT]), last);
    TopInCtx(s, last);
  }

  /** The branch of AVL_RemNodeByAddress for a node with two children, up to the point where
      `toremove` takes the balance and the parent of `node`. */
  method CutPredecessor(node: AvlNode, toremove: AvlNode, ghost s: Ctx, ghost r: Tree, ghost c: Ctx,
                        ghost left: Tree, ghost root: AvlNode?)
    returns (scan: AvlNode, dir: Dir, ghost q: AvlNode?)
    requires Neighbours(s, node, r, c, left, toremove, root) && r.Node?
    modifies ({toremove} + CtxNodes(s))`link, (Nodes(left) + CtxNodes(s) + Nodes(r))`parent
    ensures Cut(s, r, left, toremove, scan, q)
    ensures dir == if s.Top? then LEFT else RIGHT
  {
    hide Neighbours, Cut, Nodes, CtxNodes, Linked, CtxLinked, TopOf;
    Apart(s, node, r, c, left, toremove, root);
    assert allocated(Nodes(left)) && allocated(Nodes(r)) && allocated(CtxNodes(s)) && allocated(CtxNodes(c));
    q := toremove.link[LEFT];
    scan := toremove.parent;
    label Start:
    if scan == node {
      RelinkImmediate(node, toremove, Nodes(left), Nodes(r));
      CutImmediateLinked@Start(node, r, c, left, toremove, root);
      scan, dir := toremove, 0;
    } else {
      dir := RelinkDistant(node, toremove, CtxNodes(s), Nodes(left), Nodes(r));
      CutDistantLinked@Start(s, node, r, c, left, toremove, root, q);
    }
  }

  // ---------- balance and order of the new context ----------

  /** Replacing node by last, with the balance of node, changes no height. */
  lemma PredBalanced(s: Ctx, last: AvlNode, r: Tree, c: Ctx, h: nat, k: nat, e: nat)
    requires k == HeightAbove(s, h) && e == 1 + Max(k, Height(r))
    requires CtxBalanced(s, h) && Balanced(r) && CtxBalanced(c, e)
    requires last.balance == Height(r) - k && -1 <= last.balance <= 1
    ensures CtxBalanced(PredCtx(s, last, r, c), h)
  {
    AppendBalanced(s, Below(LEFT, last, r, c), h);
  }

  /** The new context around the rest of the left subtree holds the old sequence without node. */
  lemma PredOrder(s: Ctx, last: AvlNode, r: Tree, c: Ctx, left: Tree)
    requires After(s) == []
    ensures Before(PredCtx(s, last, r, c)) + Inorder(left) + After(PredCtx(s, last, r, c))
         == Before(c) + (Before(s) + Inorder(left) + [last]) + (Inorder(r) + After(c))
  {
    AppendOrder(s, Below(LEFT, last, r, c));
    Regroup(Before(c), Before(s), Inorder(left), [last], Inorder(r), After(c));
  }

  lemma Regroup<T>(b: seq<T>, s: seq<T>, i: seq<T>, l: seq<T>, r: seq<T>, a: seq<T>)
    ensures (b + s) + i + ([] + (l + r + a)) == b + (s + i + l) + (r + a)
  {
  }

  /** Once last also hangs in c, the whole context is linked. */
  lemma CutLinked(s: Ctx, r: Tree, c: Ctx, left: Tree, last: AvlNode, scan: AvlNode, q: AvlNode?, root: AvlNode?)
    requires Cut(s, r, left, last, scan, q) && CtxLinked(c, last, last.parent, root, null)
    requires {last} !! Nodes(left) !! Nodes(r) !! CtxNodes(s) !! CtxNodes(c)
    ensures CtxLinked(PredCtx(s, last, r, c), q, scan, root, null)
    ensures CtxNodes(PredCtx(s, last, r, c)) == CtxNodes(s) + {last} + Nodes(r) + CtxNodes(c)
    ensures PredCtx(s, last, r, c).Below? && PredCtx(s, last, r, c).node == scan
  {
    hide Linked, TopOf, Nodes;
    var b := Below(LEFT, last, r, c);
    AppendNodes(s, b);
    Appended(s, b, q, scan, last, root);
  }

  /** The same across the step that hung last in c, which touched none of the other parts. */
  twostate lemma {:induction false} Hooked(new s: Ctx, new r: Tree, new c: Ctx, new left: Tree, new last: AvlNode,
                                           new scan: AvlNode, new q: AvlNode?, new root: AvlNode?,
                                           new rest: set<AvlNode>)
    requires old(allocated(s) && allocated(r) && allocated(left) && allocated(last) && allocated(scan) && allocated(q))
    requires old(Cut(s, r, left, last, scan, q)) && last.link == old(last.link)
    requires rest == CtxNodes(s) + Nodes(r) + Nodes(left) && Kept(rest, null)
    requires CtxLinked(c, last, last.parent, root, null)
    requires {last} !! Nodes(left) !! Nodes(r) !! CtxNodes(s) !! CtxNodes(c)
    ensures CtxLinked(PredCtx(s, last, r, c), q, scan, root, null) && Linked(left, q, scan)
    ensures CtxNodes(PredCtx(s, last, r, c)) == CtxNodes(s) + {last} + Nodes(r) + CtxNodes(c)
    ensures PredCtx(s, last, r, c).Below? && PredCtx(s, last, r, c).node == scan
    ensures Nodes(left) !! CtxNodes(PredCtx(s, last, r, c))
  {
    assert old(allocated(CtxNodes(s)) && allocated(Nodes(r)) && allocated(Nodes(left)));
    CutLinked(s, r, c, left, last, scan, q, root);
  }
}
