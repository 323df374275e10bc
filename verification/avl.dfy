/** The AVL tree of exec.library: insertion, removal, search and address-order walking. */
module Avl {
  import opened AvlShape
  import opened AvlClimb
  import opened AvlFix
  import opened AvlSwap

  // ---------- what a climb step does to a context ----------

  /** A context closed over the tree in its hole is a whole tree again. */
  lemma Closed(c: Ctx, t: Tree, p: AvlNode?, parent: AvlNode?, root: AvlNode?)
    requires Linked(t, p, parent) && CtxLinked(c, p, parent, root, null) && Nodes(t) !! CtxNodes(c)
    requires Balanced(t) && CtxBalanced(c, Height(t))
    ensures Linked(Plug(c, t), root, null) && Balanced(Plug(c, t))
    ensures Inorder(Plug(c, t)) == Before(c) + Inorder(t) + After(c)
    ensures Nodes(Plug(c, t)) == CtxNodes(c) + Nodes(t)
  {
    PlugLinked(c, t, p, parent, root, null);
    PlugBalanced(c, t);
    PlugInorder(c, t);
    PlugNodes(c, t);
  }

  /** Among the nodes of s, only the balance field of n changed. */
  twostate predicate OnlyBalance(new s: set<AvlNode>, new n: AvlNode)
    reads s
  {
    && old(allocated(s))
    && (forall k :: k in s ==> k.link == old(k.link) && k.parent == old(k.parent))
    && (forall k :: k in s && k != n ==> k.balance == old(k.balance))
  }

  twostate lemma {:induction false} LinksKept(new c: Ctx, new t: Tree, new p: AvlNode?, new parent: AvlNode?,
                                              new root: AvlNode?, new n: AvlNode)
    requires old(allocated(c) && allocated(t) && allocated(p) && allocated(parent) && allocated(root) && allocated(n))
    requires OnlyBalance(CtxNodes(c), n) && OnlyBalance(Nodes(t), n)
    requires old(Linked(t, p, parent) && CtxLinked(c, p, parent, root, null))
    ensures Linked(t, p, parent) && CtxLinked(c, p, parent, root, null)
  {
  }

  /** The node above the hole took the balance that fits a tree of height h in the hole. */
  twostate lemma {:induction false} CtxRebalanced(new c: Ctx, new was: nat, new h: nat)
    requires old(allocated(c))
    requires c.Below? && OnlyBalance(CtxNodes(c), c.node)
    requires old(CtxBalanced(c, was))
    requires c.node !in Nodes(c.sibling) && c.node !in CtxNodes(c.up)
    requires c.node.balance == Lean(c.dir, h, Height(c.sibling)) && -1 <= c.node.balance <= 1
    requires Max(h, Height(c.sibling)) == Max(was, Height(c.sibling))
    ensures CtxBalanced(c, h)
  {
  }

  /** The node above the hole took its new balance and the climb moves on with it. */
  twostate lemma {:induction false} Climbed(new c: Ctx, new t: Tree, new was: nat, new h: nat, new k: nat)
    requires old(allocated(c) && allocated(t))
    requires c.Below? && OnlyBalance(CtxNodes(c), c.node) && OnlyBalance(Nodes(t), c.node)
    requires old(CtxBalanced(c, was) && Balanced(t))
    requires c.node !in Nodes(c.sibling) && c.node !in CtxNodes(c.up) && c.node !in Nodes(t)
    requires c.node.balance == Lean(c.dir, Height(t), Height(c.sibling)) && -1 <= c.node.balance <= 1
    requires h == Max(was, Height(c.sibling)) && k == Max(Height(t), Height(c.sibling))
    ensures Balanced(Join(c.dir, t, c.node, c.sibling))
    ensures CtxBalanced(c.up, 1 + h) && Height(Join(c.dir, t, c.node, c.sibling)) == 1 + k
  {
    assert old(allocated(Nodes(c.sibling)) && allocated(Nodes(t)) && allocated(CtxNodes(c.up)));
    assert old(CtxBalanced(c.up, 1 + h));
    CtxBalanceKept(c.up, 1 + h);
    BalanceUntouched(t);
    BalanceUntouched(c.sibling);
    JoinIsBalanced(c.dir, t, c.node, c.sibling);
  }

  /** The tree in the hole together with the node above it. */
  lemma StepUp(c: Ctx, t: Tree, p: AvlNode?, root: AvlNode?)
    requires c.Below? && Linked(t, p, c.node) && CtxLinked(c, p, c.node, root, null) && Nodes(t) !! CtxNodes(c)
    ensures var u := Join(c.dir, t, c.node, c.sibling);
            && Linked(u, c.node, c.node.parent) && CtxLinked(c.up, c.node, c.node.parent, root, null)
            && Nodes(u) == Nodes(t) + {c.node} + Nodes(c.sibling) && Nodes(u) !! CtxNodes(c.up)
            && Nodes(u) + CtxNodes(c.up) == Nodes(t) + CtxNodes(c)
            && Before(c.up) + Inorder(u) + After(c.up) == Before(c) + Inorder(t) + After(c)
  {
    JoinIsLinked(c.dir, t, c.node, c.sibling);
    JoinInorder(c, t);
  }

  /** After a step that only set the balance of the node above the hole, that node with its two
      subtrees is the tree in the next hole. */
  twostate lemma {:induction false} Lifted(new c: Ctx, new t: Tree, new p: AvlNode?, new root: AvlNode?,
                                           new was: nat, new ht: nat, new hs: nat, new h: nat,
                                           new k: nat) returns (u: Tree)
    requires old(allocated(c) && allocated(t) && allocated(p) && allocated(root))
    requires c.Below? && OnlyBalance(CtxNodes(c), c.node) && OnlyBalance(Nodes(t), c.node)
    requires old(Linked(t, p, c.node) && CtxLinked(c, p, c.node, root, null)) && Nodes(t) !! CtxNodes(c)
    requires old(Balanced(t) && CtxBalanced(c, was)) && ht == Height(t) && hs == Height(c.sibling)
    requires c.node.balance == Lean(c.dir, ht, hs) && -1 <= c.node.balance <= 1
    requires h == Max(was, hs) && k == Max(ht, hs)
    ensures u.Node? && u.node == c.node
    ensures Linked(u, c.node, c.node.parent) && CtxLinked(c.up, c.node, c.node.parent, root, null)
    ensures Nodes(u) !! CtxNodes(c.up) && Nodes(u) + CtxNodes(c.up) == Nodes(t) + CtxNodes(c)
    ensures Before(c.up) + Inorder(u) + After(c.up) == Before(c) + Inorder(t) + After(c)
    ensures Balanced(u) && CtxBalanced(c.up, 1 + h) && Height(u) == 1 + k
  {
    LinksKept(c, t, p, c.node, root, c.node);
    Climbed(c, t, was, h, k);
    StepUp(c, t, p, root);
    u := Join(c.dir, t, c.node, c.sibling);
  }

  /** The balance AVL_AddNode computes at the node above the hole, whose side grew from height h,
      says how high the other side is. */
  lemma SettleNumbers(c: Ctx, h: nat, hs: nat)
    requires c.Below? && CtxBalanced(c, h) && hs == Height(c.sibling) && c.dir * 2 - 1 + c.node.balance == 0
    ensures 0 == Lean(c.dir, h + 1, hs) && Max(h + 1, hs) == Max(h, hs) == hs
  {
  }

  lemma LeanNumbers(c: Ctx, h: nat, hs: nat, bal: int)
    requires c.Below? && CtxBalanced(c, h) && hs == Height(c.sibling)
    requires bal == c.dir * 2 - 1 + c.node.balance && bal != 0 && bal != 2 && bal != -2
    ensures bal == Lean(c.dir, h + 1, hs) && -1 <= bal <= 1
    ensures Max(h, hs) == h && Max(h + 1, hs) == h + 1
  {
  }

  lemma RotateNumbers(c: Ctx, h: nat, hs: nat)
    requires c.Below? && CtxBalanced(c, h) && hs == Height(c.sibling)
    requires c.dir * 2 - 1 + c.node.balance == 2 || c.dir * 2 - 1 + c.node.balance == -2
    ensures h == hs + 1 && 1 + Max(h, hs) == h + 1
    ensures Balanced(c.sibling) && CtxBalanced(c.up, h + 1)
  {
  }

  /** The test `parent->avl_link[1] == child` finds the side on which the child hangs. */
  lemma SideOfHole(c: Ctx, t: Tree, p: AvlNode?, root: AvlNode?)
    requires c.Below? && t.Node? && Linked(t, p, c.node) && CtxLinked(c, p, c.node, root, null) &&
        Nodes(t) !! CtxNodes(c)
    ensures |c.node.link| == 2 && c.dir == if c.node.link[1] == p then 1 else 0
  {
  }

  /** A new leaf never unbalances the node it hangs on: only trees with a leaning root do. */
  lemma EvenLeafStaysLow(c: Ctx, t: Tree, h: nat)
    requires c.Below? && t.Node? && CtxBalanced(c, h)
    requires t.node.balance != 0 || h == 0
    requires c.dir * 2 - 1 + c.node.balance == 2 || c.dir * 2 - 1 + c.node.balance == -2
    ensures t.node.balance != 0
  {
  }

  /** The same for AVL_RemNodeByAddress, where the side of the hole shrank from height h + 1. */
  lemma StopNumbers(c: Ctx, h: nat, hs: nat, bal: int)
    requires c.Below? && CtxBalanced(c, h + 1) && hs == Height(c.sibling)
    requires bal == c.node.balance - (c.dir * 2 - 1) && (bal == 1 || bal == -1)
    ensures bal == Lean(c.dir, h, hs) && -1 <= bal <= 1 && hs == h + 1 && Max(h, hs) == hs && Max(h + 1, hs) == hs
  {
  }

  lemma LevelNumbers(c: Ctx, h: nat, hs: nat)
    requires c.Below? && CtxBalanced(c, h + 1) && hs == Height(c.sibling)
    requires c.node.balance - (c.dir * 2 - 1) == 0
    ensures 0 == Lean(c.dir, h, hs) && Max(h + 1, hs) == h + 1 && Max(h, hs) == h
  {
  }

  lemma RotateLowNumbers(c: Ctx, h: nat, hs: nat)
    requires c.Below? && CtxBalanced(c, h + 1) && hs == Height(c.sibling)
    requires c.node.balance - (c.dir * 2 - 1) == 2 || c.node.balance - (c.dir * 2 - 1) == -2
    ensures hs == h + 2 && 1 + Max(h + 1, hs) == h + 3
    ensures Balanced(c.sibling) && CtxBalanced(c.up, h + 3)
  {
  }

  lemma HeavySibling(c: Ctx, p: AvlNode?, root: AvlNode?)
    requires c.Below? && CtxLinked(c, p, c.node, root, null) && Height(c.sibling) > 0
    ensures |c.node.link| == 2 && c.sibling.Node? && c.sibling.node == c.node.link[Other(c.dir)]
  {
  }

  /** A context none of whose nodes was touched. */
  twostate lemma {:induction false} CtxKept(new c: Ctx, new p: AvlNode?, new parent: AvlNode?, new root: AvlNode?,
                                            new h: nat)
    requires old(allocated(c) && allocated(p) && allocated(parent) && allocated(root))
    requires old(allocated(CtxNodes(c)) && CtxLinked(c, p, parent, root, null) && CtxBalanced(c, h))
    requires forall n :: n in CtxNodes(c) ==>
        n.link == old(n.link) && n.parent == old(n.parent) && n.balance == old(n.balance)
    ensures CtxLinked(c, p, parent, root, null) && CtxBalanced(c, h)
  {
  }

  twostate lemma {:induction false} CtxLinksKept(new c: Ctx, new p: AvlNode?, new parent: AvlNode?, new root: AvlNode?)
    requires old(allocated(c) && allocated(p) && allocated(parent) && allocated(root))
    requires old(allocated(CtxNodes(c)) && CtxLinked(c, p, parent, root, null))
    requires forall n :: n in CtxNodes(c) ==> n.link == old(n.link) && n.parent == old(n.parent)
    ensures CtxLinked(c, p, parent, root, null)
  {
  }

  twostate lemma {:induction false} PlaceOfNode(new s: Ctx, new node: AvlNode, new r: Tree, new c: Ctx,
                                                new left: Tree, new last: AvlNode, new root: AvlNode?)
    requires old(allocated(s) && allocated(node) && allocated(r) && allocated(c) && allocated(left) &&
        allocated(last) && allocated(root))
    requires old(Neighbours(s, node, r, c, left, last, root))
    ensures old(CtxLinked(c, node, node.parent, root, null))
    ensures c.Below? ==> old(|c.node.link| == 2 && (c.node.link[1] == node <==> c.dir == RIGHT))
  {
    WereNeighbours(s, node, r, c, left, last, root);
  }

  /** With the balance of node, last fits between the subtrees node had. */
  twostate lemma {:induction false} PredRebalanced(new s: Ctx, new node: AvlNode, new last: AvlNode, new r: Tree,
                                                   new c: Ctx, new left: Tree, new h: nat)
    requires old(allocated(s) && allocated(node) && allocated(last) && allocated(r) && allocated(c) && allocated(left))
    requires old(CtxBalanced(PredCtx(s, node, r, c), h) && Balanced(left))
    requires last.balance == old(node.balance)
    requires {last} !! Nodes(left) !! Nodes(r) !! CtxNodes(s) !! CtxNodes(c)
    requires forall n: AvlNode :: old(allocated(n)) && n != last ==> n.balance == old(n.balance)
    ensures CtxBalanced(PredCtx(s, last, r, c), h) && Balanced(left)
  {
    assert old(allocated(Nodes(left)) && allocated(Nodes(r)) && allocated(CtxNodes(s)) && allocated(CtxNodes(c)));
    var k, e: nat := HeightAbove(s, h), 1 + Max(HeightAbove(s, h), Height(r));
    OldPredBalanced(s, node, r, c, h, k, e);
    CtxBalanceKept(s, h);
    CtxBalanceKept(c, e);
    BalanceUntouched(r);
    BalanceUntouched(left);
    PredBalanced(s, last, r, c, h, k, e);
  }

  twostate lemma {:induction false} OldPredBalanced(new s: Ctx, new node: AvlNode, new r: Tree, new c: Ctx,
                                                    new h: nat, new k: nat, new e: nat)
    requires old(allocated(s) && allocated(node) && allocated(r) && allocated(c))
    requires old(CtxBalanced(PredCtx(s, node, r, c), h))
    requires k == HeightAbove(s, h) && e == 1 + Max(k, Height(r))
    ensures old(CtxBalanced(s, h) && Balanced(r) && CtxBalanced(c, e))
    ensures old(node.balance) == Height(r) - k && -1 <= old(node.balance) <= 1
  {
    OldAppendBalanced(s, Below(LEFT, node, r, c), h);
  }

  twostate lemma {:induction false} OldAppendBalanced(new a: Ctx, new b: Ctx, new h: nat)
    requires old(allocated(a) && allocated(b))
    requires old(CtxBalanced(Append(a, b), h))
    ensures old(CtxBalanced(a, h) && CtxBalanced(b, HeightAbove(a, h)))
    decreases a
  {
    if a.Below? {
      OldAppendBalanced(a.up, b, 1 + Max(h, Height(a.sibling)));
    }
  }

  /** The nodes involved, and that the new context with the rest has all of them but node. */
  lemma SwapNodes(s: Ctx, node: AvlNode, last: AvlNode, r: Tree, c: Ctx, left: Tree, root: AvlNode?)
    requires Neighbours(s, node, r, c, left, last, root)
    ensures {last} !! Nodes(left) !! Nodes(r) !! CtxNodes(s) !! CtxNodes(c)
    ensures var all := CtxNodes(PredCtx(s, node, r, c)) + Nodes(Node(left, last, Leaf));
            && {last} + Nodes(left) + Nodes(r) + CtxNodes(s) + CtxNodes(c) <= all
            && Nodes(left) + CtxNodes(PredCtx(s, last, r, c)) == all - {node}
  {
    hide CtxLinked, Linked;
    WereNeighbours(s, node, r, c, left, last, root);
    AppendNodes(s, Below(LEFT, last, r, c));
  }

  lemma {:induction false} SameDepth(s: Ctx, node: AvlNode, last: AvlNode, r: Tree, c: Ctx)
    ensures Depth(PredCtx(s, last, r, c)) == Depth(PredCtx(s, node, r, c))
    decreases s
  {
    if s.Below? {
      SameDepth(s.up, node, last, r, c);
    }
  }

  twostate lemma {:induction false} CtxBalanceKept(new c: Ctx, new h: nat)
    requires old(allocated(c))
    requires old(allocated(CtxNodes(c)) && CtxBalanced(c, h))
    requires forall n :: n in CtxNodes(c) ==> n.balance == old(n.balance)
    ensures CtxBalanced(c, h)
  {
  }

  /** What a rotation about the node above the hole starts from, seen from the low side. */
  lemma ReadyToRotate(c: Ctx, t: Tree, p: AvlNode?, root: AvlNode?) returns (low: Dir, u: Tree)
    requires c.Below? && t.Node? && Linked(t, p, c.node) && CtxLinked(c, p, c.node, root, null) &&
        Nodes(t) !! CtxNodes(c)
    ensures low == Other(c.dir) && u == Join(low, c.sibling, c.node, t)
    ensures c.node.link[c.dir] == t.node
    ensures Linked(u, c.node, c.node.parent) && CtxLinked(c.up, c.node, c.node.parent, root, null)
    ensures Nodes(u) !! CtxNodes(c.up) && Nodes(u) + CtxNodes(c.up) == Nodes(t) + CtxNodes(c)
    ensures Before(c.up) + Inorder(u) + After(c.up) == Before(c) + Inorder(t) + After(c)
  {
    low := Other(c.dir);
    u := Join(low, c.sibling, c.node, t);
    StepUp(c, t, p, root);
    assert u == Join(c.dir, t, c.node, c.sibling);
  }

  /** Another pointer was put into the hole; balances may have changed, other links have not. */
  twostate lemma {:induction false} HoleFilled(new c: Ctx, new p: AvlNode?, new q: AvlNode?, new root: AvlNode?)
    requires old(allocated(c) && allocated(p) && allocated(root))
    requires c.Below? && old(allocated(CtxNodes(c)) && CtxLinked(c, p, c.node, root, null))
    requires c.node.link == old(c.node.link)[c.dir := q]
    requires KeptBut(CtxNodes(c), c.node, null)
    ensures CtxLinked(c, q, c.node, root, null)
  {
    assert old(allocated(Nodes(c.sibling)) && allocated(CtxNodes(c.up)));
  }

  /** Inserting the new node keeps the sequence sorted. */
  lemma SortedWith(cmp: Comparator, b: seq<AvlNode>, n: AvlNode, a: seq<AvlNode>)
    requires IsOrder(cmp) && Sorted(cmp, b + a) && AllBelow(cmp, b, n.key) && AllAbove(cmp, a, n.key)
    ensures Sorted(cmp, b + [n] + a)
    ensures forall m :: m in b + a ==> cmp(m.key, n.key) != 0
  {
    hide IsOrder;
    var s, r := b + [n] + a, b + a;
    forall i, j | 0 <= i < j < |s|
      ensures cmp(s[i].key, s[j].key) < 0
    {
      if i == |b| {
        Flipped(cmp, n.key, a[j - |b| - 1].key);
      } else if j == |b| {
        assert cmp(b[i].key, n.key) < 0;
      } else {
        assert s[i] == r[if i < |b| then i else i - 1] && s[j] == r[if j < |b| then j else j - 1];
      }
    }
  }

  lemma Flipped(cmp: Comparator, x: Key, y: Key)
    requires IsOrder(cmp)
    ensures cmp(x, y) < 0 <==> cmp(y, x) > 0
  {
  }

  // ---------- searching by key ----------

  /** A node below the key is above everything before it, so all of that is below the key. */
  lemma BelowUpTo(cmp: Comparator, b: seq<AvlNode>, n: AvlNode, a: seq<AvlNode>, key: Key)
    requires IsOrder(cmp) && Sorted(cmp, b + [n] + a) && cmp(n.key, key) < 0
    ensures AllBelow(cmp, b + [n], key)
  {
    var s := b + [n] + a;
    assert s[|b|] == n;
    forall i | 0 <= i < |b|
      ensures cmp(b[i].key, key) < 0
    {
      assert b[i] == s[i];
      LessTrans(cmp, b[i].key, n.key, key);
    }
  }

  lemma AboveFrom(cmp: Comparator, b: seq<AvlNode>, n: AvlNode, a: seq<AvlNode>, key: Key)
    requires IsOrder(cmp) && Sorted(cmp, b + [n] + a) && cmp(n.key, key) > 0
    ensures AllAbove(cmp, [n] + a, key)
  {
    var s := b + [n] + a;
    assert s[|b|] == n;
    forall i | 0 <= i < |a|
      ensures cmp(a[i].key, key) > 0
    {
      assert a[i] == s[|b| + 1 + i];
      LessTrans(cmp, key, n.key, a[i].key);
    }
  }

  lemma EqualAt(cmp: Comparator, b: seq<AvlNode>, n: AvlNode, a: seq<AvlNode>, key: Key)
    requires IsOrder(cmp) && Sorted(cmp, b + [n] + a) && cmp(n.key, key) == 0
    ensures AllBelow(cmp, b, key) && AllAbove(cmp, a, key)
  {
    var s := b + [n] + a;
    assert s[|b|] == n;
    forall i | 0 <= i < |b|
      ensures cmp(b[i].key, key) < 0
    {
      assert b[i] == s[i];
      LessTrans(cmp, b[i].key, n.key, key);
    }
    forall i | 0 <= i < |a|
      ensures cmp(a[i].key, key) > 0
    {
      assert a[i] == s[|b| + 1 + i];
      assert cmp(a[i].key, n.key) > 0 && cmp(n.key, key) <= 0 && cmp(key, n.key) <= 0;
      LessTrans2(cmp, key, n.key, a[i].key);
    }
  }

  lemma LessTrans2(cmp: Comparator, x: Key, y: Key, z: Key)
    requires IsOrder(cmp) && cmp(x, y) <= 0 && cmp(y, z) < 0
    ensures cmp(x, z) < 0 && cmp(z, x) > 0
  {
    assert cmp(z, x) <= 0 ==> cmp(z, y) <= 0;
    assert cmp(z, y) > 0;
  }

  function First(s: seq<AvlNode>): AvlNode? {
    if s == [] then null else s[0]
  }

  function Last(s: seq<AvlNode>): AvlNode? {
    if s == [] then null else s[|s| - 1]
  }

  /** One step of a search by key to the right. */
  lemma WentRight(cmp: Comparator, c: Ctx, t: Tree, key: Key)
    requires IsOrder(cmp) && t.Node? && Sorted(cmp, Inorder(Plug(c, t))) && cmp(t.node.key, key) < 0
    ensures Plug(Below(RIGHT, t.node, t.left, c), t.right) == Plug(c, t)
    ensures AllBelow(cmp, Before(Below(RIGHT, t.node, t.left, c)), key) &&
        Last(Before(Below(RIGHT, t.node, t.left, c))) == t.node
    ensures After(Below(RIGHT, t.node, t.left, c)) == After(c)
  {
    PlugInorder(c, t);
    AroundRoot(c, t);
    BelowUpTo(cmp, Before(c) + Inorder(t.left), t.node, Inorder(t.right) + After(c), key);
  }

  /** One step of a search by key to the left. */
  lemma WentLeft(cmp: Comparator, c: Ctx, t: Tree, key: Key)
    requires IsOrder(cmp) && t.Node? && Sorted(cmp, Inorder(Plug(c, t))) && cmp(t.node.key, key) > 0
    ensures Plug(Below(LEFT, t.node, t.right, c), t.left) == Plug(c, t)
    ensures AllAbove(cmp, After(Below(LEFT, t.node, t.right, c)), key) &&
        First(After(Below(LEFT, t.node, t.right, c))) == t.node
    ensures Before(Below(LEFT, t.node, t.right, c)) == Before(c)
  {
    PlugInorder(c, t);
    AroundRoot(c, t);
    AboveFrom(cmp, Before(c) + Inorder(t.left), t.node, Inorder(t.right) + After(c), key);
  }

  lemma NoneEqual(cmp: Comparator, s: seq<AvlNode>, i: nat, key: Key)
    requires i <= |s| && AllBelow(cmp, s[..i], key) && AllAbove(cmp, s[i..], key)
    ensures forall n :: n in s ==> cmp(n.key, key) != 0
  {
    forall n | n in s
      ensures cmp(n.key, key) != 0
    {
      var j :| 0 <= j < |s| && s[j] == n;
      assert if j < i then n == s[..i][j] else n == s[i..][j - i];
    }
  }

  /** A search by key that stopped at an equal node. */
  lemma StoppedAt(cmp: Comparator, c: Ctx, t: Tree, key: Key) returns (i: nat)
    requires IsOrder(cmp) && t.Node? && Sorted(cmp, Inorder(Plug(c, t))) && cmp(t.node.key, key) == 0
    ensures i < |Inorder(Plug(c, t))| && Inorder(Plug(c, t))[i] == t.node
    ensures AllBelow(cmp, Inorder(Plug(c, t))[..i], key) && AllAbove(cmp, Inorder(Plug(c, t))[i + 1..], key)
  {
    PlugInorder(c, t);
    AroundRoot(c, t);
    var b, a := Before(c) + Inorder(t.left), Inorder(t.right) + After(c);
    EqualAt(cmp, b, t.node, a, key);
    i := |b|;
    CutAround(b, t.node, a);
  }

  /** A search by key that ran into an empty place. */
  lemma StoppedBetween(c: Ctx) returns (i: nat)
    ensures i <= |Inorder(Plug(c, Leaf))|
    ensures Inorder(Plug(c, Leaf))[..i] == Before(c) && Inorder(Plug(c, Leaf))[i..] == After(c)
  {
    PlugInorder(c, Leaf);
    i := |Before(c)|;
    assert Inorder(Plug(c, Leaf)) == Before(c) + After(c);
  }

  lemma CutAround<T>(b: seq<T>, n: T, a: seq<T>)
    ensures (b + [n] + a)[..|b|] == b && (b + [n] + a)[|b|] == n && (b + [n] + a)[|b| + 1..] == a
  {
  }

  /** The in-order sequence split at the root of the tree in the hole. */
  lemma AroundRoot(c: Ctx, t: Tree)
    requires t.Node?
    ensures Before(c) + Inorder(t) + After(c)
         == (Before(c) + Inorder(t.left)) + [t.node] + (Inorder(t.right) + After(c))
    ensures [t.node] + (Inorder(t.right) + After(c)) == [t.node] + Inorder(t.right) + After(c)
  {
    RegroupAround(Before(c), Inorder(t.left), [t.node], Inorder(t.right), After(c));
  }

  lemma RegroupAround<T>(b: seq<T>, l: seq<T>, n: seq<T>, r: seq<T>, a: seq<T>)
    ensures b + (l + n + r) + a == (b + l) + n + (r + a)
    ensures n + (r + a) == n + r + a
  {
  }

  lemma LessTrans(cmp: Comparator, x: Key, y: Key, z: Key)
    requires IsOrder(cmp) && cmp(x, y) < 0 && cmp(y, z) <= 0
    ensures cmp(x, z) < 0 && cmp(z, x) > 0
  {
    assert cmp(z, x) <= 0 ==> cmp(y, x) <= 0;
    assert cmp(y, x) > 0;
  }

  lemma OuterOrder<T>(b: seq<T>, l: seq<T>, r: seq<T>, a: seq<T>)
    ensures b + (l + r) + a == b + l + (r + a)
    ensures b == [] && a == [] ==> l + r == b + l + (r + a)
  {
    if b == [] && a == [] {
      assert b + l == l && r + a == r;
    }
  }

  lemma SortedWithout(cmp: Comparator, s: seq<AvlNode>, i: nat)
    requires i < |s| && Sorted(cmp, s)
    ensures Sorted(cmp, s[..i] + s[i + 1..])
  {
  }

  lemma LastBeforeRoot(b: seq<AvlNode>, l: seq<AvlNode>, n: AvlNode, r: seq<AvlNode>, a: seq<AvlNode>)
    requires l != []
    ensures var s := b + (l + [n] + r) + a; n in s && exists i :: 0 < i < |s| && s[i] == n && s[i - 1] == l[|l| - 1]
  {
    var s, i := b + (l + [n] + r) + a, |b| + |l|;
    assert s[i] == n && s[i - 1] == l[|l| - 1];
  }

  lemma OnlyPlace(b: seq<AvlNode>, l: seq<AvlNode>, n: AvlNode, r: seq<AvlNode>, a: seq<AvlNode>, all: seq<AvlNode>)
    requires all == b + (l + [n] + r) + a
    requires forall i, j :: 0 <= i < j < |all| ==> all[i] != all[j]
    ensures all == b + l + [n] + r + a
    ensures forall j :: 0 <= j < |all| && all[j] == n <==> j == |b + l|
  {
    assert all == b + l + [n] + r + a;
    assert all[|b + l|] == n;
  }

  lemma NullLinks(l: Tree, node: AvlNode, r: Tree)
    requires Linked(Node(l, node, r), node, node.parent)
    ensures |node.link| == 2 && (node.link[LEFT] == null <==> l.Leaf?) && (node.link[RIGHT] == null <==> r.Leaf?)
  {
    assert Linked(l, node.link[LEFT], node) && Linked(r, node.link[RIGHT], node);
  }

  class AvlTree {
    var root: AvlNode?
    ghost var tree: Tree

    ghost predicate Valid()
      reads this, Nodes(tree)
    {
      Linked(tree, root, null) && Balanced(tree)
    }

    /** The nodes of the tree from lowest to highest. */
    ghost function Contents(): seq<AvlNode>
      reads this
    {
      Inorder(tree)
    }

    constructor ()
      ensures Valid() && Contents() == []
    {
      root := null;
      tree := Leaf;
    }

    /** link_parent: hang `subroot` where `scan` hung; -1 when that was the root. */
    method LinkParent(scan: AvlNode, subroot: AvlNode, parent: AvlNode?, ghost c: Ctx, ghost u: Tree) returns (dir: int)
      requires CtxLinked(c, scan, parent, root, null)
      requires Linked(u, subroot, subroot.parent) && Nodes(u) !! CtxNodes(c) && scan in Nodes(u)
      modifies this`root, CtxNodes(c)`link, {subroot}`parent
      ensures CtxLinked(c, subroot, parent, root, null) && Linked(u, subroot, parent)
      ensures c.Top? ==> dir == -1 && parent == null
      ensures c.Below? ==> dir == c.dir && parent == c.node
    {
      if parent == null {
        root := subroot;
        subroot.parent := null;
        dir := -1;
      } else {
        dir := if parent.link[1] == scan then 1 else 0;
        parent.link := parent.link[dir := subroot];
        subroot.parent := parent;
      }
    }

    /** LinkParent below a context that expects height e. */
    method Rehook(scan: AvlNode, subroot: AvlNode, parent: AvlNode?, ghost c: Ctx, ghost u: Tree,
                  ghost e: nat) returns (dir: int)
      requires CtxLinked(c, scan, parent, root, null)
      requires Linked(u, subroot, subroot.parent) && Nodes(u) !! CtxNodes(c) && scan in Nodes(u)
      requires Balanced(u) && CtxBalanced(c, e)
      modifies this`root, CtxNodes(c)`link, {subroot}`parent
      ensures Split(c, u, subroot, parent) && Balanced(u) && CtxBalanced(c, e) && subroot.parent == parent
      ensures c.Top? ==> dir == -1 && parent == null
      ensures c.Below? ==> dir == c.dir && parent == c.node
    {
      assert allocated(Nodes(u)) && allocated(CtxNodes(c));
      label Start:
      dir := LinkParent(scan, subroot, parent, c, u);
      BalanceUntouched@Start(u);
      CtxBalanceKept@Start(c, e);
    }

    /** LinkParent as the last pointer change of an operation. */
    method Reattach(scan: AvlNode, subroot: AvlNode, parent: AvlNode?, ghost c: Ctx, ghost u: Tree, ghost h: nat)
      requires CtxLinked(c, scan, parent, root, null)
      requires Linked(u, subroot, subroot.parent) && Nodes(u) !! CtxNodes(c) && scan in Nodes(u)
      requires Balanced(u) && Height(u) == h && CtxBalanced(c, h)
      modifies this, CtxNodes(c)`link, {subroot}`parent
      ensures Whole(c, u)
    {
      var _ := Rehook(scan, subroot, parent, c, u, h);
      Closed(c, u, subroot, parent, root);
      tree := Plug(c, u);
    }

    /** The tree is cut open: t hangs, at pointer p, in the hole of c. */
    ghost predicate Split(c: Ctx, t: Tree, p: AvlNode?, parent: AvlNode?)
      reads this`root, Nodes(t), CtxNodes(c)
    {
      Linked(t, p, parent) && CtxLinked(c, p, parent, root, null) && Nodes(t) !! CtxNodes(c)
    }

    /** The tree is whole again and holds what c and t held. */
    ghost predicate Whole(c: Ctx, t: Tree)
      reads this, Nodes(tree)
    {
      Valid() && Contents() == Before(c) + Inorder(t) + After(c) && Nodes(tree) == Nodes(t) + CtxNodes(c)
    }

    /** Case 0 of AVL_AddNode: the lower side caught up. */
    method SettleAdd(scan: AvlNode, ghost c: Ctx, ghost t: Tree, ghost p: AvlNode?, ghost h: nat)
      requires c.Below? && c.node == scan && Split(c, t, p, scan)
      requires Balanced(t) && Height(t) == h + 1 && CtxBalanced(c, h)
      requires 0 == c.dir * 2 - 1 + scan.balance
      modifies this, {scan}`balance
      ensures Whole(c, t)
    {
      ghost var hs: nat := Height(c.sibling);
      SettleNumbers(c, h, hs);
      label Step:
      assert allocated(Nodes(t)) && allocated(CtxNodes(c));
      scan.balance := 0;
      LinksKept@Step(c, t, p, scan, root, scan);
      BalanceUntouched@Step(t);
      CtxRebalanced@Step(c, h, h + 1);
      Closed(c, t, p, scan, root);
      tree := Plug(c, t);
    }

    /** Cases 2 and -2 of AVL_AddNode, up to link_parent. */
    method RotateHigh(scan: AvlNode, dir: Dir, ghost c: Ctx, ghost t: Tree, ghost p: AvlNode?, ghost h: nat)
      returns (subroot: AvlNode, ghost u: Tree)
      requires c.Below? && c.node == scan && c.dir == dir && Split(c, t, p, scan)
      requires Balanced(t) && Height(t) == h + 1 && CtxBalanced(c, h) && t.Node? && t.node.balance != 0
      requires dir * 2 - 1 + scan.balance == 2 || dir * 2 - 1 + scan.balance == -2
      modifies {scan} + Nodes(t) + Nodes(c.sibling)
      ensures CtxLinked(c.up, scan, old(scan.parent), root, null) && CtxBalanced(c.up, h + 1)
      ensures Linked(u, subroot, subroot.parent) && Nodes(u) !! CtxNodes(c.up) && scan in Nodes(u)
      ensures Balanced(u) && Height(u) == h + 1
      ensures Before(c.up) + Inorder(u) + After(c.up) == Before(c) + Inorder(t) + After(c)
      ensures Nodes(u) + CtxNodes(c.up) == Nodes(t) + CtxNodes(c)
    {
      hide CtxLinked, CtxBalanced, Linked, Balanced, Before, After, Inorder, Height, Plug, Heavy;
      SideOfHole(c, t, p, root);
      var next := scan.link[dir];
      ghost var hs: nat := Height(c.sibling);
      RotateNumbers(c, h, hs);
      ghost var low, whole := ReadyToRotate(c, t, p, root);
      assert allocated(CtxNodes(c.up));
      label Start:
      ghost var above := scan.parent;
      subroot, u := FixAfterAdd(scan, next, Other(dir), c.sibling, t, above);
      CtxKept@Start(c.up, scan, above, root, h + 1);
    }

    /** Cases 2 and -2 of AVL_AddNode: one rotation restores the old height. */
    method RotateAdd(scan: AvlNode, dir: Dir, ghost c: Ctx, ghost t: Tree, ghost p: AvlNode?, ghost h: nat)
      requires c.Below? && c.node == scan && c.dir == dir && Split(c, t, p, scan)
      requires Balanced(t) && Height(t) == h + 1 && CtxBalanced(c, h) && t.Node? && t.node.balance != 0
      requires dir * 2 - 1 + scan.balance == 2 || dir * 2 - 1 + scan.balance == -2
      modifies this, Nodes(t), CtxNodes(c)
      ensures Whole(c, t)
    {
      hide CtxLinked, CtxBalanced, Balanced, Before, After, Inorder, Height;
      var parent := scan.parent;
      ghost var u;
      var subroot;
      subroot, u := RotateHigh(scan, dir, c, t, p, h);
      Reattach(scan, subroot, parent, c.up, u, h + 1);
    }

    /** The default case of AVL_AddNode: scan leans more and its parent is next. */
    method LeanAdd(scan: AvlNode, dir: Dir, bal: int, ghost c: Ctx, ghost t: Tree, ghost p: AvlNode?,
                   ghost h: nat) returns (ghost u: Tree)
      requires c.Below? && c.node == scan && c.dir == dir && Split(c, t, p, scan)
      requires Balanced(t) && Height(t) == h + 1 && CtxBalanced(c, h)
      requires bal == dir * 2 - 1 + scan.balance && bal != 0 && bal != 2 && bal != -2
      modifies {scan}`balance
      ensures u.Node? && u.node == scan && scan.balance != 0
      ensures Split(c.up, u, scan, scan.parent)
      ensures Balanced(u) && Height(u) == h + 2 && CtxBalanced(c.up, h + 1)
      ensures Before(c.up) + Inorder(u) + After(c.up) == Before(c) + Inorder(t) + After(c)
      ensures Nodes(u) + CtxNodes(c.up) == Nodes(t) + CtxNodes(c)
    {
      ghost var hs: nat := Height(c.sibling);
      LeanNumbers(c, h, hs, bal);
      label Step:
      assert allocated(Nodes(t)) && allocated(CtxNodes(c));
      scan.balance := bal;
      u := Lifted@Step(c, t, p, root, h, h + 1, hs, h, h + 1);
    }

    /** The climb passed the root: nothing is left of the context. */
    ghost method CloseAtRoot(c: Ctx, t: Tree, p: AvlNode?, h: nat)
      requires Split(c, t, p, null) && Balanced(t)
      modifies this`tree
      ensures Whole(c, t)
    {
      Closed(c, t, p, null, root);
      tree := Plug(c, t);
    }

    /** The default case with the step to the parent. */
    method LeanStep(scan: AvlNode, dir: Dir, bal: int, ghost c: Ctx, ghost t: Tree, ghost p: AvlNode?, ghost h: nat)
      returns (done: bool, nextScan: AvlNode?, nextDir: Dir, ghost u: Tree, ghost q: AvlNode?, ghost k: nat)
      requires c.Below? && c.node == scan && c.dir == dir && Split(c, t, p, scan)
      requires Balanced(t) && Height(t) == h + 1 && CtxBalanced(c, h)
      requires bal == dir * 2 - 1 + scan.balance && bal != 0 && bal != 2 && bal != -2
      modifies this`tree, {scan}`balance
      ensures done ==> Whole(c, t)
      ensures !done ==> c.up.Below? && c.up.node == nextScan && c.up.dir == nextDir && Split(c.up, u, q, nextScan)
      ensures !done ==> Balanced(u) && Height(u) == k + 1 && CtxBalanced(c.up, k) && u.node.balance != 0
      ensures !done ==> Before(c.up) + Inorder(u) + After(c.up) == Before(c) + Inorder(t) + After(c)
      ensures !done ==> Nodes(u) + CtxNodes(c.up) == Nodes(t) + CtxNodes(c)
    {
      u := LeanAdd(scan, dir, bal, c, t, p, h);
      q, k := scan, h + 1;
      nextScan, nextDir := scan.parent, LEFT;
      done := nextScan == null;
      if done {
        CloseAtRoot(c.up, u, q, h + 2);
      } else {
        SideOfHole(c.up, u, q, root);
        nextDir := if nextScan.link[1] == scan then 1 else 0;
      }
    }

    /** One round of the balance update loop of AVL_AddNode. */
    method AddStep(scan: AvlNode, dir: Dir, ghost c: Ctx, ghost t: Tree, ghost p: AvlNode?, ghost h: nat)
      returns (done: bool, nextScan: AvlNode?, nextDir: Dir, ghost u: Tree, ghost q: AvlNode?, ghost k: nat)
      requires c.Below? && c.node == scan && c.dir == dir && Split(c, t, p, scan)
      requires Balanced(t) && Height(t) == h + 1 && CtxBalanced(c, h)
      requires t.node.balance != 0 || h == 0
      modifies this, Nodes(t), CtxNodes(c)
      ensures done ==> Whole(c, t)
      ensures !done ==> c.up.Below? && c.up.node == nextScan && c.up.dir == nextDir && Split(c.up, u, q, nextScan)
      ensures !done ==> Balanced(u) && Height(u) == k + 1 && CtxBalanced(c.up, k) && u.node.balance != 0
      ensures !done ==> Before(c.up) + Inorder(u) + After(c.up) == Before(c) + Inorder(t) + After(c)
      ensures !done ==> Nodes(u) + CtxNodes(c.up) == Nodes(t) + CtxNodes(c)
    {
      hide CtxLinked, CtxBalanced, Linked, Balanced, Before, After, Inorder;
      var bal: int := dir as int * 2 - 1 + scan.balance;
      done, nextScan, nextDir, u, q, k := true, null, LEFT, t, p, h;
      if bal == 0 {
        SettleAdd(scan, c, t, p, h);
      } else if bal == 2 || bal == -2 {
        EvenLeafStaysLow(c, t, h);
        RotateAdd(scan, dir, c, t, p, h);
      } else {
        done, nextScan, nextDir, u, q, k := LeanStep(scan, dir, bal, c, t, p, h);
      }
    }

    /** The balance update loop of AVL_AddNode: t0 grew by one and hangs at side dir0 of scan0. */
    method ClimbAfterAdd(scan0: AvlNode, dir0: Dir, ghost c0: Ctx, ghost t0: Tree, ghost p0: AvlNode?, ghost h0: nat)
      returns (ghost steps: nat)
      requires c0.Below? && c0.node == scan0 && c0.dir == dir0 && Split(c0, t0, p0, scan0)
      requires Balanced(t0) && Height(t0) == h0 + 1 && CtxBalanced(c0, h0)
      requires t0.node.balance != 0 || h0 == 0
      modifies this, Nodes(t0), CtxNodes(c0)
      ensures Whole(c0, t0)
      ensures steps <= Depth(c0)
    {
      var done, scan, dir := false, scan0, dir0;
      ghost var c, t, p, h := c0, t0, p0, h0;
      steps := 0;
      while !done
        invariant done ==> Whole(c0, t0)
        invariant steps + Depth(c) == Depth(c0)
        invariant !done ==> c.Below? && c.node == scan && c.dir == dir && Split(c, t, p, scan)
        invariant !done ==> Balanced(t) && Height(t) == h + 1 && CtxBalanced(c, h)
        invariant !done ==> t.node.balance != 0 || h == 0
        invariant !done ==> Before(c) + Inorder(t) + After(c) == Before(c0) + Inorder(t0) + After(c0)
        invariant !done ==> Nodes(t) + CtxNodes(c) == Nodes(t0) + CtxNodes(c0)
        decreases !done, c
      {
        var nextScan;
        done, nextScan, dir, t, p, h := AddStep(scan, dir, c, t, p, h);
        c, steps := c.up, steps + 1;
        if !done {
          scan := nextScan;
        }
      }
    }

    /** A search for key has come to next, the root of the subtree t in the hole of c. */
    ghost predicate Searching(c: Ctx, t: Tree, next: AvlNode?, above: AvlNode?, key: Key, cmp: Comparator)
      reads this, Nodes(t), CtxNodes(c)
    {
      && tree == Plug(c, t) && Split(c, t, next, above)
      && AllBelow(cmp, Before(c), key) && AllAbove(cmp, After(c), key)
    }

    lemma SearchHere(c: Ctx, t: Tree, next: AvlNode, above: AvlNode?, key: Key, cmp: Comparator)
      requires Searching(c, t, next, above, key, cmp)
      ensures t.Node? && t.node == next && next in Contents() && |next.link| == 2 && Depth(c) < Height(tree)
    {
      hide AllBelow, AllAbove, Before, After, CtxLinked;
      NodesInorder(tree);
      PlugNodes(c, t);
      PlugHeight(c, t);
    }

    lemma SearchRight(c: Ctx, t: Tree, next: AvlNode, above: AvlNode?, key: Key, cmp: Comparator)
      requires IsOrder(cmp) && Sorted(cmp, Contents()) && cmp(next.key, key) < 0
      requires Searching(c, t, next, above, key, cmp) && t.Node? && t.node == next
      ensures |next.link| == 2 && Searching(Below(RIGHT, next, t.left, c), t.right, next.link[1], next, key, cmp)
    {
      hide AllBelow, AllAbove, Before, After, IsOrder, Sorted, Plug;
      WentRight(cmp, c, t, key);
    }

    lemma SearchLeft(c: Ctx, t: Tree, next: AvlNode, above: AvlNode?, key: Key, cmp: Comparator)
      requires IsOrder(cmp) && Sorted(cmp, Contents()) && cmp(next.key, key) > 0
      requires Searching(c, t, next, above, key, cmp) && t.Node? && t.node == next
      ensures |next.link| == 2 && Searching(Below(LEFT, next, t.right, c), t.left, next.link[0], next, key, cmp)
    {
      hide AllBelow, AllAbove, Before, After, IsOrder, Sorted, Plug;
      WentLeft(cmp, c, t, key);
    }

    lemma SearchBegins(key: Key, cmp: Comparator)
      requires Valid()
      ensures Searching(Top, tree, root, null, key, cmp)
    {
    }

    lemma SearchOver(c: Ctx, t: Tree, above: AvlNode?, key: Key, cmp: Comparator)
      requires Searching(c, t, null, above, key, cmp)
      ensures t == Leaf && Depth(c) <= Height(tree)
    {
      hide AllBelow, AllAbove, Before, After, CtxLinked;
      PlugHeight(c, t);
    }

    /** The search loop of AVL_AddNode: an equal node, or the empty place where the key belongs. */
    method FindPlace(key: Key, cmp: Comparator)
      returns (found: AvlNode?, scan: AvlNode?, dir: Dir, ghost c: Ctx, ghost steps: nat)
      requires Valid() && IsOrder(cmp) && Sorted(cmp, Contents()) && root != null
      ensures found != null ==> found in Contents() && cmp(found.key, key) == 0
      ensures found == null ==>
        && scan != null && c.Below? && c.node == scan && c.dir == dir && Split(c, Leaf, null, scan)
        && tree == Plug(c, Leaf) && AllBelow(cmp, Before(c), key) && AllAbove(cmp, After(c), key)
      ensures steps <= Height(tree) && Depth(c) <= Height(tree)
      ensures Pow(1.618, steps) <= (|Contents()| + 1) as real
    {
      HeightIsLogarithmic(tree);
      SearchBegins(key, cmp);
      hide Split, Plug, Before, After, AllBelow, AllAbove, Sorted, IsOrder, Pow, Balanced, Linked, CtxLinked, Height;
      var next := root;
      scan, dir, found := null, LEFT, null;
      c, steps := Top, 0;
      ghost var t := tree;
      while next != null
        invariant steps == Depth(c) && (next != null || c.Below?)
        invariant Searching(c, t, next, scan, key, cmp)
        invariant c.Below? ==> c.node == scan && c.dir == dir
        decreases t
      {
        SearchHere(c, t, next, scan, key, cmp);
        ghost var above := scan;
        scan, steps := next, steps + 1;
        var order := cmp(scan.key, key);
        if order == 0 {
          found := scan;
          break;
        }
        dir := if order < 0 then 1 else 0;
        next := scan.link[dir];
        if order < 0 {
          SearchRight(c, t, scan, above, key, cmp);
          c, t := Below(RIGHT, scan, t.left, c), t.right;
        } else {
          SearchLeft(c, t, scan, above, key, cmp);
          c, t := Below(LEFT, scan, t.right, c), t.left;
        }
      }
      if found == null {
        SearchOver(c, t, scan, key, cmp);
      }
      PowMonotone(steps, Height(tree));
    }

    /** The `insert` step of AVL_AddNode: the new node becomes a leaf in the hole of c. */
    method HangLeaf(node: AvlNode, scan: AvlNode, dir: Dir, ghost c: Ctx)
      requires c.Below? && c.node == scan && c.dir == dir && Split(c, Leaf, null, scan)
      requires CtxBalanced(c, 0) && node !in CtxNodes(c)
      modifies node, {scan}`link
      ensures Split(c, Node(Leaf, node, Leaf), node, scan)
      ensures Balanced(Node(Leaf, node, Leaf)) && CtxBalanced(c, 0)
    {
      assert allocated(CtxNodes(c));
      label Start:
      node.parent := scan;
      scan.link := scan.link[dir := node];
      node.link := [null, null];
      node.balance := 0;
      HoleFilled@Start(c, null, node, root);
      CtxBalanceKept@Start(c, 0);
    }

    /** AVL_AddNode: a node with an equal key, or null when the new node was added; looked and climbed
        count the rounds of its two loops. */
    method AddNode(node: AvlNode, cmp: Comparator) returns (found: AvlNode?, ghost looked: nat, ghost climbed: nat)
      requires Valid() && IsOrder(cmp) && Sorted(cmp, Contents())
      modifies this, Nodes(tree), node
      ensures Valid() && Sorted(cmp, Contents())
      ensures found == null <==> forall n :: n in old(Contents()) ==> cmp(n.key, node.key) != 0
      ensures found != null ==>
        && found in old(Contents()) && cmp(found.key, node.key) == 0
        && unchanged(this) && unchanged(node)
      ensures found == null ==> exists k ::
        && 0 <= k <= |old(Contents())|
        && Contents() == old(Contents())[..k] + [node] + old(Contents())[k..]
      ensures Pow(1.618, looked) <= (|old(Contents())| + 1) as real
      ensures Pow(1.618, climbed) <= (|old(Contents())| + 1) as real
    {
      assert allocated(Nodes(tree));
      ghost var height := Height(tree);
      HeightIsLogarithmic(tree);
      hide Linked, Balanced, Plug, Before, After, AllBelow, AllAbove, IsOrder, Pow, Height, Nodes, Sorted, Inorder;
      found, looked, climbed := null, 0, 0;
      if root == null {
        PlantRoot(node, cmp);
        assert Contents() == old(Contents())[..0] + [node] + old(Contents())[0..];
      } else {
        found, looked, climbed := AddBelow(node, cmp);
      }
      PowMonotone(looked, height);
      PowMonotone(climbed, height);
    }

    /** AVL_AddNode on a tree that is not empty. */
    method AddBelow(node: AvlNode, cmp: Comparator) returns (found: AvlNode?, ghost looked: nat, ghost climbed: nat)
      requires Valid() && IsOrder(cmp) && Sorted(cmp, Contents()) && root != null
      modifies this, Nodes(tree), node
      ensures Valid() && Sorted(cmp, Contents())
      ensures found == null <==> forall n :: n in old(Contents()) ==> cmp(n.key, node.key) != 0
      ensures found != null ==>
        && found in old(Contents()) && cmp(found.key, node.key) == 0
        && unchanged(this) && unchanged(node)
      ensures found == null ==> exists k ::
        && 0 <= k <= |old(Contents())|
        && Contents() == old(Contents())[..k] + [node] + old(Contents())[k..]
      ensures looked <= old(Height(tree)) && climbed <= old(Height(tree))
    {
      assert allocated(Nodes(tree));
      hide Linked, Balanced, Split, Plug, Before, After, AllBelow, AllAbove, IsOrder, Pow, Height, Nodes, Sorted,
          Inorder;
      climbed := 0;
      var scan, dir;
      ghost var c;
      found, scan, dir, c, looked := FindPlace(node.key, cmp);
      if found == null {
        PlaceInContents(c, node, cmp);
        climbed := AddAt(node, scan, dir, c);
      }
    }

    /** Simple case of AVL_AddNode: the tree was empty. */
    method PlantRoot(node: AvlNode, ghost cmp: Comparator)
      requires Valid() && root == null
      modifies this, node
      ensures Valid() && old(Contents()) == [] && Contents() == [node] && Sorted(cmp, Contents())
    {
      root := node;
      node.link, node.parent, node.balance := [null, null], null, 0;
      tree := Node(Leaf, node, Leaf);
      assert Inorder(tree) == [node];
    }

    static lemma NotListed(cmp: Comparator, below: seq<AvlNode>, above: seq<AvlNode>, node: AvlNode)
      requires IsOrder(cmp) && AllBelow(cmp, below, node.key) && AllAbove(cmp, above, node.key)
      ensures node !in below + above
    {
      assert cmp(node.key, node.key) == 0;
    }

    /** The new node's place in the sorted sequence. */
    lemma PlaceInContents(c: Ctx, node: AvlNode, cmp: Comparator)
      requires IsOrder(cmp) && tree == Plug(c, Leaf) && Sorted(cmp, Contents())
      requires AllBelow(cmp, Before(c), node.key) && AllAbove(cmp, After(c), node.key)
      ensures Contents() == Before(c) + After(c)
      ensures Contents()[..|Before(c)|] == Before(c) && Contents()[|Before(c)|..] == After(c)
      ensures Sorted(cmp, Before(c) + [node] + After(c))
      ensures node !in Nodes(tree) && forall m :: m in Contents() ==> cmp(m.key, node.key) != 0
    {
      hide Plug, Before, After, Nodes, Sorted, AllBelow, AllAbove, IsOrder;
      PlugInorder(c, Leaf);
      NodesInorder(tree);
      assert Contents() == Before(c) + After(c);
      SortedWith(cmp, Before(c), node, After(c));
      NotListed(cmp, Before(c), After(c), node);
    }

    /** AVL_AddNode from `insert` on. */
    method AddAt(node: AvlNode, scan: AvlNode, dir: Dir, ghost c: Ctx) returns (ghost steps: nat)
      requires Valid() && tree == Plug(c, Leaf) && node !in Nodes(tree)
      requires c.Below? && c.node == scan && c.dir == dir && Split(c, Leaf, null, scan)
      modifies this, Nodes(tree), node
      ensures Valid() && Contents() == Before(c) + [node] + After(c) && steps <= Depth(c)
    {
      PlugNodes(c, Leaf);
      UnplugBalanced(c, Leaf);
      HangLeaf(node, scan, dir, c);
      steps := ClimbAfterAdd(scan, dir, c, Node(Leaf, node, Leaf), node, 0);
      assert Inorder(Node(Leaf, node, Leaf)) == [node];
    }

    // ---------- AVL_RemNodeByAddress: the climb ----------

    /** Cases 1 and -1 of the removal climb: the height above is what it was. */
    method StopRemove(scan: AvlNode, bal: int, ghost c: Ctx, ghost t: Tree, ghost p: AvlNode?, ghost h: nat)
      requires c.Below? && c.node == scan && Split(c, t, p, scan)
      requires Balanced(t) && Height(t) == h && CtxBalanced(c, h + 1)
      requires bal == scan.balance - (c.dir * 2 - 1) && (bal == 1 || bal == -1)
      modifies this, {scan}`balance
      ensures Whole(c, t)
    {
      hide Plug, Nodes, CtxLinked, CtxBalanced, Linked, Balanced, Before, After, Inorder, Height;
      ghost var hs: nat := Height(c.sibling);
      StopNumbers(c, h, hs, bal);
      label Step:
      assert allocated(Nodes(t)) && allocated(CtxNodes(c));
      scan.balance := bal;
      LinksKept@Step(c, t, p, scan, root, scan);
      BalanceUntouched@Step(t);
      CtxRebalanced@Step(c, h + 1, h);
      Closed(c, t, p, scan, root);
      tree := Plug(c, t);
    }

    /** Case 0 of the removal climb: scan is level now and one lower than before. */
    method LevelRemove(scan: AvlNode, ghost c: Ctx, ghost t: Tree, ghost p: AvlNode?,
                       ghost h: nat) returns (ghost u: Tree)
      requires c.Below? && c.node == scan && Split(c, t, p, scan)
      requires Balanced(t) && Height(t) == h && CtxBalanced(c, h + 1)
      requires scan.balance - (c.dir * 2 - 1) == 0
      modifies {scan}`balance
      ensures u.Node? && u.node == scan && Split(c.up, u, scan, scan.parent)
      ensures Balanced(u) && Height(u) == h + 1 && CtxBalanced(c.up, h + 2)
      ensures Before(c.up) + Inorder(u) + After(c.up) == Before(c) + Inorder(t) + After(c)
      ensures Nodes(u) + CtxNodes(c.up) == Nodes(t) + CtxNodes(c)
    {
      hide Plug, Nodes, CtxLinked, CtxBalanced, Linked, Balanced, Before, After, Inorder, Height;
      ghost var hs: nat := Height(c.sibling);
      LevelNumbers(c, h, hs);
      label Step:
      assert allocated(Nodes(t)) && allocated(CtxNodes(c));
      scan.balance := 0;
      u := Lifted@Step(c, t, p, root, h + 1, h, hs, h + 1, h);
    }

    /** Cases 2 and -2 of the removal climb, up to link_parent. */
    method RotateLow(scan: AvlNode, dir: Dir, ghost c: Ctx, ghost t: Tree, ghost p: AvlNode?, ghost h: nat)
      returns (subroot: AvlNode, stop: bool, ghost u: Tree)
      requires c.Below? && c.node == scan && c.dir == dir && Split(c, t, p, scan)
      requires Balanced(t) && Height(t) == h && CtxBalanced(c, h + 1)
      requires scan.balance - (dir * 2 - 1) == 2 || scan.balance - (dir * 2 - 1) == -2
      modifies {scan} + Nodes(t) + Nodes(c.sibling)
      ensures CtxLinked(c.up, scan, old(scan.parent), root, null) && CtxBalanced(c.up, h + 3)
      ensures Linked(u, subroot, subroot.parent) && Nodes(u) !! CtxNodes(c.up) && scan in Nodes(u)
      ensures Balanced(u) && Height(u) == if stop then h + 3 else h + 2
      ensures Before(c.up) + Inorder(u) + After(c.up) == Before(c) + Inorder(t) + After(c)
      ensures Nodes(u) + CtxNodes(c.up) == Nodes(t) + CtxNodes(c)
    {
      hide CtxLinked, CtxBalanced, Linked, Balanced, Before, After, Inorder, Height, Plug;
      ghost var hs: nat := Height(c.sibling);
      RotateLowNumbers(c, h, hs);
      HeavySibling(c, p, root);
      var next := scan.link[Other(dir)];
      StepUp(c, t, p, root);
      assert allocated(CtxNodes(c.up));
      label Start:
      ghost var above := scan.parent;
      subroot, stop, u := FixAfterRemove(scan, next, dir, t, c.sibling, above);
      CtxKept@Start(c.up, scan, above, root, h + 3);
    }

    /** link_parent after a rotation; the climb is over when the height is kept or the root was reached. */
    method RelinkLow(scan: AvlNode, subroot: AvlNode, parent: AvlNode?, stop: bool, ghost c: Ctx, ghost u: Tree,
                     ghost h: nat)
      returns (done: bool, dir: Dir)
      requires CtxLinked(c, scan, parent, root, null) && CtxBalanced(c, h + 1)
      requires Linked(u, subroot, subroot.parent) && Nodes(u) !! CtxNodes(c) && scan in Nodes(u)
      requires Balanced(u) && Height(u) == if stop then h + 1 else h
      modifies this, CtxNodes(c)`link, {subroot}`parent
      ensures done ==> Whole(c, u)
      ensures !done ==> !stop && c.Below? && c.dir == dir && c.node == parent
      ensures !done ==> Split(c, u, subroot, parent) && Balanced(u) && CtxBalanced(c, h + 1)
    {
      dir, done := LEFT, true;
      if stop {
        Reattach(scan, subroot, parent, c, u, h + 1);
        return;
      }
      var side := Rehook(scan, subroot, parent, c, u, h + 1);
      if side == -1 {
        CloseAtRoot(c, u, subroot, h);
      } else {
        dir, done := side, false;
      }
    }

    /** Case 0 with the step to the parent. */
    method LevelStep(scan: AvlNode, dir: Dir, ghost c: Ctx, ghost t: Tree, ghost p: AvlNode?, ghost h: nat)
      returns (done: bool, nextScan: AvlNode?, nextDir: Dir, ghost u: Tree, ghost q: AvlNode?, ghost k: nat)
      requires c.Below? && c.node == scan && c.dir == dir && Split(c, t, p, scan)
      requires Balanced(t) && Height(t) == h && CtxBalanced(c, h + 1)
      requires scan.balance - (c.dir * 2 - 1) == 0
      modifies this`tree, {scan}`balance
      ensures done ==> Whole(c, t)
      ensures !done ==> c.up.Below? && c.up.node == nextScan && c.up.dir == nextDir && Split(c.up, u, q, nextScan)
      ensures !done ==> Balanced(u) && Height(u) == k && CtxBalanced(c.up, k + 1)
      ensures !done ==> Before(c.up) + Inorder(u) + After(c.up) == Before(c) + Inorder(t) + After(c)
      ensures !done ==> Nodes(u) + CtxNodes(c.up) == Nodes(t) + CtxNodes(c)
    {
      u := LevelRemove(scan, c, t, p, h);
      q, k := scan, h + 1;
      nextScan, nextDir := scan.parent, LEFT;
      done := nextScan == null;
      if done {
        CloseAtRoot(c.up, u, q, k);
      } else {
        SideOfHole(c.up, u, q, root);
        nextDir := if nextScan.link[1] == scan then 1 else 0;
      }
    }

    /** Cases 2 and -2 with the step to the parent. */
    method RotateStep(scan: AvlNode, dir: Dir, ghost c: Ctx, ghost t: Tree, ghost p: AvlNode?, ghost h: nat)
      returns (done: bool, nextScan: AvlNode?, nextDir: Dir, ghost u: Tree, ghost q: AvlNode?, ghost k: nat)
      requires c.Below? && c.node == scan && c.dir == dir && Split(c, t, p, scan)
      requires Balanced(t) && Height(t) == h && CtxBalanced(c, h + 1)
      requires scan.balance - (dir * 2 - 1) == 2 || scan.balance - (dir * 2 - 1) == -2
      modifies this, Nodes(t), CtxNodes(c)
      ensures done ==> Whole(c, t)
      ensures !done ==> c.up.Below? && c.up.node == nextScan && c.up.dir == nextDir && Split(c.up, u, q, nextScan)
      ensures !done ==> Balanced(u) && Height(u) == k && CtxBalanced(c.up, k + 1)
      ensures !done ==> Before(c.up) + Inorder(u) + After(c.up) == Before(c) + Inorder(t) + After(c)
      ensures !done ==> Nodes(u) + CtxNodes(c.up) == Nodes(t) + CtxNodes(c)
    {
      nextScan := scan.parent;
      var subroot, stop;
      subroot, stop, u := RotateLow(scan, dir, c, t, p, h);
      q, k := subroot, h + 2;
      done, nextDir := RelinkLow(scan, subroot, nextScan, stop, c.up, u, k);
    }

    /** One round of the rebalancing loop of AVL_RemNodeByAddress. */
    method RemoveStep(scan: AvlNode, dir: Dir, ghost c: Ctx, ghost t: Tree, ghost p: AvlNode?, ghost h: nat)
      returns (done: bool, nextScan: AvlNode?, nextDir: Dir, ghost u: Tree, ghost q: AvlNode?, ghost k: nat)
      requires c.Below? && c.node == scan && c.dir == dir && Split(c, t, p, scan)
      requires Balanced(t) && Height(t) == h && CtxBalanced(c, h + 1)
      modifies this, Nodes(t), CtxNodes(c)
      ensures done ==> Whole(c, t)
      ensures !done ==> c.up.Below? && c.up.node == nextScan && c.up.dir == nextDir && Split(c.up, u, q, nextScan)
      ensures !done ==> Balanced(u) && Height(u) == k && CtxBalanced(c.up, k + 1)
      ensures !done ==> Before(c.up) + Inorder(u) + After(c.up) == Before(c) + Inorder(t) + After(c)
      ensures !done ==> Nodes(u) + CtxNodes(c.up) == Nodes(t) + CtxNodes(c)
    {
      hide CtxLinked, Linked, Balanced, Before, After, Inorder, Height;
      var bal: int := scan.balance - (dir as int * 2 - 1);
      if bal == 0 {
        done, nextScan, nextDir, u, q, k := LevelStep(scan, dir, c, t, p, h);
        return;
      }
      if bal == 1 || bal == -1 {
        StopRemove(scan, bal, c, t, p, h);
        return true, null, LEFT, t, p, h;
      }
      done, nextScan, nextDir, u, q, k := RotateStep(scan, dir, c, t, p, h);
    }

    /** The rebalancing loop of AVL_RemNodeByAddress: the tree at side dir0 of scan0 lost one level. */
    method ClimbAfterRemove(scan0: AvlNode, dir0: Dir, ghost c0: Ctx, ghost t0: Tree, ghost p0: AvlNode?, ghost h0: nat)
      returns (ghost steps: nat)
      requires c0.Below? && c0.node == scan0 && c0.dir == dir0 && Split(c0, t0, p0, scan0)
      requires Balanced(t0) && Height(t0) == h0 && CtxBalanced(c0, h0 + 1)
      modifies this, Nodes(t0), CtxNodes(c0)
      ensures Whole(c0, t0)
      ensures steps <= Depth(c0)
    {
      var done, scan, dir := false, scan0, dir0;
      ghost var c, t, p, h := c0, t0, p0, h0;
      steps := 0;
      while !done
        invariant done ==> Whole(c0, t0)
        invariant !done ==> c.Below? && c.node == scan && c.dir == dir && Split(c, t, p, scan)
        invariant !done ==> Balanced(t) && Height(t) == h && CtxBalanced(c, h + 1)
        invariant !done ==> Before(c) + Inorder(t) + After(c) == Before(c0) + Inorder(t0) + After(c0)
        invariant !done ==> Nodes(t) + CtxNodes(c) == Nodes(t0) + CtxNodes(c0)
        invariant steps + Depth(c) == Depth(c0)
        decreases !done, c
      {
        steps := steps + 1;
        var nextScan;
        done, nextScan, dir, t, p, h := RemoveStep(scan, dir, c, t, p, h);
        c := c.up;
        if !done {
          scan := nextScan;
        }
      }
    }

    // ---------- walking in address order ----------

    /** The loop down one side: the outermost node of the non-empty tree t at p. */
    method Outermost(p: AvlNode, dir: Dir, ghost t: Tree, ghost parent: AvlNode?)
      returns (r: AvlNode, ghost steps: nat)
      requires t.Node? && Linked(t, p, parent)
      ensures steps < Height(t)
      ensures r == if dir == LEFT then Inorder(t)[0] else Inorder(t)[|Inorder(t)| - 1]
    {
      r, steps := p, 0;
      ghost var u, above := t, parent;
      while r.link[dir] != null
        invariant steps + Height(u) <= Height(t)
        invariant u.Node? && Linked(u, r, above)
        invariant dir == LEFT ==> Inorder(u)[0] == Inorder(t)[0]
        invariant dir == RIGHT ==> Inorder(u)[|Inorder(u)| - 1] == Inorder(t)[|Inorder(t)| - 1]
        decreases u
      {
        above := r;
        r, steps := r.link[dir], steps + 1;
        u := Near(dir, u);
      }
    }

    /** AVL_FindFirstNode */
    method FindFirstNode() returns (r: AvlNode?, ghost steps: nat)
      requires Valid()
      ensures r == First(Contents())
      ensures steps <= Height(tree) && Pow(1.618, steps) <= (|Contents()| + 1) as real
    {
      HeightIsLogarithmic(tree);
      r, steps := root, 0;
      if r != null {
        r, steps := Outermost(r, LEFT, tree, null);
      }
      PowMonotone(steps, Height(tree));
    }

    /** AVL_FindLastNode */
    method FindLastNode() returns (r: AvlNode?, ghost steps: nat)
      requires Valid()
      ensures r == Last(Contents())
      ensures steps <= Height(tree) && Pow(1.618, steps) <= (|Contents()| + 1) as real
    {
      HeightIsLogarithmic(tree);
      r, steps := root, 0;
      if r != null {
        r, steps := Outermost(r, RIGHT, tree, null);
      }
      PowMonotone(steps, Height(tree));
    }

    /** Climbing while the child hangs on side dir: the nearest node on the other side of the path. */
    method ClimbOut(n: AvlNode, dir: Dir, ghost c0: Ctx, ghost t0: Tree)
      returns (r: AvlNode?, ghost steps: nat)
      requires t0.Node? && Split(c0, t0, n, n.parent)
      ensures steps <= Depth(c0)
      ensures dir == RIGHT ==> r == First(After(c0))
      ensures dir == LEFT ==> r == Last(Before(c0))
    {
      var child := n;
      r, steps := n.parent, 0;
      ghost var c, t := c0, t0;
      while r != null && (if r.link[1] == child then RIGHT else LEFT) == dir
        invariant t.Node? && Split(c, t, child, r) && r == child.parent
        invariant dir == RIGHT ==> After(c) == After(c0)
        invariant dir == LEFT ==> Before(c) == Before(c0)
        invariant steps + Depth(c) == Depth(c0)
        decreases c
      {
        SideOfHole(c, t, child, root);
        StepUp(c, t, child, root);
        t := Join(c.dir, t, c.node, c.sibling);
        c := c.up;
        child := r;
        r, steps := r.parent, steps + 1;
      }
      if r != null {
        SideOfHole(c, t, child, root);
      }
    }

    /** Where a node stands in the sequence, and what surrounds it. */
    lemma Standing(n: AvlNode) returns (c: Ctx, l: Tree, r: Tree, i: nat)
      requires Valid() && n in Contents()
      ensures tree == Plug(c, Node(l, n, r)) && Split(c, Node(l, n, r), n, n.parent)
      ensures i == |Before(c) + Inorder(l)|
      ensures Contents() == Before(c) + Inorder(l) + [n] + Inorder(r) + After(c)
      ensures forall j :: 0 <= j < |Contents()| && Contents()[j] == n <==> j == i
    {
      NodesInorder(tree);
      c, l, r := Locate(tree, n);
      var p, parent := Unplug(c, Node(l, n, r), root, null);
      PlugInorder(c, Node(l, n, r));
      InorderDistinct(tree, root, null);
      i := |Before(c) + Inorder(l)|;
      OnlyPlace(Before(c), Inorder(l), n, Inorder(r), After(c), Contents());
    }

    /** AVL_FindNextNodeByAddress */
    method FindNextNodeByAddress(n: AvlNode) returns (r: AvlNode?, ghost steps: nat)
      requires Valid() && n in Contents()
      ensures forall i :: 0 <= i < |Contents()| && Contents()[i] == n ==> r == First(Contents()[i + 1..])
      ensures steps <= Height(tree) && Pow(1.618, steps) <= (|Contents()| + 1) as real
    {
      ghost var c, left, right, i := Standing(n);
      PlugHeight(c, Node(left, n, right));
      HeightIsLogarithmic(tree);
      r := n.link[1];
      if r != null {
        r, steps := Outermost(r, LEFT, right, n);
      } else {
        r, steps := ClimbOut(n, RIGHT, c, Node(left, n, right));
      }
      PowMonotone(steps, Height(tree));
    }

    /** AVL_FindPrevNodeByAddress */
    method FindPrevNodeByAddress(n: AvlNode) returns (r: AvlNode?, ghost steps: nat)
      requires Valid() && n in Contents()
      ensures forall i :: 0 <= i < |Contents()| && Contents()[i] == n ==> r == Last(Contents()[..i])
      ensures steps <= Height(tree) && Pow(1.618, steps) <= (|Contents()| + 1) as real
    {
      ghost var c, left, right, i := Standing(n);
      PlugHeight(c, Node(left, n, right));
      HeightIsLogarithmic(tree);
      r := n.link[0];
      if r != null {
        r, steps := Outermost(r, RIGHT, left, n);
      } else {
        r, steps := ClimbOut(n, LEFT, c, Node(left, n, right));
      }
      PowMonotone(steps, Height(tree));
    }

    // ---------- AVL_RemNodeByAddress: taking the node out ----------

    /** `toremove` takes the balance, the parent and the parent's link of `node`. */
    method TakePlace(node: AvlNode, toremove: AvlNode, ghost c: Ctx, ghost rest: set<AvlNode>)
      requires CtxLinked(c, node, node.parent, root, null)
      requires node != toremove && node !in CtxNodes(c) && toremove !in CtxNodes(c)
      requires c.Below? ==> (c.node.link[1] == node <==> c.dir == RIGHT)
      requires toremove !in rest && rest !! CtxNodes(c)
      modifies this`root, toremove`balance, toremove`parent, CtxNodes(c)`link
      ensures CtxLinked(c, toremove, toremove.parent, root, null)
      ensures Kept(rest, null) && toremove.link == old(toremove.link)
      ensures toremove.balance == node.balance
    {
      assert allocated(CtxNodes(c));
      label Start:
      toremove.balance := node.balance;
      toremove.parent := node.parent;
      if node.parent == null {
        root := toremove;
      } else {
        var side := if node.parent.link[1] == node then 1 else 0;
        node.parent.link := node.parent.link[side := toremove];
        HoleFilled@Start(c, node, toremove, old@Start(root));
      }
    }

    /** `toremove` is cut out and relinked in the place of `node`. */
    method Transplant(node: AvlNode, toremove: AvlNode, ghost s: Ctx, ghost r: Tree, ghost c: Ctx, ghost left: Tree)
      returns (scan: AvlNode, dir: Dir, ghost q: AvlNode?)
      requires Neighbours(s, node, r, c, left, toremove, root) && r.Node?
      modifies this`root, ({toremove} + CtxNodes(s) + CtxNodes(c))`link
      modifies ({toremove} + Nodes(left) + CtxNodes(s) + Nodes(r))`parent, toremove`balance
      ensures Split(PredCtx(s, toremove, r, c), left, q, scan)
      ensures PredCtx(s, toremove, r, c).Below? && PredCtx(s, toremove, r, c).node == scan
      ensures dir == if s.Top? then LEFT else RIGHT
      ensures toremove.balance == old(node.balance)
    {
      hide CtxLinked, CtxBalanced, Linked, Balanced, Before, After, Inorder, Height, Cut;
      assert allocated(CtxNodes(c));
      Apart(s, node, r, c, left, toremove, root);
      PlaceOfNode(s, node, r, c, left, toremove, root);
      label Start:
      scan, dir, q := CutPredecessor(node, toremove, s, r, c, left, root);
      CtxLinksKept@Start(c, node, node.parent, root);
      label Hung:
      assert allocated(Nodes(left)) && allocated(Nodes(r)) && allocated(CtxNodes(s));
      ghost var rest := CtxNodes(s) + Nodes(r) + Nodes(left);
      TakePlace(node, toremove, c, rest);
      Hooked@Hung(s, r, c, left, toremove, scan, q, root, rest);
    }

    lemma PredSide(s: Ctx, node: AvlNode, r: Tree, c: Ctx)
      ensures PredCtx(s, node, r, c).Below?
      ensures (s.Below? ==> s.dir == RIGHT) ==> PredCtx(s, node, r, c).dir == if s.Top? then LEFT else RIGHT
    {
    }

    /** A node with two children: afterwards the rest of its left subtree hangs in the new context
        and lost one level. */
    method RemoveInner(node: AvlNode, ghost c: Ctx, ghost l: Tree, ghost r: Tree)
      returns (scan: AvlNode, dir: Dir, ghost d: Ctx, ghost t: Tree, ghost q: AvlNode?, ghost k: nat)
      requires Valid() && tree == Plug(c, Node(l, node, r)) && l.Node? && r.Node?
      modifies this`root, Nodes(tree)
      ensures d.Below? && d.node == scan && d.dir == dir && Split(d, t, q, scan)
      ensures Balanced(t) && Height(t) == k && CtxBalanced(d, k + 1)
      ensures Before(d) + Inorder(t) + After(d) == Before(c) + Inorder(l) + (Inorder(r) + After(c))
      ensures Nodes(t) + CtxNodes(d) == Nodes(tree) - {node}
      ensures Depth(d) < Height(tree)
    {
      hide CtxLinked, CtxBalanced, Linked, Balanced, Plug, Before, After, Inorder, CtxNodes, Depth, Height, Append;
      assert allocated(Nodes(tree));
      var toremove := FindToRemove(node, c, l, r);
      ghost var s, left, last;
      s, left, last, k := InnerPlan(node, c, l, r);
      label Start:
      scan, dir, q := Transplant(node, toremove, s, r, c, left);
      PredRebalanced@Start(s, node, last, r, c, left, k + 1);
      d, t := PredCtx(s, last, r, c), left;
    }

    /** The predecessor of a node with two children, and what relinking it will give. */
    lemma InnerPlan(node: AvlNode, c: Ctx, l: Tree, r: Tree) returns (s: Ctx, left: Tree, last: AvlNode, k: nat)
      requires Valid() && tree == Plug(c, Node(l, node, r)) && l.Node?
      ensures Inorder(l) != [] && last == Inorder(l)[|Inorder(l)| - 1]
      ensures Neighbours(s, node, r, c, left, last, root)
      ensures Balanced(left) && Height(left) == k && CtxBalanced(PredCtx(s, node, r, c), k + 1)
      ensures PredCtx(s, last, r, c).Below? && PredCtx(s, last, r, c).dir == if s.Top? then LEFT else RIGHT
      ensures Depth(PredCtx(s, last, r, c)) < Height(tree)
      ensures {last} !! Nodes(left) !! Nodes(r) !! CtxNodes(s) !! CtxNodes(c)
      ensures {last} + Nodes(left) + Nodes(r) + CtxNodes(s) + CtxNodes(c) <= Nodes(tree)
      ensures Nodes(left) + CtxNodes(PredCtx(s, last, r, c)) == Nodes(tree) - {node}
      ensures Before(PredCtx(s, last, r, c)) + Inorder(left) + After(PredCtx(s, last, r, c))
           == Before(c) + Inorder(l) + (Inorder(r) + After(c))
    {
      s, left, last := LastNode(l);
      k := Height(left);
      OpenNeighbours(node, c, l, r, s, left, last, k + 1);
      PredSide(s, last, r, c);
      PredOrder(s, last, r, c, left);
      SameDepth(s, node, last, r, c);
      SwapNodes(s, node, last, r, c, left, root);
    }

    /** The predecessor that AVL_RemNodeByAddress asks AVL_FindPrevNodeByAddress for. */
    method FindToRemove(node: AvlNode, ghost c: Ctx, ghost l: Tree, ghost r: Tree) returns (toremove: AvlNode)
      requires Valid() && tree == Plug(c, Node(l, node, r)) && l.Node?
      ensures toremove == Inorder(l)[|Inorder(l)| - 1]
    {
      PredecessorIs(node, c, l, r);
      ghost var i :| 0 < i < |Contents()| && Contents()[i] == node && Contents()[i - 1] == Inorder(l)[|Inorder(l)| - 1];
      var prev, back := FindPrevNodeByAddress(node);
      assert prev == Contents()[i - 1];
      toremove := prev;
    }

    /** Its predecessor in the sequence is the last node of its left subtree. */
    lemma PredecessorIs(node: AvlNode, c: Ctx, l: Tree, r: Tree)
      requires Valid() && tree == Plug(c, Node(l, node, r)) && Inorder(l) != []
      ensures node in Contents()
      ensures exists i ::
          0 < i < |Contents()| && Contents()[i] == node && Contents()[i - 1] == Inorder(l)[|Inorder(l)| - 1]
    {
      PlugInorder(c, Node(l, node, r));
      LastBeforeRoot(Before(c), Inorder(l), node, Inorder(r), After(c));
    }

    lemma OpenNeighbours(node: AvlNode, c: Ctx, l: Tree, r: Tree, s: Ctx, left: Tree, last: AvlNode, h: nat)
      requires Valid() && tree == Plug(c, Node(l, node, r))
      requires l == Plug(s, Node(left, last, Leaf)) && (s.Below? ==> s.dir == RIGHT) && h == 1 + Height(left)
      ensures Neighbours(s, node, r, c, left, last, root)
      ensures Balanced(left) && CtxBalanced(PredCtx(s, node, r, c), h)
      ensures Nodes(tree) == CtxNodes(PredCtx(s, node, r, c)) + Nodes(Node(left, last, Leaf))
      ensures Depth(PredCtx(s, node, r, c)) < Height(tree)
    {
      var b, t := Below(LEFT, node, r, c), Node(left, last, Leaf);
      PlugAppend(s, b, t);
      assert tree == Plug(PredCtx(s, node, r, c), t);
      var p, parent := Unplug(PredCtx(s, node, r, c), t, root, null);
      UnplugBalanced(PredCtx(s, node, r, c), t);
      PlugNodes(PredCtx(s, node, r, c), t);
      PlugHeight(PredCtx(s, node, r, c), t);
    }

    /** The only child of a node, as pointer and as tree. */
    lemma OnlyChild(c: Ctx, node: AvlNode, l: Tree, r: Tree) returns (t: Tree, p: AvlNode?, k: nat)
      requires Split(c, Node(l, node, r), node, node.parent) && (l.Leaf? || r.Leaf?)
      requires Balanced(Node(l, node, r)) && CtxBalanced(c, Height(Node(l, node, r)))
      ensures |node.link| == 2 && p == if node.link[LEFT] == null then node.link[RIGHT] else node.link[LEFT]
      ensures Linked(t, p, node) && Balanced(t) && Height(t) == k && CtxBalanced(c, k + 1)
      ensures Inorder(t) == Inorder(l) + Inorder(r) && Nodes(t) == Nodes(l) + Nodes(r)
      ensures Nodes(t) !! CtxNodes(c) && node !in Nodes(t)
      ensures c.Below? ==>
          node.parent == c.node && |c.node.link| == 2 && (c.dir == if c.node.link[1] == node then 1 else 0)
      ensures c.Top? ==> node.parent == null
      ensures CtxLinked(c, node, node.parent, root, null)
    {
      NullLinks(l, node, r);
      k := if l.Leaf? then Height(r) else Height(l);
      t, p := if l.Leaf? then r else l, if l.Leaf? then node.link[RIGHT] else node.link[LEFT];
      if c.Below? {
        SideOfHole(c, Node(l, node, r), node, root);
      }
    }

    /** A node with at most one child, at the root: the child, or nothing, becomes the tree. */
    method BypassRoot(node: AvlNode, child: AvlNode?, ghost t: Tree)
      requires Linked(t, child, node) && Balanced(t)
      modifies this, (if child == null then {} else {child})`parent
      ensures Valid() && tree == t
    {
      assert allocated(Nodes(t));
      label Start:
      root := child;
      if child != null {
        child.parent := null;
      }
      Rehung@Start(t, child, node, null);
      BalanceUntouched@Start(t);
      tree := t;
    }

    /** The same below another node. */
    method BypassBelow(node: AvlNode, child: AvlNode?, scan: AvlNode, ghost c: Ctx, ghost t: Tree,
                       ghost e: nat) returns (dir: Dir)
      requires c.Below? && c.node == scan && CtxLinked(c, node, scan, root, null) && CtxBalanced(c, e)
      requires c.dir == if scan.link[1] == node then 1 else 0
      requires Linked(t, child, node) && Balanced(t) && Nodes(t) !! CtxNodes(c)
      modifies {scan}`link, (if child == null then {} else {child})`parent
      ensures dir == c.dir && Split(c, t, child, scan) && Balanced(t) && CtxBalanced(c, e)
    {
      assert allocated(Nodes(t)) && allocated(CtxNodes(c));
      label Start:
      dir := PutChild(node, child, scan, CtxNodes(c), Nodes(t));
      HoleFilled@Start(c, node, child, root);
      Rehung@Start(t, child, node, scan);
      BalanceUntouched@Start(t);
      CtxBalanceKept@Start(c, e);
    }

    /** `scan->avl_link[dir] = child; child->avl_parent = scan;` where child may be missing. */
    method PutChild(node: AvlNode, child: AvlNode?, scan: AvlNode, ghost above: set<AvlNode>,
                    ghost below: set<AvlNode>) returns (dir: Dir)
      requires |scan.link| == 2 && above !! below && scan in above && (child != null ==> child in below)
      modifies {scan}`link, (if child == null then {} else {child})`parent
      ensures dir == old(if scan.link[1] == node then 1 else 0)
      ensures scan.link == old(scan.link)[dir := child] && (child != null ==> child.parent == scan)
      ensures KeptBut(above, scan, null) && Kept(below, child)
    {
      dir := if scan.link[1] == node then 1 else 0;
      scan.link := scan.link[dir := child];
      if child != null {
        child.parent := scan;
      }
    }

    /** What a removal starts from: node between the sequences b and a. */
    lemma BeforeRemoval(node: AvlNode) returns (c: Ctx, l: Tree, r: Tree, i: nat, b: seq<AvlNode>, a: seq<AvlNode>)
      requires Valid() && node in Contents()
      ensures tree == Plug(c, Node(l, node, r)) && Split(c, Node(l, node, r), node, node.parent)
      ensures Balanced(Node(l, node, r)) && CtxBalanced(c, Height(Node(l, node, r)))
      ensures Nodes(tree) == CtxNodes(c) + Nodes(l) + {node} + Nodes(r) && Depth(c) < Height(tree)
      ensures b == Before(c) + Inorder(l) && a == Inorder(r) + After(c) && Contents() == b + [node] + a
      ensures forall j :: 0 <= j < |Contents()| && Contents()[j] == node <==> j == |b|
    {
      hide Before, After, Inorder, Linked, CtxLinked, Balanced, CtxBalanced, Plug;
      c, l, r, i := Standing(node);
      b, a := Before(c) + Inorder(l), Inorder(r) + After(c);
      UnplugBalanced(c, Node(l, node, r));
      PlugNodes(c, Node(l, node, r));
      PlugHeight(c, Node(l, node, r));
    }

    /** AVL_RemNodeByAddress up to the rebalancing loop. */
    method TakeOut(node: AvlNode, ghost c: Ctx, ghost l: Tree, ghost r: Tree)
      returns (done: bool, scan: AvlNode?, dir: Dir, ghost d: Ctx, ghost t: Tree, ghost p: AvlNode?, ghost k: nat)
      requires Valid() && tree == Plug(c, Node(l, node, r)) && Split(c, Node(l, node, r), node, node.parent)
      requires Balanced(Node(l, node, r)) && CtxBalanced(c, Height(Node(l, node, r)))
      requires Nodes(tree) == CtxNodes(c) + Nodes(l) + {node} + Nodes(r) && Depth(c) < Height(tree)
      modifies this, Nodes(tree)
      ensures done ==> Valid() && Contents() == Before(c) + Inorder(l) + (Inorder(r) + After(c))
      ensures done ==> Nodes(tree) <= old(Nodes(tree))
      ensures !done ==> d.Below? && d.node == scan && d.dir == dir && Split(d, t, p, scan)
      ensures !done ==> Balanced(t) && Height(t) == k && CtxBalanced(d, k + 1) && Depth(d) < old(Height(tree))
      ensures !done ==> Before(d) + Inorder(t) + After(d) == Before(c) + Inorder(l) + (Inorder(r) + After(c))
      ensures !done ==> Nodes(t) + CtxNodes(d) <= old(Nodes(tree))
    {
      hide CtxLinked, CtxBalanced, Linked, Balanced, Plug, Before, After, Height, Depth;
      NullLinks(l, node, r);
      if node.link[0] == null || node.link[1] == null {
        d := c;
        done, scan, dir, t, p, k := TakeOutOuter(node, c, l, r);
        return;
      }
      done := false;
      scan, dir, d, t, p, k := RemoveInner(node, c, l, r);
    }

    /** The branches for a node with at most one child. */
    method TakeOutOuter(node: AvlNode, ghost c: Ctx, ghost l: Tree, ghost r: Tree)
      returns (done: bool, scan: AvlNode?, dir: Dir, ghost t: Tree, ghost p: AvlNode?, ghost k: nat)
      requires Split(c, Node(l, node, r), node, node.parent) && (l.Leaf? || r.Leaf?)
      requires |node.link| == 2
      requires Balanced(Node(l, node, r)) && CtxBalanced(c, Height(Node(l, node, r)))
      modifies this, CtxNodes(c)`link, (Nodes(l) + Nodes(r))`parent
      ensures done ==> Valid() && Contents() == Before(c) + Inorder(l) + (Inorder(r) + After(c)) && tree == t
      ensures !done ==> c.Below? && c.node == scan && c.dir == dir && Split(c, t, p, scan)
      ensures !done ==> Balanced(t) && Height(t) == k && CtxBalanced(c, k + 1)
      ensures !done ==> Before(c) + Inorder(t) + After(c) == Before(c) + Inorder(l) + (Inorder(r) + After(c))
      ensures Nodes(t) == Nodes(l) + Nodes(r)
    {
      hide CtxLinked, Linked, Balanced, CtxBalanced, Inorder, Plug;
      var child := if node.link[0] == null then node.link[1] else node.link[0];
      t, p, k := OnlyChild(c, node, l, r);
      scan, dir := node.parent, LEFT;
      done := scan == null;
      OuterOrder(Before(c), Inorder(l), Inorder(r), After(c));
      if scan == null {
        BypassRoot(node, child, t);
      } else {
        dir := BypassBelow(node, child, scan, c, t, k + 1);
      }
    }

    /** AVL_RemNodeByAddress, for any node of the tree; steps counts rounds of the rebalancing loop. */
    method RemNodeByAddress(node: AvlNode) returns (r: AvlNode, ghost steps: nat)
      requires Valid() && node in Contents()
      modifies this, Nodes(tree)
      ensures Valid() && r == node && Nodes(tree) <= old(Nodes(tree))
      ensures forall i :: 0 <= i < |old(Contents())| && old(Contents())[i] == node ==>
                Contents() == old(Contents())[..i] + old(Contents())[i + 1..]
      ensures Pow(1.618, steps) <= (|old(Contents())| + 1) as real
    {
      HeightIsLogarithmic(tree);
      ghost var height := Height(tree);
      ghost var c, left, right, i, b, a := BeforeRemoval(node);
      assert Contents()[..|b|] == b && Contents()[|b| + 1..] == a;
      r, steps := node, 0;
      var done, scan, dir;
      ghost var d, t, p;
      ghost var h;
      done, scan, dir, d, t, p, h := TakeOut(node, c, left, right);
      if !done {
        steps := ClimbAfterRemove(scan, dir, d, t, p, h);
      }
      PowMonotone(steps, height);
    }

    // ---------- searching by key ----------

    /** The loop shared by AVL_FindNode, AVL_FindPrevNodeByKey and AVL_FindNextNodeByKey, with the
        trackers of the latter two.  i is the place of the key in the sequence. */
    method SearchByKey(key: Key, cmp: Comparator)
      returns (node: AvlNode?, lesser: AvlNode?, greater: AvlNode?, ghost i: nat, ghost steps: nat)
      requires Valid() && IsOrder(cmp) && Sorted(cmp, Contents())
      ensures i <= |Contents()| && AllBelow(cmp, Contents()[..i], key)
      ensures node != null ==>
          i < |Contents()| && Contents()[i] == node && cmp(node.key, key) == 0 &&
              AllAbove(cmp, Contents()[i + 1..], key)
      ensures node == null ==> AllAbove(cmp, Contents()[i..], key)
      ensures node == null ==> lesser == Last(Contents()[..i]) && greater == First(Contents()[i..])
      ensures steps <= Height(tree)
    {
      node, lesser, greater, steps := root, null, null, 0;
      ghost var c, t, parent := Top, tree, null;
      while node != null && cmp(node.key, key) != 0
        invariant tree == Plug(c, t) && Linked(t, node, parent)
        invariant AllBelow(cmp, Before(c), key) && AllAbove(cmp, After(c), key)
        invariant lesser == Last(Before(c)) && greater == First(After(c))
        invariant steps == Depth(c)
        decreases t
      {
        steps := steps + 1;
        parent := node;
        if cmp(node.key, key) < 0 {
          WentRight(cmp, c, t, key);
          lesser := node;
          c, t := Below(RIGHT, node, t.left, c), t.right;
          node := node.link[1];
        } else {
          WentLeft(cmp, c, t, key);
          greater := node;
          c, t := Below(LEFT, node, t.right, c), t.left;
          node := node.link[0];
        }
      }
      PlugHeight(c, t);
      i := SearchEnd(cmp, c, t, key, node);
    }

    /** Where a search by key ended. */
    lemma SearchEnd(cmp: Comparator, c: Ctx, t: Tree, key: Key, node: AvlNode?) returns (i: nat)
      requires tree == Plug(c, t) && IsOrder(cmp) && Sorted(cmp, Contents())
      requires AllBelow(cmp, Before(c), key) && AllAbove(cmp, After(c), key)
      requires node == (if t.Leaf? then null else t.node) && (node != null ==> cmp(node.key, key) == 0)
      ensures i <= |Contents()| && AllBelow(cmp, Contents()[..i], key)
      ensures node != null ==> i < |Contents()| && Contents()[i] == node && AllAbove(cmp, Contents()[i + 1..], key)
      ensures node == null ==> Contents()[..i] == Before(c) && Contents()[i..] == After(c)
    {
      if node != null {
        i := StoppedAt(cmp, c, t, key);
      } else {
        i := StoppedBetween(c);
      }
    }

    /** AVL_FindNode */
    method FindNode(key: Key, cmp: Comparator) returns (node: AvlNode?, ghost steps: nat)
      requires Valid() && IsOrder(cmp) && Sorted(cmp, Contents())
      ensures node != null ==> node in Contents() && cmp(node.key, key) == 0
      ensures node == null ==> forall n :: n in Contents() ==> cmp(n.key, key) != 0
      ensures Pow(1.618, steps) <= (|Contents()| + 1) as real
    {
      HeightIsLogarithmic(tree);
      var lesser, greater;
      ghost var i;
      node, lesser, greater, i, steps := SearchByKey(key, cmp);
      PowMonotone(steps, Height(tree));
      if node == null {
        NoneEqual(cmp, Contents(), i, key);
      } else {
        assert Contents()[i] == node;
      }
    }

    /** AVL_FindPrevNodeByKey: the last node that is not above the key. */
    method FindPrevNodeByKey(key: Key, cmp: Comparator) returns (r: AvlNode?, ghost steps: nat)
      requires Valid() && IsOrder(cmp) && Sorted(cmp, Contents())
      ensures r == null ==> AllAbove(cmp, Contents(), key)
      ensures r != null ==> cmp(r.key, key) <= 0
      ensures r != null ==>
          exists i :: 0 <= i < |Contents()| && Contents()[i] == r && AllAbove(cmp, Contents()[i + 1..], key)
      ensures Pow(1.618, steps) <= (|Contents()| + 1) as real
    {
      HeightIsLogarithmic(tree);
      var node, lesser, greater;
      ghost var i;
      node, lesser, greater, i, steps := SearchByKey(key, cmp);
      PowMonotone(steps, Height(tree));
      hide Inorder, IsOrder, Sorted, Pow, Height, Balanced, Linked;
      r := if node != null then node else lesser;
      if node == null {
        if i == 0 {
          assert Contents()[0..] == Contents();
        } else {
          assert Contents()[..i][i - 1] == r && Contents()[(i - 1) + 1..] == Contents()[i..];
        }
      }
    }

    /** AVL_FindNextNodeByKey: the first node that is not below the key. */
    method FindNextNodeByKey(key: Key, cmp: Comparator) returns (r: AvlNode?, ghost steps: nat)
      requires Valid() && IsOrder(cmp) && Sorted(cmp, Contents())
      ensures r == null ==> AllBelow(cmp, Contents(), key)
      ensures r != null ==> cmp(r.key, key) >= 0
      ensures r != null ==>
          exists i :: 0 <= i < |Contents()| && Contents()[i] == r && AllBelow(cmp, Contents()[..i], key)
      ensures Pow(1.618, steps) <= (|Contents()| + 1) as real
    {
      HeightIsLogarithmic(tree);
      var node, lesser, greater;
      ghost var i;
      node, lesser, greater, i, steps := SearchByKey(key, cmp);
      PowMonotone(steps, Height(tree));
      hide Inorder, IsOrder, Sorted, Pow, Height, Balanced, Linked;
      r := if node != null then node else greater;
      if node == null {
        if i == |Contents()| {
          assert Contents()[..i] == Contents();
        } else {
          assert Contents()[i..][0] == r;
        }
      }
    }

    /** AVL_RemNodeByKey */
    method RemNodeByKey(key: Key, cmp: Comparator) returns (node: AvlNode?)
      requires Valid() && IsOrder(cmp) && Sorted(cmp, Contents())
      modifies this, Nodes(tree)
      ensures Valid() && Sorted(cmp, Contents())
      ensures node == null ==> Contents() == old(Contents()) && forall n :: n in old(Contents()) ==>
          cmp(n.key, key) != 0
      ensures node != null ==> cmp(node.key, key) == 0 && exists i ::
        && 0 <= i < |old(Contents())| && old(Contents())[i] == node
        && Contents() == old(Contents())[..i] + old(Contents())[i + 1..]
    {
      assert allocated(Nodes(tree));
      ghost var steps;
      node, steps := FindNode(key, cmp);
      if node != null {
        ghost var i :| 0 <= i < |Contents()| && Contents()[i] == node;
        SortedWithout(cmp, Contents(), i);
        var found, climbed := RemNodeByAddress(node);
      }
    }
  }
}
