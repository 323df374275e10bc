/** Ghost shapes for the intrusive AVL tree: what a set of linked nodes means.

    A Tree lists which node sits where.  A Ctx is the rest of a tree around a hole, kept
    from the hole upwards; it is what a climb along avl_parent still has to visit.
  */
module AvlShape {

  /** What an application's comparison function sees of a node. */
  type Key = int

  type Comparator = (Key, Key) -> int

  /** A comparison function is usable when it orders the keys: its sign is antisymmetric and
      "not greater" is transitive. */
  ghost predicate IsOrder(cmp: Comparator) {
    && (forall a, b :: cmp(a, b) < 0 <==> cmp(b, a) > 0)
    && (forall a, b, c :: cmp(a, b) <= 0 && cmp(b, c) <= 0 ==> cmp(a, c) <= 0)
  }

  type Dir = d: int | d == 0 || d == 1

  const LEFT: Dir := 0
  const RIGHT: Dir := 1

  /** struct AVLNode, with the key the comparison function reads from the enclosing object. */
  class AvlNode {
    const key: Key
    var link: seq<AvlNode?>
    var parent: AvlNode?
    var balance: int

    constructor (key: Key)
      ensures this.key == key
    {
      this.key := key;
      link, parent, balance := [], null, 0;
    }
  }

  datatype Tree = Leaf | Node(left: Tree, node: AvlNode, right: Tree)

  datatype Ctx = Top | Below(dir: Dir, node: AvlNode, sibling: Tree, up: Ctx)

  /** The node n with t as its child in direction dir and s as the other child. */
  function Join(dir: Dir, t: Tree, n: AvlNode, s: Tree): Tree {
    if dir == LEFT then Node(t, n, s) else Node(s, n, t)
  }

  function Plug(c: Ctx, t: Tree): Tree
    decreases c
  {
    match c
    case Top => t
    case Below(dir, n, s, up) => Plug(up, Join(dir, t, n, s))
  }

  function Append(a: Ctx, b: Ctx): Ctx {
    match a
    case Top => b
    case Below(dir, n, s, up) => Below(dir, n, s, Append(up, b))
  }

  function Max(a: int, b: int): int {
    if a < b then b else a
  }

  function Height(t: Tree): nat {
    match t
    case Leaf => 0
    case Node(l, _, r) => 1 + Max(Height(l), Height(r))
  }

  function Inorder(t: Tree): seq<AvlNode> {
    match t
    case Leaf => []
    case Node(l, n, r) => Inorder(l) + [n] + Inorder(r)
  }

  function Nodes(t: Tree): set<AvlNode> {
    match t
    case Leaf => {}
    case Node(l, n, r) => Nodes(l) + {n} + Nodes(r)
  }

  function CtxNodes(c: Ctx): set<AvlNode> {
    match c
    case Top => {}
    case Below(_, n, s, up) => {n} + Nodes(s) + CtxNodes(up)
  }

  /** In-order sequence left of the hole. */
  function Before(c: Ctx): seq<AvlNode> {
    match c
    case Top => []
    case Below(dir, n, s, up) => if dir == LEFT then Before(up) else Before(up) + Inorder(s) + [n]
  }

  /** In-order sequence right of the hole. */
  function After(c: Ctx): seq<AvlNode> {
    match c
    case Top => []
    case Below(dir, n, s, up) => if dir == LEFT then [n] + Inorder(s) + After(up) else After(up)
  }

  /** Height of the plugged tree when a tree of height h fills the hole. */
  function HeightAbove(c: Ctx, h: nat): nat {
    match c
    case Top => h
    case Below(_, _, s, up) => HeightAbove(up, 1 + Max(h, Height(s)))
  }

  function Depth(c: Ctx): nat {
    match c
    case Top => 0
    case Below(_, _, _, up) => 1 + Depth(up)
  }

  // ---------- what the heap says ----------

  /** The pointer p, whose parent pointer is parent, is the root of t: child and parent links
      agree everywhere and no node occurs twice. */
  ghost predicate Linked(t: Tree, p: AvlNode?, parent: AvlNode?)
    reads Nodes(t)`link, Nodes(t)`parent
  {
    match t
    case Leaf => p == null
    case Node(l, n, r) =>
      && p == n
      && n.parent == parent
      && |n.link| == 2
      && n !in Nodes(l) && n !in Nodes(r) && Nodes(l) !! Nodes(r)
      && Linked(l, n.link[LEFT], n)
      && Linked(r, n.link[RIGHT], n)
  }

  /** Every balance field is the right height minus the left height and lies in {-1, 0, 1}. */
  ghost predicate Balanced(t: Tree)
    reads Nodes(t)`balance
  {
    match t
    case Leaf => true
    case Node(l, n, r) =>
      && n.balance == Height(r) - Height(l)
      && -1 <= n.balance <= 1
      && Balanced(l)
      && Balanced(r)
  }

  /** The nodes around a hole: the hole is the pointer hole with parent holeParent, the whole
      is the pointer top with parent topParent. */
  ghost predicate CtxLinked(c: Ctx, hole: AvlNode?, holeParent: AvlNode?, top: AvlNode?, topParent: AvlNode?)
    reads CtxNodes(c)`link, CtxNodes(c)`parent
  {
    match c
    case Top => hole == top && holeParent == topParent
    case Below(dir, n, s, up) =>
      && holeParent == n
      && |n.link| == 2
      && n.link[dir] == hole
      && n !in Nodes(s) && n !in CtxNodes(up) && Nodes(s) !! CtxNodes(up)
      && Linked(s, n.link[1 - dir], n)
      && CtxLinked(up, n, n.parent, top, topParent)
  }

  /** The balance fields around a hole are right for a tree of height h in the hole. */
  ghost predicate CtxBalanced(c: Ctx, h: nat)
    reads CtxNodes(c)`balance
  {
    match c
    case Top => true
    case Below(dir, n, s, up) =>
      && n.balance == (if dir == LEFT then Height(s) - h else h - Height(s))
      && -1 <= n.balance <= 1
      && Balanced(s)
      && CtxBalanced(up, 1 + Max(h, Height(s)))
  }

  // ---------- order ----------

  ghost predicate Sorted(cmp: Comparator, s: seq<AvlNode>) {
    forall i, j :: 0 <= i < j < |s| ==> cmp(s[i].key, s[j].key) < 0
  }

  ghost predicate AllBelow(cmp: Comparator, s: seq<AvlNode>, key: Key) {
    forall i :: 0 <= i < |s| ==> cmp(s[i].key, key) < 0
  }

  ghost predicate AllAbove(cmp: Comparator, s: seq<AvlNode>, key: Key) {
    forall i :: 0 <= i < |s| ==> cmp(s[i].key, key) > 0
  }

  // ---------- lemmas ----------

  lemma {:induction false} NodesInorder(t: Tree)
    ensures forall n :: n in Nodes(t) <==> n in Inorder(t)
    ensures forall i :: 0 <= i < |Inorder(t)| ==> Inorder(t)[i] in Nodes(t)
    decreases t
  {
    if t.Node? {
      NodesInorder(t.left);
      NodesInorder(t.right);
    }
  }

  lemma {:induction false} PlugInorder(c: Ctx, t: Tree)
    ensures Inorder(Plug(c, t)) == Before(c) + Inorder(t) + After(c)
    decreases c
  {
    if c.Below? {
      PlugInorder(c.up, Join(c.dir, t, c.node, c.sibling));
      JoinInorder(c, t);
    }
  }

  lemma JoinInorder(c: Ctx, t: Tree)
    requires c.Below?
    ensures Before(c.up) + Inorder(Join(c.dir, t, c.node, c.sibling)) + After(c.up)
         == Before(c) + Inorder(t) + After(c)
  {
    var b, i, n, s, a := Before(c.up), Inorder(t), [c.node], Inorder(c.sibling), After(c.up);
    if c.dir == LEFT {
      assert Before(c) == b && After(c) == n + s + a;
      assert b + (i + n + s) + a == b + i + (n + s + a);
    } else {
      assert Before(c) == b + s + n && After(c) == a;
      assert b + (s + n + i) + a == (b + s + n) + i + a;
    }
  }

  lemma {:induction false} PlugNodes(c: Ctx, t: Tree)
    ensures Nodes(Plug(c, t)) == CtxNodes(c) + Nodes(t)
    decreases c
  {
    if c.Below? {
      PlugNodes(c.up, Join(c.dir, t, c.node, c.sibling));
    }
  }

  lemma {:induction false} PlugHeight(c: Ctx, t: Tree)
    ensures Height(Plug(c, t)) == HeightAbove(c, Height(t))
    ensures Depth(c) + Height(t) <= Height(Plug(c, t))
    decreases c
  {
    if c.Below? {
      PlugHeight(c.up, Join(c.dir, t, c.node, c.sibling));
    }
  }

  lemma {:induction false} PlugLinked(c: Ctx, t: Tree, p: AvlNode?, parent: AvlNode?, top: AvlNode?,
                                      topParent: AvlNode?)
    requires Linked(t, p, parent) && CtxLinked(c, p, parent, top, topParent) && Nodes(t) !! CtxNodes(c)
    ensures Linked(Plug(c, t), top, topParent)
    decreases c
  {
    if c.Below? {
      PlugLinked(c.up, Join(c.dir, t, c.node, c.sibling), c.node, c.node.parent, top, topParent);
    }
  }

  lemma {:induction false} PlugBalanced(c: Ctx, t: Tree)
    requires Balanced(t) && CtxBalanced(c, Height(t))
    ensures Balanced(Plug(c, t))
    decreases c
  {
    if c.Below? {
      assert Balanced(Join(c.dir, t, c.node, c.sibling)) &&
          Height(Join(c.dir, t, c.node, c.sibling)) == 1 + Max(Height(t), Height(c.sibling));
      hide Balanced, Height;
      PlugBalanced(c.up, Join(c.dir, t, c.node, c.sibling));
    }
  }

  lemma JoinLinked(dir: Dir, t: Tree, n: AvlNode, s: Tree, p: AvlNode?, parent: AvlNode?)
    requires Linked(Join(dir, t, n, s), p, parent)
    ensures p == n && n.parent == parent && |n.link| == 2
    ensures n !in Nodes(t) && n !in Nodes(s) && Nodes(t) !! Nodes(s)
    ensures Linked(t, n.link[dir], n) && Linked(s, n.link[1 - dir], n)
    ensures Nodes(Join(dir, t, n, s)) == Nodes(t) + {n} + Nodes(s)
  {
  }

  /** Cutting a tree at a node on the path c gives back linked parts. */
  lemma {:induction false} Unplug(c: Ctx, t: Tree, top: AvlNode?, topParent: AvlNode?) returns (p: AvlNode?,
                                  parent: AvlNode?)
    requires Linked(Plug(c, t), top, topParent)
    ensures Linked(t, p, parent) && CtxLinked(c, p, parent, top, topParent) && Nodes(t) !! CtxNodes(c)
    decreases c
  {
    match c
    case Top =>
      p, parent := top, topParent;
    case Below(dir, n, s, up) =>
      var q, qParent := Unplug(up, Join(dir, t, n, s), top, topParent);
      JoinLinked(dir, t, n, s, q, qParent);
      p, parent := n.link[dir], n;
  }

  lemma {:induction false} UnplugBalanced(c: Ctx, t: Tree)
    requires Balanced(Plug(c, t))
    ensures Balanced(t) && CtxBalanced(c, Height(t))
    decreases c
  {
    if c.Below? {
      UnplugBalanced(c.up, Join(c.dir, t, c.node, c.sibling));
    }
  }

  /** Every node of a tree sits at the end of some path. */
  lemma {:induction false} Locate(t: Tree, n: AvlNode) returns (c: Ctx, l: Tree, r: Tree)
    requires n in Nodes(t)
    ensures t == Plug(c, Node(l, n, r))
    decreases t
  {
    if t.node == n {
      c, l, r := Top, t.left, t.right;
    } else if n in Nodes(t.left) {
      c, l, r := Locate(t.left, n);
      PlugAppend(c, Below(LEFT, t.node, t.right, Top), Node(l, n, r));
      c := Append(c, Below(LEFT, t.node, t.right, Top));
    } else {
      c, l, r := Locate(t.right, n);
      PlugAppend(c, Below(RIGHT, t.node, t.left, Top), Node(l, n, r));
      c := Append(c, Below(RIGHT, t.node, t.left, Top));
    }
  }

  lemma {:induction false} PlugAppend(a: Ctx, b: Ctx, t: Tree)
    ensures Plug(Append(a, b), t) == Plug(b, Plug(a, t))
    decreases a
  {
    if a.Below? {
      PlugAppend(a.up, b, Join(a.dir, t, a.node, a.sibling));
    }
  }

  /** No node occurs twice in the in-order sequence of a linked tree. */
  lemma {:induction false} InorderDistinct(t: Tree, p: AvlNode?, parent: AvlNode?)
    requires Linked(t, p, parent)
    ensures forall i, j :: 0 <= i < j < |Inorder(t)| ==> Inorder(t)[i] != Inorder(t)[j]
    decreases t
  {
    if t.Node? {
      InorderDistinct(t.left, t.node.link[LEFT], t.node);
      InorderDistinct(t.right, t.node.link[RIGHT], t.node);
      NodesInorder(t.left);
      NodesInorder(t.right);
      var l, r := Inorder(t.left), Inorder(t.right);
      forall i | 0 <= i < |l|
        ensures l[i] in Nodes(t.left) && l[i] != t.node
      {
        assert l[i] in l;
      }
      forall i | 0 <= i < |r|
        ensures r[i] in Nodes(t.right) && r[i] != t.node
      {
        assert r[i] in r;
      }
    }
  }

  // ---------- Fibonacci height bound ----------

  function Fib(n: nat): nat {
    if n < 2 then n else Fib(n - 1) + Fib(n - 2)
  }

  function Pow(b: real, n: nat): real {
    if n == 0 then 1.0 else b * Pow(b, n - 1)
  }

  /** A balanced tree of height h holds at least Fib(h + 2) - 1 nodes. */
  lemma {:induction false} FibonacciBound(t: Tree)
    requires Balanced(t)
    ensures |Inorder(t)| + 1 >= Fib(Height(t) + 2)
    decreases t
  {
    if t.Node? {
      FibonacciBound(t.left);
      FibonacciBound(t.right);
      var l, r := Height(t.left), Height(t.right);
      FibStep(l, r, |Inorder(t.left)|, |Inorder(t.right)|);
    }
  }

  lemma FibStep(l: nat, r: nat, i: nat, j: nat)
    requires -1 <= l - r <= 1
    requires i + 1 >= Fib(l + 2) && j + 1 >= Fib(r + 2)
    ensures i + j + 2 >= Fib(Max(l, r) + 3)
  {
    var h := Max(l, r);
    assert Fib(h + 3) == Fib(h + 2) + Fib(h + 1);
    FibMonotone(h + 1, l + 2);
    FibMonotone(h + 1, r + 2);
  }

  lemma {:induction false} FibMonotone(a: nat, b: nat)
    requires a <= b
    ensures Fib(a) <= Fib(b)
    decreases b
  {
    if a < b {
      FibMonotone(a, b - 1);
    }
  }

  lemma {:induction false} FibExponential(n: nat)
    ensures Fib(n + 2) as real >= Pow(1.618, n)
    decreases n
  {
    if n >= 2 {
      FibExponential(n - 1);
      FibExponential(n - 2);
      var p := Pow(1.618, n - 2);
      assert Pow(1.618, n - 1) == 1.618 * p;
      assert Pow(1.618, n) == 1.618 * (1.618 * p) == 2.617924 * p;
      PowPositive(n - 2);
    } else if n == 1 {
      assert Pow(1.618, 1) == 1.618 * Pow(1.618, 0);
      assert Fib(3) == 2;
    }
  }

  lemma {:induction false} PowPositive(n: nat)
    ensures Pow(1.618, n) > 0.0
  {
    if n > 0 {
      PowPositive(n - 1);
    }
  }

  lemma {:induction false} PowMonotone(m: nat, n: nat)
    requires m <= n
    ensures Pow(1.618, m) <= Pow(1.618, n)
    decreases n
  {
    if m < n {
      PowMonotone(m, n - 1);
      PowPositive(n - 1);
      assert Pow(1.618, n) == 1.618 * Pow(1.618, n - 1);
    }
  }

  /** The documented 1.44 log2(n): 1.44 is 1 / log2(1.618), so a balanced tree of n nodes has a
      height h with 1.618^h <= n + 1. */
  lemma {:induction false} HeightIsLogarithmic(t: Tree)
    requires Balanced(t)
    ensures Pow(1.618, Height(t)) <= (|Inorder(t)| + 1) as real
  {
    FibonacciBound(t);
    FibExponential(Height(t));
  }
}
