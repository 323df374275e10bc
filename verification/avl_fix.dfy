/** Restoring the balance of one node after its taller side grew, or its shorter side shrank. */
module AvlFix {
  import opened AvlShape
  import opened AvlClimb

  /** The balance of a node whose taller side lies away from dir. */
  function Heavy(dir: Dir): int {
    if dir == LEFT then 1 else -1
  }

  /** The balance of a node whose child on side dir has height near and whose other has height far. */
  function Lean(dir: Dir, near: int, far: int): int {
    if dir == LEFT then far - near else near - far
  }

  twostate lemma {:induction false} BalanceUntouched(new t: Tree)
    requires old(allocated(t))
    requires old(allocated(Nodes(t)) && Balanced(t))
    requires forall n :: n in Nodes(t) ==> n.balance == old(n.balance)
    ensures Balanced(t)
  {
  }

  lemma JoinIsBalanced(dir: Dir, t: Tree, n: AvlNode, s: Tree)
    requires Balanced(t) && Balanced(s)
    requires n.balance == Lean(dir, Height(t), Height(s)) && -1 <= n.balance <= 1
    ensures Balanced(Join(dir, t, n, s))
    ensures Height(Join(dir, t, n, s)) == 1 + Max(Height(t), Height(s))
  {
  }

  lemma JoinBalanced(dir: Dir, t: Tree, n: AvlNode, s: Tree)
    requires Balanced(Join(dir, t, n, s))
    ensures Balanced(t) && Balanced(s)
    ensures n.balance == Lean(dir, Height(t), Height(s)) && -1 <= n.balance <= 1
    ensures Height(Join(dir, t, n, s)) == 1 + Max(Height(t), Height(s))
  {
  }

  lemma SingleKeepsOrder(dir: Dir, a: Tree, scan: AvlNode, b: Tree, next: AvlNode, c: Tree)
    ensures Inorder(SingleAfter(dir, a, scan, b, next, c)) == Inorder(SingleBefore(dir, a, scan, b, next, c))
    ensures Nodes(SingleAfter(dir, a, scan, b, next, c)) == Nodes(SingleBefore(dir, a, scan, b, next, c))
  {
    var x, y, z, s, n := Inorder(a), Inorder(b), Inorder(c), [scan], [next];
    assert x + s + (y + n + z) == (x + s + y) + n + z;
    assert (z + n + y) + s + x == z + n + (y + s + x);
  }

  lemma DoubleKeepsOrder(dir: Dir, a: Tree, scan: AvlNode, b: Tree, inner: AvlNode, c: Tree, next: AvlNode, d: Tree)
    ensures Inorder(DoubleAfter(dir, a, scan, b, inner, c, next, d)) ==
        Inorder(DoubleBefore(dir, a, scan, b, inner, c, next, d))
    ensures Nodes(DoubleAfter(dir, a, scan, b, inner, c, next, d)) ==
        Nodes(DoubleBefore(dir, a, scan, b, inner, c, next, d))
  {
    SingleKeepsOrder(Other(dir), d, next, c, inner, b);
    SingleKeepsOrder(dir, a, scan, b, inner, Join(dir, c, next, d));
  }

  /** The two children of a tree, seen from direction dir. */
  function Near(dir: Dir, t: Tree): Tree
    requires t.Node?
  {
    if dir == LEFT then t.left else t.right
  }

  function Far(dir: Dir, t: Tree): Tree
    requires t.Node?
  {
    if dir == LEFT then t.right else t.left
  }

  /** The balance assignments after rotate_double, shared by both AVL operations. */
  method SetDoubleBalances(scan: AvlNode, next: AvlNode, subroot: AvlNode, dir: Dir)
    requires scan != next && scan != subroot && next != subroot
    modifies {scan, next, subroot}`balance
    ensures subroot.balance == 0
    ensures scan.balance == if old(subroot.balance) == Heavy(dir) then -Heavy(dir) else 0
    ensures next.balance == if old(subroot.balance) == -Heavy(dir) then Heavy(dir) else 0
  {
    if subroot.balance == Heavy(dir) {
      scan.balance := -Heavy(dir);
      next.balance := 0;
    } else if subroot.balance == -Heavy(dir) {
      scan.balance := 0;
      next.balance := Heavy(dir);
    } else {
      scan.balance, next.balance := 0, 0;
    }
    subroot.balance := 0;
  }

  /** The heights around a double rotation, where was is the balance of the inner node. */
  predicate DoubleNumbers(dir: Dir, a: Tree, b: Tree, c: Tree, d: Tree, was: int) {
    && was == Lean(dir, Height(b), Height(c)) && -1 <= was <= 1
    && Max(Height(b), Height(c)) == Height(a) == Height(d)
  }

  /** The balances sb of scan and nb of next fit a single rotation of a, b and c. */
  predicate SingleNumbers(dir: Dir, a: Tree, b: Tree, c: Tree, sb: int, nb: int) {
    && sb == Lean(dir, Height(a), Height(b)) && -1 <= sb <= 1
    && nb == Lean(dir, 1 + Max(Height(a), Height(b)), Height(c)) && -1 <= nb <= 1
  }

  /** The balances set after the double rotation are the right ones. */
  lemma DoubleBalanced(dir: Dir, a: Tree, scan: AvlNode, b: Tree, inner: AvlNode, c: Tree, next: AvlNode, d: Tree,
                       was: int)
    requires Balanced(a) && Balanced(b) && Balanced(c) && Balanced(d)
    requires DoubleNumbers(dir, a, b, c, d, was)
    requires inner.balance == 0
    requires scan.balance == if was == Heavy(dir) then -Heavy(dir) else 0
    requires next.balance == if was == -Heavy(dir) then Heavy(dir) else 0
    ensures Balanced(DoubleAfter(dir, a, scan, b, inner, c, next, d))
    ensures Height(DoubleAfter(dir, a, scan, b, inner, c, next, d)) == Height(a) + 2
  {
    JoinIsBalanced(dir, a, scan, b);
    JoinIsBalanced(dir, c, next, d);
    JoinIsBalanced(dir, Join(dir, a, scan, b), inner, Join(dir, c, next, d));
  }

  lemma SingleBalanced(dir: Dir, a: Tree, scan: AvlNode, b: Tree, next: AvlNode, c: Tree)
    requires Balanced(a) && Balanced(b) && Balanced(c)
    requires SingleNumbers(dir, a, b, c, scan.balance, next.balance)
    ensures Balanced(SingleAfter(dir, a, scan, b, next, c))
    ensures Height(SingleAfter(dir, a, scan, b, next, c)) == 1 + Max(1 + Max(Height(a), Height(b)), Height(c))
  {
    hide Balanced;
    JoinIsBalanced(dir, a, scan, b);
    JoinIsBalanced(dir, Join(dir, a, scan, b), next, c);
  }

  twostate lemma {:induction false} LinksUntouched(new t: Tree, new p: AvlNode)
    requires old(allocated(t) && allocated(p))
    requires old(Linked(t, p, p.parent))
    requires forall n: AvlNode :: old(allocated(n)) ==> n.link == old(n.link) && n.parent == old(n.parent)
    ensures Linked(t, p, p.parent)
  {
    assert old(allocated(Nodes(t)));
  }

  twostate lemma {:induction false} DoubleRebalanced(new dir: Dir, new a: Tree, new scan: AvlNode, new b: Tree,
                                                     new inner: AvlNode, new c: Tree, new next: AvlNode, new d: Tree)
    requires old(allocated(a) && allocated(scan) && allocated(b) && allocated(inner) && allocated(c) &&
        allocated(next) && allocated(d))
    requires old(Balanced(a) && Balanced(b) && Balanced(c) && Balanced(d))
    requires DoubleNumbers(dir, a, b, c, d, old(inner.balance))
    requires {scan, next, inner} !! Nodes(a) !! Nodes(b) !! Nodes(c) !! Nodes(d)
    requires forall n: AvlNode :: old(allocated(n)) && n !in {scan, next, inner} ==> n.balance == old(n.balance)
    requires inner.balance == 0
    requires scan.balance == if old(inner.balance) == Heavy(dir) then -Heavy(dir) else 0
    requires next.balance == if old(inner.balance) == -Heavy(dir) then Heavy(dir) else 0
    ensures Balanced(DoubleAfter(dir, a, scan, b, inner, c, next, d))
    ensures Height(DoubleAfter(dir, a, scan, b, inner, c, next, d)) == Height(a) + 2
  {
    hide Balanced;
    assert old(allocated(Nodes(a)) && allocated(Nodes(b)) && allocated(Nodes(c)) && allocated(Nodes(d)));
    BalanceUntouched(a);
    BalanceUntouched(b);
    BalanceUntouched(c);
    BalanceUntouched(d);
    DoubleBalanced(dir, a, scan, b, inner, c, next, d, old(inner.balance));
  }

  twostate lemma {:induction false} SingleRebalanced(new dir: Dir, new a: Tree, new scan: AvlNode, new b: Tree,
                                                     new next: AvlNode, new c: Tree)
    requires old(allocated(a) && allocated(scan) && allocated(b) && allocated(next) && allocated(c))
    requires old(Balanced(a) && Balanced(b) && Balanced(c))
    requires SingleNumbers(dir, a, b, c, scan.balance, next.balance)
    requires {scan, next} !! Nodes(a) !! Nodes(b) !! Nodes(c)
    requires forall n: AvlNode :: old(allocated(n)) && n !in {scan, next} ==> n.balance == old(n.balance)
    ensures Balanced(SingleAfter(dir, a, scan, b, next, c))
    ensures Height(SingleAfter(dir, a, scan, b, next, c)) == 1 + Max(1 + Max(Height(a), Height(b)), Height(c))
  {
    assert old(allocated(Nodes(a)) && allocated(Nodes(b)) && allocated(Nodes(c)));
    BalanceUntouched(a);
    BalanceUntouched(b);
    BalanceUntouched(c);
    SingleBalanced(dir, a, scan, b, next, c);
  }

  /** rotate_double with its balance assignments. */
  method FixDouble(scan: AvlNode, next: AvlNode, dir: Dir,
                   ghost a: Tree, ghost b: Tree, ghost inner: AvlNode, ghost c: Tree, ghost d: Tree,
                   ghost above: AvlNode?)
    returns (subroot: AvlNode)
    requires Linked(DoubleBefore(dir, a, scan, b, inner, c, next, d), scan, above)
    requires Balanced(a) && Balanced(b) && Balanced(c) && Balanced(d)
    requires DoubleNumbers(dir, a, b, c, d, inner.balance)
    modifies {scan, inner, next}, (Nodes(b) + Nodes(c))`parent
    ensures subroot == inner && Linked(DoubleAfter(dir, a, scan, b, inner, c, next, d), subroot, subroot.parent)
    ensures Balanced(DoubleAfter(dir, a, scan, b, inner, c, next, d))
    ensures Height(DoubleAfter(dir, a, scan, b, inner, c, next, d)) == Height(a) + 2
  {
    DoubleShape(dir, a, scan, b, inner, c, next, d, above);
    label Before:
    subroot := RotateDoubleTree(scan, next, dir, a, b, inner, c, d, above);
    label Rotated:
    SetDoubleBalances(scan, next, subroot, dir);
    LinksUntouched@Rotated(DoubleAfter(dir, a, scan, b, inner, c, next, d), subroot);
    DoubleRebalanced@Before(dir, a, scan, b, inner, c, next, d);
  }

  /** rotate_single; the balances the two callers assign differ and are parameters. */
  method FixSingle(scan: AvlNode, next: AvlNode, dir: Dir, scanBalance: int, nextBalance: int,
                   ghost a: Tree, ghost b: Tree, ghost c: Tree, ghost above: AvlNode?)
    returns (subroot: AvlNode)
    requires Linked(SingleBefore(dir, a, scan, b, next, c), scan, above)
    requires Balanced(a) && Balanced(b) && Balanced(c)
    requires SingleNumbers(dir, a, b, c, scanBalance, nextBalance)
    modifies {scan, next}, Nodes(b)`parent
    ensures subroot == next && Linked(SingleAfter(dir, a, scan, b, next, c), subroot, subroot.parent)
    ensures Balanced(SingleAfter(dir, a, scan, b, next, c))
    ensures Height(SingleAfter(dir, a, scan, b, next, c)) == 1 + Max(1 + Max(Height(a), Height(b)), Height(c))
  {
    SingleShape(dir, a, scan, b, next, c, above);
    label Before:
    subroot := RotateSingleTree(scan, next, dir, a, b, c, above);
    label Rotated:
    scan.balance := scanBalance;
    next.balance := nextBalance;
    LinksUntouched@Rotated(SingleAfter(dir, a, scan, b, next, c), subroot);
    SingleRebalanced@Before(dir, a, scan, b, next, c);
  }

  /** The parts of a tree that is about to be rotated, two too high away from dir. */
  lemma OpenDouble(dir: Dir, a: Tree, scan: AvlNode, t: Tree) returns (b: Tree, inner: AvlNode, c: Tree, d: Tree)
    requires t.Node? && Balanced(t) && t.node.balance == -Heavy(dir) && Height(t) == Height(a) + 2
    ensures t == Join(dir, Join(dir, b, inner, c), t.node, d)
    ensures Balanced(b) && Balanced(c) && Balanced(d) && DoubleNumbers(dir, a, b, c, d, inner.balance)
    ensures inner in Nodes(t) && Nodes(b) <= Nodes(t) && Nodes(c) <= Nodes(t)
    ensures var u := DoubleAfter(dir, a, scan, b, inner, c, t.node, d);
            scan in Nodes(u) && Nodes(u) == Nodes(Join(dir, a, scan, t)) && Inorder(u) == Inorder(Join(dir, a, scan, t))
  {
    var near := Near(dir, t);
    d := Far(dir, t);
    JoinBalanced(dir, near, t.node, d);
    b, inner, c := Near(dir, near), near.node, Far(dir, near);
    JoinBalanced(dir, b, inner, c);
    DoubleNodes(dir, a, scan, b, inner, c, t.node, d);
    DoubleKeepsOrder(dir, a, scan, b, inner, c, t.node, d);
  }

  lemma OpenSingle(dir: Dir, a: Tree, scan: AvlNode, t: Tree) returns (b: Tree, c: Tree)
    requires t.Node? && Balanced(t) && t.node.balance != -Heavy(dir) && Height(t) == Height(a) + 2
    ensures t == Join(dir, b, t.node, c) && Balanced(b) && Balanced(c) && Nodes(b) <= Nodes(t)
    ensures t.node.balance == 0 ==> Height(b) == Height(a) + 1 && SingleNumbers(dir, a, b, c, Heavy(dir), -Heavy(dir))
    ensures t.node.balance != 0 ==> Height(b) == Height(a) && SingleNumbers(dir, a, b, c, 0, 0)
    ensures Height(c) == Height(a) + 1
    ensures var u := SingleAfter(dir, a, scan, b, t.node, c);
            scan in Nodes(u) && Nodes(u) == Nodes(Join(dir, a, scan, t)) && Inorder(u) == Inorder(Join(dir, a, scan, t))
  {
    b, c := Near(dir, t), Far(dir, t);
    JoinBalanced(dir, b, t.node, c);
    SingleNodes(dir, a, scan, b, t.node, c);
    SingleKeepsOrder(dir, a, scan, b, t.node, c);
  }

  /** The inner switch of AVL_AddNode for a node whose side away from dir grew to a balance of 2;
      the source writes it once for LEFT and once, mirrored, for RIGHT. */
  method FixAfterAdd(scan: AvlNode, next: AvlNode, dir: Dir, ghost a: Tree, ghost t: Tree, ghost above: AvlNode?)
    returns (subroot: AvlNode, ghost u: Tree)
    requires t.Node? && t.node == next && next.balance != 0
    requires Linked(Join(dir, a, scan, t), scan, above)
    requires Balanced(a) && Balanced(t) && Height(t) == Height(a) + 2
    modifies Nodes(Join(dir, a, scan, t))
    ensures Linked(u, subroot, subroot.parent) && Balanced(u) && Height(u) == Height(t)
    ensures Nodes(u) == Nodes(Join(dir, a, scan, t)) && Inorder(u) == Inorder(Join(dir, a, scan, t))
    ensures scan in Nodes(u)
  {
    if next.balance == -Heavy(dir) {
      ghost var b, inner, c, d := OpenDouble(dir, a, scan, t);
      u := DoubleAfter(dir, a, scan, b, inner, c, next, d);
      subroot := FixDouble(scan, next, dir, a, b, inner, c, d, above);
    } else {
      ghost var b, c := OpenSingle(dir, a, scan, t);
      u := SingleAfter(dir, a, scan, b, next, c);
      subroot := FixSingle(scan, next, dir, 0, 0, a, b, c, above);
    }
  }

  /** The inner switch of AVL_RemNodeByAddress for a node whose side towards dir shrank to a
      balance of 2 on the other side.  When next was even the height is kept and the climb stops. */
  method FixAfterRemove(scan: AvlNode, next: AvlNode, dir: Dir, ghost a: Tree, ghost t: Tree, ghost above: AvlNode?)
    returns (subroot: AvlNode, stop: bool, ghost u: Tree)
    requires t.Node? && t.node == next
    requires Linked(Join(dir, a, scan, t), scan, above)
    requires Balanced(a) && Balanced(t) && Height(t) == Height(a) + 2
    modifies Nodes(Join(dir, a, scan, t))
    ensures Linked(u, subroot, subroot.parent) && Balanced(u)
    ensures Height(u) == if stop then Height(t) + 1 else Height(t)
    ensures Nodes(u) == Nodes(Join(dir, a, scan, t)) && Inorder(u) == Inorder(Join(dir, a, scan, t))
    ensures scan in Nodes(u)
  {
    stop := next.balance == 0;
    if next.balance == -Heavy(dir) {
      ghost var b, inner, c, d := OpenDouble(dir, a, scan, t);
      u := DoubleAfter(dir, a, scan, b, inner, c, next, d);
      subroot := FixDouble(scan, next, dir, a, b, inner, c, d, above);
    } else {
      ghost var b, c := OpenSingle(dir, a, scan, t);
      u := SingleAfter(dir, a, scan, b, next, c);
      if stop {
        subroot := FixSingle(scan, next, dir, Heavy(dir), -Heavy(dir), a, b, c, above);
      } else {
        subroot := FixSingle(scan, next, dir, 0, 0, a, b, c, above);
      }
    }
  }
}
