/** The loops over a whole tree that the documentation of the AVL functions shows. */
module AvlLoops {
  import opened AvlShape
  import opened Avl

  /** The nodes of s that are not doomed, in order. */
  function Spared(s: seq<AvlNode>, doomed: set<AvlNode>): seq<AvlNode> {
    if s == [] then []
    else Spared(s[..|s| - 1], doomed) + if s[|s| - 1] in doomed then [] else [s[|s| - 1]]
  }

  lemma {:induction false} SparedMembers(s: seq<AvlNode>, doomed: set<AvlNode>)
    ensures forall n :: n in Spared(s, doomed) <==> n in s && n !in doomed
  {
    if s != [] {
      SparedMembers(s[..|s| - 1], doomed);
      assert s == s[..|s| - 1] + [s[|s| - 1]];
    }
  }

  lemma SparedStep(s: seq<AvlNode>, k: nat, doomed: set<AvlNode>)
    requires k < |s|
    ensures Spared(s[..k + 1], doomed) == Spared(s[..k], doomed) + if s[k] in doomed then [] else [s[k]]
  {
    assert s[..k + 1][..k] == s[..k];
  }

  ghost predicate Distinct(s: seq<AvlNode>) {
    forall i, j :: 0 <= i < j < |s| ==> s[i] != s[j]
  }

  lemma ContentsDistinct(tree: AvlTree)
    requires tree.Valid()
    ensures Distinct(tree.Contents())
    ensures forall n :: n in Nodes(tree.tree) <==> n in tree.Contents()
  {
    InorderDistinct(tree.tree, tree.root, null);
    NodesInorder(tree.tree);
  }

  lemma FirstAfter(s: seq<AvlNode>, k: nat)
    requires k <= |s|
    ensures First(s[k..]) == if k < |s| then s[k] else null
  {
  }

  lemma LastBefore(s: seq<AvlNode>, k: nat)
    requires k <= |s|
    ensures Last(s[..k]) == if k > 0 then s[k - 1] else null
  {
  }

  /** The previous node of the next node, and the other way round, is the node itself. */
  method ThereAndBack(tree: AvlTree, n: AvlNode) returns (next: AvlNode?, back: AvlNode?, prev: AvlNode?,
                      forth: AvlNode?)
    requires tree.Valid() && n in tree.Contents()
    ensures if next == null then n == Last(tree.Contents()) else back == n
    ensures if prev == null then n == First(tree.Contents()) else forth == n
  {
    assert allocated(Nodes(tree.tree));
    ContentsDistinct(tree);
    ghost var s := tree.Contents();
    ghost var k :| 0 <= k < |s| && s[k] == n;
    FirstAfter(s, k + 1);
    LastBefore(s, k);
    back, forth := null, null;
    ghost var rounds;
    next, rounds := tree.FindNextNodeByAddress(n);
    if next != null {
      FirstAfter(s, k);
      LastBefore(s, k + 1);
      back, rounds := tree.FindPrevNodeByAddress(next);
    }
    prev, rounds := tree.FindPrevNodeByAddress(n);
    if prev != null {
      FirstAfter(s, k);
      forth, rounds := tree.FindNextNodeByAddress(prev);
    }
  }

  /** The in-order traversal loop visits every node exactly once, lowest first. */
  method VisitForward(tree: AvlTree) returns (visited: seq<AvlNode>)
    requires tree.Valid()
    ensures visited == tree.Contents()
  {
    assert allocated(Nodes(tree.tree));
    ContentsDistinct(tree);
    visited := [];
    var node, rounds := tree.FindFirstNode();
    while node != null
      invariant tree.Valid()
      invariant visited <= tree.Contents() && node == First(tree.Contents()[|visited|..])
      decreases |tree.Contents()| - |visited|
    {
      ghost var s, k := tree.Contents(), |visited|;
      FirstAfter(s, k);
      FirstAfter(s, k + 1);
      var next, rounds := tree.FindNextNodeByAddress(node);
      assert tree.Contents() == s && s[k] == node;
      visited := visited + [node];
      node := next;
    }
  }

  /** The inverse-order traversal loop visits every node exactly once, highest first. */
  method VisitBackward(tree: AvlTree) returns (visited: seq<AvlNode>)
    requires tree.Valid()
    ensures |visited| == |tree.Contents()|
    ensures forall i :: 0 <= i < |visited| ==> visited[i] == tree.Contents()[|visited| - 1 - i]
  {
    assert allocated(Nodes(tree.tree));
    ContentsDistinct(tree);
    visited := [];
    var node, rounds := tree.FindLastNode();
    ghost var left := |tree.Contents()|;
    while node != null
      invariant tree.Valid()
      invariant 0 <= left == |tree.Contents()| - |visited| && node == Last(tree.Contents()[..left])
      invariant forall i :: 0 <= i < |visited| ==> visited[i] == tree.Contents()[|tree.Contents()| - 1 - i]
      decreases left
    {
      ghost var s := tree.Contents();
      LastBefore(s, left);
      LastBefore(s, left - 1);
      var prev, rounds := tree.FindPrevNodeByAddress(node);
      assert tree.Contents() == s && s[left - 1] == node;
      visited := visited + [node];
      left := left - 1;
      node := prev;
    }
  }

  /** The successor of a node whose place in the sequence is known. */
  method NextAfter(tree: AvlTree, node: AvlNode, ghost b: seq<AvlNode>, ghost s: seq<AvlNode>,
                   ghost k: nat) returns (next: AvlNode?)
    requires tree.Valid() && k < |s| && s[k] == node && tree.Contents() == b + s[k..]
    ensures tree.Valid() && tree.Contents() == b + s[k..]
    ensures next == First(s[k + 1..])
  {
    assert allocated(Nodes(tree.tree));
    ghost var rounds;
    next, rounds := tree.FindNextNodeByAddress(node);
    assert tree.Contents()[|b|] == node;
    assert tree.Contents()[|b| + 1..] == s[k + 1..];
  }

  /** The body of the deletion loop for the node at place k of the original sequence s. */
  method DeleteIfDoomed(tree: AvlTree, node: AvlNode, doomed: set<AvlNode>, ghost s: seq<AvlNode>, ghost k: nat)
    requires tree.Valid() && k < |s| && s[k] == node && tree.Contents() == Spared(s[..k], doomed) + s[k..]
    modifies tree, Nodes(tree.tree)
    ensures tree.Valid() && tree.Contents() == Spared(s[..k + 1], doomed) + s[k + 1..]
    ensures Nodes(tree.tree) <= old(Nodes(tree.tree))
  {
    ghost var b := Spared(s[..k], doomed);
    SparedAround(s, k, doomed, node);
    ghost var all := tree.Contents();
    if node in doomed {
      var removed, steps := tree.RemNodeByAddress(node);
      assert tree.Contents() == all[..|b|] + all[|b| + 1..];
    }
  }

  /** The sequence during the deletion loop, cut at the current node. */
  lemma SparedAround(s: seq<AvlNode>, k: nat, doomed: set<AvlNode>, node: AvlNode)
    requires k < |s| && s[k] == node
    ensures var b, all := Spared(s[..k], doomed), Spared(s[..k], doomed) + s[k..];
      && |b| < |all| && all[|b|] == node
      && (all[..|b|] + all[|b| + 1..] == b + s[k + 1..])
      && (node in doomed ==> Spared(s[..k + 1], doomed) == b)
      && (node !in doomed ==> Spared(s[..k + 1], doomed) + s[k + 1..] == all)
  {
    SparedStep(s, k, doomed);
    var b, all := Spared(s[..k], doomed), Spared(s[..k], doomed) + s[k..];
    assert s[k..] == [node] + s[k + 1..];
    assert all[..|b|] == b && all[|b| + 1..] == s[k + 1..];
    assert b + [] == b;
    assert b + ([node] + s[k + 1..]) == b + [node] + s[k + 1..];
  }

  lemma TakeOneMore(s: seq<AvlNode>, k: nat)
    requires k < |s|
    ensures s[..k + 1] == s[..k] + [s[k]]
  {
  }

  lemma AllTaken(s: seq<AvlNode>, doomed: set<AvlNode>)
    ensures s[..|s|] == s && Spared(s[..|s|], doomed) + s[|s|..] == Spared(s, doomed)
  {
    assert s[..|s|] == s;
  }

  /** One round of the deletion loop: the successor was fetched before the node is removed. */
  method Round(tree: AvlTree, node: AvlNode, next: AvlNode?, doomed: set<AvlNode>, ghost s: seq<AvlNode>, ghost k: nat)
    returns (afterNext: AvlNode?, nulls: nat)
    requires tree.Valid() && k < |s| && s[k] == node && tree.Contents() == Spared(s[..k], doomed) + s[k..]
    requires next == First(s[k + 1..])
    modifies tree, Nodes(tree.tree)
    ensures tree.Valid() && tree.Contents() == Spared(s[..k + 1], doomed) + s[k + 1..]
    ensures Nodes(tree.tree) <= old(Nodes(tree.tree))
    ensures next != null ==> k + 1 < |s| && s[k + 1] == next && afterNext == First(s[k + 2..])
    ensures next == null ==> k + 1 == |s|
    ensures nulls == if next == null then 1 else 0
  {
    FirstAfter(s, k + 1);
    DeleteIfDoomed(tree, node, doomed, s, k);
    afterNext, nulls := null, 0;
    if next == null {
      nulls := 1;
    } else {
      afterNext := NextAfter(tree, next, Spared(s[..k + 1], doomed), s, k + 1);
    }
  }

  /** The documented loop with safe deletion, for any choice of nodes to delete.  Where it asks for the
      successor of a null node, which no tree has, the request is only counted: that happens exactly
      once, in the last round or on an empty tree. */
  method DeleteWhileVisiting(tree: AvlTree, doomed: set<AvlNode>) returns (visited: seq<AvlNode>, nulls: nat)
    requires tree.Valid()
    modifies tree, Nodes(tree.tree)
    ensures tree.Valid()
    ensures visited == old(tree.Contents())
    ensures tree.Contents() == Spared(old(tree.Contents()), doomed)
    ensures forall n :: n in tree.Contents() <==> n in visited && n !in doomed
    ensures nulls == 1
  {
    ghost var s := tree.Contents();
    NoneTaken(s, doomed);
    hide Spared, AvlTree.Valid;
    assert allocated(Nodes(tree.tree));
    var node, rounds := tree.FindFirstNode();
    visited, nulls := [], 1;
    if node != null {
      var next := NextAfter(tree, node, [], s, 0);
      visited, nulls := DeleteRounds(tree, node, next, doomed);
    }
    SparedMembers(s, doomed);
  }

  /** The rounds of the loop on a tree that is not empty. */
  method DeleteRounds(tree: AvlTree, first: AvlNode, second: AvlNode?, doomed: set<AvlNode>)
    returns (visited: seq<AvlNode>, nulls: nat)
    requires tree.Valid() && tree.Contents() != [] && tree.Contents()[0] == first &&
        second == First(tree.Contents()[1..])
    modifies tree, Nodes(tree.tree)
    ensures tree.Valid() && visited == old(tree.Contents()) && nulls == 1
    ensures tree.Contents() == Spared(old(tree.Contents()), doomed)
  {
    ghost var s, nodes := tree.Contents(), Nodes(tree.tree);
    NoneTaken(s, doomed);
    AllTaken(s, doomed);
    hide Spared, AvlTree.Valid;
    var node: AvlNode?, next := first, second;
    visited, nulls := [], 0;
    ghost var k := 0;
    while node != null
      invariant k <= |s| && visited == s[..k] && nulls == if node == null then 1 else 0
      invariant tree.Valid() && Nodes(tree.tree) <= nodes
      invariant tree.Contents() == Spared(s[..k], doomed) + s[k..]
      invariant node != null ==> k < |s| && s[k] == node && next == First(s[k + 1..])
      invariant node == null ==> k == |s|
      decreases |s| - k
    {
      var current: AvlNode := node;
      visited := visited + [current];
      TakeOneMore(s, k);
      var afterNext, asked := Round(tree, current, next, doomed, s, k);
      node, next, nulls := next, afterNext, nulls + asked;
      k := k + 1;
    }
  }

  lemma NoneTaken(s: seq<AvlNode>, doomed: set<AvlNode>)
    ensures s[..0] == [] && s[0..] == s && [] + s == s && Spared(s[..0], doomed) + s[0..] == s
    ensures First(s) == null ==> Spared(s, doomed) == s == []
  {
  }
}
