/**
  * The LoopTree nodes of a loop forest, updated in place.
  *
  * LoopForest holds the fields of every LoopTree node it owns (its loop, its parent and its
  * children) and the set of its trees.  A LoopTree object of the source is a NodeId here, and
  * a method of LoopTree takes that node as its first argument.  Valid() says that the fields
  * form a forest; Shape() is the same state as a value, about which LoopTreeSpec,
  * LoopTreeVisitors and LoopTreeRemoval prove what the methods below promise.
  */
module LoopTree {
  import opened Wrappers
  import opened Sequences
  import opened LoopTreeSpec
  import opened LoopTreeVisitors
  import opened LoopTreeRemoval

  class LoopForest {
    var trees: set<NodeId>
    var loopOf: map<NodeId, LoopStructure>
    var parentOf: map<NodeId, Option<NodeId>>
    var childrenOf: map<NodeId, seq<NodeId>>
    ghost var rank: map<NodeId, nat>

    ghost function Shape(): Arena
      reads this
    {
      Arena(trees, loopOf, parentOf, childrenOf, rank)
    }

    ghost predicate Valid()
      reads this
    {
      WellFormed(Shape())
    }

    /** Registers t as a tree of the forest. */
    method AddTree(t: NodeId)
      modifies this
      ensures trees == old(trees) + {t}
      ensures loopOf == old(loopOf) && parentOf == old(parentOf) && childrenOf == old(childrenOf)
      ensures rank == old(rank)
    {
      trees := trees + {t};
    }

    /** Unregisters t as a tree of the forest. */
    method RemoveTree(t: NodeId)
      modifies this
      ensures trees == old(trees) - {t}
      ensures loopOf == old(loopOf) && parentOf == old(parentOf) && childrenOf == old(childrenOf)
      ensures rank == old(rank)
    {
      trees := trees - {t};
    }

    /** The children of n are nodes of the forest, below n in rank. */
    lemma ChildrenInForest(n: NodeId)
      requires Valid() && n in loopOf
      ensures forall i :: 0 <= i < |childrenOf[n]| ==>
                childrenOf[n][i] in loopOf && rank[childrenOf[n][i]] < rank[n]
    {
      forall i | 0 <= i < |childrenOf[n]|
        ensures childrenOf[n][i] in loopOf && rank[childrenOf[n][i]] < rank[n]
      {
        assert Shape().childrenOf[n][i] == childrenOf[n][i];
      }
    }

    // -------------------------------------------------------------------------------------
    // Getters
    // -------------------------------------------------------------------------------------

    /** getLoop: the loop the node was built with, which is the loop every traversal from
        the node reports for it. */
    function GetLoop(n: NodeId): (r: LoopStructure)
      reads this
      requires n in loopOf
      ensures r == loopOf[n]
      ensures Valid() ==> Traversal(Shape(), n, 1, PreOrder)[0] == Visit(n, r, 1)
    {
      loopOf[n]
    }

    /** getParent: None for the root of a tree; otherwise a node of the forest that lists n
        among its children. */
    function GetParent(n: NodeId): (r: Option<NodeId>)
      reads this
      requires n in parentOf
      ensures r == parentOf[n]
      ensures Valid() && r.Some? ==> r.value in childrenOf && n in childrenOf[r.value]
    {
      parentOf[n]
    }

    /** getChildren: the children as a set; in a forest each of them is a node whose parent
        is n. */
    function GetChildren(n: NodeId): (r: set<NodeId>)
      reads this
      requires n in childrenOf
      ensures forall c :: c in r <==> c in childrenOf[n]
      ensures Valid() ==> forall c :: c in r ==> c in parentOf && parentOf[c] == Some(n)
    {
      set c | c in childrenOf[n]
    }

    /** In a forest the getters agree: c is a child of n exactly when n is the parent of c,
        and a node has no parent exactly when it is a tree of the forest. */
    lemma ParentChildAgree(n: NodeId, c: NodeId)
      requires Valid() && n in loopOf && c in loopOf
      ensures c in GetChildren(n) <==> GetParent(c) == Some(n)
      ensures GetParent(n).None? <==> n in trees
    {
      var a := Shape();
      if c in childrenOf[n] {
        var i :| 0 <= i < |childrenOf[n]| && childrenOf[n][i] == c;
        assert a.childrenOf[n][i] == c;
      }
      if GetParent(c) == Some(n) {
        assert a.parentOf[c] == Some(n);
      }
      if n in trees {
        assert n in a.trees;
      }
      assert a.parentOf[n] == parentOf[n];
    }

    // -------------------------------------------------------------------------------------
    // Traversals
    // -------------------------------------------------------------------------------------

    /** visitPreOrder(f, treeLevel): the node at treeLevel, then each child's subtree one
        level deeper, stopping as soon as the visitor returns true. */
    method VisitPreOrderAt<S>(n: NodeId, f: Visitor<S>, s: S, level: nat) returns (s': S, stop: bool)
      requires Valid() && n in loopOf
      ensures (s', stop) == RunVisitor(Traversal(Shape(), n, level, PreOrder), s, f)
      decreases rank[n]
    {
      RunPreOrder(Shape(), n, level, s, f);
      var r := f(s, Visit(n, loopOf[n], level));
      if r.1 {
        return r.0, true;
      }
      var kids := childrenOf[n];
      ChildrenInForest(n);
      s' := r.0;
      var i := 0;
      while i < |kids|
        invariant 0 <= i <= |kids|
        invariant RunVisitor(TraversalUpTo(Shape(), n, i, level + 1, PreOrder), r.0, f) == (s', false)
      {
        var s2, stop2 := VisitPreOrderAt(kids[i], f, s', level + 1);
        RunUpToStep(Shape(), n, i, level + 1, PreOrder, r.0, f);
        if stop2 {
          RunUpToStopped(Shape(), n, i + 1, |kids|, level + 1, PreOrder, r.0, f);
          return s2, true;
        }
        s' := s2;
        i := i + 1;
      }
      return s', false;
    }

    /** visitPostOrder(f, treeLevel): each child's subtree one level deeper, then the node,
        stopping as soon as the visitor returns true. */
    method VisitPostOrderAt<S>(n: NodeId, f: Visitor<S>, s: S, level: nat) returns (s': S, stop: bool)
      requires Valid() && n in loopOf
      ensures (s', stop) == RunVisitor(Traversal(Shape(), n, level, PostOrder), s, f)
      decreases rank[n]
    {
      RunPostOrder(Shape(), n, level, s, f);
      var kids := childrenOf[n];
      ChildrenInForest(n);
      s' := s;
      var i := 0;
      while i < |kids|
        invariant 0 <= i <= |kids|
        invariant RunVisitor(TraversalUpTo(Shape(), n, i, level + 1, PostOrder), s, f) == (s', false)
      {
        var s2, stop2 := VisitPostOrderAt(kids[i], f, s', level + 1);
        RunUpToStep(Shape(), n, i, level + 1, PostOrder, s, f);
        if stop2 {
          RunUpToStopped(Shape(), n, i + 1, |kids|, level + 1, PostOrder, s, f);
          return s2, true;
        }
        s' := s2;
        i := i + 1;
      }
      var r := f(s', Visit(n, loopOf[n], level));
      if r.1 {
        return r.0, true;
      }
      return r.0, false;
    }

    /** visitPreOrder(f): the traversal starts at tree level 1. */
    method VisitPreOrder<S>(n: NodeId, f: Visitor<S>, s: S) returns (s': S, stop: bool)
      requires Valid() && n in loopOf
      ensures (s', stop) == RunVisitor(Traversal(Shape(), n, 1, PreOrder), s, f)
    {
      s', stop := VisitPreOrderAt(n, f, s, 1);
    }

    /** visitPostOrder(f): the traversal starts at tree level 1. */
    method VisitPostOrder<S>(n: NodeId, f: Visitor<S>, s: S) returns (s': S, stop: bool)
      requires Valid() && n in loopOf
      ensures (s', stop) == RunVisitor(Traversal(Shape(), n, 1, PostOrder), s, f)
    {
      s', stop := VisitPostOrderAt(n, f, s, 1);
    }

    // -------------------------------------------------------------------------------------
    // Subtree queries
    // -------------------------------------------------------------------------------------

    /** getNodes: the node and all the nodes below it. */
    method GetNodes(n: NodeId) returns (nodes: set<NodeId>)
      requires Valid() && n in loopOf
      ensures nodes == Subtree(Shape(), n)
    {
      var stopped;
      nodes, stopped := VisitPreOrder(n, CollectNode, {});
      CollectNodeRun(Traversal(Shape(), n, 1, PreOrder), {});
      TraversalNodes(Shape(), n, 1, PreOrder);
    }

    /** getDescendants: the nodes below the node, the node itself excluded. */
    method GetDescendants(n: NodeId) returns (nodes: set<NodeId>)
      requires Valid() && n in loopOf
      ensures nodes == Subtree(Shape(), n) - {n}
    {
      var stopped;
      nodes, stopped := VisitPreOrder(n, DescendantCollector(n), {});
      DescendantCollectorRun(Traversal(Shape(), n, 1, PreOrder), {}, n);
      TraversalNodes(Shape(), n, 1, PreOrder);
    }

    /** getLoops: the loops of the node and of all the nodes below it. */
    method GetLoops(n: NodeId) returns (loops: set<LoopStructure>)
      requires Valid() && n in loopOf
      ensures loops == SubtreeLoops(Shape(), n)
    {
      var stopped;
      loops, stopped := VisitPreOrder(n, CollectLoop, {});
      CollectLoopRun(Traversal(Shape(), n, 1, PreOrder), {});
      LoopsOfTraversal(Shape(), n, 1, PreOrder);
    }

    /** getNumberOfSubLoops: each child counts once plus the sub-loops below it, so the count
        is the number of descendants. */
    method GetNumberOfSubLoops(n: NodeId) returns (count: nat)
      requires Valid() && n in loopOf
      ensures count == |Subtree(Shape(), n) - {n}|
      decreases rank[n]
    {
      var kids := childrenOf[n];
      ChildrenInForest(n);
      count := 0;
      for i := 0 to |kids|
        invariant count == |SubtreesUpTo(Shape(), n, i)|
      {
        var below := GetNumberOfSubLoops(kids[i]);
        SubtreesUpToCount(Shape(), n, i);
        count := count + 1 + below;
      }
      SubtreeSize(Shape(), n);
    }

    /** isIncludedInItsSubLoops: the instruction is in the node's loop and in the loop of one
        of its children. */
    method IsIncludedInItsSubLoops(n: NodeId, inst: Instruction) returns (b: bool)
      requires Valid() && n in loopOf
      ensures b <==> IncludesInstruction(loopOf[n], inst) &&
                     exists c :: c in childrenOf[n] && c in loopOf && IncludesInstruction(loopOf[c], inst)
    {
      if !IncludesInstruction(loopOf[n], inst) {
        return false;
      }
      var kids := childrenOf[n];
      ChildrenInForest(n);
      for i := 0 to |kids|
        invariant forall j :: 0 <= j < i ==> !IncludesInstruction(loopOf[kids[j]], inst)
      {
        if IncludesInstruction(loopOf[kids[i]], inst) {
          return true;
        }
      }
      return false;
    }

    // -------------------------------------------------------------------------------------
    // Innermost and outermost containing loops
    // -------------------------------------------------------------------------------------

    /** getInnermostLoopThatContains(bb): null when the node's loop does not contain bb, and
        otherwise a containing loop at the deepest tree level of the pre-order traversal. */
    method GetInnermostLoopThatContains(n: NodeId, bb: Block) returns (r: Option<LoopStructure>)
      requires Valid() && n in loopOf
      ensures r.None? <==> !IsIncluded(loopOf[n], bb)
      ensures r.Some? ==> DeepestContaining(Traversal(Shape(), n, 1, PreOrder), bb, r.value)
    {
      if !IsIncluded(loopOf[n], bb) {
        return None;
      }
      var best, stopped := VisitPreOrder(n, InnermostStep(bb), Best(None, 0));
      ghost var vs := Traversal(Shape(), n, 1, PreOrder);
      InnermostRun(vs, Best(None, 0), bb);
      assert vs[0] == Visit(n, loopOf[n], 1) && Contains(vs[0], bb);
      ghost var k :| 0 <= k < |vs| && Contains(vs[k], bb) && best == Best(Some(vs[k].loop), vs[k].level);
      r := best.loop;
    }

    /** getInnermostLoopThatContains(i): the query for the instruction's block. */
    method GetInnermostLoopThatContainsInstruction(n: NodeId, inst: Instruction) returns (r: Option<LoopStructure>)
      requires Valid() && n in loopOf
      ensures r.None? <==> !IncludesInstruction(loopOf[n], inst)
      ensures r.Some? ==> DeepestContaining(Traversal(Shape(), n, 1, PreOrder), inst.parent, r.value)
    {
      r := GetInnermostLoopThatContains(n, inst.parent);
    }

    /** getOutermostLoopThatContains(bb): null when the node's loop does not contain bb, and
        otherwise the node's own loop, the only one the traversal visits at level 1. */
    method GetOutermostLoopThatContains(n: NodeId, bb: Block) returns (r: Option<LoopStructure>)
      requires Valid() && n in loopOf
      ensures r == if IsIncluded(loopOf[n], bb) then Some(loopOf[n]) else None
    {
      if !IsIncluded(loopOf[n], bb) {
        return None;
      }
      var best, stopped := VisitPreOrder(n, OutermostStep(bb), Best(None, 0));
      var k := |childrenOf[n]|;
      RunPreOrder(Shape(), n, 1, Best(None, 0), OutermostStep(bb));
      OutermostFirst(bb, Visit(n, loopOf[n], 1));
      TraversalUpToLevels(Shape(), n, k, 2, PreOrder);
      OutermostRunKeeps(TraversalUpTo(Shape(), n, k, 2, PreOrder), Best(Some(loopOf[n]), 1), bb);
      r := best.loop;
    }

    /** getOutermostLoopThatContains(i): the query for the instruction's block. */
    method GetOutermostLoopThatContainsInstruction(n: NodeId, inst: Instruction) returns (r: Option<LoopStructure>)
      requires Valid() && n in loopOf
      ensures r == if IncludesInstruction(loopOf[n], inst) then Some(loopOf[n]) else None
    {
      r := GetOutermostLoopThatContains(n, inst.parent);
    }

    // -------------------------------------------------------------------------------------
    // Destruction
    // -------------------------------------------------------------------------------------

    /** ~LoopTree: an internal node is erased from its parent's children, and each of its
        children takes that parent and joins its children; a root is unregistered from the
        forest, and each of its children loses its parent and becomes a tree.  The node
        leaves the forest; the result is again a forest, as nested as before. */
    method Remove(x: NodeId)
      requires Valid() && x in loopOf
      modifies this
      ensures Shape() == RemoveSpec(old(Shape()), x)
      ensures Valid()
      ensures old(WellNested(Shape())) ==> WellNested(Shape())
    {
      ghost var a := Shape();
      assert UnlinkReady(x) by {
        ChildrenOfRemoved(a, x);
      }
      Unlink(x);
      assert WellFormed(RemoveSpec(a, x)) && (WellNested(a) ==> WellNested(RemoveSpec(a, x))) by {
        RemoveKeepsWellFormed(a, x);
        if WellNested(a) {
          RemoveKeepsWellNested(a, x);
        }
      }
    }

    /** What the destructor's statements rely on: the node's children are distinct nodes
        of the forest, and its parent, if any, is another node none of them is already a
        child of once the node is erased from its list. */
    ghost predicate UnlinkReady(x: NodeId)
      reads this
    {
      && x in parentOf && x in childrenOf
      && Distinct(childrenOf[x])
      && (forall c :: c in childrenOf[x] ==> c in parentOf)
      && (parentOf[x].Some? ==>
            var p := parentOf[x].value;
            p != x && p in childrenOf && forall c :: c in childrenOf[x] ==> c !in Without(childrenOf[p], x))
    }

    /** The destructor's statements: erase the node from its parent's children (or from the
        trees), hand its children to the parent, and forget the node. */
    method Unlink(x: NodeId)
      requires UnlinkReady(x)
      modifies this
      ensures Shape() == RemoveSpec(old(Shape()), x)
    {
      ghost var a := Shape();
      var up := parentOf[x];
      var kids := childrenOf[x];
      if up.Some? {
        var p := up.value;
        childrenOf := childrenOf[p := Without(childrenOf[p], x)];
      } else {
        RemoveTree(x);
      }
      AdoptChildren(kids, up);
      RemoveEffect(a, x, trees, parentOf, childrenOf);
      loopOf := loopOf - {x};
      parentOf := parentOf - {x};
      childrenOf := childrenOf - {x};
      rank := rank - {x};
    }

    /** The loop of the destructor over the children of the removed node: each child takes
        the new parent up, and joins up's children (when up is a node) or the forest's trees
        (when up is null). */
    method AdoptChildren(kids: seq<NodeId>, up: Option<NodeId>)
      requires Distinct(kids) && forall c :: c in kids ==> c in parentOf
      requires up.Some? ==> up.value in childrenOf && forall c :: c in kids ==> c !in childrenOf[up.value]
      modifies this
      ensures parentOf.Keys == old(parentOf).Keys
      ensures forall m :: m in parentOf ==> parentOf[m] == if m in kids then up else old(parentOf)[m]
      ensures up.Some? ==> childrenOf == old(childrenOf)[up.value := old(childrenOf)[up.value] + kids]
      ensures up.Some? ==> trees == old(trees)
      ensures up.None? ==> childrenOf == old(childrenOf) && trees == old(trees) + (set c | c in kids)
      ensures loopOf == old(loopOf) && rank == old(rank)
    {
      if up.Some? {
        assert old(childrenOf)[up.value] + kids[..0] == old(childrenOf)[up.value];
        assert old(childrenOf)[up.value := old(childrenOf)[up.value]] == old(childrenOf);
      }
      for i := 0 to |kids|
        invariant parentOf.Keys == old(parentOf).Keys
        invariant forall m :: m in parentOf ==> parentOf[m] == if m in kids[..i] then up else old(parentOf)[m]
        invariant up.Some? ==> childrenOf == old(childrenOf)[up.value := old(childrenOf)[up.value] + kids[..i]]
        invariant up.Some? ==> trees == old(trees)
        invariant up.None? ==> childrenOf == old(childrenOf) && trees == old(trees) + (set c | c in kids[..i])
        invariant loopOf == old(loopOf) && rank == old(rank)
      {
        var c := kids[i];
        assert kids[..i + 1] == kids[..i] + [c];
        parentOf := parentOf[c := up];
        if up.Some? {
          var p := up.value;
          assert old(childrenOf)[p] + kids[..i + 1] == (old(childrenOf)[p] + kids[..i]) + [c];
          assert c !in kids[..i];
          if c !in childrenOf[p] {
            childrenOf := childrenOf[p := childrenOf[p] + [c]];
          }
        } else {
          AddTree(c);
        }
      }
      assert kids[..|kids|] == kids;
    }
  }
}
