/**
  * The shape of a loop forest, as values.
  *
  * Every LoopTree node of the source is a NodeId in an arena: the arena maps each node to its
  * loop, its parent (None for the root of a tree) and its children.  The source keeps the
  * children in an unordered set; the arena keeps them in a sequence without repetitions, and
  * every theorem below holds for every such sequence, hence for whatever order the set
  * iterates in.  A ghost rank that strictly decreases from a parent to each child witnesses
  * that the parent links form a forest; it is what makes the recursive traversals terminate.
  */
module LoopTreeSpec {
  import opened Wrappers
  import opened Sequences

  type NodeId = nat
  type Block = nat

  /** A loop, seen through the blocks LoopStructure::isIncluded accepts. */
  datatype LoopStructure = LoopStructure(header: Block, blocks: set<Block>)

  predicate IsIncluded(l: LoopStructure, bb: Block)
  {
    bb in l.blocks
  }

  datatype Instruction = Instruction(id: nat, parent: Block)

  /** An instruction is included in a loop when its parent block is. */
  predicate IncludesInstruction(l: LoopStructure, i: Instruction)
  {
    IsIncluded(l, i.parent)
  }

  /** One call of a traversal's visitor: the node, its loop and its 1-based tree level. */
  datatype Visit = Visit(node: NodeId, loop: LoopStructure, level: nat)

  datatype Order = PreOrder | PostOrder

  datatype Arena = Arena(
    trees: set<NodeId>,
    loopOf: map<NodeId, LoopStructure>,
    parentOf: map<NodeId, Option<NodeId>>,
    childrenOf: map<NodeId, seq<NodeId>>,
    rank: map<NodeId, nat>)

  /** Parent and children links agree, roots are exactly the parentless nodes, and ranks
      strictly decrease from a parent to its children. */
  ghost predicate WellFormed(a: Arena)
  {
    && a.parentOf.Keys == a.loopOf.Keys
    && a.childrenOf.Keys == a.loopOf.Keys
    && a.rank.Keys == a.loopOf.Keys
    && (forall n {:trigger n in a.trees} :: n in a.trees ==> n in a.parentOf && a.parentOf[n].None?)
    && (forall n {:trigger a.parentOf[n]} :: n in a.parentOf && a.parentOf[n].None? ==> n in a.trees)
    && (forall n, i {:trigger a.childrenOf[n][i]} :: n in a.childrenOf && 0 <= i < |a.childrenOf[n]| ==>
          var c := a.childrenOf[n][i];
          c in a.parentOf && a.parentOf[c] == Some(n) && a.rank[c] < a.rank[n])
    && (forall c {:trigger a.parentOf[c]} :: c in a.parentOf && a.parentOf[c].Some? ==>
          a.parentOf[c].value in a.childrenOf && c in a.childrenOf[a.parentOf[c].value])
    && (forall n {:trigger a.childrenOf[n]} :: n in a.childrenOf ==> Distinct(a.childrenOf[n]))
  }

  /** The nesting the loop forest builder establishes: a child loop's blocks are a strict
      subset of its parent's, and the blocks of two siblings (or of two roots) are disjoint. */
  ghost predicate WellNested(a: Arena)
    requires WellFormed(a)
  {
    && (forall n, i {:trigger a.childrenOf[n][i]} :: n in a.childrenOf && 0 <= i < |a.childrenOf[n]| ==>
          a.loopOf[a.childrenOf[n][i]].blocks < a.loopOf[n].blocks)
    && (forall n, i, j {:trigger a.childrenOf[n][i], a.childrenOf[n][j]} ::
          n in a.childrenOf && 0 <= i < j < |a.childrenOf[n]| ==>
          a.loopOf[a.childrenOf[n][i]].blocks !! a.loopOf[a.childrenOf[n][j]].blocks)
    && (forall r1, r2 {:trigger r1 in a.trees, r2 in a.trees} :: r1 in a.trees && r2 in a.trees && r1 != r2 ==>
          a.loopOf[r1].blocks !! a.loopOf[r2].blocks)
  }

  /** A forest of properly nested loops. */
  ghost predicate Nested(a: Arena)
  {
    WellFormed(a) && WellNested(a)
  }

  // ---------------------------------------------------------------------------------------
  // Subtrees
  // ---------------------------------------------------------------------------------------

  /** The nodes of the tree rooted at n, n included. */
  ghost function Subtree(a: Arena, n: NodeId): set<NodeId>
    requires WellFormed(a) && n in a.loopOf
    decreases a.rank[n], 1
  {
    {n} + SubtreesUpTo(a, n, |a.childrenOf[n]|)
  }

  /** The nodes of the subtrees of the first i children of p. */
  ghost function SubtreesUpTo(a: Arena, p: NodeId, i: nat): set<NodeId>
    requires WellFormed(a) && p in a.loopOf && i <= |a.childrenOf[p]|
    decreases a.rank[p], 0, i
  {
    if i == 0 then {} else SubtreesUpTo(a, p, i - 1) + Subtree(a, a.childrenOf[p][i - 1])
  }

  lemma {:induction false} SubtreeRank(a: Arena, n: NodeId)
    requires WellFormed(a) && n in a.loopOf
    ensures n in Subtree(a, n)
    ensures forall m :: m in Subtree(a, n) ==>
              m in a.loopOf && a.rank[m] <= a.rank[n] && (m != n ==> a.rank[m] < a.rank[n])
    decreases a.rank[n], 1
  {
    SubtreesUpToRank(a, n, |a.childrenOf[n]|);
  }

  lemma {:induction false} SubtreesUpToRank(a: Arena, p: NodeId, i: nat)
    requires WellFormed(a) && p in a.loopOf && i <= |a.childrenOf[p]|
    ensures forall m :: m in SubtreesUpTo(a, p, i) ==> m in a.loopOf && a.rank[m] < a.rank[p]
    decreases a.rank[p], 0, i
  {
    if i > 0 {
      var c := a.childrenOf[p][i - 1];
      var s1, s2 := SubtreesUpTo(a, p, i - 1), Subtree(a, c);
      assert forall m :: m in s1 ==> m in a.loopOf && a.rank[m] < a.rank[p] by {
        SubtreesUpToRank(a, p, i - 1);
      }
      assert forall m :: m in s2 ==> m in a.loopOf && a.rank[m] <= a.rank[c] by {
        SubtreeRank(a, c);
      }
      assert a.rank[c] < a.rank[p];
      assert SubtreesUpTo(a, p, i) == s1 + s2;
    }
  }

  /** A subtree is closed under the parent link, except at its root. */
  lemma {:induction false} ParentInSubtree(a: Arena, n: NodeId, m: NodeId)
    requires WellFormed(a) && n in a.loopOf
    requires m in Subtree(a, n) && m != n
    ensures m in a.parentOf && a.parentOf[m].Some?
    ensures a.parentOf[m].value in Subtree(a, n)
    decreases a.rank[n], 1
  {
    ParentInSubtreesUpTo(a, n, |a.childrenOf[n]|, m);
  }

  lemma {:induction false} ParentInSubtreesUpTo(a: Arena, p: NodeId, i: nat, m: NodeId)
    requires WellFormed(a) && p in a.loopOf && i <= |a.childrenOf[p]|
    requires m in SubtreesUpTo(a, p, i)
    ensures m in a.parentOf && a.parentOf[m].Some?
    ensures a.parentOf[m].value == p || a.parentOf[m].value in SubtreesUpTo(a, p, i)
    decreases a.rank[p], 0, i
  {
    var c := a.childrenOf[p][i - 1];
    if m in SubtreesUpTo(a, p, i - 1) {
      ParentInSubtreesUpTo(a, p, i - 1, m);
    } else if m != c {
      ParentInSubtree(a, c, m);
    }
  }

  /** Two subtrees that share a node are nested one in the other. */
  lemma {:induction false} CommonDescendant(a: Arena, x: NodeId, y: NodeId, m: NodeId)
    requires WellFormed(a) && x in a.loopOf && y in a.loopOf
    requires m in Subtree(a, x) && m in Subtree(a, y)
    ensures x in Subtree(a, y) || y in Subtree(a, x)
    decreases SubtreeRankGap(a, x, m)
  {
    if m != x && m != y {
      ParentInSubtree(a, x, m);
      ParentInSubtree(a, y, m);
      var q := a.parentOf[m].value;
      SubtreeRank(a, x);
      assert SubtreeRankGap(a, x, q) < SubtreeRankGap(a, x, m);
      CommonDescendant(a, x, y, q);
    }
  }

  ghost function SubtreeRankGap(a: Arena, x: NodeId, m: NodeId): nat
    requires WellFormed(a) && x in a.loopOf && m in Subtree(a, x)
  {
    SubtreeRank(a, x);
    a.rank[x] - a.rank[m]
  }

  /** The subtrees of two different children of a node are disjoint. */
  lemma SiblingSubtreesDisjoint(a: Arena, p: NodeId, s: nat, t: nat)
    requires WellFormed(a) && p in a.loopOf
    requires s < |a.childrenOf[p]| && t < |a.childrenOf[p]| && s != t
    ensures Subtree(a, a.childrenOf[p][s]) !! Subtree(a, a.childrenOf[p][t])
  {
    var c1, c2 := a.childrenOf[p][s], a.childrenOf[p][t];
    assert c1 != c2 by {
      assert Distinct(a.childrenOf[p]);
      if s < t {} else {}
    }
    if m :| m in Subtree(a, c1) && m in Subtree(a, c2) {
      CommonDescendant(a, c1, c2, m);
      if c1 in Subtree(a, c2) {
        ParentInSubtree(a, c2, c1);
        SubtreeRank(a, c2);
      } else {
        ParentInSubtree(a, c1, c2);
        SubtreeRank(a, c1);
      }
    }
  }

  /** The subtrees of the first i children of p are disjoint from the subtree of child j >= i. */
  lemma {:induction false} SubtreesUpToDisjoint(a: Arena, p: NodeId, i: nat, j: nat)
    requires WellFormed(a) && p in a.loopOf
    requires i <= j < |a.childrenOf[p]|
    ensures SubtreesUpTo(a, p, i) !! Subtree(a, a.childrenOf[p][j])
  {
    if i > 0 {
      SubtreesUpToDisjoint(a, p, i - 1, j);
      SiblingSubtreesDisjoint(a, p, i - 1, j);
    }
  }

  /** The number of nodes below n counts each child subtree once. */
  lemma SubtreesUpToSize(a: Arena, p: NodeId, i: nat)
    requires WellFormed(a) && p in a.loopOf && i < |a.childrenOf[p]|
    ensures |SubtreesUpTo(a, p, i + 1)| == |SubtreesUpTo(a, p, i)| + |Subtree(a, a.childrenOf[p][i])|
  {
    SubtreesUpToDisjoint(a, p, i, i);
  }

  lemma SubtreeSize(a: Arena, n: NodeId)
    requires WellFormed(a) && n in a.loopOf
    ensures |Subtree(a, n)| == 1 + |SubtreesUpTo(a, n, |a.childrenOf[n]|)|
    ensures Subtree(a, n) - {n} == SubtreesUpTo(a, n, |a.childrenOf[n]|)
  {
    SubtreesUpToRank(a, n, |a.childrenOf[n]|);
  }

  /** Counting the proper descendants child by child: the i-th child adds itself and its
      own proper descendants. */
  lemma SubtreesUpToCount(a: Arena, p: NodeId, i: nat)
    requires WellFormed(a) && p in a.loopOf && i < |a.childrenOf[p]|
    ensures a.childrenOf[p][i] in a.loopOf
    ensures |SubtreesUpTo(a, p, i + 1)| ==
            |SubtreesUpTo(a, p, i)| + 1 + |Subtree(a, a.childrenOf[p][i]) - {a.childrenOf[p][i]}|
  {
    SubtreesUpToSize(a, p, i);
    SubtreeSize(a, a.childrenOf[p][i]);
  }

  /** The loops of the nodes of the tree rooted at n. */
  ghost function SubtreeLoops(a: Arena, n: NodeId): set<LoopStructure>
    requires WellFormed(a) && n in a.loopOf
  {
    SubtreeRank(a, n);
    set m | m in Subtree(a, n) :: a.loopOf[m]
  }

  // ---------------------------------------------------------------------------------------
  // Traversals
  // ---------------------------------------------------------------------------------------

  /** The visits a depth-first traversal from n at the given level makes when its visitor
      never stops it: the node before its children's subtrees (pre-order) or after them
      (post-order), the children one level deeper. */
  ghost function Traversal(a: Arena, n: NodeId, level: nat, order: Order): seq<Visit>
    requires WellFormed(a) && n in a.loopOf
    decreases a.rank[n], 1
  {
    var v := Visit(n, a.loopOf[n], level);
    var below := TraversalUpTo(a, n, |a.childrenOf[n]|, level + 1, order);
    if order == PreOrder then [v] + below else below + [v]
  }

  /** The visits of the subtrees of the first i children of p, each traversed at level. */
  ghost function TraversalUpTo(a: Arena, p: NodeId, i: nat, level: nat, order: Order): seq<Visit>
    requires WellFormed(a) && p in a.loopOf && i <= |a.childrenOf[p]|
    decreases a.rank[p], 0, i
  {
    if i == 0 then []
    else TraversalUpTo(a, p, i - 1, level, order) + Traversal(a, a.childrenOf[p][i - 1], level, order)
  }

  lemma UpToUnfold(a: Arena, p: NodeId, i: nat, level: nat, order: Order)
    requires WellFormed(a) && p in a.loopOf && 0 < i <= |a.childrenOf[p]|
    ensures TraversalUpTo(a, p, i, level, order) ==
            TraversalUpTo(a, p, i - 1, level, order) + Traversal(a, a.childrenOf[p][i - 1], level, order)
  {
  }

  ghost function NodesOf(vs: seq<Visit>): set<NodeId>
  {
    set v | v in vs :: v.node
  }

  ghost predicate DistinctNodes(vs: seq<Visit>)
  {
    forall i, j :: 0 <= i < j < |vs| ==> vs[i].node != vs[j].node
  }

  /** Each visit carries its node's own loop. */
  ghost predicate LoopsMatch(a: Arena, vs: seq<Visit>)
  {
    forall k :: 0 <= k < |vs| ==> vs[k].node in a.loopOf && vs[k].loop == a.loopOf[vs[k].node]
  }

  /** Whenever two visits are a parent and its child, the parent comes first (pre-order) or
      last (post-order), and the child is exactly one level deeper. */
  ghost predicate ParentChildOrdered(a: Arena, vs: seq<Visit>, order: Order)
  {
    forall i, j :: 0 <= i < |vs| && 0 <= j < |vs| && vs[j].node in a.parentOf &&
                   a.parentOf[vs[j].node] == Some(vs[i].node) ==>
      (if order == PreOrder then i < j else j < i) && vs[j].level == vs[i].level + 1
  }

  lemma NodesOfConcat(xs: seq<Visit>, ys: seq<Visit>)
    ensures NodesOf(xs + ys) == NodesOf(xs) + NodesOf(ys)
  {
    assert forall v :: v in xs + ys <==> v in xs || v in ys;
  }

  /** Two runs of visits covering disjoint sets of nodes, each without repeats, cover the
      union without repeats. */
  lemma CoverConcat(xs: seq<Visit>, ys: seq<Visit>, s1: set<NodeId>, s2: set<NodeId>)
    requires NodesOf(xs) == s1 && NodesOf(ys) == s2 && s1 !! s2
    requires DistinctNodes(xs) && DistinctNodes(ys)
    ensures NodesOf(xs + ys) == s1 + s2 && DistinctNodes(xs + ys)
  {
    NodesOfConcat(xs, ys);
    DistinctNodesConcat(xs, ys);
  }

  lemma DistinctNodesConcat(xs: seq<Visit>, ys: seq<Visit>)
    requires DistinctNodes(xs) && DistinctNodes(ys) && NodesOf(xs) !! NodesOf(ys)
    ensures DistinctNodes(xs + ys)
  {
    var zs := xs + ys;
    forall i, j | 0 <= i < j < |zs| ensures zs[i].node != zs[j].node {
      if j < |xs| {
        assert zs[i] == xs[i] && zs[j] == xs[j];
      } else if |xs| <= i {
        assert zs[i] == ys[i - |xs|] && zs[j] == ys[j - |xs|];
      } else {
        assert zs[i] == xs[i] && zs[j] == ys[j - |xs|];
        assert zs[i] in xs && zs[j] in ys;
        assert zs[i].node in NodesOf(xs) && zs[j].node in NodesOf(ys);
      }
    }
  }

  /** A node's rank is below its parent's. */
  lemma ParentRank(a: Arena, c: NodeId)
    requires WellFormed(a) && c in a.parentOf && a.parentOf[c].Some?
    ensures a.parentOf[c].value in a.loopOf && a.rank[c] < a.rank[a.parentOf[c].value]
  {
    var p := a.parentOf[c].value;
    assert c in a.childrenOf[p];
    var i :| 0 <= i < |a.childrenOf[p]| && a.childrenOf[p][i] == c;
  }

  /** A traversal visits exactly the nodes of the subtree, each of them once. */
  lemma {:induction false} TraversalCoversSubtree(a: Arena, n: NodeId, level: nat, order: Order)
    requires WellFormed(a) && n in a.loopOf
    ensures NodesOf(Traversal(a, n, level, order)) == Subtree(a, n)
    ensures DistinctNodes(Traversal(a, n, level, order))
    decreases a.rank[n], 1
  {
    var v := Visit(n, a.loopOf[n], level);
    var k := |a.childrenOf[n]|;
    var below := TraversalUpTo(a, n, k, level + 1, order);
    var rest := SubtreesUpTo(a, n, k);
    assert NodesOf(below) == rest && DistinctNodes(below) by {
      TraversalUpToCoversSubtrees(a, n, k, level + 1, order);
    }
    assert {n} !! rest by {
      SubtreesUpToRank(a, n, k);
    }
    assert NodesOf([v]) == {n} && DistinctNodes([v]);
    if order == PreOrder {
      CoverConcat([v], below, {n}, rest);
    } else {
      CoverConcat(below, [v], rest, {n});
    }
  }

  lemma {:induction false} TraversalUpToCoversSubtrees(a: Arena, p: NodeId, i: nat, level: nat, order: Order)
    requires WellFormed(a) && p in a.loopOf && i <= |a.childrenOf[p]|
    ensures NodesOf(TraversalUpTo(a, p, i, level, order)) == SubtreesUpTo(a, p, i)
    ensures DistinctNodes(TraversalUpTo(a, p, i, level, order))
    decreases a.rank[p], 0, i
  {
    if i > 0 {
      var c := a.childrenOf[p][i - 1];
      var xs := TraversalUpTo(a, p, i - 1, level, order);
      var ys := Traversal(a, c, level, order);
      var s1, s2 := SubtreesUpTo(a, p, i - 1), Subtree(a, c);
      assert NodesOf(xs) == s1 && DistinctNodes(xs) by {
        TraversalUpToCoversSubtrees(a, p, i - 1, level, order);
      }
      assert NodesOf(ys) == s2 && DistinctNodes(ys) by {
        TraversalCoversSubtree(a, c, level, order);
      }
      assert s1 !! s2 by {
        SubtreesUpToDisjoint(a, p, i - 1, i - 1);
      }
      CoverConcat(xs, ys, s1, s2);
    }
  }

  /** Every visit of a traversal carries its node's loop, at a level no shallower than the
      starting one; only the starting node is visited at the starting level. */
  lemma {:induction false} TraversalLevels(a: Arena, n: NodeId, level: nat, order: Order)
    requires WellFormed(a) && n in a.loopOf
    ensures LoopsMatch(a, Traversal(a, n, level, order))
    ensures forall k :: 0 <= k < |Traversal(a, n, level, order)| ==>
              Traversal(a, n, level, order)[k].level >= level &&
              (Traversal(a, n, level, order)[k].node == n <==> Traversal(a, n, level, order)[k].level == level)
    decreases a.rank[n], 1
  {
    var k := |a.childrenOf[n]|;
    var below := TraversalUpTo(a, n, k, level + 1, order);
    assert LoopsMatch(a, below) && forall t :: 0 <= t < |below| ==> below[t].level >= level + 1 by {
      TraversalUpToLevels(a, n, k, level + 1, order);
    }
    assert n !in NodesOf(below) by {
      TraversalUpToCoversSubtrees(a, n, k, level + 1, order);
      SubtreesUpToRank(a, n, k);
    }
    RootLevels(a, Visit(n, a.loopOf[n], level), below, order);
  }

  /** A root visit at level, around visits of other nodes all deeper than level. */
  lemma RootLevels(a: Arena, v: Visit, below: seq<Visit>, order: Order)
    requires v.node in a.loopOf && v.loop == a.loopOf[v.node]
    requires LoopsMatch(a, below) && v.node !in NodesOf(below)
    requires forall t :: 0 <= t < |below| ==> below[t].level >= v.level + 1
    ensures var vs := if order == PreOrder then [v] + below else below + [v];
            LoopsMatch(a, vs) &&
            forall k :: 0 <= k < |vs| ==>
              vs[k].level >= v.level && (vs[k].node == v.node <==> vs[k].level == v.level)
  {
    var vs := if order == PreOrder then [v] + below else below + [v];
    var off := if order == PreOrder then 1 else 0;
    forall t | 0 <= t < |vs|
      ensures vs[t].node in a.loopOf && vs[t].loop == a.loopOf[vs[t].node]
      ensures vs[t].level >= v.level && (vs[t].node == v.node <==> vs[t].level == v.level)
    {
      if (order == PreOrder && t > 0) || (order == PostOrder && t < |below|) {
        assert vs[t] == below[t - off];
        assert vs[t] in below;
      }
    }
  }

  lemma {:induction false} TraversalUpToLevels(a: Arena, p: NodeId, i: nat, level: nat, order: Order)
    requires WellFormed(a) && p in a.loopOf && i <= |a.childrenOf[p]|
    ensures LoopsMatch(a, TraversalUpTo(a, p, i, level, order))
    ensures forall k :: 0 <= k < |TraversalUpTo(a, p, i, level, order)| ==>
              TraversalUpTo(a, p, i, level, order)[k].level >= level
    decreases a.rank[p], 0, i
  {
    if i > 0 {
      var c := a.childrenOf[p][i - 1];
      var xs := TraversalUpTo(a, p, i - 1, level, order);
      var ys := Traversal(a, c, level, order);
      assert LoopsMatch(a, xs) && forall t :: 0 <= t < |xs| ==> xs[t].level >= level by {
        TraversalUpToLevels(a, p, i - 1, level, order);
      }
      assert LoopsMatch(a, ys) && forall t :: 0 <= t < |ys| ==> ys[t].level >= level by {
        TraversalLevels(a, c, level, order);
      }
      LevelsConcat(a, xs, ys, level);
    }
  }

  lemma LevelsConcat(a: Arena, xs: seq<Visit>, ys: seq<Visit>, level: nat)
    requires LoopsMatch(a, xs) && forall t :: 0 <= t < |xs| ==> xs[t].level >= level
    requires LoopsMatch(a, ys) && forall t :: 0 <= t < |ys| ==> ys[t].level >= level
    ensures LoopsMatch(a, xs + ys) && forall t :: 0 <= t < |xs + ys| ==> (xs + ys)[t].level >= level
  {
    var zs := xs + ys;
    forall t | 0 <= t < |zs|
      ensures zs[t].node in a.loopOf && zs[t].loop == a.loopOf[zs[t].node] && zs[t].level >= level
    {
      if t < |xs| { assert zs[t] == xs[t]; } else { assert zs[t] == ys[t - |xs|]; }
    }
  }

  /** No node of Y has its parent in X. */
  ghost predicate NoParentIn(a: Arena, x: set<NodeId>, y: set<NodeId>)
  {
    forall m :: m in y && m in a.parentOf && a.parentOf[m].Some? ==> a.parentOf[m].value !in x
  }

  lemma ParentChildConcat(a: Arena, xs: seq<Visit>, ys: seq<Visit>, order: Order)
    requires ParentChildOrdered(a, xs, order) && ParentChildOrdered(a, ys, order)
    requires NoParentIn(a, NodesOf(xs), NodesOf(ys)) && NoParentIn(a, NodesOf(ys), NodesOf(xs))
    ensures ParentChildOrdered(a, xs + ys, order)
  {
    var zs := xs + ys;
    forall s, t | 0 <= s < |xs| && 0 <= t < |ys|
      ensures ys[t].node in a.parentOf ==> a.parentOf[ys[t].node] != Some(xs[s].node)
      ensures xs[s].node in a.parentOf ==> a.parentOf[xs[s].node] != Some(ys[t].node)
    {
      assert xs[s] in xs && xs[s].node in NodesOf(xs);
      assert ys[t] in ys && ys[t].node in NodesOf(ys);
    }
    forall s, t | 0 <= s < |zs| && 0 <= t < |zs| && zs[t].node in a.parentOf &&
                  a.parentOf[zs[t].node] == Some(zs[s].node)
      ensures (if order == PreOrder then s < t else t < s) && zs[t].level == zs[s].level + 1
    {
      if s < |xs| && t < |xs| {
        assert zs[s] == xs[s] && zs[t] == xs[t];
      } else if |xs| <= s && |xs| <= t {
        assert zs[s] == ys[s - |xs|] && zs[t] == ys[t - |xs|];
      }
    }
  }

  /** Putting a node's own visit before (pre-order) or after (post-order) the visits of the
      subtrees of its children keeps parents and children ordered. */
  lemma ParentChildWithRoot(a: Arena, v: Visit, below: seq<Visit>, order: Order)
    requires ParentChildOrdered(a, below, order)
    requires v.node !in NodesOf(below)
    requires v.node in a.parentOf && a.parentOf[v.node].Some? ==> a.parentOf[v.node].value !in NodesOf(below)
    requires v.node in a.parentOf ==> a.parentOf[v.node] != Some(v.node)
    requires forall k :: (0 <= k < |below| && below[k].node in a.parentOf &&
                          a.parentOf[below[k].node] == Some(v.node)) ==> below[k].level == v.level + 1
    ensures ParentChildOrdered(a, if order == PreOrder then [v] + below else below + [v], order)
  {
    var vs := if order == PreOrder then [v] + below else below + [v];
    var off := if order == PreOrder then 1 else 0;
    var self := if order == PreOrder then 0 else |below|;
    forall k | 0 <= k < |below|
      ensures v.node in a.parentOf ==> a.parentOf[v.node] != Some(below[k].node)
    {
      assert below[k] in below && below[k].node in NodesOf(below);
    }
    forall i, j | 0 <= i < |vs| && 0 <= j < |vs| && vs[j].node in a.parentOf &&
                  a.parentOf[vs[j].node] == Some(vs[i].node)
      ensures (if order == PreOrder then i < j else j < i) && vs[j].level == vs[i].level + 1
    {
      if i == self {
        assert vs[j] == below[j - off];
      } else {
        assert vs[i] == below[i - off];
        assert j != self ==> vs[j] == below[j - off];
      }
    }
  }

  /** There is no parent link between the subtrees of the first i children of p and the
      subtree of child i, in either direction. */
  lemma SubtreesUnlinked(a: Arena, p: NodeId, i: nat)
    requires WellFormed(a) && p in a.loopOf && i < |a.childrenOf[p]|
    ensures NoParentIn(a, SubtreesUpTo(a, p, i), Subtree(a, a.childrenOf[p][i]))
    ensures NoParentIn(a, Subtree(a, a.childrenOf[p][i]), SubtreesUpTo(a, p, i))
  {
    var c := a.childrenOf[p][i];
    SubtreesUpToDisjoint(a, p, i, i);
    SubtreesUpToRank(a, p, i);
    SubtreeRank(a, c);
    forall m | m in Subtree(a, c) && m in a.parentOf && a.parentOf[m].Some?
      ensures a.parentOf[m].value !in SubtreesUpTo(a, p, i)
    {
      if m != c {
        ParentInSubtree(a, c, m);
      }
    }
    forall m | m in SubtreesUpTo(a, p, i) && m in a.parentOf && a.parentOf[m].Some?
      ensures a.parentOf[m].value !in Subtree(a, c)
    {
      ParentInSubtreesUpTo(a, p, i, m);
    }
  }

  /** In a traversal a parent and its child are visited in the traversal's order, the child
      one level deeper. */
  lemma {:induction false} TraversalOrdersParentAndChild(a: Arena, n: NodeId, level: nat, order: Order)
    requires WellFormed(a) && n in a.loopOf
    ensures ParentChildOrdered(a, Traversal(a, n, level, order), order)
    decreases a.rank[n], 1
  {
    var k := |a.childrenOf[n]|;
    var below := TraversalUpTo(a, n, k, level + 1, order);
    TraversalUpToOrdersParentAndChild(a, n, k, level + 1, order);
    TraversalUpToChildLevel(a, n, k, level + 1, order);
    TraversalUpToCoversSubtrees(a, n, k, level + 1, order);
    SubtreesUpToRank(a, n, k);
    if a.parentOf[n].Some? {
      ParentRank(a, n);
    }
    ParentChildWithRoot(a, Visit(n, a.loopOf[n], level), below, order);
  }

  lemma {:induction false} TraversalUpToOrdersParentAndChild(a: Arena, p: NodeId, i: nat, level: nat, order: Order)
    requires WellFormed(a) && p in a.loopOf && i <= |a.childrenOf[p]|
    ensures ParentChildOrdered(a, TraversalUpTo(a, p, i, level, order), order)
    decreases a.rank[p], 0, i
  {
    if i > 0 {
      TraversalUpToOrdersParentAndChild(a, p, i - 1, level, order);
      TraversalOrdersParentAndChild(a, a.childrenOf[p][i - 1], level, order);
      TraversalUpToOrderStep(a, p, i, level, order);
    }
  }

  /** The step of the induction above: appending the traversal of the next child's subtree. */
  lemma TraversalUpToOrderStep(a: Arena, p: NodeId, i: nat, level: nat, order: Order)
    requires WellFormed(a) && p in a.loopOf && 0 < i <= |a.childrenOf[p]|
    requires ParentChildOrdered(a, TraversalUpTo(a, p, i - 1, level, order), order)
    requires ParentChildOrdered(a, Traversal(a, a.childrenOf[p][i - 1], level, order), order)
    ensures ParentChildOrdered(a, TraversalUpTo(a, p, i, level, order), order)
  {
    var c := a.childrenOf[p][i - 1];
    var xs := TraversalUpTo(a, p, i - 1, level, order);
    var ys := Traversal(a, c, level, order);
    var s1, s2 := SubtreesUpTo(a, p, i - 1), Subtree(a, c);
    assert NoParentIn(a, s1, s2) && NoParentIn(a, s2, s1) by {
      SubtreesUnlinked(a, p, i - 1);
    }
    assert NodesOf(xs) == s1 by {
      TraversalUpToNodes(a, p, i - 1, level, order);
    }
    assert NodesOf(ys) == s2 by {
      TraversalNodes(a, c, level, order);
    }
    ParentChildConcat(a, xs, ys, order);
  }

  lemma TraversalNodes(a: Arena, n: NodeId, level: nat, order: Order)
    requires WellFormed(a) && n in a.loopOf
    ensures NodesOf(Traversal(a, n, level, order)) == Subtree(a, n)
  {
    TraversalCoversSubtree(a, n, level, order);
  }

  lemma TraversalUpToNodes(a: Arena, p: NodeId, i: nat, level: nat, order: Order)
    requires WellFormed(a) && p in a.loopOf && i <= |a.childrenOf[p]|
    ensures NodesOf(TraversalUpTo(a, p, i, level, order)) == SubtreesUpTo(a, p, i)
  {
    TraversalUpToCoversSubtrees(a, p, i, level, order);
  }

  /** The children of p are visited at the level the traversal of their subtrees starts at. */
  lemma {:induction false} TraversalUpToChildLevel(a: Arena, p: NodeId, i: nat, level: nat, order: Order)
    requires WellFormed(a) && p in a.loopOf && i <= |a.childrenOf[p]|
    ensures forall k :: 0 <= k < |TraversalUpTo(a, p, i, level, order)| &&
                        TraversalUpTo(a, p, i, level, order)[k].node in a.parentOf &&
                        a.parentOf[TraversalUpTo(a, p, i, level, order)[k].node] == Some(p) ==>
              TraversalUpTo(a, p, i, level, order)[k].level == level
    decreases i
  {
    if i > 0 {
      var c := a.childrenOf[p][i - 1];
      var xs := TraversalUpTo(a, p, i - 1, level, order);
      var ys := Traversal(a, c, level, order);
      var zs := xs + ys;
      TraversalUpToChildLevel(a, p, i - 1, level, order);
      TraversalCoversSubtree(a, c, level, order);
      TraversalLevels(a, c, level, order);
      SubtreeRank(a, c);
      forall t | 0 <= t < |zs| && zs[t].node in a.parentOf && a.parentOf[zs[t].node] == Some(p)
        ensures zs[t].level == level
      {
        if t < |xs| {
          assert zs[t] == xs[t];
        } else {
          assert zs[t] == ys[t - |xs|] && zs[t] in ys && zs[t].node in NodesOf(ys);
          if zs[t].node != c {
            ParentInSubtree(a, c, zs[t].node);
          }
        }
      }
    }
  }
}
