/**
  * What destroying a LoopTree node does to the shape of the forest.
  *
  * An internal node is erased from its parent's children and its own children move up to
  * that parent; a root is unregistered from the forest and its children become roots.  The
  * node itself leaves the arena.  Everything else keeps its links.
  */
module LoopTreeRemoval {
  import opened Wrappers
  import opened Sequences
  import opened LoopTreeSpec

  /** A child set with one element erased. */
  function Without(s: seq<NodeId>, x: NodeId): (r: seq<NodeId>)
    ensures forall y :: y in r <==> y in s && y != x
    ensures Distinct(s) ==> Distinct(r)
  {
    if |s| == 0 then []
    else if s[0] == x then Without(s[1..], x)
    else
      var rest := Without(s[1..], x);
      assert Distinct(s) ==> s[0] !in s[1..];
      [s[0]] + rest
  }

  /** The arena after the destructor of x has run. */
  ghost function RemoveSpec(a: Arena, x: NodeId): Arena
    requires x in a.parentOf && x in a.childrenOf
  {
    var up := a.parentOf[x];
    var kids := a.childrenOf[x];
    Arena(
      if up.None? then (a.trees - {x}) + (set c | c in kids) else a.trees,
      a.loopOf - {x},
      map m | m in a.parentOf && m != x :: if m in kids then up else a.parentOf[m],
      if up.Some? && up.value in a.childrenOf
      then (a.childrenOf - {x})[up.value := Without(a.childrenOf[up.value], x) + kids]
      else a.childrenOf - {x},
      a.rank - {x})
  }

  /** The children of x point back to x, lie below it in rank, and are not x's parent's
      other children. */
  lemma ChildrenOfRemoved(a: Arena, x: NodeId)
    requires WellFormed(a) && x in a.loopOf
    ensures forall c :: c in a.childrenOf[x] ==>
              c in a.parentOf && a.parentOf[c] == Some(x) && a.rank[c] < a.rank[x] && c != x
    ensures a.parentOf[x].Some? ==>
              a.parentOf[x].value in a.loopOf && a.parentOf[x].value != x &&
              a.rank[x] < a.rank[a.parentOf[x].value] && x in a.childrenOf[a.parentOf[x].value]
    ensures a.parentOf[x].Some? ==>
              forall c :: c in a.childrenOf[x] ==> c !in a.childrenOf[a.parentOf[x].value]
  {
    forall c | c in a.childrenOf[x]
      ensures c in a.parentOf && a.parentOf[c] == Some(x) && a.rank[c] < a.rank[x]
    {
      var i :| 0 <= i < |a.childrenOf[x]| && a.childrenOf[x][i] == c;
    }
    if a.parentOf[x].Some? {
      ParentRank(a, x);
      var p := a.parentOf[x].value;
      forall j | 0 <= j < |a.childrenOf[p]| ensures a.childrenOf[p][j] !in a.childrenOf[x] {
      }
    }
  }

  /** Removing a node keeps parent and children links consistent, the roots exactly the
      parentless nodes, and the ranks decreasing. */
  lemma RemoveKeepsWellFormed(a: Arena, x: NodeId)
    requires WellFormed(a) && x in a.loopOf
    ensures WellFormed(RemoveSpec(a, x))
  {
    var b := RemoveSpec(a, x);
    var up := a.parentOf[x];
    var kids := a.childrenOf[x];
    ChildrenOfRemoved(a, x);
    assert b.parentOf.Keys == b.loopOf.Keys;
    assert b.childrenOf.Keys == b.loopOf.Keys;
    assert forall n {:trigger n in b.trees} :: n in b.trees ==> n in b.parentOf && b.parentOf[n].None? by {
      forall n | n in b.trees ensures n in b.parentOf && b.parentOf[n].None? {
        if n !in kids {
          assert n in a.trees;
        }
      }
    }
    assert forall n {:trigger b.parentOf[n]} :: n in b.parentOf && b.parentOf[n].None? ==> n in b.trees;
    RemoveKeepsChildLinks(a, x);
    RemoveKeepsParentLinks(a, x);
    RemoveKeepsDistinct(a, x);
  }

  lemma RemoveKeepsChildLinks(a: Arena, x: NodeId)
    requires WellFormed(a) && x in a.loopOf
    ensures var b := RemoveSpec(a, x);
      forall n, i {:trigger b.childrenOf[n][i]} :: n in b.childrenOf && 0 <= i < |b.childrenOf[n]| ==>
        var c := b.childrenOf[n][i];
        c in b.parentOf && b.parentOf[c] == Some(n) && b.rank[c] < b.rank[n]
  {
    var b := RemoveSpec(a, x);
    forall n, i | n in b.childrenOf && 0 <= i < |b.childrenOf[n]|
      ensures b.childrenOf[n][i] in b.parentOf && b.parentOf[b.childrenOf[n][i]] == Some(n)
      ensures b.rank[b.childrenOf[n][i]] < b.rank[n]
    {
      if a.parentOf[x] == Some(n) {
        AdoptedChildLink(a, x, b.childrenOf[n][i]);
      } else {
        KeptChildLink(a, x, n, i);
      }
    }
  }

  /** A child of the removed node's parent, after the removal, links back to it. */
  lemma AdoptedChildLink(a: Arena, x: NodeId, c: NodeId)
    requires WellFormed(a) && x in a.loopOf && a.parentOf[x].Some?
    requires c in RemoveSpec(a, x).childrenOf[a.parentOf[x].value]
    ensures var b := RemoveSpec(a, x); var p := a.parentOf[x].value;
      c in b.parentOf && b.parentOf[c] == Some(p) && b.rank[c] < b.rank[p]
  {
    var p := a.parentOf[x].value;
    ChildrenOfRemoved(a, x);
    if c !in a.childrenOf[x] {
      assert c in a.childrenOf[p] && c != x;
      var j :| 0 <= j < |a.childrenOf[p]| && a.childrenOf[p][j] == c;
    }
  }

  /** A node other than the removed node's parent keeps its children and their links. */
  lemma KeptChildLink(a: Arena, x: NodeId, n: NodeId, i: nat)
    requires WellFormed(a) && x in a.loopOf && a.parentOf[x] != Some(n)
    requires n in RemoveSpec(a, x).childrenOf && i < |RemoveSpec(a, x).childrenOf[n]|
    ensures var b := RemoveSpec(a, x); var c := b.childrenOf[n][i];
      c in b.parentOf && b.parentOf[c] == Some(n) && b.rank[c] < b.rank[n]
  {
    ChildrenOfRemoved(a, x);
    assert RemoveSpec(a, x).childrenOf[n] == a.childrenOf[n];
    var c := a.childrenOf[n][i];
    assert a.parentOf[c] == Some(n);
  }

  lemma RemoveKeepsParentLinks(a: Arena, x: NodeId)
    requires WellFormed(a) && x in a.loopOf
    ensures var b := RemoveSpec(a, x);
      forall c {:trigger b.parentOf[c]} :: c in b.parentOf && b.parentOf[c].Some? ==>
        b.parentOf[c].value in b.childrenOf && c in b.childrenOf[b.parentOf[c].value]
  {
    var b := RemoveSpec(a, x);
    var up := a.parentOf[x];
    var kids := a.childrenOf[x];
    ChildrenOfRemoved(a, x);
    forall c | c in b.parentOf && b.parentOf[c].Some?
      ensures b.parentOf[c].value in b.childrenOf && c in b.childrenOf[b.parentOf[c].value]
    {
      if c !in kids {
        var q := a.parentOf[c].value;
        assert c in a.childrenOf[q];
        assert q != x;
      }
    }
  }

  lemma RemoveKeepsDistinct(a: Arena, x: NodeId)
    requires WellFormed(a) && x in a.loopOf
    ensures var b := RemoveSpec(a, x);
      forall n {:trigger b.childrenOf[n]} :: n in b.childrenOf ==> Distinct(b.childrenOf[n])
  {
    var b := RemoveSpec(a, x);
    var up := a.parentOf[x];
    var kids := a.childrenOf[x];
    ChildrenOfRemoved(a, x);
    if up.Some? {
      var p := up.value;
      var kept := Without(a.childrenOf[p], x);
      assert Distinct(kept);
      forall c | c in kept ensures c !in kids {
        var j :| 0 <= j < |a.childrenOf[p]| && a.childrenOf[p][j] == c;
      }
      DistinctConcat(kept, kids);
    }
  }

  lemma DistinctConcat(xs: seq<NodeId>, ys: seq<NodeId>)
    requires Distinct(xs) && Distinct(ys)
    requires forall y :: y in xs ==> y !in ys
    ensures Distinct(xs + ys)
  {
    var zs := xs + ys;
    forall i, j | 0 <= i < j < |zs| ensures zs[i] != zs[j] {
      if j < |xs| {
        assert zs[i] == xs[i] && zs[j] == xs[j];
      } else if |xs| <= i {
        assert zs[i] == ys[i - |xs|] && zs[j] == ys[j - |xs|];
      } else {
        assert zs[i] == xs[i] && zs[i] in xs;
        assert zs[j] == ys[j - |xs|] && zs[j] in ys;
      }
    }
  }

  /** Two different children of a node have disjoint loops. */
  lemma SiblingLoopsDisjoint(a: Arena, n: NodeId, c1: NodeId, c2: NodeId)
    requires WellFormed(a) && WellNested(a) && n in a.childrenOf
    requires c1 in a.childrenOf[n] && c2 in a.childrenOf[n] && c1 != c2
    ensures a.loopOf[c1].blocks !! a.loopOf[c2].blocks
  {
    var i :| 0 <= i < |a.childrenOf[n]| && a.childrenOf[n][i] == c1;
    var j :| 0 <= j < |a.childrenOf[n]| && a.childrenOf[n][j] == c2;
    if i < j {
      assert a.loopOf[a.childrenOf[n][i]].blocks !! a.loopOf[a.childrenOf[n][j]].blocks;
    } else {
      assert a.loopOf[a.childrenOf[n][j]].blocks !! a.loopOf[a.childrenOf[n][i]].blocks;
    }
  }

  /** A child's loop lies strictly inside its parent's. */
  lemma ChildLoopInside(a: Arena, n: NodeId, c: NodeId)
    requires WellFormed(a) && WellNested(a) && n in a.childrenOf && c in a.childrenOf[n]
    ensures a.loopOf[c].blocks < a.loopOf[n].blocks
  {
    var i :| 0 <= i < |a.childrenOf[n]| && a.childrenOf[n][i] == c;
  }

  /** Removing a node keeps the loops nested: the children that move up lie inside the
      removed loop, which lay inside its parent and apart from its siblings (or, for a root,
      apart from the other roots). */
  lemma RemoveKeepsWellNested(a: Arena, x: NodeId)
    requires WellFormed(a) && WellNested(a) && x in a.loopOf
    ensures WellFormed(RemoveSpec(a, x)) && WellNested(RemoveSpec(a, x))
  {
    RemoveKeepsWellFormed(a, x);
    var b := RemoveSpec(a, x);
    var up := a.parentOf[x];
    var kids := a.childrenOf[x];
    ChildrenOfRemoved(a, x);
    forall c | c in kids ensures a.loopOf[c].blocks < a.loopOf[x].blocks {
      ChildLoopInside(a, x, c);
    }
    forall n, i | n in b.childrenOf && 0 <= i < |b.childrenOf[n]|
      ensures b.loopOf[b.childrenOf[n][i]].blocks < b.loopOf[n].blocks
    {
      var c := b.childrenOf[n][i];
      if up.Some? && n == up.value {
        assert c in b.childrenOf[n];
        if c in kids {
          ChildLoopInside(a, n, x);
        } else {
          ChildLoopInside(a, n, c);
        }
      } else {
        assert c == a.childrenOf[n][i];
      }
    }
    forall n, i, j | n in b.childrenOf && 0 <= i < j < |b.childrenOf[n]|
      ensures b.loopOf[b.childrenOf[n][i]].blocks !! b.loopOf[b.childrenOf[n][j]].blocks
    {
      var c1, c2 := b.childrenOf[n][i], b.childrenOf[n][j];
      if up.Some? && n == up.value {
        assert Distinct(b.childrenOf[n]);
        assert c1 in b.childrenOf[n] && c2 in b.childrenOf[n] && c1 != c2;
        if c1 in kids && c2 in kids {
          SiblingLoopsDisjoint(a, x, c1, c2);
        } else if c1 in kids {
          SiblingLoopsDisjoint(a, n, x, c2);
        } else if c2 in kids {
          SiblingLoopsDisjoint(a, n, c1, x);
        } else {
          SiblingLoopsDisjoint(a, n, c1, c2);
        }
      } else {
        assert c1 == a.childrenOf[n][i] && c2 == a.childrenOf[n][j];
      }
    }
    forall r1, r2 | r1 in b.trees && r2 in b.trees && r1 != r2
      ensures b.loopOf[r1].blocks !! b.loopOf[r2].blocks
    {
      if up.None? {
        if r1 in kids && r2 in kids {
          SiblingLoopsDisjoint(a, x, r1, r2);
        } else if r1 in kids {
          assert r2 in a.trees && x in a.trees;
        } else if r2 in kids {
          assert r1 in a.trees && x in a.trees;
        }
      }
    }
  }
  /** The parent links the destructor leaves, once the node is dropped, are RemoveSpec's. */
  lemma RemoveSpecParents(a: Arena, x: NodeId, parents: map<NodeId, Option<NodeId>>)
    requires x in a.parentOf && x in a.childrenOf
    requires parents.Keys == a.parentOf.Keys
    requires forall m :: m in parents ==>
               parents[m] == if m in a.childrenOf[x] then a.parentOf[x] else a.parentOf[m]
    ensures parents - {x} == RemoveSpec(a, x).parentOf
  {
  }

  /** The children the destructor leaves, once the node is dropped, are RemoveSpec's. */
  lemma RemoveSpecChildren(a: Arena, x: NodeId, children: map<NodeId, seq<NodeId>>)
    requires x in a.parentOf && x in a.childrenOf
    requires a.parentOf[x].Some? ==>
               var p := a.parentOf[x].value;
               p != x && p in a.childrenOf &&
               children == a.childrenOf[p := Without(a.childrenOf[p], x) + a.childrenOf[x]]
    requires a.parentOf[x].None? ==> children == a.childrenOf
    ensures children - {x} == RemoveSpec(a, x).childrenOf
  {
  }

  /** The state the destructor's statements leave, once the node is dropped from every map,
      is RemoveSpec's arena. */
  lemma RemoveEffect(a: Arena, x: NodeId, trees: set<NodeId>,
                     parents: map<NodeId, Option<NodeId>>, children: map<NodeId, seq<NodeId>>)
    requires x in a.parentOf && x in a.childrenOf
    requires a.parentOf[x].None? ==> trees == (a.trees - {x}) + (set c | c in a.childrenOf[x])
    requires a.parentOf[x].Some? ==> trees == a.trees
    requires parents.Keys == a.parentOf.Keys
    requires forall m :: m in parents ==>
               parents[m] == if m in a.childrenOf[x] then a.parentOf[x] else a.parentOf[m]
    requires a.parentOf[x].Some? ==>
               var p := a.parentOf[x].value;
               p != x && p in a.childrenOf &&
               children == a.childrenOf[p := Without(a.childrenOf[p], x) + a.childrenOf[x]]
    requires a.parentOf[x].None? ==> children == a.childrenOf
    ensures Arena(trees, a.loopOf - {x}, parents - {x}, children - {x}, a.rank - {x}) == RemoveSpec(a, x)
  {
    RemoveSpecParents(a, x, parents);
    RemoveSpecChildren(a, x, children);
  }
}
