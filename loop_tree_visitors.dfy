/**
  * What running a visitor over a traversal computes.
  *
  * A visitor of the source is a closure over local variables of its caller that returns true
  * to cancel the traversal.  Here the captured locals are an explicit state S that the
  * visitor threads: a visitor maps the state and one visit to the new state and the
  * cancellation flag.  RunVisitor feeds the visits of a traversal, in order, to a visitor
  * until it asks to stop, which is what the recursive traversals of the source do.
  */
module LoopTreeVisitors {
  import opened Wrappers
  import opened LoopTreeSpec

  type Visitor<!S> = (S, Visit) -> (S, bool)

  /** The state after feeding vs to f in order, and whether f cancelled the run. */
  ghost function RunVisitor<S>(vs: seq<Visit>, s: S, f: Visitor<S>): (S, bool)
  {
    if |vs| == 0 then (s, false)
    else
      var r := f(s, vs[0]);
      if r.1 then r else RunVisitor(vs[1..], r.0, f)
  }

  /** How many times the run calls the visitor. */
  ghost function CallsMade<S>(vs: seq<Visit>, s: S, f: Visitor<S>): (k: nat)
    ensures k <= |vs|
  {
    if |vs| == 0 then 0
    else
      var r := f(s, vs[0]);
      if r.1 then 1 else 1 + CallsMade(vs[1..], r.0, f)
  }

  /** Running over xs + ys runs over xs and, unless that run was cancelled, goes on over ys
      from the state it reached. */
  lemma {:induction false} RunConcat<S>(xs: seq<Visit>, ys: seq<Visit>, s: S, f: Visitor<S>)
    ensures RunVisitor(xs + ys, s, f) ==
            (var r := RunVisitor(xs, s, f); if r.1 then r else RunVisitor(ys, r.0, f))
    decreases |xs|
  {
    if |xs| > 0 {
      assert (xs + ys)[0] == xs[0];
      assert (xs + ys)[1..] == xs[1..] + ys;
      var r := f(s, xs[0]);
      if !r.1 {
        RunConcat(xs[1..], ys, r.0, f);
      }
    } else {
      assert xs + ys == ys;
    }
  }

  /** A run that is not cancelled calls the visitor on every visit.  A cancelled run calls it
      on a prefix only: the last call is the one that cancelled, the calls before it did not,
      and the visits after it play no part in the outcome. */
  lemma {:induction false} CallsMadeSpec<S>(vs: seq<Visit>, s: S, f: Visitor<S>)
    ensures !RunVisitor(vs, s, f).1 ==> CallsMade(vs, s, f) == |vs|
    ensures RunVisitor(vs, s, f).1 ==>
              0 < CallsMade(vs, s, f) &&
              !RunVisitor(vs[..CallsMade(vs, s, f) - 1], s, f).1 &&
              RunVisitor(vs[..CallsMade(vs, s, f)], s, f) == RunVisitor(vs, s, f)
    decreases |vs|
  {
    if |vs| > 0 {
      var r := f(s, vs[0]);
      if r.1 {
        assert vs[..1][0] == vs[0] && vs[..1][1..] == [];
        assert vs[..0] == [];
      } else {
        var rest := vs[1..];
        CallsMadeSpec(rest, r.0, f);
        var k := CallsMade(vs, s, f);
        if RunVisitor(vs, s, f).1 {
          assert vs[..k][0] == vs[0] && vs[..k][1..] == rest[..k - 1];
          if k - 1 > 0 {
            assert vs[..k - 1][0] == vs[0] && vs[..k - 1][1..] == rest[..k - 2];
          }
        }
      }
    }
  }

  /** Once a run is cancelled, whatever would have followed the last call is never seen. */
  lemma CancelledRunIgnoresRest<S>(vs: seq<Visit>, rest: seq<Visit>, s: S, f: Visitor<S>)
    requires RunVisitor(vs, s, f).1
    ensures RunVisitor(vs[..CallsMade(vs, s, f)] + rest, s, f) == RunVisitor(vs, s, f)
  {
    CallsMadeSpec(vs, s, f);
    RunConcat(vs[..CallsMade(vs, s, f)], rest, s, f);
  }

  lemma NodesOfCons(vs: seq<Visit>)
    requires |vs| > 0
    ensures NodesOf(vs) == {vs[0].node} + NodesOf(vs[1..])
  {
    assert vs == [vs[0]] + vs[1..];
    NodesOfConcat([vs[0]], vs[1..]);
  }

  /** A pre-order run visits the node first and, unless that cancels, the children's subtrees. */
  lemma RunPreOrder<S>(a: Arena, n: NodeId, level: nat, s: S, f: Visitor<S>)
    requires WellFormed(a) && n in a.loopOf
    ensures RunVisitor(Traversal(a, n, level, PreOrder), s, f) ==
            (var r := f(s, Visit(n, a.loopOf[n], level));
             if r.1 then r
             else RunVisitor(TraversalUpTo(a, n, |a.childrenOf[n]|, level + 1, PreOrder), r.0, f))
  {
    var v := Visit(n, a.loopOf[n], level);
    var below := TraversalUpTo(a, n, |a.childrenOf[n]|, level + 1, PreOrder);
    RunConcat([v], below, s, f);
    assert [v][1..] == [];
  }

  /** A post-order run visits the children's subtrees and, unless they cancel, the node. */
  lemma RunPostOrder<S>(a: Arena, n: NodeId, level: nat, s: S, f: Visitor<S>)
    requires WellFormed(a) && n in a.loopOf
    ensures RunVisitor(Traversal(a, n, level, PostOrder), s, f) ==
            (var r := RunVisitor(TraversalUpTo(a, n, |a.childrenOf[n]|, level + 1, PostOrder), s, f);
             if r.1 then r
             else f(r.0, Visit(n, a.loopOf[n], level)))
  {
    var v := Visit(n, a.loopOf[n], level);
    var below := TraversalUpTo(a, n, |a.childrenOf[n]|, level + 1, PostOrder);
    RunConcat(below, [v], s, f);
    var r := RunVisitor(below, s, f);
    if !r.1 {
      var q := f(r.0, v);
      assert [v][1..] == [];
      if !q.1 {
        assert RunVisitor([v][1..], q.0, f) == (q.0, false);
      }
    }
  }

  /** Running over the subtrees of the first i + 1 children runs over those of the first i
      and, unless cancelled, over the subtree of child i. */
  lemma RunUpToStep<S>(a: Arena, p: NodeId, i: nat, level: nat, order: Order, s: S, f: Visitor<S>)
    requires WellFormed(a) && p in a.loopOf && i < |a.childrenOf[p]|
    ensures RunVisitor(TraversalUpTo(a, p, i + 1, level, order), s, f) ==
            (var r := RunVisitor(TraversalUpTo(a, p, i, level, order), s, f);
             if r.1 then r else RunVisitor(Traversal(a, a.childrenOf[p][i], level, order), r.0, f))
  {
    RunConcat(TraversalUpTo(a, p, i, level, order), Traversal(a, a.childrenOf[p][i], level, order), s, f);
  }

  /** Once the run over the first j children's subtrees is cancelled, the later children are
      never visited. */
  lemma RunUpToStopped<S>(a: Arena, p: NodeId, j: nat, k: nat, level: nat, order: Order, s: S, f: Visitor<S>)
    requires WellFormed(a) && p in a.loopOf && j <= k <= |a.childrenOf[p]|
    requires RunVisitor(TraversalUpTo(a, p, j, level, order), s, f).1
    ensures RunVisitor(TraversalUpTo(a, p, k, level, order), s, f) ==
            RunVisitor(TraversalUpTo(a, p, j, level, order), s, f)
  {
    var xs := TraversalUpTo(a, p, j, level, order);
    var zs := TraversalUpTo(a, p, k, level, order);
    UpToPrefix(a, p, j, k, level, order);
    assert zs == xs + zs[|xs|..];
    RunConcat(xs, zs[|xs|..], s, f);
  }

  lemma PrefixConcat(xs: seq<Visit>, ys: seq<Visit>, zs: seq<Visit>)
    requires xs <= ys
    ensures xs <= ys + zs
  {
    assert (ys + zs)[..|xs|] == ys[..|xs|];
  }

  /** The traversal of the first j children's subtrees begins the traversal of the first k. */
  lemma {:induction false} UpToPrefix(a: Arena, p: NodeId, j: nat, k: nat, level: nat, order: Order)
    requires WellFormed(a) && p in a.loopOf && j <= k <= |a.childrenOf[p]|
    ensures TraversalUpTo(a, p, j, level, order) <= TraversalUpTo(a, p, k, level, order)
    decreases k
  {
    if k > j {
      var xs := TraversalUpTo(a, p, j, level, order);
      var ys := TraversalUpTo(a, p, k - 1, level, order);
      var zs := Traversal(a, a.childrenOf[p][k - 1], level, order);
      assert xs <= ys by {
        UpToPrefix(a, p, j, k - 1, level, order);
      }
      assert TraversalUpTo(a, p, k, level, order) == ys + zs;
      PrefixConcat(xs, ys, zs);
    }
  }

  // ---------------------------------------------------------------------------------------
  // The visitors of the subtree queries
  // ---------------------------------------------------------------------------------------

  /** The visitor of getNodes: inserts every visited node, never cancels. */
  function CollectNode(s: set<NodeId>, v: Visit): (r: (set<NodeId>, bool))
    ensures !r.1
  {
    (s + {v.node}, false)
  }

  lemma {:induction false} CollectNodeRun(vs: seq<Visit>, s: set<NodeId>)
    ensures RunVisitor(vs, s, CollectNode) == (s + NodesOf(vs), false)
    decreases |vs|
  {
    if |vs| > 0 {
      assert RunVisitor(vs, s, CollectNode) == RunVisitor(vs[1..], s + {vs[0].node}, CollectNode);
      CollectNodeRun(vs[1..], s + {vs[0].node});
      NodesOfCons(vs);
      assert s + NodesOf(vs) == s + {vs[0].node} + NodesOf(vs[1..]);
    } else {
      assert NodesOf(vs) == {};
      assert s + {} == s;
    }
  }

  /** The visitor of getDescendants: inserts every visited node except the root it captured. */
  function DescendantCollector(root: NodeId): (r: Visitor<set<NodeId>>)
  {
    (s: set<NodeId>, v: Visit) => if v.node == root then (s, false) else (s + {v.node}, false)
  }

  lemma {:induction false} DescendantCollectorRun(vs: seq<Visit>, s: set<NodeId>, root: NodeId)
    ensures RunVisitor(vs, s, DescendantCollector(root)) == (s + (NodesOf(vs) - {root}), false)
    decreases |vs|
  {
    if |vs| > 0 {
      var s1 := if vs[0].node == root then s else s + {vs[0].node};
      assert RunVisitor(vs, s, DescendantCollector(root)) == RunVisitor(vs[1..], s1, DescendantCollector(root));
      DescendantCollectorRun(vs[1..], s1, root);
      NodesOfCons(vs);
      assert s + (NodesOf(vs) - {root}) == s1 + (NodesOf(vs[1..]) - {root});
    } else {
      assert NodesOf(vs) == {};
      assert s + (NodesOf(vs) - {root}) == s;
    }
  }

  ghost function LoopsOf(vs: seq<Visit>): set<LoopStructure>
  {
    set v | v in vs :: v.loop
  }

  /** The visitor of getLoops: inserts the loop of every visited node. */
  function CollectLoop(s: set<LoopStructure>, v: Visit): (r: (set<LoopStructure>, bool))
    ensures !r.1
  {
    (s + {v.loop}, false)
  }

  lemma {:induction false} CollectLoopRun(vs: seq<Visit>, s: set<LoopStructure>)
    ensures RunVisitor(vs, s, CollectLoop) == (s + LoopsOf(vs), false)
    decreases |vs|
  {
    if |vs| > 0 {
      CollectLoopRun(vs[1..], s + {vs[0].loop});
      assert forall l :: l in LoopsOf(vs) <==> l == vs[0].loop || l in LoopsOf(vs[1..]) by {
        assert vs == [vs[0]] + vs[1..];
        assert forall v :: v in vs <==> v == vs[0] || v in vs[1..];
      }
      assert LoopsOf(vs) == {vs[0].loop} + LoopsOf(vs[1..]);
      assert s + LoopsOf(vs) == s + {vs[0].loop} + LoopsOf(vs[1..]);
    } else {
      assert LoopsOf(vs) == {};
      assert s + {} == s;
    }
  }

  /** The loops a traversal visits are the loops of the subtree's nodes. */
  lemma LoopsOfTraversal(a: Arena, n: NodeId, level: nat, order: Order)
    requires WellFormed(a) && n in a.loopOf
    ensures SubtreeLoops(a, n) == LoopsOf(Traversal(a, n, level, order))
  {
    var vs := Traversal(a, n, level, order);
    TraversalNodes(a, n, level, order);
    TraversalLevels(a, n, level, order);
    SubtreeRank(a, n);
    forall l | l in LoopsOf(vs) ensures l in SubtreeLoops(a, n) {
      var v :| v in vs && v.loop == l;
      assert v.node in NodesOf(vs);
    }
    forall l | l in SubtreeLoops(a, n) ensures l in LoopsOf(vs) {
      var m :| m in Subtree(a, n) && a.loopOf[m] == l;
      assert m in NodesOf(vs);
      var v :| v in vs && v.node == m;
    }
  }

  // ---------------------------------------------------------------------------------------
  // The visitors of the innermost and outermost queries
  // ---------------------------------------------------------------------------------------

  /** The locals the innermost and outermost visitors update: the best containing loop found
      so far (None for the null it starts from) and its tree level. */
  datatype Best = Best(loop: Option<LoopStructure>, level: nat)

  predicate Contains(v: Visit, bb: Block)
  {
    IsIncluded(v.loop, bb)
  }

  /** l is the loop of a visit that contains bb at the deepest level any containing visit has. */
  ghost predicate DeepestContaining(vs: seq<Visit>, bb: Block, l: LoopStructure)
  {
    exists k :: 0 <= k < |vs| && Contains(vs[k], bb) && vs[k].loop == l &&
      forall j :: 0 <= j < |vs| && Contains(vs[j], bb) ==> vs[j].level <= vs[k].level
  }

  /** The visitor of getInnermostLoopThatContains: the first containing loop is taken, a later
      one replaces it only at a strictly deeper level.  The assertion that two containing
      loops never share a level is not executed here; InnermostAssertionHolds proves it. */
  function InnermostStep(bb: Block): (r: Visitor<Best>)
  {
    (st: Best, v: Visit) =>
      if !Contains(v, bb) then (st, false)
      else if st.loop.None? then (Best(Some(v.loop), v.level), false)
      else if v.level > st.level then (Best(Some(v.loop), v.level), false)
      else (st, false)
  }

  /** The visitor of getOutermostLoopThatContains: as above, at a strictly shallower level. */
  function OutermostStep(bb: Block): (r: Visitor<Best>)
  {
    (st: Best, v: Visit) =>
      if !Contains(v, bb) then (st, false)
      else if st.loop.None? then (Best(Some(v.loop), v.level), false)
      else if v.level < st.level then (Best(Some(v.loop), v.level), false)
      else (st, false)
  }

  /** The first containing visit is taken whatever its level. */
  lemma OutermostFirst(bb: Block, v: Visit)
    requires Contains(v, bb)
    ensures OutermostStep(bb)(Best(None, 0), v) == (Best(Some(v.loop), v.level), false)
  {
  }

  /** The innermost visitor never cancels.  It ends with no loop exactly when it started with
      none and no visit contains bb; otherwise it ends with the state it started from or with
      a containing visit, and no containing visit is deeper than where it ends. */
  lemma {:induction false} InnermostRun(vs: seq<Visit>, st: Best, bb: Block)
    ensures !RunVisitor(vs, st, InnermostStep(bb)).1
    ensures RunVisitor(vs, st, InnermostStep(bb)).0.loop.None? <==>
              st.loop.None? && forall k :: 0 <= k < |vs| ==> !Contains(vs[k], bb)
    ensures RunVisitor(vs, st, InnermostStep(bb)).0 == st ||
            exists k :: 0 <= k < |vs| && Contains(vs[k], bb) &&
                        RunVisitor(vs, st, InnermostStep(bb)).0 == Best(Some(vs[k].loop), vs[k].level)
    ensures RunVisitor(vs, st, InnermostStep(bb)).0.loop.Some? ==>
              forall k :: 0 <= k < |vs| && Contains(vs[k], bb) ==>
                vs[k].level <= RunVisitor(vs, st, InnermostStep(bb)).0.level
    ensures st.loop.Some? ==> st.level <= RunVisitor(vs, st, InnermostStep(bb)).0.level
    decreases |vs|
  {
    if |vs| > 0 {
      var f := InnermostStep(bb);
      var r := f(st, vs[0]);
      var rest := vs[1..];
      InnermostRun(rest, r.0, bb);
      var res := RunVisitor(vs, st, f).0;
      assert res == RunVisitor(rest, r.0, f).0;
      forall k | 0 <= k < |rest| ensures rest[k] == vs[k + 1] { }
      if res != r.0 {
        var k :| 0 <= k < |rest| && Contains(rest[k], bb) && res == Best(Some(rest[k].loop), rest[k].level);
        assert vs[k + 1] == rest[k];
      } else if r.0 != st {
        assert Contains(vs[0], bb) && res == Best(Some(vs[0].loop), vs[0].level);
      }
      assert forall k :: 1 <= k < |vs| ==> vs[k] == rest[k - 1];
    }
  }

  /** Once the outermost visitor holds a loop, visits no shallower than its level leave it. */
  lemma {:induction false} OutermostRunKeeps(vs: seq<Visit>, st: Best, bb: Block)
    requires st.loop.Some?
    requires forall k :: 0 <= k < |vs| ==> st.level <= vs[k].level
    ensures RunVisitor(vs, st, OutermostStep(bb)) == (st, false)
    decreases |vs|
  {
    if |vs| > 0 {
      assert forall k :: 0 <= k < |vs[1..]| ==> vs[1..][k] == vs[k + 1];
      OutermostRunKeeps(vs[1..], st, bb);
    }
  }

  // ---------------------------------------------------------------------------------------
  // The innermost query's assertion
  // ---------------------------------------------------------------------------------------

  /** Under the nesting of loops, every loop of a subtree lies within the subtree's root loop. */
  lemma {:induction false} SubtreeLoopsWithin(a: Arena, n: NodeId)
    requires Nested(a) && n in a.loopOf
    ensures forall m :: m in Subtree(a, n) ==> m in a.loopOf && a.loopOf[m].blocks <= a.loopOf[n].blocks
    decreases a.rank[n], 1
  {
    SubtreesUpToLoopsWithin(a, n, |a.childrenOf[n]|);
  }

  lemma {:induction false} SubtreesUpToLoopsWithin(a: Arena, p: NodeId, i: nat)
    requires Nested(a) && p in a.loopOf && i <= |a.childrenOf[p]|
    ensures forall m :: m in SubtreesUpTo(a, p, i) ==> m in a.loopOf && a.loopOf[m].blocks <= a.loopOf[p].blocks
    decreases a.rank[p], 0, i
  {
    if i > 0 {
      var c := a.childrenOf[p][i - 1];
      var s1, s2 := SubtreesUpTo(a, p, i - 1), Subtree(a, c);
      assert forall m :: m in s1 ==> m in a.loopOf && a.loopOf[m].blocks <= a.loopOf[p].blocks by {
        SubtreesUpToLoopsWithin(a, p, i - 1);
      }
      assert forall m :: m in s2 ==> m in a.loopOf && a.loopOf[m].blocks <= a.loopOf[c].blocks by {
        SubtreeLoopsWithin(a, c);
      }
      assert a.loopOf[c].blocks < a.loopOf[p].blocks;
      assert SubtreesUpTo(a, p, i) == s1 + s2;
    }
  }

  /** A block inside the loop of a node below the first i children of p is inside the loop
      of one of those children. */
  lemma {:induction false} ContainingInUpTo(a: Arena, p: NodeId, i: nat, m: NodeId, bb: Block)
    requires Nested(a) && p in a.loopOf && i <= |a.childrenOf[p]|
    ensures m in SubtreesUpTo(a, p, i) && m in a.loopOf && bb in a.loopOf[m].blocks ==>
              exists k :: 0 <= k < i && bb in a.loopOf[a.childrenOf[p][k]].blocks
  {
    if i > 0 {
      var c := a.childrenOf[p][i - 1];
      var s1, s2 := SubtreesUpTo(a, p, i - 1), Subtree(a, c);
      assert SubtreesUpTo(a, p, i) == s1 + s2;
      if m in s2 && m in a.loopOf && bb in a.loopOf[m].blocks {
        assert bb in a.loopOf[c].blocks by {
          SubtreeLoopsWithin(a, c);
        }
      } else {
        ContainingInUpTo(a, p, i - 1, m, bb);
      }
    }
  }

  /** No block is inside a loop visited below the first i children of p and inside a loop
      visited below child i. */
  lemma NoContainingAcross(a: Arena, p: NodeId, i: nat, level: nat, bb: Block)
    requires Nested(a) && p in a.loopOf && i < |a.childrenOf[p]|
    ensures Exclusive(TraversalUpTo(a, p, i, level, PreOrder), Traversal(a, a.childrenOf[p][i], level, PreOrder), bb)
  {
    var c := a.childrenOf[p][i];
    var xs := TraversalUpTo(a, p, i, level, PreOrder);
    var ys := Traversal(a, c, level, PreOrder);
    TraversalUpToNodes(a, p, i, level, PreOrder);
    TraversalNodes(a, c, level, PreOrder);
    TraversalUpToLevels(a, p, i, level, PreOrder);
    TraversalLevels(a, c, level, PreOrder);
    SubtreeLoopsWithin(a, c);
    forall s, t | 0 <= s < |xs| && 0 <= t < |ys|
      ensures !(Contains(xs[s], bb) && Contains(ys[t], bb))
    {
      assert xs[s] in xs && xs[s].node in NodesOf(xs);
      assert ys[t] in ys && ys[t].node in NodesOf(ys);
      ContainingInUpTo(a, p, i, xs[s].node, bb);
    }
  }

    /** Among the visits whose loop contains bb, the later ones are deeper. */
  ghost predicate ContainingChain(vs: seq<Visit>, bb: Block)
  {
    forall i, j :: 0 <= i < j < |vs| && Contains(vs[i], bb) && Contains(vs[j], bb) ==> vs[i].level < vs[j].level
  }

  /** No visit of xs and visit of ys both contain bb. */
  ghost predicate Exclusive(xs: seq<Visit>, ys: seq<Visit>, bb: Block)
  {
    forall s, t :: 0 <= s < |xs| && 0 <= t < |ys| ==> !(Contains(xs[s], bb) && Contains(ys[t], bb))
  }

  lemma ChainConcat(xs: seq<Visit>, ys: seq<Visit>, bb: Block)
    requires ContainingChain(xs, bb) && ContainingChain(ys, bb) && Exclusive(xs, ys, bb)
    ensures ContainingChain(xs + ys, bb)
  {
    var zs := xs + ys;
    forall s, t | 0 <= s < t < |zs| && Contains(zs[s], bb) && Contains(zs[t], bb)
      ensures zs[s].level < zs[t].level
    {
      if t < |xs| {
        assert zs[s] == xs[s] && zs[t] == xs[t];
      } else if |xs| <= s {
        assert zs[s] == ys[s - |xs|] && zs[t] == ys[t - |xs|];
      }
    }
  }

  lemma ChainCons(v: Visit, ys: seq<Visit>, bb: Block)
    requires ContainingChain(ys, bb)
    requires forall k :: 0 <= k < |ys| ==> v.level < ys[k].level
    ensures ContainingChain([v] + ys, bb)
  {
    var zs := [v] + ys;
    forall s, t | 0 <= s < t < |zs| && Contains(zs[s], bb) && Contains(zs[t], bb)
      ensures zs[s].level < zs[t].level
    {
      assert zs[t] == ys[t - 1];
      if s > 0 {
        assert zs[s] == ys[s - 1];
      }
    }
  }

  /** Under WellNested, the loops of a pre-order traversal that contain bb come at strictly
      increasing levels: the assertion of the innermost query never fails. */
  lemma {:induction false} InnermostAssertionHolds(a: Arena, n: NodeId, level: nat, bb: Block)
    requires Nested(a) && n in a.loopOf
    ensures ContainingChain(Traversal(a, n, level, PreOrder), bb)
    decreases a.rank[n], 1
  {
    var k := |a.childrenOf[n]|;
    var below := TraversalUpTo(a, n, k, level + 1, PreOrder);
    assert ContainingChain(below, bb) by {
      ContainingChainUpTo(a, n, k, level + 1, bb);
    }
    assert forall t :: 0 <= t < |below| ==> level < below[t].level by {
      TraversalUpToLevels(a, n, k, level + 1, PreOrder);
    }
    ChainCons(Visit(n, a.loopOf[n], level), below, bb);
  }

  /** The outermost query records the start node's visit first, since its loop contains bb,
      and no later visit of the pre-order traversal shares that visit's level: the assertion
      of the outermost query never fails. */
  lemma OutermostAssertionHolds(a: Arena, n: NodeId, level: nat)
    requires WellFormed(a) && n in a.loopOf
    ensures var vs := Traversal(a, n, level, PreOrder);
              |vs| > 0 && vs[0] == Visit(n, a.loopOf[n], level) &&
              forall k :: 0 < k < |vs| ==> vs[k].level != vs[0].level
  {
    var vs := Traversal(a, n, level, PreOrder);
    TraversalLevels(a, n, level, PreOrder);
    TraversalCoversSubtree(a, n, level, PreOrder);
    assert vs[0].node == n;
  }

  lemma {:induction false} ContainingChainUpTo(a: Arena, p: NodeId, i: nat, level: nat, bb: Block)
    requires Nested(a) && p in a.loopOf && i <= |a.childrenOf[p]|
    ensures ContainingChain(TraversalUpTo(a, p, i, level, PreOrder), bb)
    decreases a.rank[p], 0, i
  {
    if i > 0 {
      var c := a.childrenOf[p][i - 1];
      var xs := TraversalUpTo(a, p, i - 1, level, PreOrder);
      var ys := Traversal(a, c, level, PreOrder);
      ContainingChainUpTo(a, p, i - 1, level, bb);
      InnermostAssertionHolds(a, c, level, bb);
      NoContainingAcross(a, p, i - 1, level, bb);
      ContainingChainStep(a, p, i, level, bb, xs, ys);
    }
  }

  /** The step of the induction above: the next child's subtree holds no loop containing bb
      when an earlier one does. */
  lemma ContainingChainStep(a: Arena, p: NodeId, i: nat, level: nat, bb: Block, xs: seq<Visit>, ys: seq<Visit>)
    requires WellFormed(a) && p in a.loopOf && 0 < i <= |a.childrenOf[p]|
    requires xs == TraversalUpTo(a, p, i - 1, level, PreOrder)
    requires ys == Traversal(a, a.childrenOf[p][i - 1], level, PreOrder)
    requires ContainingChain(xs, bb) && ContainingChain(ys, bb) && Exclusive(xs, ys, bb)
    ensures ContainingChain(TraversalUpTo(a, p, i, level, PreOrder), bb)
  {
    ChainConcat(xs, ys, bb);
    UpToUnfold(a, p, i, level, PreOrder);
  }
}
