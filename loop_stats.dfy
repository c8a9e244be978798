/** The loop-statistics tool's counting of loop invariants: once over the invariants Noelle's
    invariant manager reports, once over the instructions of the loop's blocks that LLVM's own
    loop-invariance test accepts.  Both add up the instructions' self counts from a profile. */
module LoopStats {
  import opened Sequences

  /** Identity of an instruction. */
  type Inst = nat

  /** The two counters of a loop's statistics that the invariant collectors write. */
  class Stats {
    var numberOfInvariants: int
    var numberOfDynamicInvariants: int

    constructor (invariants: int, dynamicInvariants: int)
      ensures numberOfInvariants == invariants && numberOfDynamicInvariants == dynamicInvariants
    {
      numberOfInvariants := invariants;
      numberOfDynamicInvariants := dynamicInvariants;
    }
  }

  // ---------------------------------------------------------------------------------------
  // Sums over sets and sequences
  // ---------------------------------------------------------------------------------------

  /** The sum of f over a set. */
  ghost function SetSum(f: Inst -> nat, s: set<Inst>): nat
  {
    if s == {} then 0
    else
      var x :| x in s;
      f(x) + SetSum(f, s - {x})
  }

  /** The sum over a set does not depend on the element taken first. */
  lemma {:induction false} SetSumRemove(f: Inst -> nat, s: set<Inst>, y: Inst)
    requires y in s
    ensures SetSum(f, s) == f(y) + SetSum(f, s - {y})
    decreases |s|
  {
    var x :| x in s && SetSum(f, s) == f(x) + SetSum(f, s - {x});
    if x != y {
      SetSumRemove(f, s - {x}, y);
      SetSumRemove(f, s - {y}, x);
      assert s - {x} - {y} == s - {y} - {x};
    }
  }

  /** The sum of f over a sequence. */
  function Sum(f: Inst -> nat, xs: seq<Inst>): (r: nat)
  {
    if |xs| == 0 then 0 else Sum(f, xs[..|xs| - 1]) + f(xs[|xs| - 1])
  }

  /** The instructions of xs that p accepts, in order. */
  function Accepted(p: Inst -> bool, xs: seq<Inst>): (r: seq<Inst>)
    ensures |r| <= |xs|
  {
    if |xs| == 0 then []
    else Accepted(p, xs[..|xs| - 1]) + (if p(xs[|xs| - 1]) then [xs[|xs| - 1]] else [])
  }

  /** The instructions of the blocks, block after block. */
  function Flatten(blocks: seq<seq<Inst>>): (r: seq<Inst>)
  {
    if |blocks| == 0 then [] else Flatten(blocks[..|blocks| - 1]) + blocks[|blocks| - 1]
  }

  /** The instructions of a sequence, as a set. */
  function Elements(xs: seq<Inst>): (r: set<Inst>)
  {
    set x | x in xs
  }

  lemma {:induction false} AcceptedConcat(p: Inst -> bool, xs: seq<Inst>, ys: seq<Inst>)
    ensures Accepted(p, xs + ys) == Accepted(p, xs) + Accepted(p, ys)
    decreases |ys|
  {
    if |ys| > 0 {
      var ys' := ys[..|ys| - 1];
      assert (xs + ys)[..|xs + ys| - 1] == xs + ys';
      AcceptedConcat(p, xs, ys');
    } else {
      assert xs + ys == xs;
    }
  }

  lemma {:induction false} SumConcat(f: Inst -> nat, xs: seq<Inst>, ys: seq<Inst>)
    ensures Sum(f, xs + ys) == Sum(f, xs) + Sum(f, ys)
    decreases |ys|
  {
    if |ys| > 0 {
      var ys' := ys[..|ys| - 1];
      assert (xs + ys)[..|xs + ys| - 1] == xs + ys';
      SumConcat(f, xs, ys');
    } else {
      assert xs + ys == xs;
    }
  }

  /** One more instruction: counted if p accepts it, ignored otherwise. */
  lemma AcceptedStep(p: Inst -> bool, f: Inst -> nat, xs: seq<Inst>, x: Inst)
    ensures |Accepted(p, xs + [x])| == |Accepted(p, xs)| + (if p(x) then 1 else 0)
    ensures Sum(f, Accepted(p, xs + [x])) == Sum(f, Accepted(p, xs)) + (if p(x) then f(x) else 0)
  {
    assert (xs + [x])[..|xs|] == xs;
    var acc := Accepted(p, xs);
    if p(x) {
      assert Accepted(p, xs + [x]) == acc + [x];
      assert (acc + [x])[..|acc|] == acc;
    } else {
      assert Accepted(p, xs + [x]) == acc + [];
      assert acc + [] == acc;
    }
  }

  /** Exactly the instructions of xs that p accepts are in the filtered sequence. */
  lemma {:induction false} AcceptedMembers(p: Inst -> bool, xs: seq<Inst>)
    ensures forall x :: x in Accepted(p, xs) <==> x in xs && p(x)
  {
    if |xs| > 0 {
      var xs' := xs[..|xs| - 1];
      AcceptedMembers(p, xs');
      assert xs == xs' + [xs[|xs| - 1]];
    }
  }

  /** Filtering keeps the instructions distinct. */
  lemma {:induction false} AcceptedDistinct(p: Inst -> bool, xs: seq<Inst>)
    requires Distinct(xs)
    ensures Distinct(Accepted(p, xs))
  {
    if |xs| > 0 {
      var xs' := xs[..|xs| - 1];
      AcceptedDistinct(p, xs');
      AcceptedMembers(p, xs');
      assert xs[|xs| - 1] !in xs';
    }
  }

  /** Over distinct instructions, the sum and the length of a sequence are the sum and the size
      of the set of its elements. */
  lemma {:induction false} SumOfDistinct(f: Inst -> nat, xs: seq<Inst>)
    requires Distinct(xs)
    ensures Sum(f, xs) == SetSum(f, Elements(xs)) && |xs| == |Elements(xs)|
  {
    if |xs| > 0 {
      var xs' := xs[..|xs| - 1];
      var last := xs[|xs| - 1];
      SumOfDistinct(f, xs');
      assert xs == xs' + [last];
      assert Elements(xs) - {last} == Elements(xs');
      SetSumRemove(f, Elements(xs), last);
    }
  }

  // ---------------------------------------------------------------------------------------
  // The collectors
  // ---------------------------------------------------------------------------------------

  /** LoopStats::collectStatsOnNoelleInvariants: the number of invariants becomes the size of
      the set the invariant manager reports, whatever it was; the dynamic count grows by the
      self counts of those invariants, visited in the set's (arbitrary) order. */
  method CollectStatsOnNoelleInvariants(selfCount: Inst -> nat, invariants: set<Inst>, stats: Stats)
    modifies stats`numberOfInvariants, stats`numberOfDynamicInvariants
    ensures stats.numberOfInvariants == |invariants|
    ensures stats.numberOfDynamicInvariants == old(stats.numberOfDynamicInvariants) + SetSum(selfCount, invariants)
  {
    stats.numberOfInvariants := |invariants|;
    var remaining := invariants;
    assert invariants - remaining == {};
    while remaining != {}
      invariant remaining <= invariants
      invariant stats.numberOfInvariants == |invariants|
      invariant stats.numberOfDynamicInvariants ==
        old(stats.numberOfDynamicInvariants) + SetSum(selfCount, invariants - remaining)
      decreases |remaining|
    {
      var inv :| inv in remaining;
      SetSumRemove(selfCount, invariants - (remaining - {inv}), inv);
      assert invariants - (remaining - {inv}) - {inv} == invariants - remaining;
      stats.numberOfDynamicInvariants := stats.numberOfDynamicInvariants + selfCount(inv);
      remaining := remaining - {inv};
    }
    assert invariants - remaining == invariants;
  }

  /** LoopStats::collectStatsOnLLVMInvariants: over the loop's blocks in order and each block's
      instructions in order, every instruction LLVM's test accepts adds one to the number of
      invariants and its self count to the dynamic count; the others change nothing. */
  method CollectStatsOnLlvmInvariants(isLoopInvariant: Inst -> bool, selfCount: Inst -> nat,
                                      blocks: seq<seq<Inst>>, stats: Stats)
    modifies stats`numberOfInvariants, stats`numberOfDynamicInvariants
    ensures stats.numberOfInvariants ==
      old(stats.numberOfInvariants) + |Accepted(isLoopInvariant, Flatten(blocks))|
    ensures stats.numberOfDynamicInvariants ==
      old(stats.numberOfDynamicInvariants) + Sum(selfCount, Accepted(isLoopInvariant, Flatten(blocks)))
  {
    for b := 0 to |blocks|
      invariant stats.numberOfInvariants ==
        old(stats.numberOfInvariants) + |Accepted(isLoopInvariant, Flatten(blocks[..b]))|
      invariant stats.numberOfDynamicInvariants ==
        old(stats.numberOfDynamicInvariants) + Sum(selfCount, Accepted(isLoopInvariant, Flatten(blocks[..b])))
    {
      ghost var done := Flatten(blocks[..b]);
      var block := blocks[b];
      assert done + block[..0] == done;
      for i := 0 to |block|
        invariant stats.numberOfInvariants ==
          old(stats.numberOfInvariants) + |Accepted(isLoopInvariant, done + block[..i])|
        invariant stats.numberOfDynamicInvariants ==
          old(stats.numberOfDynamicInvariants) + Sum(selfCount, Accepted(isLoopInvariant, done + block[..i]))
      {
        assert done + block[..i + 1] == (done + block[..i]) + [block[i]];
        AcceptedStep(isLoopInvariant, selfCount, done + block[..i], block[i]);
        if !isLoopInvariant(block[i]) {
          continue;
        }
        stats.numberOfInvariants := stats.numberOfInvariants + 1;
        stats.numberOfDynamicInvariants := stats.numberOfDynamicInvariants + selfCount(block[i]);
      }
      assert blocks[..b + 1][..b] == blocks[..b];
      assert block[..|block|] == block;
    }
    assert blocks[..|blocks|] == blocks;
  }

  // ---------------------------------------------------------------------------------------
  // Properties of the counts
  // ---------------------------------------------------------------------------------------

  /** An instruction the test rejects, wherever it sits in the loop, changes neither count. */
  lemma RejectedChangesNothing(p: Inst -> bool, f: Inst -> nat, xs: seq<Inst>, x: Inst, ys: seq<Inst>)
    requires !p(x)
    ensures Accepted(p, xs + [x] + ys) == Accepted(p, xs + ys)
    ensures Sum(f, Accepted(p, xs + [x] + ys)) == Sum(f, Accepted(p, xs + ys))
  {
    AcceptedConcat(p, xs + [x], ys);
    AcceptedConcat(p, xs, [x]);
    AcceptedConcat(p, xs, ys);
  }

  /** The counts over a loop's blocks add up over any split of the blocks into a first and
      a second part. */
  lemma CountsAddUpOverBlocks(p: Inst -> bool, f: Inst -> nat, bs: seq<seq<Inst>>, cs: seq<seq<Inst>>)
    ensures Flatten(bs + cs) == Flatten(bs) + Flatten(cs)
    ensures |Accepted(p, Flatten(bs + cs))| == |Accepted(p, Flatten(bs))| + |Accepted(p, Flatten(cs))|
    ensures Sum(f, Accepted(p, Flatten(bs + cs))) == Sum(f, Accepted(p, Flatten(bs))) + Sum(f, Accepted(p, Flatten(cs)))
  {
    FlattenConcat(bs, cs);
    AcceptedConcat(p, Flatten(bs), Flatten(cs));
    SumConcat(f, Accepted(p, Flatten(bs)), Accepted(p, Flatten(cs)));
  }

  lemma {:induction false} FlattenConcat(bs: seq<seq<Inst>>, cs: seq<seq<Inst>>)
    ensures Flatten(bs + cs) == Flatten(bs) + Flatten(cs)
    decreases |cs|
  {
    if |cs| > 0 {
      var cs' := cs[..|cs| - 1];
      assert (bs + cs)[..|bs + cs| - 1] == bs + cs';
      FlattenConcat(bs, cs');
    } else {
      assert bs + cs == bs;
    }
  }

  /** The two collectors agree: when the invariants Noelle reports are exactly the loop's
      instructions that LLVM's test accepts, and no instruction appears twice in the loop's
      blocks, both count the same number of invariants and the same dynamic total. */
  lemma CollectorsAgree(p: Inst -> bool, f: Inst -> nat, blocks: seq<seq<Inst>>, invariants: set<Inst>)
    requires Distinct(Flatten(blocks))
    requires forall x :: x in invariants <==> x in Flatten(blocks) && p(x)
    ensures |Accepted(p, Flatten(blocks))| == |invariants|
    ensures Sum(f, Accepted(p, Flatten(blocks))) == SetSum(f, invariants)
  {
    var acc := Accepted(p, Flatten(blocks));
    AcceptedDistinct(p, Flatten(blocks));
    AcceptedMembers(p, Flatten(blocks));
    assert Elements(acc) == invariants;
    SumOfDistinct(f, acc);
  }
}
