/** The printer's collection of the functions to draw: a breadth-first walk of the call graph
    from "main" that follows calls into functions with a body. */
module PdgPrinter {

  /** Identity of a function of the module. */
  type Function = nat

  /** The call graph: the functions each function calls, in call-record order (a function
      without a node calls nothing), and the functions that have a body. */
  datatype CallGraph = CallGraph(calls: map<Function, seq<Function>>, withBody: set<Function>)

  function Callees(cg: CallGraph, f: Function): (r: seq<Function>)
  {
    if f in cg.calls then cg.calls[f] else []
  }

  /** Every function some function calls. */
  ghost function Called(cg: CallGraph): set<Function>
  {
    set f, i | f in cg.calls && 0 <= i < |cg.calls[f]| :: cg.calls[f][i]
  }

  /** T holds every function with a body that a member of T calls. */
  ghost predicate Closed(cg: CallGraph, t: set<Function>)
  {
    forall f, g :: f in t && g in Callees(cg, f) && g in cg.withBody ==> g in t
  }

  lemma CalleesCalled(cg: CallGraph, f: Function, j: nat)
    requires j < |Callees(cg, f)|
    ensures Callees(cg, f)[j] in Called(cg)
  {
    assert f in cg.calls;
    assert cg.calls[f][j] == Callees(cg, f)[j];
  }

  /** The functions of s that have a body, in order. */
  function WithBody(cg: CallGraph, s: seq<Function>): (r: seq<Function>)
    ensures |r| <= |s|
  {
    if |s| == 0 then []
    else WithBody(cg, s[..|s| - 1]) + (if s[|s| - 1] in cg.withBody then [s[|s| - 1]] else [])
  }

  lemma {:induction false} WithBodyMembers(cg: CallGraph, s: seq<Function>)
    ensures forall g :: g in WithBody(cg, s) <==> g in s && g in cg.withBody
  {
    if |s| > 0 {
      WithBodyMembers(cg, s[..|s| - 1]);
      assert s == s[..|s| - 1] + [s[|s| - 1]];
      forall g ensures g in s <==> g in s[..|s| - 1] || g == s[|s| - 1] {
        if g in s {
          var k :| 0 <= k < |s| && s[k] == g;
          if k < |s| - 1 {
            assert s[..|s| - 1][k] == g;
          }
        }
      }
    }
  }

  /** The loop over a popped function's call records: every callee with a body joins the
      back of the worklist, the others are skipped. */
  method EnqueueCallees(cg: CallGraph, callees: seq<Function>, queue: seq<Function>) returns (q: seq<Function>)
    ensures q == queue + WithBody(cg, callees)
  {
    q := queue;
    for j := 0 to |callees|
      invariant q == queue + WithBody(cg, callees[..j])
    {
      var callee := callees[j];
      assert callees[..j + 1][..j] == callees[..j];
      if callee !in cg.withBody {
        continue;
      }
      q := q + [callee];
    }
    assert callees[..|callees|] == callees;
  }

  // ---------------------------------------------------------------------------------------
  // The invariants of the walk, over the set collected so far and the worklist
  // ---------------------------------------------------------------------------------------

  /** The worklist and the collected set stay within the functions the walk can meet. */
  ghost predicate Bounded(funcSet0: set<Function>, funcSet: set<Function>, queue: seq<Function>, universe: set<Function>)
  {
    funcSet0 <= funcSet <= universe && forall g :: g in queue ==> g in universe
  }

  /** Every function the walk has added calls no function with a body that is neither
      collected nor waiting in the worklist. */
  ghost predicate CallsCovered(cg: CallGraph, funcSet0: set<Function>, funcSet: set<Function>, queue: seq<Function>)
  {
    forall f, g :: f in funcSet - funcSet0 && g in Callees(cg, f) && g in cg.withBody ==>
      g in funcSet || g in queue
  }

  /** Every closed set holding main holds what the walk has added and what it will visit. */
  ghost predicate InEveryClosed(cg: CallGraph, main: Function, funcSet0: set<Function>, funcSet: set<Function>, queue: seq<Function>)
  {
    forall t :: Closed(cg, t) && main in t ==>
      funcSet <= funcSet0 + t && forall g :: g in queue ==> g in t
  }

  /** The worklist after a visit: the rest of it, then the visited function's callees with a
      body. */
  function Visited(cg: CallGraph, queue: seq<Function>): (r: seq<Function>)
    requires |queue| > 0
  {
    queue[1..] + WithBody(cg, Callees(cg, queue[0]))
  }

  lemma VisitMembers(cg: CallGraph, queue: seq<Function>)
    requires |queue| > 0
    ensures forall g :: g in Visited(cg, queue) <==>
      g in queue[1..] || (g in Callees(cg, queue[0]) && g in cg.withBody)
  {
    WithBodyMembers(cg, Callees(cg, queue[0]));
  }

  lemma PopMembers(queue: seq<Function>)
    requires |queue| > 0
    ensures forall g :: g in queue <==> g == queue[0] || g in queue[1..]
  {
    assert queue == [queue[0]] + queue[1..];
  }

  lemma VisitKeepsBounded(cg: CallGraph, main: Function, funcSet0: set<Function>, funcSet: set<Function>, queue: seq<Function>)
    requires |queue| > 0
    requires Bounded(funcSet0, funcSet, queue, funcSet0 + {main} + Called(cg))
    ensures Bounded(funcSet0, funcSet + {queue[0]}, Visited(cg, queue), funcSet0 + {main} + Called(cg))
  {
    VisitMembers(cg, queue);
    PopMembers(queue);
    forall g | g in Callees(cg, queue[0]) ensures g in Called(cg) {
      var j :| 0 <= j < |Callees(cg, queue[0])| && Callees(cg, queue[0])[j] == g;
      CalleesCalled(cg, queue[0], j);
    }
  }

  lemma VisitKeepsCallsCovered(cg: CallGraph, funcSet0: set<Function>, funcSet: set<Function>, queue: seq<Function>)
    requires |queue| > 0
    requires CallsCovered(cg, funcSet0, funcSet, queue)
    ensures CallsCovered(cg, funcSet0, funcSet + {queue[0]}, Visited(cg, queue))
  {
    VisitMembers(cg, queue);
    PopMembers(queue);
  }

  lemma VisitKeepsInEveryClosed(cg: CallGraph, main: Function, funcSet0: set<Function>, funcSet: set<Function>, queue: seq<Function>)
    requires |queue| > 0
    requires InEveryClosed(cg, main, funcSet0, funcSet, queue)
    ensures InEveryClosed(cg, main, funcSet0, funcSet + {queue[0]}, Visited(cg, queue))
  {
    VisitMembers(cg, queue);
    PopMembers(queue);
    forall t | Closed(cg, t) && main in t
      ensures funcSet + {queue[0]} <= funcSet0 + t && forall g :: g in Visited(cg, queue) ==> g in t
    {
      assert queue[0] in t;
    }
  }

  /** The invariant of the walk, over the universe of functions it can meet. */
  ghost predicate Walk(cg: CallGraph, main: Function, funcSet0: set<Function>, funcSet: set<Function>, queue: seq<Function>)
  {
    && Bounded(funcSet0, funcSet, queue, funcSet0 + {main} + Called(cg))
    && (main in funcSet || main in queue)
    && CallsCovered(cg, funcSet0, funcSet, queue)
    && InEveryClosed(cg, main, funcSet0, funcSet, queue)
  }

  /** Popping a function already collected keeps the invariant. */
  lemma SkipKeepsWalk(cg: CallGraph, main: Function, funcSet0: set<Function>, funcSet: set<Function>, queue: seq<Function>)
    requires |queue| > 0 && queue[0] in funcSet
    requires Walk(cg, main, funcSet0, funcSet, queue)
    ensures Walk(cg, main, funcSet0, funcSet, queue[1..])
  {
    PopMembers(queue);
  }

  /** Collecting a new function and queueing its callees with a body keeps the invariant and
      shrinks the part of the universe not yet collected. */
  lemma VisitKeepsWalk(cg: CallGraph, main: Function, funcSet0: set<Function>, funcSet: set<Function>, queue: seq<Function>)
    requires |queue| > 0 && queue[0] !in funcSet
    requires Walk(cg, main, funcSet0, funcSet, queue)
    ensures Walk(cg, main, funcSet0, funcSet + {queue[0]}, Visited(cg, queue))
    ensures var universe := funcSet0 + {main} + Called(cg);
      universe - (funcSet + {queue[0]}) < universe - funcSet
  {
    PopMembers(queue);
    VisitKeepsBounded(cg, main, funcSet0, funcSet, queue);
    VisitKeepsCallsCovered(cg, funcSet0, funcSet, queue);
    VisitKeepsInEveryClosed(cg, main, funcSet0, funcSet, queue);
  }

  /** An empty worklist ends the walk with what the method promises. */
  lemma WalkDone(cg: CallGraph, main: Function, funcSet0: set<Function>, funcSet: set<Function>)
    requires Walk(cg, main, funcSet0, funcSet, [])
    ensures funcSet0 <= funcSet && main in funcSet
    ensures forall f, g :: f in funcSet - funcSet0 && g in Callees(cg, f) && g in cg.withBody ==> g in funcSet
    ensures forall t :: Closed(cg, t) && main in t ==> funcSet <= funcSet0 + t
  {
  }

  /** PDGPrinter::collectAllFunctionsInCallGraph.  The set it is given only grows; main joins
      it; the functions that join it call no function with a body outside it; and they all
      lie in every closed set holding main, so that from the empty set (as printPDG calls it)
      the result is exactly the smallest closed set holding main: main and every function with
      a body reachable from it. */
  method CollectAllFunctionsInCallGraph(cg: CallGraph, main: Function, funcSet0: set<Function>)
    returns (funcSet: set<Function>)
    ensures funcSet0 <= funcSet && main in funcSet
    ensures forall f, g :: f in funcSet - funcSet0 && g in Callees(cg, f) && g in cg.withBody ==> g in funcSet
    ensures forall t :: Closed(cg, t) && main in t ==> funcSet <= funcSet0 + t
  {
    ghost var universe := funcSet0 + {main} + Called(cg);
    var queue := [main];
    funcSet := funcSet0;
    while |queue| > 0
      invariant Walk(cg, main, funcSet0, funcSet, queue)
      decreases |universe - funcSet|, |queue|
    {
      var func := queue[0];
      if func in funcSet {
        SkipKeepsWalk(cg, main, funcSet0, funcSet, queue);
        queue := queue[1..];
        continue;
      }
      VisitKeepsWalk(cg, main, funcSet0, funcSet, queue);
      funcSet := funcSet + {func};
      queue := EnqueueCallees(cg, Callees(cg, func), queue[1..]);
    }
    WalkDone(cg, main, funcSet0, funcSet);
  }
}
