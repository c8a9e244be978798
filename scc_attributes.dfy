/** The attributes the loop-carried SCC classifier attaches to an SCC of a loop: a kind, the
    SCC and the loop, and, for the loop-carried kinds, the loop-carried dependences and
    whether the recurrence is commutative.  Membership in a class of attributes ("classof")
    is a test on the kind alone: a range of kinds for the loop-carried and loop-iteration
    families, a single kind for unknown-closed-form SCCs. */
module SccAttributes {

  /** A value of GenericSCC::SCCKind.  The enumeration's numbering is not part of this model,
      so kinds are naturals and a KindLayout says which of them the tests compare against. */
  type Kind = nat

  /** Identities of the objects an attribute refers to (SCC*, LoopStructure*,
      DGEdge<Value, Value>*, Instruction*). */
  type SccId = nat
  type LoopId = nat
  type EdgeId = nat
  type InstId = nat

  /** The kinds named in the classof tests: LOOP_CARRIED, LAST_LOOP_CARRIED, LOOP_ITERATION,
      LAST_LOOP_ITERATION and UNKNOWN_CLOSED_FORM. */
  datatype KindLayout = KindLayout(
    loopCarried: Kind,
    lastLoopCarried: Kind,
    loopIteration: Kind,
    lastLoopIteration: Kind,
    unknownClosedForm: Kind)

  /** What GenericSCC stores: the kind, the SCC and the loop. */
  datatype GenericScc = GenericScc(kind: Kind, scc: SccId, loop: LoopId)

  /** A LoopCarriedSCC: its GenericSCC part, the loop-carried dependences and the
      commutative flag. */
  datatype LoopCarriedScc = LoopCarriedScc(base: GenericScc, lcDeps: set<EdgeId>, commutative: bool)

  /** The arguments RecomputableSCC's constructor receives: kind, SCC, loop, loop-carried
      dependences, the values to propagate across loop iterations, and a trailing flag. */
  datatype RecomputableScc = RecomputableScc(
    kind: Kind,
    scc: SccId,
    loop: LoopId,
    lcDeps: set<EdgeId>,
    valuesToPropagate: set<InstId>,
    flag: bool)

  // ---------------------------------------------------------------------------------------
  // LoopCarriedSCC
  // ---------------------------------------------------------------------------------------

  /** getLoopCarriedDependences: the dependences the attribute was built with. */
  function GetLoopCarriedDependences(x: LoopCarriedScc): (r: set<EdgeId>)
    ensures r == x.lcDeps
  {
    x.lcDeps
  }

  /** isCommutative: the flag the attribute was built with. */
  function IsCommutative(x: LoopCarriedScc): (r: bool)
    ensures r == x.commutative
  {
    x.commutative
  }

  /** The constructor: the kind, SCC and loop go to the GenericSCC part unchanged, and the
      getters give back the dependences and the flag it was built with. */
  function NewLoopCarriedScc(k: Kind, s: SccId, loop: LoopId, deps: set<EdgeId>, commutative: bool): (r: LoopCarriedScc)
    ensures r.base.kind == k && r.base.scc == s && r.base.loop == loop
    ensures GetLoopCarriedDependences(r) == deps
    ensures IsCommutative(r) == commutative
  {
    LoopCarriedScc(GenericScc(k, s, loop), deps, commutative)
  }

  /** LoopCarriedSCC::classof: the kind lies between LOOP_CARRIED and LAST_LOOP_CARRIED,
      both included. */
  predicate IsLoopCarried(layout: KindLayout, s: GenericScc)
  {
    s.kind >= layout.loopCarried && s.kind <= layout.lastLoopCarried
  }

  // ---------------------------------------------------------------------------------------
  // LoopIterationSCC
  // ---------------------------------------------------------------------------------------

  /** The three-argument constructor: kind, SCC and loop go to GenericSCC unchanged. */
  function LoopIterationSccOfKind(k: Kind, s: SccId, loop: LoopId): (r: GenericScc)
    ensures r.kind == k && r.scc == s && r.loop == loop
  {
    GenericScc(k, s, loop)
  }

  /** The two-argument constructor delegates with the kind LOOP_ITERATION, so what it builds
      passes LoopIterationSCC::classof whenever LOOP_ITERATION <= LAST_LOOP_ITERATION. */
  function NewLoopIterationScc(layout: KindLayout, s: SccId, loop: LoopId): (r: GenericScc)
    ensures r.kind == layout.loopIteration && r.scc == s && r.loop == loop
    ensures layout.loopIteration <= layout.lastLoopIteration ==> IsLoopIteration(layout, r)
  {
    LoopIterationSccOfKind(layout.loopIteration, s, loop)
  }

  /** LoopIterationSCC::classof: the kind lies between LOOP_ITERATION and
      LAST_LOOP_ITERATION, both included. */
  predicate IsLoopIteration(layout: KindLayout, s: GenericScc)
  {
    s.kind >= layout.loopIteration && s.kind <= layout.lastLoopIteration
  }

  // ---------------------------------------------------------------------------------------
  // UnknownClosedFormSCC
  // ---------------------------------------------------------------------------------------

  /** The GenericSCC part of a RecomputableSCC: its kind, SCC and loop. */
  function RecomputableBase(x: RecomputableScc): (r: GenericScc)
    ensures r.kind == x.kind && r.scc == x.scc && r.loop == x.loop
  {
    GenericScc(x.kind, x.scc, x.loop)
  }

  /** The constructor: RecomputableSCC receives the kind UNKNOWN_CLOSED_FORM, the arguments
      unchanged and a false trailing flag, so the object passes UnknownClosedFormSCC::classof. */
  function NewUnknownClosedFormScc(layout: KindLayout, s: SccId, loop: LoopId,
                                   deps: set<EdgeId>, values: set<InstId>): (r: RecomputableScc)
    ensures r.kind == layout.unknownClosedForm && !r.flag
    ensures r.scc == s && r.loop == loop && r.lcDeps == deps && r.valuesToPropagate == values
    ensures IsUnknownClosedForm(layout, RecomputableBase(r))
  {
    RecomputableScc(layout.unknownClosedForm, s, loop, deps, values, false)
  }

  /** UnknownClosedFormSCC::classof: the kind is UNKNOWN_CLOSED_FORM itself. */
  predicate IsUnknownClosedForm(layout: KindLayout, s: GenericScc)
  {
    s.kind == layout.unknownClosedForm
  }

  // ---------------------------------------------------------------------------------------
  // Properties of the classof tests
  // ---------------------------------------------------------------------------------------

  /** The tests look at the kind only: the SCC and the loop do not matter. */
  lemma ClassofOnlyKind(layout: KindLayout, s1: GenericScc, s2: GenericScc)
    requires s1.kind == s2.kind
    ensures IsLoopCarried(layout, s1) == IsLoopCarried(layout, s2)
    ensures IsLoopIteration(layout, s1) == IsLoopIteration(layout, s2)
    ensures IsUnknownClosedForm(layout, s1) == IsUnknownClosedForm(layout, s2)
  {
  }

  /** Both ends of the loop-carried range pass the test and the kinds just outside it fail. */
  lemma LoopCarriedRangeInclusive(layout: KindLayout, s: SccId, loop: LoopId)
    requires layout.loopCarried <= layout.lastLoopCarried
    ensures IsLoopCarried(layout, GenericScc(layout.loopCarried, s, loop))
    ensures IsLoopCarried(layout, GenericScc(layout.lastLoopCarried, s, loop))
    ensures !IsLoopCarried(layout, GenericScc(layout.lastLoopCarried + 1, s, loop))
    ensures layout.loopCarried > 0 ==> !IsLoopCarried(layout, GenericScc(layout.loopCarried - 1, s, loop))
  {
  }

  /** The loop-iteration range test, like the loop-carried one, accepts both ends of its
      range and rejects the kinds just outside it. */
  lemma LoopIterationRangeInclusive(layout: KindLayout, s: SccId, loop: LoopId)
    requires layout.loopIteration <= layout.lastLoopIteration
    ensures IsLoopIteration(layout, GenericScc(layout.loopIteration, s, loop))
    ensures IsLoopIteration(layout, GenericScc(layout.lastLoopIteration, s, loop))
    ensures !IsLoopIteration(layout, GenericScc(layout.lastLoopIteration + 1, s, loop))
    ensures layout.loopIteration > 0 ==> !IsLoopIteration(layout, GenericScc(layout.loopIteration - 1, s, loop))
  {
  }

  /** The layout the classof tests rely on: each range is ordered, the loop-carried and the
      loop-iteration ranges do not overlap, and UNKNOWN_CLOSED_FORM is one of the loop-carried
      kinds (an unknown-closed-form SCC is a specialisation of a loop-carried one). */
  predicate NestedLayout(layout: KindLayout)
  {
    && layout.loopCarried <= layout.unknownClosedForm <= layout.lastLoopCarried
    && layout.loopIteration <= layout.lastLoopIteration
    && (layout.lastLoopCarried < layout.loopIteration || layout.lastLoopIteration < layout.loopCarried)
  }

  /** Under that layout every attribute falls in at most one of the two families, every
      unknown-closed-form attribute is a loop-carried one, and the constructors build members
      of their own family only: an UnknownClosedFormSCC passes LoopCarriedSCC::classof and
      fails LoopIterationSCC::classof, a two-argument LoopIterationSCC the reverse. */
  lemma ConstructorsUnderNestedLayout(layout: KindLayout, g: GenericScc, s: SccId, loop: LoopId,
                                      deps: set<EdgeId>, values: set<InstId>)
    requires NestedLayout(layout)
    ensures !(IsLoopCarried(layout, g) && IsLoopIteration(layout, g))
    ensures IsUnknownClosedForm(layout, g) ==> IsLoopCarried(layout, g)
    ensures var u := RecomputableBase(NewUnknownClosedFormScc(layout, s, loop, deps, values));
              IsUnknownClosedForm(layout, u) && IsLoopCarried(layout, u) && !IsLoopIteration(layout, u)
    ensures var i := NewLoopIterationScc(layout, s, loop);
              IsLoopIteration(layout, i) && !IsLoopCarried(layout, i) && !IsUnknownClosedForm(layout, i)
  {
  }
}
