# Loop forests, SCC attributes and small analyses of the NOELLE compiler framework

This project models in Dafny the following parts of NOELLE, an LLVM-based framework for
program analyses and transformations, and proves what they promise:

- **The loop forest's tree nodes** (`LoopTree`). Each node holds a loop, a parent and a set of
  children, and a forest registers the roots.
  - The pre-order and post-order visitor traversals, with early cancellation, are modelled.
  - So are the queries built on them:
    - the nodes, the descendants and the loops of a subtree;
    - the number of sub-loops;
    - whether an instruction lies in a sub-loop;
    - the innermost and outermost loop that contains a block or an instruction.
  - So is the destructor, which splices a node out of its tree.
- **SCC attributes** (`LoopCarriedSCC`, `LoopIterationSCC`, `UnknownClosedFormSCC`). These cover:
  - the constructors;
  - the loop-carried dependence getters;
  - the kind-based `classof` membership tests.
- **Utilities** (`Utils`):
  - recognising actual code, as opposed to debug intrinsics and lifetime markers;
  - recognising the body-less library allocators and deallocators, and the objects they
    allocate or free.
- **The PDG printer's walk over the call graph**. It collects "main" and every function with a
  body that main reaches.
- **The loop-statistics tool's invariant counters**. They are computed both from NOELLE's
  invariant manager and from LLVM's loop-invariance test.
- **The metadata manager's annotation lookups**, for functions, allocas and globals.

### How the model is built

**`LoopTree` is imperative.**
- Class `LoopTree.LoopForest` holds the fields of all nodes in maps indexed by a `NodeId`. A
  ghost rank witnesses acyclicity.
- `Shape()` is that state as a value (`LoopTreeSpec.Arena`). The specification functions speak
  about this value:
  - `Traversal` is the sequence of visits;
  - `RunVisitor` runs a visitor over those visits;
  - `Subtree` is the set of nodes below a node;
  - `RemoveSpec` is the forest after a destructor has run.
- The methods are proved equal to these functions. Lemmas then prove what the source promises
  about the functions.
- A visitor in the source is a closure over the caller's locals. Here it is a function
  `(S, Visit) -> (S, bool)`, where `S` is an explicit state for those locals.

**The other parts.**
- The walk over the call graph and the statistics counters are methods with loops, proved
  against specification functions.
- The other parts are pure functions.

### Where the model follows the code

- The SCC kinds are numbers tested with range comparisons (for loop-carried and loop-iteration
  SCCs) and with an equality test (for unknown-closed-form SCCs). A tagged variant would avoid
  this layout dependence. The model follows the code: it keeps ordinal kinds, and a
  `KindLayout` names the enumerators the tests use.

## Model

| member | source | states |
|---|---|---|
| LoopTree.LoopForest.VisitPreOrderAt | src/core/loop_forest/src/LoopTree.cpp:242-263 | The result and the cancellation flag are those of running the visitor over the pre-order traversal from the given level: the node first, then each child's subtree one level deeper, stopping at the first visit the visitor cancels. |
| LoopTree.LoopForest.VisitPostOrderAt | src/core/loop_forest/src/LoopTree.cpp:265-286 | Same as VisitPreOrderAt, over the post-order traversal: each child's subtree one level deeper, then the node. |
| LoopTree.LoopForest.VisitPreOrder | src/core/loop_forest/src/LoopTree.cpp:232-235 | The public pre-order traversal starts at tree level 1. |
| LoopTree.LoopForest.VisitPostOrder | src/core/loop_forest/src/LoopTree.cpp:237-240 | The public post-order traversal starts at tree level 1. |
| LoopTree.LoopForest.GetLoop | src/core/loop_forest/src/LoopTree.cpp:38-40 | Returns the loop the node holds, the loop a traversal from the node reports for its first visit. |
| LoopTree.LoopForest.GetParent | src/core/loop_forest/src/LoopTree.cpp:185-187 | Returns the stored parent link. When there is a parent, it is a node of the forest that lists this node among its children. |
| LoopTree.LoopForest.GetChildren | src/core/loop_forest/src/LoopTree.cpp:204-206 | Returns exactly the stored children, as a set. In a forest, each of them has this node as its parent. |
| LoopTree.LoopForest.ParentChildAgree | src/core/loop_forest/src/LoopTree.cpp:185-206 | In a forest, c is among getChildren of n exactly when getParent of c is n. A node has no parent exactly when it is a tree of the forest. |
| LoopTree.LoopForest.GetNodes | src/core/loop_forest/src/LoopTree.cpp:208-218 | Returns exactly the nodes of the subtree, the node itself included. |
| LoopTree.LoopForest.GetDescendants | src/core/loop_forest/src/LoopTree.cpp:189-202 | Returns exactly the nodes of the subtree except the node itself. |
| LoopTree.LoopForest.GetLoops | src/core/loop_forest/src/LoopTree.cpp:220-230 | Returns exactly the loops of the nodes of the subtree. |
| LoopTree.LoopForest.GetNumberOfSubLoops | src/core/loop_forest/src/LoopTree.cpp:73-93 | The count (each child, plus its own sub-loops) equals the number of descendants. |
| LoopTree.LoopForest.IsIncludedInItsSubLoops | src/core/loop_forest/src/LoopTree.cpp:42-71 | True exactly when the instruction is in the node's loop and in the loop of at least one child. |
| LoopTree.LoopForest.GetInnermostLoopThatContains | src/core/loop_forest/src/LoopTree.cpp:101-138 | None exactly when the node's loop does not include the block. Otherwise the result is a containing loop visited at the deepest level of any containing visit. |
| LoopTree.LoopForest.GetInnermostLoopThatContainsInstruction | src/core/loop_forest/src/LoopTree.cpp:95-99 | Same as the block query, for the instruction's parent block. |
| LoopTree.LoopForest.GetOutermostLoopThatContains | src/core/loop_forest/src/LoopTree.cpp:146-183 | None exactly when the node's loop does not include the block. Otherwise it is the node's own loop, the only one visited at level 1. |
| LoopTree.LoopForest.GetOutermostLoopThatContainsInstruction | src/core/loop_forest/src/LoopTree.cpp:140-144 | Same as the block query, for the instruction's parent block. |
| LoopTree.LoopForest.Remove | src/core/loop_forest/src/LoopTree.cpp:288-330 | The destructor turns the forest into RemoveSpec of the old one. The result is again a well-formed forest, and is properly nested if the old one was. |
| LoopTree.LoopForest.Unlink | src/core/loop_forest/src/LoopTree.cpp:293-327 | The destructor's statements: erase the node from its parent's children or from the trees, hand its children over, forget the node. The new state is RemoveSpec of the old. |
| LoopTree.LoopForest.AdoptChildren | src/core/loop_forest/src/LoopTree.cpp:306-327 | Each child takes the new parent. It joins that parent's children (a set insert) or the forest's trees, and nothing else changes. |
| LoopTree.LoopForest.RemoveTree | src/core/loop_forest/src/LoopTree.cpp:319 | Unregisters one tree and changes no node. |
| LoopTree.LoopForest.AddTree | src/core/loop_forest/src/LoopTree.cpp:326 | Registers one tree and changes no node. |
| LoopTreeSpec.TraversalCoversSubtree | src/core/loop_forest/src/LoopTree.cpp:242-286 | Both traversals visit every node of the subtree, and no node twice. |
| LoopTreeSpec.TraversalLevels | src/core/loop_forest/src/LoopTree.cpp:242-286 | Every visit carries its node's loop. The start node is visited at the start level and every other node deeper. |
| LoopTreeSpec.TraversalUpToChildLevel | src/core/loop_forest/src/LoopTree.cpp:256-258 | In the traversal of the children's subtrees, every child is visited at the level one deeper than its parent, the level each child's traversal starts at. |
| LoopTreeSpec.TraversalOrdersParentAndChild | src/core/loop_forest/src/LoopTree.cpp:242-286 | Pre-order visits a parent before each child, post-order after. The child's level is the parent's plus one. |
| LoopTreeSpec.SubtreeSize | src/core/loop_forest/src/LoopTree.cpp:73-93 | A subtree has one node more than the subtrees of its children together, which are its descendants. |
| LoopTreeVisitors.CallsMadeSpec | src/core/loop_forest/src/LoopTree.cpp:249-260 | An uncancelled run calls the visitor on every visit. A cancelled run stops right after the call that returned true, and the calls before it did not cancel. |
| LoopTreeVisitors.CancelledRunIgnoresRest | src/core/loop_forest/src/LoopTree.cpp:256-259 | After a cancellation the remaining visits do not affect the outcome, and true propagates. |
| LoopTreeVisitors.RunConcat | src/core/loop_forest/src/LoopTree.cpp:256-260 | Running over two traversals one after the other continues from the first run's state, unless that run was cancelled. |
| LoopTreeVisitors.RunPreOrder | src/core/loop_forest/src/LoopTree.cpp:242-263 | A pre-order run calls the visitor on the node first and stops there if it cancels. Otherwise it runs over the children's traversals. |
| LoopTreeVisitors.RunPostOrder | src/core/loop_forest/src/LoopTree.cpp:265-286 | A post-order run goes over the children's traversals first. The node is visited only if none of them cancelled. |
| LoopTreeVisitors.CollectNodeRun | src/core/loop_forest/src/LoopTree.cpp:211-214 | The getNodes visitor never cancels and adds every visited node. |
| LoopTreeVisitors.DescendantCollectorRun | src/core/loop_forest/src/LoopTree.cpp:192-198 | The getDescendants visitor never cancels and adds every visited node except the starting one. |
| LoopTreeVisitors.CollectLoopRun | src/core/loop_forest/src/LoopTree.cpp:223-226 | The getLoops visitor never cancels and adds every visited loop. |
| LoopTreeVisitors.LoopsOfTraversal | src/core/loop_forest/src/LoopTree.cpp:220-230 | The loops a traversal visits are the loops of the subtree. |
| LoopTreeVisitors.InnermostRun | src/core/loop_forest/src/LoopTree.cpp:117-134 | The innermost visitor never cancels. It ends with no loop exactly when no visit contains the block. Otherwise it ends with a containing visit of maximal level, never below where it started. |
| LoopTreeVisitors.OutermostFirst | src/core/loop_forest/src/LoopTree.cpp:164-172 | The first containing visit is taken, with its level. |
| LoopTreeVisitors.OutermostRunKeeps | src/core/loop_forest/src/LoopTree.cpp:173-178 | Once a loop is recorded, visits at its level or deeper never replace it. |
| LoopTreeVisitors.InnermostAssertionHolds | src/core/loop_forest/src/LoopTree.cpp:128 | In a properly nested forest, the loops of a pre-order traversal that contain a block lie at pairwise different levels. The assertion therefore never fails. |
| LoopTreeVisitors.OutermostAssertionHolds | src/core/loop_forest/src/LoopTree.cpp:173 | The pre-order traversal from a node visits that node first. No later visit has the same level, so the outermost query's assertion never fails. |
| LoopTreeVisitors.SubtreeLoopsWithin | src/core/loop_forest/src/LoopTree.cpp:105-108 | In a properly nested forest, every loop of a subtree lies within the subtree root's loop. So no loop below contains a block the root's loop does not. |
| LoopTreeRemoval.Without | src/core/loop_forest/src/LoopTree.cpp:301 | Erasing the node from a child list keeps exactly the other children, and keeps them distinct. |
| LoopTreeRemoval.ChildrenOfRemoved | src/core/loop_forest/src/LoopTree.cpp:300 | In a forest the removed node is among its parent's children, so the destructor's assertion holds. Its own children point back to it and are not already children of its parent. |
| LoopTreeRemoval.RemoveKeepsWellFormed | src/core/loop_forest/src/LoopTree.cpp:288-330 | After the destructor, parent and child links still agree, roots are exactly the parentless nodes, and child lists are distinct. |
| LoopTreeRemoval.RemoveKeepsWellNested | src/core/loop_forest/src/LoopTree.cpp:288-330 | After the destructor, child loops still lie strictly within their parent's loop, and siblings and roots stay pairwise disjoint. |
| SccAttributes.NewLoopCarriedScc | src/core/loop_scc_attributes/src/LoopCarriedSCC.cpp:26-36 | Kind, SCC and loop go to the GenericSCC part. The getters return the dependences and the commutative flag it was built with. |
| SccAttributes.GetLoopCarriedDependences | src/core/loop_scc_attributes/src/LoopCarriedSCC.cpp:38-41 | Returns the loop-carried dependences the attribute holds. |
| SccAttributes.IsCommutative | src/core/loop_scc_attributes/src/LoopCarriedSCC.cpp:43-45 | Returns the commutative flag the attribute holds. |
| SccAttributes.LoopCarriedRangeInclusive | src/core/loop_scc_attributes/src/LoopCarriedSCC.cpp:47-50 | classof accepts both ends of the LOOP_CARRIED..LAST_LOOP_CARRIED range and rejects the kinds just outside it. |
| SccAttributes.ClassofOnlyKind | src/core/loop_scc_attributes/src/LoopCarriedSCC.cpp:47-50 | The classof tests depend on the kind alone. |
| SccAttributes.LoopIterationSccOfKind | src/core/loop_scc_attributes/src/LoopIterationSCC.cpp:31-34 | The three-argument constructor passes kind, SCC and loop to GenericSCC unchanged. |
| SccAttributes.NewLoopIterationScc | src/core/loop_scc_attributes/src/LoopIterationSCC.cpp:26-29 | The two-argument constructor uses the LOOP_ITERATION kind. What it builds passes classof when LOOP_ITERATION <= LAST_LOOP_ITERATION. |
| SccAttributes.LoopIterationRangeInclusive | src/core/loop_scc_attributes/src/LoopIterationSCC.cpp:36-39 | classof accepts both ends of the LOOP_ITERATION..LAST_LOOP_ITERATION range and rejects the kinds just outside it. |
| SccAttributes.NewUnknownClosedFormScc | src/core/loop_scc_attributes/src/UnknownClosedFormSCC.cpp:26-39 | RecomputableSCC receives the UNKNOWN_CLOSED_FORM kind, the arguments unchanged and a false flag. The object passes UnknownClosedFormSCC::classof. |
| SccAttributes.ConstructorsUnderNestedLayout | src/core/loop_scc_attributes/src/UnknownClosedFormSCC.cpp:26-43 | Suppose the two ranges are ordered and disjoint, and UNKNOWN_CLOSED_FORM is a loop-carried kind. Then no attribute passes both range tests, and every unknown-closed-form attribute is loop-carried. An UnknownClosedFormSCC is loop-carried and not loop-iteration. A two-argument LoopIterationSCC is loop-iteration only. |
| Utils.IsActualCode | src/core/basic_utilities/src/Utils.cpp:28-46 | False exactly for calls that are lifetime markers or direct calls of "llvm.dbg." functions. Every non-call is actual code. |
| Utils.IsAllocator | src/core/basic_utilities/src/Utils.cpp:48-82 | True exactly for direct calls of a body-less malloc, calloc or realloc. |
| Utils.IsReallocator | src/core/basic_utilities/src/Utils.cpp:84-117 | True exactly for direct calls of a body-less realloc. |
| Utils.IsDeallocator | src/core/basic_utilities/src/Utils.cpp:119-152 | True exactly for direct calls of a body-less free. |
| Utils.GetAllocatedObject | src/core/basic_utilities/src/Utils.cpp:154-172 | The call itself exactly for allocators, and null otherwise. The abort is unreachable. |
| Utils.GetFreedObject | src/core/basic_utilities/src/Utils.cpp:174-191 | The first argument exactly for deallocators, and null otherwise. The abort is unreachable. |
| Utils.ReallocatorIsAllocator | src/core/basic_utilities/src/Utils.cpp:84-117 | Every reallocator is an allocator. |
| Utils.AllocatorNotDeallocator | src/core/basic_utilities/src/Utils.cpp:48-152 | No call is both an allocator and a deallocator. |
| Utils.DefinedFunctionsAreNotLibraryCalls | src/core/basic_utilities/src/Utils.cpp:48-191 | A call of a function with a body is never recognised, and both object getters return null for it. |
| PdgPrinter.CollectAllFunctionsInCallGraph | src/pdg/src/PDGPrinter.cpp:62-80 | The given set only grows, and main joins it. Every function that joins has all its bodied callees in the set. Everything added lies in every call-closed set holding main. From the empty set, as printPDG calls it, the result is therefore the least such set: main plus the bodied functions reachable from it. |
| PdgPrinter.EnqueueCallees | src/pdg/src/PDGPrinter.cpp:73-78 | The worklist gains exactly the callees with a body, in call-record order. Bodiless callees are skipped. |
| PdgPrinter.WithBodyMembers | src/pdg/src/PDGPrinter.cpp:75-76 | A function is queued exactly when it is a callee that has a body. |
| PdgPrinter.VisitKeepsWalk | src/pdg/src/PDGPrinter.cpp:70-78 | Inserting a newly popped function and queueing its bodied callees keeps the walk's invariant. The functions not yet collected strictly decrease, so the loop terminates. |
| PdgPrinter.SkipKeepsWalk | src/pdg/src/PDGPrinter.cpp:67-69 | A popped function already in the set is skipped without queueing its callees, and the invariant still holds. |
| LoopStats.CollectStatsOnNoelleInvariants | src/tools/loop_stats/src/LoopStats_Invariants.cpp:26-38 | The invariant count is overwritten with the size of the invariant set. The dynamic count grows by the self counts of those invariants. No other field is written. |
| LoopStats.CollectStatsOnLlvmInvariants | src/tools/loop_stats/src/LoopStats_Invariants.cpp:40-56 | Both counters grow, by the number and by the summed self counts of exactly the loop's instructions that isLoopInvariant accepts. No other field is written. |
| LoopStats.AcceptedStep | src/tools/loop_stats/src/LoopStats_Invariants.cpp:45-51 | One more instruction adds one, and its self count, when accepted, and nothing otherwise. |
| LoopStats.AcceptedMembers | src/tools/loop_stats/src/LoopStats_Invariants.cpp:45-49 | The counted instructions are exactly the loop's instructions the test accepts. |
| LoopStats.RejectedChangesNothing | src/tools/loop_stats/src/LoopStats_Invariants.cpp:45-47 | A rejected instruction, wherever it sits, changes neither counter. |
| LoopStats.CountsAddUpOverBlocks | src/tools/loop_stats/src/LoopStats_Invariants.cpp:43-53 | The counts over the loop's blocks add up over any split of the blocks. |
| LoopStats.SetSumRemove | src/tools/loop_stats/src/LoopStats_Invariants.cpp:33-35 | The sum of self counts over the invariant set does not depend on iteration order. |
| LoopStats.CollectorsAgree | src/tools/loop_stats/src/LoopStats_Invariants.cpp:26-56 | Suppose NOELLE's invariants are exactly the loop's instructions that LLVM accepts, and no instruction repeats. Then both collectors count the same number of invariants and the same dynamic total. |
| MetadataManager.Lookup | src/core/metadata_manager/src/MetadataManager_annotations.cpp:28-31 | The stored set when there is an entry, the empty set otherwise. A non-empty result implies an entry. |
| MetadataManager.GetFunctionAnnotations | src/core/metadata_manager/src/MetadataManager_annotations.cpp:26-32 | A function without an entry yields the empty set, and one with an entry yields exactly the stored set. |
| MetadataManager.GetVarAnnotations | src/core/metadata_manager/src/MetadataManager_annotations.cpp:34-40 | Same as GetFunctionAnnotations, for allocas, on varMetadata. |
| MetadataManager.GetGlobalAnnotations | src/core/metadata_manager/src/MetadataManager_annotations.cpp:42-48 | Same as GetFunctionAnnotations, for globals, on globalMetadata. |
| MetadataManager.EachLookupReadsOwnMap | src/core/metadata_manager/src/MetadataManager_annotations.cpp:26-48 | Each overload reads only its own map. Managers that agree on that map agree on the lookup. |
| MetadataManager.StoredFunctionAnnotations | src/core/metadata_manager/src/MetadataManager_annotations.cpp:26-32 | Annotations stored for a function are what its lookup returns. Storing them changes no other lookup. |
| MetadataManager.EmptyLookup | src/core/metadata_manager/src/MetadataManager_annotations.cpp:26-48 | A lookup is empty exactly when there is no entry or the entry is empty. |

## Left out

- Integer widths: every count and tree level is an unbounded integer.
  - LoopTree.LoopForest.GetNumberOfSubLoops: the source's `uint32_t` count and tree levels would wrap after 2^32 - 1. The model does not show this, because no forest that large exists in practice.
  - LoopStats.CollectStatsOnLlvmInvariants: counter overflow is not modelled. The Stats declaration, and so the counters' width, is not part of this model.
- LoopTree.LoopForest.GetInnermostLoopThatContains: the assertion on line 128 is not evaluated. Instead, `InnermostAssertionHolds` proves that it cannot fail in a properly nested forest (`WellNested`, which the forest builder establishes). The query's result contract does not depend on the assertion.
- LoopTree.LoopForest.GetOutermostLoopThatContains: the assertion on line 173 is not evaluated either. Instead, `OutermostAssertionHolds` proves that it cannot fail in any forest: the first containing visit is the node's own, and it is the only visit at its level.
- The LoopTree constructors and the forest builder (`LoopForest`, `addTree`, `removeTree`) are not part of this model. The forest's tree set is a field updated by `AddTree` and `RemoveTree`.
- Child order: the children are an unordered set in the source and a sequence without repeats in the model. The theorems hold for every sequence, so every iteration order is covered. The model does not fix which order the set iterates in.
- Visitors: they update the caller's locals, and in the model they return a new state. A visitor that changes the tree during a traversal is not modelled.
- `LoopStructure::isIncluded` is modelled as membership of the block in a set of blocks. For an instruction, the test is on its parent block.
- Utils.GetFreedObject: it requires a call of `free` to have at least one argument, because LLVM's `getArgOperand(0)` demands one.
- `Utils::injectPrint` emits LLVM IR through an IR builder, and is not modelled.
- `PDGPrinter::printPDG` and `printGraphsForFunction` write DOT files, and are not modelled. The call graph is a map from a function to its callees.
  - A module without "main" is not modelled: main is a parameter.
  - A call record whose callee is the external call-graph node (a null function) is not modelled.
- The GenericSCC and RecomputableSCC base classes are not part of this model. RecomputableSCC is assumed to pass the kind, SCC and loop on to GenericSCC, and its trailing flag is kept without interpretation.
- `Hot::getSelfInstructions` and `Loop::isLoopInvariant` are parameters of the collectors.
- The Stats structure keeps only the two counters the collectors write.
