# A verified model of CPython's object lifetime machinery and collection mixins

This project models the parts of CPython 3.7 in which small algorithms keep large promises, and
proves those promises for all inputs and all runs:

* the **cycle detector** of `Modules/gcmodule.c` on its intrusive lists and packed headers
  (`Include/objimpl.h`): from reference counts and references alone it separates a generation into
  what is reachable from outside, what legacy finalizers can reach, and garbage that nothing else
  refers to, and on the way it untracks containers that can be part of no cycle (`GcHeader`,
  `GcRing`, `GcReachability`, `GcCounting`, `GcCollector`);
* **reference counting with the trashcan** (`Include/object.h`, `Objects/object.c`): deferring
  deallocations bounds the nesting and still destroys exactly what plain recursion destroys
  (`RefGraph`, `Trashcan`), the slot-updating macros are safe under any interleaving
  (`SlotUpdates`), and on a heap kept by reference counting the collector finds exactly what is held
  from outside a generation, never calls garbage what running code can reach, and clearing what it
  finds frees it (`Lifetimes`);
* the **recursion guard** of `Include/ceval.h`, `Python/ceval.c` and `sys.setrecursionlimit` as a
  hysteresis machine over whole runs (`RecursionGuard`);
* the **collection mixins** of `Lib/_collections_abc.py`: set comparisons, set algebra pure and in
  place, the order-independent `_hash` on unbounded integers, mapping updates, sequence searches and
  draining loops (`Enumerations`, `SetHash`, `SetHashValues`, `AbstractSets`, `AbstractMappings`,
  `AbstractSequences`);
* the **power-of-two rounding** macros and the object size they feed (`SizeRounding`), and the
  ordered insert of `setup.py` with its reversed caller (`SearchPath`).

`Bits` supplies Python's bitwise operators on unbounded two's-complement integers; a C word of `w`
bits is the same operators reduced modulo 2^w, for every width `w`.

How the model is shaped. State that the source updates in place is a class whose methods perform the
same assignments; each method is proved against a function or predicate of its old state. The
collector's memory is two sequences of links and one of header words, indexed by node number; the
abstract methods of the mixins are methods whose contracts leave the iteration order open, and the
mixin methods use nothing else. `hash`, `os.path.isdir` and `os.path.isabs` are parameters.

Where the code and its comments disagree, the code is modelled:

* the comment at `Include/ceval.h:70-73` says that the overflow flag is reset below "limit - 50"; for
  limits up to 200 the code uses three quarters of the limit rounded down to a multiple of four;
* `sys.setrecursionlimit` says a limit must be at least 1, but 1, 2 and 3 are always refused
  (`AcceptedLimit`), because their mark is 0;
* `add_dir_to_list` says "after any relative directories"; it inserts after the first one. The new
  directories lose their order exactly when the list has no relative entry and one of them other than
  the first is itself relative (`BlockAtFront`, `OrderKeptIff`, `OrderLost`);
* the comment at `Include/object.h:1033-1034` says that the call stack never exceeds a depth of
  `PyTrash_UNWIND_LEVEL`, which is 50; up to 51 guarded deallocators are on it, the innermost of which
  only defers its object (`Runtime.Dealloc`).

## Model

| member | source | states |
|---|---|---|
| GcCollector.GcHeap.DeduceUnreachable | Modules/gcmodule.c:938-988 | the deduction phase of a collection, in any generation: the objects reachable from outside the generation end up in the next older list behind what it held, less tuples and, in a full collection, dicts that hold nothing that may be tracked, which are untracked, among them all that held nothing of the kind at the start; the finalizers list gets exactly what objects with a tp_del reach among the rest; every other object is garbage whose references all come from garbage; no finalized flag, outside object or other list changes |
| GcCollector.GcHeap.RetireReachable | Modules/gcmodule.c:952-977 | the first half of it: listed and untracked objects together are the reachable set, all others are on the unreachable list, and the next older list holds its old objects and the listed ones |
| GcCollector.GcHeap.Retire | Modules/gcmodule.c:964-977 | the survivors are appended to the older list in order; in a full collection exactly the dicts that hold nothing that may be tracked leave it |
| GcCollector.GcHeap.FindTrash | Modules/gcmodule.c:952-962 | counting, subtracting and moving in sequence: the young list and the untracked tuples are the reachable set, the rest is on the unreachable list and marked so |
| GcCollector.GcHeap.SeparateLegacy | Modules/gcmodule.c:982-988 | of the trash, exactly the closure of the objects with legacy finalizers is set apart and marked reachable again |
| GcCollector.GcHeap.MoveUnreachable | Modules/gcmodule.c:456-508 | starting from counts of outside references, the walk terminates with the young list and the tuples it untracked equal to the least set that holds the outside-referenced objects and is closed under references, although objects move back and forth and leave the list on the way; an untracked tuple holds nothing that may be tracked, and a tuple that stays did hold something of the kind at the start |
| GcCollector.GcHeap.Scan | Modules/gcmodule.c:473-493 | the branch for a positive count: the next node is read after the traversal and before the object may leave the list; either way the object stays reachable and the walk goes on with that node |
| GcCollector.GcHeap.Settle | Modules/gcmodule.c:482-488 | the object under the cursor is settled and everything it refers to is marked |
| GcCollector.GcHeap.DropTuple | Modules/gcmodule.c:490-492 | a settled tuple leaves the young list if and only if nothing it holds may be tracked at that point, without upsetting the cursor, the partition of the generation or what has been chased |
| GcCollector.GcHeap.MaybeUntrack | Objects/tupleobject.c:179-203 | a listed tuple or dict is untracked if and only if every object that a chain of references leads to from it is one the collector does not know or a tuple already untracked, and, for a tuple, no element is missing; otherwise nothing changes |
| GcCollector.GcHeap.UntrackDicts | Modules/gcmodule.c:510-522 | exactly the listed dicts that hold nothing that may be tracked are untracked, and the others stay listed |
| GcCollector.GcHeap.Park | Modules/gcmodule.c:494-505 | the branch for count 0: the object moves to the unreachable list and the walk goes on with its old successor |
| GcCollector.GcHeap.VisitReachable | Modules/gcmodule.c:406-446 | one traversal step marks the target, bringing it back to the young list if it had been moved away, and never unmarks anything |
| GcCollector.GcHeap.TraverseReachable | Modules/gcmodule.c:482-488 | after traversing an object every member it refers to is marked |
| GcCollector.GcHeap.UpdateRefs | Modules/gcmodule.c:340-367 | exactly the listed objects' headers take over their reference counts |
| GcCollector.GcHeap.SubtractRefs | Modules/gcmodule.c:393-403 | every listed object's header ends up with the number of references to it from outside the list, never below 0 |
| GcCollector.GcHeap.TraverseDecref | Modules/gcmodule.c:398-401 | one container takes away exactly its own references, and no count is 0 when it is visited |
| GcCollector.GcHeap.VisitDecref | Modules/gcmodule.c:371-385 | only positive counts are lowered, so objects outside the generation are untouched |
| GcCollector.GcHeap.CheckGarbage | Modules/gcmodule.c:817-833 | the result is 0 if and only if every reference to a listed object comes from a listed object |
| GcCollector.GcHeap.AllCountsZero | Modules/gcmodule.c:826-832 | true exactly when every listed object's count is 0 |
| GcCollector.GcHeap.MoveLegacyFinalizers | Modules/gcmodule.c:536-555 | exactly the unreachable objects with a tp_del move, whatever their positions |
| GcCollector.GcHeap.MoveLegacyFinalizerReachable | Modules/gcmodule.c:575-586 | the growing list ends up as exactly the closure of its first objects |
| GcCollector.GcHeap.VisitMove | Modules/gcmodule.c:559-569 | one traversal step moves a target that is still unreachable and nothing else |
| GcCounting.GarbageIsIsolated | Modules/gcmodule.c:448-455 | all references counted in an unreachable object's ob_refcnt come from unreachable objects |
| GcCounting.CollectableIsIsolated | Modules/gcmodule.c:979-988 | the same holds of what is left after everything finalizers can reach is kept |
| GcCounting.VisitSubtracts | Modules/gcmodule.c:376-382 | as long as counts are not too small, a visited member still has a positive count, and lowering it accounts for exactly this reference |
| GcCounting.UntrackableIff | Objects/tupleobject.c:179-203 | the element-wise test of tuples and dicts decides exactly that, on a heap whose untracked tuples are complete and hold nothing that may be tracked |
| GcCounting.UntrackableIsOnNoCycle | Modules/gcmodule.c:122-127 | so a tracked container that can be untracked is part of no reference cycle |
| GcCounting.UntrackedStaysHarmless | Modules/gcmodule.c:142-152 | the deduction phase keeps that condition: afterwards, too, an untracked tuple is complete and holds nothing that may be tracked |
| GcCollector.GcHeap.constructor | Modules/gcmodule.c:49-57 | generation heads start as empty rings and objects untracked and not finalized |
| GcCollector.GcHeap.Track | Include/objimpl.h:295-304 | refuses exactly the tracked objects; otherwise the object is REACHABLE, last in the ring, and no other header changes |
| GcCollector.GcHeap.Untrack | Include/objimpl.h:310-317 | the object leaves the ring, the others keep their order, no other header changes |
| GcCollector.GcHeap.ListMove | Modules/gcmodule.c:273-286 | the k-th object of one ring becomes the last of the other; the same links as remove followed by append; no node outside the two rings changes |
| GcCollector.GcHeap.ListMerge | Modules/gcmodule.c:289-302 | one ring is appended to the other in order and becomes empty, also when it was empty |
| GcCollector.GcHeap.SetRefs | Include/objimpl.h:272-275 | stores a fitting value in one header and leaves every flag and every other header alone |
| GcCollector.GcHeap.DecrefHeader | Include/objimpl.h:276 | lowers one positive count by one and leaves every flag alone |
| GcReachability.ReachableIffPath | Modules/gcmodule.c:448-455 | the least closed set is the set of objects at the end of a chain of references from a root |
| GcReachability.ScanBegins | Modules/gcmodule.c:459-468 | the walk's invariants hold at its start |
| GcReachability.ScanSettles | Modules/gcmodule.c:461-468 | settling the object under the cursor keeps them |
| GcReachability.ScanParks | Modules/gcmodule.c:461-468 | moving the object under the cursor away keeps them |
| GcReachability.ScanUntracks | Modules/gcmodule.c:490-492 | taking the object settled last out of the list keeps them |
| GcReachability.VisitReturns | Modules/gcmodule.c:421-430 | bringing an object back to the young list keeps the partition into the two lists |
| GcReachability.ScanEnds | Modules/gcmodule.c:448-455 | at the end of the walk they say that the young list and the untracked objects are the reachable set |
| GcRing.RunKeepsRing | Include/objimpl.h:293-317 | any run of TRACK and UNTRACK leaves a well-formed ring of exactly the tracked objects, each once, in tracking order |
| GcRing.TrackThenUntrack | Include/objimpl.h:295-317 | untracking a just tracked object gives every other node its links back |
| GcRing.AppendRing | Include/objimpl.h:300-303 | the four link assignments of TRACK put the node last |
| GcRing.RemoveRing | Include/objimpl.h:314-316 | the link assignments of UNTRACK take out exactly one node |
| GcRing.MoveRings | Modules/gcmodule.c:269-286 | moving between disjoint rings keeps both well formed |
| GcRing.MergeRings | Modules/gcmodule.c:288-302 | merging disjoint rings concatenates them |
| GcHeader.RefsReadsBackIff | Include/objimpl.h:265-275 | REFS reads back a stored value if and only if it fits in w-1 bits; SET_REFS never touches the finalized flag |
| GcHeader.SetFinalizedKeepsRefs | Include/objimpl.h:278-282 | SET_FINALIZED stores the flag and leaves the count or state alone |
| GcHeader.PackedRunRefinesFields | Include/objimpl.h:265-317 | over any run of the header macros whose counts fit, the packed word behaves as two independent fields, fatal errors included |
| GcHeader.TracksAlternate | Include/objimpl.h:289-317 | in any run of TRACK, UNTRACK and SET_FINALIZED without an error, the state is -2 or -3, and TRACK and UNTRACK alternate |
| GcHeader.FlagChangesOnlyBySetFinalized | Include/objimpl.h:265-282 | in any run without SET_FINALIZED, overflowing counts included, the flag stays as it was |
| Trashcan.TrashcanRefinesRecursion | Include/object.h:996-1035 | two cascades from one heap, in whatever order or deferral, run the same bodies exactly once each and leave the same objects with the same counts |
| Trashcan.Runtime.DropReference | Include/object.h:788-796 | dropping a reference with the trashcan leaves exactly the greatest set of objects supported from outside or by each other; the counter and the deferral list are back to 0 and empty |
| Trashcan.Runtime.DropReferenceRecursively | Include/object.h:998-1001 | the same outcome for unbounded recursion, which the trashcan therefore refines |
| Trashcan.Runtime.Decref | Include/object.h:788-796 | every DECREF of a cascade hits a live object with a positive count, and keeps counts equal to owners |
| Trashcan.Runtime.XDecref | Include/object.h:849-854 | the same, or nothing for an empty slot |
| Trashcan.Runtime.Dealloc | Include/object.h:1052-1065 | below a counter of 50 the body runs at once, from 50 on the object goes on the deferral list and nothing else happens; on entry the counter is the number of guarded deallocators on the stack, and with this one there are never more than 51; an outermost guarded deallocation leaves the deferral list empty |
| Trashcan.Runtime.End | Include/object.h:1058-1061 | END lowers the counter, and drains exactly when no other guarded body is on the stack |
| Trashcan.Runtime.Body | Objects/listobject.c:314-335 | the body drops every reference in the slots and no other, each slot once, from last to first |
| Trashcan.Runtime.DepositObject | Objects/object.c:2003-2012 | the object becomes the head of the list linked through gc_prev |
| Trashcan.Runtime.DestroyChain | Objects/object.c:2040-2063 | the drain, called with one guarded deallocator on the stack, empties the list, including what is deferred while it runs, and terminates; what it drains never drains again, so never more than 51 guarded deallocators are on the stack |
| Trashcan.Runtime.NothingRefersTo | Include/object.h:798-831 | when a deallocator starts, no slot of a live object, no running code and no body in progress refers to the object |
| Trashcan.Runtime.New | Include/object.h:768-771 | a new object has one owner; the reference total stays the sum of all counts |
| Trashcan.Runtime.Incref | Include/object.h:784-786 | one more owner; the reference total stays the sum of all counts |
| Trashcan.Runtime.XSetRef | Include/object.h:876-888 | a slot is overwritten and the old value dropped with its whole cascade; counts stay equal to owners and the total to their sum |
| Trashcan.CountsAfterStart | Include/object.h:788-796 | at count 0 no owner is left, a body takes over exactly its object's references, and no supported set is touched |
| Lifetimes.RootsAreHeldFromOutside | Modules/gcmodule.c:387-391 | on a heap whose counts are owners, subtraction yields as roots exactly the members held by running code or by live objects outside the generation, and no count is too small |
| Lifetimes.ReachableIffHeldFromOutside | Modules/gcmodule.c:947-960 | the collector calls a member reachable if and only if a chain of references through members leads to it from one held by running code or by a live object outside the generation |
| Lifetimes.WhatCodeReachesIsReachable | Modules/gcmodule.c:954-962 | nothing that running code can reach through any live objects, in the generation or not, is called garbage |
| Lifetimes.CountingNeverFreesGarbage | Modules/gcmodule.c:947-962 | whatever references running code drops, every object the collector finds unreachable survives reference counting |
| Lifetimes.ClearingFreesGarbageIff | Modules/gcmodule.c:845-874 | after slots of the garbage have been cleared, reference counting frees all of it if and only if no group of garbage objects still keeps itself alive |
| Lifetimes.EmptyingFreesGarbage | Modules/gcmodule.c:845-874 | in particular emptying all its slots frees all of it |
| Lifetimes.ClearingKeepsWhatCodeReaches | Modules/gcmodule.c:845-874 | whatever slots of the garbage are cleared, everything running code could reach survives |
| SlotUpdates.DeallocatorsStartUnreferenced | Include/object.h:798-888 | in every run from the empty heap that updates slots by CLEAR, SETREF and XSETREF only, however it interleaves with deallocators that drop the fields of their dying objects, a deallocator starts only when no running code and no slot refers to the object, save fields that a dying owner has already dropped |
| SlotUpdates.CountsStayOwners | Include/object.h:832-888 | the same from any heap whose counts are owners, and over every such run each count is the number of owning slots and running references |
| SlotUpdates.EachDeallocatorStartsOnce | Include/object.h:788-796 | over every such run the deallocators started are those of exactly the objects whose counts it brought to 0, each started once |
| SlotUpdates.CountsFollowSteps | Include/object.h:768-796 | over every such run an object's count changes by the number of its NewReference and INCREF steps less its DECREF steps |
| SlotUpdates.ObviousCodeSafeIff | Include/object.h:801-816 | with nothing in between, decrementing before storing ends in the same heap as the macro, and is safe if and only if the count was above 1 |
| SlotUpdates.ObviousCodeIsDeadly | Include/object.h:801-831 | from every heap whose counts are owners, whatever the count, code that runs between the two halves and uses the macros only can start the deallocator while the slot still points at the object |
| SlotUpdates.ObviousCodeExample | Include/object.h:806-815 | a run from the empty heap in which it does |
| SlotUpdates.ReplaceIsBalanced | Include/object.h:832-888 | one macro moves one reference in and one out and leaves all other slots and references alone |
| RecursionGuard.RunIsSafe | Include/ceval.h:54-78 | over every run of Enter, Leave and accepted limit changes: flag clear means depth at most the limit, never more than 50 above it without an abort |
| RecursionGuard.FlagMeansAboveMark | Include/ceval.h:104-113 | at a fixed limit a set flag means a depth at or above the low-water mark |
| RecursionGuard.EnterOutcome | Python/ceval.c:668-700 | RecursionError exactly at the limit with the flag clear, fatal error exactly 50 above it with the flag set |
| RecursionGuard.ErrorsAreFarApart | Include/ceval.h:54-113 | two RecursionErrors at a fixed limit have at least 51 Leave steps between them above a limit of 200, and limit - 3 * (limit / 4) + 1 up to there |
| RecursionGuard.BoundIsReached | Include/ceval.h:54-113 | for limits from 4 on that many are also enough |
| RecursionGuard.UnwindingClearsFlag | Python/sysmodule.c:627-635 | from every reachable state unwinding clears the flag |
| RecursionGuard.AcceptedLimit | Python/sysmodule.c:621-646 | a limit is accepted if and only if it is at least 1 and the depth is below limit - 50 above 200, three times a quarter of it rounded down up to 200; so never 1, 2 or 3, and the next Leave then clears the flag |
| RecursionGuard.FlagStuckBelowFour | Include/ceval.h:107-113 | with a limit below 4, which only the unchecked C call can set, a set flag is never cleared, so there is no second RecursionError |
| RecursionGuard.ThreadState.constructor | Include/ceval.h:54-78 | a fresh thread state is safe, at depth 0 with limit 1000 and the flag clear |
| RecursionGuard.ThreadState.EnterRecursiveCall | Include/ceval.h:82-102 | from a safe state the error comes exactly at the limit with the flag clear and the abort exactly 50 above it with the flag set; short of an abort the state stays safe; a call that raises is not counted and sets the flag |
| RecursionGuard.ThreadState.CheckRecursiveCall | Python/ceval.c:668-700 | the error if and only if the flag is clear and the depth above the limit, giving the level back; the abort if and only if the flag is set and the depth more than 50 above it; otherwise no change; one level above a safe state it leads back to one |
| RecursionGuard.ThreadState.LeaveRecursiveCall | Include/ceval.h:85-88 | the flag is kept exactly at a depth of at least limit - 50 above a limit of 200, of at least 3 * (limit / 4) up to there; a safe state stays safe and resettable |
| RecursionGuard.ThreadState.SetRecursionLimit | Python/sysmodule.c:612-649 | accepts exactly the limits from 1 on whose mark is above the depth, refusing without a change; an accepted limit is at least 4, keeps the state safe, and makes the next Leave clear the flag |
| SetHash.ComputeHash | Lib/_collections_abc.py:536-551 | masking after every step computes the unbounded-integer value reduced once, sign-wrapped, with -1 replaced |
| SetHash.HashOrderIndependent | Lib/_collections_abc.py:521-535 | any two enumerations of one set give the same value |
| SetHash.EveryOrderHashesAlike | Lib/_collections_abc.py:528-534 | the value is a function of the elements alone |
| SetHash.HashInRange | Lib/_collections_abc.py:545-551 | the result is a signed machine word and never -1 |
| SetHashValues.EachElementCounts | Lib/_collections_abc.py:540-551 | sets that differ in one element have the same value if these elements' hashes agree in the low w bits, and only then, unless the value is the one that replaces -1 |
| SetHashValues.FinishIsReduction | Lib/_collections_abc.py:544-551 | finishing changes nothing modulo 2^w, except that -1 gives way to 590923713 |
| SetHashValues.KnownValues | Lib/_collections_abc.py:536-551 | the 64-bit values for no element and for one element of hash 1 or 2, as numbers |
| AbstractSets.MutableSet.Hash | Lib/_collections_abc.py:521-551 | the hash value of the contents, whatever order the set iterates in |
| AbstractSets.MutableSet.EqAndHashes | Lib/_collections_abc.py:528-534 | sets that compare equal have equal hashes |
| AbstractSets.MutableSet.Le | Lib/_collections_abc.py:430-438 | decides the subset relation; not implemented for a non-set |
| AbstractSets.MutableSet.Lt | Lib/_collections_abc.py:440-443 | decides the proper subset relation |
| AbstractSets.MutableSet.Gt | Lib/_collections_abc.py:445-448 | decides the proper superset relation |
| AbstractSets.MutableSet.Ge | Lib/_collections_abc.py:450-458 | decides the superset relation |
| AbstractSets.MutableSet.Eq | Lib/_collections_abc.py:460-463 | decides equality of contents |
| AbstractSets.MutableSet.And | Lib/_collections_abc.py:474-477 | a new set with the intersection, for any iterable, repeats included |
| AbstractSets.MutableSet.IsDisjoint | Lib/_collections_abc.py:481-486 | true exactly for a null intersection |
| AbstractSets.MutableSet.Or | Lib/_collections_abc.py:488-492 | a new set with the union |
| AbstractSets.MutableSet.Sub | Lib/_collections_abc.py:496-502 | a new set with the difference |
| AbstractSets.MutableSet.Xor | Lib/_collections_abc.py:512-517 | a new set with the symmetric difference |
| AbstractSets.MutableSet.Remove | Lib/_collections_abc.py:580-584 | removes a member, KeyError exactly for a non-member |
| AbstractSets.MutableSet.Pop | Lib/_collections_abc.py:586-594 | removes and returns some member, KeyError exactly when empty |
| AbstractSets.MutableSet.Clear | Lib/_collections_abc.py:596-602 | as many successful pops as there were elements, each element popped once |
| AbstractSets.MutableSet.InPlaceOr | Lib/_collections_abc.py:604-607 | the contents that `\|` would return, also for the receiver itself |
| AbstractSets.MutableSet.InPlaceAnd | Lib/_collections_abc.py:609-612 | the contents that `&` would return, also for the receiver itself |
| AbstractSets.MutableSet.InPlaceXor | Lib/_collections_abc.py:614-625 | the contents that `^` would return, also for the receiver itself and for repeated elements |
| AbstractSets.MutableSet.InPlaceSub | Lib/_collections_abc.py:627-633 | the contents that `-` would return, also for the receiver itself |
| AbstractMappings.LastPairWins | Lib/_collections_abc.py:846-849 | after assigning pairs in order each key has its last value and every other key is unchanged |
| AbstractMappings.MutableMapping.Update | Lib/_collections_abc.py:824-849 | the old map overridden by the argument and then by the keywords, for each argument shape, with the state left behind by each error |
| AbstractMappings.MutableMapping.SetFromMapping | Lib/_collections_abc.py:839-841 | every key of the other mapping, which may be the receiver, takes the other's value |
| AbstractMappings.MutableMapping.SetFromKeys | Lib/_collections_abc.py:842-844 | every key takes the value that looking it up gives; the first key that cannot be looked up stops it, keeping what was assigned before |
| AbstractMappings.MutableMapping.Pop | Lib/_collections_abc.py:790-802 | removes and returns, or falls back, or raises |
| AbstractMappings.MutableMapping.PopItem | Lib/_collections_abc.py:804-814 | removes and returns some item, KeyError exactly when empty |
| AbstractMappings.MutableMapping.Clear | Lib/_collections_abc.py:816-822 | as many successful popitems as there were keys; the popped pairs rebuild the old map |
| AbstractSequences.MutableSequence.Index | Lib/_collections_abc.py:899-920 | the least position in the window that holds the value, ValueError exactly when there is none; a negative bound counts from the end |
| AbstractSequences.MutableSequence.Remove | Lib/_collections_abc.py:1000-1004 | deletes exactly the first occurrence and keeps the order of the rest |
| AbstractSequences.MutableSequence.Reverse | Lib/_collections_abc.py:981-985 | position i gets what was at n-1-i, for every length |
| AbstractSequences.ReversedInvolution | Lib/_collections_abc.py:981-985 | reversing twice is the identity and keeps the items |
| AbstractSequences.MutableSequence.Pop | Lib/_collections_abc.py:992-998 | removes and returns the item at a possibly negative index, IndexError exactly out of range |
| AbstractSequences.MutableSequence.Clear | Lib/_collections_abc.py:973-979 | the i-th item popped is the i-th from the end of the old ones |
| SizeRounding.RoundDownIsGreatestMultiple | Include/pymacro.h:78-86 | masking gives the greatest multiple of the power of two at most n |
| SizeRounding.RoundUpIsLeastMultipleIff | Include/pymacro.h:78-88 | the least multiple at least n if and only if n + a - 1 does not wrap; 0 otherwise |
| SizeRounding.IsAlignedIffMultiple | Include/pymacro.h:89-90 | holds exactly for the multiples, which are exactly the fixed points of rounding down |
| SizeRounding.VarSizeCoversAndAligns | Include/objimpl.h:150-167 | aligned, large enough, and less than one pointer wasted, whenever the byte count fits Py_ssize_t |
| SearchPath.PathList.AddDir | setup.py:53-66 | the loop inserts right after the first relative entry or at the front, or not at all |
| SearchPath.PathList.AddReversed | setup.py:562-563 | the reversed loop, as a fold of the insert |
| SearchPath.BlockAfterRelative | setup.py:53-66 | a list with a relative entry gets the new directories as one block in their own order |
| SearchPath.BlockAtFront | setup.py:53-66 | a list of absolute entries gets them in front, the last relative one first |
| SearchPath.OrderKeptIff | setup.py:53-66 | for every list: the new directories end up as one block in the order given if and only if the list had a relative entry or none of them but possibly the first is relative |
| SearchPath.OrderLost | setup.py:53-66 | an input whose order is lost: an absolute and a relative directory into an empty list come out swapped |
| SearchPath.NewDirsMeaning | setup.py:57-61 | the block holds exactly the existing directories not listed yet, each once |
| SearchPath.NewDirsPosition | setup.py:562-563 | a repeated directory stands where its last occurrence stands |
| SearchPath.NeverDuplicates | setup.py:57-61 | a list without duplicates stays so, and its entries keep their order |
| SearchPath.InsertAtMeaning | setup.py:62-66 | the insertion point is just after the first relative entry, or 0 when there is none |

## Left out

- GcCollector.GcHeap.DeduceUnreachable: covers the deduction, from `update_refs` to `move_legacy_finalizer_reachable`; merging younger generations first, statistics, weakrefs, finalizers and the list handling of `delete_garbage`, which run arbitrary types' code, are not modelled
- Lifetimes.ClearingFreesGarbageIff: the slots that tp_clear empties are a parameter, and code that it runs, resurrection among it, is not modelled
- SlotUpdates.CountsStayOwners: an object whose count has reached 0 is not resurrected by its finalizer, and an object's number is never reused
- Trashcan.Runtime.Dealloc: deallocators either use the two macros or do not; `subtype_dealloc` (Objects/typeobject.c), which adjusts the counter by hand around them, finalizers and resurrection are not modelled
- Trashcan.Runtime.Body: freeing the memory and the free lists are not modelled; an object's number is never reused
- RecursionGuard.ThreadState.CheckRecursiveCall: `recursion_critical` and the USE_STACKCHECK build are not modelled
- GcHeader.PackedRunRefinesFields: counts that do not fit in w-1 bits are excluded, because the word cannot hold them (RefsReadsBackIff); the model is one thread, and right shifts of negative words are arithmetic
- AbstractSets.MutableSet.InPlaceOr: an iterable that is a live view of the receiver other than the receiver itself is not modelled, and neither is an element whose equality disagrees with its hash
- AbstractMappings.MutableMapping.Update: items that do not unpack into pairs are not modelled
- AbstractSequences.MutableSequence.Index: `start=None` is not modelled, and neither is `extend` with the sequence itself, which does not terminate
- SizeRounding.VarSizeCoversAndAligns: a byte count that overflows `Py_ssize_t` is undefined in C and not modelled
- Py_TRACE_REFS and COUNT_ALLOCS builds, threads switching in the middle of a link update, and the remaining mixin methods (`get`, `setdefault`, views, `count`, `__rsub__`) are not modelled; they would only add easy members
