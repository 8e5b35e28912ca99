/** Reference counting with the trashcan: the macros of Include/object.h, the deferral list of
    Objects/object.c, and, as a reference, the same deallocation by plain recursion. */
module Trashcan {
  import opened Enumerations
  import opened Pointers
  import opened RefGraph

  const UNWIND_LEVEL := 50

  // Whether an object's deallocator is bracketed by the trashcan macros.
  datatype Kind = Guarded | Unguarded

  // The deferral list is linked through gc_prev.
  ghost predicate Chain(gcPrev: seq<int>, head: int, list: seq<int>)
    decreases |list|
  {
    if list == [] then head == NULL
    else head == list[0] && 0 <= head < |gcPrev| && Chain(gcPrev, gcPrev[head], list[1..])
  }

  lemma ChainPush(gcPrev: seq<int>, head: int, list: seq<int>, op: int)
    requires Chain(gcPrev, head, list) && 0 <= op < |gcPrev| && op !in list
    ensures Chain(gcPrev[op := head], op, [op] + list)
  {
    ChainFrame(gcPrev, head, list, op, head);
    assert ([op] + list)[1..] == list;
  }

  lemma ChainPop(gcPrev: seq<int>, head: int, list: seq<int>)
    requires Chain(gcPrev, head, list) && head != NULL
    ensures list != [] && head == list[0] && 0 <= head < |gcPrev| && Chain(gcPrev, gcPrev[head], list[1..])
  {
  }

  lemma ChainEnd(gcPrev: seq<int>, head: int, list: seq<int>)
    requires Chain(gcPrev, head, list)
    ensures head == NULL <==> list == []
  {
  }

  lemma {:induction false} ChainFrame(gcPrev: seq<int>, head: int, list: seq<int>, x: nat, v: int)
    requires Chain(gcPrev, head, list) && x < |gcPrev| && x !in list
    ensures Chain(gcPrev[x := v], head, list)
    decreases |list|
  {
    if list != [] {
      assert list[0] in list;
      ChainFrame(gcPrev, gcPrev[head], list[1..], x, v);
    }
  }

  // ---- Invariants, as predicates on values --------------------------------------------------

  ghost predicate OutsideIsReal(outside: multiset<int>, n: nat) {
    forall x :: x in outside ==> 0 <= x < n
  }

  ghost predicate SlotsHoldObjects(slots: seq<seq<int>>) {
    forall x, i :: 0 <= x < |slots| && 0 <= i < |slots[x]| ==>
      slots[x][i] == NULL || 0 <= slots[x][i] < |slots|
  }

  // Each count is the number of references: from running code, from objects not yet torn
  // down, and from bodies in progress.
  ghost predicate CountsAreOwners(refcnt: seq<int>, slots: seq<seq<int>>, unstarted: set<int>,
                                  outside: multiset<int>, pending: multiset<int>)
  {
    && |refcnt| == |slots|
    && forall x :: 0 <= x < |refcnt| ==> refcnt[x] == outside[x] + Refs(slots, unstarted)[x] + pending[x]
  }

  // Every object is either not yet torn down, or had its body begun once and has count 0.
  ghost predicate TornOnce(refcnt: seq<int>, unstarted: set<int>, torn: seq<int>) {
    && (forall x :: x in unstarted ==> 0 <= x < |refcnt|)
    && (forall x :: x in torn ==> 0 <= x < |refcnt|)
    && Distinct(torn)
    && (forall x :: 0 <= x < |refcnt| ==> (x in torn <==> x !in unstarted))
    && (forall x :: 0 <= x < |refcnt| && x !in unstarted ==> refcnt[x] == 0)
  }

  ghost predicate DeferredAreDead(kinds: seq<Kind>, refcnt: seq<int>, unstarted: set<int>, later: seq<int>) {
    && |kinds| == |refcnt|
    && Distinct(later)
    && forall i :: 0 <= i < |later| ==>
         later[i] in unstarted && 0 <= later[i] < |refcnt| && refcnt[later[i]] == 0 && kinds[later[i]].Guarded?
  }

  // An object whose count is 0 is on the deferral list, except op, which is about to be
  // deallocated.
  ghost predicate DeadAreDeferred(refcnt: seq<int>, unstarted: set<int>, later: seq<int>, op: int) {
    forall x :: x in unstarted && 0 <= x < |refcnt| && refcnt[x] == 0 && x != op ==> x in later
  }

  // Tearing down objects from `before` to `after` never touched a supported set.
  ghost predicate KeepsSupported(slots: seq<seq<int>>, outside: multiset<int>, before: set<int>, after: set<int>) {
    forall s: set<int> :: s <= before && Supported(slots, outside, s) ==> s <= after
  }

  lemma KeepsSupportedTransitive(slots: seq<seq<int>>, outside: multiset<int>, a: set<int>, b: set<int>, c: set<int>)
    requires KeepsSupported(slots, outside, a, b) && KeepsSupported(slots, outside, b, c)
    ensures KeepsSupported(slots, outside, a, c)
  {
  }

  // The references a body still has to drop, and the next of them.
  lemma NextToDrop(others: multiset<int>, items: seq<int>, i: nat)
    requires i < |items|
    ensures items[i] in others + multiset(items[..i + 1])
    ensures others + multiset(items[..i + 1]) - multiset{items[i]} == others + multiset(items[..i])
  {
    assert items[..i + 1] == items[..i] + [items[i]];
  }

  // What the bodies begun before have dropped stays the same.
  ghost predicate DropsKept(torn: seq<int>, before: map<int, seq<int>>, after: map<int, seq<int>>) {
    forall x <- torn :: x in before && x in after && after[x] == before[x]
  }

  lemma DropsKeptTransitive(torn: seq<int>, torn': seq<int>, a: map<int, seq<int>>, b: map<int, seq<int>>,
                            c: map<int, seq<int>>)
    requires torn <= torn' && DropsKept(torn, a, b) && DropsKept(torn', b, c)
    ensures DropsKept(torn, a, c)
  {
    assert forall x <- torn :: x in torn';
  }

  // The slots are dropped from last to first; those from i on already are.
  ghost predicate DroppedFrom(drops: map<int, seq<int>>, op: int, n: nat, i: int) {
    op in drops && |drops[op]| == n - i && forall k :: 0 <= k < |drops[op]| ==> drops[op][k] == n - 1 - k
  }

  lemma DropsAfterStart(torn: seq<int>, drops: map<int, seq<int>>, op: int, n: nat)
    requires DropsKept(torn, drops, drops) && op !in torn
    ensures DropsKept(torn + [op], drops[op := []], drops[op := []]) && DropsKept(torn, drops, drops[op := []])
    ensures DroppedFrom(drops[op := []], op, n, n)
  {
  }

  lemma DropsAfterNote(torn: seq<int>, before: map<int, seq<int>>, drops: map<int, seq<int>>, op: int, n: nat, i: nat)
    requires DropsKept(torn, before, drops) && op !in torn && i < n && DroppedFrom(drops, op, n, i + 1)
    ensures DropsKept(torn, before, drops[op := drops[op] + [i]])
    ensures DroppedFrom(drops[op := drops[op] + [i]], op, n, i)
  {
  }

  lemma DropsAfterCall(torn: seq<int>, before: map<int, seq<int>>, after: map<int, seq<int>>, op: int, n: nat, i: int)
    requires DropsKept(torn, before, after) && op in torn && DroppedFrom(before, op, n, i)
    ensures DroppedFrom(after, op, n, i)
  {
  }

  // Dropping one reference.
  lemma CountsAfterDrop(refcnt: seq<int>, slots: seq<seq<int>>, unstarted: set<int>, torn: seq<int>,
                        outside: multiset<int>, pending: multiset<int>, x: int)
    requires CountsAreOwners(refcnt, slots, unstarted, outside, pending)
    requires TornOnce(refcnt, unstarted, torn)
    requires 0 <= x < |refcnt| && x in pending
    ensures refcnt[x] > 0 && x in unstarted
    ensures CountsAreOwners(refcnt[x := refcnt[x] - 1], slots, unstarted, outside, pending - multiset{x})
    ensures TornOnce(refcnt[x := refcnt[x] - 1], unstarted, torn)
  {
  }

  lemma CountsIgnoreNull(refcnt: seq<int>, slots: seq<seq<int>>, unstarted: set<int>,
                         outside: multiset<int>, pending: multiset<int>)
    requires CountsAreOwners(refcnt, slots, unstarted, outside, pending)
    ensures CountsAreOwners(refcnt, slots, unstarted, outside, pending - multiset{NULL})
  {
  }

  lemma CountsAfterMove(refcnt: seq<int>, slots: seq<seq<int>>, unstarted: set<int>,
                        outside: multiset<int>, pending: multiset<int>, x: int)
    requires CountsAreOwners(refcnt, slots, unstarted, outside, pending) && x in outside
    ensures CountsAreOwners(refcnt, slots, unstarted, outside - multiset{x}, pending + multiset{x})
  {
  }

  lemma CountsAfterSwap(refcnt: seq<int>, slots: seq<seq<int>>, unstarted: set<int>,
                        outside: multiset<int>, pending: multiset<int>, x: int, i: nat, v: int)
    requires CountsAreOwners(refcnt, slots, unstarted, outside, pending)
    requires x in unstarted && 0 <= x < |slots| && i < |slots[x]|
    requires v == NULL || v in outside
    ensures CountsAreOwners(refcnt, slots[x := slots[x][i := v]], unstarted,
              if v == NULL then outside else outside - multiset{v}, pending + multiset{slots[x][i]})
  {
    RefsOverwrite(slots, unstarted, x, i, v);
    var before, after := Refs(slots, unstarted), Refs(slots[x := slots[x][i := v]], unstarted);
    forall y ensures after[y] + multiset{slots[x][i]}[y] == before[y] + multiset{v}[y] {
      assert (after + multiset{slots[x][i]})[y] == (before + multiset{v})[y];
    }
  }

  // A new object with one owner, holding references that running code gives up.
  lemma CountsAfterNew(refcnt: seq<int>, slots: seq<seq<int>>, unstarted: set<int>, torn: seq<int>,
                       outside: multiset<int>, contents: seq<int>)
    requires SlotsHoldObjects(slots) && TornOnce(refcnt, unstarted, torn)
    requires CountsAreOwners(refcnt, slots, unstarted, outside, multiset{})
    requires OwnsAll(contents, outside, |refcnt|) && OutsideIsReal(outside, |refcnt|)
    ensures CountsAreOwners(refcnt + [1], slots + [contents], unstarted + {|refcnt|},
              Exchanged(outside, contents, |refcnt|), multiset{})
  {
    hide Refs;
    var n := |refcnt|;
    RefsNewObject(slots, unstarted, contents);
    RefsMember(slots, unstarted, n);
    var refs, refs' := Refs(slots, unstarted), Refs(slots + [contents], unstarted + {n});
    var held, outside' := multiset(contents), Exchanged(outside, contents, n);
    forall x | 0 <= x <= n ensures (refcnt + [1])[x] == outside'[x] + refs'[x] {
      assert refs'[x] == refs[x] + held[x];
      assert held[x] > 0 ==> x in contents;
    }
  }

  // Running code gives up the references in contents and gets one to x.
  ghost function Exchanged(outside: multiset<int>, contents: seq<int>, x: int): multiset<int> {
    outside - multiset(contents) + multiset{x}
  }

  lemma ShapeAfterNew(refcnt: seq<int>, slots: seq<seq<int>>, unstarted: set<int>, torn: seq<int>,
                      outside: multiset<int>, contents: seq<int>)
    requires SlotsHoldObjects(slots) && TornOnce(refcnt, unstarted, torn) && |refcnt| == |slots|
    requires DeadAreDeferred(refcnt, unstarted, [], NULL)
    requires OwnsAll(contents, outside, |refcnt|) && OutsideIsReal(outside, |refcnt|)
    ensures SlotsHoldObjects(slots + [contents])
    ensures OutsideIsReal(Exchanged(outside, contents, |refcnt|), |refcnt| + 1)
    ensures TornOnce(refcnt + [1], unstarted + {|refcnt|}, torn)
    ensures DeadAreDeferred(refcnt + [1], unstarted + {|refcnt|}, [], NULL)
  {
  }

  // Running code owns every reference in contents, as often as it occurs there.
  ghost predicate OwnsAll(contents: seq<int>, outside: multiset<int>, n: nat) {
    && (forall i :: 0 <= i < |contents| ==> contents[i] == NULL || 0 <= contents[i] < n)
    && forall c <- contents :: c != NULL ==> multiset(contents)[c] <= outside[c]
  }

  lemma SlotsAfterSwap(slots: seq<seq<int>>, x: int, i: nat, v: int)
    requires SlotsHoldObjects(slots) && 0 <= x < |slots| && i < |slots[x]|
    requires v == NULL || 0 <= v < |slots|
    ensures SlotsHoldObjects(slots[x := slots[x][i := v]])
    ensures slots[x][i] == NULL || 0 <= slots[x][i] < |slots|
  {
  }

  lemma CountsAfterIncref(refcnt: seq<int>, slots: seq<seq<int>>, unstarted: set<int>, torn: seq<int>,
                          outside: multiset<int>, x: int)
    requires CountsAreOwners(refcnt, slots, unstarted, outside, multiset{})
    requires TornOnce(refcnt, unstarted, torn) && x in unstarted
    requires DeadAreDeferred(refcnt, unstarted, [], NULL)
    ensures 0 <= x < |refcnt|
    ensures CountsAreOwners(refcnt[x := refcnt[x] + 1], slots, unstarted, outside + multiset{x}, multiset{})
    ensures TornOnce(refcnt[x := refcnt[x] + 1], unstarted, torn)
    ensures DeadAreDeferred(refcnt[x := refcnt[x] + 1], unstarted, [], NULL)
  {
    assert refcnt[x] >= 0;
  }

  lemma DeferredAfterDrop(kinds: seq<Kind>, refcnt: seq<int>, unstarted: set<int>, later: seq<int>, x: int)
    requires DeferredAreDead(kinds, refcnt, unstarted, later) && DeadAreDeferred(refcnt, unstarted, later, NULL)
    requires 0 <= x < |refcnt| && refcnt[x] > 0
    ensures x !in later
    ensures DeferredAreDead(kinds, refcnt[x := refcnt[x] - 1], unstarted, later)
    ensures DeadAreDeferred(refcnt[x := refcnt[x] - 1], unstarted, later, if refcnt[x] == 1 then x else NULL)
  {
  }

  // A body begins: no reference to op is left anywhere, and op's own references become the
  // body's to drop.
  lemma CountsAfterStart(refcnt: seq<int>, slots: seq<seq<int>>, unstarted: set<int>, torn: seq<int>,
                         outside: multiset<int>, pending: multiset<int>, op: int)
    requires CountsAreOwners(refcnt, slots, unstarted, outside, pending)
    requires TornOnce(refcnt, unstarted, torn)
    requires op in unstarted && 0 <= op < |refcnt| && refcnt[op] == 0
    ensures CountsAreOwners(refcnt, slots, unstarted - {op}, outside, pending + multiset(slots[op]))
    ensures TornOnce(refcnt, unstarted - {op}, torn + [op])
    ensures KeepsSupported(slots, outside, unstarted, unstarted - {op})
    ensures op !in outside && op !in pending && op !in Refs(slots, unstarted) && op !in torn
  {
    RefsWithout(slots, unstarted, op);
    forall s: set<int> | s <= unstarted && Supported(slots, outside, s) ensures op !in s {
      RefsMonotone(slots, s, unstarted);
    }
  }

  lemma DeferredAfterStart(kinds: seq<Kind>, refcnt: seq<int>, unstarted: set<int>, later: seq<int>, op: int)
    requires DeferredAreDead(kinds, refcnt, unstarted, later) && DeadAreDeferred(refcnt, unstarted, later, op)
    requires op !in later
    ensures DeferredAreDead(kinds, refcnt, unstarted - {op}, later)
    ensures DeadAreDeferred(refcnt, unstarted - {op}, later, NULL)
  {
    assert forall i :: 0 <= i < |later| ==> later[i] in later;
  }

  lemma DeferredAfterDeposit(kinds: seq<Kind>, refcnt: seq<int>, unstarted: set<int>, later: seq<int>, op: int)
    requires DeferredAreDead(kinds, refcnt, unstarted, later) && DeadAreDeferred(refcnt, unstarted, later, op)
    requires op in unstarted && 0 <= op < |refcnt| && refcnt[op] == 0 && kinds[op].Guarded? && op !in later
    ensures DeferredAreDead(kinds, refcnt, unstarted, [op] + later)
    ensures DeadAreDeferred(refcnt, unstarted, [op] + later, NULL)
  {
    assert forall i :: 0 <= i < |later| ==> later[i] in later;
  }

  lemma EmptyHeap()
    ensures CountsAreOwners([], [], {}, multiset{}, multiset{}) && TornOnce([], {}, [])
    ensures DeferredAreDead([], [], {}, []) && DeadAreDeferred([], {}, [], NULL)
    ensures Chain([], NULL, []) && DropsKept([], map[], map[])
  {
  }

  lemma NothingDeferred(kinds: seq<Kind>, refcnt: seq<int>, unstarted: set<int>, gcPrev: seq<int>)
    requires |kinds| == |refcnt|
    ensures DeferredAreDead(kinds, refcnt, unstarted, []) && Chain(gcPrev, NULL, [])
  {
  }

  lemma DeferredAfterPop(kinds: seq<Kind>, refcnt: seq<int>, unstarted: set<int>, later: seq<int>)
    requires DeferredAreDead(kinds, refcnt, unstarted, later) && DeadAreDeferred(refcnt, unstarted, later, NULL)
    requires later != []
    ensures later[0] in unstarted && 0 <= later[0] < |refcnt| && refcnt[later[0]] == 0
    ensures DeferredAreDead(kinds, refcnt, unstarted, later[1..]) && later[0] !in later[1..]
    ensures DeadAreDeferred(refcnt, unstarted, later[1..], later[0])
  {
    assert later == [later[0]] + later[1..];
  }

  // How dropping references leaves the heap: the survivors are the greatest supported set of
  // the objects live before, every count is the number of owners, and each other object's
  // body has run exactly once.
  ghost predicate DropOutcome(slots: seq<seq<int>>, outside: multiset<int>, live: set<int>,
                              unstarted: set<int>, refcnt: seq<int>, torn: seq<int>)
  {
    && IsSurvivors(slots, outside, live, unstarted)
    && CountsAreOwners(refcnt, slots, unstarted, outside, multiset{})
    && TornOnce(refcnt, unstarted, torn)
  }

  lemma OutcomeReached(slots: seq<seq<int>>, outside: multiset<int>, live: set<int>,
                       unstarted: set<int>, refcnt: seq<int>, torn: seq<int>)
    requires CountsAreOwners(refcnt, slots, unstarted, outside, multiset{})
    requires TornOnce(refcnt, unstarted, torn)
    requires DeadAreDeferred(refcnt, unstarted, [], NULL)
    requires unstarted <= live && KeepsSupported(slots, outside, live, unstarted)
    ensures DropOutcome(slots, outside, live, unstarted, refcnt, torn)
  {
  }

  /** The trashcan refines plain recursion: two cascades from the same heap, however they
      order or defer the deallocations, run the same bodies exactly once each and leave the
      same objects with the same counts. */
  lemma TrashcanRefinesRecursion(slots: seq<seq<int>>, outside: multiset<int>, live: set<int>,
                                 unstartedA: set<int>, refcntA: seq<int>, tornA: seq<int>,
                                 unstartedB: set<int>, refcntB: seq<int>, tornB: seq<int>)
    requires DropOutcome(slots, outside, live, unstartedA, refcntA, tornA)
    requires DropOutcome(slots, outside, live, unstartedB, refcntB, tornB)
    ensures unstartedA == unstartedB && refcntA == refcntB
    ensures multiset(tornA) == multiset(tornB)
  {
    SurvivorsUnique(slots, outside, live, unstartedA, unstartedB);
    forall x ensures x in Elements(tornA) <==> x in Elements(tornB) {
    }
    EnumerationsArePermutations(tornA, tornB);
  }

  class Runtime {
    var kinds: seq<Kind>
    var slots: seq<seq<int>>
    var refcnt: seq<int>
    var refTotal: int
    var gcPrev: seq<int>
    var deleteNesting: int
    var deleteLater: int

    ghost var later: seq<int>          // the deferral list, head first
    ghost var unstarted: set<int>      // objects whose deallocator body has not begun
    ghost var torn: seq<int>           // bodies begun, in order
    ghost var pending: multiset<int>   // references that bodies in progress still have to drop
    ghost var outside: multiset<int>   // references held by running code
    ghost var drops: map<int, seq<int>> // the slots each body has dropped, in order
    ghost var active: int              // calls of guarded deallocators now on the stack
    ghost var deepest: int             // the most there ever were

    ghost predicate WellFormed()
      reads this
    {
      && |gcPrev| == |refcnt| == |kinds| == |slots|
      && SlotsHoldObjects(slots)
      && CountsAreOwners(refcnt, slots, unstarted, outside, pending)
      && TornOnce(refcnt, unstarted, torn)
      && DeferredAreDead(kinds, refcnt, unstarted, later)
      && Chain(gcPrev, deleteLater, later) && DropsKept(torn, drops, drops)
      && 0 <= deleteNesting <= 50 && 0 <= active <= deepest <= 51
    }

    ghost predicate Inv()
      reads this
    {
      WellFormed() && DeadAreDeferred(refcnt, unstarted, later, NULL)
    }

    // op's count has just reached 0.
    ghost predicate AboutToDealloc(op: int)
      reads this
    {
      && WellFormed() && DeadAreDeferred(refcnt, unstarted, later, op)
      && op in unstarted && 0 <= op < |refcnt| && refcnt[op] == 0 && op !in later
    }

    // Nothing is being deallocated.
    ghost predicate Idle()
      reads this
    {
      && Inv() && deleteNesting == active == 0 && pending == multiset{} && later == []
      && OutsideIsReal(outside, |refcnt|)
      && refTotal == Total(refcnt)
    }

    // What every piece of a deallocation cascade keeps.
    twostate predicate Cascaded()
      reads this
    {
      && Progressed() && deleteNesting == old(deleteNesting)
      && (deleteNesting == 0 && old(later) == [] ==> later == [])
    }

    twostate predicate Progressed()
      reads this
    {
      && kinds == old(kinds) && slots == old(slots) && |refcnt| == old(|refcnt|)
      && outside == old(outside) && active == old(active) && deepest >= old(deepest)
      && old(torn) <= torn && DropsKept(old(torn), old(drops), drops)
      && unstarted <= old(unstarted)
      && KeepsSupported(slots, outside, old(unstarted), unstarted)
      && refTotal - Total(refcnt) == old(refTotal - Total(refcnt))
    }

    // ---- The trashcan -------------------------------------------------------------------------

    // Py_DECREF
    method Decref(x: int)
      requires Inv() && 0 <= x < |refcnt| && x in pending && active == deleteNesting
      modifies this
      ensures Inv() && Cascaded()
      ensures pending == old(pending) - multiset{x}
      decreases |unstarted|, 3
    {
      hide CountsAreOwners;
      hide TornOnce;
      hide DeferredAreDead;
      hide DeadAreDeferred;
      hide KeepsSupported;
      hide Chain;
      hide DropsKept;
      hide Total;
      CountsAfterDrop(refcnt, slots, unstarted, torn, outside, pending, x);
      DeferredAfterDrop(kinds, refcnt, unstarted, later, x);
      TotalUpdate(refcnt, x, refcnt[x] - 1);
      refTotal := refTotal - 1;
      refcnt := refcnt[x := refcnt[x] - 1];
      pending := pending - multiset{x};
      if refcnt[x] == 0 {
        Dealloc(x);
      } else {
        KeepsItself(unstarted);
      }
    }

    /** A tp_dealloc: the body, bracketed by Py_TRASHCAN_SAFE_BEGIN and _END if guarded. On entry
        the counter is the number of guarded deallocators on the stack, this one not included; with
        this one there are never more than 51, drained objects included. */
    method Dealloc(op: int)
      requires AboutToDealloc(op) && active == deleteNesting
      modifies this
      ensures Inv() && Cascaded() && pending == old(pending)
      ensures old(deleteNesting) < 50 ==> op !in unstarted
      ensures kinds[op].Guarded? && old(deleteNesting) >= 50 ==>
                later == [op] + old(later) && torn == old(torn) && refcnt == old(refcnt)
      ensures kinds[op].Guarded? && deleteNesting == 0 ==> later == []
      decreases |unstarted|, 2
    {
      hide CountsAreOwners;
      hide TornOnce;
      hide DeferredAreDead;
      hide DeadAreDeferred;
      hide KeepsSupported;
      hide Chain;
      hide DropsKept;
      hide Total;
      if kinds[op].Unguarded? {
        Body(op);
        return;
      }
      active := active + 1;
      deepest := if active > deepest then active else deepest;
      if deleteNesting < UNWIND_LEVEL {
        BracketedBody(op);
      } else {
        DepositObject(op);
        KeepsItself(unstarted);
      }
      active := active - 1;
    }

    // What the macros do around a body that is run.
    method BracketedBody(op: int)
      requires AboutToDealloc(op) && active == deleteNesting + 1 && deleteNesting < 50
      modifies this
      ensures Inv() && Cascaded() && pending == old(pending) && op !in unstarted
      ensures deleteNesting == 0 ==> later == []
      decreases |unstarted|, 1
    {
      hide CountsAreOwners;
      hide TornOnce;
      hide DeferredAreDead;
      hide DeadAreDeferred;
      hide KeepsSupported;
      hide Chain;
      hide DropsKept;
      hide Total;
      deleteNesting := deleteNesting + 1;
      Body(op);
      label Unwound:
      SubsetCardinality(unstarted, old(unstarted));
      End();
      DropsKeptTransitive(old(torn), old@Unwound(torn), old(drops), old@Unwound(drops), drops);
      KeepsSupportedTransitive(slots, outside, old(unstarted), old@Unwound(unstarted), unstarted);
    }

    // Py_TRASHCAN_SAFE_END, for a body that was run: the outermost one drains the deferral list.
    method End()
      requires Inv() && active == deleteNesting > 0
      modifies this
      ensures Inv() && Progressed() && pending == old(pending)
      ensures deleteNesting == old(deleteNesting) - 1 && (deleteNesting == 0 ==> later == [])
      decreases |unstarted|, 5
    {
      hide CountsAreOwners;
      hide TornOnce;
      hide DeferredAreDead;
      hide DeadAreDeferred;
      hide KeepsSupported;
      hide Chain;
      hide DropsKept;
      hide Total;
      deleteNesting := deleteNesting - 1;
      ChainEnd(gcPrev, deleteLater, later);
      KeepsItself(unstarted);
      if deleteLater != NULL && deleteNesting <= 0 {
        DestroyChain();
      }
    }

    // _PyTrash_thread_deposit_object
    method DepositObject(op: int)
      requires AboutToDealloc(op) && kinds[op].Guarded?
      modifies this`gcPrev, this`deleteLater, this`later
      ensures Inv() && later == [op] + old(later)
    {
      hide CountsAreOwners;
      hide TornOnce;
      hide DeferredAreDead;
      hide DeadAreDeferred;
      hide KeepsSupported;
      hide Chain;
      hide DropsKept;
      hide Total;
      ChainPush(gcPrev, deleteLater, later, op);
      DeferredAfterDeposit(kinds, refcnt, unstarted, later, op);
      gcPrev := gcPrev[op := deleteLater];
      deleteLater := op;
      later := [op] + later;
    }

    // The body of a deallocator: drop the references in the slots, last to first.
    method Body(op: int)
      requires AboutToDealloc(op) && active == deleteNesting
      modifies this
      ensures Inv() && Cascaded() && pending == old(pending)
      ensures op !in unstarted && |unstarted| < old(|unstarted|)
      ensures DroppedFrom(drops, op, |slots[op]|, 0)
      decreases |unstarted|, 0
    {
      hide CountsAreOwners;
      hide TornOnce;
      hide DeferredAreDead;
      hide DeadAreDeferred;
      hide KeepsSupported;
      hide Chain;
      hide DropsKept;
      hide DroppedFrom;
      hide Total;
      var items := slots[op];
      Start(op);
      var i := |items|;
      assert items[..i] == items;
      while i > 0
        invariant 0 <= i <= |items|
        invariant Inv() && Cascaded() && op !in unstarted && |unstarted| < old(|unstarted|)
        invariant pending == old(pending) + multiset(items[..i])
        invariant op in torn && DroppedFrom(drops, op, |items|, i)
      {
        i := i - 1;
        NextToDrop(old(pending), items, i);
        assert items[i] == slots[op][i];
        NoteDrop(op, |items|, i, old(torn), old(drops));
        label Before:
        XDecref(items[i]);
        DropsAfterCall(old@Before(torn), old@Before(drops), drops, op, |items|, i);
        DropsKeptTransitive(old(torn), old@Before(torn), old(drops), old@Before(drops), drops);
        KeepsSupportedTransitive(slots, outside, old(unstarted), old@Before(unstarted), unstarted);
        SubsetCardinality(unstarted, old@Before(unstarted));
      }
    }

    // Py_XDECREF
    method XDecref(item: int)
      requires Inv() && (item == NULL || 0 <= item < |refcnt|) && item in pending && active == deleteNesting
      modifies this
      ensures Inv() && Cascaded()
      ensures pending == old(pending) - multiset{item}
      decreases |unstarted|, 4
    {
      hide CountsAreOwners;
      hide TornOnce;
      hide DeferredAreDead;
      hide DeadAreDeferred;
      hide KeepsSupported;
      hide Chain;
      hide DropsKept;
      hide Total;
      if item != NULL {
        Decref(item);
      } else {
        CountsIgnoreNull(refcnt, slots, unstarted, outside, pending);
        KeepsItself(unstarted);
        pending := pending - multiset{NULL};
      }
    }

    // The moment a body begins: op's references become the body's to drop.
    ghost method Start(op: int)
      requires AboutToDealloc(op)
      modifies this`unstarted, this`torn, this`pending, this`drops
      ensures Inv() && op !in unstarted && |unstarted| < old(|unstarted|)
      ensures unstarted == old(unstarted) - {op} && torn == old(torn) + [op]
      ensures pending == old(pending) + multiset(slots[op])
      ensures KeepsSupported(slots, outside, old(unstarted), unstarted)
      ensures DropsKept(old(torn), old(drops), drops) && op !in old(torn)
      ensures DroppedFrom(drops, op, |slots[op]|, |slots[op]|)
    {
      hide CountsAreOwners;
      hide TornOnce;
      hide DeferredAreDead;
      hide DeadAreDeferred;
      hide KeepsSupported;
      hide Chain;
      hide DropsKept;
      hide Total;
      CountsAfterStart(refcnt, slots, unstarted, torn, outside, pending, op);
      DeferredAfterStart(kinds, refcnt, unstarted, later, op);
      DropsAfterStart(torn, drops, op, |slots[op]|);
      unstarted := unstarted - {op};
      torn := torn + [op];
      pending := pending + multiset(slots[op]);
      drops := drops[op := []];
    }

    // A body that began after `torn0` is about to drop slot i.
    ghost method NoteDrop(op: int, n: nat, i: nat, torn0: seq<int>, drops0: map<int, seq<int>>)
      requires Inv() && op in torn && op !in torn0 && DropsKept(torn0, drops0, drops)
      requires i < n && DroppedFrom(drops, op, n, i + 1)
      modifies this`drops
      ensures Inv() && DropsKept(torn0, drops0, drops) && DroppedFrom(drops, op, n, i)
    {
      DropsAfterNote(torn0, drops0, drops, op, n, i);
      drops := drops[op := drops[op] + [i]];
    }

    /** `_PyTrash_thread_destroy_chain`, called by the outermost guarded deallocator: the raised
        counter stands for that call, so what it drains does not drain again. */
    method DestroyChain()
      requires Inv() && deleteNesting == 0 && active == 1
      modifies this
      ensures Inv() && Cascaded() && pending == old(pending)
      ensures later == []
      decreases |unstarted|, 4
    {
      hide CountsAreOwners;
      hide TornOnce;
      hide DeferredAreDead;
      hide DeadAreDeferred;
      hide KeepsSupported;
      hide Chain;
      hide DropsKept;
      hide Total;
      KeepsItself(unstarted);
      while deleteLater != NULL
        invariant Inv() && Cascaded() && pending == old(pending)
        decreases |unstarted|
      {
        label Before:
        var op := deleteLater;
        ChainPop(gcPrev, deleteLater, later);
        DeferredAfterPop(kinds, refcnt, unstarted, later);
        SubsetCardinality(unstarted, old(unstarted));
        deleteLater := gcPrev[op];
        later := later[1..];
        deleteNesting := deleteNesting + 1;
        Dealloc(op);
        deleteNesting := deleteNesting - 1;
        DropsKeptTransitive(old(torn), old@Before(torn), old(drops), old@Before(drops), drops);
        KeepsSupportedTransitive(slots, outside, old(unstarted), old@Before(unstarted), unstarted);
        SubsetCardinality(unstarted, old@Before(unstarted));
      }
      ChainEnd(gcPrev, deleteLater, later);
    }

    /** When a deallocator starts, nothing refers to the object any more: no slot of a live
        object, no running code, and no body in progress. */
    lemma NothingRefersTo(op: int)
      requires AboutToDealloc(op)
      ensures forall x, i :: x in unstarted && 0 <= i < |slots[x]| ==> slots[x][i] != op
      ensures op !in outside && op !in pending
    {
      CountsAfterStart(refcnt, slots, unstarted, torn, outside, pending, op);
      RefsMember(slots, unstarted, op);
    }

    // ---- Plain recursion, with no trashcan ----------------------------------------------------

    method RecursiveXDecref(item: int)
      requires Inv() && later == [] && (item == NULL || 0 <= item < |refcnt|) && item in pending
      modifies this
      ensures Inv() && Cascaded() && later == []
      ensures pending == old(pending) - multiset{item}
      decreases |unstarted|, 1
    {
      hide CountsAreOwners;
      hide TornOnce;
      hide DeferredAreDead;
      hide DeadAreDeferred;
      hide KeepsSupported;
      hide Chain;
      hide DropsKept;
      hide Total;
      if item == NULL {
        CountsIgnoreNull(refcnt, slots, unstarted, outside, pending);
        KeepsItself(unstarted);
        pending := pending - multiset{NULL};
        return;
      }
      CountsAfterDrop(refcnt, slots, unstarted, torn, outside, pending, item);
      DeferredAfterDrop(kinds, refcnt, unstarted, later, item);
      TotalUpdate(refcnt, item, refcnt[item] - 1);
      refTotal := refTotal - 1;
      refcnt := refcnt[item := refcnt[item] - 1];
      pending := pending - multiset{item};
      if refcnt[item] == 0 {
        RecursiveDealloc(item);
      } else {
        KeepsItself(unstarted);
      }
    }

    method RecursiveDealloc(op: int)
      requires AboutToDealloc(op) && later == []
      modifies this
      ensures Inv() && Cascaded() && later == [] && pending == old(pending)
      ensures op !in unstarted && DroppedFrom(drops, op, |slots[op]|, 0)
      decreases |unstarted|, 0
    {
      hide CountsAreOwners;
      hide TornOnce;
      hide DeferredAreDead;
      hide DeadAreDeferred;
      hide KeepsSupported;
      hide Chain;
      hide DropsKept;
      hide DroppedFrom;
      hide Total;
      var items := slots[op];
      Start(op);
      var i := |items|;
      assert items[..i] == items;
      while i > 0
        invariant 0 <= i <= |items|
        invariant Inv() && Cascaded() && op !in unstarted && |unstarted| < old(|unstarted|) && later == []
        invariant pending == old(pending) + multiset(items[..i])
        invariant op in torn && DroppedFrom(drops, op, |items|, i)
      {
        i := i - 1;
        NextToDrop(old(pending), items, i);
        assert items[i] == slots[op][i];
        NoteDrop(op, |items|, i, old(torn), old(drops));
        label Before:
        RecursiveXDecref(items[i]);
        DropsAfterCall(old@Before(torn), old@Before(drops), drops, op, |items|, i);
        DropsKeptTransitive(old(torn), old@Before(torn), old(drops), old@Before(drops), drops);
        KeepsSupportedTransitive(slots, outside, old(unstarted), old@Before(unstarted), unstarted);
        SubsetCardinality(unstarted, old@Before(unstarted));
      }
    }

    // ---- What running code does ----------------------------------------------------------------

    constructor ()
      ensures Idle() && unstarted == {} && outside == multiset{} && slots == [] && refTotal == 0
    {
      hide CountsAreOwners;
      hide TornOnce;
      hide DeferredAreDead;
      hide DeadAreDeferred;
      hide Chain;
      hide DropsKept;
      EmptyHeap();
      kinds, slots, refcnt, refTotal, gcPrev := [], [], [], 0, [];
      deleteNesting, deleteLater := 0, NULL;
      later, unstarted, torn, pending, outside, drops := [], {}, [], multiset{}, multiset{}, map[];
      active, deepest := 0, 0;
    }

    // _Py_NewReference, for an object created with references the caller owns in its slots.
    method New(kind: Kind, contents: seq<int>) returns (x: int)
      requires Idle()
      requires OwnsAll(contents, outside, |refcnt|)
      modifies this
      ensures Idle()
      ensures x == old(|refcnt|) && refcnt == old(refcnt) + [1]
      ensures slots == old(slots) + [contents] && kinds == old(kinds) + [kind]
      ensures unstarted == old(unstarted) + {x} && torn == old(torn)
      ensures outside == Exchanged(old(outside), contents, x)
    {
      hide CountsAreOwners;
      hide TornOnce;
      hide DeferredAreDead;
      hide DeadAreDeferred;
      hide KeepsSupported;
      hide Chain;
      hide DropsKept;
      hide Total;
      hide SlotsHoldObjects;
      hide OwnsAll;
      hide OutsideIsReal;
      x := |refcnt|;
      hide Exchanged;
      ChainEnd(gcPrev, deleteLater, later);
      CountsAfterNew(refcnt, slots, unstarted, torn, outside, contents);
      ShapeAfterNew(refcnt, slots, unstarted, torn, outside, contents);
      TotalAppend(refcnt, 1);
      NothingDeferred(kinds + [kind], refcnt + [1], unstarted + {x}, gcPrev + [NULL]);
      outside := Exchanged(outside, contents, x);
      unstarted := unstarted + {x};
      gcPrev := gcPrev + [NULL];
      slots := slots + [contents];
      kinds := kinds + [kind];
      refcnt := refcnt + [1];
      refTotal := refTotal + 1;
    }

    // Py_INCREF
    method Incref(x: int)
      requires Idle() && x in unstarted
      modifies this
      ensures Idle()
      ensures refcnt == old(refcnt)[x := old(refcnt)[x] + 1] && outside == old(outside) + multiset{x}
      ensures slots == old(slots) && kinds == old(kinds) && unstarted == old(unstarted) && torn == old(torn)
    {
      hide CountsAreOwners;
      hide TornOnce;
      hide DeferredAreDead;
      hide DeadAreDeferred;
      hide KeepsSupported;
      hide Chain;
      hide DropsKept;
      hide Total;
      CountsAfterIncref(refcnt, slots, unstarted, torn, outside, x);
      TotalUpdate(refcnt, x, refcnt[x] + 1);
      refTotal := refTotal + 1;
      refcnt := refcnt[x := refcnt[x] + 1];
      outside := outside + multiset{x};
      NothingDeferred(kinds, refcnt, unstarted, gcPrev);
    }

    // Running code gives up one of its references.
    method DropReference(x: int)
      requires Idle() && 0 <= x < |refcnt| && x in outside
      modifies this
      ensures Idle() && slots == old(slots) && kinds == old(kinds)
      ensures outside == old(outside) - multiset{x}
      ensures old(torn) <= torn
      ensures DropOutcome(slots, outside, old(unstarted), unstarted, refcnt, torn)
    {
      hide CountsAreOwners;
      hide TornOnce;
      hide DeferredAreDead;
      hide DeadAreDeferred;
      hide KeepsSupported;
      hide Chain;
      hide DropsKept;
      hide Total;
      CountsAfterMove(refcnt, slots, unstarted, outside, pending, x);
      outside := outside - multiset{x};
      pending := pending + multiset{x};
      Decref(x);
      assert pending == multiset{};
      OutcomeReached(slots, outside, old(unstarted), unstarted, refcnt, torn);
    }

    method DropReferenceRecursively(x: int)
      requires Idle() && 0 <= x < |refcnt| && x in outside
      modifies this
      ensures Idle() && slots == old(slots) && kinds == old(kinds)
      ensures outside == old(outside) - multiset{x}
      ensures old(torn) <= torn
      ensures DropOutcome(slots, outside, old(unstarted), unstarted, refcnt, torn)
    {
      hide CountsAreOwners;
      hide TornOnce;
      hide DeferredAreDead;
      hide DeadAreDeferred;
      hide KeepsSupported;
      hide Chain;
      hide DropsKept;
      hide Total;
      CountsAfterMove(refcnt, slots, unstarted, outside, pending, x);
      outside := outside - multiset{x};
      pending := pending + multiset{x};
      RecursiveXDecref(x);
      assert pending == multiset{};
      OutcomeReached(slots, outside, old(unstarted), unstarted, refcnt, torn);
    }

    // The first half of Py_CLEAR, Py_SETREF and Py_XSETREF: the slot gets its new value and
    // the old one becomes a reference still to be dropped.
    method Swap(x: int, i: nat, v: int) returns (tmp: int)
      requires Idle() && x in unstarted && x < |slots| && i < |slots[x]|
      requires v == NULL || (0 <= v < |refcnt| && v in outside)
      modifies this`slots, this`outside, this`pending
      ensures Inv() && pending == multiset{tmp} && (tmp == NULL || 0 <= tmp < |refcnt|)
      ensures tmp == old(slots)[x][i] && slots == old(slots)[x := old(slots)[x][i := v]]
      ensures outside == if v == NULL then old(outside) else old(outside) - multiset{v}
    {
      hide CountsAreOwners;
      hide TornOnce;
      hide DeferredAreDead;
      hide DeadAreDeferred;
      hide KeepsSupported;
      hide Chain;
      hide DropsKept;
      hide Total;
      hide SlotsHoldObjects;
      UnstartedInRange(x);
      tmp := slots[x][i];
      SlotsAfterSwap(slots, x, i, v);
      CountsAfterSwap(refcnt, slots, unstarted, outside, pending, x, i, v);
      slots := slots[x := slots[x][i := v]];
      outside := if v == NULL then outside else outside - multiset{v};
      pending := pending + multiset{tmp};
    }

    // Py_XSETREF (and Py_CLEAR, when v is NULL) on slot i of a live object.
    method XSetRef(x: int, i: nat, v: int)
      requires Idle() && x in unstarted && x < |slots| && i < |slots[x]|
      requires v == NULL || (0 <= v < |refcnt| && v in outside)
      modifies this
      ensures Idle() && slots == old(slots)[x := old(slots)[x][i := v]] && kinds == old(kinds)
      ensures outside == if v == NULL then old(outside) else old(outside) - multiset{v}
      ensures old(torn) <= torn
      ensures DropOutcome(slots, outside, old(unstarted), unstarted, refcnt, torn)
    {
      hide CountsAreOwners;
      hide TornOnce;
      hide DeferredAreDead;
      hide DeadAreDeferred;
      hide KeepsSupported;
      hide Chain;
      hide DropsKept;
      hide Total;
      hide SlotsHoldObjects;
      var tmp := Swap(x, i, v);
      XDecref(tmp);
      assert pending == multiset{};
      OutcomeReached(slots, outside, old(unstarted), unstarted, refcnt, torn);
    }

    lemma UnstartedInRange(x: int)
      requires WellFormed() && x in unstarted
      ensures 0 <= x < |slots|
    {
    }

    lemma KeepsItself(s: set<int>)
      ensures KeepsSupported(slots, outside, s, s)
    {
    }
  }
}
