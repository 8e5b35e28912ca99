/** Reference counting and the cycle collector together: on a heap whose counts are owners, what
    the collector calls reachable is what is reached from outside the generation, and what it
    calls garbage is out of reach for running code and beyond what reference counting can ever
    free, until the collector breaks its cycles. */
module Lifetimes {
  import opened GcCounting
  import opened GcReachability
  import opened Pointers
  import opened RefGraph
  import T = Trashcan

  // The collector's view of a heap under reference counting. The live objects are all those not
  // yet torn down, listed in the generation or not, and running code holds the references in
  // outside.
  ghost predicate Sees(g: ObjectGraph, refcnt: seq<int>, slots: seq<seq<int>>, live: set<int>, outside: multiset<int>) {
    && g.referents == slots && g.refcnt == refcnt && (forall x <- live :: 0 <= x < |refcnt|)
    && T.CountsAreOwners(refcnt, slots, live, outside, multiset{})
  }

  /** When counts are owners, no count is too small for the collector, and the roots it computes
      by subtraction are exactly the members held by running code or by live objects outside the
      generation. */
  lemma RootsAreHeldFromOutside(g: ObjectGraph, refcnt: seq<int>, slots: seq<seq<int>>, live: set<int>,
                                outside: multiset<int>, members: set<int>)
    requires Sees(g, refcnt, slots, live, outside) && members <= live
    ensures Bounded(g, members)
    ensures forall x <- members :: x in Roots(g, members) <==> x in outside || x in Refs(slots, live - members)
  {
    assert live == members + (live - members);
    RefsUnion(slots, members, live - members);
    forall x | x in members
      ensures 0 <= x < |refcnt| && External(g, members, x) == outside[x] + Refs(slots, live - members)[x]
    {
    }
  }

  /** The collector is exact on every generation: a member is called reachable if and only if a
      chain of references through members leads to it from one that running code or a live object
      outside the generation refers to. */
  lemma ReachableIffHeldFromOutside(g: ObjectGraph, refcnt: seq<int>, slots: seq<seq<int>>, live: set<int>,
                                    outside: multiset<int>, members: set<int>, reachable: set<int>, x: int)
    requires Sees(g, refcnt, slots, live, outside) && members <= live
    requires IsReachable(g.referents, members, Roots(g, members), reachable)
    ensures var held := set y | y in members && (y in outside || y in Refs(slots, live - members));
            x in reachable <==> HasPath(slots, members, held, x)
  {
    RootsAreHeldFromOutside(g, refcnt, slots, live, outside, members);
    assert Roots(g, members) == set y | y in members && (y in outside || y in Refs(slots, live - members));
    ReachableIffPath(g.referents, members, Roots(g, members), reachable, x);
  }

  // p is a chain of references, through any live objects, from one that running code refers to.
  ghost predicate CodeReaches(slots: seq<seq<int>>, live: set<int>, outside: multiset<int>, p: seq<int>) {
    IsPath(slots, live, (set y | y in live && y in outside), p)
  }

  /** Nothing that running code can reach, through objects in the generation or not, is ever called
      garbage. */
  lemma {:induction false} WhatCodeReachesIsReachable(
      g: ObjectGraph, refcnt: seq<int>, slots: seq<seq<int>>, live: set<int>, outside: multiset<int>,
      members: set<int>, reachable: set<int>, p: seq<int>)
    requires Sees(g, refcnt, slots, live, outside) && members <= live
    requires IsReachable(g.referents, members, Roots(g, members), reachable)
    requires CodeReaches(slots, live, outside, p) && p[|p| - 1] in members
    ensures p[|p| - 1] in reachable
    decreases |p|
  {
    RootsAreHeldFromOutside(g, refcnt, slots, live, outside, members);
    var n := |p| - 1;
    if n > 0 {
      var q := p[..n];
      assert CodeReaches(slots, live, outside, q);
      assert Refers(slots, p[n - 1], p[n]);
      if p[n - 1] in members {
        WhatCodeReachesIsReachable(g, refcnt, slots, live, outside, members, reachable, q);
        var i :| 0 <= i < |slots[p[n - 1]]| && slots[p[n - 1]][i] == p[n];
      } else {
        RefsMember(slots, live - members, p[n]);
      }
    }
  }

  /** The garbage is beyond reference counting: whatever running code drops, every object the
      collector finds unreachable survives. */
  lemma CountingNeverFreesGarbage(g: ObjectGraph, refcnt: seq<int>, slots: seq<seq<int>>, live: set<int>,
                                  outside: multiset<int>, members: set<int>, reachable: set<int>,
                                  outside': multiset<int>, survivors: set<int>)
    requires Sees(g, refcnt, slots, live, outside) && members <= live && forall y <- live :: refcnt[y] > 0
    requires IsReachable(g.referents, members, Roots(g, members), reachable)
    requires IsSurvivors(slots, outside', live, survivors)
    ensures members - reachable <= survivors
  {
    RootsAreHeldFromOutside(g, refcnt, slots, live, outside, members);
    GarbageIsIsolated(g, members, reachable);
    assert Supported(slots, outside', members - reachable);
  }

  // ---- Clearing garbage -----------------------------------------------------------------------

  // Nothing outside closed garbage refers to it.
  lemma GarbageIsUnreferenced(g: ObjectGraph, refcnt: seq<int>, slots: seq<seq<int>>, live: set<int>,
                              outside: multiset<int>, garbage: set<int>, x: int)
    requires Sees(g, refcnt, slots, live, outside) && garbage <= live && ClosedGarbage(g, garbage) && x in garbage
    ensures x !in outside && x !in Refs(slots, live - garbage)
  {
    assert live == garbage + (live - garbage);
    RefsUnion(slots, garbage, live - garbage);
  }

  // The objects of s keep each other alive.
  ghost predicate HoldsItself(slots: seq<seq<int>>, s: set<int>) {
    (exists x :: x in s) && forall x <- s :: x in Refs(slots, s)
  }

  // tp_clear has changed slots of the garbage only.
  ghost predicate Cleared(slots: seq<seq<int>>, slots': seq<seq<int>>, live: set<int>, garbage: set<int>) {
    |slots'| == |slots| && forall x <- live :: x !in garbage && 0 <= x < |slots| ==> slots'[x] == slots[x]
  }

  /** After the collector has cleared slots of the garbage, reference counting frees all of it if and
      only if no group of garbage objects still holds itself. */
  lemma ClearingFreesGarbageIff(g: ObjectGraph, refcnt: seq<int>, slots: seq<seq<int>>, live: set<int>,
                                outside: multiset<int>, garbage: set<int>, slots': seq<seq<int>>, survivors: set<int>)
    requires Sees(g, refcnt, slots, live, outside) && garbage <= live && ClosedGarbage(g, garbage)
    requires Cleared(slots, slots', live, garbage) && IsSurvivors(slots', outside, live, survivors)
    ensures (forall x <- garbage :: x !in survivors) <==>
            (forall s: set<int> :: s <= garbage ==> !HoldsItself(slots', s))
  {
    if forall x <- garbage :: x !in survivors {
      forall s: set<int> | s <= garbage ensures !HoldsItself(slots', s) {
        if HoldsItself(slots', s) {
          assert Supported(slots', outside, s);
        }
      }
    } else {
      var s := survivors * garbage;
      var z :| z in garbage && z in survivors;
      assert z in s;
      forall x | x in s ensures x in Refs(slots', s) {
        GarbageIsUnreferenced(g, refcnt, slots, live, outside, garbage, x);
        RefsMember(slots', survivors, x);
        var y :| y in survivors && 0 <= y < |slots'| && x in slots'[y];
        RefsMember(slots, live - garbage, x);
        RefsMember(slots', s, x);
      }
      assert HoldsItself(slots', s);
    }
  }

  /** In particular emptying every slot of the garbage frees all of it. */
  lemma EmptyingFreesGarbage(g: ObjectGraph, refcnt: seq<int>, slots: seq<seq<int>>, live: set<int>,
                             outside: multiset<int>, garbage: set<int>, slots': seq<seq<int>>, survivors: set<int>)
    requires Sees(g, refcnt, slots, live, outside) && garbage <= live && ClosedGarbage(g, garbage)
    requires Cleared(slots, slots', live, garbage) && IsSurvivors(slots', outside, live, survivors)
    requires forall x, i :: x in garbage && 0 <= x < |slots'| && 0 <= i < |slots'[x]| ==> slots'[x][i] == NULL
    ensures forall x <- garbage :: x !in survivors
  {
    forall s: set<int> | s <= garbage ensures !HoldsItself(slots', s) {
      if x :| x in s {
        RefsMember(slots', s, x);
      }
    }
    ClearingFreesGarbageIff(g, refcnt, slots, live, outside, garbage, slots', survivors);
  }

  /** Clearing garbage takes nothing away from running code: what it could reach before survives. */
  lemma ClearingKeepsWhatCodeReaches(g: ObjectGraph, refcnt: seq<int>, slots: seq<seq<int>>, live: set<int>,
                                     outside: multiset<int>, garbage: set<int>, slots': seq<seq<int>>,
                                     survivors: set<int>, p: seq<int>)
    requires Sees(g, refcnt, slots, live, outside) && garbage <= live && ClosedGarbage(g, garbage)
    requires Cleared(slots, slots', live, garbage) && IsSurvivors(slots', outside, live, survivors)
    requires CodeReaches(slots, live, outside, p)
    ensures p[|p| - 1] in survivors
  {
    var onPath := set x | x in p;
    forall x | x in onPath ensures x in outside || x in Refs(slots', onPath) {
      var i :| 0 <= i < |p| && p[i] == x;
      if i > 0 {
        PathAvoidsGarbage(g, refcnt, slots, live, outside, garbage, p, i - 1);
        assert Refers(slots, p[i - 1], p[i]);
        RefsMember(slots', onPath, x);
      }
    }
    assert Supported(slots', outside, onPath);
  }

  lemma {:induction false} PathAvoidsGarbage(g: ObjectGraph, refcnt: seq<int>, slots: seq<seq<int>>, live: set<int>,
                                             outside: multiset<int>, garbage: set<int>, p: seq<int>, i: nat)
    requires Sees(g, refcnt, slots, live, outside) && garbage <= live && ClosedGarbage(g, garbage)
    requires CodeReaches(slots, live, outside, p) && i < |p|
    ensures p[i] !in garbage
    decreases i
  {
    if p[i] in garbage {
      GarbageIsUnreferenced(g, refcnt, slots, live, outside, garbage, p[i]);
      if i > 0 {
        PathAvoidsGarbage(g, refcnt, slots, live, outside, garbage, p, i - 1);
        assert Refers(slots, p[i - 1], p[i]);
        RefsMember(slots, live - garbage, p[i]);
      }
    }
  }
}
