/** Ownership graphs: which references the slots of a set of objects hold. Objects are numbered
    from 0, and NULL stands in an empty slot. */
module RefGraph {
  import opened Pointers

  // All references held by the objects of s that are numbered below n, with multiplicity.
  function RefsBelow(slots: seq<seq<int>>, s: set<int>, n: nat): multiset<int>
    requires n <= |slots|
  {
    if n == 0 then multiset{}
    else RefsBelow(slots, s, n - 1) + (if n - 1 in s then multiset(slots[n - 1]) else multiset{})
  }

  function Refs(slots: seq<seq<int>>, s: set<int>): multiset<int> {
    RefsBelow(slots, s, |slots|)
  }

  lemma {:induction false} RefsBelowWithout(slots: seq<seq<int>>, s: set<int>, x: int, n: nat)
    requires n <= |slots| && x in s
    ensures RefsBelow(slots, s, n) ==
            RefsBelow(slots, s - {x}, n) + (if 0 <= x < n then multiset(slots[x]) else multiset{})
    decreases n
  {
    if n > 0 {
      RefsBelowWithout(slots, s, x, n - 1);
    }
  }

  /** Taking one object out of the set takes exactly its slots' references away. */
  lemma RefsWithout(slots: seq<seq<int>>, s: set<int>, x: int)
    requires x in s && 0 <= x < |slots|
    ensures Refs(slots, s) == Refs(slots, s - {x}) + multiset(slots[x])
  {
    RefsBelowWithout(slots, s, x, |slots|);
  }

  lemma {:induction false} RefsBelowUnion(slots: seq<seq<int>>, s: set<int>, t: set<int>, n: nat)
    requires n <= |slots| && s !! t
    ensures RefsBelow(slots, s + t, n) == RefsBelow(slots, s, n) + RefsBelow(slots, t, n)
    decreases n
  {
    if n > 0 {
      RefsBelowUnion(slots, s, t, n - 1);
    }
  }

  lemma RefsUnion(slots: seq<seq<int>>, s: set<int>, t: set<int>)
    requires s !! t
    ensures Refs(slots, s + t) == Refs(slots, s) + Refs(slots, t)
  {
    RefsBelowUnion(slots, s, t, |slots|);
  }

  lemma RefsOfNone(slots: seq<seq<int>>)
    ensures Refs(slots, {}) == multiset{}
  {
    var none: set<int> := {};
    RefsUnion(slots, none, none);
    assert none + none == none;
  }

  lemma RefsMonotone(slots: seq<seq<int>>, s: set<int>, t: set<int>)
    requires s <= t
    ensures Refs(slots, s) <= Refs(slots, t)
  {
    RefsUnion(slots, s, t - s);
    assert t == s + (t - s);
  }

  lemma {:induction false} RefsBelowMember(slots: seq<seq<int>>, s: set<int>, y: int, n: nat)
    requires n <= |slots|
    ensures y in RefsBelow(slots, s, n) <==> exists x :: x in s && 0 <= x < n && y in slots[x]
    decreases n
  {
    if n > 0 {
      RefsBelowMember(slots, s, y, n - 1);
    }
  }

  /** An object is referenced from a set exactly when some member has it in a slot. */
  lemma RefsMember(slots: seq<seq<int>>, s: set<int>, y: int)
    ensures y in Refs(slots, s) <==> exists x :: x in s && 0 <= x < |slots| && y in slots[x]
  {
    RefsBelowMember(slots, s, y, |slots|);
  }

  lemma {:induction false} RefsBelowFrame(slots: seq<seq<int>>, slots': seq<seq<int>>, s: set<int>, n: nat)
    requires n <= |slots| && n <= |slots'|
    requires forall x :: x in s && 0 <= x < n ==> slots[x] == slots'[x]
    ensures RefsBelow(slots, s, n) == RefsBelow(slots', s, n)
    decreases n
  {
    if n > 0 {
      RefsBelowFrame(slots, slots', s, n - 1);
    }
  }

  // A new object adds its slots' references.
  lemma RefsNewObject(slots: seq<seq<int>>, s: set<int>, contents: seq<int>)
    requires |slots| !in s
    ensures Refs(slots + [contents], s + {|slots|}) == Refs(slots, s) + multiset(contents)
  {
    var slots', s' := slots + [contents], s + {|slots|};
    assert s' - {|slots|} == s;
    RefsWithout(slots', s', |slots|);
    RefsBelowFrame(slots, slots', s, |slots|);
  }

  // Overwriting one slot exchanges one reference.
  lemma RefsOverwrite(slots: seq<seq<int>>, s: set<int>, x: int, i: nat, v: int)
    requires x in s && 0 <= x < |slots| && i < |slots[x]|
    ensures Refs(slots[x := slots[x][i := v]], s) + multiset{slots[x][i]} == Refs(slots, s) + multiset{v}
  {
    var slots' := slots[x := slots[x][i := v]];
    RefsWithout(slots, s, x);
    RefsWithout(slots', s, x);
    RefsBelowFrame(slots, slots', s - {x}, |slots|);
  }

  // ---- Counts -------------------------------------------------------------------------------

  function Total(counts: seq<int>): int
    decreases |counts|
  {
    if counts == [] then 0 else Total(counts[..|counts| - 1]) + counts[|counts| - 1]
  }

  lemma TotalAppend(counts: seq<int>, v: int)
    ensures Total(counts + [v]) == Total(counts) + v
  {
    assert (counts + [v])[..|counts|] == counts;
  }

  lemma {:induction false} TotalUpdate(counts: seq<int>, i: nat, v: int)
    requires i < |counts|
    ensures Total(counts[i := v]) == Total(counts) - counts[i] + v
    decreases |counts|
  {
    var n := |counts| - 1;
    if i == n {
      assert counts[i := v][..n] == counts[..n];
    } else {
      assert counts[i := v][..n] == counts[..n][i := v];
      TotalUpdate(counts[..n], i, v);
    }
  }

  // ---- Survivors ------------------------------------------------------------------------------

  // Every member is referenced from outside or from another member.
  ghost predicate Supported(slots: seq<seq<int>>, outside: multiset<int>, s: set<int>) {
    forall x :: x in s ==> x in outside || x in Refs(slots, s)
  }

  // What reference counting leaves alive: the greatest supported set of live objects.
  ghost predicate IsSurvivors(slots: seq<seq<int>>, outside: multiset<int>, live: set<int>, survivors: set<int>) {
    && survivors <= live
    && Supported(slots, outside, survivors)
    && forall s: set<int> :: s <= live && Supported(slots, outside, s) ==> s <= survivors
  }

  /** There is only one such set, whatever order the deallocations happen in. */
  lemma SurvivorsUnique(slots: seq<seq<int>>, outside: multiset<int>, live: set<int>, a: set<int>, b: set<int>)
    requires IsSurvivors(slots, outside, live, a) && IsSurvivors(slots, outside, live, b)
    ensures a == b
  {
  }
}
