/** The cycle detector of Modules/gcmodule.c, on the header macros of Include/objimpl.h: from
    counts and references alone it finds the objects of a generation that nothing outside the
    generation can reach. */
module GcCollector {
  import opened Enumerations
  import opened GcCounting
  import opened GcReachability
  import opened GcRing
  import opened Pointers
  import H = GcHeader
  import RefGraph

  lemma TwoRingsSymmetric(l: Links, h1: int, items1: seq<int>, h2: int, items2: seq<int>)
    requires TwoRings(l, h1, items1, h2, items2)
    ensures TwoRings(l, h2, items2, h1, items1)
  {
  }

  lemma CursorAtEnd(l: Links, head: int, items: seq<int>, k: nat)
    requires IsRing(l, head, items) && k <= |items|
    ensures At(head, items, k) == head <==> k == |items|
  {
  }

  // The links, counts or states, and finalized flags of all nodes.
  datatype Store = Store(links: Links, values: seq<int>, flags: seq<bool>)

  // Exactly the objects in gone were untracked.
  ghost predicate OnlyGone(a: Store, b: Store, gone: set<int>) {
    && b.flags == a.flags && |b.values| == |a.values|
    && forall x :: 0 <= x < |a.values| ==> b.values[x] == if x in gone then H.UNTRACKED else a.values[x]
  }

  // What every step of a walk keeps: flags, headers outside the generation, marks, and the links
  // of every other list.
  ghost predicate StepsTo(a: Store, b: Store, inside: set<int>, members: set<int>) {
    && b.flags == a.flags && SameOutside(a.values, b.values, members) && Grows(a.values, b.values)
    && LinksSame(a.links, b.links, inside)
  }

  lemma NoStep(a: Store, inside: set<int>, members: set<int>)
    requires |a.links.next| == |a.links.prev|
    ensures StepsTo(a, a, inside, members)
  {
  }

  lemma StepsCompose(a: Store, b: Store, c: Store, inside: set<int>, members: set<int>)
    requires StepsTo(a, b, inside, members) && StepsTo(b, c, inside, members)
    ensures StepsTo(a, c, inside, members)
  {
    LinksSameTransitive(a.links, b.links, c.links, inside);
    SameOutsideTransitive(a.values, b.values, c.values, members);
    GrowsTransitive(a.values, b.values, c.values);
  }

  lemma StepsMean(a: Store, b: Store, inside: set<int>, members: set<int>)
    requires StepsTo(a, b, inside, members)
    ensures b.flags == a.flags && SameOutside(a.values, b.values, members) && |b.values| == |a.values|
    ensures Grows(a.values, b.values) && LinksSame(a.links, b.links, inside)
  {
  }

  // The young and the unreachable list in a state of the walk, v being the counts or states.
  ghost predicate WalkState(g: ObjectGraph, l: Links, v: seq<int>, young: int, unreachable: int, s: Walk) {
    && TwoRings(l, young, s.ys, unreachable, s.us)
    && |g.referents| <= young && |g.referents| <= unreachable
    && (forall x <- s.members :: g.Tracks(x))
    && Scanning(v, g.referents, s)
    && OutsidersSettled(v, g, s.members)
    && AllUntrackable(g, v, s.gone) && (forall x <- s.gone :: g.IsTuple(x))
  }

  // The j-th reference of the settled object x, to an object in state v[op], is visited.
  ghost predicate Visiting(g: ObjectGraph, v: seq<int>, s: Walk, x: int, j: nat, op: int) {
    && x in s.members && 0 <= x < |g.referents| && x < |v| && Marked(v[x])
    && j < |g.referents[x]| && g.referents[x][j] == op && g.Tracks(op) && op < |v|
  }

  // What one visit does to the headers.
  ghost predicate VisitKeeps(v: seq<int>, v': seq<int>, members: set<int>, op: int) {
    Grows(v, v') && SameOutside(v, v', members) && IsMarkedMember(v', members, op)
  }

  lemma VisitedIsMember(g: ObjectGraph, l: Links, v: seq<int>, young: int, unreachable: int, s: Walk, op: int)
    requires WalkState(g, l, v, young, unreachable, s) && g.Tracks(op) && op < |v|
    ensures v[op] == 0 || v[op] == H.TENTATIVELY_UNREACHABLE ==> op in s.members
    ensures v[op] == H.TENTATIVELY_UNREACHABLE ==> op in s.us
    ensures v[op] != 0 && v[op] != H.TENTATIVELY_UNREACHABLE ==> VisitKeeps(v, v, s.members, op)
    ensures s.k == |s.ys| && v[op] != H.TENTATIVELY_UNREACHABLE ==> VisitKeeps(v, v, s.members, op)
    ensures Elements(s.ys) <= s.members && Elements(s.us) <= s.members
  {
    hide MarkedAreReachable;
    hide RootsMarked;
    hide TwoRings;
    hide AllUntrackable;
    if v[op] == H.TENTATIVELY_UNREACHABLE {
      var m := FindParked(v, s, op);
    } else if v[op] != 0 || s.k == |s.ys| {
      OthersMarked(v, s, op);
    }
    forall x | x in Elements(s.ys) + Elements(s.us) + s.gone ensures x in s.members {
    }
  }

  lemma VisitedAhead(g: ObjectGraph, l: Links, v: seq<int>, young: int, unreachable: int, s: Walk,
                     x: int, j: nat, op: int)
    requires WalkState(g, l, v, young, unreachable, s) && Visiting(g, v, s, x, j, op)
    requires op in s.members && v[op] == 0
    ensures WalkState(g, l, v[op := 1], young, unreachable, s) && VisitKeeps(v, v[op := 1], s.members, op)
  {
    hide MarkedAreReachable;
    hide RootsMarked;
    hide TwoRings;
    hide AllUntrackable;
    VisitAhead(v, s, op);
    VisitMarks(v, g.referents, s.members, s.roots, x, j, 1);
    UntrackableStays(g, v, v[op := 1], s.gone);
  }

  lemma VisitedReturns(g: ObjectGraph, l: Links, l': Links, v: seq<int>, young: int, unreachable: int, s: Walk,
                       m: nat, x: int, j: nat)
    requires m < |s.us| && WalkState(g, l, v, young, unreachable, s) && Visiting(g, v, s, x, j, s.us[m])
    requires TwoRings(l', young, s.Returned(m).ys, unreachable, s.Returned(m).us)
    requires s.us[m] in s.members && v[s.us[m]] == H.TENTATIVELY_UNREACHABLE
    ensures WalkState(g, l', v[s.us[m] := 1], young, unreachable, s.Returned(m))
    ensures VisitKeeps(v, v[s.us[m] := 1], s.members, s.us[m])
  {
    hide MarkedAreReachable;
    hide RootsMarked;
    hide TwoRings;
    hide AllUntrackable;
    VisitReturns(v, s, m);
    VisitMarks(v, g.referents, s.members, s.roots, x, j, 1);
    UntrackableStays(g, v, v[s.us[m] := 1], s.gone);
  }

  lemma VisitedCollects(g: ObjectGraph, l: Links, l': Links, v: seq<int>, young: int, unreachable: int, s: Walk,
                        m: nat, x: int, j: nat)
    requires m < |s.us| && WalkState(g, l, v, young, unreachable, s) && Visiting(g, v, s, x, j, s.us[m])
    requires TwoRings(l', young, s.Returned(m).ys, unreachable, s.Returned(m).us) && s.k == |s.ys|
    requires s.us[m] in s.members && v[s.us[m]] == H.TENTATIVELY_UNREACHABLE
    ensures WalkState(g, l', v[s.us[m] := H.REACHABLE], young, unreachable, s.Returned(m).Settled())
    ensures VisitKeeps(v, v[s.us[m] := H.REACHABLE], s.members, s.us[m])
  {
    hide MarkedAreReachable;
    hide RootsMarked;
    hide TwoRings;
    hide AllUntrackable;
    VisitCollects(v, s, m);
    VisitMarks(v, g.referents, s.members, s.roots, x, j, H.REACHABLE);
    UntrackableStays(g, v, v[s.us[m] := H.REACHABLE], s.gone);
  }

  // The tuple settled last has been untracked.
  lemma TupleGone(g: ObjectGraph, l: Links, l': Links, v: seq<int>, young: int, unreachable: int, s: Walk)
    requires WalkState(g, l, v, young, unreachable, s) && 0 < s.k <= |s.ys|
    requires Chased(v, g.referents, s.members, s.Done())
    requires g.IsTuple(s.ys[s.k - 1]) && g.Untrackable(v, s.ys[s.k - 1])
    requires IsRing(l', young, s.Untracked().ys) && LinksSame(l, l', Elements(s.ys) + {young})
    ensures 0 <= s.ys[s.k - 1] < |v|
    ensures var v' := v[s.ys[s.k - 1] := H.UNTRACKED];
            && WalkState(g, l', v', young, unreachable, s.Untracked())
            && Chased(v', g.referents, s.members, s.Untracked().Done())
            && Grows(v, v')
  {
    hide Scanning;
    hide Chased;
    hide TwoRings;
    hide AllUntrackable;
    hide Grows;
    var x := s.ys[s.k - 1];
    ScanUntracks(v, g.referents, s);
    OneGone(g, v, s.gone, x);
    OtherRingStays(l, l', young, s.ys, s.Untracked().ys, unreachable, s.us);
    LastSettled(v, g.referents, s);
  }

  lemma LastSettled(v: seq<int>, referents: seq<seq<int>>, s: Walk)
    requires Scanning(v, referents, s) && 0 < s.k <= |s.ys|
    ensures s.ys[s.k - 1] in s.members && s.ys[s.k - 1] !in s.gone && Elements(s.ys) <= s.members
  {
    assert s.ys[s.k - 1] in s.ys;
    forall x | x in Elements(s.ys) + Elements(s.us) + s.gone ensures x in s.members {
    }
  }

  class GcHeap {
    const w: nat
    const graph: ObjectGraph
    var next: seq<int>
    var prev: seq<int>
    var word: seq<int>

    ghost predicate Valid()
      reads this
    {
      && graph.WellFormed(w)
      && |graph.referents| <= |word| == |next| == |prev|
      && AreWords(word, w)
    }

    ghost function View(): Links
      reads this
    {
      Links(next, prev)
    }

    ghost function Now(): Store
      reads this
    {
      Store(View(), Values(word), Flags(word))
    }

    // The lists start out empty and the objects untracked.
    constructor (graph: ObjectGraph, w: nat, lists: nat)
      requires graph.WellFormed(w)
      ensures this.graph == graph && this.w == w && Valid()
      ensures |word| == |graph.referents| + lists
      ensures forall h :: |graph.referents| <= h < |word| ==> IsRing(View(), h, [])
      ensures forall x :: 0 <= x < |graph.referents| ==> Values(word)[x] == -2 && !Flags(word)[x]
    {
      var n := |graph.referents|;
      var blank := H.SetRefs(0, H.UNTRACKED, w);
      H.StatesFit(w);
      FitsIsWord(H.UNTRACKED, w);
      assert H.IsWord(0, w);
      H.RefsReadsBackIff(0, H.UNTRACKED, w);
      H.FlagIsLowBit(0);
      this.graph, this.w := graph, w;
      word := seq(n + lists, _ => blank);
      next := seq(n + lists, i => if i < n then NULL else i);
      prev := seq(n + lists, i => if i < n then NULL else i);
    }

    // ---- Header macros -------------------------------------------------------------------------

    // _PyGCHead_SET_REFS
    method SetRefs(x: int, v: int)
      requires Valid() && 0 <= x < |word| && H.Fits(v, w)
      modifies this`word
      ensures Valid() && Values(word) == old(Values(word))[x := v] && Flags(word) == old(Flags(word))
    {
      FitsIsWord(v, w);
      H.RefsReadsBackIff(word[x], v, w);
      word := word[x := H.SetRefs(word[x], v, w)];
    }

    // _PyGCHead_DECREF
    method DecrefHeader(x: int)
      requires Valid() && 0 <= x < |word| && Values(word)[x] > 0
      modifies this`word
      ensures Valid() && Flags(word) == old(Flags(word))
      ensures Values(word) == old(Values(word))[x := old(Values(word))[x] - 1]
    {
      H.FlagIsLowBit(word[x]);
      H.FlagIsLowBit(word[x] - 2);
      word := word[x := H.Decref(word[x])];
    }

    // ---- Tracking --------------------------------------------------------------------------------

    // items are the objects of the list at head, all of them tracked.
    ghost predicate Generation(head: int, items: seq<int>)
      reads this
    {
      && Valid() && IsRing(View(), head, items) && |graph.referents| <= head
      && forall x <- items :: graph.Tracks(x) && Values(word)[x] != H.UNTRACKED
    }

    /** `_PyObject_GC_TRACK`: a fatal error for a tracked object; otherwise the object is
        REACHABLE and last in the generation. */
    method Track(x: int, head: int, ghost items: seq<int>) returns (ok: bool)
      requires Generation(head, items) && graph.Tracks(x)
      modifies this
      ensures ok <==> old(Values(word))[x] == -2
      ensures !ok ==> next == old(next) && prev == old(prev) && word == old(word)
      ensures ok ==> Generation(head, items + [x]) && View() == Append(old(View()), x, head)
      ensures ok ==> Values(word) == old(Values(word))[x := -3] && Flags(word) == old(Flags(word))
    {
      if H.Refs(word[x]) != H.UNTRACKED {
        return false;
      }
      RingEnds(View(), head, items);
      AppendRing(View(), head, items, x);
      H.StatesFit(w);
      SetRefs(x, H.REACHABLE);
      next := next[x := head];
      prev := prev[x := prev[head]];
      next := next[prev[x] := x];
      prev := prev[head := x];
      return true;
    }

    /** `_PyObject_GC_UNTRACK`, behind the check of `PyObject_GC_UnTrack`: a tracked object leaves
        its generation and the order of the others is kept. */
    method Untrack(x: int, ghost head: int, ghost items: seq<int>, ghost k: nat)
      requires Generation(head, items) && graph.Tracks(x) && k < |items| && items[k] == x
      modifies this
      ensures Generation(head, items[..k] + items[k + 1..]) && View() == Remove(old(View()), x)
      ensures LinksSame(old(View()), View(), Elements(items) + {head})
      ensures Values(word) == old(Values(word))[x := -2] && Flags(word) == old(Flags(word))
    {
      RingItem(View(), head, items, k);
      AtInjective(head, items, k - 1, k);
      RemoveRing(View(), head, items, k);
      H.StatesFit(w);
      SetRefs(x, H.UNTRACKED);
      next := next[prev[x] := next[x]];
      prev := prev[next[x] := prev[x]];
      next := next[x := NULL];
      assert View() == Remove(old(View()), x);
      forall y | y in items[..k] + items[k + 1..] ensures graph.Tracks(y) && Values(word)[y] != H.UNTRACKED {
        assert y in items && y != x;
      }
    }

    // ---- List functions ---------------------------------------------------------------------------

    method ListInit(list: int)
      requires Valid() && View().Has(list)
      modifies this`next, this`prev
      ensures Valid() && View() == Init(old(View()), list)
    {
      prev := prev[list := list];
      next := next[list := list];
    }

    /** `gc_list_merge`: from's objects, in order, follow to's; from is empty. */
    method ListMerge(from: int, to: int, ghost items1: seq<int>, ghost items2: seq<int>)
      requires Valid() && TwoRings(View(), from, items1, to, items2)
      modifies this`next, this`prev
      ensures Valid() && TwoRings(View(), from, [], to, items2 + items1)
      ensures LinksSame(old(View()), View(), Elements(items1) + Elements(items2) + {from, to})
    {
      MergeRings(View(), from, items1, to, items2);
      RingEnds(View(), from, items1);
      if next[from] != from {
        RingItem(View(), from, items1, 0);
        var tail := prev[to];
        next := next[tail := next[from]];
        prev := prev[next[tail] := tail];
        prev := prev[to := prev[from]];
        next := next[prev[to] := to];
      }
      ListInit(from);
    }

    // gc_list_move, of the k-th item of one list to the end of another.
    method ListMove(node: int, list: int, ghost from: int, ghost items1: seq<int>, ghost k: nat, ghost items2: seq<int>)
      requires Valid() && TwoRings(View(), from, items1, list, items2) && k < |items1| && items1[k] == node
      modifies this`next, this`prev
      ensures Valid() && TwoRings(View(), from, items1[..k] + items1[k + 1..], list, items2 + [node])
      ensures View() == Move(old(View()), node, list)
      ensures LinksSame(old(View()), View(), Elements(items1) + Elements(items2) + {from, list})
    {
      MoveRings(View(), from, items1, k, list, items2);
      RingItem(View(), from, items1, k);
      AtInjective(from, items1, k - 1, k);
      var currentPrev, currentNext := prev[node], next[node];
      next := next[currentPrev := currentNext];
      prev := prev[currentNext := currentPrev];
      var newPrev := prev[list];
      prev := prev[node := newPrev];
      next := next[newPrev := node];
      prev := prev[list := node];
      next := next[node := list];
    }

    // ---- Deducing what is unreachable -----------------------------------------------------------

    // items are the objects of the list at head.
    ghost predicate ListOf(head: int, items: seq<int>)
      reads this
    {
      && Valid() && IsRing(View(), head, items) && |graph.referents| <= head
      && forall x <- items :: graph.Tracks(x)
    }

    /** `update_refs`, and the first loop of `check_garbage`, copy ob_refcnt into the header of
        every listed object. */
    method UpdateRefs(containers: int, ghost items: seq<int>)
      requires ListOf(containers, items)
      modifies this`word
      ensures Valid() && Flags(word) == old(Flags(word))
      ensures SameOutside(old(Values(word)), Values(word), Elements(items))
      ensures forall x <- items :: Values(word)[x] == graph.refcnt[x]
    {
      RingEnds(View(), containers, items);
      var gc := next[containers];
      ghost var k := 0;
      while gc != containers
        invariant Valid() && k <= |items| && gc == At(containers, items, k)
        invariant Flags(word) == old(Flags(word)) && |word| == |old(word)|
        invariant forall x :: 0 <= x < |word| ==>
                    Values(word)[x] == if x in items[..k] then Count(x) else old(Values(word))[x]
        decreases |items| - k
      {
        CursorAtEnd(View(), containers, items, k);
        assert gc in items;
        SetRefs(gc, graph.refcnt[gc]);
        assert items[..k + 1] == items[..k] + [gc];
        RingItem(View(), containers, items, k);
        gc := next[gc];
        k := k + 1;
      }
      CursorAtEnd(View(), containers, items, k);
      assert items[..k] == items;
    }

    ghost function Count(x: int): int
    {
      if 0 <= x < |graph.refcnt| then graph.refcnt[x] else 0
    }

    // visit_decref; a count of 0 here would mean that ob_refcnt was too small.
    method VisitDecref(op: int)
      requires Valid() && 0 <= op < |graph.referents|
      requires graph.isGc[op] ==> Values(word)[op] != 0
      modifies this`word
      ensures Valid() && Flags(word) == old(Flags(word))
      ensures Values(word) == if graph.isGc[op] && old(Values(word))[op] > 0
                              then old(Values(word))[op := old(Values(word))[op] - 1] else old(Values(word))
    {
      if graph.isGc[op] {
        assert H.Refs(word[op]) != 0 by { assert Values(word)[op] != 0; }
        if H.Refs(word[op]) > 0 {
          DecrefHeader(op);
        }
      }
    }

    // tp_traverse with visit_decref, of one container.
    method TraverseDecref(x: int, ghost members: set<int>, ghost processed: set<int>)
      requires Valid() && Bounded(graph, members) && OutsidersSettled(Values(word), graph, members)
      requires forall y <- members :: graph.Tracks(y)
      requires x in members && x !in processed && processed <= members && 0 <= x < |graph.referents|
      requires CountsLeft(Values(word), graph, members, processed, [])
      modifies this`word
      ensures Valid() && Flags(word) == old(Flags(word))
      ensures SameOutside(old(Values(word)), Values(word), members)
      ensures CountsLeft(Values(word), graph, members, processed + {x}, [])
    {
      hide CountsLeft;
      hide Bounded;
      var slots := graph.referents[x];
      assert slots[..0] == [];
      for j := 0 to |slots|
        invariant Valid() && Flags(word) == old(Flags(word))
        invariant SameOutside(old(Values(word)), Values(word), members)
        invariant CountsLeft(Values(word), graph, members, processed, slots[..j])
      {
        VisitSubtracts(Values(word), graph, members, processed, x, j);
        if slots[j] != NULL {
          VisitDecref(slots[j]);
        }
      }
      assert slots[..|slots|] == slots;
      ContainerDone(Values(word), graph, members, processed, x);
    }

    /** `subtract_refs` leaves in every listed object's header the number of references to it
        from outside the list. */
    method SubtractRefs(containers: int, ghost items: seq<int>)
      requires ListOf(containers, items) && Bounded(graph, Elements(items))
      requires OutsidersSettled(Values(word), graph, Elements(items))
      requires forall x <- items :: Values(word)[x] == graph.refcnt[x]
      modifies this`word
      ensures Valid() && Flags(word) == old(Flags(word))
      ensures SameOutside(old(Values(word)), Values(word), Elements(items))
      ensures forall x <- items :: Values(word)[x] == External(graph, Elements(items), x) >= 0
    {
      ghost var members := Elements(items);
      RingEnds(View(), containers, items);
      var gc := next[containers];
      ghost var k := 0;
      assert Elements(items[..0]) == {};
      RefGraph.RefsOfNone(graph.referents);
      while gc != containers
        invariant Valid() && k <= |items| && gc == At(containers, items, k)
        invariant Flags(word) == old(Flags(word)) && SameOutside(old(Values(word)), Values(word), members)
        invariant Elements(items[..k]) <= members
        invariant CountsLeft(Values(word), graph, members, Elements(items[..k]), [])
        decreases |items| - k
      {
        CursorAtEnd(View(), containers, items, k);
        assert gc in items && gc !in items[..k];
        TraverseDecref(gc, members, Elements(items[..k]));
        ElementsPrefix(items, k);
        RingItem(View(), containers, items, k);
        gc := next[gc];
        k := k + 1;
      }
      CursorAtEnd(View(), containers, items, k);
      assert items[..k] == items;
      forall x | x in items ensures Values(word)[x] == External(graph, members, x) >= 0 {
        assert x in members;
      }
    }

    // ---- Untracking containers --------------------------------------------------------------------

    // The loop of _PyTuple_MaybeUntrack and of _PyDict_MaybeUntrack.
    method MayUntrack(x: int) returns (b: bool)
      requires Valid() && 0 <= x < |graph.referents| && (graph.IsTuple(x) || graph.IsDict(x))
      ensures b <==> graph.Untrackable(Values(word), x)
    {
      var slots := graph.referents[x];
      for i := 0 to |slots|
        invariant forall j :: 0 <= j < i ==> graph.Harmless(Values(word), x, slots[j])
      {
        var c := slots[i];
        if c == NULL {
          if graph.IsTuple(x) {
            assert !graph.Harmless(Values(word), x, slots[i]);
            return false;
          }
        } else if graph.isGc[c] && (!graph.IsTuple(c) || H.Refs(word[c]) != H.UNTRACKED) {
          assert Values(word)[c] == H.Refs(word[c]);
          assert !graph.Harmless(Values(word), x, slots[i]);
          return false;
        }
      }
      return true;
    }

    /** `_PyTuple_MaybeUntrack` and `_PyDict_MaybeUntrack`, of a listed object: it is untracked
        exactly when nothing it holds may be tracked. */
    method MaybeUntrack(x: int, ghost head: int, ghost items: seq<int>, ghost k: nat) returns (untracked: bool)
      requires Generation(head, items) && k < |items| && items[k] == x && graph.Tracks(x)
      requires graph.IsTuple(x) || graph.IsDict(x)
      modifies this
      ensures untracked <==> graph.Untrackable(old(Values(word)), x)
      ensures UntrackedIsHarmless(graph, old(Values(word))) ==>
                (untracked <==> (graph.kinds[x].ExactTuple? ==> NULL !in graph.referents[x]) &&
                                ReachesOnlyLeaves(graph, old(Values(word)), x))
      ensures !untracked ==> next == old(next) && prev == old(prev) && word == old(word)
      ensures untracked ==> Generation(head, items[..k] + items[k + 1..])
      ensures untracked ==> Values(word) == old(Values(word))[x := H.UNTRACKED] && Flags(word) == old(Flags(word))
      ensures LinksSame(old(View()), View(), Elements(items) + {head}) && Valid()
    {
      untracked := MayUntrack(x);
      if UntrackedIsHarmless(graph, Values(word)) {
        UntrackableIff(graph, Values(word), w, x);
      }
      if untracked {
        Untrack(x, head, items, k);
      }
    }

    // ---- move_unreachable -------------------------------------------------------------------------

    // The young and the unreachable list in a state of the walk.
    ghost predicate Walking(young: int, unreachable: int, s: Walk)
      reads this
    {
      Valid() && WalkState(graph, View(), Values(word), young, unreachable, s)
    }

    // visit_reachable, of the j-th reference of the settled object x.
    method VisitReachable(x: int, j: nat, young: int, unreachable: int, ghost s: Walk) returns (ghost s': Walk)
      requires x in s.members && 0 <= x < |graph.referents| && x < |word| && Marked(Values(word)[x])
      requires j < |graph.referents[x]| && graph.referents[x][j] != NULL
      requires Walking(young, unreachable, s)
      modifies this
      ensures s'.Extends(s) && IsMarkedMember(Values(word), s.members, graph.referents[x][j])
      ensures Values(word) == Visited(old(Values(word)), graph.referents[x][j], [0, -4], 1)
      ensures Walking(young, unreachable, s')
      ensures StepsTo(old(Now()), Now(), s.members + {young, unreachable}, s.members)
    {
      hide WalkState;
      hide TwoRings;
      hide LinksSame;
      hide SameOutside;
      s' := s;
      var op := graph.referents[x][j];
      ghost var v, l := Values(word), View();
      NoStep(Now(), s.members + {young, unreachable}, s.members);
      if !graph.isGc[op] {
        NotTracked(young, unreachable, s, op);
        return;
      }
      H.StatesFit(w);
      var gcRefs := H.Refs(word[op]);
      assert gcRefs == v[op];
      VisitedIsMember(graph, l, v, young, unreachable, s, op);
      if gcRefs == 0 {
        VisitedAhead(graph, l, v, young, unreachable, s, x, j, op);
        SetRefs(op, 1);
      } else if gcRefs == H.TENTATIVELY_UNREACHABLE {
        ghost var m :| 0 <= m < |s.us| && s.us[m] == op;
        MoveBack(op, young, unreachable, s, m);
        VisitedReturns(graph, l, View(), v, young, unreachable, s, m, x, j);
        SetRefs(op, 1);
        s' := s.Returned(m);
      }
    }

    // A GC object op in one of the given states gets a new one.
    ghost function Visited(v: seq<int>, op: int, states: seq<int>, state: int): seq<int> {
      if 0 <= op < |v| && graph.Tracks(op) && v[op] in states then v[op := state] else v
    }

    lemma NotTracked(young: int, unreachable: int, s: Walk, op: int)
      requires Walking(young, unreachable, s) && 0 <= op < |graph.isGc| && !graph.isGc[op]
      ensures IsMarkedMember(Values(word), s.members, op)
    {
      assert op !in s.members by { assert !graph.Tracks(op); }
    }

    // gc_list_move from the unreachable list to the young one.
    method MoveBack(op: int, young: int, unreachable: int, ghost s: Walk, ghost m: nat)
      requires Walking(young, unreachable, s) && m < |s.us| && s.us[m] == op
      modifies this`next, this`prev
      ensures Valid() && TwoRings(View(), young, s.Returned(m).ys, unreachable, s.Returned(m).us)
      ensures LinksSame(old(View()), View(), s.members + {young, unreachable})
    {
      hide Scanning;
      hide TwoRings;
      ListNodes(young, unreachable, s);
      TwoRingsSymmetric(View(), young, s.ys, unreachable, s.us);
      ListMove(op, young, unreachable, s.us, m, s.ys);
      TwoRingsSymmetric(View(), unreachable, s.Returned(m).us, young, s.Returned(m).ys);
      LinksSameLarger(old(View()), View(), Elements(s.us) + Elements(s.ys) + {unreachable, young},
                      s.members + {young, unreachable});
    }

    // tp_traverse with visit_reachable, of the object just settled.
    method TraverseReachable(x: int, young: int, unreachable: int, ghost s: Walk) returns (ghost s': Walk)
      requires Walking(young, unreachable, s) && 0 < s.k <= |s.ys| && s.ys[s.k - 1] == x
      requires Chased(Values(word), graph.referents, s.members, Elements(s.ys[..s.k - 1]) + s.gone)
      modifies this
      ensures Walking(young, unreachable, s') && s'.Extends(s)
      ensures Chased(Values(word), graph.referents, s.members, s'.Done())
      ensures StepsTo(old(Now()), Now(), s.members + {young, unreachable}, s.members)
    {
      hide Walking;
      hide Chased;
      hide IsMarkedMember;
      hide StepsTo;
      SettledIsMember(young, unreachable, s);
      ghost var before, inside := Elements(s.ys[..s.k - 1]) + s.gone, s.members + {young, unreachable};
      NoStep(Now(), inside, s.members);
      s' := s;
      var slots := graph.referents[x];
      for j := 0 to |slots|
        invariant Walking(young, unreachable, s') && s'.Extends(s)
        invariant x in s.members && |word| == |old(word)| && 0 <= x < |word| && Marked(Values(word)[x])
        invariant StepsTo(old(Now()), Now(), inside, s.members)
        invariant Chased(Values(word), graph.referents, s.members, before)
        invariant forall i :: 0 <= i < j ==> IsMarkedMember(Values(word), s.members, slots[i])
      {
        ghost var v, a := Values(word), Now();
        if slots[j] == NULL {
          NullIsNoMember(young, unreachable, s');
        } else {
          s' := VisitReachable(x, j, young, unreachable, s');
          StepsMean(a, Now(), inside, s.members);
          StepsCompose(old(Now()), a, Now(), inside, s.members);
          ChasedGrows(v, Values(word), graph.referents, s.members, before);
          MarkedMembersGrow(v, Values(word), s.members, slots[..j]);
          assert forall i :: 0 <= i < j ==> slots[..j][i] == slots[i];
        }
      }
      ChasedExtends(Values(word), graph.referents, s.members, before, x);
      assert s'.ys[..s.k] == s'.ys[..|s.ys|][..s.k] == s.ys[..s.k - 1] + [x];
      ElementsAppend(s.ys[..s.k - 1], x);
      assert s'.Done() == before + {x};
    }

    lemma SettledIsMember(young: int, unreachable: int, s: Walk)
      requires Walking(young, unreachable, s) && 0 < s.k <= |s.ys|
      ensures s.ys[s.k - 1] in s.members && 0 <= s.ys[s.k - 1] < |graph.referents| <= |word|
      ensures Marked(Values(word)[s.ys[s.k - 1]]) && |next| == |prev|
    {
    }

    lemma NullIsNoMember(young: int, unreachable: int, s: Walk)
      requires Walking(young, unreachable, s)
      ensures IsMarkedMember(Values(word), s.members, NULL)
    {
    }

    /** `move_unreachable`: from counts of outside references, move exactly the objects that are not
        reachable from outside the young list away from it. The others stay, except for reachable
        tuples that hold nothing that may be tracked, which are untracked; no tuple that stays held
        nothing that may be tracked when the walk began. */
    method MoveUnreachable(young: int, unreachable: int, ghost items: seq<int>)
      returns (ghost reachable: seq<int>, ghost trash: seq<int>, ghost untracked: set<int>)
      requires ListOf(young, items) && TwoRings(View(), young, items, unreachable, [])
      requires |graph.referents| <= unreachable
      requires OutsidersSettled(Values(word), graph, Elements(items))
      requires forall x <- items :: Values(word)[x] == External(graph, Elements(items), x) >= 0
      modifies this
      ensures Valid() && TwoRings(View(), young, reachable, unreachable, trash)
      ensures SplitBy(graph, Values(word), Elements(items), Elements(reachable), untracked, Elements(trash))
      ensures forall x <- untracked :: graph.IsTuple(x)
      ensures NoneOverlooked(graph, old(Values(word)), Elements(reachable), false)
      ensures Flags(word) == old(Flags(word)) && SameOutside(old(Values(word)), Values(word), Elements(items))
      ensures LinksSame(old(View()), View(), Elements(items) + {young, unreachable})
    {
      hide WalkState;
      hide Chased;
      hide TwoRings;
      hide IsRing;
      hide StepsTo;
      hide SplitBy;
      hide NoneOverlooked;
      ghost var members, inside := Elements(items), Elements(items) + {young, unreachable};
      ghost var s := BeginWalk(young, unreachable, items);
      NoStep(Now(), inside, members);
      var gc := FirstYoung(young, unreachable, s);
      Bound(young, unreachable, s);
      while gc != young
        invariant s.members == members && s.roots == Roots(graph, members)
        invariant s.k <= |s.ys| && |s.ys| + |s.gone| <= |members| && gc == At(young, s.ys, s.k)
        invariant StepsTo(old(Now()), Now(), inside, members)
        invariant NoneOverlooked(graph, old(Values(word)), Elements(s.ys[..s.k]), false)
        invariant Chased(Values(word), graph.referents, members, s.Done())
        invariant Walking(young, unreachable, s)
        decreases |members| - s.k - |s.gone|, |s.ys| - s.k
      {
        ghost var a, before := Now(), Elements(s.ys[..s.k]);
        Cursor(young, unreachable, s);
        var following;
        if H.Refs(word[gc]) != 0 {
          following, s := Scan(gc, young, unreachable, s);
        } else {
          following, s := Park(gc, young, unreachable, s);
          NoneToOverlook(before, Elements(s.ys[..s.k]));
        }
        StillNoneOverlooked(old(Now()), a, inside, members, before, Elements(s.ys[..s.k]));
        gc := following;
        StepsCompose(old(Now()), a, Now(), inside, members);
        Bound(young, unreachable, s);
      }
      StepsMean(old(Now()), Now(), inside, members);
      EndWalk(young, unreachable, s);
      assert s.ys[..s.k] == s.ys;
      reachable, trash, untracked := s.ys, s.us, s.gone;
    }

    lemma NoneToOverlook(before: set<int>, after: set<int>)
      requires after <= before
      ensures NoneOverlooked(graph, Values(word), after - before, false)
    {
    }

    lemma StillNoneOverlooked(a: Store, b: Store, inside: set<int>, members: set<int>,
                              before: set<int>, after: set<int>)
      requires StepsTo(a, b, inside, members) && NoneOverlooked(graph, a.values, before, false)
      requires NoneOverlooked(graph, b.values, after - before, false)
      ensures NoneOverlooked(graph, a.values, after, false)
    {
      NoneOverlookedAgain(graph, a.values, b.values, before, after, false);
    }

    lemma BeginWalk(young: int, unreachable: int, items: seq<int>) returns (s: Walk)
      requires ListOf(young, items) && TwoRings(View(), young, items, unreachable, [])
      requires |graph.referents| <= unreachable
      requires OutsidersSettled(Values(word), graph, Elements(items))
      requires forall x <- items :: Values(word)[x] == External(graph, Elements(items), x) >= 0
      ensures s == Walk(Elements(items), Roots(graph, Elements(items)), items, 0, [], {})
      ensures Walking(young, unreachable, s)
      ensures Chased(Values(word), graph.referents, Elements(items), s.Done())
      ensures NoneOverlooked(graph, Values(word), Elements(items[..0]), false)
    {
      var members := Elements(items);
      s := Walk(members, Roots(graph, members), items, 0, [], {});
      assert forall x <- members :: x in items;
      ScanBegins(Values(word), graph.referents, members, s.roots, items);
    }

    lemma EndWalk(young: int, unreachable: int, s: Walk)
      requires s.k <= |s.ys| && At(young, s.ys, s.k) == young
      requires Chased(Values(word), graph.referents, s.members, s.Done())
      requires Walking(young, unreachable, s)
      ensures s.k == |s.ys| && forall x <- s.members :: 0 <= x < |graph.refcnt|
      ensures TwoRings(View(), young, s.ys, unreachable, s.us)
      ensures s.roots == Roots(graph, s.members) ==>
                SplitBy(graph, Values(word), s.members, Elements(s.ys), s.gone, Elements(s.us))
      ensures forall x <- s.gone :: graph.IsTuple(x)
    {
      hide Chased;
      AllScanned(young, unreachable, s);
      ScanEnds(Values(word), graph.referents, s);
    }

    // The branch for an object with a positive count: it is settled, and a tuple may then leave the
    // list; the next node is read before it does.
    method Scan(gc: int, young: int, unreachable: int, ghost s: Walk)
      returns (following: int, ghost s': Walk)
      requires s.k < |s.ys| && s.ys[s.k] == gc && 0 <= gc < |graph.referents| && gc < |word|
      requires Values(word)[gc] > 0
      requires Chased(Values(word), graph.referents, s.members, s.Done())
      requires Walking(young, unreachable, s)
      modifies this
      ensures s'.members == s.members && s'.roots == s.roots && s'.k <= |s'.ys|
      ensures following == At(young, s'.ys, s'.k) && s'.k + |s'.gone| == s.k + |s.gone| + 1
      ensures NoneOverlooked(graph, old(Values(word)), Elements(s'.ys[..s'.k]) - Elements(s.ys[..s.k]), false)
      ensures Chased(Values(word), graph.referents, s.members, s'.Done())
      ensures Walking(young, unreachable, s')
      ensures StepsTo(old(Now()), Now(), s.members + {young, unreachable}, s.members)
    {
      hide WalkState;
      hide Chased;
      hide StepsTo;
      hide Valid;
      ghost var inside := s.members + {young, unreachable};
      s' := Settle(gc, young, unreachable, s);
      SettledPrefix(s, s');
      following := NextYoung(gc, young, unreachable, s', s.k);
      if graph.IsTuple(gc) {
        ghost var a := Now();
        StepsMean(old(Now()), a, inside, s.members);
        s' := DropTuple(gc, young, unreachable, s');
        StepsCompose(old(Now()), a, Now(), inside, s.members);
        NoneOverlookedEarlier(graph, old(Values(word)), a.values,
                              Elements(s'.ys[..s'.k]) - Elements(s.ys[..s.k]), false);
      }
    }

    lemma SettledPrefix(s: Walk, s': Walk)
      requires s.k < |s.ys| && s'.Extends(s.Settled())
      ensures s'.k == s.k + 1 <= |s'.ys| && s'.ys[s.k] == s.ys[s.k]
      ensures Elements(s'.ys[..s'.k]) == Elements(s.ys[..s.k]) + {s.ys[s.k]}
      ensures s'.Untracked().ys[..s.k] == s.ys[..s.k]
    {
      assert s'.ys[..s.k + 1] == s'.ys[..|s.ys|][..s.k + 1] == s.ys[..s.k] + [s.ys[s.k]];
      ElementsAppend(s.ys[..s.k], s.ys[s.k]);
    }

    // The object is reachable, and so is all it refers to.
    method Settle(gc: int, young: int, unreachable: int, ghost s: Walk) returns (ghost s': Walk)
      requires s.k < |s.ys| && s.ys[s.k] == gc && 0 <= gc < |graph.referents| && gc < |word|
      requires Values(word)[gc] > 0
      requires Chased(Values(word), graph.referents, s.members, s.Done())
      requires Walking(young, unreachable, s)
      modifies this
      ensures s'.Extends(s.Settled())
      ensures Chased(Values(word), graph.referents, s.members, s'.Done())
      ensures Walking(young, unreachable, s')
      ensures StepsTo(old(Now()), Now(), s.members + {young, unreachable}, s.members)
    {
      BeginSettle(young, unreachable, s);
      hide WalkState;
      hide Chased;
      hide StepsTo;
      SetRefs(gc, H.REACHABLE);
      ghost var a := Now();
      s' := TraverseReachable(gc, young, unreachable, s.Settled());
      StepsCompose(old(Now()), a, Now(), s.members + {young, unreachable}, s.members);
    }

    lemma BeginSettle(young: int, unreachable: int, s: Walk)
      requires s.k < |s.ys| && 0 <= s.ys[s.k] < |graph.referents| && s.ys[s.k] < |word|
      requires Values(word)[s.ys[s.k]] > 0
      requires Chased(Values(word), graph.referents, s.members, s.Done())
      requires Walking(young, unreachable, s)
      ensures H.Fits(H.REACHABLE, w) && s.ys[s.k] in s.members
      ensures var v' := Values(word)[s.ys[s.k] := H.REACHABLE];
              && WalkState(graph, View(), v', young, unreachable, s.Settled())
              && Chased(v', graph.referents, s.members, s.Done())
              && StepsTo(Now(), Store(View(), v', Flags(word)), s.members + {young, unreachable}, s.members)
    {
      H.StatesFit(w);
      MemberUnder(young, unreachable, s);
      hide Scanning;
      hide Chased;
      hide TwoRings;
      hide AllUntrackable;
      hide Grows;
      var v := Values(word);
      ScanSettles(v, graph.referents, s);
      GoneStays(v, v[s.ys[s.k] := H.REACHABLE], s.gone);
    }

    lemma GoneStays(v: seq<int>, v': seq<int>, gone: set<int>)
      requires AllUntrackable(graph, v, gone) && Grows(v, v')
      ensures AllUntrackable(graph, v', gone)
    {
      UntrackableStays(graph, v, v', gone);
    }

    // _PyTuple_MaybeUntrack of the tuple settled last.
    method DropTuple(gc: int, young: int, unreachable: int, ghost s: Walk) returns (ghost s': Walk)
      requires 0 < s.k <= |s.ys| && s.ys[s.k - 1] == gc && graph.IsTuple(gc)
      requires Chased(Values(word), graph.referents, s.members, s.Done())
      requires Walking(young, unreachable, s)
      modifies this
      ensures s' == if graph.Untrackable(old(Values(word)), gc) then s.Untracked() else s
      ensures At(young, s'.ys, s'.k) == At(young, s.ys, s.k) && s'.k + |s'.gone| == s.k + |s.gone|
      ensures Chased(Values(word), graph.referents, s.members, s'.Done())
      ensures Walking(young, unreachable, s')
      ensures StepsTo(old(Now()), Now(), s.members + {young, unreachable}, s.members)
    {
      hide WalkState;
      hide Chased;
      hide IsRing;
      hide Grows;
      ghost var v, l := Values(word), View();
      ListIsGeneration(young, unreachable, s);
      NoStep(Now(), {}, s.members);
      var untracked := MaybeUntrack(gc, young, s.ys, s.k - 1);
      s' := s;
      if untracked {
        s' := s.Untracked();
        TupleGone(graph, l, View(), v, young, unreachable, s);
      }
      LinksSameLarger(l, View(), Elements(s.ys) + {young}, s.members + {young, unreachable});
    }

    lemma ListIsGeneration(young: int, unreachable: int, s: Walk)
      requires Walking(young, unreachable, s) && 0 < s.k <= |s.ys|
      ensures Generation(young, s.ys) && graph.Tracks(s.ys[s.k - 1]) && s.ys[s.k - 1] in s.members
      ensures s.ys[s.k - 1] !in s.gone && Elements(s.ys) <= s.members
      ensures forall x <- s.Untracked().ys :: x in s.ys
    {
      LastSettled(Values(word), graph.referents, s);
      forall x | x in s.ys ensures x in s.members && graph.Tracks(x) && Values(word)[x] != H.UNTRACKED {
        var i :| 0 <= i < |s.ys| && s.ys[i] == x;
      }
      assert s.ys[s.k - 1] in s.ys;
    }

    // The branch for an object with count 0: assume it unreachable for now.
    method Park(gc: int, young: int, unreachable: int, ghost s: Walk)
      returns (following: int, ghost s': Walk)
      requires s.k < |s.ys| && s.ys[s.k] == gc && 0 <= gc < |graph.referents| && gc < |word|
      requires Values(word)[gc] == 0
      requires Chased(Values(word), graph.referents, s.members, s.Done())
      requires Walking(young, unreachable, s)
      modifies this
      ensures s' == s.Parked() && following == At(young, s'.ys, s.k)
      ensures Chased(Values(word), graph.referents, s.members, s'.Done())
      ensures Walking(young, unreachable, s')
      ensures StepsTo(old(Now()), Now(), s.members + {young, unreachable}, s.members)
    {
      hide Scanning;
      hide Chased;
      hide TwoRings;
      hide AllUntrackable;
      ghost var v := Values(word);
      ScanParks(v, graph.referents, s);
      UntrackableStays(graph, v, v[gc := H.TENTATIVELY_UNREACHABLE], s.gone);
      H.StatesFit(w);
      MemberUnder(young, unreachable, s);
      following := NextOf(gc, young, s.ys, s.k, unreachable, s.us);
      ListNodes(young, unreachable, s);
      ListMove(gc, unreachable, young, s.ys, s.k, s.us);
      LinksSameLarger(old(View()), View(), Elements(s.ys) + Elements(s.us) + {young, unreachable},
                      s.members + {young, unreachable});
      SetRefs(gc, H.TENTATIVELY_UNREACHABLE);
      s' := s.Parked();
    }

    lemma ListNodes(young: int, unreachable: int, s: Walk)
      requires Walking(young, unreachable, s)
      ensures Elements(s.ys) <= s.members && Elements(s.us) <= s.members
    {
      forall x | x in Elements(s.ys) + Elements(s.us) + s.gone ensures x in s.members {
      }
    }

    lemma MemberUnder(young: int, unreachable: int, s: Walk)
      requires Walking(young, unreachable, s) && s.k < |s.ys|
      ensures s.ys[s.k] in s.members
    {
    }

    method FirstYoung(young: int, unreachable: int, ghost s: Walk) returns (node: int)
      requires Walking(young, unreachable, s)
      ensures node == At(young, s.ys, 0)
    {
      hide Scanning;
      node := FirstOf(young, s.ys, unreachable, s.us);
    }

    method NextYoung(gc: int, young: int, unreachable: int, ghost s: Walk, ghost k: nat) returns (node: int)
      requires Walking(young, unreachable, s) && k < |s.ys| && s.ys[k] == gc
      ensures node == At(young, s.ys, k + 1)
    {
      hide Scanning;
      node := NextOf(gc, young, s.ys, k, unreachable, s.us);
    }

    // Reading a link: the first node of a list, and the node after the k-th.
    method FirstOf(head: int, ghost items: seq<int>, ghost other: int, ghost others: seq<int>) returns (node: int)
      requires Valid() && TwoRings(View(), head, items, other, others)
      ensures node == At(head, items, 0)
    {
      RingEnds(View(), head, items);
      node := next[head];
    }

    method NextOf(gc: int, ghost head: int, ghost items: seq<int>, ghost k: nat,
                  ghost other: int, ghost others: seq<int>)
      returns (node: int)
      requires Valid() && TwoRings(View(), head, items, other, others) && k < |items| && items[k] == gc
      ensures node == At(head, items, k + 1)
    {
      RingItem(View(), head, items, k);
      node := next[gc];
    }

    lemma Bound(young: int, unreachable: int, s: Walk)
      requires Walking(young, unreachable, s)
      ensures |s.ys| + |s.gone| <= |s.members|
    {
      EnumerationLength(s.ys);
      assert |Elements(s.ys) + s.gone| == |Elements(s.ys)| + |s.gone|;
      forall x | x in Elements(s.ys) + s.gone ensures x in s.members {
        assert x in Elements(s.ys) + Elements(s.us) + s.gone;
      }
      SubsetCardinality(Elements(s.ys) + s.gone, s.members);
    }

    // Away from the end, the cursor is on a member that is still to be scanned.
    lemma Cursor(young: int, unreachable: int, s: Walk)
      requires Walking(young, unreachable, s) && s.k <= |s.ys| && At(young, s.ys, s.k) != young
      ensures s.k < |s.ys| && s.ys[s.k] == At(young, s.ys, s.k) && s.ys[s.k] in s.members
      ensures 0 <= s.ys[s.k] < |graph.referents| <= |word|
      ensures Values(word)[s.ys[s.k]] == H.Refs(word[s.ys[s.k]]) >= 0
    {
    }

    lemma AllScanned(young: int, unreachable: int, s: Walk)
      requires Walking(young, unreachable, s) && s.k <= |s.ys| && At(young, s.ys, s.k) == young
      ensures s.k == |s.ys|
      ensures forall x <- s.ys :: graph.Tracks(x) && Values(word)[x] == H.REACHABLE
      ensures forall x <- s.us :: graph.Tracks(x) && Values(word)[x] == H.TENTATIVELY_UNREACHABLE
      ensures forall x <- s.gone :: graph.Tracks(x) && x < |word| && Values(word)[x] == H.UNTRACKED && x !in s.ys
    {
      CursorAtEnd(View(), young, s.ys, s.k);
      forall x | x in s.ys ensures graph.Tracks(x) && Values(word)[x] == H.REACHABLE {
        var i :| 0 <= i < |s.ys| && s.ys[i] == x;
      }
    }

    // The second loop of check_garbage.
    method AllCountsZero(list: int, ghost items: seq<int>) returns (zero: bool)
      requires ListOf(list, items)
      ensures zero <==> forall x <- items :: Values(word)[x] == 0
    {
      RingEnds(View(), list, items);
      var gc := next[list];
      ghost var k := 0;
      while gc != list
        invariant k <= |items| && gc == At(list, items, k)
        invariant forall i :: 0 <= i < k ==> 0 <= items[i] < |word| && Values(word)[items[i]] == 0
        decreases |items| - k
      {
        CursorAtEnd(View(), list, items, k);
        assert gc in items;
        if H.Refs(word[gc]) != 0 {
          assert Values(word)[gc] != 0;
          return false;
        }
        RingItem(View(), list, items, k);
        gc := next[gc];
        k := k + 1;
      }
      CursorAtEnd(View(), list, items, k);
      return true;
    }

    /** `check_garbage` returns 0 exactly when every reference to a listed object comes from a
        listed object. */
    method CheckGarbage(collectable: int, ghost items: seq<int>) returns (r: int)
      requires ListOf(collectable, items) && Bounded(graph, Elements(items))
      requires OutsidersSettled(Values(word), graph, Elements(items))
      modifies this`word
      ensures r == 0 || r == -1
      ensures r == 0 <==> ClosedGarbage(graph, Elements(items))
      ensures Valid() && Flags(word) == old(Flags(word))
      ensures SameOutside(old(Values(word)), Values(word), Elements(items))
    {
      UpdateRefs(collectable, items);
      SubtractRefs(collectable, items);
      var zero := AllCountsZero(collectable, items);
      return if zero then 0 else -1;
    }

    // ---- Objects with legacy finalizers ----------------------------------------------------------

    // The finalizers list, all of it settled, and what is left unreachable.
    ghost predicate Collecting(finalizers: int, unreachable: int, s: Walk)
      reads this
    {
      Walking(finalizers, unreachable, s) && s.k == |s.ys| && s.gone == {}
    }

    // visit_move, of the j-th reference of the settled object x.
    method VisitMove(x: int, j: nat, finalizers: int, unreachable: int, ghost s: Walk) returns (ghost s': Walk)
      requires x in s.members && 0 <= x < |graph.referents| && x < |word| && Marked(Values(word)[x])
      requires j < |graph.referents[x]| && graph.referents[x][j] != NULL
      requires Collecting(finalizers, unreachable, s)
      modifies this
      ensures Collected(s, s') && IsMarkedMember(Values(word), s.members, graph.referents[x][j])
      ensures Values(word) == Visited(old(Values(word)), graph.referents[x][j], [-4], -3)
      ensures Collecting(finalizers, unreachable, s')
      ensures StepsTo(old(Now()), Now(), s.members + {finalizers, unreachable}, s.members)
    {
      hide WalkState;
      hide TwoRings;
      hide LinksSame;
      hide SameOutside;
      s' := s;
      var op := graph.referents[x][j];
      ghost var v, l := Values(word), View();
      NoStep(Now(), s.members + {finalizers, unreachable}, s.members);
      if !graph.isGc[op] {
        NotTracked(finalizers, unreachable, s, op);
        return;
      }
      H.StatesFit(w);
      var gcRefs := H.Refs(word[op]);
      assert gcRefs == v[op];
      VisitedIsMember(graph, l, v, finalizers, unreachable, s, op);
      if gcRefs == H.TENTATIVELY_UNREACHABLE {
        ghost var m :| 0 <= m < |s.us| && s.us[m] == op;
        MoveBack(op, finalizers, unreachable, s, m);
        VisitedCollects(graph, l, View(), v, finalizers, unreachable, s, m, x, j);
        SetRefs(op, H.REACHABLE);
        s' := s.Returned(m).Settled();
      }
    }

    ghost predicate Collected(s: Walk, s': Walk) {
      s'.members == s.members && s'.roots == s.roots && |s.ys| <= |s'.ys| && s'.ys[..|s.ys|] == s.ys
    }

    method TraverseMove(x: int, finalizers: int, unreachable: int, ghost s: Walk, ghost k: nat)
      returns (ghost s': Walk)
      requires Collecting(finalizers, unreachable, s) && k < |s.ys| && s.ys[k] == x
      requires Chased(Values(word), graph.referents, s.members, Elements(s.ys[..k]))
      modifies this
      ensures Collecting(finalizers, unreachable, s') && Collected(s, s')
      ensures Chased(Values(word), graph.referents, s.members, Elements(s'.ys[..k + 1]))
      ensures StepsTo(old(Now()), Now(), s.members + {finalizers, unreachable}, s.members)
    {
      hide Collecting;
      hide Chased;
      hide IsMarkedMember;
      hide StepsTo;
      CollectedIsMember(finalizers, unreachable, s, k);
      ghost var before, inside := Elements(s.ys[..k]), s.members + {finalizers, unreachable};
      NoStep(Now(), inside, s.members);
      s' := s;
      var slots := graph.referents[x];
      for j := 0 to |slots|
        invariant Collecting(finalizers, unreachable, s') && Collected(s, s')
        invariant x in s.members && |word| == |old(word)| && 0 <= x < |word| && Marked(Values(word)[x])
        invariant StepsTo(old(Now()), Now(), inside, s.members)
        invariant Chased(Values(word), graph.referents, s.members, before)
        invariant forall i :: 0 <= i < j ==> IsMarkedMember(Values(word), s.members, slots[i])
      {
        ghost var v, a, ys := Values(word), Now(), s'.ys;
        if slots[j] == NULL {
          NullNotCollected(finalizers, unreachable, s');
        } else {
          s' := VisitMove(x, j, finalizers, unreachable, s');
          assert s'.ys[..|s.ys|] == s'.ys[..|ys|][..|s.ys|];
          StepsMean(a, Now(), inside, s.members);
          StepsCompose(old(Now()), a, Now(), inside, s.members);
          ChasedGrows(v, Values(word), graph.referents, s.members, before);
          MarkedMembersGrow(v, Values(word), s.members, slots[..j]);
          assert forall i :: 0 <= i < j ==> slots[..j][i] == slots[i];
        }
      }
      ChasedExtends(Values(word), graph.referents, s.members, before, x);
      assert s'.ys[..k + 1] == s'.ys[..|s.ys|][..k + 1] == s.ys[..k] + [x];
      ElementsAppend(s.ys[..k], x);
    }

    lemma NullNotCollected(finalizers: int, unreachable: int, s: Walk)
      requires Collecting(finalizers, unreachable, s)
      ensures IsMarkedMember(Values(word), s.members, NULL)
    {
    }

    lemma CollectedIsMember(finalizers: int, unreachable: int, s: Walk, k: nat)
      requires Collecting(finalizers, unreachable, s) && k < |s.ys|
      ensures s.ys[k] in s.members && 0 <= s.ys[k] < |graph.referents| <= |word|
      ensures Marked(Values(word)[s.ys[k]]) && |next| == |prev|
    {
    }

    /** `move_legacy_finalizer_reachable`: the finalizers list ends up with exactly what can be
        reached from it inside the unreachable objects. */
    method MoveLegacyFinalizerReachable(finalizers: int, unreachable: int, ghost s: Walk)
      returns (ghost kept: seq<int>, ghost garbage: seq<int>)
      requires Collecting(finalizers, unreachable, s)
      modifies this
      ensures Valid() && TwoRings(View(), finalizers, kept, unreachable, garbage)
      ensures IsReachable(graph.referents, s.members, s.roots, Elements(kept))
      ensures Elements(garbage) == s.members - Elements(kept)
      ensures forall x <- kept :: graph.Tracks(x) && Values(word)[x] == H.REACHABLE
      ensures forall x <- garbage :: graph.Tracks(x) && Values(word)[x] == H.TENTATIVELY_UNREACHABLE
      ensures StepsTo(old(Now()), Now(), s.members + {finalizers, unreachable}, s.members)
    {
      hide WalkState;
      hide Chased;
      hide TwoRings;
      hide StepsTo;
      ghost var s', inside := s, s.members + {finalizers, unreachable};
      ghost var k := 0;
      NothingChased(Values(word), s.members);
      NoStep(Now(), inside, s.members);
      Bound(finalizers, unreachable, s);
      assert Elements(s.ys[..0]) == {};
      var gc := FirstYoung(finalizers, unreachable, s);
      while gc != finalizers
        invariant Collected(s, s') && k <= |s'.ys| <= |s.members| && gc == At(finalizers, s'.ys, k)
        invariant Chased(Values(word), graph.referents, s.members, Elements(s'.ys[..k]))
        invariant StepsTo(old(Now()), Now(), inside, s.members)
        invariant Collecting(finalizers, unreachable, s')
        decreases |s.members| - k
      {
        ghost var a, ys := Now(), s'.ys;
        CollectCursor(finalizers, unreachable, s', k);
        CollectedIsMember(finalizers, unreachable, s', k);
        s' := TraverseMove(gc, finalizers, unreachable, s', k);
        assert s'.ys[k] == s'.ys[..|ys|][k];
        assert s'.ys[..|s.ys|] == s'.ys[..|ys|][..|s.ys|];
        gc := NextYoung(gc, finalizers, unreachable, s', k);
        k := k + 1;
        StepsCompose(old(Now()), a, Now(), inside, s.members);
        Bound(finalizers, unreachable, s');
      }
      CollectCursor(finalizers, unreachable, s', k);
      CollectDone(finalizers, unreachable, s');
      kept, garbage := s'.ys, s'.us;
    }

    lemma NothingChased(v: seq<int>, members: set<int>)
      ensures Chased(v, graph.referents, members, {})
    {
    }

    lemma CollectCursor(finalizers: int, unreachable: int, s: Walk, k: nat)
      requires Collecting(finalizers, unreachable, s) && k <= |s.ys|
      ensures At(finalizers, s.ys, k) == finalizers <==> k == |s.ys|
    {
      CursorAtEnd(View(), finalizers, s.ys, k);
    }

    lemma CollectDone(finalizers: int, unreachable: int, s: Walk)
      requires Chased(Values(word), graph.referents, s.members, Elements(s.ys[..|s.ys|]))
      requires Collecting(finalizers, unreachable, s)
      ensures TwoRings(View(), finalizers, s.ys, unreachable, s.us)
      ensures IsReachable(graph.referents, s.members, s.roots, Elements(s.ys))
      ensures Elements(s.us) == s.members - Elements(s.ys)
      ensures forall x <- s.ys :: graph.Tracks(x) && Values(word)[x] == H.REACHABLE
      ensures forall x <- s.us :: graph.Tracks(x) && Values(word)[x] == H.TENTATIVELY_UNREACHABLE
    {
      hide Chased;
      AllScanned(finalizers, unreachable, s);
      assert s.ys[..s.k] == s.ys;
      assert Elements(s.ys) + s.gone == Elements(s.ys) == s.Done();
      ScanEnds(Values(word), graph.referents, s);
    }

    // The finalizers list holds legacy objects only, and no legacy object is among the first k
    // that stay unreachable.
    ghost predicate Sorting(finalizers: int, unreachable: int, s: Walk, k: nat)
      reads this
    {
      && Valid() && TwoRings(View(), finalizers, s.ys, unreachable, s.us)
      && |graph.referents| <= finalizers && |graph.referents| <= unreachable
      && (forall x <- s.members :: graph.Tracks(x))
      && ScanState(Values(word), s) && s.k == |s.ys| && s.gone == {} && s.roots == graph.Legacy(s.members)
      && OutsidersSettled(Values(word), graph, s.members)
      && (forall x <- s.ys :: x in s.roots)
      && k <= |s.us| && (forall i :: 0 <= i < k ==> s.us[i] !in s.roots)
    }

    /** `move_legacy_finalizers`: exactly the unreachable objects with a tp_del move to the
        finalizers list. */
    method MoveLegacyFinalizers(unreachable: int, finalizers: int, ghost us: seq<int>)
      returns (ghost s: Walk)
      requires Valid() && TwoRings(View(), finalizers, [], unreachable, us)
      requires |graph.referents| <= finalizers && |graph.referents| <= unreachable
      requires OutsidersSettled(Values(word), graph, Elements(us))
      requires forall x <- us :: graph.Tracks(x) && Values(word)[x] == H.TENTATIVELY_UNREACHABLE
      modifies this
      ensures Collecting(finalizers, unreachable, s) && s.members == Elements(us)
      ensures s.roots == graph.Legacy(Elements(us))
      ensures Elements(s.ys) == graph.Legacy(Elements(us))
      ensures StepsTo(old(Now()), Now(), s.members + {finalizers, unreachable}, s.members)
    {
      hide TwoRings;
      ghost var members, inside := Elements(us), Elements(us) + {finalizers, unreachable};
      s := Walk(members, graph.Legacy(members), [], 0, us, {});
      ghost var k := 0;
      NothingSorted(finalizers, unreachable, us);
      TwoRingsSymmetric(View(), finalizers, [], unreachable, us);
      NoStep(Now(), inside, members);
      hide Sorting;
      hide Collecting;
      hide StepsTo;
      var gc := FirstOf(unreachable, us, finalizers, []);
      while gc != unreachable
        invariant Sorting(finalizers, unreachable, s, k) && s.members == members
        invariant gc == At(unreachable, s.us, k)
        invariant StepsTo(old(Now()), Now(), inside, members)
        decreases |s.us| - k
      {
        ghost var a := Now();
        SortCursor(finalizers, unreachable, s, k);
        var following := NextOf(gc, unreachable, s.us, k, finalizers, s.ys);
        if graph.legacy[gc] {
          s := MoveOneLegacy(gc, unreachable, finalizers, s, k);
        } else {
          SortKeeps(finalizers, unreachable, s, k);
          k := k + 1;
          NoStep(a, inside, members);
        }
        StepsCompose(old(Now()), a, Now(), inside, members);
        gc := following;
      }
      SortingDone(finalizers, unreachable, s, k);
    }

    method MoveOneLegacy(gc: int, unreachable: int, finalizers: int, ghost s: Walk, ghost k: nat)
      returns (ghost s': Walk)
      requires Sorting(finalizers, unreachable, s, k) && k < |s.us| && s.us[k] == gc && gc in s.roots
      modifies this
      ensures Sorting(finalizers, unreachable, s', k) && s'.members == s.members
      ensures |s'.us| == |s.us| - 1 && At(unreachable, s'.us, k) == At(unreachable, s.us, k + 1)
      ensures StepsTo(old(Now()), Now(), s.members + {finalizers, unreachable}, s.members)
    {
      hide TwoRings;
      hide ScanState;
      H.StatesFit(w);
      VisitCollects(Values(word), s, k);
      SortNodes(finalizers, unreachable, s, k);
      TwoRingsSymmetric(View(), finalizers, s.ys, unreachable, s.us);
      ListMove(gc, finalizers, unreachable, s.us, k, s.ys);
      LinksSameLarger(old(View()), View(), Elements(s.us) + Elements(s.ys) + {unreachable, finalizers},
                      s.members + {finalizers, unreachable});
      SetRefs(gc, H.REACHABLE);
      s' := s.Returned(k).Settled();
      TwoRingsSymmetric(View(), unreachable, s'.us, finalizers, s'.ys);
      assert forall i :: 0 <= i < k ==> s'.us[i] == s.us[i];
    }

    lemma SortNodes(finalizers: int, unreachable: int, s: Walk, k: nat)
      requires Sorting(finalizers, unreachable, s, k)
      ensures Elements(s.us) <= s.members && Elements(s.ys) <= s.members
      ensures k < |s.us| ==> s.us[k] in s.members && Values(word)[s.us[k]] == H.TENTATIVELY_UNREACHABLE
    {
      forall x | x in Elements(s.ys) + Elements(s.us) + s.gone ensures x in s.members {
      }
    }

    lemma NothingSorted(finalizers: int, unreachable: int, us: seq<int>)
      requires Valid() && TwoRings(View(), finalizers, [], unreachable, us)
      requires |graph.referents| <= finalizers && |graph.referents| <= unreachable
      requires OutsidersSettled(Values(word), graph, Elements(us))
      requires forall x <- us :: graph.Tracks(x) && Values(word)[x] == H.TENTATIVELY_UNREACHABLE
      ensures Sorting(finalizers, unreachable, Walk(Elements(us), graph.Legacy(Elements(us)), [], 0, us, {}), 0)
      ensures LinksSame(View(), View(), Elements(us) + {finalizers, unreachable})
    {
      assert Elements([]) + Elements(us) + {} == Elements(us);
    }

    lemma SortCursor(finalizers: int, unreachable: int, s: Walk, k: nat)
      requires Sorting(finalizers, unreachable, s, k) && At(unreachable, s.us, k) != unreachable
      ensures k < |s.us| && s.us[k] == At(unreachable, s.us, k) && 0 <= s.us[k] < |graph.legacy|
      ensures Valid() && TwoRings(View(), unreachable, s.us, finalizers, s.ys) && |next| == |prev|
      ensures graph.legacy[s.us[k]] <==> s.us[k] in s.roots
    {
      assert s.us[k] in s.us;
    }

    lemma SortKeeps(finalizers: int, unreachable: int, s: Walk, k: nat)
      requires Sorting(finalizers, unreachable, s, k) && k < |s.us| && s.us[k] !in s.roots
      ensures Sorting(finalizers, unreachable, s, k + 1)
    {
    }

    lemma SortingDone(finalizers: int, unreachable: int, s: Walk, k: nat)
      requires Sorting(finalizers, unreachable, s, k) && At(unreachable, s.us, k) == unreachable
      ensures Collecting(finalizers, unreachable, s) && Elements(s.ys) == s.roots
    {
      CursorAtEnd(View(), unreachable, s.us, k);
      ScanPartition(Values(word), s);
      forall x | x in s.members ensures x in s.ys <==> x in s.roots {
        if x in s.us {
          var i :| 0 <= i < |s.us| && s.us[i] == x;
        }
        assert x in Elements(s.us) <==> x !in Elements(s.ys) + s.gone;
      }
      assert Elements(s.ys) == s.roots;
    }

    // ---- The deduction phase of collect -------------------------------------------------------------

    // update_refs, subtract_refs, move_unreachable.
    method FindTrash(young: int, unreachable: int, ghost items: seq<int>)
      returns (ghost reachable: seq<int>, ghost trash: seq<int>, ghost untracked: set<int>)
      requires Generation(young, items) && Bounded(graph, Elements(items))
      requires OutsidersSettled(Values(word), graph, Elements(items))
      requires |graph.referents| <= unreachable < |word| && young != unreachable
      modifies this
      ensures Valid() && TwoRings(View(), young, reachable, unreachable, trash)
      ensures SplitBy(graph, Values(word), Elements(items), Elements(reachable), untracked, Elements(trash))
      ensures forall x <- untracked :: graph.IsTuple(x)
      ensures NoneOverlooked(graph, old(Values(word)), Elements(reachable), false)
      ensures Flags(word) == old(Flags(word)) && SameOutside(old(Values(word)), Values(word), Elements(items))
      ensures LinksSame(old(View()), View(), Elements(items) + {young, unreachable})
    {
      hide TwoRings;
      hide IsRing;
      hide NoneOverlooked;
      hide SplitBy;
      UpdateRefs(young, items);
      SubtractRefs(young, items);
      MembersWereTracked(old(Values(word)), Values(word), items);
      ghost var v := Values(word);
      assert forall x <- items :: x < |graph.referents|;
      InitKeepsRing(View(), unreachable, young, items);
      ListInit(unreachable);
      ghost var l := View();
      LinksSameLarger(old(View()), l, {unreachable}, Elements(items) + {young, unreachable});
      reachable, trash, untracked := MoveUnreachable(young, unreachable, items);
      LinksSameTransitive(old(View()), l, View(), Elements(items) + {young, unreachable});
      NoneOverlookedEarlier(graph, old(Values(word)), v, Elements(reachable), false);
    }

    lemma MembersWereTracked(v: seq<int>, v': seq<int>, items: seq<int>)
      requires SameOutside(v, v', Elements(items)) && forall x <- items :: 0 <= x < |v| ==> v[x] != H.UNTRACKED
      ensures StaysUntracked(v, v')
    {
    }

    /** `untrack_dicts` untracks exactly the listed dicts that hold nothing that may be tracked. */
    method UntrackDicts(head: int, ghost items: seq<int>) returns (ghost rest: seq<int>)
      requires Generation(head, items)
      modifies this
      ensures Generation(head, rest)
      ensures var gone := HarmlessDicts(graph, old(Values(word)), Elements(items));
              Elements(rest) == Elements(items) - gone && OnlyGone(old(Now()), Now(), gone)
      ensures LinksSame(old(View()), View(), Elements(items) + {head})
    {
      hide IsRing;
      hide HarmlessDicts;
      hide OnlyGone;
      hide LinksSame;
      ghost var v0, inside := Values(word), Elements(items) + {head};
      NoDictsYet(head, items);
      ghost var i: nat, k: nat := 0, 0;
      rest := items;
      ItemsDistinct(head, items);
      RingEnds(View(), head, items);
      var gc := next[head];
      while gc != head
        invariant Generation(head, rest) && k <= |rest| && gc == At(head, rest, k)
        invariant i <= |items| && rest[k..] == items[i..] && Elements(rest) <= Elements(items)
        invariant Elements(rest[..k]) == Elements(items[..i]) - HarmlessDicts(graph, v0, Elements(items[..i]))
        invariant OnlyGone(old(Now()), Now(), HarmlessDicts(graph, v0, Elements(items[..i])))
        invariant LinksSame(old(View()), View(), inside)
        decreases |items| - i
      {
        ghost var a, before := Now(), rest;
        assert gc == rest[k..][0] == items[i];
        RingItem(View(), head, rest, k);
        var following := next[gc];
        rest, k := UntrackIfDict(gc, head, rest, k);
        gc := following;
        NextDict(old(Now()), a, Now(), items, i);
        LinksSameLarger(a.links, View(), Elements(before) + {head}, inside);
        LinksSameTransitive(old(View()), a.links, View(), inside);
        i := i + 1;
      }
      ItemsDistinct(head, rest);
      assert k == |rest|;
      assert rest[..k] == rest && items[..i] == items;
    }

    lemma NoDictsYet(head: int, items: seq<int>)
      requires |next| == |prev|
      ensures Elements(items[..0]) == HarmlessDicts(graph, Values(word), Elements(items[..0])) == {}
      ensures OnlyGone(Now(), Now(), {}) && LinksSame(View(), View(), Elements(items) + {head})
    {
    }

    method UntrackIfDict(gc: int, head: int, ghost items: seq<int>, ghost k: nat)
      returns (ghost rest: seq<int>, ghost k': nat)
      requires Generation(head, items) && k < |items| && items[k] == gc
      modifies this
      ensures Generation(head, rest) && k' <= |rest| && rest[k'..] == items[k + 1..]
      ensures Elements(rest) <= Elements(items)
      ensures var gone := HarmlessDicts(graph, old(Values(word)), {gc});
              Elements(rest[..k']) == Elements(items[..k]) + ({gc} - gone) && OnlyGone(old(Now()), Now(), gone)
      ensures LinksSame(old(View()), View(), Elements(items) + {head})
    {
      hide IsRing;
      rest, k' := items, k + 1;
      ElementsPrefix(items, k);
      if graph.IsDict(gc) {
        var untracked := MaybeUntrack(gc, head, items, k);
        if untracked {
          rest, k' := items[..k] + items[k + 1..], k;
          assert rest[..k] == items[..k];
        }
      }
    }

    lemma ItemsDistinct(head: int, items: seq<int>)
      requires Generation(head, items)
      ensures Distinct(items) && head !in items
    {
    }

    // The i-th item is judged as it would have been at the start.
    lemma NextDict(a: Store, b: Store, c: Store, items: seq<int>, i: nat)
      requires i < |items| && Distinct(items)
      requires OnlyGone(a, b, HarmlessDicts(graph, a.values, Elements(items[..i])))
      requires OnlyGone(b, c, HarmlessDicts(graph, b.values, {items[i]}))
      ensures OnlyGone(a, c, HarmlessDicts(graph, a.values, Elements(items[..i + 1])))
      ensures Elements(items[..i + 1]) - HarmlessDicts(graph, a.values, Elements(items[..i + 1])) ==
              Elements(items[..i]) - HarmlessDicts(graph, a.values, Elements(items[..i])) +
              ({items[i]} - HarmlessDicts(graph, b.values, {items[i]}))
    {
      ElementsPrefix(items, i);
      DictsAreIndependent(graph, a.values, b.values, items[i]);
      assert items[i] !in Elements(items[..i]);
    }

    // The survivors become part of the next older list; a full collection, where both lists are
    // the same, untracks dicts instead.
    method Retire(young: int, older: int, ghost reachable: seq<int>, ghost olds: seq<int>)
      returns (ghost left: seq<int>, ghost gone: set<int>)
      requires Generation(young, reachable)
      requires young == older ==> olds == []
      requires young != older ==> Generation(older, olds) && Disjoint(young, reachable, older, olds)
      modifies this
      ensures Generation(older, left) && (young != older ==> left == olds + reachable && IsRing(View(), young, []))
      ensures gone == if young != older then {} else HarmlessDicts(graph, old(Values(word)), Elements(reachable))
      ensures Elements(left) == Elements(olds) + (Elements(reachable) - gone) && OnlyGone(old(Now()), Now(), gone)
      ensures LinksSame(old(View()), View(), Elements(reachable) + Elements(olds) + {young, older})
    {
      hide IsRing;
      hide Disjoint;
      gone := {};
      if young != older {
        ListMerge(young, older, reachable, olds);
        left := olds + reachable;
        ElementsConcat(olds, reachable);
        SplitRings(View(), young, [], older, left);
      } else {
        gone := HarmlessDicts(graph, Values(word), Elements(reachable));
        left := UntrackDicts(young, reachable);
        LinksSameLarger(old(View()), View(), Elements(reachable) + {young},
                        Elements(reachable) + Elements(olds) + {young, older});
      }
    }

    // move_legacy_finalizers, move_legacy_finalizer_reachable.
    method SeparateLegacy(unreachable: int, finalizers: int, ghost trash: seq<int>)
      returns (ghost garbage: seq<int>, ghost kept: seq<int>)
      requires Valid() && IsRing(View(), unreachable, trash) && |graph.referents| <= unreachable
      requires OutsidersSettled(Values(word), graph, Elements(trash))
      requires forall x <- trash :: graph.Tracks(x) && Values(word)[x] == H.TENTATIVELY_UNREACHABLE
      requires |graph.referents| <= finalizers < |word| && unreachable != finalizers
      modifies this
      ensures Valid() && TwoRings(View(), finalizers, kept, unreachable, garbage)
      ensures IsReachable(graph.referents, Elements(trash), graph.Legacy(Elements(trash)), Elements(kept))
      ensures Elements(garbage) == Elements(trash) - Elements(kept)
      ensures forall x <- kept :: graph.Tracks(x) && Values(word)[x] == H.REACHABLE
      ensures forall x <- garbage :: graph.Tracks(x) && Values(word)[x] == H.TENTATIVELY_UNREACHABLE
      ensures StepsTo(old(Now()), Now(), Elements(trash) + {finalizers, unreachable}, Elements(trash))
    {
      hide TwoRings;
      hide Collecting;
      hide IsReachable;
      ghost var members, inside := Elements(trash), Elements(trash) + {finalizers, unreachable};
      assert forall x <- trash :: x < |graph.referents|;
      InitKeepsRing(View(), finalizers, unreachable, trash);
      ListInit(finalizers);
      ghost var l := View();
      TwoRingsSymmetric(l, unreachable, trash, finalizers, []);
      LinksSameLarger(old(View()), l, {finalizers}, inside);
      ghost var s := MoveLegacyFinalizers(unreachable, finalizers, trash);
      LinksSameTransitive(old(View()), l, View(), inside);
      l := View();
      kept, garbage := MoveLegacyFinalizerReachable(finalizers, unreachable, s);
      LinksSameTransitive(old(View()), l, View(), inside);
    }

    // The first half of the deduction phase: what is reachable goes to the next older list.
    method RetireReachable(young: int, older: int, unreachable: int, ghost items: seq<int>, ghost olds: seq<int>)
      returns (ghost left: seq<int>, ghost listed: set<int>, ghost untracked: set<int>, ghost trash: seq<int>)
      requires Generation(young, items) && Bounded(graph, Elements(items))
      requires young == older ==> olds == []
      requires young != older ==> Generation(older, olds) && Disjoint(young, items, older, olds)
      requires OutsidersSettled(Values(word), graph, Elements(items))
      requires |graph.referents| <= unreachable < |word| && unreachable != young && unreachable != older
      modifies this
      ensures SplitBy(graph, Values(word), Elements(items), listed, untracked, Elements(trash))
      ensures forall x <- untracked :: 0 <= x < |graph.kinds| &&
                (graph.kinds[x].ExactTuple? || (young == older && graph.kinds[x].ExactDict?))
      ensures NoneOverlooked(graph, old(Values(word)), listed, young == older)
      ensures Generation(older, left) && Elements(left) == Elements(olds) + listed
      ensures young != older ==> olds <= left && IsRing(View(), young, [])
      ensures IsRing(View(), unreachable, trash) && forall x <- trash :: x !in left
      ensures Flags(word) == old(Flags(word))
      ensures SameOutside(old(Values(word)), Values(word), Elements(items))
      ensures LinksSame(old(View()), View(), Elements(items) + Elements(olds) + {young, older, unreachable})
    {
      hide TwoRings;
      hide IsRing;
      hide SplitBy;
      hide LinksSame;
      hide Disjoint;
      hide HarmlessDicts;
      hide NoneOverlooked;
      ghost var members, all := Elements(items), Elements(items) + Elements(olds) + {young, older, unreachable};
      OldersStay(young, older, items, olds);
      ghost var reachable, tuples, gone;
      reachable, trash, tuples := FindTrash(young, unreachable, items);
      ghost var l, v := View(), Values(word);
      LinksSameLarger(old(View()), l, members + {young, unreachable}, all);
      BeforeRetiring(young, older, unreachable, items, olds, reachable, tuples, trash, old(View()));
      left, gone := Retire(young, older, reachable, olds);
      assert forall x <- left :: x in Elements(left);
      LinksSameLarger(l, View(), Elements(reachable) + Elements(olds) + {young, older}, all);
      LinksSameTransitive(old(View()), l, View(), all);
      LinksSameRing(l, View(), Elements(reachable) + Elements(olds) + {young, older}, unreachable, trash);
      listed, untracked := Elements(reachable) - gone, tuples + gone;
      AfterRetiring(v, members, Elements(reachable), tuples, Elements(trash), gone, young == older);
      MembersWereTracked(old(Values(word)), v, items);
      DictsNotOverlooked(old(Values(word)), v, Elements(reachable), gone, young == older);
    }

    lemma DictsNotOverlooked(v: seq<int>, v': seq<int>, reachable: set<int>, gone: set<int>, full: bool)
      requires StaysUntracked(v, v') && NoneOverlooked(graph, v, reachable, false)
      requires gone == if full then HarmlessDicts(graph, v', reachable) else {}
      ensures NoneOverlooked(graph, v, reachable - gone, full)
    {
      forall x | x in reachable && full && graph.IsDict(x) && graph.Untrackable(v, x) ensures x in gone {
        UntrackableStays(graph, v, v', {x});
      }
    }

    lemma OldersStay(young: int, older: int, items: seq<int>, olds: seq<int>)
      requires Generation(young, items) && (young == older ==> olds == [])
      requires young != older ==> Generation(older, olds) && Disjoint(young, items, older, olds)
      ensures Valid() && |graph.referents| <= young && |graph.referents| <= older
      ensures forall x <- Elements(items) :: 0 <= x < |graph.refcnt| && x !in olds
      ensures forall x <- olds :: graph.Tracks(x) && Values(word)[x] != H.UNTRACKED
      ensures older != young ==> IsRing(View(), older, olds)
      ensures forall x <- items :: graph.Tracks(x) && Values(word)[x] != H.UNTRACKED
    {
    }

    lemma BeforeRetiring(young: int, older: int, unreachable: int, items: seq<int>, olds: seq<int>,
                         reachable: seq<int>, tuples: set<int>, trash: seq<int>, l: Links)
      requires Valid() && |graph.referents| <= young && |graph.referents| <= older
      requires |graph.referents| <= unreachable && unreachable != young && unreachable != older
      requires forall x <- Elements(items) :: 0 <= x < |graph.refcnt| && x !in olds
      requires forall x <- olds :: graph.Tracks(x) && Values(word)[x] != H.UNTRACKED
      requires young != older ==> IsRing(l, older, olds)
      requires LinksSame(l, View(), Elements(items) + {young, unreachable})
      requires TwoRings(View(), young, reachable, unreachable, trash)
      requires SplitBy(graph, Values(word), Elements(items), Elements(reachable), tuples, Elements(trash))
      ensures Generation(young, reachable) && IsRing(View(), unreachable, trash)
      ensures young != older ==> Generation(older, olds) && Disjoint(young, reachable, older, olds)
      ensures Elements(reachable) <= Elements(items) && unreachable !in Elements(reachable) + Elements(olds)
      ensures forall x <- trash :: x !in Elements(reachable) + Elements(olds) + {young, older}
    {
      hide IsReachable;
      hide AllUntrackable;
      hide IsRing;
      assert Elements(reachable) + tuples <= Elements(items) by {
        ReachableInside(Elements(items), Elements(reachable) + tuples);
      }
      SplitRings(View(), young, reachable, unreachable, trash);
      assert forall x <- reachable :: x in Elements(reachable);
      assert forall x <- trash :: x in Elements(trash);
      if young != older {
        LinksSameRing(l, View(), Elements(items) + {young, unreachable}, older, olds);
      }
    }

    lemma ReachableInside(members: set<int>, r: set<int>)
      requires forall x <- members :: 0 <= x < |graph.refcnt|
      requires IsReachable(graph.referents, members, Roots(graph, members), r)
      ensures r <= members
    {
    }

    lemma AfterRetiring(v: seq<int>, members: set<int>, reachable: set<int>, tuples: set<int>, trash: set<int>,
                        gone: set<int>, full: bool)
      requires forall x <- members :: 0 <= x < |graph.refcnt|
      requires SplitBy(graph, v, members, reachable, tuples, trash)
      requires gone == if full then HarmlessDicts(graph, v, reachable) else {}
      requires |word| == |v| && forall x :: 0 <= x < |word| ==>
                 Values(word)[x] == if x in gone then H.UNTRACKED else v[x]
      ensures SplitBy(graph, Values(word), members, reachable - gone, tuples + gone, trash)
      ensures SameOutside(v, Values(word), members)
      ensures forall x <- gone :: full && graph.IsDict(x) && x in reachable
    {
      DictsLeave(graph, v, Values(word), members, reachable, tuples, trash, gone);
      ReachableInside(members, reachable + tuples);
    }

    /** The deduction phase of `collect`. The objects reachable from outside the generation end up
        in the next older list, behind what it held, except for tuples, and in a full collection
        dicts, that hold nothing that may be tracked: these are untracked, among them all that held
        nothing of the kind when the collection began. Of the other objects, the finalizers list
        gets exactly those reachable from an object with a tp_del, and the unreachable list all the
        rest, to which every reference counted anywhere comes from among themselves. No finalized
        flag, no header outside the generation and no other list changes. */
    method DeduceUnreachable(young: int, older: int, unreachable: int, finalizers: int,
                             ghost items: seq<int>, ghost olds: seq<int>)
      returns (ghost left: seq<int>, ghost listed: set<int>, ghost untracked: set<int>,
               ghost garbage: seq<int>, ghost kept: seq<int>)
      requires Generation(young, items) && Bounded(graph, Elements(items))
      requires young == older ==> olds == []
      requires young != older ==> Generation(older, olds) && Disjoint(young, items, older, olds)
      requires OutsidersSettled(Values(word), graph, Elements(items))
      requires |graph.referents| <= unreachable < |word| && |graph.referents| <= finalizers < |word|
      requires unreachable != finalizers && {young, older} !! {unreachable, finalizers}
      modifies this
      ensures Deduced(graph, Values(word), Elements(items), listed, untracked, Elements(garbage), Elements(kept))
      ensures ClosedGarbage(graph, Elements(garbage))
      ensures forall x <- untracked :: 0 <= x < |graph.kinds| &&
                (graph.kinds[x].ExactTuple? || (young == older && graph.kinds[x].ExactDict?))
      ensures NoneOverlooked(graph, old(Values(word)), listed, young == older)
      ensures Generation(older, left) && Elements(left) == Elements(olds) + listed
      ensures young != older ==> olds <= left && IsRing(View(), young, [])
      ensures IsRing(View(), unreachable, garbage) && IsRing(View(), finalizers, kept)
      ensures Flags(word) == old(Flags(word)) && SameOutside(old(Values(word)), Values(word), Elements(items))
      ensures LinksSame(old(View()), View(),
                        Elements(items) + Elements(olds) + {young, older, unreachable, finalizers})
    {
      hide TwoRings;
      hide IsRing;
      hide IsReachable;
      hide LinksSame;
      hide Grows;
      hide SplitBy;
      hide Deduced;
      hide OutsidersSettled;
      hide NoneOverlooked;
      ghost var members := Elements(items);
      ghost var all := members + Elements(olds) + {young, older, unreachable, finalizers};
      ghost var trash;
      left, listed, untracked, trash := RetireReachable(young, older, unreachable, items, olds);
      ghost var l, v := View(), Values(word);
      OnlyTrash(old(Values(word)), v, members, listed, untracked, trash);
      LinksSameLarger(old(View()), l, members + Elements(olds) + {young, older, unreachable}, all);
      garbage, kept := SeparateLegacy(unreachable, finalizers, trash);
      ghost var inside := Elements(trash) + {finalizers, unreachable};
      LinksSameLarger(l, View(), inside, all);
      LinksSameTransitive(old(View()), l, View(), all);
      SplitRings(View(), finalizers, kept, unreachable, garbage);
      LinksSameRing(l, View(), inside, older, left);
      if young != older {
        LinksSameRing(l, View(), inside, young, []);
      }
      LegacyApart(graph, v, Values(word), members, listed, untracked, Elements(trash), Elements(garbage),
                  Elements(kept));
      TrashIsolated(v, members, listed, untracked, Elements(trash), Elements(kept));
    }

    lemma OnlyTrash(v0: seq<int>, v: seq<int>, members: set<int>, listed: set<int>, untracked: set<int>,
                    trash: seq<int>)
      requires forall x <- members :: 0 <= x < |graph.refcnt|
      requires SplitBy(graph, v, members, listed, untracked, Elements(trash))
      requires OutsidersSettled(v0, graph, members) && SameOutside(v0, v, members)
      ensures OutsidersSettled(v, graph, Elements(trash)) && Elements(trash) <= members
      ensures forall x <- trash :: graph.Tracks(x) && x < |v| && v[x] == H.TENTATIVELY_UNREACHABLE
    {
      hide IsReachable;
      assert forall x <- trash :: x in Elements(trash);
    }

    lemma TrashIsolated(v: seq<int>, members: set<int>, listed: set<int>, untracked: set<int>, trash: set<int>,
                        kept: set<int>)
      requires Bounded(graph, members) && |graph.referents| == |graph.refcnt|
      requires SplitBy(graph, v, members, listed, untracked, trash)
      requires IsReachable(graph.referents, trash, graph.Legacy(trash), kept)
      ensures ClosedGarbage(graph, trash - kept)
    {
      hide IsReachable;
      hide Bounded;
      CollectableIsIsolated(graph, members, listed + untracked, graph.Legacy(trash), kept);
    }
  }
}
