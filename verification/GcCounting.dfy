/** The heap as the cycle collector of Modules/gcmodule.c sees it, and the arithmetic of its first
    two passes: copying every reference count and subtracting the internal references leaves the
    number of references from outside. */
module GcCounting {
  import opened Bits
  import opened Enumerations
  import opened GcReachability
  import opened Pointers
  import H = GcHeader
  import RefGraph

  // What the collector asks of an object's type: the exact tuples and dicts can be untracked.
  datatype Kind = ExactTuple | ExactDict | OtherKind

  // The slots tp_traverse visits (empty ones hold NULL and are skipped), ob_refcnt,
  // PyObject_IS_GC, the type, and whether there is a tp_del, of every object.
  datatype ObjectGraph = ObjectGraph(referents: seq<seq<int>>, refcnt: seq<int>, isGc: seq<bool>,
                                     kinds: seq<Kind>, legacy: seq<bool>)
  {
    ghost predicate WellFormed(w: nat) {
      && w >= 4
      && |referents| == |refcnt| == |isGc| == |kinds| == |legacy|
      && (forall x, i :: 0 <= x < |referents| && 0 <= i < |referents[x]| ==>
            referents[x][i] == NULL || 0 <= referents[x][i] < |referents|)
      && (forall x :: 0 <= x < |refcnt| ==> H.Fits(refcnt[x], w))
    }

    predicate Tracks(x: int) {
      0 <= x < |referents| && x < |isGc| && isGc[x]
    }

    predicate IsTuple(x: int) {
      0 <= x < |kinds| && kinds[x].ExactTuple?
    }

    predicate IsDict(x: int) {
      0 <= x < |kinds| && kinds[x].ExactDict?
    }

    // _PyObject_GC_MAY_BE_TRACKED, v being the states in the headers.
    predicate MayBeTracked(v: seq<int>, c: int) {
      Tracks(c) && (IsTuple(c) ==> c < |v| && v[c] != H.UNTRACKED)
    }

    // A complete tuple, or a dict, none of whose contents may be tracked.
    ghost predicate Untrackable(v: seq<int>, x: int) {
      && 0 <= x < |referents| && (IsTuple(x) || IsDict(x))
      && forall i :: 0 <= i < |referents[x]| ==> Harmless(v, x, referents[x][i])
    }

    ghost function Legacy(members: set<int>): set<int> {
      set x | x in members && 0 <= x < |legacy| && legacy[x]
    }

    predicate Harmless(v: seq<int>, x: int, c: int) {
      if c == NULL then !IsTuple(x) else !MayBeTracked(v, c)
    }
  }

  // The counts or states, and the finalized flags, in a sequence of header words.
  ghost function Values(word: seq<int>): (v: seq<int>)
    ensures |v| == |word|
  {
    seq(|word|, i requires 0 <= i < |word| => H.Refs(word[i]))
  }

  ghost function Flags(word: seq<int>): (f: seq<bool>)
    ensures |f| == |word|
  {
    seq(|word|, i requires 0 <= i < |word| => H.Finalized(word[i]))
  }

  ghost predicate AreWords(word: seq<int>, w: nat)
    requires w > 0
  {
    forall i :: 0 <= i < |word| ==> H.IsWord(word[i], w)
  }

  // How often an object is referenced from outside a set of objects.
  ghost function External(g: ObjectGraph, members: set<int>, x: int): int
    requires 0 <= x < |g.refcnt|
  {
    g.refcnt[x] - RefGraph.Refs(g.referents, members)[x]
  }

  ghost function Roots(g: ObjectGraph, members: set<int>): set<int>
    requires forall x <- members :: 0 <= x < |g.refcnt|
  {
    set x | x in members && External(g, members, x) > 0
  }

  lemma FitsIsWord(v: int, w: nat)
    requires w >= 4 && H.Fits(v, w)
    ensures H.IsWord(v, w)
  {
    Pow2Monotone(w - 2, w - 1);
  }

  // ---- Counting internal references --------------------------------------------------------------

  // No object has fewer owners than the references the members hold to it.
  ghost predicate Bounded(g: ObjectGraph, members: set<int>) {
    forall x <- members :: 0 <= x < |g.refcnt| && RefGraph.Refs(g.referents, members)[x] <= g.refcnt[x]
  }

  // Between collections every other tracked or untracked object is in one of two states.
  ghost predicate OutsidersSettled(v: seq<int>, g: ObjectGraph, members: set<int>) {
    forall x :: 0 <= x < |v| && g.Tracks(x) && x !in members ==> v[x] == H.UNTRACKED || v[x] == H.REACHABLE
  }

  ghost predicate SameOutside(v: seq<int>, v': seq<int>, members: set<int>) {
    |v| == |v'| && forall x :: 0 <= x < |v| && x !in members ==> v'[x] == v[x]
  }

  lemma SameOutsideTransitive(a: seq<int>, b: seq<int>, c: seq<int>, members: set<int>)
    requires SameOutside(a, b, members) && SameOutside(b, c, members)
    ensures SameOutside(a, c, members)
  {
  }

  // The counts of the members, less the references of the processed containers and of the
  // visited part of the next one.
  ghost predicate CountsLeft(v: seq<int>, g: ObjectGraph, members: set<int>, processed: set<int>, visited: seq<int>) {
    forall x <- members :: 0 <= x < |v| && x < |g.refcnt| &&
      v[x] == g.refcnt[x] - RefGraph.Refs(g.referents, processed)[x] - multiset(visited)[x]
  }

  lemma VisitSubtracts(v: seq<int>, g: ObjectGraph, members: set<int>, processed: set<int>, x: int, j: nat)
    requires Bounded(g, members) && |g.referents| == |g.refcnt|
    requires x in members && x !in processed && processed <= members
    requires 0 <= x < |g.referents| && j < |g.referents[x]|
    requires CountsLeft(v, g, members, processed, g.referents[x][..j])
    ensures var c := g.referents[x][j];
            if c in members then
              0 <= c < |v| && v[c] > 0 &&
              CountsLeft(v[c := v[c] - 1], g, members, processed, g.referents[x][..j + 1])
            else CountsLeft(v, g, members, processed, g.referents[x][..j + 1])
  {
    hide RefGraph.Refs;
    var slots, c := g.referents[x], g.referents[x][j];
    assert slots[..j + 1] == slots[..j] + [c];
    assert slots == slots[..j] + [c] + slots[j + 1..];
    if c in members {
      RefGraph.RefsWithout(g.referents, processed + {x}, x);
      assert processed + {x} - {x} == processed;
      RefGraph.RefsMonotone(g.referents, processed + {x}, members);
      assert multiset(slots)[c] >= multiset(slots[..j])[c] + 1;
    }
  }

  lemma ContainerDone(v: seq<int>, g: ObjectGraph, members: set<int>, processed: set<int>, x: int)
    requires x !in processed && 0 <= x < |g.referents|
    requires CountsLeft(v, g, members, processed, g.referents[x])
    ensures CountsLeft(v, g, members, processed + {x}, [])
  {
    RefGraph.RefsWithout(g.referents, processed + {x}, x);
    assert processed + {x} - {x} == processed;
  }

  // Every reference to a member, counted in its ob_refcnt, comes from a member.
  ghost predicate ClosedGarbage(g: ObjectGraph, members: set<int>) {
    forall x <- members :: 0 <= x < |g.refcnt| && g.refcnt[x] == RefGraph.Refs(g.referents, members)[x]
  }

  /** What the detector leaves unreachable is closed garbage: every reference to such an object,
      counted in its ob_refcnt, comes from another such object. */
  lemma GarbageIsIsolated(g: ObjectGraph, members: set<int>, r: set<int>)
    requires Bounded(g, members) && |g.referents| == |g.refcnt|
    requires IsReachable(g.referents, members, Roots(g, members), r)
    ensures ClosedGarbage(g, members - r)
  {
    assert members == r + (members - r);
    RefGraph.RefsUnion(g.referents, r, members - r);
    forall x | x in members - r
      ensures 0 <= x < |g.refcnt| && g.refcnt[x] == RefGraph.Refs(g.referents, members - r)[x]
    {
      assert x !in Roots(g, members);
      RefGraph.RefsMember(g.referents, r, x);
    }
  }

  /** The same still holds of what remains when everything reachable from some of the garbage is
      kept: what the collector then clears, nothing else refers to. */
  lemma CollectableIsIsolated(g: ObjectGraph, members: set<int>, r: set<int>, roots: set<int>, kept: set<int>)
    requires Bounded(g, members) && |g.referents| == |g.refcnt|
    requires IsReachable(g.referents, members, Roots(g, members), r)
    requires IsReachable(g.referents, members - r, roots, kept)
    ensures ClosedGarbage(g, members - r - kept)
  {
    GarbageIsIsolated(g, members, r);
    var trash := members - r;
    assert trash == kept + (trash - kept);
    RefGraph.RefsUnion(g.referents, kept, trash - kept);
    forall x | x in trash - kept
      ensures 0 <= x < |g.refcnt| && g.refcnt[x] == RefGraph.Refs(g.referents, trash - kept)[x]
    {
      RefGraph.RefsMember(g.referents, kept, x);
    }
  }

  // ---- Untracked containers ---------------------------------------------------------------------

  ghost predicate AllUntrackable(g: ObjectGraph, v: seq<int>, xs: set<int>) {
    forall x <- xs :: g.Untrackable(v, x)
  }

  ghost predicate StaysUntracked(v: seq<int>, v': seq<int>) {
    |v'| == |v| && forall x :: 0 <= x < |v| && v[x] == H.UNTRACKED ==> v'[x] == H.UNTRACKED
  }

  // What could be untracked stays so as long as nothing is tracked again.
  lemma UntrackableStays(g: ObjectGraph, v: seq<int>, v': seq<int>, xs: set<int>)
    requires AllUntrackable(g, v, xs) && StaysUntracked(v, v')
    ensures AllUntrackable(g, v', xs)
  {
    forall x | x in xs ensures g.Untrackable(v', x) {
      assert g.Untrackable(v, x);
      forall i | 0 <= i < |g.referents[x]| ensures g.Harmless(v', x, g.referents[x][i]) {
        assert g.Harmless(v, x, g.referents[x][i]);
      }
    }
  }

  // x is untracked too, and so could be all the others.
  lemma OneGone(g: ObjectGraph, v: seq<int>, xs: set<int>, x: int)
    requires AllUntrackable(g, v, xs) && g.Untrackable(v, x) && x < |v|
    ensures AllUntrackable(g, v[x := H.UNTRACKED], xs + {x})
  {
    UntrackableStays(g, v, v[x := H.UNTRACKED], xs + {x});
  }

  // The dicts among xs that hold nothing that may be tracked.
  ghost function HarmlessDicts(g: ObjectGraph, v: seq<int>, xs: set<int>): set<int> {
    set x | x in xs && g.IsDict(x) && g.Untrackable(v, x)
  }

  // Whether a dict can be untracked does not depend on which other dicts are tracked.
  lemma DictsAreIndependent(g: ObjectGraph, v: seq<int>, v': seq<int>, x: int)
    requires |v'| == |v| && forall c :: 0 <= c < |v| && !g.IsDict(c) ==> v'[c] == v[c]
    ensures g.Untrackable(v', x) <==> g.Untrackable(v, x)
  {
    if 0 <= x < |g.referents| {
      forall i | 0 <= i < |g.referents[x]|
        ensures g.Harmless(v', x, g.referents[x][i]) <==> g.Harmless(v, x, g.referents[x][i])
      {
      }
    }
  }

  // No tuple among xs, and no dict in a full collection, could have been untracked in state v.
  ghost predicate NoneOverlooked(g: ObjectGraph, v: seq<int>, xs: set<int>, full: bool) {
    forall x <- xs :: 0 <= x < |g.kinds| && (g.kinds[x].ExactTuple? || (full && g.kinds[x].ExactDict?)) ==>
      !g.Untrackable(v, x)
  }

  lemma NoneOverlookedEarlier(g: ObjectGraph, v: seq<int>, v': seq<int>, xs: set<int>, full: bool)
    requires StaysUntracked(v, v') && NoneOverlooked(g, v', xs, full)
    ensures NoneOverlooked(g, v, xs, full)
  {
    forall x | x in xs && g.Untrackable(v, x) ensures g.Untrackable(v', x) {
      UntrackableStays(g, v, v', {x});
    }
  }

  lemma NoneOverlookedAgain(g: ObjectGraph, v: seq<int>, v': seq<int>, before: set<int>, after: set<int>, full: bool)
    requires StaysUntracked(v, v') && NoneOverlooked(g, v, before, full)
    requires NoneOverlooked(g, v', after - before, full)
    ensures NoneOverlooked(g, v, after, full)
  {
    NoneOverlookedEarlier(g, v, v', after - before, full);
  }

  // A generation after the walk: what stays listed, what was untracked, and what is trash.
  ghost predicate SplitBy(g: ObjectGraph, v: seq<int>, members: set<int>, listed: set<int>, untracked: set<int>,
                          trash: set<int>)
    requires forall x <- members :: 0 <= x < |g.refcnt|
  {
    && IsReachable(g.referents, members, Roots(g, members), listed + untracked)
    && listed !! untracked && trash == members - (listed + untracked)
    && (forall x <- listed :: g.Tracks(x) && x < |v| && v[x] == H.REACHABLE)
    && (forall x <- trash :: g.Tracks(x) && x < |v| && v[x] == H.TENTATIVELY_UNREACHABLE)
    && (forall x <- untracked :: g.Tracks(x) && x < |v| && v[x] == H.UNTRACKED)
    && AllUntrackable(g, v, untracked)
  }

  // Untracking harmless dicts changes neither what is reachable nor what is trash.
  lemma DictsLeave(g: ObjectGraph, v: seq<int>, v': seq<int>, members: set<int>, listed: set<int>,
                   untracked: set<int>, trash: set<int>, gone: set<int>)
    requires forall x <- members :: 0 <= x < |g.refcnt|
    requires SplitBy(g, v, members, listed, untracked, trash) && gone <= HarmlessDicts(g, v, listed)
    requires |v'| == |v| && forall x :: 0 <= x < |v| ==> v'[x] == if x in gone then H.UNTRACKED else v[x]
    ensures SplitBy(g, v', members, listed - gone, untracked + gone, trash)
  {
    hide IsReachable;
    assert listed - gone + (untracked + gone) == listed + untracked;
    UntrackableStays(g, v, v', untracked + gone);
  }

  // A generation after the deduction phase: the objects that stay, the containers that were
  // untracked, the garbage, and what is kept for the sake of legacy finalizers.
  ghost predicate Deduced(g: ObjectGraph, v: seq<int>, members: set<int>, listed: set<int>, untracked: set<int>,
                          garbage: set<int>, kept: set<int>)
    requires forall x <- members :: 0 <= x < |g.refcnt|
  {
    var trash := members - (listed + untracked);
    && IsReachable(g.referents, members, Roots(g, members), listed + untracked)
    && IsReachable(g.referents, trash, (set y | y in trash && 0 <= y < |g.legacy| && g.legacy[y]), kept)
    && garbage == trash - kept && listed !! untracked && AllUntrackable(g, v, untracked)
    && (forall x <- members :: x < |v| &&
          v[x] == if x in untracked then -2 else if x in garbage then -4 else -3)
  }

  lemma LegacyApart(g: ObjectGraph, v: seq<int>, v': seq<int>, members: set<int>, listed: set<int>,
                    untracked: set<int>, trash: set<int>, garbage: set<int>, kept: set<int>)
    requires forall x <- members :: 0 <= x < |g.refcnt|
    requires SplitBy(g, v, members, listed, untracked, trash)
    requires Grows(v, v') && SameOutside(v, v', trash)
    requires IsReachable(g.referents, trash, g.Legacy(trash), kept) && garbage == trash - kept
    requires forall x <- kept :: 0 <= x < |v'| && v'[x] == H.REACHABLE
    requires forall x <- garbage :: 0 <= x < |v'| && v'[x] == H.TENTATIVELY_UNREACHABLE
    ensures Deduced(g, v', members, listed, untracked, garbage, kept)
  {
    UntrackableStays(g, v, v', untracked);
    hide IsReachable;
    hide AllUntrackable;
    forall x | x in members
      ensures x < |v'|
      ensures v'[x] == if x in untracked then H.UNTRACKED
                       else if x in garbage then H.TENTATIVELY_UNREACHABLE else H.REACHABLE
    {
      assert x in listed || x in untracked || x in garbage || x in kept;
    }
  }

  // ---- What untracking means ---------------------------------------------------------------------

  // An object that is not the collector's, or an exact tuple that it has untracked.
  ghost predicate IsLeaf(g: ObjectGraph, v: seq<int>, c: int) {
    && 0 <= c < |g.isGc| && c < |g.kinds| && c < |v|
    && (g.isGc[c] ==> g.kinds[c].ExactTuple? && v[c] == -2)
  }

  // Objects without tp_traverse hold nothing, and an untracked tuple is complete and holds leaves
  // only.
  ghost predicate UntrackedIsHarmless(g: ObjectGraph, v: seq<int>) {
    && |g.isGc| == |g.kinds| == |g.referents| <= |v|
    && forall x :: 0 <= x < |g.referents| && IsLeaf(g, v, x) ==>
         (!g.isGc[x] ==> g.referents[x] == []) && forall c <- g.referents[x] :: IsLeaf(g, v, c)
  }

  // A chain of references from x to an object.
  ghost predicate IsChain(referents: seq<seq<int>>, x: int, p: seq<int>) {
    && |p| > 1 && p[0] == x && p[|p| - 1] != NULL
    && forall i :: 0 <= i < |p| - 1 ==> Refers(referents, p[i], p[i + 1])
  }

  ghost predicate ReachesOnlyLeaves(g: ObjectGraph, v: seq<int>, x: int) {
    forall p: seq<int> :: IsChain(g.referents, x, p) ==> IsLeaf(g, v, p[|p| - 1])
  }

  lemma HarmlessIsLeaf(g: ObjectGraph, v: seq<int>, x: int, c: int)
    requires |g.isGc| == |g.kinds| == |g.referents| <= |v|
    requires c == NULL || 0 <= c < |g.referents|
    requires 0 <= x < |g.kinds| && !g.kinds[x].OtherKind?
    ensures g.Harmless(v, x, c) <==> IsLeaf(g, v, c) || (c == NULL && g.kinds[x].ExactDict?)
  {
  }

  lemma {:induction false} ChainEndsAtLeaf(g: ObjectGraph, v: seq<int>, x: int, p: seq<int>)
    requires UntrackedIsHarmless(g, v) && IsChain(g.referents, x, p)
    requires 0 <= x < |g.referents| && forall c <- g.referents[x] :: c == NULL || IsLeaf(g, v, c)
    ensures IsLeaf(g, v, p[|p| - 1])
    decreases |p|
  {
    var n := |p| - 1;
    assert Refers(g.referents, p[n - 1], p[n]);
    if n > 1 {
      var q := p[..n];
      assert Refers(g.referents, p[n - 2], p[n - 1]);
      forall i | 0 <= i < |q| - 1 ensures Refers(g.referents, q[i], q[i + 1]) {
        assert Refers(g.referents, p[i], p[i + 1]);
      }
      ChainEndsAtLeaf(g, v, x, q);
    }
  }

  lemma FirstChain(g: ObjectGraph, v: seq<int>, x: int, c: int)
    requires ReachesOnlyLeaves(g, v, x) && 0 <= x < |g.referents| && c in g.referents[x] && c != NULL
    ensures IsLeaf(g, v, c)
  {
    assert IsChain(g.referents, x, [x, c]);
  }

  /** What makes a container untrackable: all objects that chains of references lead to from it are
      ones the collector does not know or tuples it has untracked, and a tuple has no element
      missing. */
  lemma UntrackableIff(g: ObjectGraph, v: seq<int>, w: nat, x: int)
    requires g.WellFormed(w) && UntrackedIsHarmless(g, v)
    requires 0 <= x < |g.referents| && !g.kinds[x].OtherKind?
    ensures g.Untrackable(v, x) <==>
            (g.kinds[x].ExactTuple? ==> NULL !in g.referents[x]) && ReachesOnlyLeaves(g, v, x)
  {
    if g.Untrackable(v, x) {
      forall c | c in g.referents[x] ensures IsLeaf(g, v, c) || (c == NULL && g.kinds[x].ExactDict?) {
        var i :| 0 <= i < |g.referents[x]| && g.referents[x][i] == c;
        assert g.Harmless(v, x, g.referents[x][i]);
        HarmlessIsLeaf(g, v, x, c);
      }
      forall p: seq<int> | IsChain(g.referents, x, p) ensures IsLeaf(g, v, p[|p| - 1]) {
        ChainEndsAtLeaf(g, v, x, p);
      }
    }
    if ReachesOnlyLeaves(g, v, x) && (g.kinds[x].ExactTuple? ==> NULL !in g.referents[x]) {
      forall i | 0 <= i < |g.referents[x]| ensures g.Harmless(v, x, g.referents[x][i]) {
        var c := g.referents[x][i];
        HarmlessIsLeaf(g, v, x, c);
        if c != NULL {
          FirstChain(g, v, x, c);
        }
      }
    }
  }

  /** A tracked container that can be untracked is part of no reference cycle. */
  lemma UntrackableIsOnNoCycle(g: ObjectGraph, v: seq<int>, w: nat, x: int, p: seq<int>)
    requires g.WellFormed(w) && UntrackedIsHarmless(g, v) && g.Untrackable(v, x) && !IsLeaf(g, v, x)
    requires IsChain(g.referents, x, p)
    ensures p[|p| - 1] != x
  {
    UntrackableIff(g, v, w, x);
  }

  /** The deduction phase leaves it true that untracked tuples are complete and hold leaves only. */
  lemma UntrackedStaysHarmless(g: ObjectGraph, v: seq<int>, v': seq<int>, w: nat, members: set<int>,
                               listed: set<int>, untracked: set<int>, garbage: set<int>, kept: set<int>)
    requires g.WellFormed(w)
    requires forall x <- members :: 0 <= x < |g.refcnt| && g.Tracks(x) && x < |v| && v[x] != H.UNTRACKED
    requires UntrackedIsHarmless(g, v) && SameOutside(v, v', members)
    requires Deduced(g, v', members, listed, untracked, garbage, kept)
    ensures UntrackedIsHarmless(g, v')
  {
    hide IsReachable;
    forall x, c | 0 <= x < |g.referents| && IsLeaf(g, v', x) && c in g.referents[x] ensures IsLeaf(g, v', c) {
      if x in members {
        var i :| 0 <= i < |g.referents[x]| && g.referents[x][i] == c;
        assert g.Untrackable(v', x);
        assert g.Harmless(v', x, g.referents[x][i]);
        HarmlessIsLeaf(g, v', x, c);
      } else {
        assert IsLeaf(g, v, x) && IsLeaf(g, v, c);
      }
    }
  }

  // ---- Looking up a visited object ----------------------------------------------------------------

  lemma FindParked(v: seq<int>, s: Walk, c: int) returns (m: nat)
    requires ScanState(v, s) && c in s.members && 0 <= c < |v| && v[c] == H.TENTATIVELY_UNREACHABLE
    ensures m < |s.us| && s.us[m] == c
  {
    assert c in Elements(s.ys) + Elements(s.us) + s.gone;
    m :| m < |s.us| && s.us[m] == c;
  }

  lemma OthersMarked(v: seq<int>, s: Walk, c: int)
    requires ScanState(v, s) && 0 <= c < |v|
    requires v[c] != H.TENTATIVELY_UNREACHABLE && (v[c] != 0 || s.k == |s.ys|)
    ensures IsMarkedMember(v, s.members, c)
  {
    if c in s.members {
      assert c in Elements(s.ys) + Elements(s.us) + s.gone;
    }
  }

  lemma MarkedMembersGrow(v: seq<int>, v': seq<int>, members: set<int>, cs: seq<int>)
    requires Grows(v, v') && forall i :: 0 <= i < |cs| ==> IsMarkedMember(v, members, cs[i])
    ensures forall i :: 0 <= i < |cs| ==> IsMarkedMember(v', members, cs[i])
  {
  }

  lemma ChasedExtends(v: seq<int>, referents: seq<seq<int>>, members: set<int>, done: set<int>, x: int)
    requires Chased(v, referents, members, done) && 0 <= x < |referents|
    requires forall i :: 0 <= i < |referents[x]| ==> IsMarkedMember(v, members, referents[x][i])
    ensures Chased(v, referents, members, done + {x})
  {
  }
}
