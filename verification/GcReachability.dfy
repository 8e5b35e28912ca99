/** What the cycle collector computes, and the invariants of its list walk: the objects of a
    generation that are reachable from outside it, as the least closed set. */
module GcReachability {
  import opened Enumerations
  import opened GcHeader

  // ---- The specification ----------------------------------------------------------------------

  // s holds the roots and, with each object, the members of the generation it refers to.
  ghost predicate ClosedFrom(referents: seq<seq<int>>, members: set<int>, roots: set<int>, s: set<int>) {
    && roots <= s <= members
    && forall x, i :: x in s && 0 <= x < |referents| && 0 <= i < |referents[x]| && referents[x][i] in members ==>
         referents[x][i] in s
  }

  // r is exactly what is reachable from the roots inside the generation.
  ghost predicate IsReachable(referents: seq<seq<int>>, members: set<int>, roots: set<int>, r: set<int>) {
    && ClosedFrom(referents, members, roots, r)
    && forall s: set<int> :: ClosedFrom(referents, members, roots, s) ==> r <= s
  }

  ghost predicate IsPath(referents: seq<seq<int>>, members: set<int>, roots: set<int>, p: seq<int>) {
    && p != [] && p[0] in roots
    && (forall i :: 0 <= i < |p| ==> p[i] in members)
    && (forall i :: 0 <= i < |p| - 1 ==> Refers(referents, p[i], p[i + 1]))
  }

  ghost predicate Refers(referents: seq<seq<int>>, x: int, y: int) {
    0 <= x < |referents| && y in referents[x]
  }

  ghost predicate HasPath(referents: seq<seq<int>>, members: set<int>, roots: set<int>, x: int) {
    exists p: seq<int> :: IsPath(referents, members, roots, p) && p[|p| - 1] == x
  }

  lemma {:induction false} PathStaysInside(referents: seq<seq<int>>, members: set<int>, roots: set<int>,
                                           s: set<int>, p: seq<int>)
    requires ClosedFrom(referents, members, roots, s) && IsPath(referents, members, roots, p)
    ensures p[|p| - 1] in s
    decreases |p|
  {
    if |p| > 1 {
      var q := p[..|p| - 1];
      assert IsPath(referents, members, roots, q);
      PathStaysInside(referents, members, roots, s, q);
      assert Refers(referents, p[|p| - 2], p[|p| - 1]);
      var i :| 0 <= i < |referents[p[|p| - 2]]| && referents[p[|p| - 2]][i] == p[|p| - 1];
    }
  }

  lemma PathExtends(referents: seq<seq<int>>, members: set<int>, roots: set<int>, x: int, y: int)
    requires HasPath(referents, members, roots, x) && Refers(referents, x, y) && y in members
    ensures HasPath(referents, members, roots, y)
  {
    var p :| IsPath(referents, members, roots, p) && p[|p| - 1] == x;
    var q := p + [y];
    assert forall i :: 0 <= i < |q| - 1 ==> q[i] == p[i];
    assert IsPath(referents, members, roots, q);
  }

  /** Being in the least closed set is the same as lying on a chain of references that starts at
      a root. */
  lemma ReachableIffPath(referents: seq<seq<int>>, members: set<int>, roots: set<int>, r: set<int>, x: int)
    requires IsReachable(referents, members, roots, r)
    ensures x in r <==> HasPath(referents, members, roots, x)
  {
    var onPaths := set y | y in members && HasPath(referents, members, roots, y);
    assert ClosedFrom(referents, members, roots, onPaths) by {
      forall y | y in roots ensures y in onPaths {
        assert IsPath(referents, members, roots, [y]);
      }
      forall y, i | y in onPaths && 0 <= y < |referents| && 0 <= i < |referents[y]| && referents[y][i] in members
        ensures referents[y][i] in onPaths
      {
        PathExtends(referents, members, roots, y, referents[y][i]);
      }
    }
    if HasPath(referents, members, roots, x) {
      var p :| IsPath(referents, members, roots, p) && p[|p| - 1] == x;
      PathStaysInside(referents, members, roots, r, p);
    }
  }

  // ---- Invariants of move_unreachable ------------------------------------------------------------

  // A state of the walk over a generation: the young list ys, walked up to position k, the
  // unreachable list us, and the members gone from both because they were untracked.
  datatype Walk = Walk(members: set<int>, roots: set<int>, ys: seq<int>, k: nat, us: seq<int>, gone: set<int>)
  {
    // Settled and traversed.
    ghost function Done(): set<int> {
      Elements(if k <= |ys| then ys[..k] else ys) + gone
    }

    // Only the lists' tails have changed.
    ghost predicate Extends(s: Walk) {
      members == s.members && roots == s.roots && k == s.k && gone == s.gone && |s.ys| <= |ys| && ys[..|s.ys|] == s.ys
    }

    function Settled(): Walk {
      this.(k := k + 1)
    }

    // us[m] comes back to the end of the young list.
    function Returned(m: nat): Walk
      requires m < |us|
    {
      this.(ys := ys + [us[m]], us := us[..m] + us[m + 1..])
    }

    // The object under the cursor moves to the unreachable list.
    function Parked(): Walk
      requires k < |ys|
    {
      this.(ys := ys[..k] + ys[k + 1..], us := us + [ys[k]])
    }

    // The object settled last leaves the young list.
    function Untracked(): Walk
      requires 0 < k <= |ys|
    {
      this.(ys := ys[..k - 1] + ys[k..], k := k - 1, gone := gone + {ys[k - 1]})
    }
  }

  // Known to be reachable: settled, or still to be scanned with a positive count.
  predicate Marked(v: int) {
    v == REACHABLE || v == UNTRACKED || v > 0
  }

  // refs[x] is the count or state in x's header.
  ghost predicate ScanState(refs: seq<int>, s: Walk) {
    && s.k <= |s.ys|
    && Distinct(s.ys) && Distinct(s.us)
    && (forall x <- s.ys :: x !in s.us && x !in s.gone) && (forall x <- s.us :: x !in s.gone)
    && Elements(s.ys) + Elements(s.us) + s.gone == s.members
    && (forall x <- s.members :: 0 <= x < |refs|)
    && (forall i :: 0 <= i < s.k ==> s.ys[i] in s.members && refs[s.ys[i]] == REACHABLE)
    && (forall i :: s.k <= i < |s.ys| ==> s.ys[i] in s.members && refs[s.ys[i]] >= 0)
    && (forall x <- s.us :: x in s.members && refs[x] == TENTATIVELY_UNREACHABLE)
    && (forall x <- s.gone :: x in s.members && refs[x] == UNTRACKED)
  }

  // Every member referred to by the objects in done is marked.
  ghost predicate Chased(refs: seq<int>, referents: seq<seq<int>>, members: set<int>, done: set<int>) {
    forall x, j :: x in done && 0 <= x < |referents| && 0 <= j < |referents[x]| ==>
      IsMarkedMember(refs, members, referents[x][j])
  }

  ghost predicate IsMarkedMember(refs: seq<int>, members: set<int>, x: int) {
    x in members && 0 <= x < |refs| ==> Marked(refs[x])
  }

  ghost predicate RootsMarked(refs: seq<int>, roots: set<int>) {
    forall x <- roots :: 0 <= x < |refs| && Marked(refs[x])
  }

  ghost predicate MarkedAreReachable(refs: seq<int>, referents: seq<seq<int>>, members: set<int>, roots: set<int>) {
    forall s: set<int> :: ClosedFrom(referents, members, roots, s) ==>
      forall x :: x in members && 0 <= x < |refs| && Marked(refs[x]) ==> x in s
  }

  ghost predicate Scanning(refs: seq<int>, referents: seq<seq<int>>, s: Walk) {
    && s.roots <= s.members
    && ScanState(refs, s)
    && RootsMarked(refs, s.roots)
    && MarkedAreReachable(refs, referents, s.members, s.roots)
  }

  // Marks are never taken back, and an untracked object stays untracked.
  ghost predicate Grows(refs: seq<int>, refs': seq<int>) {
    && |refs'| == |refs|
    && (forall x :: 0 <= x < |refs| && Marked(refs[x]) ==> Marked(refs'[x]))
    && (forall x :: 0 <= x < |refs| && refs[x] == UNTRACKED ==> refs'[x] == UNTRACKED)
  }

  lemma GrowsTransitive(a: seq<int>, b: seq<int>, c: seq<int>)
    requires Grows(a, b) && Grows(b, c)
    ensures Grows(a, c)
  {
  }

  // The walk begins: every count says how often the object is referenced from outside.
  lemma ScanBegins(refs: seq<int>, referents: seq<seq<int>>, members: set<int>, roots: set<int>, ys: seq<int>)
    requires Enumerates(ys, members) && forall x <- members :: 0 <= x < |refs| && refs[x] >= 0
    requires roots == set x | x in members && refs[x] > 0
    ensures Scanning(refs, referents, Walk(members, roots, ys, 0, [], {}))
    ensures Chased(refs, referents, members, Walk(members, roots, ys, 0, [], {}).Done())
  {
    assert forall i :: 0 <= i < |ys| ==> ys[i] in Elements(ys);
    assert Elements(ys) + Elements([]) + {} == members;
  }

  // The object under the cursor has a positive count: it is settled as reachable.
  lemma ScanSettles(refs: seq<int>, referents: seq<seq<int>>, s: Walk)
    requires Scanning(refs, referents, s) && s.k < |s.ys| && Chased(refs, referents, s.members, s.Done())
    requires 0 <= s.ys[s.k] < |refs| && refs[s.ys[s.k]] > 0
    ensures Scanning(refs[s.ys[s.k] := REACHABLE], referents, s.Settled())
    ensures Chased(refs[s.ys[s.k] := REACHABLE], referents, s.members, s.Done())
    ensures Grows(refs, refs[s.ys[s.k] := REACHABLE])
  {
    SettleKeepsState(refs, s);
    MarkAgain(refs, referents, s.members, s.roots, s.ys[s.k], REACHABLE);
    ChasedGrows(refs, refs[s.ys[s.k] := REACHABLE], referents, s.members, s.Done());
  }

  lemma SettleKeepsState(refs: seq<int>, s: Walk)
    requires ScanState(refs, s) && s.k < |s.ys|
    ensures 0 <= s.ys[s.k] < |refs|
    ensures ScanState(refs[s.ys[s.k] := REACHABLE], s.Settled())
  {
    assert s.ys[s.k] in s.ys;
  }

  lemma MarkAgain(refs: seq<int>, referents: seq<seq<int>>, members: set<int>, roots: set<int>, x: int, v: int)
    requires 0 <= x < |refs| && Marked(refs[x]) && Marked(v)
    requires RootsMarked(refs, roots) && MarkedAreReachable(refs, referents, members, roots)
    ensures RootsMarked(refs[x := v], roots) && MarkedAreReachable(refs[x := v], referents, members, roots)
  {
  }

  // Marking more objects never undoes what has been chased.
  lemma ChasedGrows(refs: seq<int>, refs': seq<int>, referents: seq<seq<int>>, members: set<int>, done: set<int>)
    requires Chased(refs, referents, members, done) && Grows(refs, refs')
    ensures Chased(refs', referents, members, done)
  {
    forall x, j | x in done && 0 <= x < |referents| && 0 <= j < |referents[x]|
      ensures IsMarkedMember(refs', members, referents[x][j])
    {
      assert IsMarkedMember(refs, members, referents[x][j]);
    }
  }

  // A reference from a settled object marks its target.
  lemma VisitMarks(refs: seq<int>, referents: seq<seq<int>>, members: set<int>, roots: set<int>,
                   x: int, j: nat, v: int)
    requires RootsMarked(refs, roots) && MarkedAreReachable(refs, referents, members, roots)
    requires x in members && 0 <= x < |referents| && x < |refs| && Marked(refs[x])
    requires j < |referents[x]| && referents[x][j] in members && 0 <= referents[x][j] < |refs| && Marked(v)
    ensures RootsMarked(refs[referents[x][j] := v], roots)
    ensures MarkedAreReachable(refs[referents[x][j] := v], referents, members, roots)
  {
    var c := referents[x][j];
    forall s: set<int> | ClosedFrom(referents, members, roots, s)
      ensures forall y :: y in members && 0 <= y < |refs| && Marked(refs[c := v][y]) ==> y in s
    {
      assert x in s;
    }
  }

  // The target was still to be scanned.
  lemma VisitAhead(refs: seq<int>, s: Walk, c: int)
    requires ScanState(refs, s) && c in s.members && 0 <= c < |refs| && refs[c] == 0
    ensures ScanState(refs[c := 1], s)
  {
    assert c in Elements(s.ys) + Elements(s.us) + s.gone;
  }

  lemma UnparkedElements(s: Walk, m: nat)
    requires m < |s.us| && Distinct(s.us)
    ensures var us' := s.us[..m] + s.us[m + 1..];
            Elements(s.us) == Elements(us') + {s.us[m]} && Distinct(us') && forall x <- us' :: x in s.us && x != s.us[m]
  {
    assert s.us == s.us[..m] + [s.us[m]] + s.us[m + 1..];
  }

  // The target had been moved away; it comes back to the end of the young list.
  lemma VisitReturns(refs: seq<int>, s: Walk, m: nat)
    requires ScanState(refs, s) && m < |s.us|
    ensures 0 <= s.us[m] < |refs|
    ensures ScanState(refs[s.us[m] := 1], s.Returned(m))
  {
    assert s.us[m] in s.us;
    UnparkedElements(s, m);
    ElementsAppend(s.ys, s.us[m]);
  }

  // A list all of whose objects are settled takes in one more.
  lemma VisitCollects(refs: seq<int>, s: Walk, m: nat)
    requires ScanState(refs, s) && m < |s.us| && s.k == |s.ys|
    ensures 0 <= s.us[m] < |refs|
    ensures ScanState(refs[s.us[m] := REACHABLE], s.Returned(m).Settled())
  {
    assert s.us[m] in s.us;
    UnparkedElements(s, m);
    ElementsAppend(s.ys, s.us[m]);
  }

  // The object under the cursor has count 0: it moves to the unreachable list.
  lemma ScanParks(refs: seq<int>, referents: seq<seq<int>>, s: Walk)
    requires Scanning(refs, referents, s) && s.k < |s.ys| && Chased(refs, referents, s.members, s.Done())
    requires 0 <= s.ys[s.k] < |refs| && refs[s.ys[s.k]] == 0
    ensures var refs' := refs[s.ys[s.k] := TENTATIVELY_UNREACHABLE];
            && Scanning(refs', referents, s.Parked())
            && Chased(refs', referents, s.members, s.Parked().Done())
            && Grows(refs, refs')
  {
    var refs' := refs[s.ys[s.k] := TENTATIVELY_UNREACHABLE];
    ParkKeepsState(refs, s);
    ChasedGrows(refs, refs', referents, s.members, s.Done());
    assert s.Parked().ys[..s.k] == s.ys[..s.k];
  }

  lemma YoungWithout(s: Walk, k: nat)
    requires k < |s.ys| && Distinct(s.ys)
    ensures var ys' := s.ys[..k] + s.ys[k + 1..];
            Elements(s.ys) == Elements(ys') + {s.ys[k]} && Distinct(ys') && forall x <- ys' :: x in s.ys && x != s.ys[k]
  {
    assert s.ys == s.ys[..k] + [s.ys[k]] + s.ys[k + 1..];
  }

  lemma ParkKeepsState(refs: seq<int>, s: Walk)
    requires ScanState(refs, s) && s.k < |s.ys|
    ensures 0 <= s.ys[s.k] < |refs|
    ensures ScanState(refs[s.ys[s.k] := TENTATIVELY_UNREACHABLE], s.Parked())
  {
    assert s.ys[s.k] in s.ys;
    YoungWithout(s, s.k);
    ElementsAppend(s.us, s.ys[s.k]);
  }

  // The object settled last is untracked: it leaves the list, but is no less reachable.
  lemma ScanUntracks(refs: seq<int>, referents: seq<seq<int>>, s: Walk)
    requires Scanning(refs, referents, s) && 0 < s.k <= |s.ys| && Chased(refs, referents, s.members, s.Done())
    ensures 0 <= s.ys[s.k - 1] < |refs|
    ensures var refs' := refs[s.ys[s.k - 1] := UNTRACKED];
            && Scanning(refs', referents, s.Untracked())
            && Chased(refs', referents, s.members, s.Untracked().Done())
            && Grows(refs, refs')
  {
    var x := s.ys[s.k - 1];
    UntrackKeepsState(refs, s);
    MarkAgain(refs, referents, s.members, s.roots, x, UNTRACKED);
    ChasedGrows(refs, refs[x := UNTRACKED], referents, s.members, s.Done());
    ElementsPrefix(s.ys, s.k - 1);
    assert s.Untracked().ys[..s.k - 1] == s.ys[..s.k - 1];
    assert s.Untracked().Done() == s.Done();
  }

  lemma UntrackKeepsState(refs: seq<int>, s: Walk)
    requires ScanState(refs, s) && 0 < s.k <= |s.ys|
    ensures 0 <= s.ys[s.k - 1] < |refs|
    ensures ScanState(refs[s.ys[s.k - 1] := UNTRACKED], s.Untracked())
  {
    assert s.ys[s.k - 1] in s.ys;
    YoungWithout(s, s.k - 1);
  }

  lemma ScanPartition(refs: seq<int>, s: Walk)
    requires ScanState(refs, s) && s.k == |s.ys|
    ensures Elements(s.us) == s.members - (Elements(s.ys) + s.gone)
    ensures Elements(s.ys) + s.gone <= s.members
    ensures forall x :: x in s.members ==> (x in Elements(s.ys) + s.gone <==> Marked(refs[x]))
  {
    forall x | x in s.members
      ensures x in s.us <==> x !in s.ys && x !in s.gone
      ensures x in s.ys || x in s.gone <==> Marked(refs[x])
    {
      assert x in Elements(s.ys) + Elements(s.us) + s.gone;
    }
    forall x | x in Elements(s.ys) + Elements(s.us) + s.gone ensures x in s.members {
    }
    assert forall x :: x in Elements(s.us) <==> x in s.members - (Elements(s.ys) + s.gone);
  }

  /** When the cursor reaches the end, the young list and the untracked objects are exactly the
      reachable set. */
  lemma ScanEnds(refs: seq<int>, referents: seq<seq<int>>, s: Walk)
    requires Scanning(refs, referents, s) && s.k == |s.ys| && Chased(refs, referents, s.members, s.Done())
    ensures IsReachable(referents, s.members, s.roots, Elements(s.ys) + s.gone)
    ensures Elements(s.us) == s.members - (Elements(s.ys) + s.gone)
  {
    var r := Elements(s.ys) + s.gone;
    assert s.ys[..s.k] == s.ys;
    ScanPartition(refs, s);
    forall x | x in s.roots ensures x in r {
      assert x in s.members && Marked(refs[x]);
    }
    forall x, i | x in r && 0 <= x < |referents| && 0 <= i < |referents[x]| && referents[x][i] in s.members
      ensures referents[x][i] in r
    {
      assert IsMarkedMember(refs, s.members, referents[x][i]);
    }
    forall t: set<int> | ClosedFrom(referents, s.members, s.roots, t) ensures r <= t {
      forall x | x in r ensures x in t {
        assert x in s.members && Marked(refs[x]);
      }
    }
  }
}
