/** The intrusive circular doubly linked lists of the collector: the link updates of
    Include/objimpl.h and the list functions of Modules/gcmodule.c. A node is a number; its two
    links are kept in two sequences indexed by node. A list head is a node too. */
module GcRing {
  import opened Enumerations
  import opened Pointers

  datatype Links = Links(next: seq<int>, prev: seq<int>) {
    predicate Has(node: int) {
      |next| == |prev| && 0 <= node < |next|
    }
  }

  // ---- The link updates ---------------------------------------------------------------------
  // Each function performs the assignments of its C counterpart. Where a pointer they follow
  // leads nowhere, they leave the links alone; in a ring that never happens.

  function Init(l: Links, head: int): Links {
    if !l.Has(head) then l else Links(l.next[head := head], l.prev[head := head])
  }

  // Link node in front of head, that is, at the end of head's list.
  function Append(l: Links, node: int, head: int): Links {
    if !l.Has(node) || !l.Has(head) || !l.Has(l.prev[head]) then l
    else
      var last := l.prev[head];
      Links(l.next[node := head][last := node], l.prev[node := last][head := node])
  }

  // Unlink node from whatever list it is in; its own gc_prev is left as it was.
  function Remove(l: Links, node: int): Links {
    if !l.Has(node) || !l.Has(l.prev[node]) || !l.Has(l.next[node]) then l
    else Links(l.next[l.prev[node] := l.next[node]][node := NULL], l.prev[l.next[node] := l.prev[node]])
  }

  // gc_list_move, as its comment describes it: remove, then append.
  function Move(l: Links, node: int, to: int): Links {
    Append(Remove(l, node), node, to)
  }

  // Append all of from's list to to's list; from becomes empty.
  function Merge(l: Links, from: int, to: int): Links {
    if !l.Has(from) || !l.Has(to) || !l.Has(l.prev[to]) || !l.Has(l.prev[from]) || !l.Has(l.next[from]) then l
    else if l.next[from] == from then Init(l, from)
    else
      var tail, first, last := l.prev[to], l.next[from], l.prev[from];
      Init(Links(l.next[tail := first][last := to], l.prev[first := tail][to := last]), from)
  }

  // ---- Rings --------------------------------------------------------------------------------

  // The i-th node of a walk that starts at the head (i == -1) and comes back to it.
  function At(head: int, items: seq<int>, i: int): int {
    if 0 <= i < |items| then items[i] else head
  }

  // A well-formed circular list: following gc_next from the head meets exactly the items, each
  // once and in this order, and returns to the head; gc_prev goes the other way.
  ghost predicate IsRing(l: Links, head: int, items: seq<int>) {
    && head !in items && Distinct(items)
    && (forall i :: -1 <= i <= |items| ==> l.Has(At(head, items, i)))
    && (forall i :: -1 <= i < |items| ==> l.next[At(head, items, i)] == At(head, items, i + 1))
    && (forall i :: 0 <= i <= |items| ==> l.prev[At(head, items, i)] == At(head, items, i - 1))
  }

  lemma RingEnds(l: Links, head: int, items: seq<int>)
    requires IsRing(l, head, items)
    ensures l.Has(head)
    ensures l.next[head] == At(head, items, 0) && l.prev[head] == At(head, items, |items| - 1)
    ensures l.Has(l.next[head]) && l.Has(l.prev[head])
    ensures l.next[head] == head <==> items == []
  {
    assert At(head, items, -1) == head && At(head, items, |items|) == head;
    if items != [] {
      assert At(head, items, 0) == items[0];
    }
  }

  lemma RingItem(l: Links, head: int, items: seq<int>, k: nat)
    requires IsRing(l, head, items) && k < |items|
    ensures l.Has(items[k])
    ensures l.next[items[k]] == At(head, items, k + 1) && l.prev[items[k]] == At(head, items, k - 1)
    ensures l.Has(l.next[items[k]]) && l.Has(l.prev[items[k]])
  {
    assert At(head, items, k) == items[k];
  }

  lemma AtInjective(head: int, items: seq<int>, i: int, j: int)
    requires head !in items && Distinct(items) && -1 <= i < |items| && -1 <= j < |items| && i != j
    ensures At(head, items, i) != At(head, items, j)
  {
  }

  predicate SameAt(l: Links, l': Links, x: int) {
    l.Has(x) && l'.Has(x) && l'.next[x] == l.next[x] && l'.prev[x] == l.prev[x]
  }

  // Only the links of the nodes inside differ.
  ghost predicate LinksSame(l: Links, l': Links, inside: set<int>) {
    && |l.next| == |l.prev| == |l'.next| == |l'.prev|
    && forall x :: l.Has(x) && x !in inside ==> SameAt(l, l', x)
  }

  lemma LinksSameTransitive(a: Links, b: Links, c: Links, inside: set<int>)
    requires LinksSame(a, b, inside) && LinksSame(b, c, inside)
    ensures LinksSame(a, c, inside)
  {
  }

  lemma LinksSameLarger(l: Links, l': Links, inside: set<int>, larger: set<int>)
    requires LinksSame(l, l', inside) && inside <= larger
    ensures LinksSame(l, l', larger)
  {
  }

  lemma LinksSameRing(l: Links, l': Links, inside: set<int>, head: int, items: seq<int>)
    requires LinksSame(l, l', inside) && IsRing(l, head, items)
    requires head !in inside && forall x <- items :: x !in inside
    ensures IsRing(l', head, items)
  {
    RingEnds(l, head, items);
    forall x | x in items ensures SameAt(l, l', x) {
      var k :| 0 <= k < |items| && items[k] == x;
      RingItem(l, head, items, k);
    }
    RingFrame(l, l', head, items);
  }

  // Links that agree on the nodes of a ring carry the same ring.
  lemma RingFrame(l: Links, l': Links, head: int, items: seq<int>)
    requires IsRing(l, head, items)
    requires SameAt(l, l', head) && forall x <- items :: SameAt(l, l', x)
    ensures IsRing(l', head, items)
  {
    forall i | -1 <= i <= |items| ensures SameAt(l, l', At(head, items, i)) {
    }
  }

  /** TRACK puts the node at the end of the ring. */
  lemma AppendRing(l: Links, head: int, items: seq<int>, node: int)
    requires IsRing(l, head, items) && l.Has(node) && node != head && node !in items
    ensures l.Has(head) && l.Has(l.prev[head])
    ensures IsRing(Append(l, node, head), head, items + [node])
    ensures forall x :: l.Has(x) && x != node && x != head && x !in items ==> SameAt(l, Append(l, node, head), x)
  {
    RingEnds(l, head, items);
    var n := |items|;
    var l', items' := Append(l, node, head), items + [node];
    var last := l.prev[head];
    assert last == At(head, items, n - 1);
    forall i | -1 <= i <= n + 1
      ensures l'.Has(At(head, items', i))
      ensures i <= n ==> l'.next[At(head, items', i)] == At(head, items', i + 1)
      ensures i >= 0 ==> l'.prev[At(head, items', i)] == At(head, items', i - 1)
    {
      if i < n {
        assert At(head, items', i) == At(head, items, i);
        if i < n - 1 {
          AtInjective(head, items, i, n - 1);
          assert At(head, items', i + 1) == At(head, items, i + 1);
        }
        if i >= 0 {
          AtInjective(head, items, -1, i);
          assert At(head, items', i - 1) == At(head, items, i - 1);
        }
      } else {
        assert At(head, items', n) == node && At(head, items', n - 1) == last;
        assert At(head, items', n + 1) == head;
      }
    }
  }

  /** UNTRACK takes the node out of the ring and keeps the order of the others. */
  lemma RemoveRing(l: Links, head: int, items: seq<int>, k: nat)
    requires IsRing(l, head, items) && k < |items|
    ensures l.Has(items[k]) && l.Has(l.prev[items[k]]) && l.Has(l.next[items[k]])
    ensures IsRing(Remove(l, items[k]), head, items[..k] + items[k + 1..])
    ensures forall x :: l.Has(x) && x != head && x !in items ==> SameAt(l, Remove(l, items[k]), x)
  {
    RingItem(l, head, items, k);
    var n := |items|;
    var l', items' := Remove(l, items[k]), items[..k] + items[k + 1..];
    forall i | -1 <= i <= n - 1
      ensures l'.Has(At(head, items', i))
      ensures i < n - 1 ==> l'.next[At(head, items', i)] == At(head, items', i + 1)
      ensures i >= 0 ==> l'.prev[At(head, items', i)] == At(head, items', i - 1)
    {
      RemovedNode(l, head, items, k, i);
    }
  }

  lemma RemovedNode(l: Links, head: int, items: seq<int>, k: nat, i: int)
    requires IsRing(l, head, items) && k < |items| && -1 <= i <= |items| - 1
    requires l.Has(items[k]) && l.Has(l.prev[items[k]]) && l.Has(l.next[items[k]])
    ensures var l', items' := Remove(l, items[k]), items[..k] + items[k + 1..];
            && l'.Has(At(head, items', i))
            && (i < |items'| ==> l'.next[At(head, items', i)] == At(head, items', i + 1))
            && (i >= 0 ==> l'.prev[At(head, items', i)] == At(head, items', i - 1))
  {
    var n, items' := |items|, items[..k] + items[k + 1..];
    RingEnds(l, head, items);
    RingItem(l, head, items, k);
    assert head !in items && Distinct(items);
    var j := if i == n - 1 then -1 else if i < k then i else i + 1;
    if j >= 0 {
      RingItem(l, head, items, j);
    }
    hide IsRing;
    assert At(head, items', i) == At(head, items, j);
    assert At(head, items', i + 1) == At(head, items, if j + 1 == k then k + 1 else j + 1) || i == n - 1;
    assert i >= 0 ==> At(head, items', i - 1) == At(head, items, if i - 1 < k then i - 1 else i);
  }

  /** Untracking what was just tracked gives every other node its links back. */
  lemma TrackThenUntrack(l: Links, head: int, items: seq<int>, node: int)
    requires IsRing(l, head, items) && l.Has(node) && node != head && node !in items
    ensures l.Has(head) && l.Has(l.prev[head])
    ensures var l' := Append(l, node, head);
            && l'.Has(node) && l'.Has(l'.prev[node]) && l'.Has(l'.next[node])
            && forall x :: l.Has(x) && x != node ==> SameAt(l, Remove(l', node), x)
  {
    RingEnds(l, head, items);
    AppendRing(l, head, items, node);
    if items != [] {
      RingItem(l, head, items, |items| - 1);
    }
  }

  // ---- Two disjoint rings -------------------------------------------------------------------

  ghost predicate Disjoint(h1: int, items1: seq<int>, h2: int, items2: seq<int>) {
    h1 != h2 && h1 !in items2 && h2 !in items1 && forall x <- items1 :: x !in items2
  }

  ghost predicate TwoRings(l: Links, h1: int, items1: seq<int>, h2: int, items2: seq<int>) {
    IsRing(l, h1, items1) && IsRing(l, h2, items2) && Disjoint(h1, items1, h2, items2)
  }

  /** Moving a node takes it out of its own ring and puts it at the end of the other; no node
      outside the two rings is touched. */
  lemma MoveRings(l: Links, from: int, items1: seq<int>, k: nat, to: int, items2: seq<int>)
    requires TwoRings(l, from, items1, to, items2) && k < |items1|
    ensures l.Has(items1[k]) && l.Has(l.prev[items1[k]]) && l.Has(l.next[items1[k]]) && l.Has(to)
    ensures var l1 := Remove(l, items1[k]); l1.Has(to) && l1.Has(l1.prev[to]) && l1.prev[to] != items1[k]
    ensures TwoRings(Move(l, items1[k], to), from, items1[..k] + items1[k + 1..], to, items2 + [items1[k]])
    ensures forall x :: l.Has(x) && x != from && x !in items1 && x != to && x !in items2 ==>
              SameAt(l, Move(l, items1[k], to), x)
  {
    var node, rest := items1[k], items1[..k] + items1[k + 1..];
    RingItem(l, from, items1, k);
    RemoveRing(l, from, items1, k);
    var l1 := Remove(l, node);
    assert forall x <- rest :: x in items1 && x != node;
    RingFrame(l, l1, to, items2) by {
      RingEnds(l, to, items2);
      forall x <- items2 ensures SameAt(l, l1, x) {
        var j :| 0 <= j < |items2| && items2[j] == x;
        RingItem(l, to, items2, j);
      }
    }
    RingEnds(l1, to, items2);
    AppendRing(l1, to, items2, node);
    RingFrame(l1, Append(l1, node, to), from, rest) by {
      RingEnds(l1, from, rest);
      forall x <- rest ensures SameAt(l1, Append(l1, node, to), x) {
        var j :| 0 <= j < |rest| && rest[j] == x;
        RingItem(l1, from, rest, j);
      }
    }
  }

  /** Merging appends one list to the other and empties it. */
  lemma MergeRings(l: Links, from: int, items1: seq<int>, to: int, items2: seq<int>)
    requires TwoRings(l, from, items1, to, items2)
    ensures l.Has(from) && l.Has(to) && l.Has(l.prev[to]) && l.Has(l.prev[from]) && l.Has(l.next[from])
    ensures TwoRings(Merge(l, from, to), from, [], to, items2 + items1)
    ensures forall x :: l.Has(x) && x != from && x !in items1 && x != to && x !in items2 ==>
              SameAt(l, Merge(l, from, to), x)
  {
    RingEnds(l, from, items1);
    RingEnds(l, to, items2);
    var l', m, n, all := Merge(l, from, to), |items1|, |items2|, items2 + items1;
    if items1 == [] {
      assert all == items2;
      forall x <- items2 ensures SameAt(l, l', x) {
        var j :| 0 <= j < n && items2[j] == x;
        RingItem(l, to, items2, j);
      }
      RingFrame(l, l', to, items2);
    } else {
      MergedDistinct(items2, items1);
      assert items1[0] == At(from, items1, 0) == l.next[from] && items1[m - 1] == l.prev[from];
      assert l.prev[to] == At(to, items2, n - 1);
      forall i | -1 <= i <= m + n
        ensures l'.Has(At(to, all, i))
        ensures i < m + n ==> l'.next[At(to, all, i)] == At(to, all, i + 1)
        ensures i >= 0 ==> l'.prev[At(to, all, i)] == At(to, all, i - 1)
      {
        MergedNode(l, from, items1, to, items2, i);
      }
    }
  }

  lemma MergedDistinct(a: seq<int>, b: seq<int>)
    requires Distinct(a) && Distinct(b) && forall x <- b :: x !in a
    ensures Distinct(a + b)
  {
    var c := a + b;
    forall i, j | 0 <= i < j < |c| ensures c[i] != c[j] {
      if i < |a| <= j {
        assert c[j] in b;
      }
    }
  }

  lemma MergedNode(l: Links, from: int, items1: seq<int>, to: int, items2: seq<int>, i: int)
    requires TwoRings(l, from, items1, to, items2) && items1 != []
    requires l.Has(from) && l.Has(to) && l.Has(l.prev[to]) && l.Has(l.prev[from]) && l.Has(l.next[from])
    requires l.next[from] == items1[0] && l.prev[from] == items1[|items1| - 1]
    requires l.prev[to] == At(to, items2, |items2| - 1)
    requires -1 <= i <= |items1| + |items2|
    ensures var l', all := Merge(l, from, to), items2 + items1;
            && l'.Has(At(to, all, i))
            && (i < |all| ==> l'.next[At(to, all, i)] == At(to, all, i + 1))
            && (i >= 0 ==> l'.prev[At(to, all, i)] == At(to, all, i - 1))
  {
    var m, n, all := |items1|, |items2|, items2 + items1;
    assert forall x <- items1 :: x != to && x !in items2;
    assert items1[0] in items1 && items1[m - 1] in items1;
    if i < n {
      assert At(to, all, i) == At(to, items2, i);
      assert i == n - 1 ==> At(to, all, n) == items1[0];
      if i < n - 1 {
        AtInjective(to, items2, i, n - 1);
        assert At(to, all, i + 1) == At(to, items2, i + 1);
      }
      if i >= 0 {
        AtInjective(to, items2, -1, i);
        assert items2[i] in items2;
        assert At(to, all, i - 1) == At(to, items2, i - 1);
      }
    } else if i < m + n {
      assert At(to, all, i) == At(from, items1, i - n) == items1[i - n];
      assert items1[i - n] in items1;
      assert n > 0 ==> items2[n - 1] in items2;
      assert i == n ==> At(to, all, n - 1) == At(to, items2, n - 1);
      if i < m + n - 1 {
        AtInjective(from, items1, i - n, m - 1);
        assert At(to, all, i + 1) == At(from, items1, i - n + 1);
      }
      if i > n {
        AtInjective(from, items1, 0, i - n);
        assert At(to, all, i - 1) == At(from, items1, i - n - 1);
      }
    } else {
      assert At(to, all, i - 1) == items1[m - 1];
    }
  }

  lemma SplitRings(l: Links, h1: int, items1: seq<int>, h2: int, items2: seq<int>)
    requires TwoRings(l, h1, items1, h2, items2)
    ensures IsRing(l, h1, items1) && IsRing(l, h2, items2)
  {
  }

  // gc_list_init makes an empty list of a node outside the ring.
  lemma InitKeepsRing(l: Links, list: int, head: int, items: seq<int>)
    requires IsRing(l, head, items) && l.Has(list) && list != head && list !in items
    ensures TwoRings(Init(l, list), head, items, list, [])
    ensures LinksSame(l, Init(l, list), {list})
  {
    LinksSameRing(l, Init(l, list), {list}, head, items);
  }

  // One of two rings loses nodes; the other is not touched.
  lemma OtherRingStays(l: Links, l': Links, h1: int, items1: seq<int>, rest: seq<int>, h2: int, items2: seq<int>)
    requires TwoRings(l, h1, items1, h2, items2) && IsRing(l', h1, rest) && forall x <- rest :: x in items1
    requires LinksSame(l, l', Elements(items1) + {h1})
    ensures TwoRings(l', h1, rest, h2, items2)
  {
    assert forall x <- items2 :: x !in items1;
    LinksSameRing(l, l', Elements(items1) + {h1}, h2, items2);
  }

  // ---- Runs of TRACK and UNTRACK --------------------------------------------------------------

  datatype Event = Track(node: int) | Untrack(node: int)

  // The tracked objects in tracking order, as the events say it.
  function TrackingOrder(items: seq<int>, events: seq<Event>): seq<int>
    decreases |events|
  {
    if events == [] then items
    else
      match events[0]
      case Track(x) => TrackingOrder(items + [x], events[1..])
      case Untrack(x) => TrackingOrder(Without(items, x), events[1..])
  }

  function Without(items: seq<int>, x: int): seq<int>
    decreases |items|
  {
    if items == [] then [] else if items[0] == x then items[1..] else [items[0]] + Without(items[1..], x)
  }

  lemma {:induction false} WithoutAt(items: seq<int>, k: nat)
    requires Distinct(items) && k < |items|
    ensures Without(items, items[k]) == items[..k] + items[k + 1..]
    decreases |items|
  {
    if k > 0 {
      WithoutAt(items[1..], k - 1);
    }
  }

  // The macros' own checks: only an untracked object is tracked, only a tracked one untracked.
  ghost predicate Allowed(l: Links, head: int, tracked: set<int>, events: seq<Event>)
    decreases |events|
  {
    events != [] ==>
      match events[0]
      case Track(x) => l.Has(x) && x != head && x !in tracked && Allowed(l, head, tracked + {x}, events[1..])
      case Untrack(x) => x in tracked && Allowed(l, head, tracked - {x}, events[1..])
  }

  function Step(l: Links, head: int, e: Event): Links {
    match e
    case Track(x) => Append(l, x, head)
    case Untrack(x) => Remove(l, x)
  }

  function Run(l: Links, head: int, events: seq<Event>): Links
    decreases |events|
  {
    if events == [] then l else Run(Step(l, head, events[0]), head, events[1..])
  }

  lemma StepRing(l: Links, head: int, items: seq<int>, e: Event)
    requires IsRing(l, head, items)
    requires if e.Track? then l.Has(e.node) && e.node != head && e.node !in items else e.node in items
    ensures IsRing(Step(l, head, e), head, if e.Track? then items + [e.node] else Without(items, e.node))
    ensures |Step(l, head, e).next| == |l.next| && |Step(l, head, e).prev| == |l.prev|
  {
    match e
    case Track(x) => AppendRing(l, head, items, x);
    case Untrack(x) =>
      var k :| 0 <= k < |items| && items[k] == x;
      RemoveRing(l, head, items, k);
      WithoutAt(items, k);
  }

  lemma {:induction false} WithoutElements(items: seq<int>, x: int)
    requires Distinct(items)
    ensures Elements(Without(items, x)) == Elements(items) - {x}
    decreases |items|
  {
    if items != [] {
      WithoutElements(items[1..], x);
      assert items == [items[0]] + items[1..];
      if items[0] == x {
        assert forall y <- items[1..] :: y != x;
      } else {
        assert Elements(Without(items, x)) == {items[0]} + Elements(Without(items[1..], x));
      }
    }
  }

  lemma AllowedFrame(l: Links, l': Links, head: int, tracked: set<int>, events: seq<Event>)
    requires Allowed(l, head, tracked, events)
    requires |l'.next| == |l.next| && |l'.prev| == |l.prev|
    ensures Allowed(l', head, tracked, events)
    decreases |events|
  {
    if events != [] {
      match events[0]
      case Track(x) => AllowedFrame(l, l', head, tracked + {x}, events[1..]);
      case Untrack(x) => AllowedFrame(l, l', head, tracked - {x}, events[1..]);
    }
  }

  /** Any run of TRACK and UNTRACK leaves a well-formed ring that holds exactly the tracked
      objects, each once, in tracking order. */
  lemma {:induction false} RunKeepsRing(l: Links, head: int, items: seq<int>, events: seq<Event>)
    requires IsRing(l, head, items)
    requires Allowed(l, head, Elements(items), events)
    ensures IsRing(Run(l, head, events), head, TrackingOrder(items, events))
    decreases |events|
  {
    if events != [] {
      var e := events[0];
      assert e.node in items <==> e.node in Elements(items);
      StepRing(l, head, items, e);
      var items' := if e.Track? then items + [e.node] else Without(items, e.node);
      ElementsAppend(items, e.node);
      WithoutElements(items, e.node);
      AllowedFrame(l, Step(l, head, e), head, Elements(items'), events[1..]);
      RunKeepsRing(Step(l, head, e), head, items', events[1..]);
    }
  }
}
