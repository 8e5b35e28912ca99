/** The slot-updating macros of Include/object.h as a machine whose steps interleave freely: the
    code a deallocator triggers, finalizers and other threads may all run between the two halves of
    a Py_CLEAR, Py_SETREF or Py_XSETREF. */
module SlotUpdates {
  import opened Enumerations
  import opened Pointers

  // A location that holds an object pointer: a field of its owner, or of no object (NULL). It is
  // dropped once its owner's deallocator has taken the reference over; the pointer stays in it.
  datatype Slot = Slot(owner: int, value: int, dropped: bool)

  // counts: ob_refcnt of every object ever created. temps: references held by running code,
  // `_py_tmp` among them.
  datatype Heap = Heap(counts: map<int, int>, slots: seq<Slot>, temps: multiset<int>)

  const EMPTY := Heap(map[], [], multiset{})

  datatype Step =
    | NewReference(x: int)
    | Incref(x: int)
    | NewSlot(owner: int)
    | Swap(s: int, v: int)         // _py_tmp = op; op = v
    | Decref(x: int)               // of a reference running code holds, such as _py_tmp
    | TakeOver(s: int)             // a deallocator is about to Py_XDECREF a field of its object
    | DecrefInPlace(s: int)        // the first half of "the obvious code": Py_XDECREF(op)
    | StoreInPlace(s: int, v: int) // and the second: op = v

  predicate UsesMacros(steps: seq<Step>) {
    forall step <- steps :: IsMacro(step)
  }

  predicate IsMacro(step: Step) {
    !step.DecrefInPlace? && !step.StoreInPlace?
  }

  function Owned(slot: Slot): int {
    if slot.dropped then NULL else slot.value
  }

  // The references the slots own.
  function Contents(slots: seq<Slot>): (c: seq<int>)
    ensures |c| == |slots|
  {
    seq(|slots|, i requires 0 <= i < |slots| => Owned(slots[i]))
  }

  predicate Usable(h: Heap, s: int) {
    0 <= s < |h.slots| && !h.slots[s].dropped
  }

  predicate Alive(h: Heap, x: int) {
    x in h.counts && h.counts[x] > 0
  }

  predicate Dying(h: Heap, x: int) {
    x in h.counts && h.counts[x] == 0
  }

  // What the source demands of a caller.
  predicate Enabled(h: Heap, step: Step) {
    match step
    case NewReference(x) => x >= 0 && x !in h.counts
    case Incref(x) => Alive(h, x)
    case NewSlot(owner) => owner == NULL || Alive(h, owner)
    case Swap(s, v) => Usable(h, s) && (v == NULL || v in h.temps)
    case Decref(x) => x in h.counts && x in h.temps
    case TakeOver(s) => Usable(h, s) && Dying(h, h.slots[s].owner)
    case DecrefInPlace(s) => Usable(h, s) && h.slots[s].value in h.counts
    case StoreInPlace(s, v) => Usable(h, s) && (v == NULL || v in h.temps)
  }

  function Without(temps: multiset<int>, x: int): multiset<int> {
    if x == NULL then temps else temps - multiset{x}
  }

  function With(temps: multiset<int>, x: int): multiset<int> {
    if x == NULL then temps else temps + multiset{x}
  }

  function Next(h: Heap, step: Step): Heap
    requires Enabled(h, step)
  {
    match step
    case NewReference(x) => h.(counts := h.counts[x := 1], temps := h.temps + multiset{x})
    case Incref(x) => h.(counts := h.counts[x := h.counts[x] + 1], temps := h.temps + multiset{x})
    case NewSlot(owner) => h.(slots := h.slots + [Slot(owner, NULL, false)])
    case Swap(s, v) =>
      h.(slots := h.slots[s := h.slots[s].(value := v)], temps := With(Without(h.temps, v), h.slots[s].value))
    case Decref(x) => h.(counts := h.counts[x := h.counts[x] - 1], temps := h.temps - multiset{x})
    case TakeOver(s) =>
      h.(slots := h.slots[s := h.slots[s].(dropped := true)], temps := With(h.temps, h.slots[s].value))
    case DecrefInPlace(s) => h.(counts := h.counts[h.slots[s].value := h.counts[h.slots[s].value] - 1])
    case StoreInPlace(s, v) =>
      h.(slots := h.slots[s := h.slots[s].(value := v)], temps := Without(h.temps, v))
  }

  // The object whose deallocator a step starts, or NULL.
  function Starts(h: Heap, step: Step): int
    requires Enabled(h, step)
  {
    match step
    case Decref(x) => if h.counts[x] == 1 then x else NULL
    case DecrefInPlace(s) => if h.counts[h.slots[s].value] == 1 then h.slots[s].value else NULL
    case _ => NULL
  }

  ghost predicate CountsAreOwners(h: Heap) {
    && Balanced(h.counts, multiset(Contents(h.slots)), h.temps)
    && Known(h.counts, Contents(h.slots), h.temps)
    && DroppedAreDying(h)
  }

  // Each count is the number of owning slots and running references.
  ghost predicate Balanced(counts: map<int, int>, held: multiset<int>, temps: multiset<int>) {
    forall x <- counts :: counts[x] == held[x] + temps[x]
  }

  ghost predicate Known(counts: map<int, int>, contents: seq<int>, temps: multiset<int>) {
    && NULL !in counts && (forall x <- temps :: x in counts)
    && (forall i :: 0 <= i < |contents| ==> contents[i] == NULL || contents[i] in counts)
  }

  ghost predicate DroppedAreDying(h: Heap) {
    forall i :: 0 <= i < |h.slots| && h.slots[i].dropped ==> Dying(h, h.slots[i].owner)
  }

  // Running code does not refer to x, and neither does any slot, except for those that the
  // deallocator of their own dying owner has already dropped.
  ghost predicate Unreferenced(h: Heap, x: int) {
    && x !in h.temps
    && forall i :: 0 <= i < |h.slots| && h.slots[i].value == x ==> h.slots[i].dropped && Dying(h, h.slots[i].owner)
  }

  // ---- Runs -----------------------------------------------------------------------------------

  ghost predicate Runs(h: Heap, steps: seq<Step>)
    decreases |steps|
  {
    steps == [] || (Enabled(h, steps[0]) && Runs(Next(h, steps[0]), steps[1..]))
  }

  function After(h: Heap, steps: seq<Step>): Heap
    requires Runs(h, steps)
    decreases |steps|
  {
    if steps == [] then h else After(Next(h, steps[0]), steps[1..])
  }

  // The objects whose deallocators a run starts, in order.
  function Started(h: Heap, steps: seq<Step>): seq<int>
    requires Runs(h, steps)
    decreases |steps|
  {
    if steps == [] then []
    else
      var later := Started(Next(h, steps[0]), steps[1..]);
      if Starts(h, steps[0]) == NULL then later else [Starts(h, steps[0])] + later
  }

  // Whenever a step starts a deallocator, nothing refers to the object any more.
  ghost predicate StartsSafely(h: Heap, steps: seq<Step>)
    requires Runs(h, steps)
    decreases |steps|
  {
    steps != [] ==>
      && (Starts(h, steps[0]) != NULL ==> Unreferenced(Next(h, steps[0]), Starts(h, steps[0])))
      && StartsSafely(Next(h, steps[0]), steps[1..])
  }

  // ---- What each step keeps ---------------------------------------------------------------------

  lemma WriteContents(slots: seq<Slot>, s: nat, slot: Slot)
    requires s < |slots|
    ensures Contents(slots)[s] == Owned(slots[s])
    ensures Contents(slots[s := slot]) == Contents(slots)[s := Owned(slot)]
    ensures multiset(Contents(slots[s := slot])) ==
            multiset(Contents(slots)) - multiset{Owned(slots[s])} + multiset{Owned(slot)}
    ensures Owned(slots[s]) in multiset(Contents(slots))
  {
    assert Contents(slots[s := slot]) == Contents(slots)[s := Owned(slot)];
    assert Contents(slots)[s] in Contents(slots);
  }

  lemma ExchangeAt(held: multiset<int>, temps: multiset<int>, x: int, v: int, y: int)
    requires y != NULL && x in held && (v == NULL || v in temps)
    ensures (held - multiset{x} + multiset{v})[y] + With(Without(temps, v), x)[y] == held[y] + temps[y]
  {
  }

  lemma BalanceExchanged(counts: map<int, int>, held: multiset<int>, temps: multiset<int>, x: int, v: int)
    requires Balanced(counts, held, temps) && NULL !in counts && x in held && (v == NULL || v in temps)
    ensures Balanced(counts, held - multiset{x} + multiset{v}, With(Without(temps, v), x))
  {
    forall y | y in counts ensures counts[y] == (held - multiset{x} + multiset{v})[y] + With(Without(temps, v), x)[y] {
      ExchangeAt(held, temps, x, v, y);
    }
  }

  // One slot's reference and one of running code's change places.
  lemma ExchangeKeepsOwners(h: Heap, s: nat, slot: Slot)
    requires CountsAreOwners(h) && Usable(h, s)
    requires slot.dropped ==> Dying(h, slot.owner)
    requires Owned(slot) == NULL || Owned(slot) in h.temps
    ensures CountsAreOwners(h.(slots := h.slots[s := slot],
                               temps := With(Without(h.temps, Owned(slot)), h.slots[s].value)))
  {
    hide Contents;
    hide Balanced;
    WriteContents(h.slots, s, slot);
    BalanceExchanged(h.counts, multiset(Contents(h.slots)), h.temps, h.slots[s].value, Owned(slot));
  }

  lemma NewReferenceKeepsOwners(h: Heap, x: int)
    requires CountsAreOwners(h) && Enabled(h, NewReference(x))
    ensures CountsAreOwners(Next(h, NewReference(x)))
  {
    hide Contents;
    assert x !in Contents(h.slots) && x !in h.temps;
  }

  lemma IncrefKeepsOwners(h: Heap, x: int)
    requires CountsAreOwners(h) && Enabled(h, Incref(x))
    ensures CountsAreOwners(Next(h, Incref(x)))
  {
    hide Contents;
  }

  lemma NewSlotKeepsOwners(h: Heap, owner: int)
    requires CountsAreOwners(h) && Enabled(h, NewSlot(owner))
    ensures CountsAreOwners(Next(h, NewSlot(owner)))
  {
    AppendContents(h.slots, owner);
    hide Contents;
    assert forall x :: x in h.counts ==> x != NULL;
  }

  lemma AppendContents(slots: seq<Slot>, owner: int)
    ensures Contents(slots + [Slot(owner, NULL, false)]) == Contents(slots) + [NULL]
    ensures multiset(Contents(slots) + [NULL]) == multiset(Contents(slots)) + multiset{NULL}
  {
  }

  lemma DecrefKeepsOwners(h: Heap, x: int)
    requires CountsAreOwners(h) && Enabled(h, Decref(x))
    ensures CountsAreOwners(Next(h, Decref(x))) && h.counts[x] > 0
    ensures Starts(h, Decref(x)) != NULL ==> Unreferenced(Next(h, Decref(x)), x)
  {
    if Starts(h, Decref(x)) != NULL {
      assert h.temps[x] == 1 && x !in multiset(Contents(h.slots));
      forall i | 0 <= i < |h.slots| && h.slots[i].value == x ensures h.slots[i].dropped {
        assert Contents(h.slots)[i] in multiset(Contents(h.slots));
      }
    }
  }

  lemma StepKeepsOwners(h: Heap, step: Step)
    requires CountsAreOwners(h) && Enabled(h, step) && IsMacro(step)
    ensures CountsAreOwners(Next(h, step))
    ensures Starts(h, step) != NULL ==> Unreferenced(Next(h, step), Starts(h, step))
  {
    hide CountsAreOwners;
    hide Unreferenced;
    match step
    case NewReference(x) => NewReferenceKeepsOwners(h, x);
    case Incref(x) => IncrefKeepsOwners(h, x);
    case NewSlot(owner) => NewSlotKeepsOwners(h, owner);
    case Swap(s, v) => ExchangeKeepsOwners(h, s, h.slots[s].(value := v));
    case Decref(x) => DecrefKeepsOwners(h, x);
    case TakeOver(s) => ExchangeKeepsOwners(h, s, h.slots[s].(dropped := true));
  }

  // ---- The macros -------------------------------------------------------------------------------

  /** In every run that updates slots only through the macros, deallocators dropping the fields of
      their dying objects among its steps, each count is the number of slots and running references
      that own the object; and whenever the run starts a deallocator, no running code and no slot
      still refers to the object, save fields that dying owners have dropped already. */
  lemma {:induction false} CountsStayOwners(h: Heap, steps: seq<Step>)
    requires CountsAreOwners(h) && Runs(h, steps) && UsesMacros(steps)
    ensures CountsAreOwners(After(h, steps)) && StartsSafely(h, steps)
    decreases |steps|
  {
    hide CountsAreOwners;
    hide Next;
    hide Unreferenced;
    if steps != [] {
      assert steps[0] in steps;
      StepKeepsOwners(h, steps[0]);
      CountsStayOwners(Next(h, steps[0]), steps[1..]);
    }
  }

  lemma DeallocatorsStartUnreferenced(steps: seq<Step>)
    requires Runs(EMPTY, steps) && UsesMacros(steps)
    ensures StartsSafely(EMPTY, steps)
  {
    CountsStayOwners(EMPTY, steps);
  }

  function DyingObjects(h: Heap): set<int> {
    set x | x in h.counts && h.counts[x] == 0
  }

  lemma StepDying(h: Heap, step: Step)
    requires CountsAreOwners(h) && Enabled(h, step) && IsMacro(step)
    ensures var x := Starts(h, step);
            && x !in DyingObjects(h)
            && DyingObjects(Next(h, step)) == DyingObjects(h) + (if x == NULL then {} else {x})
  {
    hide Contents;
    match step
    case Decref(x) => assert h.counts[x] > 0;
    case _ =>
  }

  /** Such a run starts the deallocator of every object whose count it brings to 0, once each, and
      of no other object. */
  lemma {:induction false} EachDeallocatorStartsOnce(h: Heap, steps: seq<Step>)
    requires CountsAreOwners(h) && Runs(h, steps) && UsesMacros(steps)
    ensures Distinct(Started(h, steps)) && forall x <- Started(h, steps) :: x !in DyingObjects(h)
    ensures DyingObjects(After(h, steps)) == DyingObjects(h) + Elements(Started(h, steps))
    decreases |steps|
  {
    hide CountsAreOwners;
    hide DyingObjects;
    hide Next;
    hide Starts;
    if steps != [] {
      assert steps[0] in steps;
      StepKeepsOwners(h, steps[0]);
      StepDying(h, steps[0]);
      EachDeallocatorStartsOnce(Next(h, steps[0]), steps[1..]);
      var x, later := Starts(h, steps[0]), Started(Next(h, steps[0]), steps[1..]);
      if x != NULL {
        ElementsConcat([x], later);
        assert Elements([x]) == {x};
      }
    }
  }

  lemma StepCount(h: Heap, step: Step, x: int)
    requires Enabled(h, step) && IsMacro(step)
    ensures x in Next(h, step).counts <==> x in h.counts || step == NewReference(x)
    ensures x in h.counts ==>
              step != NewReference(x) && Next(h, step).counts[x] ==
              h.counts[x] + (if step == Incref(x) then 1 else 0) - (if step == Decref(x) then 1 else 0)
    ensures step == NewReference(x) ==> Next(h, step).counts[x] == 1
    ensures step == Incref(x) || step == Decref(x) ==> x in h.counts
  {
  }

  /** Every NewReference and INCREF of an object in a run raises its count by one, every DECREF lowers
      it by one, and nothing else changes it. */
  lemma {:induction false} CountsFollowSteps(h: Heap, steps: seq<Step>, x: int)
    requires Runs(h, steps) && UsesMacros(steps)
    ensures x in After(h, steps).counts <==> x in h.counts || NewReference(x) in steps
    ensures x in After(h, steps).counts ==>
              After(h, steps).counts[x] == (if x in h.counts then h.counts[x] else 0) +
              multiset(steps)[NewReference(x)] + multiset(steps)[Incref(x)] - multiset(steps)[Decref(x)]
    ensures x !in After(h, steps).counts ==> Incref(x) !in steps && Decref(x) !in steps
    decreases |steps|
  {
    hide Next;
    hide Enabled;
    if steps != [] {
      assert steps == [steps[0]] + steps[1..] && steps[0] in steps;
      StepCount(h, steps[0], x);
      CountsFollowSteps(Next(h, steps[0]), steps[1..], x);
    }
  }

  // Py_CLEAR, Py_SETREF and Py_XSETREF themselves are a Swap followed, when the old value was
  // not NULL, by a Decref of it, with anything at all in between.
  function Replace(h: Heap, s: int, v: int): seq<Step>
    requires 0 <= s < |h.slots|
  {
    if h.slots[s].value == NULL then [Swap(s, v)] else [Swap(s, v), Decref(h.slots[s].value)]
  }

  lemma TwoSteps(h: Heap, a: Step, b: Step)
    requires Enabled(h, a) && Enabled(Next(h, a), b)
    ensures Runs(h, [a, b]) && After(h, [a, b]) == Next(Next(h, a), b)
  {
    hide Next;
    hide Enabled;
    var h2 := Next(Next(h, a), b);
    assert [a, b][1..] == [b] && [b][1..] == [];
    assert Runs(h2, []) && Runs(Next(h, a), [b]);
    assert After(h2, []) == h2 && After(Next(h, a), [b]) == h2;
  }

  /** Replacing the contents of a slot moves one reference in, drops one out, and leaves every
      other slot and running reference alone. */
  lemma ReplaceIsBalanced(h: Heap, s: int, v: int)
    requires CountsAreOwners(h) && Enabled(h, Swap(s, v))
    ensures Runs(h, Replace(h, s, v))
    ensures var h' := After(h, Replace(h, s, v));
            && h'.slots == h.slots[s := h.slots[s].(value := v)]
            && h'.temps == Without(h.temps, v)
            && CountsAreOwners(h')
  {
    hide CountsAreOwners;
    var tmp, h1 := h.slots[s].value, Next(h, Swap(s, v));
    StepKeepsOwners(h, Swap(s, v));
    if tmp == NULL {
      assert Runs(h1, []);
    } else {
      SlotIsKnown(h, s);
      StepKeepsOwners(h1, Decref(tmp));
      TwoSteps(h, Swap(s, v), Decref(tmp));
    }
  }

  lemma SlotIsKnown(h: Heap, s: int)
    requires CountsAreOwners(h) && Usable(h, s)
    ensures h.slots[s].value != NULL ==> Alive(h, h.slots[s].value)
  {
    WriteContents(h.slots, s, h.slots[s]);
  }

  // ---- The obvious code -------------------------------------------------------------------------

  function ObviousCode(s: int, v: int): seq<Step> {
    [DecrefInPlace(s), StoreInPlace(s, v)]
  }

  lemma SameEnd(h: Heap, s: int, v: int)
    requires Enabled(h, Swap(s, v)) && h.slots[s].value != NULL && h.slots[s].value in h.counts
    ensures Enabled(h, DecrefInPlace(s)) && Enabled(Next(h, DecrefInPlace(s)), StoreInPlace(s, v))
    ensures Enabled(Next(h, Swap(s, v)), Decref(h.slots[s].value))
    ensures Next(Next(h, DecrefInPlace(s)), StoreInPlace(s, v)) == Next(Next(h, Swap(s, v)), Decref(h.slots[s].value))
  {
    assert Without(h.temps, v) + multiset{h.slots[s].value} - multiset{h.slots[s].value} == Without(h.temps, v);
  }

  lemma ObviousCodeEndsAsMacro(h: Heap, s: int, v: int)
    requires CountsAreOwners(h) && Enabled(h, Swap(s, v)) && h.slots[s].value != NULL
    ensures Runs(h, ObviousCode(s, v)) && Runs(h, Replace(h, s, v))
    ensures After(h, ObviousCode(s, v)) == After(h, Replace(h, s, v))
  {
    SlotIsKnown(h, s);
    SameEnd(h, s, v);
    hide CountsAreOwners;
    hide Next;
    hide Enabled;
    TwoSteps(h, DecrefInPlace(s), StoreInPlace(s, v));
    TwoSteps(h, Swap(s, v), Decref(h.slots[s].value));
  }

  lemma SecondStartsNothing(h: Heap, a: Step, b: Step)
    requires Enabled(h, a) && Enabled(Next(h, a), b) && Starts(Next(h, a), b) == NULL
    ensures Runs(h, [a, b])
    ensures StartsSafely(h, [a, b]) <==> (Starts(h, a) != NULL ==> Unreferenced(Next(h, a), Starts(h, a)))
  {
    hide Next;
    hide Enabled;
    hide Starts;
    hide Unreferenced;
    TwoSteps(h, a, b);
    var h1 := Next(h, a);
    assert [a, b][1..] == [b] && [b][1..] == [];
    assert Runs(Next(h1, b), []) && StartsSafely(Next(h1, b), []);
    assert Runs(h1, [b]) && StartsSafely(h1, [b]);
  }

  /** With nothing in between, the two halves of the obvious code end as the macros do; but they are
      safe if and only if the slot was not the last owner: otherwise the deallocator starts while
      the slot still refers to the object. */
  lemma ObviousCodeSafeIff(h: Heap, s: int, v: int)
    requires CountsAreOwners(h) && Enabled(h, Swap(s, v)) && h.slots[s].value != NULL
    ensures Runs(h, ObviousCode(s, v)) && Runs(h, Replace(h, s, v))
    ensures After(h, ObviousCode(s, v)) == After(h, Replace(h, s, v))
    ensures StartsSafely(h, ObviousCode(s, v)) <==> h.counts[h.slots[s].value] > 1
  {
    hide CountsAreOwners;
    ObviousCodeEndsAsMacro(h, s, v);
    SlotIsKnown(h, s);
    SecondStartsNothing(h, DecrefInPlace(s), StoreInPlace(s, v));
    assert Next(h, DecrefInPlace(s)).slots == h.slots;
  }

  // The last step of a run starts the deallocator of x while slot s still refers to it.
  ghost predicate StartsWhileHeld(h: Heap, steps: seq<Step>, s: int, x: int)
    decreases |steps|
  {
    && steps != [] && Enabled(h, steps[0])
    && if |steps| > 1 then StartsWhileHeld(Next(h, steps[0]), steps[1..], s, x)
       else Starts(h, steps[0]) == x && Usable(Next(h, steps[0]), s) && Next(h, steps[0]).slots[s].value == x
  }

  // The heap as it was before the first half.
  function Restored(h: Heap, x: int): Heap
    requires x in h.counts
  {
    h.(counts := h.counts[x := h.counts[x] + 1])
  }

  // Slot s still refers to x, and the decrement for it has been made.
  ghost predicate HalfDone(h: Heap, s: int, x: int) {
    && x != NULL && x in h.counts && Usable(h, s) && h.slots[s].value == x
    && CountsAreOwners(Restored(h, x))
  }

  lemma HalfDoneBegins(h: Heap, s: int)
    requires CountsAreOwners(h) && Enabled(h, DecrefInPlace(s))
    ensures HalfDone(Next(h, DecrefInPlace(s)), s, h.slots[s].value)
    ensures Next(h, DecrefInPlace(s)).counts[h.slots[s].value] >= 0
  {
    var x := h.slots[s].value;
    SlotIsKnown(h, s);
    assert Restored(Next(h, DecrefInPlace(s)), x) == h by {
      assert h.counts[x := h.counts[x] - 1][x := h.counts[x]] == h.counts;
    }
  }

  lemma AnotherSlot(h: Heap, s: int, x: int) returns (t: int)
    requires CountsAreOwners(h) && Usable(h, s) && h.slots[s].value == x != NULL
    requires x !in h.temps && x in h.counts && h.counts[x] > 1
    ensures Usable(h, t) && h.slots[t].value == x && t != s
  {
    var c := Contents(h.slots);
    var others := c[s := NULL];
    assert multiset(others) == multiset(c) - multiset{x} + multiset{NULL};
    assert x in multiset(others);
    t :| 0 <= t < |others| && others[t] == x;
  }

  // Code that runs in between can get hold of a reference to x, out of another slot if need be.
  lemma GetsReference(h: Heap, s: int, x: int) returns (steps: seq<Step>, h': Heap)
    requires HalfDone(h, s, x) && h.counts[x] > 0
    ensures UsesMacros(steps)
    ensures if steps == [] then h' == h else |steps| == 1 && Enabled(h, steps[0]) && h' == Next(h, steps[0])
    ensures HalfDone(h', s, x) && h'.counts == h.counts && Enabled(h', Decref(x))
  {
    hide CountsAreOwners;
    steps, h' := [], h;
    if x !in h.temps {
      var r := Restored(h, x);
      var t := AnotherSlot(r, s, x);
      steps, h' := [Swap(t, NULL)], Next(h, Swap(t, NULL));
      StepKeepsOwners(r, Swap(t, NULL));
      assert Restored(h', x) == Next(r, Swap(t, NULL));
    }
  }

  // And drop it.
  lemma DropsReference(h: Heap, s: int, x: int)
    requires HalfDone(h, s, x) && Enabled(h, Decref(x))
    ensures HalfDone(Next(h, Decref(x)), s, x) && h.counts[x] > 0
  {
    hide Contents;
    var r, h' := Restored(h, x), Next(h, Decref(x));
    StepKeepsOwners(r, Decref(x));
    assert Restored(h', x) == Next(r, Decref(x)) by {
      assert h.counts[x := h.counts[x] - 1][x := h.counts[x]] == h.counts[x := h.counts[x] + 1][x := h.counts[x]];
    }
    OtherOwners(h, s, x);
  }

  lemma OtherOwners(h: Heap, s: int, x: int)
    requires HalfDone(h, s, x) && x in h.temps
    ensures h.counts[x] > 0
  {
    WriteContents(h.slots, s, h.slots[s]);
    hide Contents;
  }

  lemma StepThenStarts(h: Heap, step: Step, steps: seq<Step>, s: int, x: int)
    requires Enabled(h, step) && StartsWhileHeld(Next(h, step), steps, s, x)
    ensures StartsWhileHeld(h, [step] + steps, s, x)
  {
    hide Next;
    hide Enabled;
    hide Starts;
    assert ([step] + steps)[1..] == steps;
  }

  lemma {:induction false} OwnersLetGo(h: Heap, s: int, x: int) returns (steps: seq<Step>)
    requires HalfDone(h, s, x) && h.counts[x] > 0
    ensures UsesMacros(steps) && StartsWhileHeld(h, steps, s, x)
    decreases h.counts[x]
  {
    hide CountsAreOwners;
    hide Restored;
    var first, h1 := GetsReference(h, s, x);
    DropsReference(h1, s, x);
    var h2 := Next(h1, Decref(x));
    var last := [Decref(x)];
    if h.counts[x] > 1 {
      var rest := OwnersLetGo(h2, s, x);
      StepThenStarts(h1, Decref(x), rest, s, x);
      last := last + rest;
    }
    steps := last;
    if first != [] {
      StepThenStarts(h, first[0], last, s, x);
      steps := [first[0]] + last;
    }
  }

  /** However many owners the object has, code that runs between the two halves and uses the macros
      only can start the deallocator while the slot still refers to the object. */
  lemma ObviousCodeIsDeadly(h: Heap, s: int) returns (between: seq<Step>)
    requires CountsAreOwners(h) && Enabled(h, DecrefInPlace(s))
    ensures UsesMacros(between)
    ensures StartsWhileHeld(h, [DecrefInPlace(s)] + between, s, h.slots[s].value)
  {
    hide CountsAreOwners;
    hide Restored;
    var x, h1 := h.slots[s].value, Next(h, DecrefInPlace(s));
    HalfDoneBegins(h, s);
    between := [];
    if h.counts[x] > 1 {
      between := OwnersLetGo(h1, s, x);
      StepThenStarts(h, DecrefInPlace(s), between, s, x);
    }
  }

  /** A run from the empty heap that shows it: one object, owned by one slot. */
  lemma ObviousCodeExample()
    ensures StartsWhileHeld(EMPTY, [NewReference(7), NewSlot(NULL), Swap(0, 7), DecrefInPlace(0)], 0, 7)
  {
    var h1 := Next(EMPTY, NewReference(7));
    var h2 := Next(h1, NewSlot(NULL));
    var h3 := Next(h2, Swap(0, 7));
    assert StartsWhileHeld(h3, [DecrefInPlace(0)], 0, 7);
    StepThenStarts(h2, Swap(0, 7), [DecrefInPlace(0)], 0, 7);
    StepThenStarts(h1, NewSlot(NULL), [Swap(0, 7), DecrefInPlace(0)], 0, 7);
    assert [NewReference(7), NewSlot(NULL), Swap(0, 7), DecrefInPlace(0)] ==
           [NewReference(7)] + ([NewSlot(NULL)] + ([Swap(0, 7)] + [DecrefInPlace(0)]));
    StepThenStarts(EMPTY, NewReference(7), [NewSlot(NULL), Swap(0, 7), DecrefInPlace(0)], 0, 7);
  }
}