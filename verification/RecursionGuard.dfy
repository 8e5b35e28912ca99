/** The two-level recursion guard of Include/ceval.h and Python/ceval.c, with the checked
    limit change of Python/sysmodule.c. `recursion_critical` is never set here. */
module RecursionGuard {

  const DEFAULT_RECURSION_LIMIT := 1000

  datatype State = State(depth: int, overflowed: bool, limit: int)

  datatype Outcome = Done | RecursionError | ValueError | FatalError

  datatype Event = Enter | Leave | SetLimit(newLimit: int)

  function LowWaterMark(limit: int): int {
    if limit > 200 then limit - 50 else 3 * (limit / 4)
  }

  // ---- The machine ------------------------------------------------------------------------

  class ThreadState {
    var recursionDepth: int
    var overflowed: bool
    var recursionLimit: int

    function View(): State
      reads this
    {
      State(recursionDepth, overflowed, recursionLimit)
    }

    constructor ()
      ensures View() == Initial()
      ensures Safe(View()) && Resettable(View()) && AboveMark(View())
      ensures recursionDepth == 0 && !overflowed && recursionLimit == 1000
    {
      recursionDepth, overflowed, recursionLimit := 0, false, DEFAULT_RECURSION_LIMIT;
      new;
      InitialIsSafe();
    }

    /** Py_EnterRecursiveCall, from a safe state: the error comes exactly at the limit with the flag
        clear, the abort exactly 50 levels above it with the flag set, and short of an abort the
        state stays safe. A call that raises does not count as entered. */
    method EnterRecursiveCall() returns (outcome: Outcome)
      modifies this
      ensures old(Safe(View())) ==>
                && (outcome.RecursionError? <==> !old(overflowed) && old(recursionDepth) == recursionLimit)
                && (outcome.FatalError? <==> old(overflowed) && old(recursionDepth) == recursionLimit + 50)
                && (outcome.FatalError? || Safe(View()))
      ensures outcome.RecursionError? ==> View() == old(View()).(overflowed := true)
      ensures outcome.Done? ==> View() == old(View()).(depth := old(recursionDepth) + 1)
      ensures (View(), outcome) == Step(old(View()), Enter)
    {
      StepIsSafeIf(View(), Enter);
      recursionDepth := recursionDepth + 1;
      if recursionDepth > recursionLimit {
        outcome := CheckRecursiveCall();
      } else {
        outcome := Done;
      }
    }

    /** _Py_CheckRecursiveCall, with the depth already raised: the error is raised exactly above the
        limit with the flag clear, and takes the level back; the flag once set, nothing happens
        until the depth passes the limit by more than 50. One level above a safe state it
        leads back to a safe one, or aborts. */
    method CheckRecursiveCall() returns (outcome: Outcome)
      modifies this
      ensures outcome.RecursionError? <==> !old(overflowed) && old(recursionDepth) > recursionLimit
      ensures outcome.RecursionError? ==> View() == State(old(recursionDepth) - 1, true, old(recursionLimit))
      ensures outcome.FatalError? <==> old(overflowed) && old(recursionDepth) > recursionLimit + 50
      ensures !outcome.RecursionError? ==> View() == old(View()) && !outcome.ValueError?
      ensures old(Safe(View().(depth := recursionDepth - 1))) ==> outcome.FatalError? || Safe(View())
      ensures (View(), outcome) == Checked(old(View()))
    {
      if overflowed {
        if recursionDepth > recursionLimit + 50 {
          return FatalError;
        }
        return Done;
      }
      if recursionDepth > recursionLimit {
        recursionDepth := recursionDepth - 1;
        overflowed := true;
        return RecursionError;
      }
      return Done;
    }

    /** Py_LeaveRecursiveCall: below the low-water mark the flag is clear, at or above it the flag is
        as it was; the depth goes back by one level, and a safe state stays safe. */
    method LeaveRecursiveCall() returns (outcome: Outcome)
      modifies this
      ensures outcome.Done? && recursionDepth == old(recursionDepth) - 1 && recursionLimit == old(recursionLimit)
      ensures AboveMark(View())
      ensures recursionLimit > 200 ==> (overflowed <==> old(overflowed) && recursionDepth >= recursionLimit - 50)
      ensures recursionLimit <= 200 ==> (overflowed <==> old(overflowed) && recursionDepth >= 3 * (recursionLimit / 4))
      ensures old(Safe(View())) && old(recursionDepth) > 0 ==>
                Safe(View()) && (old(Resettable(View())) ==> Resettable(View()))
      ensures (View(), outcome) == Step(old(View()), Leave)
    {
      StepIsSafeIf(View(), Leave);
      recursionDepth := recursionDepth - 1;
      if recursionDepth < LowWaterMark(recursionLimit) {
        overflowed := false;
      }
      return Done;
    }

    /** sys.setrecursionlimit: a limit below 1 and a limit whose mark the depth has reached are
        refused, and nothing changes. An accepted limit keeps the state safe, is at least 4, and
        makes sure the flag can be reset: the next Leave clears it. */
    method SetRecursionLimit(newLimit: int) returns (outcome: Outcome)
      modifies this
      ensures outcome.Done? <==>
                newLimit >= 1 && old(recursionDepth) < if newLimit > 200 then newLimit - 50 else 3 * (newLimit / 4)
      ensures outcome.ValueError? <==> newLimit < 1
      ensures View() == if outcome.Done? then old(View()).(limit := newLimit) else old(View())
      ensures outcome.Done? ==> !Step(View(), Leave).0.overflowed
      ensures old(Safe(View())) ==> Safe(View()) && (outcome.Done? ==> recursionLimit >= 4)
      ensures (View(), outcome) == Step(old(View()), SetLimit(newLimit))
    {
      StepIsSafeIf(View(), SetLimit(newLimit));
      if newLimit < 1 {
        return ValueError;
      }
      var mark := LowWaterMark(newLimit);
      if recursionDepth >= mark {
        return RecursionError;
      }
      recursionLimit := newLimit;
      return Done;
    }
  }

  function Initial(): State {
    State(0, false, DEFAULT_RECURSION_LIMIT)
  }

  function Checked(s: State): (State, Outcome) {
    if s.overflowed then (s, if s.depth > s.limit + 50 then FatalError else Done)
    else if s.depth > s.limit then (State(s.depth - 1, true, s.limit), RecursionError)
    else (s, Done)
  }

  function Step(s: State, e: Event): (State, Outcome) {
    match e
    case Enter =>
      var t := s.(depth := s.depth + 1);
      if t.depth > t.limit then Checked(t) else (t, Done)
    case Leave =>
      (State(s.depth - 1, s.overflowed && s.depth - 1 >= LowWaterMark(s.limit), s.limit), Done)
    case SetLimit(n) =>
      if n < 1 then (s, ValueError)
      else if s.depth >= LowWaterMark(n) then (s, RecursionError)
      else (s.(limit := n), Done)
  }

  // ---- Runs -------------------------------------------------------------------------------

  // The state after a run. A fatal error ends the process, so nothing follows it.
  function Run(s: State, events: seq<Event>): State
    decreases |events|
  {
    if events == [] then s else Run(Step(s, events[0]).0, events[1..])
  }

  // Every Leave matches an earlier Enter that succeeded, and no step aborts the process.
  ghost predicate Legal(s: State, events: seq<Event>)
    decreases |events|
  {
    events != [] ==>
      && (events[0].Leave? ==> s.depth > 0)
      && !Step(s, events[0]).1.FatalError?
      && Legal(Step(s, events[0]).0, events[1..])
  }

  function Leaves(events: seq<Event>): nat
    decreases |events|
  {
    if events == [] then 0 else (if events[0].Leave? then 1 else 0) + Leaves(events[1..])
  }

  predicate KeepsLimit(events: seq<Event>) {
    forall e <- events :: !e.SetLimit?
  }

  function Repeat(e: Event, n: nat): (events: seq<Event>)
    ensures |events| == n && forall x <- events :: x == e
  {
    if n == 0 then [] else [e] + Repeat(e, n - 1)
  }

  // ---- What every run keeps -----------------------------------------------------------------

  // The flag clear bounds the depth by the limit, the flag set leaves 50 levels of grace.
  predicate Safe(s: State) {
    && 0 <= s.depth <= s.limit + 50 && s.limit >= 1
    && (!s.overflowed ==> s.depth <= s.limit)
  }

  // A set flag can be reset: there is a level to leave, and the mark is above 0.
  predicate Resettable(s: State) {
    LowWaterMark(s.limit) >= 1 && (s.overflowed ==> s.depth >= 1)
  }

  predicate AboveMark(s: State) {
    s.overflowed ==> s.depth >= LowWaterMark(s.limit)
  }

  lemma MarkAtMostLimit(limit: int)
    requires limit >= 0
    ensures 0 <= LowWaterMark(limit) <= limit
    ensures LowWaterMark(limit) >= 1 <==> limit >= 4
  {
  }

  lemma StepIsSafe(s: State, e: Event)
    requires Safe(s) && (e.Leave? ==> s.depth > 0)
    ensures Step(s, e).1.FatalError? || Safe(Step(s, e).0)
    ensures Resettable(s) ==> Resettable(Step(s, e).0)
  {
    MarkAtMostLimit(s.limit);
    if e.SetLimit? && e.newLimit >= 1 {
      MarkAtMostLimit(e.newLimit);
    }
  }

  lemma StepIsSafeIf(s: State, e: Event)
    ensures Safe(s) && (e.Leave? ==> s.depth > 0) ==>
              && (Step(s, e).1.FatalError? || Safe(Step(s, e).0))
              && (Resettable(s) ==> Resettable(Step(s, e).0))
              && (e.SetLimit? && Step(s, e).1.Done? ==> e.newLimit >= 4)
  {
    if Safe(s) && (e.Leave? ==> s.depth > 0) {
      StepIsSafe(s, e);
      if e.SetLimit? {
        AcceptedLimit(s, e.newLimit);
      }
    }
  }

  /** Every state of every run, with the limit changed at will along the way, is safe: without
      an abort the depth never passes the limit by more than 50, and never passes it at all
      while the flag is clear. */
  lemma {:induction false} RunIsSafe(s: State, events: seq<Event>)
    requires Safe(s) && Legal(s, events)
    ensures Safe(Run(s, events))
    ensures Resettable(s) ==> Resettable(Run(s, events))
    decreases |events|
  {
    if events != [] {
      StepIsSafe(s, events[0]);
      RunIsSafe(Step(s, events[0]).0, events[1..]);
    }
  }

  lemma InitialIsSafe()
    ensures Safe(Initial()) && Resettable(Initial()) && AboveMark(Initial())
  {
  }

  /** In a safe state, entering raises RecursionError exactly at the limit with the flag clear,
      and aborts exactly 50 levels above the limit with the flag set. */
  lemma EnterOutcome(s: State)
    requires Safe(s)
    ensures Step(s, Enter).1 == RecursionError <==> !s.overflowed && s.depth == s.limit
    ensures Step(s, Enter).1 == FatalError <==> s.overflowed && s.depth == s.limit + 50
    ensures Step(s, Enter).1 == RecursionError ==> Step(s, Enter).0 == s.(overflowed := true)
  {
  }

  /** While the limit stays fixed, a set flag means a depth at or above the low-water mark. */
  lemma {:induction false} FlagMeansAboveMark(s: State, events: seq<Event>)
    requires Safe(s) && AboveMark(s) && Legal(s, events) && KeepsLimit(events)
    ensures AboveMark(Run(s, events)) && Run(s, events).limit == s.limit
    decreases |events|
  {
    if events != [] {
      assert events[0] in events;
      MarkAtMostLimit(s.limit);
      StepIsSafe(s, events[0]);
      FlagMeansAboveMark(Step(s, events[0]).0, events[1..]);
    }
  }

  // ---- Consecutive errors -------------------------------------------------------------------

  lemma {:induction false} ClearingTakesLeaves(s: State, events: seq<Event>)
    requires s.overflowed && Legal(s, events) && KeepsLimit(events)
    requires !Run(s, events).overflowed
    ensures Leaves(events) >= s.depth - LowWaterMark(s.limit) + 1
    decreases |events|
  {
    assert events[0] in events;
    var t := Step(s, events[0]).0;
    if t.overflowed {
      ClearingTakesLeaves(t, events[1..]);
    }
  }

  /** After a RecursionError at a fixed limit, the next one takes at least limit - mark + 1
      Leave steps: 51 above a limit of 200, about a quarter of the limit up to there. */
  lemma ErrorsAreFarApart(s: State, events: seq<Event>)
    requires Safe(s) && Step(s, Enter).1 == RecursionError
    requires Legal(Step(s, Enter).0, events) && KeepsLimit(events)
    requires Step(Run(Step(s, Enter).0, events), Enter).1 == RecursionError
    ensures Leaves(events) >= if s.limit > 200 then 51 else s.limit - 3 * (s.limit / 4) + 1
  {
    EnterOutcome(s);
    ClearingTakesLeaves(Step(s, Enter).0, events);
  }

  lemma {:induction false} LeaveMany(s: State, n: nat)
    requires n <= s.depth
    ensures Legal(s, Repeat(Leave, n))
    ensures var t := Run(s, Repeat(Leave, n));
            && t.depth == s.depth - n && t.limit == s.limit
            && t.overflowed == (s.overflowed && (n > 0 ==> t.depth >= LowWaterMark(s.limit)))
    ensures Leaves(Repeat(Leave, n)) == n
    decreases n
  {
    if n > 0 {
      LeaveMany(Step(s, Leave).0, n - 1);
    }
  }

  lemma {:induction false} EnterMany(s: State, n: nat)
    requires s.depth + n <= s.limit
    ensures Legal(s, Repeat(Enter, n))
    ensures Run(s, Repeat(Enter, n)) == s.(depth := s.depth + n)
    ensures Leaves(Repeat(Enter, n)) == 0
    decreases n
  {
    if n > 0 {
      EnterMany(Step(s, Enter).0, n - 1);
    }
  }

  lemma {:induction false} RunConcat(s: State, a: seq<Event>, b: seq<Event>)
    ensures Run(s, a + b) == Run(Run(s, a), b)
    ensures Legal(s, a) && Legal(Run(s, a), b) ==> Legal(s, a + b)
    ensures Leaves(a + b) == Leaves(a) + Leaves(b)
    decreases |a|
  {
    if a == [] {
      assert a + b == b;
    } else {
      assert (a + b)[1..] == a[1..] + b;
      RunConcat(Step(s, a[0]).0, a[1..], b);
    }
  }

  /** From limit 4 on that many Leave steps are also enough, so the bound is exact. (Below 4 there
      is no next error at all, see FlagStuckBelowFour.) */
  lemma BoundIsReached(s: State) returns (events: seq<Event>)
    requires Safe(s) && s.limit >= 4 && Step(s, Enter).1 == RecursionError
    ensures Legal(Step(s, Enter).0, events) && KeepsLimit(events)
    ensures Step(Run(Step(s, Enter).0, events), Enter).1 == RecursionError
    ensures Leaves(events) == if s.limit > 200 then 51 else s.limit - 3 * (s.limit / 4) + 1
  {
    EnterOutcome(s);
    MarkAtMostLimit(s.limit);
    var t, n := Step(s, Enter).0, s.limit - LowWaterMark(s.limit) + 1;
    LeaveMany(t, n);
    var low := Run(t, Repeat(Leave, n));
    EnterMany(low, n);
    RunConcat(t, Repeat(Leave, n), Repeat(Enter, n));
    events := Repeat(Leave, n) + Repeat(Enter, n);
  }

  // ---- Resetting the flag ---------------------------------------------------------------------

  /** From any state a run can reach, unwinding the whole stack clears the flag. */
  lemma UnwindingClearsFlag(s: State, events: seq<Event>)
    requires Safe(s) && Resettable(s) && Legal(s, events)
    ensures var t := Run(s, events);
            t.depth >= 0 && !Run(t, Repeat(Leave, t.depth)).overflowed
  {
    RunIsSafe(s, events);
    var t := Run(s, events);
    LeaveMany(t, t.depth);
  }

  /** The checked limit change is what makes that true: it accepts a limit exactly when the
      current depth is below the new mark, hence never 1, 2 or 3, and the next Leave clears
      the flag. */
  lemma AcceptedLimit(s: State, newLimit: int)
    requires s.depth >= 0
    ensures Step(s, SetLimit(newLimit)).1 == Done <==>
            newLimit >= 1 && s.depth < if newLimit > 200 then newLimit - 50 else 3 * (newLimit / 4)
    ensures Step(s, SetLimit(newLimit)).1 == Done ==>
              newLimit >= 4 && !Step(Step(s, SetLimit(newLimit)).0, Leave).0.overflowed
  {
    if newLimit >= 1 {
      MarkAtMostLimit(newLimit);
    }
  }

  /** With a limit below 4, which only the unchecked C call can set, the mark is 0 and a set
      flag stays set for ever. */
  lemma {:induction false} FlagStuckBelowFour(s: State, events: seq<Event>)
    requires 0 <= s.limit < 4 && s.overflowed && Legal(s, events) && KeepsLimit(events)
    ensures Run(s, events).overflowed
    decreases |events|
  {
    if events != [] {
      assert events[0] in events;
      FlagStuckBelowFour(Step(s, events[0]).0, events[1..]);
    }
  }
}
