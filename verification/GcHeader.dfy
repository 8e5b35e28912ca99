/** The packed `gc_refs` word of Include/objimpl.h: bit 0 is the "finalized" flag, the other
    w-1 bits are a signed state or count. The word is a `Py_ssize_t` of w bits. */
module GcHeader {
  import opened Bits
  import opened Outcomes

  const UNTRACKED := -2
  const REACHABLE := -3
  const TENTATIVELY_UNREACHABLE := -4

  // The values of a signed word of w bits.
  predicate IsWord(g: int, w: nat)
    requires w > 0
  {
    0 - Pow2(w - 1) <= g < Pow2(w - 1)
  }

  function Unsigned(g: int, w: nat): nat {
    g % Pow2(w)
  }

  function Signed(u: int, w: nat): int
    requires w > 0
  {
    var m := u % Pow2(w);
    if m < Pow2(w - 1) then m else m - Pow2(w)
  }

  // ((size_t) -1) << 1
  function RefsMask(w: nat): nat {
    Unsigned(2 * Unsigned(-1, w), w)
  }

  // gc_refs >> 1 on a signed word.
  function Refs(g: int): int {
    g / 2
  }

  // (gc_refs & ~MASK) | (((size_t) v) << 1), stored back into a signed word.
  function SetRefs(g: int, v: int, w: nat): int
    requires w > 0
  {
    Signed(Or(And(Unsigned(g, w), Unsigned(Not(RefsMask(w)), w)),
              Unsigned(2 * Unsigned(v, w), w)), w)
  }

  function Decref(g: int): int {
    g - 2
  }

  function Finalized(g: int): bool {
    And(g, 1) != 0
  }

  function SetFinalized(g: int, v: bool): int {
    Or(And(g, Not(1)), if v then 1 else 0)
  }

  // The values that survive the shift: signed numbers of w-1 bits.
  predicate Fits(v: int, w: nat)
    requires w > 1
  {
    0 - Pow2(w - 2) <= v < Pow2(w - 2)
  }

  lemma FlagIsLowBit(g: int)
    ensures Finalized(g) <==> g % 2 == 1
  {
    AndLowBit(g);
  }

  lemma HalfOfWord(w: nat)
    requires w > 1
    ensures Pow2(w) == 2 * Pow2(w - 1) && Pow2(w - 1) == 2 * Pow2(w - 2)
  {
  }

  lemma UnsignedKeepsParity(g: int, w: nat)
    requires w > 0
    ensures Unsigned(g, w) % 2 == g % 2
  {
    ModPow2Bits(g, w - 1);
  }

  // MASK is 2^w - 2, and its complement keeps the flag alone.
  lemma MaskValues(w: nat)
    requires w > 1
    ensures Unsigned(Not(RefsMask(w)), w) == 1
  {
    var m: int := Pow2(w);
    HalfOfWord(w);
    assert Unsigned(-1, w) == m - 1 by { ModUnique(-1, m, -1, m - 1); }
    assert RefsMask(w) == m - 2 by { ModUnique(2 * (m - 1), m, 1, m - 2); }
    ModUnique(1 - m, m, -1, 1);
  }

  // Converting to unsigned before shifting loses nothing modulo 2^w.
  lemma ShiftedValue(v: int, w: nat)
    requires w > 0
    ensures Unsigned(2 * Unsigned(v, w), w) == Unsigned(2 * v, w)
  {
    hide Pow2;
    DoubledRemainder(v, Pow2(w));
  }

  lemma ShiftedIsEven(v: int, w: nat)
    requires w > 0
    ensures Unsigned(2 * v, w) % 2 == 0
  {
    hide Unsigned;
    UnsignedKeepsParity(2 * v, w);
  }

  lemma DoubledRemainder(v: int, m: int)
    requires m > 0
    ensures (2 * (v % m)) % m == (2 * v) % m
  {
    var q := v / m;
    assert v == q * m + v % m;
    assert 2 * v == 2 * (v % m) + (2 * q) * m;
    SameRemainder(2 * v, 2 * (v % m), 2 * q, m);
  }

  lemma RemainderPlus(bit: int, x: int, m: int)
    requires m > 0
    ensures (bit + x % m) % m == (bit + x) % m
  {
    var q := x / m;
    assert x == q * m + x % m;
    SameRemainder(bit + x, bit + x % m, q, m);
  }

  // The flag bit and the doubled value are disjoint, so SET_REFS is a sum.
  lemma SetRefsIsSum(g: int, v: int, w: nat)
    requires w > 1
    ensures SetRefs(g, v, w) == Signed(g % 2 + 2 * v, w)
  {
    hide And;
    hide Or;
    hide Pow2;
    var u, d := Unsigned(g, w), Unsigned(2 * v, w);
    MaskValues(w);
    ShiftedValue(v, w);
    ShiftedIsEven(v, w);
    AndLowBit(u);
    UnsignedKeepsParity(g, w);
    OrLowBit(g % 2, d);
    RemainderPlus(g % 2, 2 * v, Pow2(w));
  }

  lemma SignedOfWord(g: int, w: nat)
    requires w > 0
    ensures IsWord(Signed(g, w), w)
    ensures IsWord(g, w) ==> Signed(g, w) == g
  {
    var m := Pow2(w);
    assert m == 2 * Pow2(w - 1);
    if IsWord(g, w) {
      ModUnique(g, m, if g >= 0 then 0 else -1, if g >= 0 then g else g + m);
    }
  }

  /** SET_REFS never touches the finalized flag, and REFS reads back the stored value exactly
      when that value fits in w-1 bits: all of -2, -3, -4 and every count below 2^(w-2). */
  lemma RefsReadsBackIff(g: int, v: int, w: nat)
    requires w > 1 && IsWord(g, w) && IsWord(v, w)
    ensures Refs(SetRefs(g, v, w)) == v <==> Fits(v, w)
    ensures Finalized(SetRefs(g, v, w)) == Finalized(g)
    ensures IsWord(SetRefs(g, v, w), w)
  {
    var r := SetRefs(g, v, w);
    SetRefsParity(g, v, w);
    assert IsWord(g % 2 + 2 * v, w) ==> r == g % 2 + 2 * v by {
      SetRefsIsSum(g, v, w);
      SignedOfWord(g % 2 + 2 * v, w);
    }
    FlagIsLowBit(g);
    FlagIsLowBit(r);
    HalfRange(r, g % 2, v, w);
  }

  lemma SetRefsParity(g: int, v: int, w: nat)
    requires w > 1
    ensures SetRefs(g, v, w) % 2 == g % 2
    ensures IsWord(SetRefs(g, v, w), w)
  {
    hide And;
    hide Pow2;
    var s := g % 2 + 2 * v;
    assert s % 2 == g % 2;
    var r := Signed(s, w);
    assert SetRefs(g, v, w) == r by { SetRefsIsSum(g, v, w); }
    assert IsWord(r, w) by { SignedOfWord(s, w); }
    assert r % 2 == s % 2 by { SignedParity(s, w); }
  }

  lemma HalfRange(r: int, bit: int, v: int, w: nat)
    requires w > 1 && 0 <= bit <= 1 && IsWord(r, w)
    requires IsWord(bit + 2 * v, w) ==> r == bit + 2 * v
    ensures r / 2 == v <==> Fits(v, w)
  {
    HalfOfWord(w);
  }

  /** SET_FINALIZED stores the flag and leaves the count or state alone. */
  lemma SetFinalizedKeepsRefs(g: int, v: bool, w: nat)
    requires w > 1 && IsWord(g, w)
    ensures Refs(SetFinalized(g, v)) == Refs(g)
    ensures Finalized(SetFinalized(g, v)) == v
    ensures IsWord(SetFinalized(g, v), w)
  {
    assert And(g, Not(1)) == g - g % 2 by {
      AndHighMask(g, 1);
      assert Pow2(1) == 2;
    }
    var bit, x := if v then 1 else 0, g - g % 2;
    assert x % 2 == 0;
    OrLowBit(bit, x);
    assert Or(x, bit) == Or(bit, x) by { AndCommutes(Not(x), Not(bit)); }
    FlagIsLowBit(SetFinalized(g, v));
    HalfOfWord(w);
  }

  // ---- Runs -------------------------------------------------------------------------------

  // What the word stands for.
  datatype Header = Header(refs: int, finalized: bool)

  datatype Op = SetRefsOp(v: int) | DecrefOp | TrackOp | UntrackOp | SetFinalizedOp(flag: bool)

  function Unpack(g: int): Header {
    Header(Refs(g), Finalized(g))
  }

  // One macro on the packed word; tracking a tracked object is a fatal error, and so is
  // untracking an untracked one (an assertion).
  function Step(g: int, op: Op, w: nat): Option<int>
    requires w > 0
  {
    match op
    case SetRefsOp(v) => Some(SetRefs(g, v, w))
    case DecrefOp => Some(Decref(g))
    case TrackOp => if Refs(g) != UNTRACKED then None else Some(SetRefs(g, REACHABLE, w))
    case UntrackOp => if Refs(g) == UNTRACKED then None else Some(SetRefs(g, UNTRACKED, w))
    case SetFinalizedOp(flag) => Some(SetFinalized(g, flag))
  }

  // The same macro on two independent fields.
  function FieldStep(h: Header, op: Op): Option<Header> {
    match op
    case SetRefsOp(v) => Some(h.(refs := v))
    case DecrefOp => Some(h.(refs := h.refs - 1))
    case TrackOp => if h.refs != UNTRACKED then None else Some(h.(refs := REACHABLE))
    case UntrackOp => if h.refs == UNTRACKED then None else Some(h.(refs := UNTRACKED))
    case SetFinalizedOp(flag) => Some(h.(finalized := flag))
  }

  function Run(g: int, ops: seq<Op>, w: nat): Option<int>
    requires w > 0
    decreases |ops|
  {
    if ops == [] then Some(g)
    else
      match Step(g, ops[0], w)
      case None => None
      case Some(g') => Run(g', ops[1..], w)
  }

  function FieldRun(h: Header, ops: seq<Op>): Option<Header>
    decreases |ops|
  {
    if ops == [] then Some(h)
    else
      match FieldStep(h, ops[0])
      case None => None
      case Some(h') => FieldRun(h', ops[1..])
  }

  // Every count the run stores fits: what the collector guarantees of its counts.
  ghost predicate CountsFit(h: Header, ops: seq<Op>, w: nat)
    requires w > 1
    decreases |ops|
  {
    Fits(h.refs, w) &&
    (ops != [] ==>
      match FieldStep(h, ops[0])
      case None => true
      case Some(h') => CountsFit(h', ops[1..], w))
  }

  lemma StepRefinesFields(g: int, op: Op, w: nat)
    requires w >= 4 && IsWord(g, w)
    requires FieldStep(Unpack(g), op).Some? ==> Fits(FieldStep(Unpack(g), op).value.refs, w)
    ensures Step(g, op, w).Some? <==> FieldStep(Unpack(g), op).Some?
    ensures Step(g, op, w).Some? ==>
              && IsWord(Step(g, op, w).value, w)
              && Unpack(Step(g, op, w).value) == FieldStep(Unpack(g), op).value
  {
    HalfOfWord(w);
    Pow2Monotone(2, w - 2);
    assert Pow2(2) == 4 by { assert Pow2(1) == 2; }
    match op
    case SetRefsOp(v) => RefsReadsBackIff(g, v, w);
    case DecrefOp =>
      FlagIsLowBit(g);
      FlagIsLowBit(g - 2);
    case TrackOp => RefsReadsBackIff(g, REACHABLE, w);
    case UntrackOp => RefsReadsBackIff(g, UNTRACKED, w);
    case SetFinalizedOp(flag) => SetFinalizedKeepsRefs(g, flag, w);
  }

  /** Over any run of the header macros whose counts fit, the packed word behaves as two
      independent fields, errors included. */
  lemma {:induction false} PackedRunRefinesFields(g: int, ops: seq<Op>, w: nat)
    requires w >= 4 && IsWord(g, w) && CountsFit(Unpack(g), ops, w)
    ensures Run(g, ops, w).Some? <==> FieldRun(Unpack(g), ops).Some?
    ensures Run(g, ops, w).Some? ==> Unpack(Run(g, ops, w).value) == FieldRun(Unpack(g), ops).value
    decreases |ops|
  {
    if ops != [] {
      if FieldStep(Unpack(g), ops[0]).Some? {
        assert CountsFit(FieldStep(Unpack(g), ops[0]).value, ops[1..], w);
      }
      StepRefinesFields(g, ops[0], w);
      match Step(g, ops[0], w)
      case None =>
      case Some(g') => PackedRunRefinesFields(g', ops[1..], w);
    }
  }

  predicate OnlyTracks(ops: seq<Op>) {
    forall op <- ops :: op.TrackOp? || op.UntrackOp? || op.SetFinalizedOp?
  }

  lemma StepTracks(g: int, op: Op, w: nat)
    requires w >= 4 && IsWord(g, w) && (Refs(g) == -2 || Refs(g) == -3)
    requires op.TrackOp? || op.UntrackOp? || op.SetFinalizedOp?
    ensures Step(g, op, w).Some? <==> !(op.TrackOp? && Refs(g) == -3) && !(op.UntrackOp? && Refs(g) == -2)
    ensures Step(g, op, w).Some? ==> IsWord(Step(g, op, w).value, w)
    ensures Step(g, op, w).Some? ==>
              Refs(Step(g, op, w).value) == if op.TrackOp? then -3 else if op.UntrackOp? then -2 else Refs(g)
  {
    hide IsWord;
    StatesFit(w);
    StepRefinesFields(g, op, w);
  }

  lemma StatesFit(w: nat)
    requires w >= 4
    ensures forall v :: -4 <= v <= 3 ==> Fits(v, w)
  {
    Pow2Monotone(2, w - 2);
    assert Pow2(1) == 2;
    assert Pow2(2) == 4;
  }

  /** In a run without errors TRACK and UNTRACK of one object alternate: the object is REACHABLE (-3)
      or UNTRACKED (-2), and which of them tells how many more TRACKs there were. */
  lemma {:induction false} TracksAlternate(g: int, ops: seq<Op>, w: nat)
    requires w >= 4 && IsWord(g, w) && (Refs(g) == -2 || Refs(g) == -3)
    requires OnlyTracks(ops)
    ensures Run(g, ops, w).Some? ==>
            var refs := Refs(Run(g, ops, w).value);
            && (refs == -2 || refs == -3)
            && multiset(ops)[TrackOp] + refs == multiset(ops)[UntrackOp] + Refs(g)
    decreases |ops|
  {
    hide IsWord;
    hide Step;
    hide Refs;
    if ops != [] {
      assert ops == [ops[0]] + ops[1..] && ops[0] in ops;
      StepTracks(g, ops[0], w);
      match Step(g, ops[0], w)
      case None =>
      case Some(g') => TracksAlternate(g', ops[1..], w);
    }
  }

  predicate NeverFinalizes(ops: seq<Op>) {
    forall op <- ops :: !op.SetFinalizedOp?
  }

  lemma StepKeepsFlag(g: int, op: Op, w: nat)
    requires w > 1 && !op.SetFinalizedOp?
    ensures Step(g, op, w).Some? ==> Finalized(Step(g, op, w).value) == Finalized(g)
  {
    FlagIsLowBit(g);
    if op.DecrefOp? {
      FlagIsLowBit(Decref(g));
    } else {
      var v := match op case SetRefsOp(v) => v case TrackOp => REACHABLE case _ => UNTRACKED;
      SetRefsParity(g, v, w);
      FlagIsLowBit(SetRefs(g, v, w));
    }
  }

  /** In any run, of any length and with any counts, only SET_FINALIZED changes the flag. */
  lemma {:induction false} FlagChangesOnlyBySetFinalized(g: int, ops: seq<Op>, w: nat)
    requires w > 1 && NeverFinalizes(ops)
    ensures Run(g, ops, w).Some? ==> Finalized(Run(g, ops, w).value) == Finalized(g)
    decreases |ops|
  {
    if ops != [] {
      assert ops[0] in ops;
      StepKeepsFlag(g, ops[0], w);
      match Step(g, ops[0], w)
      case None =>
      case Some(g') => FlagChangesOnlyBySetFinalized(g', ops[1..], w);
    }
  }

  lemma SignedParity(x: int, w: nat)
    requires w > 0
    ensures Signed(x, w) % 2 == x % 2
  {
    UnsignedKeepsParity(x, w);
    assert Pow2(w) == 2 * Pow2(w - 1);
  }
}
