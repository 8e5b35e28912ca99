/** The power-of-two rounding macros of Include/pymacro.h and the object size they feed
    (Include/objimpl.h). `size_t` and `uintptr_t` are words of `w` bits, for any `w`. */
module SizeRounding {
  import opened Bits

  // A conversion to an unsigned word of w bits.
  function Wrap(x: int, w: nat): nat {
    x % Pow2(w)
  }

  function LowBits(a: int, w: nat): nat {
    Wrap(a - 1, w)
  }

  function HighMask(a: int, w: nat): nat {
    Wrap(Not(LowBits(a, w)), w)
  }

  // _Py_SIZE_ROUND_DOWN, and _Py_ALIGN_DOWN on an address.
  function RoundDown(n: int, a: int, w: nat): int {
    And(Wrap(n, w), HighMask(a, w))
  }

  // _Py_SIZE_ROUND_UP, and _Py_ALIGN_UP on an address.
  function RoundUp(n: int, a: int, w: nat): int {
    And(Wrap(Wrap(n, w) + LowBits(a, w), w), HighMask(a, w))
  }

  predicate IsAligned(p: int, a: int, w: nat) {
    And(Wrap(p, w), LowBits(a, w)) == 0
  }

  // _PyObject_VAR_SIZE: the header, the items, rounded up to whole pointers.
  function VarSize(basicsize: int, itemsize: int, nitems: int, pointerSize: int, w: nat): int {
    RoundUp(basicsize + nitems * itemsize, pointerSize, w)
  }

  lemma WrapSmall(x: int, w: nat)
    requires 0 <= x < Pow2(w)
    ensures Wrap(x, w) == x
  {
    ModUnique(x, Pow2(w), 0, x);
  }

  // The mask arithmetic in one place: and-ing with ~(a-1) drops the remainder modulo a.
  lemma MaskDropsRemainder(n: int, k: nat, w: nat)
    requires 0 <= n < Pow2(w) && k < w
    ensures LowBits(Pow2(k), w) == Pow2(k) - 1
    ensures And(n, HighMask(Pow2(k), w)) == n - n % Pow2(k)
  {
    var a := Pow2(k);
    Pow2Monotone(k, w);
    WrapSmall(a - 1, w);
    var c := And(n, Not(a - 1));
    assert c == n - n % a by { AndHighMask(n, k); }
    assert 0 <= c <= n by { RemainderAtMost(n, a); }
    assert c % Pow2(w) == c by { WrapSmall(c, w); }
    assert n % Pow2(w) == n by { WrapSmall(n, w); }
    assert c % Pow2(w) == And(n % Pow2(w), HighMask(a, w)) by { AndModPow2(n, Not(a - 1), w); }
  }

  lemma RemainderAtMost(n: int, a: int)
    requires n >= 0 && a > 0
    ensures 0 <= n - n % a <= n
  {
    assert n == (n / a) * a + n % a;
    assert n / a >= 0;
    MulMonotone(0, n / a, a);
  }

  lemma MultipleBounds(m: int, n: int, a: int)
    requires a > 0 && m % a == 0
    ensures m <= n ==> m <= n - n % a
    ensures m > n - n % a ==> m >= n - n % a + a
  {
    var p, q := m / a, n / a;
    assert m == p * a && n - n % a == q * a;
    if p <= q {
      MulMonotone(p, q, a);
    } else {
      MulMonotone(q + 1, p, a);
      assert (q + 1) * a == q * a + a;
    }
  }

  lemma DropRemainder(n: int, a: int)
    requires a > 0
    ensures (n - n % a) % a == 0
  {
    var q := n / a;
    assert n - n % a == q * a + 0;
    ModUnique(n - n % a, a, q, 0);
  }

  ghost predicate GreatestMultipleAtMost(r: int, a: int, n: int)
    requires a > 0
  {
    r % a == 0 && r <= n && forall m :: m % a == 0 && m <= n ==> m <= r
  }

  ghost predicate LeastMultipleAtLeast(r: int, a: int, n: int)
    requires a > 0
  {
    r % a == 0 && n <= r && forall m :: m % a == 0 && n <= m ==> r <= m
  }

  /** Rounding down gives the greatest multiple of the alignment that is at most n. */
  lemma RoundDownIsGreatestMultiple(n: int, k: nat, w: nat)
    requires 0 <= n < Pow2(w) && k < w
    ensures GreatestMultipleAtMost(RoundDown(n, Pow2(k), w), Pow2(k), n)
  {
    var a := Pow2(k);
    WrapSmall(n, w);
    MaskDropsRemainder(n, k, w);
    DropRemainder(n, a);
    forall m | m % a == 0 && m <= n ensures m <= n - n % a {
      MultipleBounds(m, n, a);
    }
  }

  /** Rounding up gives the least multiple that is at least n exactly when n + (a-1) still
      fits the word; when it does not, the macro yields 0. */
  lemma RoundUpIsLeastMultipleIff(n: int, k: nat, w: nat)
    requires 0 <= n < Pow2(w) && k < w
    ensures LeastMultipleAtLeast(RoundUp(n, Pow2(k), w), Pow2(k), n) <==> n + (Pow2(k) - 1) < Pow2(w)
    ensures n + (Pow2(k) - 1) >= Pow2(w) ==> RoundUp(n, Pow2(k), w) == 0
  {
    hide And;
    var a, top := Pow2(k), Pow2(w);
    Pow2Monotone(k, w);
    WrapSmall(n, w);
    var s := n + (a - 1);
    if s < top {
      WrapSmall(s, w);
      MaskDropsRemainder(s, k, w);
      DropRemainder(s, a);
      var r := s - s % a;
      assert n <= r;
      forall m | m % a == 0 && n <= m ensures r <= m {
        RoundedBelow(r, m, a, n);
      }
      assert RoundUp(n, a, w) == r by { assert LowBits(a, w) == a - 1; }
    } else {
      MaskDropsRemainder(n, k, w);
      ModUnique(s, top, 1, s - top);
      MaskDropsRemainder(s - top, k, w);
      assert s - top < a;
      ModUnique(s - top, a, 0, s - top);
    }
  }

  // Two multiples less than a apart are equal.
  lemma RoundedBelow(r: int, m: int, a: int, n: int)
    requires a > 0 && r % a == 0 && m % a == 0 && n <= m && r < n + a
    ensures r <= m
  {
    assert r == (r / a) * a && m == (m / a) * a;
    CancelFactor(r / a, m / a, a);
    MulMonotone(r / a, m / a, a);
  }

  lemma CancelFactor(p: int, q: int, a: int)
    requires a > 0 && p * a < q * a + a
    ensures p <= q
  {
    if p >= q + 1 {
      MulMonotone(q + 1, p, a);
    }
  }

  /** The alignment test holds exactly for the multiples of the alignment, which are exactly
      the values that rounding down leaves alone. */
  lemma IsAlignedIffMultiple(p: int, k: nat, w: nat)
    requires 0 <= p < Pow2(w) && k < w
    ensures IsAligned(p, Pow2(k), w) <==> p % Pow2(k) == 0
    ensures IsAligned(p, Pow2(k), w) <==> RoundDown(p, Pow2(k), w) == p
  {
    WrapSmall(p, w);
    MaskDropsRemainder(p, k, w);
    AndLowMask(p, k);
  }

  /** A variable-sized object gets a pointer-aligned size that holds its header and items and
      wastes less than one pointer, whenever the byte count itself does not overflow
      `Py_ssize_t`. */
  lemma VarSizeCoversAndAligns(basicsize: int, itemsize: int, nitems: int, k: nat, w: nat)
    requires k < w
    requires 0 <= basicsize + nitems * itemsize < Pow2(w - 1)
    ensures var size := VarSize(basicsize, itemsize, nitems, Pow2(k), w);
            && IsAligned(size, Pow2(k), w)
            && basicsize + nitems * itemsize <= size < basicsize + nitems * itemsize + Pow2(k)
  {
    hide And;
    var a, n := Pow2(k), basicsize + nitems * itemsize;
    Pow2Monotone(k, w - 1);
    assert Pow2(w) == 2 * Pow2(w - 1);
    RoundUpIsLeastMultipleIff(n, k, w);
    var s := n + (a - 1);
    WrapSmall(n, w);
    WrapSmall(s, w);
    MaskDropsRemainder(s, k, w);
    assert RoundUp(n, a, w) == s - s % a;
    IsAlignedIffMultiple(s - s % a, k, w);
  }
}
