/** Bitwise operators on unbounded two's-complement integers, as Python's `int` has them.
    A C word of `w` bits is the same operators followed by reduction modulo 2^w. */
module Bits {

  function Pow2(n: nat): (p: nat)
    ensures p > 0
  {
    if n == 0 then 1 else 2 * Pow2(n - 1)
  }

  // Both -1 and 0 are fixed by halving; every other integer moves towards one of them.
  function Magnitude(a: int): nat {
    if a >= 0 then a else -a - 1
  }

  predicate AllSignBits(a: int) {
    a == 0 || a == -1
  }

  function Not(a: int): int {
    -a - 1
  }

  function Xor(a: int, b: int): int
    decreases Magnitude(a) + Magnitude(b)
  {
    if AllSignBits(a) && AllSignBits(b) then (if a == b then 0 else -1)
    else 2 * Xor(a / 2, b / 2) + (if a % 2 == b % 2 then 0 else 1)
  }

  function And(a: int, b: int): int
    decreases Magnitude(a) + Magnitude(b)
  {
    if AllSignBits(a) && AllSignBits(b) then (if a == -1 then b else 0)
    else 2 * And(a / 2, b / 2) + (if a % 2 == 1 && b % 2 == 1 then 1 else 0)
  }

  function Or(a: int, b: int): int {
    Not(And(Not(a), Not(b)))
  }

  // The operators work bit by bit: low bit from low bits, the rest from the rest.

  lemma XorBits(a: int, b: int)
    ensures Xor(a, b) / 2 == Xor(a / 2, b / 2)
    ensures Xor(a, b) % 2 == (if a % 2 == b % 2 then 0 else 1)
  {
  }

  lemma AndBits(a: int, b: int)
    ensures And(a, b) / 2 == And(a / 2, b / 2)
    ensures And(a, b) % 2 == (if a % 2 == 1 && b % 2 == 1 then 1 else 0)
  {
  }

  // An integer is determined by its low bit and the rest.
  lemma FromBits(x: int, y: int)
    requires x / 2 == y / 2 && x % 2 == y % 2
    ensures x == y
  {
    assert x == 2 * (x / 2) + x % 2;
    assert y == 2 * (y / 2) + y % 2;
  }

  lemma {:induction false} XorCommutes(a: int, b: int)
    ensures Xor(a, b) == Xor(b, a)
    decreases Magnitude(a) + Magnitude(b)
  {
    if !(AllSignBits(a) && AllSignBits(b)) {
      XorCommutes(a / 2, b / 2);
    }
  }

  lemma {:induction false} AndCommutes(a: int, b: int)
    ensures And(a, b) == And(b, a)
    decreases Magnitude(a) + Magnitude(b)
  {
    if !(AllSignBits(a) && AllSignBits(b)) {
      AndCommutes(a / 2, b / 2);
    }
  }

  lemma {:induction false} XorAssociates(a: int, b: int, c: int)
    ensures Xor(Xor(a, b), c) == Xor(a, Xor(b, c))
    decreases Magnitude(a) + Magnitude(b) + Magnitude(c)
  {
    hide Xor;
    if AllSignBits(a) && AllSignBits(b) && AllSignBits(c) {
      XorOfSigns(a, b, c);
    } else {
      XorAssociates(a / 2, b / 2, c / 2);
      XorAssociatesStep(a, b, c);
    }
  }

  lemma XorOfSigns(a: int, b: int, c: int)
    requires AllSignBits(a) && AllSignBits(b) && AllSignBits(c)
    ensures Xor(Xor(a, b), c) == Xor(a, Xor(b, c))
  {
  }

  lemma XorAssociatesStep(a: int, b: int, c: int)
    requires Xor(Xor(a / 2, b / 2), c / 2) == Xor(a / 2, Xor(b / 2, c / 2))
    ensures Xor(Xor(a, b), c) == Xor(a, Xor(b, c))
  {
    hide Xor;
    XorBits(a, b);
    XorBits(b, c);
    XorBits(Xor(a, b), c);
    XorBits(a, Xor(b, c));
    FromBits(Xor(Xor(a, b), c), Xor(a, Xor(b, c)));
  }

  // Halving commutes with keeping the low bits.
  lemma ModPow2Bits(a: int, w: nat)
    ensures a % Pow2(w + 1) == 2 * ((a / 2) % Pow2(w)) + a % 2
  {
    var m := Pow2(w);
    var q, r := (a / 2) / m, (a / 2) % m;
    assert a == 2 * (a / 2) + a % 2;
    assert a / 2 == q * m + r;
    assert a == q * (2 * m) + (2 * r + a % 2) by {
      assert q * (2 * m) == 2 * (q * m);
    }
    ModUnique(a, 2 * m, q, 2 * r + a % 2);
  }

  lemma ModUnique(a: int, m: int, q: int, r: int)
    requires 0 <= r < m && a == q * m + r
    ensures a % m == r && a / m == q
  {
    var d := a / m - q;
    assert a == (a / m) * m + a % m;
    assert r - a % m == d * m by {
      assert d * m == (a / m) * m - q * m;
    }
    if d >= 1 {
      MulMonotone(1, d, m);
    } else if d <= -1 {
      MulMonotone(d, -1, m);
    }
  }

  lemma SameRemainder(x: int, y: int, q: int, m: int)
    requires m > 0 && x == y + q * m
    ensures x % m == y % m
  {
    var p := y / m;
    assert x == (p + q) * m + y % m;
    ModUnique(x, m, p + q, y % m);
  }

  lemma ModIdempotent(x: int, m: int)
    requires m > 0
    ensures (x % m) % m == x % m
  {
    ModUnique(x % m, m, 0, x % m);
  }

  lemma ScaledRemainder(x: int, c: int, d: int, m: int)
    requires m > 0
    ensures ((x % m) * c + d) % m == (x * c + d) % m
  {
    var q, r := x / m, x % m;
    var y := r * c + d;
    assert x == q * m + r;
    assert x * c + d == (q * c + y / m) * m + y % m by {
      assert y == (y / m) * m + y % m;
      assert x * c == q * m * c + r * c;
      assert q * m * c == (q * c) * m;
    }
    ModUnique(x * c + d, m, q * c + y / m, y % m);
  }

  lemma MulMonotone(a: int, b: int, m: int)
    requires a <= b && m >= 0
    ensures a * m <= b * m
  {
  }

  /** Reducing modulo a power of two before or after an exclusive or is the same. */
  lemma {:induction false} XorModPow2(a: int, b: int, w: nat)
    ensures Xor(a, b) % Pow2(w) == Xor(a % Pow2(w), b % Pow2(w))
    decreases w
  {
    if w > 0 {
      XorModPow2(a / 2, b / 2, w - 1);
      XorModPow2Step(a, b, w);
    }
  }

  lemma XorModPow2Step(a: int, b: int, w: nat)
    requires w > 0
    requires Xor(a / 2, b / 2) % Pow2(w - 1) == Xor((a / 2) % Pow2(w - 1), (b / 2) % Pow2(w - 1))
    ensures Xor(a, b) % Pow2(w) == Xor(a % Pow2(w), b % Pow2(w))
  {
    hide Xor;
    hide Pow2;
    var a', b' := a % Pow2(w), b % Pow2(w);
    ModPow2Bits(a, w - 1);
    ModPow2Bits(b, w - 1);
    ModPow2Bits(Xor(a, b), w - 1);
    XorBits(a, b);
    XorBits(a', b');
    assert a' / 2 == (a / 2) % Pow2(w - 1) && b' / 2 == (b / 2) % Pow2(w - 1);
    FromBits(Xor(a, b) % Pow2(w), Xor(a', b'));
  }

  /** Reducing modulo a power of two before or after a conjunction is the same. */
  lemma {:induction false} AndModPow2(a: int, b: int, w: nat)
    ensures And(a, b) % Pow2(w) == And(a % Pow2(w), b % Pow2(w))
    decreases w
  {
    if w > 0 {
      AndModPow2(a / 2, b / 2, w - 1);
      AndModPow2Step(a, b, w);
    }
  }

  lemma AndModPow2Step(a: int, b: int, w: nat)
    requires w > 0
    requires And(a / 2, b / 2) % Pow2(w - 1) == And((a / 2) % Pow2(w - 1), (b / 2) % Pow2(w - 1))
    ensures And(a, b) % Pow2(w) == And(a % Pow2(w), b % Pow2(w))
  {
    hide And;
    hide Pow2;
    var a', b' := a % Pow2(w), b % Pow2(w);
    ModPow2Bits(a, w - 1);
    ModPow2Bits(b, w - 1);
    ModPow2Bits(And(a, b), w - 1);
    AndBits(a, b);
    AndBits(a', b');
    assert a' / 2 == (a / 2) % Pow2(w - 1) && b' / 2 == (b / 2) % Pow2(w - 1);
    FromBits(And(a, b) % Pow2(w), And(a', b'));
  }

  /** Masking with 2^w - 1 is reduction modulo 2^w, for negative integers too. */
  lemma {:induction false} AndLowMask(a: int, w: nat)
    ensures And(a, Pow2(w) - 1) == a % Pow2(w)
    decreases w
  {
    if w == 0 {
      AndZero(a);
    } else {
      AndLowMask(a / 2, w - 1);
      AndLowMaskStep(a, w);
    }
  }

  lemma AndLowMaskStep(a: int, w: nat)
    requires w > 0 && And(a / 2, Pow2(w - 1) - 1) == (a / 2) % Pow2(w - 1)
    ensures And(a, Pow2(w) - 1) == a % Pow2(w)
  {
    hide And;
    hide Pow2;
    MaskHalves(w);
    AndBits(a, Pow2(w) - 1);
    ModPow2Bits(a, w - 1);
    FromBits(And(a, Pow2(w) - 1), a % Pow2(w));
  }

  lemma MaskHalves(w: nat)
    requires w > 0
    ensures (Pow2(w) - 1) / 2 == Pow2(w - 1) - 1 && (Pow2(w) - 1) % 2 == 1
  {
  }

  lemma AndLowBit(a: int)
    ensures And(a, 1) == a % 2
  {
    AndLowMask(a, 1);
    assert Pow2(1) == 2;
  }

  lemma {:induction false} AndZero(a: int)
    ensures And(a, 0) == 0
    decreases Magnitude(a)
  {
    if !AllSignBits(a) {
      AndZero(a / 2);
    }
  }

  /** Clearing the k low bits subtracts the remainder modulo 2^k, for negative integers too. */
  lemma {:induction false} AndHighMask(a: int, k: nat)
    ensures And(a, Not(Pow2(k) - 1)) == a - a % Pow2(k)
    decreases k
  {
    var m := Not(Pow2(k) - 1);
    if k == 0 {
      AndOnes(a);
    } else {
      var m', r := Not(Pow2(k - 1) - 1), (a / 2) % Pow2(k - 1);
      assert m == 2 * m';
      var c, c' := And(a, m), And(a / 2, m');
      assert c / 2 == c' && c % 2 == 0 by { AndBits(a, m); }
      assert c' == a / 2 - r by { AndHighMask(a / 2, k - 1); }
      assert a % Pow2(k) == 2 * r + a % 2 by { ModPow2Bits(a, k - 1); }
    }
  }

  lemma {:induction false} AndOnes(a: int)
    ensures And(a, -1) == a
    decreases Magnitude(a)
  {
    if !AllSignBits(a) {
      AndOnes(a / 2);
    }
  }

  // A bit 0 and an even number share no set bit, so `|` is `+`.
  lemma OrLowBit(bit: int, x: int)
    requires bit == 0 || bit == 1
    requires x % 2 == 0
    ensures Or(bit, x) == bit + x
  {
    var a, b := Not(bit), Not(x);
    AndBits(a, b);
    assert a / 2 == -1 && a % 2 == 1 - bit;
    assert b / 2 == Not(x / 2) && b % 2 == 1;
    AndOnesLeft(b / 2);
    assert And(a, b) == 2 * (And(a, b) / 2) + And(a, b) % 2;
  }

  lemma {:induction false} AndOnesLeft(b: int)
    ensures And(-1, b) == b
    decreases Magnitude(b)
  {
    if !AllSignBits(b) {
      AndOnesLeft(b / 2);
    }
  }

  lemma Pow2Monotone(j: nat, k: nat)
    requires j <= k
    ensures Pow2(j) <= Pow2(k) && Pow2(k) % Pow2(j) == 0
    decreases k
  {
    if j < k {
      Pow2Monotone(j, k - 1);
      DoubledMultiple(Pow2(k - 1), Pow2(j));
    }
  }

  lemma DoubledMultiple(p: int, m: int)
    requires m > 0 && p % m == 0
    ensures (2 * p) % m == 0
  {
    var q := p / m;
    assert p == q * m;
    assert 2 * p == (2 * q) * m;
    ModUnique(2 * p, m, 2 * q, 0);
  }

  lemma Pow2Add(j: nat, k: nat)
    ensures Pow2(j + k) == Pow2(j) * Pow2(k)
    decreases j
  {
    if j > 0 {
      Pow2Add(j - 1, k);
    }
  }
}
