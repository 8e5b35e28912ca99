/** What the values of `Set._hash` say: each element's hash matters in all of its low w bits, and the
    constants are the ones of Lib/_collections_abc.py. */
module SetHashValues {
  import opened Bits
  import opened SetHash

  // Equal in the low w bits.
  predicate Congruent(a: int, b: int, w: nat) {
    a % Pow2(w) == b % Pow2(w)
  }

  // ---- Congruence -----------------------------------------------------------------------------

  lemma RemainderDifference(a: int, b: int, m: int)
    requires m > 0 && a % m == b % m
    ensures a == b + (a / m - b / m) * m
  {
    assert a == (a / m) * m + a % m;
    assert b == (b / m) * m + b % m;
  }

  lemma CongruentBelow(a: int, b: int, w: nat)
    requires w > 0 && Congruent(a, b, w)
    ensures Congruent(a, b, w - 1)
  {
    var m, q := Pow2(w - 1), a / Pow2(w) - b / Pow2(w);
    RemainderDifference(a, b, Pow2(w));
    assert q * (2 * m) == (2 * q) * m;
    SameRemainder(a, b, 2 * q, m);
  }

  lemma CongruentDoubled(a: int, b: int, w: nat)
    requires w > 0 && Congruent(a, b, w - 1)
    ensures Congruent(2 * a, 2 * b, w)
  {
    var m, q := Pow2(w - 1), a / Pow2(w - 1) - b / Pow2(w - 1);
    RemainderDifference(a, b, m);
    assert 2 * (q * m) == q * (2 * m);
    SameRemainder(2 * a, 2 * b, q, Pow2(w));
  }

  lemma CongruentScaled(a: int, b: int, c: int, d: int, w: nat)
    requires Congruent(a, b, w)
    ensures Congruent(a * c + d, b * c + d, w)
  {
    hide Pow2;
    ScaledRemainder(a, c, d, Pow2(w));
    ScaledRemainder(b, c, d, Pow2(w));
  }

  // ---- What can be undone modulo 2^w --------------------------------------------------------------

  lemma OddFactor(d: int, c: int, w: nat)
    requires c % 2 == 1 && (d * c) % Pow2(w) == 0
    ensures d % Pow2(w) == 0
    decreases w
  {
    if w > 0 {
      var m := Pow2(w - 1);
      EvenMultiple(d * c, m);
      OddTimes(d, c);
      var e := d / 2;
      assert d == 2 * e;
      assert (2 * e) * c == 2 * (e * c);
      HalfMultiple(e * c, m);
      OddFactor(e, c, w - 1);
      DoubleMultiple(e, m);
    }
  }

  lemma EvenMultiple(x: int, m: int)
    requires m > 0 && x % (2 * m) == 0
    ensures x % 2 == 0
  {
    var q := x / (2 * m);
    assert x == q * (2 * m) == 2 * (q * m);
  }

  lemma OddTimes(d: int, c: int)
    requires c % 2 == 1 && (d * c) % 2 == 0
    ensures d % 2 == 0
  {
    var k := c / 2;
    assert c == 2 * k + 1;
    assert d * c == 2 * (d * k) + d;
  }

  lemma HalfMultiple(y: int, m: int)
    requires m > 0 && (2 * y) % (2 * m) == 0
    ensures y % m == 0
  {
    var q := Quotient(2 * y, 2 * m);
    Twice(q, m);
    ModUnique(y, m, q, 0);
  }

  lemma Quotient(x: int, k: int) returns (q: int)
    requires k > 0 && x % k == 0
    ensures x == q * k
  {
    q := x / k;
  }

  lemma Twice(q: int, m: int)
    ensures q * (2 * m) == 2 * (q * m)
  {
  }

  lemma DoubleMultiple(e: int, m: int)
    requires m > 0 && e % m == 0
    ensures (2 * e) % (2 * m) == 0
  {
    var q := e / m;
    assert e == q * m;
    assert 2 * e == q * (2 * m);
    ModUnique(2 * e, 2 * m, q, 0);
  }

  /** Multiplying by an odd number and adding loses no bit. */
  lemma OddScalingInjective(a: int, b: int, c: int, d: int, w: nat)
    requires c % 2 == 1 && Congruent(a * c + d, b * c + d, w)
    ensures Congruent(a, b, w)
  {
    hide Pow2;
    var m := Pow2(w);
    var q := (a * c + d) / m - (b * c + d) / m;
    RemainderDifference(a * c + d, b * c + d, m);
    assert (a - b) * c == a * c - b * c == q * m;
    ModUnique((a - b) * c, m, q, 0);
    OddFactor(a - b, c, w);
    var k := (a - b) / m;
    assert a - b == k * m;
    SameRemainder(a, b, k, m);
  }

  lemma {:induction false} XorInjective(a: int, b: int, c: int)
    requires Xor(a, b) == Xor(a, c)
    ensures b == c
    decreases Magnitude(a) + Magnitude(b) + Magnitude(c)
  {
    hide Xor;
    if AllSignBits(a) && AllSignBits(b) && AllSignBits(c) {
      XorOfSignsInjective(a, b, c);
    } else {
      XorBits(a, b);
      XorBits(a, c);
      XorInjective(a / 2, b / 2, c / 2);
      FromBits(b, c);
    }
  }

  lemma XorOfSignsInjective(a: int, b: int, c: int)
    requires AllSignBits(a) && AllSignBits(b) && AllSignBits(c) && Xor(a, b) == Xor(a, c)
    ensures b == c
  {
  }

  // Neither does an exclusive or with what is the same modulo 2^w.
  lemma XorCongruent(a: int, a': int, b: int, b': int, w: nat)
    requires Congruent(a, a', w)
    ensures Congruent(b, b', w) <==> Congruent(Xor(a, b), Xor(a', b'), w)
  {
    hide Xor;
    hide Pow2;
    XorModPow2(a, b, w);
    XorModPow2(a', b', w);
    if Congruent(Xor(a, b), Xor(a', b'), w) {
      XorInjective(a % Pow2(w), b % Pow2(w), b' % Pow2(w));
    }
  }

  /** The shift of `hx ^ (hx << 16)` is undone bit by bit, from below. */
  lemma {:induction false} ShiftMixInjective(h: int, h': int, w: nat)
    requires Congruent(Xor(h, h * 65536), Xor(h', h' * 65536), w)
    ensures Congruent(h, h', w)
    decreases w
  {
    hide Xor;
    if w > 0 {
      CongruentBelow(Xor(h, h * 65536), Xor(h', h' * 65536), w);
      ShiftMixInjective(h, h', w - 1);
      CongruentDoubled(h, h', w);
      CongruentScaled(2 * h, 2 * h', 32768, 0, w);
      XorCommutes(h, h * 65536);
      XorCommutes(h', h' * 65536);
      XorCongruent(h * 65536, h' * 65536, h, h', w);
    }
  }

  lemma TermInjective(h: int, h': int, w: nat)
    ensures Congruent(h, h', w) <==> Congruent(Term(h), Term(h'), w)
  {
    hide Xor;
    hide Pow2;
    var x, x' := Xor(h, h * 65536), Xor(h', h' * 65536);
    var y, y' := Xor(x, 89869747), Xor(x', 89869747);
    XorCommutes(x, 89869747);
    XorCommutes(x', 89869747);
    XorCongruent(89869747, 89869747, x, x', w);
    if Congruent(h, h', w) {
      CongruentScaled(h, h', 65536, 0, w);
      XorCongruent(h, h', h * 65536, h' * 65536, w);
      CongruentScaled(y, y', 3644798167, 0, w);
    }
    if Congruent(Term(h), Term(h'), w) {
      OddScalingInjective(y, y', 3644798167, 0, w);
      ShiftMixInjective(h, h', w);
    }
  }

  lemma FinishInjective(x: int, x': int, w: nat)
    requires w > 0
    ensures Congruent(x, x', w) ==> Finish(x, w) == Finish(x', w)
    ensures Finish(x, w) == Finish(x', w) != 590923713 ==> Congruent(x, x', w)
  {
    hide Pow2;
    assert 0 <= x % Pow2(w) < Pow2(w) && 0 <= x' % Pow2(w) < Pow2(w);
    assert Pow2(w) == 2 * Pow2(w - 1) by { Doubled(w); }
  }

  /** Finishing changes nothing modulo 2^w, except that -1 gives way to 590923713. */
  lemma FinishIsReduction(x: int, w: nat)
    requires w > 0
    ensures if Congruent(x, -1, w) then Finish(x, w) == 590923713 else Congruent(Finish(x, w), x, w)
  {
    hide Pow2;
    var m := Pow2(w);
    Doubled(w);
    ModUnique(-1, m, -1, m - 1);
    ModIdempotent(x, m);
    SameRemainder(x % m - m, x % m, -1, m);
  }

  lemma Doubled(w: nat)
    requires w > 0
    ensures Pow2(w) == 2 * Pow2(w - 1)
  {
  }

  lemma UnmaskedExtended(hs: seq<int>, h: int)
    ensures Unmasked(hs + [h]) == Xor(Xor(1927868237 * (|hs| + 2), Fold(hs)), Term(h)) * 69069 + 907133923
  {
    hide Xor;
    hide Term;
    assert (hs + [h])[..|hs|] == hs;
    XorAssociates(1927868237 * (|hs| + 2), Fold(hs), Term(h));
  }

  /** Two sets that differ in one element have the same hash value if those elements' hashes agree in
      the low w bits, and only then, unless the value is the one that stands for -1. */
  lemma EachElementCounts<T>(s: seq<T>, x: T, y: T, hash: T -> int, w: nat)
    requires w > 0
    ensures Congruent(hash(x), hash(y), w) ==> HashValue(s + [x], hash, w) == HashValue(s + [y], hash, w)
    ensures HashValue(s + [x], hash, w) == HashValue(s + [y], hash, w) != 590923713 ==>
              Congruent(hash(x), hash(y), w)
  {
    hide Xor;
    hide Pow2;
    hide Term;
    hide Finish;
    hide Unmasked;
    var hs, a := Hashes(s, hash), Xor(1927868237 * (|s| + 2), Fold(Hashes(s, hash)));
    var tx, ty := Term(hash(x)), Term(hash(y));
    assert Hashes(s + [x], hash) == hs + [hash(x)] && Hashes(s + [y], hash) == hs + [hash(y)];
    UnmaskedExtended(hs, hash(x));
    UnmaskedExtended(hs, hash(y));
    TermInjective(hash(x), hash(y), w);
    XorCongruent(a, a, tx, ty, w);
    FinishInjective(Unmasked(hs + [hash(x)]), Unmasked(hs + [hash(y)]), w);
    if Congruent(hash(x), hash(y), w) {
      CongruentScaled(Xor(a, tx), Xor(a, ty), 69069, 907133923, w);
    }
    if HashValue(s + [x], hash, w) == HashValue(s + [y], hash, w) != 590923713 {
      OddScalingInjective(Xor(a, tx), Xor(a, ty), 69069, 907133923, w);
    }
  }

  // ---- Values ----------------------------------------------------------------------------------

  lemma XorOneBit(a: int, b: int, i: int, j: int)
    requires 0 <= i < 2 && 0 <= j < 2
    ensures Xor(2 * a + i, 2 * b + j) == 2 * Xor(a, b) + (if i == j then 0 else 1)
  {
    XorBits(2 * a + i, 2 * b + j);
  }

  function Xor2(r: int, s: int): int {
    (if r % 2 == s % 2 then 0 else 1) + (if r / 2 == s / 2 then 0 else 2)
  }

  lemma XorTwoBits(a: int, b: int, r: int, s: int)
    requires 0 <= r < 4 && 0 <= s < 4
    ensures Xor(4 * a + r, 4 * b + s) == 4 * Xor(a, b) + Xor2(r, s)
  {
    hide Xor;
    XorOneBit(a, b, r / 2, s / 2);
    XorOneBit(2 * a + r / 2, 2 * b + s / 2, r % 2, s % 2);
  }

  // One hexadecimal digit at the end of each number; t is the digit of the result.
  lemma XorNibble(a: int, b: int, r: int, s: int, t: int)
    requires 0 <= r < 16 && 0 <= s < 16 && t == 4 * Xor2(r / 4, s / 4) + Xor2(r % 4, s % 4)
    ensures Xor(16 * a + r, 16 * b + s) == 16 * Xor(a, b) + t
  {
    hide Xor;
    hide Xor2;
    XorTwoBits(a, b, r / 4, s / 4);
    XorTwoBits(4 * a + r / 4, 4 * b + s / 4, r % 4, s % 4);
  }

  lemma ShiftOne()
    ensures Xor(1, 65536) == 65537
  {
    hide Xor;
    XorZeroLeft(4096);
    XorNibble(0, 4096, 1, 0, 1);
  }

  lemma SaltOne()
    ensures Xor(65537, 89869747) == 89804210
  {
    hide Xor;
    XorZeroLeft(85);
    XorNibble(0, 85, 1, 11, 10);
    XorNibble(1, 1371, 0, 4, 4);
    XorNibble(16, 21940, 0, 13, 13);
    XorNibble(256, 351053, 0, 11, 11);
    XorNibble(4096, 5616859, 1, 3, 2);
  }

  lemma StartOne()
    ensures Xor(3855736474, 327318219996883070) == 327318217233839844
  {
    hide Xor;
    XorZeroLeft(76209711);
    XorNibble(0, 76209711, 14, 13, 3);
    XorNibble(14, 1219355389, 5, 7, 2);
    XorNibble(229, 19509686231, 13, 6, 11);
    XorNibble(3677, 312154979702, 1, 13, 12);
    XorNibble(58833, 4994479675245, 13, 6, 11);
    XorNibble(941341, 79911674803926, 14, 8, 6);
    XorNibble(15061470, 1278586796862824, 9, 7, 14);
    XorNibble(240983529, 20457388749805191, 10, 14, 4);
  }

  lemma ShiftTwo()
    ensures Xor(2, 131072) == 131074
  {
    hide Xor;
    XorZeroLeft(8192);
    XorNibble(0, 8192, 2, 0, 2);
  }

  lemma SaltTwo()
    ensures Xor(131074, 89869747) == 89738673
  {
    hide Xor;
    XorZeroLeft(85);
    XorNibble(0, 85, 2, 11, 9);
    XorNibble(2, 1371, 0, 4, 4);
    XorNibble(32, 21940, 0, 13, 13);
    XorNibble(512, 351053, 0, 11, 11);
    XorNibble(8192, 5616859, 2, 3, 1);
  }

  lemma StartTwo()
    ensures Xor(3855736474, 327079350859412391) == 327079348228517181
  {
    hide Xor;
    XorZeroLeft(76154095);
    XorNibble(0, 76154095, 14, 12, 2);
    XorNibble(14, 1218465532, 5, 9, 12);
    XorNibble(229, 19495448521, 13, 5, 8);
    XorNibble(3677, 311927176341, 1, 7, 6);
    XorNibble(58833, 4990834821463, 13, 3, 14);
    XorNibble(941341, 79853357143411, 14, 3, 13);
    XorNibble(15061470, 1277653714294579, 9, 10, 3);
    XorNibble(240983529, 20442459428713274, 10, 7, 13);
  }

  lemma Pow2Of64()
    ensures Pow2(63) == 9223372036854775808 && Pow2(64) == 18446744073709551616
  {
    hide Pow2;
    Pow2Of31();
    Pow2Add(31, 31);
    Doubled(63);
    Doubled(64);
  }

  lemma SingletonUnmasked(h: int)
    ensures Unmasked([]) == 1927868237 * 69069 + 907133923
    ensures Unmasked([h]) == Xor(3855736474, Term(h)) * 69069 + 907133923
  {
    hide Xor;
    hide Term;
    assert Fold([]) == 0 && Fold([h]) == Xor(Fold([]), Term(h));
    XorZeroLeft(Term(h));
    XorCommutes(1927868237, 0);
    XorZeroLeft(1927868237);
  }

  /** The values for no element, and for one element whose hash is 1 or 2, on a 64-bit machine. */
  lemma KnownValues<T>(x: T, hash: T -> int)
    ensures HashValue<T>([], hash, 64) == 133156838395276
    ensures hash(x) == 1 ==> HashValue([x], hash, 64) == -8166288242918962057
    ensures hash(x) == 2 ==> HashValue([x], hash, 64) == -6217987497840421188
  {
    hide Xor;
    hide Pow2;
    hide Unmasked;
    Pow2Of64();
    assert Hashes<T>([], hash) == [] && Hashes([x], hash) == [hash(x)];
    SingletonUnmasked(hash(x));
    ShiftOne();
    SaltOne();
    StartOne();
    ShiftTwo();
    SaltTwo();
    StartTwo();
  }
}
