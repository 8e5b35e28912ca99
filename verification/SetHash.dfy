/** `Set._hash` of Lib/_collections_abc.py on unbounded integers, for a machine whose
    `sys.maxsize` is 2^(w-1) - 1. */
module SetHash {
  import opened Bits
  import opened Enumerations

  // (hx ^ (hx << 16) ^ 89869747) * 3644798167
  function Term(hx: int): int {
    Xor(Xor(hx, hx * 65536), 89869747) * 3644798167
  }

  // The exclusive or of the terms of all element hashes.
  function Fold(hs: seq<int>): int
    decreases |hs|
  {
    if hs == [] then 0 else Xor(Fold(hs[..|hs| - 1]), Term(hs[|hs| - 1]))
  }

  // The whole computation with no mask anywhere.
  function Unmasked(hs: seq<int>): int {
    Xor(1927868237 * (|hs| + 1), Fold(hs)) * 69069 + 907133923
  }

  // One reduction modulo 2^w, then the sign wrap, then the replacement of -1.
  function Finish(x: int, w: nat): int
    requires w > 0
  {
    var u := x % Pow2(w);
    var s := if u > Pow2(w - 1) - 1 then u - Pow2(w) else u;
    if s == -1 then 590923713 else s
  }

  function Hashes<T>(elements: seq<T>, hash: T -> int): (hs: seq<int>)
    ensures |hs| == |elements|
  {
    seq(|elements|, i requires 0 <= i < |elements| => hash(elements[i]))
  }

  function HashValue<T>(elements: seq<T>, hash: T -> int, w: nat): int
    requires w > 0
  {
    Finish(Unmasked(Hashes(elements, hash)), w)
  }

  lemma XorZeroLeft(a: int)
    ensures Xor(0, a) == a
    decreases Magnitude(a)
  {
    if !AllSignBits(a) {
      XorZeroLeft(a / 2);
    }
  }

  lemma HashesPrefix<T>(elements: seq<T>, hash: T -> int, k: nat)
    requires k < |elements|
    ensures Hashes(elements[..k + 1], hash) == Hashes(elements[..k], hash) + [hash(elements[k])]
  {
  }

  // One masked loop step keeps the running value equal to the unmasked one modulo 2^w.
  lemma MaskedStep(h: int, start: int, hs: seq<int>, hx: int, w: nat)
    requires h == Xor(start, Fold(hs)) % Pow2(w)
    ensures And(Xor(h, Term(hx)), Pow2(w) - 1) == Xor(start, Fold(hs + [hx])) % Pow2(w)
  {
    hide Xor;
    hide And;
    hide Pow2;
    hide Term;
    var x, t := Xor(start, Fold(hs)), Term(hx);
    assert (hs + [hx])[..|hs|] == hs;
    XorAssociates(start, Fold(hs), t);
    AndLowMask(Xor(h, t), w);
    XorModPow2(h, t, w);
    XorModPow2(x, t, w);
    ModIdempotent(x, Pow2(w));
  }

  /** The loop of `_hash`, which masks after every step, computes the unmasked value. */
  method ComputeHash<T>(elements: seq<T>, hash: T -> int, w: nat) returns (h: int)
    requires w > 0
    ensures h == HashValue(elements, hash, w)
  {
    hide Xor;
    hide And;
    hide Term;
    var max := Pow2(w - 1) - 1;
    var mask := 2 * max + 1;
    assert mask == Pow2(w) - 1;
    var n := |elements|;
    h := 1927868237 * (n + 1);
    ghost var start := h;
    h := And(h, mask);
    assert h == Xor(start, Fold([])) % Pow2(w) by {
      AndLowMask(start, w);
      XorCommutes(start, 0);
      XorZeroLeft(start);
    }
    assert Hashes(elements[..0], hash) == [];
    var i := 0;
    while i < n
      invariant 0 <= i <= n
      invariant h == Xor(start, Fold(Hashes(elements[..i], hash))) % Pow2(w)
    {
      var hx := hash(elements[i]);
      HashesPrefix(elements, hash, i);
      MaskedStep(h, start, Hashes(elements[..i], hash), hx, w);
      h := And(Xor(h, Term(hx)), mask);
      i := i + 1;
    }
    assert elements[..n] == elements;
    ghost var x := Xor(start, Fold(Hashes(elements, hash)));
    h := h * 69069 + 907133923;
    ScaledRemainder(x, 69069, 907133923, Pow2(w));
    AndLowMask(h, w);
    h := And(h, mask);
    if h > max {
      h := h - (mask + 1);
    }
    if h == -1 {
      h := 590923713;
    }
  }

  lemma Pow2Of31()
    ensures Pow2(31) == 2147483648
  {
    hide Pow2;
    SmallPowers();
    Pow2Add(4, 4);
    Pow2Add(8, 8);
    Pow2Add(16, 8);
    Pow2Add(24, 4);
    Pow2Add(28, 3);
  }

  lemma SmallPowers()
    ensures Pow2(3) == 8 && Pow2(4) == 16
  {
  }

  /** The result is a signed machine word and never the error value -1. */
  lemma HashInRange<T>(elements: seq<T>, hash: T -> int, w: nat)
    requires w >= 32
    ensures 0 - Pow2(w - 1) <= HashValue(elements, hash, w) <= Pow2(w - 1) - 1
    ensures HashValue(elements, hash, w) != -1
  {
    hide Xor;
    hide Unmasked;
    Pow2Monotone(31, w - 1);
    Pow2Of31();
    var u := Unmasked(Hashes(elements, hash)) % Pow2(w);
    assert 0 <= u < Pow2(w) == 2 * Pow2(w - 1);
  }

  // Taking any one element out of the fold.
  lemma {:induction false} FoldRemove(hs: seq<int>, i: nat)
    requires i < |hs|
    ensures Fold(hs) == Xor(Fold(hs[..i] + hs[i + 1..]), Term(hs[i]))
    decreases |hs|
  {
    hide Xor;
    hide Term;
    var n := |hs| - 1;
    var rest := hs[..i] + hs[i + 1..];
    if i == n {
      assert rest == hs[..n];
    } else {
      var front := hs[..n];
      FoldRemove(front, i);
      var a, ti, tn := Fold(front[..i] + front[i + 1..]), Term(hs[i]), Term(hs[n]);
      assert rest[..n - 1] == front[..i] + front[i + 1..];
      assert rest[n - 1] == hs[n];
      XorAssociates(a, ti, tn);
      XorCommutes(ti, tn);
      XorAssociates(a, tn, ti);
    }
  }

  lemma {:induction false} FoldPermutation(xs: seq<int>, ys: seq<int>)
    requires multiset(xs) == multiset(ys)
    ensures Fold(xs) == Fold(ys)
    decreases |xs|
  {
    hide Xor;
    if xs == [] {
      assert |multiset(ys)| == 0;
    } else {
      var n := |xs| - 1;
      var x := xs[n];
      assert x in multiset(ys);
      var i :| 0 <= i < |ys| && ys[i] == x;
      var rest := ys[..i] + ys[i + 1..];
      assert xs == xs[..n] + [x];
      assert ys == ys[..i] + [x] + ys[i + 1..];
      assert multiset(xs[..n]) == multiset(xs) - multiset{x};
      assert multiset(rest) == multiset(ys) - multiset{x};
      FoldPermutation(xs[..n], rest);
      FoldRemove(ys, i);
    }
  }

  lemma HashesRemove<T>(t: seq<T>, i: nat, hash: T -> int)
    requires i < |t|
    ensures multiset(Hashes(t, hash)) == multiset(Hashes(t[..i] + t[i + 1..], hash)) + multiset{hash(t[i])}
  {
    var before, after := Hashes(t[..i], hash), Hashes(t[i + 1..], hash);
    assert Hashes(t, hash) == before + [hash(t[i])] + after;
    assert Hashes(t[..i] + t[i + 1..], hash) == before + after;
  }

  // Two permutations of each other, less the same element.
  lemma SameWithout<T>(s: seq<T>, t: seq<T>, i: nat)
    requires s != [] && multiset(s) == multiset(t) && i < |t| && t[i] == s[|s| - 1]
    ensures multiset(s[..|s| - 1]) == multiset(t[..i] + t[i + 1..])
  {
    var n := |s| - 1;
    assert s == s[..n] + [s[n]];
    assert t == t[..i] + [s[n]] + t[i + 1..];
    assert multiset(s[..n]) == multiset(s) - multiset{s[n]};
    assert multiset(t[..i] + t[i + 1..]) == multiset(t) - multiset{s[n]};
  }

  lemma {:induction false} HashesPermutation<T>(s: seq<T>, t: seq<T>, hash: T -> int)
    requires multiset(s) == multiset(t)
    ensures multiset(Hashes(s, hash)) == multiset(Hashes(t, hash))
    decreases |s|
  {
    if s == [] {
      assert |multiset(t)| == 0;
    } else {
      var n := |s| - 1;
      assert s[n] in multiset(t);
      var i :| 0 <= i < |t| && t[i] == s[n];
      SameWithout(s, t, i);
      hide Hashes;
      HashesPermutation(s[..n], t[..i] + t[i + 1..], hash);
      HashesRemove(t, i, hash);
      HashesRemove(s, n, hash);
      assert s[..n] + s[n + 1..] == s[..n];
    }
  }

  /** The hash does not depend on the order of iteration: any two enumerations of the same
      set have the same hash, so sets that compare equal hash equal. */
  lemma HashOrderIndependent<T>(s: seq<T>, t: seq<T>, hash: T -> int, w: nat)
    requires w > 0
    requires Distinct(s) && Distinct(t) && Elements(s) == Elements(t)
    ensures HashValue(s, hash, w) == HashValue(t, hash, w)
  {
    EnumerationsArePermutations(s, t);
    HashesPermutation(s, t, hash);
    FoldPermutation(Hashes(s, hash), Hashes(t, hash));
    EnumerationLength(s);
    EnumerationLength(t);
  }

  // One order in which the set could iterate.
  ghost function SomeOrder<T>(all: set<T>): (order: seq<T>)
    ensures Enumerates(order, all)
  {
    if all == {} then []
    else
      var x :| x in all;
      var front := SomeOrder(all - {x});
      EnumerationExtends(front, x);
      front + [x]
  }

  // The hash value of a set, by itself.
  ghost function HashOf<T>(all: set<T>, hash: T -> int, w: nat): int
    requires w > 0
  {
    HashValue(SomeOrder(all), hash, w)
  }

  /** Whatever order a set iterates in, the value is a function of its elements alone. */
  lemma EveryOrderHashesAlike<T>(order: seq<T>, hash: T -> int, w: nat)
    requires w > 0 && Distinct(order)
    ensures HashValue(order, hash, w) == HashOf(Elements(order), hash, w)
  {
    HashOrderIndependent(order, SomeOrder(Elements(order)), hash, w);
  }
}
