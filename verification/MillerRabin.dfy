/**
 The probabilistic primality test of prog3/homomorphic.py, with the random
 bases as inputs, and the shape of the primes it is used to find.
*/
module MillerRabin {
  import opened NumberTheory
  import opened Fermat

  /** 2^j d */
  function Doubled(j: nat, d: nat): (t: nat) {
    if j == 0 then d else 2 * Doubled(j - 1, d)
  }

  /** n passes the test for base a: a^d is 1, or one of the first r squarings of
      it is -1, where n - 1 = 2^r d with d odd. */
  ghost predicate StrongProbablePrime(n: nat, a: nat, r: nat, d: nat)
    requires n > 0
  {
    ModPow(a, d, n) == 1 || exists j: nat :: j < r && ModPow(a, Doubled(j, d), n) == n - 1
  }

  /** Squaring the remainder of a^e gives the remainder of a^2e. */
  lemma SquareCong(n: nat, a: nat, e: nat, x: nat)
    requires n > 0 && x == ModPow(a, e, n)
    ensures Cong(x * x, Pow(a, 2 * e), n)
  {
    PowAdd(a, e, e);
    CongMod(Pow(a, e), n);
    CongMul(x, Pow(a, e), x, Pow(a, e), n);
  }

  lemma PowTwo(x: int)
    ensures Pow(x, 2) == x * x
  {
    assert Pow(x, 2) == x * (x * Pow(x, 0));
  }

  lemma SquareStep(n: nat, a: nat, e: nat, x: nat)
    requires n > 0 && x == ModPow(a, e, n)
    ensures ModPow(x, 2, n) == ModPow(a, 2 * e, n)
  {
    SquareCong(n, a, e, x);
    PowTwo(x);
  }

  lemma RootOfOne(p: nat, a: nat, e: nat, x: nat)
    requires Prime(p) && ModPow(a, 2 * e, p) == 1 && x == ModPow(a, e, p)
    ensures x == 1 || x == p - 1
  {
    SquareCong(p, a, e, x);
    DivModUnique(1, p, 0, 1);
    SquareRootsOfOne(x, p);
  }

  /** Walking the squarings of a^d back from one that is 1: the first step that
      leaves 1 must be at -1. */
  lemma {:induction false} FirstRootIsMinusOne(p: nat, a: nat, j: nat, r: nat, d: nat)
    requires Prime(p) && j <= r && ModPow(a, Doubled(j, d), p) == 1
    ensures StrongProbablePrime(p, a, r, d)
  {
    if j > 0 {
      RootOfOne(p, a, Doubled(j - 1, d), ModPow(a, Doubled(j - 1, d), p));
      if ModPow(a, Doubled(j - 1, d), p) == 1 { FirstRootIsMinusOne(p, a, j - 1, r, d); }
    }
  }

  /** Completeness: a prime passes for every base. */
  lemma PrimesPass(p: nat, a: nat, r: nat, d: nat)
    requires Prime(p) && 0 < a < p && p - 1 == Doubled(r, d)
    ensures StrongProbablePrime(p, a, r, d)
  {
    if Divides(p, a) { SmallMultiple(p, a); }
    LittleTheorem(a, p);
    DivModUnique(1, p, 0, 1);
    FirstRootIsMinusOne(p, a, r, r, d);
  }

  // ---------- what passing means ----------

  /** Whenever a square in the chain a^d, a^2d, ... is 1, its root in the chain is 1 or -1. */
  ghost predicate OnlyPlainRoots(n: nat, a: nat, r: nat, d: nat)
    requires n > 0
  {
    forall j: nat :: j < r && ModPow(a, Doubled(j + 1, d), n) == 1 ==> ModPow(a, Doubled(j, d), n) in {1, n - 1}
  }

  lemma SquareInChain(n: nat, a: nat, j: nat, d: nat)
    requires n > 2
    ensures ModPow(a, Doubled(j, d), n) in {1, n - 1} ==> ModPow(a, Doubled(j + 1, d), n) == 1
  {
    var x := ModPow(a, Doubled(j, d), n);
    if x == 1 || x == n - 1 {
      SquareStep(n, a, Doubled(j, d), x);
      PowTwo(x);
      SquareOfUnit(x, n);
    }
  }

  lemma SquareOfUnit(x: nat, n: nat)
    requires n > 2 && x in {1, n - 1}
    ensures (x * x) % n == 1
  {
    if x == 1 { DivModUnique(1, n, 0, 1); } else { DivModUnique(x * x, n, n - 2, 1) by { assert (n - 1) * (n - 1) == (n - 2) * n + 1; } }
  }

  lemma {:induction false} OnesFromThere(n: nat, a: nat, j: nat, k: nat, d: nat)
    requires n > 2 && j < k && ModPow(a, Doubled(j, d), n) in {1, n - 1}
    ensures ModPow(a, Doubled(k, d), n) == 1
  {
    if j < k - 1 { OnesFromThere(n, a, j, k - 1, d); }
    SquareInChain(n, a, k - 1, d);
  }

  lemma {:induction false} WalkBack(n: nat, a: nat, j: nat, r: nat, d: nat)
    requires n > 2 && j <= r && ModPow(a, Doubled(j, d), n) == 1 && OnlyPlainRoots(n, a, r, d)
    ensures StrongProbablePrime(n, a, r, d)
  {
    if j > 0 && ModPow(a, Doubled(j - 1, d), n) == 1 { WalkBack(n, a, j - 1, r, d); }
  }

  /** The strong test, exactly: the base satisfies Fermat's congruence a^(n-1) = 1, and squaring
      up from a^d meets no root of 1 but 1 and -1. So an accepted n is a prime or a Fermat
      pseudoprime whose bases lead to no factor, and a rejected one is composite. */
  lemma StrongTestExactly(n: nat, a: nat, r: nat, d: nat)
    requires n > 2 && n - 1 == Doubled(r, d)
    ensures StrongProbablePrime(n, a, r, d) <==> ModPow(a, n - 1, n) == 1 && OnlyPlainRoots(n, a, r, d)
  {
    if ModPow(a, d, n) == 1 {
      PassedAt(n, a, 0, r, d);
    } else if StrongProbablePrime(n, a, r, d) {
      var j: nat :| j < r && ModPow(a, Doubled(j, d), n) == n - 1;
      PassedAt(n, a, j, r, d);
    }
    if ModPow(a, n - 1, n) == 1 && OnlyPlainRoots(n, a, r, d) { WalkBack(n, a, r, r, d); }
  }

  lemma PassedAt(n: nat, a: nat, j: nat, r: nat, d: nat)
    requires n > 2 && n - 1 == Doubled(r, d)
    requires if j == 0 then ModPow(a, d, n) == 1 || (r > 0 && ModPow(a, d, n) == n - 1)
             else j < r && ModPow(a, Doubled(j, d), n) == n - 1
    ensures ModPow(a, n - 1, n) == 1 && OnlyPlainRoots(n, a, r, d)
  {
    if j < r { OnesFromThere(n, a, j, r, d); }
    forall k: nat | k < r && ModPow(a, Doubled(k + 1, d), n) == 1 ensures ModPow(a, Doubled(k, d), n) in {1, n - 1} {
      if j < k { OnesFromThere(n, a, j, k, d); }
      if k + 1 < j { OnesFromThere(n, a, k + 1, j, d); }
    }
  }

  /** n passes for the first k bases, whatever way n - 1 splits as 2^r d with d odd
      (there is only one, by `SplitIsUnique`). */
  ghost predicate PassesAll(n: nat, k: nat, bases: seq<nat>)
    requires n > 0 && |bases| >= k
  {
    forall r: nat, d: nat, i: nat {:trigger StrongProbablePrime(n, bases[i], r, d)} ::
      n - 1 == Doubled(r, d) && d % 2 == 1 && i < k ==> StrongProbablePrime(n, bases[i], r, d)
  }

  lemma {:induction false} SplitIsUnique(r: nat, d: nat, s: nat, e: nat)
    requires Doubled(r, d) == Doubled(s, e) && d % 2 == 1 && e % 2 == 1
    ensures r == s && d == e
  {
    if r > 0 && s > 0 { SplitIsUnique(r - 1, d, s - 1, e); }
  }

  /** The bases are what `randrange(2, n - 1)` can draw. */
  ghost predicate DrawnBases(n: int, k: nat, bases: seq<nat>) {
    |bases| >= k && (n > 4 ==> forall i :: 0 <= i < k ==> 2 <= bases[i] < n - 1)
  }

  /** `is_prime` with its k bases drawn in advance. */
  method IsPrime(n: int, k: nat, bases: seq<nat>) returns (b: bool)
    requires DrawnBases(n, k, bases)
    ensures Prime(n) ==> b
    ensures n < 2 || (n > 2 && n % 2 == 0) ==> !b
    ensures n > 3 && n % 2 == 1 ==> (b <==> PassesAll(n, k, bases))
  {
    if n < 2 { return false; }
    if n == 2 || n == 3 { return true; }
    if n % 2 == 0 {
      assert Divides(2, n);
      return false;
    }
    var r, d := Split(n);
    for t := 0 to k
      invariant forall i :: 0 <= i < t ==> StrongProbablePrime(n, bases[i], r, d)
    {
      var passes := Passes(n, bases[t], r, d);
      if !passes {
        if Prime(n) { PrimesPass(n, bases[t], r, d); }
        return false;
      }
    }
    forall s: nat, e: nat, i: nat | n - 1 == Doubled(s, e) && e % 2 == 1 && i < k
      ensures StrongProbablePrime(n, bases[i], s, e)
    {
      SplitIsUnique(r, d, s, e);
    }
    return true;
  }

  lemma {:induction false} HalveOut(r: nat, d: nat)
    ensures Doubled(r, 2 * d) == Doubled(r + 1, d)
  {
    if r > 0 { HalveOut(r - 1, d); }
  }

  /** The loop that takes the factors of two out of n - 1. */
  method Split(n: nat) returns (r: nat, d: nat)
    requires n >= 2
    ensures n - 1 == Doubled(r, d) && d % 2 == 1
  {
    r, d := 0, n - 1;
    while d % 2 == 0
      invariant d > 0 && n - 1 == Doubled(r, d)
      decreases d
    {
      assert d == 2 * (d / 2);
      HalveOut(r, d / 2);
      r := r + 1;
      d := d / 2;
    }
  }

  /** One base: the squaring loop, with its for-else. */
  method Passes(n: nat, a: nat, r: nat, d: nat) returns (b: bool)
    requires n > 3 && n - 1 == Doubled(r, d) && d % 2 == 1 && n % 2 == 1
    ensures b <==> StrongProbablePrime(n, a, r, d)
  {
    var x := ModPow(a, d, n);
    assert x == ModPow(a, Doubled(0, d), n);
    if x == 1 || x == n - 1 { return true; }
    for j := 1 to r
      invariant x == ModPow(a, Doubled(j - 1, d), n)
      invariant forall i: nat :: i < j ==> ModPow(a, Doubled(i, d), n) != n - 1
    {
      SquareStep(n, a, Doubled(j - 1, d), x);
      x := ModPow(x, 2, n);
      assert Doubled(j, d) == 2 * Doubled(j - 1, d);
      assert x == ModPow(a, Doubled(j, d), n);
      if x == n - 1 { return true; }
    }
    return false;
  }

  /** `generate_prime` forces the top and the lowest bit of its draw: the result
      is odd and has exactly `bits` bits. */
  function ForceBits(draw: nat, bits: nat): (p: nat)
    requires bits > 0 && draw < Doubled(bits, 1)
    ensures Doubled(bits - 1, 1) <= p < Doubled(bits, 1)
    ensures p % 2 == 1
  {
    var top := if draw >= Doubled(bits - 1, 1) then draw else draw + Doubled(bits - 1, 1);
    SetLowest(top, Doubled(bits - 1, 1))
  }

  /** All bits between the top and the lowest one are the draw's. */
  lemma ForcedBitsOnly(draw: nat, bits: nat)
    requires bits > 1 && draw < Doubled(bits, 1)
    ensures Doubled(bits - 2, 1) > 0
    ensures (ForceBits(draw, bits) / 2) % Doubled(bits - 2, 1) == (draw / 2) % Doubled(bits - 2, 1)
  {
    DoubledPositive(bits - 2);
    var q, half := Doubled(bits - 2, 1), Doubled(bits - 1, 1);
    assert half == 2 * q && Doubled(bits, 1) == 2 * half;
    var p, m := ForceBits(draw, bits) / 2, draw / 2;
    assert p == if draw >= half then m else m + q;
    if draw < half { CongFromMultiple(m + q, m, q, 1); }
  }

  lemma {:induction false} DoubledPositive(j: nat)
    ensures Doubled(j, 1) > 0
  {
    if j > 0 { DoubledPositive(j - 1); }
  }

  /** `x | 1` */
  function SetLowest(x: nat, half: nat): (p: nat)
    requires x < 2 * half
    ensures x <= p < 2 * half && p % 2 == 1
  {
    if x % 2 == 1 then x else x + 1
  }

  /** `generate_prime`, over the random bits it draws and the bases each test draws.
      A prime always passes, so the loop ends at the first prime draw if not before. */
  method GeneratePrime(bits: nat, k: nat, draws: seq<nat>, bases: seq<seq<nat>>) returns (p: nat, ghost i: nat)
    requires bits > 1 && |bases| == |draws| && forall j :: 0 <= j < |draws| ==> draws[j] < Doubled(bits, 1)
    requires forall j :: 0 <= j < |draws| ==> DrawnBases(ForceBits(draws[j], bits), k, bases[j])
    requires exists j :: 0 <= j < |draws| && Prime(ForceBits(draws[j], bits))
    ensures Doubled(bits - 1, 1) <= p < Doubled(bits, 1) && p % 2 == 1
    ensures i < |draws| && p == ForceBits(draws[i], bits) && DrawnBases(p, k, bases[i])
    ensures p > 3 ==> PassesAll(p, k, bases[i])
    ensures forall j :: 0 <= j < i ==> !Prime(ForceBits(draws[j], bits))
  {
    var t := 0;
    while true
      invariant 0 <= t < |draws| && exists j :: t <= j < |draws| && Prime(ForceBits(draws[j], bits))
      invariant forall j :: 0 <= j < t ==> !Prime(ForceBits(draws[j], bits))
      decreases |draws| - t
    {
      p := ForceBits(draws[t], bits);
      var passes := IsPrime(p, k, bases[t]);
      if passes {
        i := t;
        return;
      }
      t := t + 1;
    }
  }
}
