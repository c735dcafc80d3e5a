/** Fermat's little theorem, by way of the binomial theorem. */
module Fermat {
  import opened NumberTheory

  function Binom(n: nat, k: nat): nat {
    if k == 0 then 1
    else if n == 0 then 0
    else Binom(n - 1, k - 1) + Binom(n - 1, k)
  }

  lemma {:induction false} BinomEdge(n: nat, k: nat)
    requires k >= n
    ensures Binom(n, k) == if k == n then 1 else 0
  {
    if n > 0 {
      BinomEdge(n - 1, k - 1);
      BinomEdge(n - 1, k);
    }
  }

  /** (k + 1) C(n + 1, k + 1) = (n + 1) C(n, k) */
  lemma {:induction false} Absorption(n: nat, k: nat)
    ensures (k + 1) * Binom(n + 1, k + 1) == (n + 1) * Binom(n, k)
  {
    if n == 0 {
      if k > 0 { assert Binom(1, k + 1) == Binom(0, k) + Binom(0, k + 1); }
    } else {
      Absorption(n - 1, k);
      if k > 0 {
        Absorption(n - 1, k - 1);
        Combine(k, n, Binom(n, k), Binom(n, k + 1), Binom(n - 1, k - 1), Binom(n - 1, k));
      } else {
        assert Binom(n + 1, 1) == Binom(n, 0) + Binom(n, 1);
      }
    }
  }

  lemma Combine(k: int, n: int, c: int, d: int, e: int, f: int)
    requires k * c == n * e && (k + 1) * d == n * f && c == e + f
    ensures (k + 1) * (c + d) == (n + 1) * c
  {
    assert (k + 1) * (c + d) == k * c + c + (k + 1) * d;
    assert n * e + n * f == n * (e + f);
  }

  /** C(n, 0) + C(n, 1) a + ... + C(n, k) a^k */
  function BinomSum(a: int, n: nat, k: nat): int {
    Binom(n, k) * Pow(a, k) + if k == 0 then 0 else BinomSum(a, n, k - 1)
  }

  lemma {:induction false} PascalSum(a: int, n: nat, k: nat)
    ensures BinomSum(a, n + 1, k) == BinomSum(a, n, k) + if k == 0 then 0 else a * BinomSum(a, n, k - 1)
  {
    if k > 0 {
      PascalSum(a, n, k - 1);
      PascalStep(a, Binom(n, k - 1), Binom(n, k), Pow(a, k - 1), if k == 1 then 0 else BinomSum(a, n, k - 2));
    }
  }

  lemma PascalStep(a: int, c: int, d: int, p: int, rest: int)
    ensures (c + d) * (a * p) == d * (a * p) + a * (c * p)
    ensures a * (c * p + rest) == a * (c * p) + a * rest
  {
    assert (c + d) * (a * p) == c * (a * p) + d * (a * p);
  }

  lemma {:induction false} BinomialTheorem(a: int, n: nat)
    ensures Pow(1 + a, n) == BinomSum(a, n, n)
  {
    if n > 0 {
      BinomialTheorem(a, n - 1);
      PascalSum(a, n - 1, n);
      BinomEdge(n - 1, n);
      var s := BinomSum(a, n - 1, n - 1);
      assert (1 + a) * s == s + a * s;
    }
  }

  lemma PrimeDividesBinom(p: nat, k: nat)
    requires Prime(p) && 0 < k < p
    ensures Divides(p, Binom(p, k))
  {
    Absorption(p - 1, k - 1);
    DividesFrom(p, p * Binom(p - 1, k - 1), Binom(p - 1, k - 1));
    EuclidsLemma(p, k, Binom(p, k));
    if Divides(p, k) { SmallMultiple(p, k); }
  }

  lemma {:induction false} MiddleTermsVanish(a: int, p: nat, k: nat)
    requires Prime(p) && k < p
    ensures Cong(BinomSum(a, p, k), 1, p)
  {
    if k > 0 {
      MiddleTermsVanish(a, p, k - 1);
      PrimeDividesBinom(p, k);
      DividesProduct(p, Binom(p, k), Pow(a, k));
      CongZero(Binom(p, k) * Pow(a, k), 0, p);
      CongAdd(Binom(p, k) * Pow(a, k), 0, BinomSum(a, p, k - 1), 1, p);
    }
  }

  /** a^p and a agree modulo a prime p. */
  lemma {:induction false} FermatPower(a: nat, p: nat)
    requires Prime(p)
    ensures Cong(Pow(a, p), a, p)
  {
    if a > 0 {
      FermatPower(a - 1, p);
      BinomialTheorem(a - 1, p);
      BinomEdge(p, p);
      MiddleTermsVanish(a - 1, p, p - 1);
      CongAdd(Pow(a - 1, p), a - 1, BinomSum(a - 1, p, p - 1), 1, p);
    } else {
      assert Pow(0, p) == 0;
    }
  }

  /** Fermat's little theorem. */
  lemma LittleTheorem(a: nat, p: nat)
    requires Prime(p) && !Divides(p, a)
    ensures Cong(Pow(a, p - 1), 1, p)
  {
    FermatPower(a, p);
    var x := Pow(a, p - 1);
    PowNonNegative(a, p - 1);
    CongZero(a * x, a, p);
    assert a * x - a == a * (x - 1);
    if x == 0 {
      DividesFrom(p, 0, 0);
      PrimeDividesPower(p, a, p - 1);
    } else {
      EuclidsLemma(p, a, x - 1);
      CongZero(x, 1, p);
    }
  }

  /** Modulo a prime, only 1 and -1 square to 1. */
  lemma SquareRootsOfOne(x: nat, p: nat)
    requires Prime(p) && Cong(x * x, 1, p) && x < p
    ensures x == 1 || x == p - 1
  {
    CongZero(x * x, 1, p);
    if x == 0 {
      assert Divides(p, -1);
      DividesProduct(p, -1, -1);
      SmallMultiple(p, 1);
    } else {
      assert x * x - 1 == (x - 1) * (x + 1);
      EuclidsLemma(p, x - 1, x + 1);
      if Divides(p, x - 1) {
        SmallMultiple(p, x - 1);
      } else if x + 1 < p {
        SmallMultiple(p, x + 1);
      }
    }
  }
}
