/**
 The number theory behind the voting system: congruences, powers, greatest
 common divisors with their Bezout coefficients, and primes.
*/
module NumberTheory {

  // ---------- division with remainder ----------

  lemma DivModUnique(a: int, n: int, q: int, r: int)
    requires n > 0 && a == q * n + r && 0 <= r < n
    ensures a / n == q && a % n == r
  {
    var q', r' := a / n, a % n;
    assert (q - q') * n == r' - r;
    if q > q' {
      assert (q - q') * n >= n by { MulGe(q - q', n); }
    } else if q < q' {
      assert (q' - q) * n >= n by { MulGe(q' - q, n); }
    }
  }

  lemma MulGe(k: int, n: int)
    requires k >= 1 && n >= 0
    ensures k * n >= n
  {
  }

  /** a and b leave the same remainder. */
  ghost predicate Cong(a: int, b: int, n: int)
    requires n > 0
  {
    a % n == b % n
  }

  lemma CongFromMultiple(a: int, b: int, n: int, k: int)
    requires n > 0 && a == b + k * n
    ensures Cong(a, b, n)
  {
    assert b == (b / n) * n + b % n;
    assert a == (b / n + k) * n + b % n;
    DivModUnique(a, n, b / n + k, b % n);
  }

  lemma MultipleFromCong(a: int, b: int, n: int) returns (k: int)
    requires n > 0 && Cong(a, b, n)
    ensures a == b + k * n
  {
    k := a / n - b / n;
    assert a == (a / n) * n + a % n && b == (b / n) * n + b % n;
    assert (a / n) * n - (b / n) * n == k * n;
  }

  lemma CongAdd(a: int, b: int, c: int, d: int, n: int)
    requires n > 0 && Cong(a, b, n) && Cong(c, d, n)
    ensures Cong(a + c, b + d, n)
  {
    var j := MultipleFromCong(a, b, n);
    var k := MultipleFromCong(c, d, n);
    assert j * n + k * n == (j + k) * n;
    CongFromMultiple(a + c, b + d, n, j + k);
  }

  lemma Expand(b: int, j: int, d: int, k: int, n: int)
    ensures (b + j * n) * (d + k * n) == b * d + (b * k + j * d + j * n * k) * n
  {
    assert (b + j * n) * (d + k * n) == b * d + b * (k * n) + (j * n) * d + (j * n) * (k * n);
    assert b * (k * n) == (b * k) * n && (j * n) * d == (j * d) * n && (j * n) * (k * n) == (j * n * k) * n;
  }

  lemma CongMul(a: int, b: int, c: int, d: int, n: int)
    requires n > 0 && Cong(a, b, n) && Cong(c, d, n)
    ensures Cong(a * c, b * d, n)
  {
    var j := MultipleFromCong(a, b, n);
    var k := MultipleFromCong(c, d, n);
    Expand(b, j, d, k, n);
    CongFromMultiple(a * c, b * d, n, b * k + j * d + j * n * k);
  }

  lemma CongMod(a: int, n: int)
    requires n > 0
    ensures Cong(a % n, a, n)
  {
    CongFromMultiple(a % n, a, n, -(a / n));
  }

  /** The remainder of a reduced factor: (a % n) * b and a * b agree mod n. */
  lemma CongMulMod(a: int, b: int, n: int)
    requires n > 0
    ensures Cong((a % n) * b, a * b, n)
  {
    CongMod(a, n);
    CongMul(a % n, a, b, b, n);
  }

  // ---------- divisibility ----------

  ghost predicate Divides(d: int, a: int)
    requires d > 0
  {
    a % d == 0
  }

  lemma DividesFrom(d: int, a: int, k: int)
    requires d > 0 && a == k * d
    ensures Divides(d, a)
  {
    DivModUnique(a, d, k, 0);
  }

  lemma Quotient(d: int, a: int) returns (k: int)
    requires d > 0 && Divides(d, a)
    ensures a == k * d && k == a / d
  {
    k := a / d;
  }

  lemma DividesSum(d: int, a: int, b: int)
    requires d > 0 && Divides(d, a) && Divides(d, b)
    ensures Divides(d, a + b) && Divides(d, a - b)
  {
    var j := Quotient(d, a);
    var k := Quotient(d, b);
    assert (j + k) * d == a + b && (j - k) * d == a - b;
    DividesFrom(d, a + b, j + k);
    DividesFrom(d, a - b, j - k);
  }

  lemma DividesProduct(d: int, a: int, b: int)
    requires d > 0 && Divides(d, a)
    ensures Divides(d, a * b) && Divides(d, b * a)
  {
    var k := Quotient(d, a);
    assert a * b == (k * b) * d && b * a == a * b by { assert (k * d) * b == (k * b) * d; }
    DividesFrom(d, a * b, k * b);
  }

  lemma SmallMultiple(d: int, a: int)
    requires d > 0 && Divides(d, a) && 0 <= a < d
    ensures a == 0
  {
  }

  lemma CongZero(a: int, b: int, n: int)
    requires n > 0
    ensures Cong(a, b, n) <==> Divides(n, a - b)
  {
    if Cong(a, b, n) {
      var k := MultipleFromCong(a, b, n);
      DividesFrom(n, a - b, k);
    }
    if Divides(n, a - b) {
      var k := Quotient(n, a - b);
      CongFromMultiple(a, b, n, k);
    }
  }

  // ---------- powers ----------

  function Pow(b: int, e: nat): int {
    if e == 0 then 1 else b * Pow(b, e - 1)
  }

  lemma {:induction false} PowOne(e: nat)
    ensures Pow(1, e) == 1
  {
    if e > 0 { PowOne(e - 1); }
  }

  lemma {:induction false} PowAdd(b: int, e: nat, f: nat)
    ensures Pow(b, e + f) == Pow(b, e) * Pow(b, f)
  {
    if e > 0 {
      PowAdd(b, e - 1, f);
      assert Pow(b, e + f) == b * Pow(b, e - 1 + f);
      assert b * (Pow(b, e - 1) * Pow(b, f)) == (b * Pow(b, e - 1)) * Pow(b, f);
    }
  }

  lemma {:induction false} PowPow(b: int, e: nat, f: nat)
    ensures 0 <= e * f && Pow(b, e * f) == Pow(Pow(b, e), f)
  {
    if f > 0 {
      PowPow(b, e, f - 1);
      assert e * f == e + e * (f - 1);
      PowAdd(b, e, e * (f - 1));
    }
  }

  lemma Regroup(a: int, b: int, x: int, y: int)
    ensures (a * b) * (x * y) == (a * x) * (b * y)
  {
    assert (a * b) * (x * y) == a * (b * x * y);
    assert (a * x) * (b * y) == a * (x * b * y);
  }

  lemma {:induction false} PowProduct(a: int, b: int, e: nat)
    ensures Pow(a * b, e) == Pow(a, e) * Pow(b, e)
  {
    if e > 0 {
      PowProduct(a, b, e - 1);
      Regroup(a, b, Pow(a, e - 1), Pow(b, e - 1));
    }
  }

  lemma {:induction false} CongPow(a: int, b: int, e: nat, n: int)
    requires n > 0 && Cong(a, b, n)
    ensures Cong(Pow(a, e), Pow(b, e), n)
  {
    if e > 0 {
      CongPow(a, b, e - 1, n);
      CongMul(a, b, Pow(a, e - 1), Pow(b, e - 1), n);
    }
  }

  /** Python's three-argument `pow`. */
  function ModPow(b: int, e: nat, n: int): (r: int)
    requires n > 0
    ensures 0 <= r < n
  {
    Pow(b, e) % n
  }

  // ---------- greatest common divisor ----------

  /** The recursive `extended_gcd` of `mod_inverse` (prog3/homomorphic.py). */
  function ExtendedGcd(a: nat, b: nat): (r: (nat, int, int))
    ensures r.0 == a * r.1 + b * r.2
    ensures a > 0 || b > 0 ==> r.0 > 0
    decreases a
  {
    if a == 0 then (b, 0, 1)
    else
      var (g, x1, y1) := ExtendedGcd(b % a, a);
      assert a * (y1 - (b / a) * x1) + b * x1 == (b % a) * x1 + a * y1 by {
        assert b == (b / a) * a + b % a;
        assert ((b / a) * a + b % a) * x1 == (b / a) * a * x1 + (b % a) * x1;
        assert a * ((b / a) * x1) == (b / a) * a * x1;
        assert a * (y1 - (b / a) * x1) == a * y1 - a * ((b / a) * x1);
      }
      (g, y1 - (b / a) * x1, x1)
  }

  function Gcd(a: nat, b: nat): nat {
    ExtendedGcd(a, b).0
  }

  /** The result is a common divisor; every common divisor divides it. */
  lemma {:induction false} GcdIsGreatest(a: nat, b: nat)
    requires a > 0 || b > 0
    ensures Gcd(a, b) > 0 && Divides(Gcd(a, b), a) && Divides(Gcd(a, b), b)
    ensures forall d :: d > 0 && Divides(d, a) && Divides(d, b) ==> Divides(d, Gcd(a, b))
    decreases a
  {
    if a > 0 {
      GcdIsGreatest(b % a, a);
      DividesBack(Gcd(a, b), a, b);
    }
    forall d | d > 0 && Divides(d, a) && Divides(d, b) ensures Divides(d, Gcd(a, b)) {
      DividesGcd(d, a, b);
    }
  }

  lemma DividesBack(g: int, a: nat, b: nat)
    requires g > 0 && a > 0 && Divides(g, a) && Divides(g, b % a)
    ensures Divides(g, b)
  {
    assert b == a * (b / a) + b % a;
    DividesProduct(g, a, b / a);
    DividesSum(g, a * (b / a), b % a);
  }

  lemma DividesGcd(d: int, a: nat, b: nat)
    requires d > 0 && Divides(d, a) && Divides(d, b)
    ensures Divides(d, Gcd(a, b))
  {
    var (g, x, y) := ExtendedGcd(a, b);
    DividesProduct(d, a, x);
    DividesProduct(d, b, y);
    DividesSum(d, a * x, b * y);
  }

  ghost predicate Coprime(a: nat, b: nat) {
    Gcd(a, b) == 1
  }

  /** A Bezout identity makes two numbers coprime. */
  lemma CoprimeFromBezout(a: nat, b: nat, x: int, y: int)
    requires a * x + b * y == 1
    ensures Coprime(a, b)
  {
    GcdIsGreatest(a, b);
    var g := Gcd(a, b);
    DividesProduct(g, a, x);
    DividesProduct(g, b, y);
    DividesSum(g, a * x, b * y);
    if g > 1 { SmallMultiple(g, 1); }
  }

  lemma Bezout(a: nat, b: nat) returns (x: int, y: int)
    requires Coprime(a, b)
    ensures a * x + b * y == 1
    ensures x == ExtendedGcd(a, b).1 && y == ExtendedGcd(a, b).2
  {
    x, y := ExtendedGcd(a, b).1, ExtendedGcd(a, b).2;
  }

  lemma CoprimeShift(a: nat, b: nat, n: nat, q: int)
    requires Coprime(b, n) && a == q * n + b
    ensures Coprime(a, n)
  {
    var x, y := Bezout(b, n);
    ShiftBezout(a, b, n, q, x, y);
    CoprimeFromBezout(a, n, x, y - q * x);
  }

  lemma CoprimeMod(a: nat, n: nat)
    requires n > 0
    ensures Coprime(a % n, n) <==> Coprime(a, n)
  {
    if Coprime(a % n, n) { CoprimeShift(a, a % n, n, a / n); }
    if Coprime(a, n) { CoprimeShift(a % n, a, n, -(a / n)); }
  }

  lemma ShiftBezout(a: int, r: int, n: int, q: int, x: int, y: int)
    requires a == q * n + r && r * x + n * y == 1
    ensures a * x + n * (y - q * x) == 1
  {
    assert (q * n + r) * x == (q * n) * x + r * x;
    assert n * (y - q * x) == n * y - (q * n) * x;
  }

  lemma BezoutProduct(p: int, q: int, r: int, s: int, n: int, y: int, v: int)
    requires q == n * y && s == n * v && p + q == 1 && r + s == 1
    ensures p * r + n * (p * v + y * r + y * s) == 1
  {
    assert (p + q) * (r + s) == p * r + p * s + q * r + q * s;
    assert p * s == n * (p * v) && q * r == n * (y * r) && q * s == n * (y * s);
  }

  lemma CoprimeProduct(a: nat, b: nat, n: nat)
    requires Coprime(a, n) && Coprime(b, n)
    ensures Coprime(a * b, n)
  {
    var x, y := Bezout(a, n);
    var u, v := Bezout(b, n);
    BezoutProduct(a * x, n * y, b * u, n * v, n, y, v);
    assert (a * x) * (b * u) == (a * b) * (x * u) by { Regroup(a, x, b, u); Regroup(a, b, x, u); }
    CoprimeFromBezout(a * b, n, x * u, (a * x) * v + y * (b * u) + y * (n * v));
  }

  // ---------- primes ----------

  ghost predicate Prime(p: int) {
    p >= 2 && forall d :: 2 <= d < p ==> !Divides(d, p)
  }

  lemma PrimeCoprime(p: int, a: nat)
    requires Prime(p) && !Divides(p, a)
    ensures Coprime(a, p)
  {
    GcdIsGreatest(a, p);
    var g := Gcd(a, p);
    if g > p { SmallMultiple(g, p); }
  }

  /** Euclid's lemma. */
  lemma EuclidsLemma(p: int, a: nat, b: nat)
    requires Prime(p) && Divides(p, a * b)
    ensures Divides(p, a) || Divides(p, b)
  {
    if !Divides(p, a) {
      PrimeCoprime(p, a);
      var (g, x, y) := ExtendedGcd(a, p);
      assert b == (a * b) * x + p * (y * b) by {
        assert (a * x + p * y) * b == b;
        assert (a * x) * b == (a * b) * x && (p * y) * b == p * (y * b);
      }
      DividesProduct(p, a * b, x);
      DividesFrom(p, p * (y * b), y * b);
      DividesSum(p, (a * b) * x, p * (y * b));
    }
  }

  lemma {:induction false} PrimeDividesPower(p: int, a: nat, e: nat)
    requires Prime(p) && 0 <= Pow(a, e) && Divides(p, Pow(a, e))
    ensures Divides(p, a)
  {
    if e == 0 {
      SmallMultiple(p, 1);
    } else {
      PowNonNegative(a, e - 1);
      EuclidsLemma(p, a, Pow(a, e - 1));
      if Divides(p, Pow(a, e - 1)) { PrimeDividesPower(p, a, e - 1); }
    }
  }

  lemma {:induction false} PowNonNegative(a: nat, e: nat)
    ensures Pow(a, e) >= 0
  {
    if e > 0 { PowNonNegative(a, e - 1); }
  }
}
