/**
 The Paillier cryptosystem of prog3/homomorphic.py: key generation, encryption,
 decryption and the homomorphic operations, with the random draws as inputs.
*/
module Paillier {
  import opened Wrappers
  import opened NumberTheory
  import opened Fermat
  import opened MillerRabin

  datatype PublicKey = PublicKey(n: nat, g: nat, nSquared: nat)

  datatype PrivateKey = PrivateKey(lambda: nat, mu: nat, publicKey: PublicKey)

  datatype Error = PlaintextOutOfRange | NoInverse

  // ---------- lcm and mod_inverse ----------

  function Lcm(a: nat, b: nat): nat
    requires a > 0 && b > 0
  {
    GcdIsGreatest(a, b);
    a * b / Gcd(a, b)
  }

  lemma LcmParts(a: nat, b: nat) returns (j: nat, k: nat)
    requires a > 0 && b > 0
    ensures Lcm(a, b) == a * j && Lcm(a, b) == k * b
    ensures Lcm(a, b) * Gcd(a, b) == a * b
  {
    GcdIsGreatest(a, b);
    var g := Gcd(a, b);
    k := Quotient(g, a);
    j := Quotient(g, b);
    assert a * b == (k * b) * g by { assert (k * g) * b == (k * b) * g; }
    DivModUnique(a * b, g, k * b, 0);
    assert a * j == k * b by { assert (k * g) * j == k * (j * g); }
  }

  /** The result is a positive common multiple, and divides every other. */
  lemma LcmIsLeast(a: nat, b: nat)
    requires a > 0 && b > 0
    ensures Lcm(a, b) > 0 && Divides(a, Lcm(a, b)) && Divides(b, Lcm(a, b))
    ensures forall m: nat :: Divides(a, m) && Divides(b, m) ==> Divides(Lcm(a, b), m)
  {
    var j, k := LcmParts(a, b);
    DividesFrom(a, a * j, j);
    DividesFrom(b, k * b, k);
    if Lcm(a, b) == 0 { Positive(a, b); }
    forall m: nat | Divides(a, m) && Divides(b, m) ensures Divides(Lcm(a, b), m) {
      CommonMultiple(a, b, m);
    }
  }

  lemma Positive(a: nat, b: nat)
    requires a > 0 && b > 0
    ensures a * b > 0
  {
  }

  /** With g = a x + b y, g m = (a b) (m/b x + m/a y), and a b = lcm g. */
  lemma CommonMultiple(a: nat, b: nat, m: nat)
    requires a > 0 && b > 0 && Lcm(a, b) > 0 && Divides(a, m) && Divides(b, m)
    ensures Divides(Lcm(a, b), m)
  {
    GcdIsGreatest(a, b);
    var _, _ := LcmParts(a, b);
    var (g, x, y) := ExtendedGcd(a, b);
    var s := Quotient(a, m);
    var t := Quotient(b, m);
    var l := Lcm(a, b);
    MultipleOfLcm(a, b, g, x, y, s, t, m, l);
    DividesFrom(l, m, t * x + s * y);
  }

  lemma MultipleOfLcm(a: int, b: int, g: int, x: int, y: int, s: int, t: int, m: int, l: int)
    requires g > 0 && g == a * x + b * y && m == s * a && m == t * b && l * g == a * b
    ensures m == (t * x + s * y) * l
  {
    assert g * m == (a * x) * m + (b * y) * m;
    assert (a * x) * (t * b) == (a * b) * (t * x) && (b * y) * (s * a) == (a * b) * (s * y);
    assert (l * g) * (t * x + s * y) == (l * g) * (t * x) + (l * g) * (s * y);
    assert (l * g) * (t * x + s * y) == g * ((t * x + s * y) * l);
    Cancel(g, m, (t * x + s * y) * l);
  }

  lemma Cancel(g: int, a: int, b: int)
    requires g > 0 && g * a == g * b
    ensures a == b
  {
    assert g * (a - b) == 0;
  }

  /** `mod_inverse`: the inverse, or the ValueError. */
  function ModInverse(a: int, m: nat): (r: Result<nat, Error>)
    requires m > 0
  {
    var (g, x, _) := ExtendedGcd(a % m, m);
    if g != 1 then Err(NoInverse) else Ok((x % m + m) % m)
  }

  lemma InverseFromBezout(a: int, m: nat, x: int, y: int)
    requires m > 0 && (a % m) * x + m * y == 1
    ensures (x % m + m) % m == x % m && Cong(a * (x % m), 1, m)
  {
    DivModUnique(x % m + m, m, 1, x % m);
    CongMod(x, m);
    CongMod(a, m);
    CongMul(a, a % m, x % m, x, m);
    CongFromMultiple((a % m) * x, 1, m, -y);
  }

  lemma BezoutFromInverse(a: int, m: nat, x: int)
    requires m > 0 && Cong(a * x, 1, m)
    ensures Coprime(a % m, m)
  {
    CongMulMod(a, x, m);
    var k := MultipleFromCong((a % m) * x, 1, m);
    assert (a % m) * x + m * -k == 1;
    CoprimeFromBezout(a % m, m, x, -k);
  }

  /** It raises exactly when there is no inverse, and returns the one reduced inverse. */
  lemma ModInverseCorrect(a: int, m: nat)
    requires m > 0
    ensures ModInverse(a, m).Ok? <==> Coprime(a % m, m)
    ensures ModInverse(a, m).Ok? ==>
      ModInverse(a, m).value < m && Cong(a * ModInverse(a, m).value, 1, m)
    ensures ModInverse(a, m).Err? ==> forall x: int :: !Cong(a * x, 1, m)
  {
    if Coprime(a % m, m) {
      var x, y := Bezout(a % m, m);
      InverseFromBezout(a, m, x, y);
    } else {
      forall x: int ensures !Cong(a * x, 1, m) {
        if Cong(a * x, 1, m) { BezoutFromInverse(a, m, x); }
      }
    }
  }

  // ---------- powers modulo n and n^2 ----------

  lemma OnePlusStep(e: int, y: int)
    ensures (1 + y) * (1 + (e - 1) * y) == 1 + e * y + (e - 1) * (y * y)
  {
    assert (1 + y) * (1 + (e - 1) * y) == 1 + (e - 1) * y + y + y * ((e - 1) * y);
    assert y * ((e - 1) * y) == (e - 1) * (y * y);
  }

  lemma SquareMultiple(e: int, y: int, k: int, n: int)
    requires y == k * n
    ensures e * (y * y) == (e * (k * k)) * (n * n)
  {
    Regroup(k, n, k, n);
  }

  lemma LinearStep(e: int, y: int, k: int, n: int, a: int, b: int)
    requires n * n > 0 && y == k * n && a == 1 + (e - 1) * y && b == 1 + e * y
    ensures Cong((1 + y) * a, b, n * n)
  {
    OnePlusStep(e, y);
    SquareMultiple(e - 1, y, k, n);
    CongFromMultiple((1 + y) * a, b, n * n, (e - 1) * (k * k));
  }

  lemma CongChain(x: int, p: int, a: int, b: int, n: int)
    requires n > 0 && Cong(p, a, n) && Cong(x * a, b, n)
    ensures Cong(x * p, b, n)
  {
    CongMul(x, x, p, a, n);
  }

  /** With y = k n: (1 + y)^e = 1 + e y modulo n^2. */
  lemma {:induction false} OnePlusPow(y: int, k: int, n: nat, e: nat)
    requires n * n > 0 && y == k * n
    ensures Cong(Pow(1 + y, e), 1 + e * y, n * n)
  {
    if e > 0 {
      OnePlusPow(y, k, n, e - 1);
      LinearStep(e, y, k, n, 1 + (e - 1) * y, 1 + e * y);
      CongChain(1 + y, Pow(1 + y, e - 1), 1 + (e - 1) * y, 1 + e * y, n * n);
    }
  }

  /** What is 1 modulo n has an n-th power that is 1 modulo n^2. */
  lemma NthPowerLifts(a: int, n: nat)
    requires n > 0 && n * n > 0 && Cong(a, 1, n)
    ensures Cong(Pow(a, n), 1, n * n)
  {
    var k := MultipleFromCong(a, 1, n);
    OnePlusPow(k * n, k, n, n);
    assert n * (k * n) == k * (n * n);
    CongFromMultiple(1 + n * (k * n), 1, n * n, k);
  }

  lemma {:induction false} CoprimePow(a: nat, e: nat, n: nat)
    requires Coprime(a, n)
    ensures 0 <= Pow(a, e) && Coprime(Pow(a, e), n)
  {
    if e == 0 {
      CoprimeFromBezout(1, n, 1, 0);
    } else {
      CoprimePow(a, e - 1, n);
      CoprimeProduct(a, Pow(a, e - 1), n);
    }
  }

  lemma CoprimeSymmetric(a: nat, b: nat)
    requires Coprime(a, b)
    ensures Coprime(b, a)
  {
    var x, y := Bezout(a, b);
    CoprimeFromBezout(b, a, y, x);
  }

  lemma CoprimeNotDivisible(p: nat, r: nat, n: nat)
    requires p > 1 && Divides(p, n) && Coprime(r, n)
    ensures !Divides(p, r)
  {
    if Divides(p, r) {
      DividesGcd(p, r, n);
      SmallMultiple(p, 1);
    }
  }

  /** Distinct primes that both divide x have a product that divides x. */
  lemma PrimesDivideTogether(p: nat, q: nat, x: int)
    requires Prime(p) && Prime(q) && p != q && p * q > 0 && Divides(p, x) && Divides(q, x)
    ensures Divides(p * q, x)
  {
    if Divides(q, p) {
      if p < q { SmallMultiple(q, p); }
    }
    PrimeCoprime(q, p);
    var u, v := Bezout(p, q);
    var s := Quotient(p, x);
    var t := Quotient(q, x);
    BezoutSplit(p, q, u, v, s, t, x);
    DividesFrom(p * q, x, t * u + s * v);
  }

  lemma BezoutSplit(p: int, q: int, u: int, v: int, s: int, t: int, x: int)
    requires p * u + q * v == 1 && x == s * p && x == t * q
    ensures x == (t * u + s * v) * (p * q)
  {
    assert x == (p * u) * x + (q * v) * x;
    assert (p * u) * (t * q) == (t * u) * (p * q) && (q * v) * (s * p) == (s * v) * (p * q);
  }

  /** Fermat along a multiple of p - 1. */
  lemma OrderDividesMultiple(p: nat, r: nat, l: nat, j: nat)
    requires Prime(p) && !Divides(p, r) && l == (p - 1) * j
    ensures Cong(Pow(r, l), 1, p)
  {
    LittleTheorem(r, p);
    PowPow(r, p - 1, j);
    CongPow(Pow(r, p - 1), 1, j, p);
    PowOne(j);
  }

  /** Carmichael: r^lambda is 1 modulo n for every r coprime to n. */
  lemma LambdaKills(p: nat, q: nat, n: nat, r: nat)
    requires Prime(p) && Prime(q) && p != q && n == p * q && n > 0 && Coprime(r, n)
    ensures Cong(Pow(r, Lcm(p - 1, q - 1)), 1, n)
  {
    var l := Lcm(p - 1, q - 1);
    var j, k := LcmParts(p - 1, q - 1);
    DividesFrom(p, n, q);
    DividesFrom(q, n, p);
    CoprimeNotDivisible(p, r, n);
    CoprimeNotDivisible(q, r, n);
    OrderDividesMultiple(p, r, l, j);
    OrderDividesMultiple(q, r, l, k);
    CongZero(Pow(r, l), 1, p);
    CongZero(Pow(r, l), 1, q);
    PrimesDivideTogether(p, q, Pow(r, l) - 1);
    CongZero(Pow(r, l), 1, n);
  }

  // ---------- key generation ----------

  ghost predicate HasBits(p: nat, bits: nat)
    requires bits > 0
  {
    Doubled(bits - 1, 1) <= p < Doubled(bits, 1)
  }

  /** What the two calls of `generate_prime` give: odd primes of the same bit length. */
  ghost predicate KeyPrimes(p: nat, q: nat) {
    Prime(p) && Prime(q) && p % 2 == 1 && q % 2 == 1
    && (exists bits: nat :: bits > 0 && HasBits(p, bits) && HasBits(q, bits))
  }

  lemma PrimeMissesOther(p: nat, q: nat)
    requires KeyPrimes(p, q) && p != q
    ensures !Divides(p, p - 1) && !Divides(p, q - 1)
  {
    if Divides(p, p - 1) { SmallMultiple(p, p - 1); }
    if Divides(p, q - 1) {
      var k := Quotient(p, q - 1);
      OneTimes(k, p, q - 1);
    }
  }

  lemma OneTimes(k: int, p: int, x: int)
    requires p > 0 && x == k * p && 0 < x < 2 * p
    ensures k == 1
  {
    if k >= 2 { MulGe(k - 1, p); }
    if k <= 0 { MulGe(1 - k, p); }
  }

  lemma PrimeMissesLambda(p: nat, q: nat)
    requires KeyPrimes(p, q) && p != q
    ensures Coprime(p, Lcm(p - 1, q - 1))
  {
    var l := Lcm(p - 1, q - 1);
    var _, _ := LcmParts(p - 1, q - 1);
    if Divides(p, l) {
      DividesProduct(p, l, Gcd(p - 1, q - 1));
      EuclidsLemma(p, p - 1, q - 1);
      PrimeMissesOther(p, q);
    }
    PrimeCoprime(p, l);
    CoprimeSymmetric(l, p);
  }

  lemma LcmSymmetric(a: nat, b: nat)
    requires a > 0 && b > 0
    ensures Lcm(a, b) == Lcm(b, a)
  {
    LcmIsLeast(a, b);
    LcmIsLeast(b, a);
    MutualDivisors(Lcm(a, b), Lcm(b, a));
  }

  lemma MutualDivisors(a: nat, b: nat)
    requires a > 0 && b > 0 && Divides(a, b) && Divides(b, a)
    ensures a == b
  {
    if a < b { SmallMultiple(b, a); }
    if b < a { SmallMultiple(a, b); }
  }

  /** For two distinct odd primes of equal bit length, gcd(lambda, n) = 1. */
  lemma LambdaCoprime(p: nat, q: nat)
    requires KeyPrimes(p, q) && p != q
    ensures p * q > 1 && Coprime(Lcm(p - 1, q - 1), p * q)
  {
    var l := Lcm(p - 1, q - 1);
    MulGe(p, q);
    PrimeMissesLambda(p, q);
    PrimeMissesLambda(q, p);
    LcmSymmetric(p - 1, q - 1);
    CoprimeProduct(p, q, l);
    CoprimeSymmetric(p * q, l);
  }

  ghost predicate PublicKeyOf(p: nat, q: nat, pk: PublicKey) {
    Prime(p) && Prime(q) && p != q
    && pk.n == p * q && pk.n > 1 && pk.g == pk.n + 1 && pk.nSquared == pk.n * pk.n && pk.nSquared > 0
  }

  /** The keys that belong to the primes p and q. */
  ghost predicate KeysOf(p: nat, q: nat, pk: PublicKey, sk: PrivateKey) {
    PublicKeyOf(p, q, pk)
    && sk.publicKey == pk
    && sk.lambda == Lcm(p - 1, q - 1)
    && sk.mu < pk.n && Cong(sk.lambda * sk.mu, 1, pk.n)
  }

  /** 1 + a n, reduced modulo n^2, is 1 + (a mod n) n. */
  lemma ReduceLinear(a: nat, n: nat)
    requires n > 1 && n * n > 0
    ensures (1 + a * n) % (n * n) == 1 + (a % n) * n
    ensures (1 + (a % n) * n - 1) / n == a % n
  {
    var s := a % n;
    assert a == (a / n) * n + s;
    assert ((a / n) * n + s) * n == (a / n) * (n * n) + s * n;
    assert 0 <= s * n <= (n - 1) * n by { MulLe(s, n - 1, n); }
    assert (n - 1) * n == n * n - n;
    DivModUnique(1 + a * n, n * n, a / n, 1 + s * n);
    DivModUnique(s * n, n, s, 0);
  }

  lemma MulLe(a: int, b: int, n: int)
    requires 0 <= a <= b && n >= 0
    ensures 0 <= a * n <= b * n
  {
  }

  /** g^m modulo n^2. */
  lemma GeneratorPower(n: nat, m: nat)
    requires n > 1 && n * n > 0
    ensures ModPow(n + 1, m, n * n) == 1 + (m % n) * n
  {
    OnePlusPow(n, 1, n, m);
    ReduceLinear(m, n);
  }

  /** `generate_keypair`. The first argument is the first prime drawn, the
      sequence holds the primes drawn for q until one differs from p. */
  method GenerateKeypair(p: nat, qs: seq<nat>) returns (keys: Result<(PublicKey, PrivateKey), Error>, ghost q: nat)
    requires forall i :: 0 <= i < |qs| ==> KeyPrimes(p, qs[i])
    requires exists i :: 0 <= i < |qs| && qs[i] != p
    ensures exists j :: 0 <= j < |qs| && q == qs[j] != p && forall k :: 0 <= k < j ==> qs[k] == p
    ensures keys.Ok? && KeysOf(p, q, keys.value.0, keys.value.1)
  {
    var i := 0;
    while qs[i] == p
      invariant 0 <= i < |qs| && exists j :: i <= j < |qs| && qs[j] != p
      invariant forall k :: 0 <= k < i ==> qs[k] == p
      decreases |qs| - i
    {
      i := i + 1;
    }
    q := qs[i];
    LambdaCoprime(p, qs[i]);
    var n := p * qs[i];
    MulGe(n, n);
    var lambda := Lcm(p - 1, qs[i] - 1);
    var u := ModPow(n + 1, lambda, n * n);
    GeneratorPower(n, lambda);
    ReduceLinear(lambda, n);
    var l := (u - 1) / n;
    assert l == lambda % n;
    CoprimeMod(lambda, n);
    DivModUnique(l, n, 0, l);
    ModInverseCorrect(l, n);
    var mu := ModInverse(l, n);
    match mu {
      case Err(e) => keys := Err(e);
      case Ok(v) =>
        CongMulMod(lambda, v, n);
        var pk := PublicKey(n, n + 1, n * n);
        keys := Ok((pk, PrivateKey(lambda, v, pk)));
    }
  }

  // ---------- encryption and decryption ----------

  function EncryptWith(pk: PublicKey, m: nat, r: nat): nat
    requires pk.nSquared > 0
  {
    (ModPow(pk.g, m, pk.nSquared) * ModPow(r, pk.n, pk.nSquared)) % pk.nSquared
  }

  /** c is a ciphertext of m under some blinding factor coprime to n. */
  ghost predicate Encrypts(pk: PublicKey, c: nat, m: nat)
    requires pk.nSquared > 0
  {
    exists r: nat :: Coprime(r, pk.n) && c == EncryptWith(pk, m, r)
  }

  /** The blinding factor in use is the first draw that is coprime to n. */
  ghost predicate FirstCoprime(draws: seq<nat>, n: nat, i: nat) {
    i < |draws| && Coprime(draws[i], n) && forall j :: 0 <= j < i ==> !Coprime(draws[j], n)
  }

  /** c is g^m r^n reduced modulo n^2. */
  ghost predicate IsEncryption(pk: PublicKey, c: nat, m: nat, r: nat)
    requires pk.nSquared > 0
  {
    c < pk.nSquared && Cong(c, Pow(pk.g, m) * Pow(r, pk.n), pk.nSquared)
  }

  /** c encrypts m with the first usable draw. */
  ghost predicate EncryptedFrom(pk: PublicKey, draws: seq<nat>, c: nat, m: nat)
    requires pk.nSquared > 0
  {
    exists i: nat :: FirstCoprime(draws, pk.n, i) && IsEncryption(pk, c, m, draws[i])
  }

  lemma EncryptionIs(pk: PublicKey, m: nat, r: nat)
    requires pk.nSquared > 0
    ensures IsEncryption(pk, EncryptWith(pk, m, r), m, r)
  {
    EncryptValue(pk, m, r);
  }

  /** `encrypt`: draws blinding factors until one is coprime to n. */
  method Encrypt(pk: PublicKey, plaintext: int, draws: seq<nat>) returns (c: Result<nat, Error>)
    requires pk.nSquared > 0
    requires 0 <= plaintext < pk.n ==> exists i :: 0 <= i < |draws| && Gcd(draws[i], pk.n) == 1
    ensures c.Err? <==> plaintext < 0 || plaintext >= pk.n
    ensures c.Ok? ==> EncryptedFrom(pk, draws, c.value, plaintext)
    ensures c.Ok? ==> Encrypts(pk, c.value, plaintext)
  {
    hide IsEncryption, EncryptWith;
    if plaintext < 0 || plaintext >= pk.n { return Err(PlaintextOutOfRange); }
    var i := 0;
    while Gcd(draws[i], pk.n) != 1
      invariant 0 <= i < |draws| && exists j :: i <= j < |draws| && Gcd(draws[j], pk.n) == 1
      invariant forall j :: 0 <= j < i ==> !Coprime(draws[j], pk.n)
      decreases |draws| - i
    {
      i := i + 1;
    }
    assert FirstCoprime(draws, pk.n, i);
    EncryptionIs(pk, plaintext, draws[i]);
    EncryptionEncrypts(pk, plaintext, draws[i]);
    return Ok(EncryptWith(pk, plaintext, draws[i]));
  }

  function Decrypt(sk: PrivateKey, c: nat): int
    requires sk.publicKey.n > 0 && sk.publicKey.nSquared > 0
  {
    var u := ModPow(c, sk.lambda, sk.publicKey.nSquared);
    var l := (u - 1) / sk.publicKey.n;
    (l * sk.mu) % sk.publicKey.n
  }

  function AddEncrypted(pk: PublicKey, c1: nat, c2: nat): nat
    requires pk.nSquared > 0
  {
    (c1 * c2) % pk.nSquared
  }

  /** `pow(c, e, n)`: a negative exponent inverts first, or raises. */
  function PowSigned(c: nat, e: int, n: nat): Result<nat, Error>
    requires n > 0
  {
    if e >= 0 then Ok(ModPow(c, e, n))
    else
      match ModInverse(c, n)
      case Err(e) => Err(e)
      case Ok(v) => Ok(ModPow(v, -e, n))
  }

  function MultiplyByConstant(pk: PublicKey, c: nat, k: int): Result<nat, Error>
    requires pk.nSquared > 0
  {
    PowSigned(c, k, pk.nSquared)
  }

  /** A ciphertext is g^m r^n modulo n^2. */
  lemma EncryptValue(pk: PublicKey, m: nat, r: nat)
    requires pk.nSquared > 0
    ensures 0 <= Pow(pk.g, m) && 0 <= Pow(r, pk.n)
    ensures Cong(EncryptWith(pk, m, r), Pow(pk.g, m) * Pow(r, pk.n), pk.nSquared)
    ensures EncryptWith(pk, m, r) == (Pow(pk.g, m) * Pow(r, pk.n)) % pk.nSquared
  {
    PowNonNegative(pk.g, m);
    PowNonNegative(r, pk.n);
    var s := pk.nSquared;
    CongMod(Pow(pk.g, m), s);
    CongMod(Pow(r, pk.n), s);
    CongMul(ModPow(pk.g, m, s), Pow(pk.g, m), ModPow(r, pk.n, s), Pow(r, pk.n), s);
    CongMod(ModPow(pk.g, m, s) * ModPow(r, pk.n, s), s);
  }

  /** Raising a ciphertext to lambda removes the blinding factor. */
  lemma BlindingVanishes(p: nat, q: nat, pk: PublicKey, m: nat, r: nat)
    requires PublicKeyOf(p, q, pk) && Coprime(r, pk.n)
    ensures Cong(Pow(Pow(r, pk.n), Lcm(p - 1, q - 1)), 1, pk.nSquared)
  {
    var l := Lcm(p - 1, q - 1);
    LambdaKills(p, q, pk.n, r);
    NthPowerLifts(Pow(r, l), pk.n);
    PowPow(r, l, pk.n);
    PowPow(r, pk.n, l);
    assert l * pk.n == pk.n * l;
  }

  lemma LambdaPower(p: nat, q: nat, pk: PublicKey, c: nat, m: nat)
    requires PublicKeyOf(p, q, pk) && Encrypts(pk, c, m)
    ensures m * Lcm(p - 1, q - 1) >= 0
    ensures ModPow(c, Lcm(p - 1, q - 1), pk.nSquared) == 1 + ((m * Lcm(p - 1, q - 1)) % pk.n) * pk.n
  {
    var l := Lcm(p - 1, q - 1);
    var s := pk.nSquared;
    var r: nat :| Coprime(r, pk.n) && c == EncryptWith(pk, m, r);
    EncryptValue(pk, m, r);
    var a, b := Pow(pk.g, m), Pow(r, pk.n);
    CongPow(c, a * b, l, s);
    PowProduct(a, b, l);
    BlindingVanishes(p, q, pk, m, r);
    CongMul(Pow(a, l), Pow(a, l), Pow(b, l), 1, s);
    PowPow(pk.g, m, l);
    GeneratorPower(pk.n, m * l);
  }

  /** Decryption is exact on every ciphertext, however it was formed. */
  lemma DecryptsExactly(p: nat, q: nat, pk: PublicKey, sk: PrivateKey, c: nat, m: nat)
    requires KeysOf(p, q, pk, sk) && Encrypts(pk, c, m)
    ensures Decrypt(sk, c) == m % pk.n
  {
    LambdaPower(p, q, pk, c, m);
    ReduceLinear(m * sk.lambda, pk.n);
    Unscale(m, sk.lambda, sk.mu, pk.n);
  }

  lemma Unscale(m: nat, l: nat, mu: nat, n: nat)
    requires n > 0 && m * l >= 0 && Cong(l * mu, 1, n)
    ensures (((m * l) % n) * mu) % n == m % n
  {
    CongMulMod(m * l, mu, n);
    CongMul(m, m, l * mu, 1, n);
    assert (m * l) * mu == m * (l * mu);
  }

  /** Round trip on the whole plaintext range, for every blinding factor. */
  lemma RoundTrip(p: nat, q: nat, pk: PublicKey, sk: PrivateKey, m: nat, r: nat)
    requires KeysOf(p, q, pk, sk) && m < pk.n && Coprime(r, pk.n)
    ensures Decrypt(sk, EncryptWith(pk, m, r)) == m
  {
    EncryptionEncrypts(pk, m, r);
    DecryptsExactly(p, q, pk, sk, EncryptWith(pk, m, r), m);
    DivModUnique(m, pk.n, 0, m);
  }

  lemma EncryptionEncrypts(pk: PublicKey, m: nat, r: nat)
    requires pk.nSquared > 0 && Coprime(r, pk.n)
    ensures Encrypts(pk, EncryptWith(pk, m, r), m)
  {
  }

  // ---------- the homomorphic operations ----------

  /** Multiplying ciphertexts adds plaintexts. */
  lemma AddEncryptedAdds(pk: PublicKey, c1: nat, m1: nat, c2: nat, m2: nat)
    requires pk.nSquared > 0 && Encrypts(pk, c1, m1) && Encrypts(pk, c2, m2)
    ensures Encrypts(pk, AddEncrypted(pk, c1, c2), m1 + m2)
  {
    var r1: nat :| Coprime(r1, pk.n) && c1 == EncryptWith(pk, m1, r1);
    var r2: nat :| Coprime(r2, pk.n) && c2 == EncryptWith(pk, m2, r2);
    var s := pk.nSquared;
    EncryptValue(pk, m1, r1);
    EncryptValue(pk, m2, r2);
    EncryptValue(pk, m1 + m2, r1 * r2);
    CongMul(c1, Pow(pk.g, m1) * Pow(r1, pk.n), c2, Pow(pk.g, m2) * Pow(r2, pk.n), s);
    Regroup(Pow(pk.g, m1), Pow(r1, pk.n), Pow(pk.g, m2), Pow(r2, pk.n));
    PowAdd(pk.g, m1, m2);
    PowProduct(r1, r2, pk.n);
    CoprimeProduct(r1, r2, pk.n);
    assert AddEncrypted(pk, c1, c2) == EncryptWith(pk, m1 + m2, r1 * r2);
  }

  lemma CiphertextPower(pk: PublicKey, c: nat, m: nat, k: nat)
    requires pk.nSquared > 0 && Encrypts(pk, c, m)
    ensures m * k >= 0 && Encrypts(pk, ModPow(c, k, pk.nSquared), m * k)
  {
    var r: nat :| Coprime(r, pk.n) && c == EncryptWith(pk, m, r);
    EncryptValue(pk, m, r);
    CoprimePow(r, k, pk.n);
    EncryptValue(pk, m * k, Pow(r, k));
    CongPow(c, Pow(pk.g, m) * Pow(r, pk.n), k, pk.nSquared);
    PowProduct(Pow(pk.g, m), Pow(r, pk.n), k);
    PowPow(pk.g, m, k);
    PowPow(r, pk.n, k);
    PowPow(r, k, pk.n);
    assert pk.n * k == k * pk.n;
    assert ModPow(c, k, pk.nSquared) == EncryptWith(pk, m * k, Pow(r, k));
  }

  lemma CoprimeSquare(n: nat, s: nat, r: nat)
    requires s == n * n && s > 0 && Coprime(r, n)
    ensures Coprime(r, s)
  {
    CoprimeSymmetric(r, n);
    CoprimeProduct(n, n, r);
    CoprimeSymmetric(s, r);
  }

  lemma InverseIsCoprime(n: nat, s: nat, r: nat, v: nat)
    requires s == n * n && s > 0 && Cong(r * v, 1, s)
    ensures Coprime(v, n)
  {
    var k := MultipleFromCong(r * v, 1, s);
    assert k * s == n * (k * n);
    CoprimeFromBezout(v, n, r, -(k * n));
  }

  /** A blinding factor has an inverse modulo n^2, which is a blinding factor too. */
  lemma BlindingInverse(n: nat, s: nat, r: nat) returns (v: nat)
    requires s == n * n && s > 0 && Coprime(r, n)
    ensures Coprime(v, n) && Cong(r * v, 1, s)
  {
    CoprimeSquare(n, s, r);
    CoprimeMod(r, s);
    v := ReducedInverse(r, s);
    InverseIsCoprime(n, s, r, v);
  }

  lemma ReducedInverse(r: nat, s: nat) returns (v: nat)
    requires s > 0 && Coprime(r % s, s)
    ensures Cong(r * v, 1, s)
  {
    ModInverseCorrect(r, s);
    v := ModInverse(r, s).value;
  }

  /** The inverse is the one number below s that cancels c. */
  lemma InverseIs(c: nat, d: nat, s: nat)
    requires s > 0 && d < s && Cong(c * d, 1, s)
    ensures ModInverse(c, s) == Ok(d)
  {
    ModInverseCorrect(c, s);
    UniqueInverse(c, ModInverse(c, s).value, d, s);
  }

  lemma UniqueInverse(c: int, i: int, d: int, s: int)
    requires 0 <= i < s && 0 <= d < s && Cong(c * i, 1, s) && Cong(c * d, 1, s)
    ensures i == d
  {
    hide Cong;
    CongMul(c * i, 1, d, d, s);
    CongMul(c * d, 1, i, i, s);
    assert (c * i) * d == (c * d) * i;
    SameRemainder((c * i) * d, i, d, s);
  }

  lemma SameRemainder(w: int, i: int, d: int, s: int)
    requires 0 <= i < s && 0 <= d < s && Cong(w, i, s) && Cong(w, d, s)
    ensures i == d
  {
    DivModUnique(i, s, 0, i);
    DivModUnique(d, s, 0, d);
  }

  /** Every ciphertext of m is invertible, and its inverse is a ciphertext of m (n - 1). */
  lemma CiphertextInverse(p: nat, q: nat, pk: PublicKey, c: nat, m: nat, m': nat)
    requires PublicKeyOf(p, q, pk) && Encrypts(pk, c, m) && m' == m * (pk.n - 1)
    ensures ModInverse(c, pk.nSquared).Ok? && Encrypts(pk, ModInverse(c, pk.nSquared).value, m')
  {
    hide EncryptWith, ModInverse;
    var r: nat :| Coprime(r, pk.n) && c == EncryptWith(pk, m, r);
    var v := BlindingInverse(pk.n, pk.nSquared, r);
    OppositeProduct(pk, m, m', r, v);
    EncryptionReduced(pk, m', v);
    InverseIs(c, EncryptWith(pk, m', v), pk.nSquared);
  }

  lemma EncryptionReduced(pk: PublicKey, m: nat, r: nat)
    requires pk.nSquared > 0
    ensures EncryptWith(pk, m, r) < pk.nSquared
  {
  }

  /** Ciphertexts of m and m (n - 1), with inverse blinding factors, cancel. */
  lemma OppositeProduct(pk: PublicKey, m: nat, m': nat, r: nat, v: nat)
    requires pk.n > 1 && pk.g == pk.n + 1 && pk.nSquared == pk.n * pk.n && pk.nSquared > 0
    requires m' == m * (pk.n - 1) && Cong(r * v, 1, pk.nSquared)
    ensures Cong(EncryptWith(pk, m, r) * EncryptWith(pk, m', v), 1, pk.nSquared)
  {
    hide EncryptWith, Pow, Cong;
    EncryptValue(pk, m, r);
    EncryptValue(pk, m', v);
    GeneratorCancels(pk.n, pk.nSquared, m, m');
    BlindingCancels(r, v, pk.n, pk.nSquared);
    CancelPairs(EncryptWith(pk, m, r), Pow(pk.g, m), Pow(r, pk.n),
                EncryptWith(pk, m', v), Pow(pk.g, m'), Pow(v, pk.n), pk.nSquared);
  }

  lemma GeneratorCancels(n: nat, s: nat, m: nat, m': nat)
    requires n > 1 && s == n * n && s > 0 && m' == m * (n - 1)
    ensures Cong(Pow(n + 1, m) * Pow(n + 1, m'), 1, s)
  {
    PowAdd(n + 1, m, m');
    assert m + m' == m * n;
    OnePlusPow(n, 1, n, m + m');
    Multiple(m, n, s);
    CongFromMultiple(1 + (m + m') * n, 1, s, m);
  }

  lemma Multiple(m: int, n: int, s: int)
    requires s == n * n
    ensures (m * n) * n == m * s
  {
  }

  lemma BlindingCancels(r: int, v: int, n: nat, s: int)
    requires s > 0 && Cong(r * v, 1, s)
    ensures Cong(Pow(r, n) * Pow(v, n), 1, s)
  {
    PowProduct(r, v, n);
    CongPow(r * v, 1, n, s);
    PowOne(n);
  }

  lemma CancelPairs(c: int, a: int, b: int, d: int, x: int, y: int, s: int)
    requires s > 0 && Cong(c, a * b, s) && Cong(d, x * y, s) && Cong(a * x, 1, s) && Cong(b * y, 1, s)
    ensures Cong(c * d, 1, s)
  {
    CongMul(c, a * b, d, x * y, s);
    Regroup(a, b, x, y);
    CongMul(a * x, 1, b * y, 1, s);
  }

  /** Multiplying by any constant, negative ones too, never raises on a ciphertext,
      and the result is a ciphertext of some m' congruent to m k modulo n. */
  lemma MultiplyScales(p: nat, q: nat, pk: PublicKey, c: nat, m: nat, k: int) returns (m': nat)
    requires PublicKeyOf(p, q, pk) && Encrypts(pk, c, m)
    ensures MultiplyByConstant(pk, c, k).Ok? && Encrypts(pk, MultiplyByConstant(pk, c, k).value, m')
    ensures m' % pk.n == (m * k) % pk.n
  {
    if k >= 0 {
      CiphertextPower(pk, c, m, k);
      m' := m * k;
    } else {
      var o := m * (pk.n - 1);
      MulLe(0, m, pk.n - 1);
      CiphertextInverse(p, q, pk, c, m, o);
      CiphertextPower(pk, ModInverse(c, pk.nSquared).value, o, -k);
      m' := o * -k;
      NegativeMultiple(m, pk.n, k);
    }
  }

  lemma NegativeMultiple(m: int, n: int, k: int)
    requires n > 0
    ensures Cong(m * (n - 1) * -k, m * k, n)
  {
    assert m * (n - 1) == m * n - m;
    assert (m * n - m) * -k == m * k + (m * n) * -k;
    assert (m * n) * -k == (m * -k) * n;
    CongFromMultiple(m * (n - 1) * -k, m * k, n, m * -k);
  }

  /** Adding and scaling act on the plaintexts, modulo n. */
  lemma HomomorphicLaws(p: nat, q: nat, pk: PublicKey, sk: PrivateKey, c1: nat, m1: nat, c2: nat, m2: nat, k: int)
    requires KeysOf(p, q, pk, sk) && Encrypts(pk, c1, m1) && Encrypts(pk, c2, m2)
    ensures Decrypt(sk, AddEncrypted(pk, c1, c2)) == (m1 + m2) % pk.n
    ensures MultiplyByConstant(pk, c1, k).Ok?
    ensures Decrypt(sk, MultiplyByConstant(pk, c1, k).value) == (m1 * k) % pk.n
  {
    AddEncryptedAdds(pk, c1, m1, c2, m2);
    DecryptsExactly(p, q, pk, sk, AddEncrypted(pk, c1, c2), m1 + m2);
    var m' := MultiplyScales(p, q, pk, c1, m1, k);
    DecryptsExactly(p, q, pk, sk, MultiplyByConstant(pk, c1, k).value, m');
  }

  /** No ciphertext is zero: a tally may use 0 to mean "nothing added yet". */
  lemma CiphertextNotZero(p: nat, q: nat, pk: PublicKey, c: nat, m: nat)
    requires PublicKeyOf(p, q, pk) && Encrypts(pk, c, m)
    ensures c != 0
  {
    var l := Lcm(p - 1, q - 1);
    LambdaPower(p, q, pk, c, m);
    LcmIsLeast(p - 1, q - 1);
    MulLe(0, (m * l) % pk.n, pk.n);
    if c == 0 { PowZero(l, pk.nSquared); }
  }

  lemma PowZero(e: nat, n: nat)
    requires e > 0 && n > 0
    ensures ModPow(0, e, n) == 0
  {
    assert Pow(0, e) == 0 * Pow(0, e - 1);
  }
}
