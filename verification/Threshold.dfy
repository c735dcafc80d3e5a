/**
 Threshold decryption (prog3/threshold_crypto.py): the dealer's polynomial
 shares, and their recombination by Lagrange interpolation over the integers.
*/
module Threshold {
  import opened Wrappers
  import opened NumberTheory
  import opened Polynomials
  import opened MillerRabin
  import Paillier

  datatype KeyShare = KeyShare(index: int, value: int)

  datatype Error = TooFewShares | NotAnInteger | NotInvertible

  /** Python's floor division. */
  function FloorDiv(a: int, b: int): int
    requires b != 0
  {
    if b > 0 then a / b else -a / -b
  }

  function FloorMod(a: int, b: int): int
    requires b != 0
  {
    a - FloorDiv(a, b) * b
  }

  lemma ExactDivision(a: int, b: int, q: int)
    requires b != 0 && a == q * b
    ensures FloorDiv(a, b) == q && FloorMod(a, b) == 0
  {
    if b > 0 {
      DivModUnique(a, b, q, 0);
    } else {
      assert -a == q * -b;
      DivModUnique(-a, -b, q, 0);
    }
  }

  // ---------- dealing ----------

  /** `generate_keypair` from the secret on: participant i's share is the secret
      polynomial's value at i. */
  method DealShares(lambda: nat, draws: seq<nat>, participants: nat) returns (shares: seq<KeyShare>)
    ensures |shares| == participants
    ensures forall k :: 0 <= k < participants ==>
      shares[k] == KeyShare(k + 1, Eval([lambda] + draws, k + 1))
  {
    var coeffs := [lambda] + draws;
    shares := [];
    for i := 1 to participants + 1
      invariant |shares| == i - 1
      invariant forall k :: 0 <= k < i - 1 ==> shares[k] == KeyShare(k + 1, Eval(coeffs, k + 1))
    {
      var val := 0;
      for exp := 0 to |coeffs|
        invariant val == PowerSum(coeffs, i, exp)
      {
        val := val + coeffs[exp] * Pow(i, exp);
      }
      PowerSumIsEval(coeffs, i);
      shares := shares + [KeyShare(i, val)];
    }
  }

  // ---------- the sums and products of combine_shares ----------

  /** Product of -x_j over the shares j < k that are not i's. */
  function Num(s: seq<KeyShare>, i: nat, k: nat): int
    requires i < |s| && k <= |s|
  {
    if k == 0 then 1
    else if s[k - 1].index == s[i].index then Num(s, i, k - 1)
    else Num(s, i, k - 1) * -s[k - 1].index
  }

  /** Product of x_i - x_j over the same shares. */
  function Den(s: seq<KeyShare>, i: nat, k: nat): (d: int)
    requires i < |s| && k <= |s|
    ensures d != 0
  {
    if k == 0 then 1
    else if s[k - 1].index == s[i].index then Den(s, i, k - 1)
    else
      var d, e := Den(s, i, k - 1), s[i].index - s[k - 1].index;
      if d * e == 0 then NonZeroFactor(d, e); d * e else d * e
  }

  /** Product of the first k denominators. */
  function FinalDen(s: seq<KeyShare>, k: nat): (d: int)
    requires k <= |s|
    ensures d != 0
  {
    if k == 0 then 1
    else
      var d, e := FinalDen(s, k - 1), Den(s, k - 1, |s|);
      if d * e == 0 then NonZeroFactor(d, e); d * e else d * e
  }

  /** E_i, the cofactor of share i: the common denominator over its own. */
  function Cofactor(s: seq<KeyShare>, i: nat): int
    requires i < |s|
  {
    FloorDiv(FinalDen(s, |s|), Den(s, i, |s|))
  }

  /** Sum of the first k numerators over the common denominator. */
  function FinalNum(s: seq<KeyShare>, k: nat): int
    requires k <= |s|
  {
    if k == 0 then 0
    else FinalNum(s, k - 1) + s[k - 1].value * Num(s, k - 1, |s|) * Cofactor(s, k - 1)
  }

  /** What `combine_shares` returns, from the reconstructed secret on. */
  function DecryptWith(pk: Paillier.PublicKey, c: nat, secret: int): Result<int, Error>
    requires pk.n > 0 && pk.nSquared > 0
  {
    match Paillier.PowSigned(c, secret, pk.nSquared)
    case Err(_) => Err(NotInvertible)
    case Ok(u) =>
      match Paillier.ModInverse(secret, pk.n)
      case Err(_) => Err(NotInvertible)
      case Ok(mu) => Ok(((u - 1) / pk.n * mu) % pk.n)
  }

  function Combine(t: nat, pk: Paillier.PublicKey, c: nat, shares: seq<KeyShare>): Result<int, Error>
    requires pk.n > 0 && pk.nSquared > 0
  {
    if |shares| < t then Err(TooFewShares)
    else
      var s := shares[..t];
      var num, den := FinalNum(s, t), FinalDen(s, t);
      if FloorMod(num, den) != 0 then Err(NotAnInteger)
      else DecryptWith(pk, c, FloorDiv(num, den))
  }

  /** The interpolated value at 0 is the integer k. */
  ghost predicate Reconstructs(s: seq<KeyShare>, k: int) {
    FinalNum(s, |s|) == k * FinalDen(s, |s|)
  }

  /** u is c to the power e modulo n; for a negative e, what cancels the opposite power. */
  ghost predicate IsPower(c: nat, e: int, n: nat, u: nat)
    requires n > 0
  {
    u < n && if e >= 0 then Cong(u, Pow(c, e), n) else Cong(u * Pow(c, -e), 1, n)
  }

  /** v times the secret is L(c^secret) modulo n. */
  ghost predicate DecryptsWith(pk: Paillier.PublicKey, c: nat, secret: int, v: int)
    requires pk.n > 0 && pk.nSquared > 0
  {
    0 <= v < pk.n
    && exists u: nat :: IsPower(c, secret, pk.nSquared, u) && Cong(v * secret, (u - 1) / pk.n, pk.n)
  }

  /** Raising to the secret, or inverting it, fails. */
  ghost predicate CannotDecrypt(pk: Paillier.PublicKey, c: nat, secret: int)
    requires pk.n > 0 && pk.nSquared > 0
  {
    (secret < 0 && !Coprime(c % pk.nSquared, pk.nSquared)) || !Coprime(secret % pk.n, pk.n)
  }

  lemma FloorExact(a: int, b: int)
    requires b != 0
    ensures FloorMod(a, b) == 0 <==> a == FloorDiv(a, b) * b
    ensures forall q: int :: a == q * b ==> FloorDiv(a, b) == q
  {
    forall q: int | a == q * b ensures FloorDiv(a, b) == q {
      ExactDivision(a, b, q);
    }
  }

  lemma InverseCancels(c: int, v: int, e: nat, u: nat, n: nat)
    requires n > 0 && Cong(c * v, 1, n) && u == ModPow(v, e, n)
    ensures Cong(u * Pow(c, e), 1, n)
  {
    var a, b := Pow(v, e), Pow(c, e);
    CongMod(a, n);
    hide Cong, ModPow;
    CongPow(c * v, 1, e, n);
    PowProduct(c, v, e);
    PowOne(e);
    CongMul(u, a, b, b, n);
    Swap(a, b);
    CongTrans(u * b, a * b, 1, n);
  }

  lemma CongTrans(a: int, b: int, c: int, n: int)
    requires n > 0 && Cong(a, b, n) && Cong(b, c, n)
    ensures Cong(a, c, n)
  {
  }

  lemma PowSignedIs(c: nat, e: int, n: nat)
    requires n > 0
    ensures Paillier.PowSigned(c, e, n).Err? <==> e < 0 && !Coprime(c % n, n)
    ensures Paillier.PowSigned(c, e, n).Ok? ==> IsPower(c, e, n, Paillier.PowSigned(c, e, n).value)
  {
    if e >= 0 {
      CongMod(Pow(c, e), n);
    } else {
      Paillier.ModInverseCorrect(c, n);
      if Coprime(c % n, n) {
        InverseCancels(c, Paillier.ModInverse(c, n).value, -e, Paillier.PowSigned(c, e, n).value, n);
      }
    }
  }

  /** Decrypting with a secret fails exactly when it cannot be done, and is correct otherwise. */
  lemma DecryptWithIs(pk: Paillier.PublicKey, c: nat, secret: int)
    requires pk.n > 0 && pk.nSquared > 0
    ensures DecryptWith(pk, c, secret) == Err(NotInvertible) <==> CannotDecrypt(pk, c, secret)
    ensures DecryptWith(pk, c, secret).Ok? <==> !CannotDecrypt(pk, c, secret)
    ensures DecryptWith(pk, c, secret).Ok? ==> DecryptsWith(pk, c, secret, DecryptWith(pk, c, secret).value)
  {
    hide Paillier.PowSigned, Paillier.ModInverse, IsPower;
    PowSignedIs(c, secret, pk.nSquared);
    Paillier.ModInverseCorrect(secret, pk.n);
    if DecryptWith(pk, c, secret).Ok? {
      var u, mu := Paillier.PowSigned(c, secret, pk.nSquared).value, Paillier.ModInverse(secret, pk.n).value;
      Unscaled((u - 1) / pk.n, mu, secret, pk.n);
    }
  }

  lemma Unscaled(l: int, mu: int, secret: int, n: nat)
    requires n > 0 && Cong(secret * mu, 1, n)
    ensures Cong(((l * mu) % n) * secret, l, n)
  {
    CongMulMod(l * mu, secret, n);
    CongMul(l, l, secret * mu, 1, n);
    assert (l * mu) * secret == l * (secret * mu);
  }

  lemma CombineIs(t: nat, pk: Paillier.PublicKey, c: nat, shares: seq<KeyShare>)
    requires pk.n > 0 && pk.nSquared > 0 && |shares| >= t
    ensures var r, s := Combine(t, pk, c, shares), shares[..t];
      && (r == Err(NotAnInteger) <==> forall k :: !Reconstructs(s, k))
      && forall k :: Reconstructs(s, k) ==>
           if CannotDecrypt(pk, c, k) then r == Err(NotInvertible) else r.Ok? && DecryptsWith(pk, c, k, r.value)
  {
    hide CannotDecrypt, DecryptsWith, DecryptWith, FloorDiv, FloorMod, FinalNum, FinalDen;
    var s := shares[..t];
    var num, den := FinalNum(s, t), FinalDen(s, t);
    FloorExact(num, den);
    DecryptWithIs(pk, c, FloorDiv(num, den));
    if FloorMod(num, den) == 0 { assert Reconstructs(s, FloorDiv(num, den)); }
  }

  /** `combine_shares`. It raises for too few shares, exactly; otherwise when the first t do
      not interpolate to an integer at 0; otherwise when that secret k cannot be used: it has
      no inverse, or c has none and k is negative. The result decrypts c with the secret. */
  method CombineShares(t: nat, pk: Paillier.PublicKey, c: nat, shares: seq<KeyShare>) returns (r: Result<int, Error>)
    requires pk.n > 0 && pk.nSquared > 0
    ensures r == Err(TooFewShares) <==> |shares| < t
    ensures |shares| >= t ==> (r == Err(NotAnInteger) <==> forall k :: !Reconstructs(shares[..t], k))
    ensures |shares| >= t ==> forall k :: Reconstructs(shares[..t], k) ==>
      (r == Err(NotInvertible) <==> CannotDecrypt(pk, c, k)) && (r.Ok? ==> DecryptsWith(pk, c, k, r.value))
    ensures r == Combine(t, pk, c, shares)
  {
    if |shares| >= t { CombineIs(t, pk, c, shares); }
    hide Reconstructs, CannotDecrypt, DecryptsWith;
    if |shares| < t { return Err(TooFewShares); }
    var s := shares[..t];
    var fractions: seq<(int, int)> := [];
    for i := 0 to t
      invariant |fractions| == i
      invariant forall k :: 0 <= k < i ==> fractions[k] == (s[k].value * Num(s, k, t), Den(s, k, t))
    {
      var num, den := 1, 1;
      for j := 0 to t
        invariant num == Num(s, i, j) && den == Den(s, i, j)
      {
        if s[i].index != s[j].index {
          num := num * -s[j].index;
          den := den * (s[i].index - s[j].index);
        }
      }
      fractions := fractions + [(s[i].value * num, den)];
    }
    var finalDen := 1;
    for k := 0 to t
      invariant finalDen == FinalDen(s, k)
    {
      finalDen := finalDen * fractions[k].1;
    }
    var finalNum := 0;
    for k := 0 to t
      invariant finalNum == FinalNum(s, k)
    {
      finalNum := finalNum + fractions[k].0 * FloorDiv(finalDen, fractions[k].1);
    }
    if FloorMod(finalNum, finalDen) != 0 { return Err(NotAnInteger); }
    var secret := FloorDiv(finalNum, finalDen);
    var u := Paillier.PowSigned(c, secret, pk.nSquared);
    if u.Err? { return Err(NotInvertible); }
    var mu := Paillier.ModInverse(secret, pk.n);
    if mu.Err? { return Err(NotInvertible); }
    return Ok(((u.value - 1) / pk.n * mu.value) % pk.n);
  }

  // ---------- interpolation ----------

  function Indices(s: seq<KeyShare>): (r: seq<int>)
    ensures |r| == |s| && forall i :: 0 <= i < |s| ==> r[i] == s[i].index
  {
    seq(|s|, i requires 0 <= i < |s| => s[i].index)
  }

  /** Lagrange's basis polynomial for share i, over the first k shares. */
  function Basis(s: seq<KeyShare>, i: nat, k: nat): seq<int>
    requires i < |s| && k <= |s|
  {
    if k == 0 then [1]
    else if s[k - 1].index == s[i].index then Basis(s, i, k - 1)
    else TimesLinear(Basis(s, i, k - 1), s[k - 1].index)
  }

  lemma {:induction false} BasisLength(s: seq<KeyShare>, i: nat, k: nat)
    requires i < |s| && k <= |s| && Distinct(Indices(s))
    ensures |Basis(s, i, k)| == if k <= i then k + 1 else k
  {
    if k > 0 {
      BasisLength(s, i, k - 1);
      assert k - 1 != i ==> Indices(s)[k - 1] != Indices(s)[i];
    }
  }

  lemma {:induction false} BasisAtZero(s: seq<KeyShare>, i: nat, k: nat)
    requires i < |s| && k <= |s|
    ensures Eval(Basis(s, i, k), 0) == Num(s, i, k)
  {
    hide TimesLinear;
    if k > 0 {
      BasisAtZero(s, i, k - 1);
      EvalTimesLinear(Basis(s, i, k - 1), s[k - 1].index, 0);
    }
  }

  lemma Swap(a: int, b: int)
    ensures a * b == b * a
  {
  }

  lemma {:induction false} BasisAtOwn(s: seq<KeyShare>, i: nat, k: nat)
    requires i < |s| && k <= |s|
    ensures Eval(Basis(s, i, k), s[i].index) == Den(s, i, k)
  {
    if k > 0 {
      BasisAtOwn(s, i, k - 1);
      var a, b := s[k - 1].index, s[i].index;
      EvalTimesLinear(Basis(s, i, k - 1), a, b);
      Swap(b - a, Den(s, i, k - 1));
    } else {
      EvalOne(s[i].index);
    }
  }

  lemma EvalOne(x: int)
    ensures Eval([1], x) == 1
  {
    assert [1][1..] == [];
    assert x * Eval([], x) == 0;
  }

  lemma {:induction false} BasisAtOther(s: seq<KeyShare>, i: nat, k: nat, j: nat)
    requires i < |s| && j < k <= |s| && s[i].index != s[j].index
    ensures Eval(Basis(s, i, k), s[j].index) == 0
  {
    if s[k - 1].index != s[i].index {
      EvalTimesLinear(Basis(s, i, k - 1), s[k - 1].index, s[j].index);
    }
    if j < k - 1 {
      BasisAtOther(s, i, k - 1, j);
    }
  }

  lemma Reorder(y: int, e: int, b: int)
    ensures (y * e) * b == (y * b) * e
  {
  }

  lemma {:induction false} DenDivides(s: seq<KeyShare>, i: nat, k: nat) returns (q: int)
    requires i < k <= |s|
    ensures FinalDen(s, k) == q * Den(s, i, |s|)
  {
    if i == k - 1 {
      q := FinalDen(s, k - 1);
    } else {
      var q' := DenDivides(s, i, k - 1);
      q := q' * Den(s, k - 1, |s|);
      Reorder(q', Den(s, i, |s|), Den(s, k - 1, |s|));
    }
  }

  lemma CofactorExact(s: seq<KeyShare>, i: nat)
    requires i < |s|
    ensures Cofactor(s, i) * Den(s, i, |s|) == FinalDen(s, |s|)
  {
    var q := DenDivides(s, i, |s|);
    ExactDivision(FinalDen(s, |s|), Den(s, i, |s|), q);
  }

  function Zero(n: nat): (r: seq<int>)
    ensures |r| == n
  {
    if n == 0 then [] else [0] + Zero(n - 1)
  }

  lemma {:induction false} EvalZero(n: nat, x: int)
    ensures Eval(Zero(n), x) == 0
  {
    if n > 0 {
      EvalZero(n - 1, x);
      assert Zero(n)[1..] == Zero(n - 1);
    }
  }

  /** The interpolant: the sum over the first k shares of y_i E_i times share i's basis polynomial. */
  function Interpolant(s: seq<KeyShare>, k: nat): (r: seq<int>)
    requires k <= |s| && Distinct(Indices(s))
    ensures |r| == |s|
  {
    if k == 0 then Zero(|s|)
    else
      BasisLength(s, k - 1, |s|);
      Plus(Interpolant(s, k - 1), Scale(s[k - 1].value * Cofactor(s, k - 1), Basis(s, k - 1, |s|)))
  }

  lemma EvalInterpolantStep(s: seq<KeyShare>, k: nat, x: int)
    requires 0 < k <= |s| && Distinct(Indices(s))
    ensures Eval(Interpolant(s, k), x) ==
      Eval(Interpolant(s, k - 1), x) + (s[k - 1].value * Cofactor(s, k - 1)) * Eval(Basis(s, k - 1, |s|), x)
  {
    BasisLength(s, k - 1, |s|);
    var b := Basis(s, k - 1, |s|);
    EvalPlus(Interpolant(s, k - 1), Scale(s[k - 1].value * Cofactor(s, k - 1), b), x);
    EvalScale(s[k - 1].value * Cofactor(s, k - 1), b, x);
  }

  lemma {:induction false} InterpolantAtZero(s: seq<KeyShare>, k: nat)
    requires k <= |s| && Distinct(Indices(s))
    ensures Eval(Interpolant(s, k), 0) == FinalNum(s, k)
  {
    hide Eval, Basis, Cofactor;
    if k == 0 {
      EvalZero(|s|, 0);
    } else {
      InterpolantAtZero(s, k - 1);
      EvalInterpolantStep(s, k, 0);
      BasisAtZero(s, k - 1, |s|);
      Reorder(s[k - 1].value, Cofactor(s, k - 1), Num(s, k - 1, |s|));
    }
  }

  /** The term of share j at its own index is D y_j. */
  lemma OwnTerm(s: seq<KeyShare>, j: nat)
    requires j < |s|
    ensures (s[j].value * Cofactor(s, j)) * Eval(Basis(s, j, |s|), s[j].index) == FinalDen(s, |s|) * s[j].value
  {
    BasisAtOwn(s, j, |s|);
    CofactorExact(s, j);
    GatherOwn(s[j].value, Cofactor(s, j), Den(s, j, |s|), FinalDen(s, |s|));
  }

  lemma GatherOwn(y: int, e: int, d: int, f: int)
    requires e * d == f
    ensures (y * e) * d == f * y
  {
    assert (y * e) * d == y * (e * d);
  }

  /** Its term at the index of another share is 0. */
  lemma OtherTerm(s: seq<KeyShare>, i: nat, j: nat)
    requires i < |s| && j < |s| && i != j && Distinct(Indices(s))
    ensures (s[i].value * Cofactor(s, i)) * Eval(Basis(s, i, |s|), s[j].index) == 0
  {
    assert Indices(s)[j] != Indices(s)[i];
    BasisAtOther(s, i, |s|, j);
    Swap(s[i].value * Cofactor(s, i), 0);
  }

  /** At the index of share j the interpolant is D y_j once share j has been added. */
  lemma {:induction false} InterpolantAtShare(s: seq<KeyShare>, k: nat, j: nat)
    requires k <= |s| && j < |s| && Distinct(Indices(s))
    ensures Eval(Interpolant(s, k), s[j].index) == if j < k then FinalDen(s, |s|) * s[j].value else 0
  {
    hide Eval, Basis, Cofactor, FinalDen;
    if k == 0 {
      EvalZero(|s|, s[j].index);
    } else {
      InterpolantAtShare(s, k - 1, j);
      EvalInterpolantStep(s, k, s[j].index);
      if j == k - 1 { OwnTerm(s, j); } else { OtherTerm(s, k - 1, j); }
    }
  }

  /** D times the dealer's polynomial subtracted from the interpolant. */
  function Difference(s: seq<KeyShare>, coeffs: seq<int>): (r: seq<int>)
    requires |coeffs| == |s| && Distinct(Indices(s))
    ensures |r| == |s|
  {
    Minus(Interpolant(s, |s|), FinalDen(s, |s|), coeffs)
  }

  /** Integer Lagrange interpolation is exact: the reconstructed numerator is the
      secret times the denominator, whatever t distinct shares are combined. */
  lemma Interpolation(s: seq<KeyShare>, coeffs: seq<int>)
    requires |coeffs| == |s| && |s| > 0 && Distinct(Indices(s))
    requires forall i :: 0 <= i < |s| ==> s[i].value == Eval(coeffs, s[i].index)
    ensures FinalNum(s, |s|) == coeffs[0] * FinalDen(s, |s|)
  {
    forall j | 0 <= j < |s| ensures Eval(Difference(s, coeffs), Indices(s)[j]) == 0 {
      EvalMinus(Interpolant(s, |s|), FinalDen(s, |s|), coeffs, s[j].index);
      InterpolantAtShare(s, |s|, j);
    }
    TooManyRoots(Difference(s, coeffs), Indices(s), 0);
    EvalMinus(Interpolant(s, |s|), FinalDen(s, |s|), coeffs, 0);
    InterpolantAtZero(s, |s|);
    ConstantTerm(coeffs);
    Swap(coeffs[0], FinalDen(s, |s|));
  }

  lemma ConstantTerm(p: seq<int>)
    requires |p| > 0
    ensures Eval(p, 0) == p[0]
  {
  }

  // ---------- the whole scheme ----------

  /** Combining any t shares of lambda with distinct indices decrypts exactly. */
  lemma CombineDecrypts(p: nat, q: nat, pk: Paillier.PublicKey, c: nat, m: nat,
                        shares: seq<KeyShare>, coeffs: seq<int>)
    requires Paillier.KeyPrimes(p, q) && Paillier.PublicKeyOf(p, q, pk) && Paillier.Encrypts(pk, c, m)
    requires |coeffs| > 0 && coeffs[0] == Paillier.Lcm(p - 1, q - 1)
    requires |shares| >= |coeffs| && Distinct(Indices(shares[..|coeffs|]))
    requires forall i :: 0 <= i < |coeffs| ==> shares[i].value == Eval(coeffs, shares[i].index)
    ensures Combine(|coeffs|, pk, c, shares) == Ok(m % pk.n)
  {
    var s := shares[..|coeffs|];
    var lambda := Paillier.Lcm(p - 1, q - 1);
    Interpolation(s, coeffs);
    ExactDivision(FinalNum(s, |s|), FinalDen(s, |s|), lambda);
    DecryptWithSecret(p, q, pk, c, m);
  }

  lemma DecryptWithSecret(p: nat, q: nat, pk: Paillier.PublicKey, c: nat, m: nat)
    requires Paillier.KeyPrimes(p, q) && Paillier.PublicKeyOf(p, q, pk) && Paillier.Encrypts(pk, c, m)
    ensures DecryptWith(pk, c, Paillier.Lcm(p - 1, q - 1)) == Ok(m % pk.n)
  {
    var l := Paillier.Lcm(p - 1, q - 1);
    Paillier.LambdaCoprime(p, q);
    CoprimeMod(l, pk.n);
    Paillier.ModInverseCorrect(l, pk.n);
    Paillier.LambdaPower(p, q, pk, c, m);
    Paillier.ReduceLinear(m * l, pk.n);
    Paillier.Unscale(m, l, Paillier.ModInverse(l, pk.n).value, pk.n);
  }

  /** Dealing and then combining: any selection of t dealt shares, each holder at
      most once and in any order, decrypts an encryption of m to m. */
  method DealThenCombine(p: nat, q: nat, draws: seq<nat>, participants: nat, pk: Paillier.PublicKey,
                         c: nat, ghost m: nat, holders: seq<nat>) returns (r: Result<int, Error>)
    requires Paillier.KeyPrimes(p, q) && Paillier.PublicKeyOf(p, q, pk)
    requires m < pk.n && Paillier.Encrypts(pk, c, m)
    requires |holders| == |draws| + 1 && Distinct(holders)
    requires forall i :: 0 <= i < |holders| ==> holders[i] < participants
    ensures r == Ok(m)
  {
    var lambda := Paillier.Lcm(p - 1, q - 1);
    var shares := DealShares(lambda, draws, participants);
    var s := seq(|holders|, i requires 0 <= i < |holders| => shares[holders[i]]);
    r := CombineShares(|holders|, pk, c, s);
    assert s[..|holders|] == s;
    CombineDecrypts(p, q, pk, c, m, s, [lambda] + draws);
    DivModUnique(m, pk.n, 0, m);
  }
}
