/**
 Integer polynomials as coefficient lists, constant term first: evaluation,
 division by a linear factor, and the bound on the number of roots.
*/
module Polynomials {
  import opened NumberTheory

  function Eval(p: seq<int>, x: int): int {
    if p == [] then 0 else p[0] + x * Eval(p[1..], x)
  }

  /** The sum c[0] x^0 + ... + c[k-1] x^(k-1), as a loop over the exponents forms it. */
  function PowerSum(c: seq<int>, x: int, k: nat): int
    requires k <= |c|
  {
    if k == 0 then 0 else PowerSum(c, x, k - 1) + c[k - 1] * Pow(x, k - 1)
  }

  lemma {:induction false} PowLast(x: int, k: nat)
    ensures Pow(x, k + 1) == Pow(x, k) * x
  {
    PowAdd(x, k, 1);
    assert Pow(x, 1) == x * Pow(x, 0) == x;
  }

  lemma HornerStep(w: int, c: int, x: int, e: int)
    ensures w * (c + x * e) == c * w + (w * x) * e
  {
    assert w * (c + x * e) == w * c + w * (x * e);
  }

  lemma {:induction false} PowerSumPrefix(c: seq<int>, x: int, k: nat)
    requires k <= |c|
    ensures PowerSum(c, x, k) + Pow(x, k) * Eval(c[k..], x) == Eval(c, x)
  {
    if k == 0 {
      assert c[0..] == c;
    } else {
      PowerSumPrefix(c, x, k - 1);
      assert c[k - 1..][1..] == c[k..];
      HornerStep(Pow(x, k - 1), c[k - 1], x, Eval(c[k..], x));
      PowLast(x, k - 1);
    }
  }

  /** The loop's sum is the polynomial's value. */
  lemma PowerSumIsEval(c: seq<int>, x: int)
    ensures PowerSum(c, x, |c|) == Eval(c, x)
  {
    PowerSumPrefix(c, x, |c|);
    assert Eval(c[|c|..], x) == 0;
    assert Pow(x, |c|) * 0 == 0;
  }

  // ---------- operations ----------

  function Scale(a: int, p: seq<int>): (r: seq<int>)
    ensures |r| == |p|
  {
    if p == [] then [] else [a * p[0]] + Scale(a, p[1..])
  }

  lemma {:induction false} EvalScale(a: int, p: seq<int>, x: int)
    ensures Eval(Scale(a, p), x) == a * Eval(p, x)
  {
    if p != [] {
      EvalScale(a, p[1..], x);
      assert Scale(a, p)[1..] == Scale(a, p[1..]);
      var e := Eval(p[1..], x);
      assert a * (p[0] + x * e) == a * p[0] + x * (a * e);
    }
  }

  function Plus(p: seq<int>, q: seq<int>): (r: seq<int>)
    requires |p| == |q|
    ensures |r| == |p|
  {
    if p == [] then [] else [p[0] + q[0]] + Plus(p[1..], q[1..])
  }

  lemma {:induction false} EvalPlus(p: seq<int>, q: seq<int>, x: int)
    requires |p| == |q|
    ensures Eval(Plus(p, q), x) == Eval(p, x) + Eval(q, x)
  {
    if p != [] {
      EvalPlus(p[1..], q[1..], x);
      assert Plus(p, q)[1..] == Plus(p[1..], q[1..]);
      assert x * (Eval(p[1..], x) + Eval(q[1..], x)) == x * Eval(p[1..], x) + x * Eval(q[1..], x);
    }
  }

  /** p - d q */
  function Minus(p: seq<int>, d: int, q: seq<int>): (r: seq<int>)
    requires |p| == |q|
    ensures |r| == |p|
  {
    Plus(p, Scale(-d, q))
  }

  lemma EvalMinus(p: seq<int>, d: int, q: seq<int>, x: int)
    requires |p| == |q|
    ensures Eval(Minus(p, d, q), x) == Eval(p, x) - d * Eval(q, x)
  {
    hide Eval;
    EvalPlus(p, Scale(-d, q), x);
    EvalScale(-d, q, x);
    Negate(d, Eval(q, x));
  }

  lemma Negate(d: int, y: int)
    ensures -d * y == -(d * y)
  {
  }

  /** (x - a) p */
  function TimesLinear(p: seq<int>, a: int): (r: seq<int>)
    ensures |r| == |p| + 1
  {
    Plus([0] + p, Scale(-a, p + [0]))
  }

  lemma {:induction false} EvalPadded(p: seq<int>, x: int)
    ensures Eval(p + [0], x) == Eval(p, x)
  {
    if p != [] {
      EvalPadded(p[1..], x);
      assert (p + [0])[1..] == p[1..] + [0];
    } else {
      assert (p + [0])[1..] == [];
      assert x * Eval([], x) == 0;
    }
  }

  lemma EvalTimesLinear(p: seq<int>, a: int, x: int)
    ensures Eval(TimesLinear(p, a), x) == (x - a) * Eval(p, x)
  {
    EvalPlus([0] + p, Scale(-a, p + [0]), x);
    EvalScale(-a, p + [0], x);
    EvalPadded(p, x);
    assert ([0] + p)[1..] == p;
    assert (x - a) * Eval(p, x) == x * Eval(p, x) + -a * Eval(p, x);
  }

  // ---------- roots ----------

  /** The quotient of p by (x - a). */
  function Deflate(p: seq<int>, a: int): (r: seq<int>)
    ensures |r| == if p == [] then 0 else |p| - 1
  {
    if |p| <= 1 then [] else [Eval(p[1..], a)] + Deflate(p[1..], a)
  }

  /** The remainder theorem. */
  lemma {:induction false} DivideOut(p: seq<int>, a: int, x: int)
    ensures Eval(p, x) == (x - a) * Eval(Deflate(p, a), x) + Eval(p, a)
  {
    if |p| > 1 {
      DivideOut(p[1..], a, x);
      assert Deflate(p, a)[1..] == Deflate(p[1..], a);
      DivideStep(x, a, p[0], Eval(Deflate(p[1..], a), x), Eval(p[1..], a), Eval(p[1..], x));
    } else if |p| == 1 {
      assert Eval(p[1..], x) == 0 && Eval(p[1..], a) == 0;
      assert x * 0 == 0 && a * 0 == 0 && (x - a) * 0 == 0;
    } else {
      assert (x - a) * 0 == 0;
    }
  }

  lemma DivideStep(x: int, a: int, c: int, q: int, r: int, v: int)
    requires v == (x - a) * q + r
    ensures c + x * v == (x - a) * (r + x * q) + (c + a * r)
  {
    assert x * v == x * ((x - a) * q) + x * r;
    assert (x - a) * (r + x * q) == (x * r - a * r) + (x - a) * (x * q);
    assert x * ((x - a) * q) == (x - a) * (x * q);
  }

  ghost predicate Distinct(s: seq<int>) {
    forall i, j :: 0 <= i < j < |s| ==> s[i] != s[j]
  }

  lemma NonZeroFactor(d: int, e: int)
    requires d != 0 && d * e == 0
    ensures e == 0
  {
  }

  /** A polynomial with as many distinct roots as coefficients is zero everywhere. */
  lemma {:induction false} TooManyRoots(p: seq<int>, roots: seq<int>, x: int)
    requires |roots| == |p| && Distinct(roots)
    requires forall i :: 0 <= i < |roots| ==> Eval(p, roots[i]) == 0
    ensures Eval(p, x) == 0
    decreases |p|
  {
    if p != [] {
      var a, rest := roots[|p| - 1], roots[..|p| - 1];
      var q := Deflate(p, a);
      forall i | 0 <= i < |rest| ensures Eval(q, rest[i]) == 0 {
        DivideOut(p, a, rest[i]);
        NonZeroFactor(rest[i] - a, Eval(q, rest[i]));
      }
      TooManyRoots(q, rest, x);
      DivideOut(p, a, x);
    }
  }
}
