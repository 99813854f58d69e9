/**
  One Newton–Raphson step for f(z) = z^d - 1, in the two forms the
  renderer's two programs use, and the textbook update they both implement.

  - `NewtonClosed` is the threaded program's step: the simplified form
    x*(1 - 1/d) + (1/d) * (x^(d-1))^-1, with 1/d computed once per run.
  - `NewtonExplicit` is the sequential program's step: it builds f(x) and
    -1/f'(x) explicitly and returns x + f(x) * (-1/f'(x)).
  - `NewtonRaphson` is the reference x - f(x)/f'(x).

  Both steps need x^(d-1) to be invertible, so they require `x != Zero`
  unless d == 1 (then x^(d-1) is 1+0i).  The classifier only steps from
  samples whose squared modulus passed the collapse test, so it meets this.
*/
module Newton {
  import opened Complex
  import opened Power

  /** The precondition both steps share: x^(d-1) must be invertible. */
  predicate Steppable(d: int, x: Cpx) {
    d >= 1 && (x != Zero || d == 1)
  }

  /** The cached reciprocal of the degree, computed once before any worker starts. */
  function InvDegree(d: int): (k: real)
    requires d >= 1
    ensures (d as real) * k == 1.0
  {
    1.0 / (d as real)
  }

  /** f(z) = z^d - 1. */
  function F(d: nat, x: Cpx): Cpx {
    Sub(Pow(x, d), One)
  }

  /** f'(z) = d * z^(d-1). */
  function DF(d: nat, x: Cpx): Cpx
    requires d >= 1
  {
    MulReal(Pow(x, d - 1), d as real)
  }

  /** The derivative is invertible wherever the step is defined, with inverse (1/d) * x^-(d-1). */
  lemma DFInverse(d: int, x: Cpx)
    requires Steppable(d, x)
    ensures Pow(x, d - 1) != Zero
    ensures DF(d, x) != Zero
    ensures Inv(DF(d, x)) == MulReal(Inv(Pow(x, d - 1)), InvDegree(d))
  {
    var v := Pow(x, d - 1);
    StepBaseNonZero(d, x);
    ScaledInverse(v, d);
  }

  lemma StepBaseNonZero(d: int, x: Cpx)
    requires Steppable(d, x)
    ensures Pow(x, d - 1) != Zero
  {
    if d == 1 {
      assert Pow(x, d - 1) == One;
    } else {
      PowNonZero(x, d - 1);
    }
  }

  /** Scaling by the degree is undone by scaling the inverse by its reciprocal. */
  lemma ScaledInverse(v: Cpx, d: int)
    requires v != Zero && d >= 1
    ensures MulReal(v, d as real) != Zero
    ensures Inv(MulReal(v, d as real)) == MulReal(Inv(v), InvDegree(d))
  {
    var w := MulReal(Inv(v), InvDegree(d));
    ScaledProduct(v, d as real, InvDegree(d));
    InverseUnique(MulReal(v, d as real), w);
  }

  lemma ScaledProduct(v: Cpx, c: real, k: real)
    requires v != Zero && c * k == 1.0
    ensures Mul(MulReal(v, c), MulReal(Inv(v), k)) == One
  {
    var iv := Inv(v);
    calc {
      Mul(MulReal(v, c), MulReal(iv, k));
      { MulScale(MulReal(v, c), iv, k); }
      MulReal(Mul(MulReal(v, c), iv), k);
      { MulComm(MulReal(v, c), iv); MulScale(iv, v, c); }
      MulReal(MulReal(Mul(iv, v), c), k);
      { MulComm(iv, v); }
      MulReal(MulReal(One, c), k);
      Cpx(c * k, 0.0);
      One;
    }
  }

  /** The textbook Newton–Raphson update x - f(x)/f'(x). */
  function NewtonRaphson(d: int, x: Cpx): Cpx
    requires Steppable(d, x)
  {
    DFInverse(d, x);
    Sub(x, Mul(F(d, x), Inv(DF(d, x))))
  }

  /**
    The threaded program's step.  Over exact arithmetic it is the Newton
    update, so the closed form the source's comment derives is an identity.
  */
  function NewtonClosed(d: int, x: Cpx): (r: Cpx)
    requires Steppable(d, x)
    ensures r == NewtonRaphson(d, x)
  {
    var k := InvDegree(d);
    PowUnrolledCorrect(x, d - 1);
    DFInverse(d, x);
    ClosedIsNewton(d, x);
    Add(MulReal(x, 1.0 - k), MulReal(Inv(PowUnrolled(x, d - 1)), k))
  }

  lemma ClosedIsNewton(d: int, x: Cpx)
    requires Steppable(d, x)
    ensures Pow(x, d - 1) != Zero
    ensures NewtonRaphson(d, x)
         == Add(MulReal(x, 1.0 - InvDegree(d)), MulReal(Inv(Pow(x, d - 1)), InvDegree(d)))
  {
    DFInverse(d, x);
    var v := Pow(x, d - 1);
    var iv := Inv(v);
    var k := InvDegree(d);
    var w := MulReal(iv, k);
    assert Pow(x, d) == Mul(v, x);
    calc {
      Mul(F(d, x), Inv(DF(d, x)));
      Mul(Sub(Mul(v, x), One), w);
      { MulSubDistrib(Mul(v, x), One, w); MulOne(w); }
      Sub(Mul(Mul(v, x), w), w);
      { MulScale(Mul(v, x), iv, k); }
      Sub(MulReal(Mul(Mul(v, x), iv), k), w);
      { MulComm(v, x); MulAssoc(x, v, iv); MulOne(x); }
      Sub(MulReal(x, k), w);
    }
  }

  /**
    The sequential program's step: x_pow = x^(d-1); fx = x_pow*x - 1;
    min_inv_dfx = -1/(d * x_pow), computed as the conjugate-over-modulus
    quotient with its real part negated; result x + fx * min_inv_dfx.
  */
  function NewtonExplicit(d: int, x: Cpx): (r: Cpx)
    requires Steppable(d, x)
    ensures r == NewtonRaphson(d, x)
  {
    var xPow := PowUnrolled(x, d - 1);
    PowUnrolledCorrect(x, d - 1);
    DFInverse(d, x);
    var xPowX := Mul(xPow, x);
    var fx := Cpx(xPowX.re - 1.0, xPowX.im);
    var dxPow := MulReal(xPow, d as real);
    assert dxPow == DF(d, x);
    MagSqZero(dxPow);
    var q := DivReal(dxPow, MagSq(dxPow));
    var minInvDfx := Cpx(-q.re, q.im);
    assert q == Cpx(Inv(dxPow).re, -Inv(dxPow).im);
    ExplicitIsNewton(d, x, fx, minInvDfx);
    Add(x, Mul(fx, minInvDfx))
  }

  lemma ExplicitIsNewton(d: int, x: Cpx, fx: Cpx, m: Cpx)
    requires Steppable(d, x)
    requires fx == Cpx(Mul(Pow(x, d - 1), x).re - 1.0, Mul(Pow(x, d - 1), x).im)
    requires DF(d, x) != Zero
    requires m == Cpx(-Inv(DF(d, x)).re, -Inv(DF(d, x)).im)
    ensures Add(x, Mul(fx, m)) == NewtonRaphson(d, x)
  {
    assert fx == F(d, x);
    NegatedProduct(x, fx, Inv(DF(d, x)));
  }

  lemma NegatedProduct(x: Cpx, f: Cpx, i: Cpx)
    ensures Add(x, Mul(f, Cpx(-i.re, -i.im))) == Sub(x, Mul(f, i))
  {
    var n := Cpx(-i.re, -i.im);
    assert Mul(f, n).re == -(f.re * i.re - f.im * i.im);
    assert Mul(f, n).im == -(f.re * i.im + i.re * f.im);
  }

  /** The two programs take the same step wherever either is defined. */
  lemma StepsAgree(d: int, x: Cpx)
    requires Steppable(d, x)
    ensures NewtonClosed(d, x) == NewtonExplicit(d, x)
  {
    assert NewtonClosed(d, x) == NewtonRaphson(d, x);
    assert NewtonExplicit(d, x) == NewtonRaphson(d, x);
  }

  /** Every exact root of z^d - 1 is a fixed point of the Newton update. */
  lemma RootIsFixedPoint(d: int, r: Cpx)
    requires Steppable(d, r) && Pow(r, d) == One
    ensures NewtonRaphson(d, r) == r
  {
    var w := Inv(DF(d, r));
    assert F(d, r) == Zero;
    ZeroFactor(r, w);
  }

  lemma ZeroFactor(x: Cpx, w: Cpx)
    ensures Sub(x, Mul(Zero, w)) == x
  {
  }
}
