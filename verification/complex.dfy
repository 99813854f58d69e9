/**
  Complex arithmetic of the fractal renderer, over exact reals.

  The source's `Cpx` is a pair of doubles; here the two components are
  `real`, so every algebraic identity the renderer relies on can be stated
  and proved exactly (IEEE rounding is not modelled).
*/
module Complex {

  /** A complex value `re + im·i`. */
  datatype Cpx = Cpx(re: real, im: real)

  const Zero: Cpx := Cpx(0.0, 0.0)
  const One: Cpx := Cpx(1.0, 0.0)

  function Add(a: Cpx, b: Cpx): Cpx {
    Cpx(a.re + b.re, a.im + b.im)
  }

  /** Subtraction is the inverse of addition. */
  function Sub(a: Cpx, b: Cpx): (r: Cpx)
    ensures Add(r, b) == a
    ensures r == Zero <==> a == b
  {
    Cpx(a.re - b.re, a.im - b.im)
  }

  function Mul(a: Cpx, b: Cpx): Cpx {
    Cpx(a.re * b.re - a.im * b.im, a.re * b.im + b.re * a.im)
  }

  /** Squared modulus: never negative, and zero exactly at the origin. */
  function MagSq(x: Cpx): (r: real)
    ensures r >= 0.0
  {
    SumOfSquaresSign(x.re, x.im);
    x.re * x.re + x.im * x.im
  }

  /** The squared modulus vanishes exactly at the origin. */
  lemma MagSqZero(x: Cpx)
    ensures MagSq(x) == 0.0 <==> x == Zero
  {
    if x != Zero {
      SumOfSquaresSign(x.re, x.im);
      calc {
        MagSq(x);
      ==
        x.re * x.re + x.im * x.im;
      >
        0.0;
      }
    }
  }

  lemma SumOfSquaresSign(a: real, b: real)
    ensures a * a + b * b >= 0.0
    ensures a != 0.0 || b != 0.0 ==> a * a + b * b > 0.0
  {
    SquareSign(a);
    SquareSign(b);
  }

  /** A real square is non-negative and vanishes only at zero. */
  lemma SquareSign(a: real)
    ensures a * a >= 0.0
    ensures a != 0.0 ==> a * a > 0.0
  {
    if a < 0.0 {
      var b := -a;
      assert b * b > 0.0;
      assert a * a == b * b;
    } else if a > 0.0 {
      assert a * a > 0.0;
    }
  }

  function MulReal(x: Cpx, r: real): Cpx {
    Cpx(x.re * r, x.im * r)
  }

  /** Division by a non-zero real, written as a multiplication by its reciprocal. */
  function DivReal(x: Cpx, r: real): (y: Cpx)
    requires r != 0.0
    ensures MulReal(y, r) == x
  {
    ReciprocalCancels(x.re, r);
    ReciprocalCancels(x.im, r);
    MulReal(x, 1.0 / r)
  }

  lemma ReciprocalCancels(a: real, r: real)
    requires r != 0.0
    ensures a * (1.0 / r) * r == a
  {
  }

  /** Multiplicative inverse: the conjugate divided by the squared modulus. */
  function Inv(x: Cpx): (r: Cpx)
    requires x != Zero
    ensures Mul(x, r) == One
  {
    MagSqZero(x);
    var y := DivReal(x, MagSq(x));
    InvComponents(x.re, x.im, MagSq(x));
    Cpx(y.re, -y.im)
  }

  lemma InvComponents(a: real, b: real, m: real)
    requires m == a * a + b * b && m != 0.0
    ensures a * (a * (1.0 / m)) - b * -(b * (1.0 / m)) == 1.0
    ensures a * -(b * (1.0 / m)) + a * (1.0 / m) * b == 0.0
  {
    var k := 1.0 / m;
    assert m * k == 1.0;
    calc {
      a * (a * k) - b * -(b * k);
      (a * a + b * b) * k;
      1.0;
    }
  }

  /** Squared distance: never negative, zero exactly on equal points. */
  function DistSq(a: Cpx, b: Cpx): (r: real)
    ensures r >= 0.0
    ensures r == 0.0 <==> a == b
  {
    MagSqZero(Sub(a, b));
    MagSq(Sub(a, b))
  }

  /** The squared distance does not depend on the order of its arguments. */
  lemma DistSqSymmetric(a: Cpx, b: Cpx)
    ensures DistSq(a, b) == DistSq(b, a)
  {
  }

  // ---------------------------------------------------------------------------
  // Field laws used by the exponentiation and Newton proofs
  // ---------------------------------------------------------------------------

  lemma MulComm(a: Cpx, b: Cpx)
    ensures Mul(a, b) == Mul(b, a)
  {
  }

  lemma MulAssoc(a: Cpx, b: Cpx, c: Cpx)
    ensures Mul(Mul(a, b), c) == Mul(a, Mul(b, c))
  {
  }

  lemma MulOne(a: Cpx)
    ensures Mul(a, One) == a && Mul(One, a) == a
  {
  }

  /** The squared modulus is multiplicative. */
  lemma MagSqMul(a: Cpx, b: Cpx)
    ensures MagSq(Mul(a, b)) == MagSq(a) * MagSq(b)
  {
  }

  /** Exchanging the middle factors of a four-fold product. */
  lemma MulExchange(p: Cpx, q: Cpx, a: Cpx, b: Cpx)
    ensures Mul(Mul(p, q), Mul(a, b)) == Mul(Mul(p, a), Mul(q, b))
  {
  }

  /** Multiplication distributes over subtraction. */
  lemma MulSubDistrib(a: Cpx, b: Cpx, c: Cpx)
    ensures Mul(Sub(a, b), c) == Sub(Mul(a, c), Mul(b, c))
  {
  }

  /** Real scaling commutes with complex multiplication. */
  lemma MulScale(a: Cpx, b: Cpx, k: real)
    ensures Mul(a, MulReal(b, k)) == MulReal(Mul(a, b), k)
  {
  }

  /** A value with a right inverse is not zero, and the right inverse is `Inv`. */
  lemma InverseUnique(a: Cpx, b: Cpx)
    requires Mul(a, b) == One
    ensures a != Zero
    ensures Inv(a) == b
  {
    assert Mul(Zero, b) == Zero;
    calc {
      Inv(a);
      { MulOne(Inv(a)); }
      Mul(Inv(a), Mul(a, b));
      { MulAssoc(Inv(a), a, b); }
      Mul(Mul(Inv(a), a), b);
      { MulComm(Inv(a), a); MulOne(b); }
      b;
    }
  }
}
