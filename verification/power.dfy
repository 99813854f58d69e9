/**
  The four integer-power routines of the renderer.

  `Pow` is the reference: the naive loop that multiplies an accumulator
  starting at 1+0i by `x`, `p` times.  The three fast variants must give the
  same value for every `p >= 0`; over exact reals this is an equality, not an
  approximation.  The `while` loops of the source are written as
  tail-recursive functions whose parameters are the loop variables.
*/
module Power {
  import opened Complex

  /** `cpx_pow`: `ret := 1+0i`, then `p` times `ret := ret * x`. */
  function Pow(x: Cpx, p: nat): Cpx
  {
    if p == 0 then One else Mul(Pow(x, p - 1), x)
  }

  lemma {:induction false} PowOne(x: Cpx)
    ensures Pow(x, 1) == x
  {
    MulOne(x);
  }

  /** Powers add their exponents: x^(a+b) = x^a * x^b. */
  lemma {:induction false} PowAdd(x: Cpx, a: nat, b: nat)
    ensures Pow(x, a + b) == Mul(Pow(x, a), Pow(x, b))
    decreases b
  {
    if b == 0 {
      MulOne(Pow(x, a));
    } else {
      calc {
        Pow(x, a + b);
        Mul(Pow(x, a + b - 1), x);
        { PowAdd(x, a, b - 1); }
        Mul(Mul(Pow(x, a), Pow(x, b - 1)), x);
        { MulAssoc(Pow(x, a), Pow(x, b - 1), x); }
        Mul(Pow(x, a), Pow(x, b));
      }
    }
  }

  /** Squaring the base doubles the exponent: (x*x)^k = x^(2k). */
  lemma {:induction false} PowSquare(x: Cpx, k: nat)
    ensures Pow(Mul(x, x), k) == Pow(x, 2 * k)
    decreases k
  {
    if k > 0 {
      calc {
        Pow(Mul(x, x), k);
        Mul(Pow(Mul(x, x), k - 1), Mul(x, x));
        { PowSquare(x, k - 1); PowOne(x); }
        Mul(Pow(x, 2 * k - 2), Mul(Pow(x, 1), x));
        Mul(Pow(x, 2 * k - 2), Pow(x, 2));
        { PowAdd(x, 2 * k - 2, 2); }
        Pow(x, 2 * k);
      }
    }
  }

  /** Powers distribute over products: (a*b)^n = a^n * b^n. */
  lemma {:induction false} PowMul(a: Cpx, b: Cpx, n: nat)
    ensures Pow(Mul(a, b), n) == Mul(Pow(a, n), Pow(b, n))
    decreases n
  {
    if n == 0 {
      MulOne(One);
    } else {
      calc {
        Pow(Mul(a, b), n);
        Mul(Pow(Mul(a, b), n - 1), Mul(a, b));
        { PowMul(a, b, n - 1); }
        Mul(Mul(Pow(a, n - 1), Pow(b, n - 1)), Mul(a, b));
        { MulExchange(Pow(a, n - 1), Pow(b, n - 1), a, b); }
        Mul(Pow(a, n), Pow(b, n));
      }
    }
  }

  /** The identity raised to any power is the identity. */
  lemma {:induction false} PowOfOne(n: nat)
    ensures Pow(One, n) == One
    decreases n
  {
    if n > 1 {
      PowOfOne(n - 1);
    }
    if n > 0 {
      PowOfOneStep(n);
    }
  }

  lemma PowOfOneStep(n: nat)
    requires n > 0 && Pow(One, n - 1) == One
    ensures Pow(One, n) == One
  {
  }

  /** A non-zero base has non-zero powers: x^n * (1/x)^n = 1. */
  lemma PowNonZero(x: Cpx, n: nat)
    requires x != Zero
    ensures Pow(x, n) != Zero
    ensures Inv(Pow(x, n)) == Pow(Inv(x), n)
  {
    PowMul(x, Inv(x), n);
    PowOfOne(n);
    InverseUnique(Pow(x, n), Pow(Inv(x), n));
  }

  /** One pass of the square-and-multiply loop keeps `ret * sq^p` unchanged. */
  lemma FastStep(ret: Cpx, sq: Cpx, p: nat)
    requires p > 0
    ensures Mul(if p % 2 == 1 then Mul(ret, sq) else ret, Pow(Mul(sq, sq), p / 2))
         == Mul(ret, Pow(sq, p))
  {
    PowSquare(sq, p / 2);
    if p % 2 == 1 {
      assert 2 * (p / 2) == p - 1;
      OddStep(ret, sq, p);
    } else {
      assert 2 * (p / 2) == p;
    }
  }

  lemma OddStep(ret: Cpx, sq: Cpx, p: nat)
    requires p > 0
    ensures Mul(Mul(ret, sq), Pow(sq, p - 1)) == Mul(ret, Pow(sq, p))
  {
    calc {
      Mul(Mul(ret, sq), Pow(sq, p - 1));
      { MulAssoc(ret, sq, Pow(sq, p - 1)); }
      Mul(ret, Mul(sq, Pow(sq, p - 1)));
      { PowOne(sq); PowAdd(sq, 1, p - 1); }
      Mul(ret, Pow(sq, p));
    }
  }

  /**
    The loop of `cpx_pow_fast` (and the second loop of `cpx_pow_fast_2`):
    while `p` is non-zero, multiply `ret` by `sq` when the low bit is set,
    square `sq` and shift `p` right.  The loop invariant of the source,
    `ret * sq^p == x^p0`, is the postcondition.
  */
  function FastLoop(ret: Cpx, sq: Cpx, p: nat): (r: Cpx)
    ensures r == Mul(ret, Pow(sq, p))
    decreases p
  {
    if p == 0 then
      MulOne(ret);
      ret
    else
      FastStep(ret, sq, p);
      FastLoop(if p % 2 == 1 then Mul(ret, sq) else ret, Mul(sq, sq), p / 2)
  }

  /** `cpx_pow_fast`: square-and-multiply starting from 1+0i. */
  function PowFast(x: Cpx, p: nat): (r: Cpx)
    ensures r == Pow(x, p)
  {
    MulOne(Pow(x, p));
    FastLoop(One, x, p)
  }

  /**
    The first loop of `cpx_pow_fast_2`: strip the trailing zero bits of a
    positive exponent, squaring the base once per bit.  The result's exponent
    is odd and the power it denotes is unchanged.
  */
  function SkipEven(sq: Cpx, p: nat): (r: (Cpx, nat))
    requires p > 0
    ensures r.1 > 0 && r.1 % 2 == 1
    ensures Pow(r.0, r.1) == Pow(sq, p)
    decreases p
  {
    if p % 2 == 1 then
      (sq, p)
    else
      PowSquare(sq, p / 2);
      SkipEven(Mul(sq, sq), p / 2)
  }

  /**
    `cpx_pow_fast_2`: returns 1+0i for `p == 0`; otherwise the accumulator
    starts at the lowest set power `x^(2^t)` instead of 1+0i, so no
    multiplication by the identity happens.
  */
  function PowFast2(x: Cpx, p: nat): (r: Cpx)
    ensures r == Pow(x, p)
  {
    if p == 0 then One
    else
      var (sq, q) := SkipEven(x, p);
      FastStep(One, sq, q);
      MulOne(sq);
      MulOne(Pow(sq, q));
      FastLoop(sq, Mul(sq, sq), q / 2)
  }

  /** `cpx_pow_unrolled`: fixed multiplication trees for 0..8, `PowFast2` beyond. */
  function PowUnrolled(x: Cpx, p: nat): Cpx
  {
    if p == 0 then One
    else if p == 1 then x
    else if p == 2 then Mul(x, x)
    else if p == 3 then Mul(Mul(x, x), x)
    else if p == 4 then var xx := Mul(x, x); Mul(xx, xx)
    else if p == 5 then var xx := Mul(x, x); Mul(Mul(xx, xx), x)
    else if p == 6 then var xx := Mul(x, x); Mul(Mul(xx, xx), xx)
    else if p == 7 then var xx := Mul(x, x); Mul(Mul(xx, xx), Mul(xx, x))
    else if p == 8 then var xx := Mul(x, x); var xxxx := Mul(xx, xx); Mul(xxxx, xxxx)
    else PowFast2(x, p)
  }

  /** Every case of the unrolled switch, and its default, equals the naive power. */
  lemma PowUnrolledCorrect(x: Cpx, p: nat)
    ensures PowUnrolled(x, p) == Pow(x, p)
  {
    var x2 := Pow(x, 2);
    PowOne(x);
    assert x2 == Mul(x, x) by { MulOne(x); }
    if 3 <= p <= 8 {
      var x4 := Pow(x, 4);
      assert x4 == Mul(x2, x2) by { PowAdd(x, 2, 2); }
      match p
      case 3 => PowAdd(x, 2, 1);
      case 4 =>
      case 5 => PowAdd(x, 4, 1);
      case 6 => PowAdd(x, 4, 2);
      case 7 => PowAdd(x, 2, 1); PowAdd(x, 4, 3);
      case 8 => PowAdd(x, 4, 4);
    }
  }

  // ---------------------------------------------------------------------------
  // The multiplications performed: the identity product cpx_pow_fast_2 avoids
  // ---------------------------------------------------------------------------

  /** The operands of one `cpx_mul` call. */
  datatype Product = Product(left: Cpx, right: Cpx)

  /**
    The `cpx_mul` calls made by `FastLoop`, in order, following the same
    loop: per pass, `ret * sq` when the low bit is set, then `sq * sq`.
  */
  function FastLoopOps(ret: Cpx, sq: Cpx, p: nat): seq<Product>
    decreases p
  {
    if p == 0 then []
    else
      (if p % 2 == 1 then [Product(ret, sq)] else [])
      + [Product(sq, sq)]
      + FastLoopOps(if p % 2 == 1 then Mul(ret, sq) else ret, Mul(sq, sq), p / 2)
  }

  /** The squarings made by `SkipEven`, in order. */
  function SkipEvenOps(sq: Cpx, p: nat): seq<Product>
    requires p > 0
    decreases p
  {
    if p % 2 == 1 then [] else [Product(sq, sq)] + SkipEvenOps(Mul(sq, sq), p / 2)
  }

  /** The `cpx_mul` calls made by `cpx_pow_fast`. */
  function PowFastOps(x: Cpx, p: nat): seq<Product>
  {
    FastLoopOps(One, x, p)
  }

  /**
    The `cpx_mul` calls made by `cpx_pow_fast_2`: none for `p == 0`;
    otherwise the stripping squarings, the squaring after `ret = x_pow`,
    and the second loop started from `ret = x^(2^t)`.
  */
  function PowFast2Ops(x: Cpx, p: nat): seq<Product>
  {
    if p == 0 then []
    else
      var (sq, q) := SkipEven(x, p);
      SkipEvenOps(x, p) + [Product(sq, sq)] + FastLoopOps(sq, Mul(sq, sq), q / 2)
  }

  /**
    `cpx_pow_fast` makes exactly the multiplications of `cpx_pow_fast_2`,
    in the same order, plus one: the product of 1+0i with the lowest set
    power x^(2^t), inserted right after the stripping squarings.  For
    `p == 0` neither routine multiplies at all.
  */
  lemma {:induction false} PowFast2SkipsIdentity(x: Cpx, p: nat)
    ensures p == 0 ==> PowFastOps(x, p) == [] && PowFast2Ops(x, p) == []
    ensures p > 0 ==>
      var i := |SkipEvenOps(x, p)|;
      var fast2 := PowFast2Ops(x, p);
      i <= |fast2|
      && PowFastOps(x, p) == fast2[..i] + [Product(One, SkipEven(x, p).0)] + fast2[i..]
    decreases p
  {
    if p > 0 {
      var y := Mul(x, x);
      if p % 2 == 1 {
        MulOne(x);
        assert PowFastOps(x, p) == [Product(One, x)] + [Product(x, x)] + FastLoopOps(x, y, p / 2);
      } else {
        PowFast2SkipsIdentity(y, p / 2);
        var sq := SkipEven(x, p).0;
        var tail := PowFast2Ops(y, p / 2);
        var j := |SkipEvenOps(y, p / 2)|;
        assert SkipEven(y, p / 2).0 == sq;
        assert PowFast2Ops(x, p) == [Product(x, x)] + tail;
        assert PowFastOps(x, p) == [Product(x, x)] + PowFastOps(y, p / 2);
        assert PowFastOps(y, p / 2) == tail[..j] + [Product(One, sq)] + tail[j..];
        assert ([Product(x, x)] + tail)[..j + 1] == [Product(x, x)] + tail[..j];
        assert ([Product(x, x)] + tail)[j + 1..] == tail[j..];
      }
    }
  }
}
