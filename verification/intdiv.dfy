/**
  Facts about integer division by a positive divisor, used by the work
  partitioner and by the raster-order coordinate stepping.  All operands
  there are non-negative, where C's truncating `/` and `%` agree with
  Dafny's Euclidean ones.
*/
module IntDiv {

  lemma MulMono(t: int, a: int, b: int)
    requires t >= 0 && a < b
    ensures t * a + t <= t * b
  {
    assert t * b - t * a == t * (b - a);
    assert t * (b - a) == t * (b - a - 1) + t;
  }

  /** Quotient and remainder are the unique pair with a == t*q + r and 0 <= r < t. */
  lemma DivModUnique(a: int, t: int, q: int, r: int)
    requires t > 0 && a == t * q + r && 0 <= r < t
    ensures a / t == q && a % t == r
  {
    var q0, r0 := a / t, a % t;
    assert a == t * q0 + r0;
    if q0 > q {
      MulMono(t, q, q0);
      assert false;
    } else if q0 < q {
      MulMono(t, q0, q);
      assert false;
    }
  }

  /** Division by a positive divisor is monotone. */
  lemma DivMono(a: int, b: int, t: int)
    requires t > 0 && a <= b
    ensures a / t <= b / t
  {
    if a / t > b / t {
      MulMono(t, b / t, a / t);
      assert false;
    }
  }

  /** Adding a multiple of the divisor adds to the quotient and leaves the remainder. */
  lemma DivAddMultiple(c: int, q: int, t: int)
    requires t > 0
    ensures (c + t * q) / t == c / t + q
    ensures (c + t * q) % t == c % t
  {
    assert c + t * q == t * (c / t + q) + c % t;
    DivModUnique(c + t * q, t, c / t + q, c % t);
  }

  /** Adding less than one divisor's worth raises the quotient by at most one. */
  lemma DivAddSmall(a: int, r: int, t: int)
    requires t > 0 && 0 <= r < t
    ensures a / t <= (a + r) / t <= a / t + 1
    ensures r == 0 ==> (a + r) / t == a / t
  {
    DivMono(a, a + r, t);
    var u := a % t;
    assert a + r == t * (a / t) + (u + r);
    if u + r < t {
      DivModUnique(a + r, t, a / t, u + r);
    } else {
      assert a + r == t * (a / t + 1) + (u + r - t);
      DivModUnique(a + r, t, a / t + 1, u + r - t);
    }
  }
}
