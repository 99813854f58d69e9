/**
  The pixel grid: flattening (x, y) to the index x + y*side, the raster-order
  coordinate stepping of the threaded worker, the column-major visiting
  order of the sequential program's output loop, and the sample point of
  each pixel in the square [-2, 2) x [-2, 2).
*/
module Raster {
  import opened IntDiv
  import opened Complex

  /** The flattened index of column `x`, row `y`; its remainder and quotient by `l` give `x` and `y` back. */
  function Flatten(l: int, x: int, y: int): (px: int)
    requires 0 <= x < l && 0 <= y < l
    ensures 0 <= px < l * l
    ensures px % l == x && px / l == y
  {
    MulMono(l, y, l);
    DivModUnique(x + y * l, l, y, x);
    x + y * l
  }

  /** Every index of the grid is the flattening of its remainder and quotient. */
  lemma UnflattenRoundTrip(l: int, px: int)
    requires l >= 1 && 0 <= px < l * l
    ensures 0 <= px % l < l && 0 <= px / l < l
    ensures Flatten(l, px % l, px / l) == px
  {
    if px / l >= l {
      MulMono(l, l - 1, px / l);
      assert false;
    }
  }

  /**
    One raster step of the threaded worker: after `px_x` reaches `l` it
    wraps to 0 and `px_y` advances, so the pair stays (px % l, px / l).
  */
  lemma RasterStep(l: int, px: int)
    requires l >= 1 && px >= 0
    ensures px % l + 1 < l ==> (px + 1) % l == px % l + 1 && (px + 1) / l == px / l
    ensures px % l + 1 == l ==> (px + 1) % l == 0 && (px + 1) / l == px / l + 1
  {
    var x, y := px % l, px / l;
    if x + 1 < l {
      DivModUnique(px + 1, l, y, x + 1);
    } else {
      DivModUnique(px + 1, l, y + 1, 0);
    }
  }

  /**
    The `k`-th index visited by a loop nest whose outer variable `i` and
    inner variable `j` both run over [0, l), reading index i + l*j.
  */
  function Visit(l: int, k: int): (px: int)
    requires l >= 1 && 0 <= k < l * l
    ensures 0 <= px < l * l
  {
    UnflattenRoundTrip(l, k);
    Flatten(l, k / l, k % l)
  }

  /** Visiting is its own inverse, so every index is visited exactly once. */
  lemma VisitInvolution(l: int, k: int)
    requires l >= 1 && 0 <= k < l * l
    ensures Visit(l, Visit(l, k)) == k
  {
    UnflattenRoundTrip(l, k);
  }

  /** The visiting order is a bijection of [0, l*l): injective and onto. */
  lemma VisitBijective(l: int, k1: int, k2: int, px: int)
    requires l >= 1 && 0 <= k1 < l * l && 0 <= k2 < l * l && 0 <= px < l * l
    ensures Visit(l, k1) == Visit(l, k2) ==> k1 == k2
    ensures Visit(l, Visit(l, px)) == px
  {
    VisitInvolution(l, k1);
    VisitInvolution(l, k2);
    VisitInvolution(l, px);
  }

  /** The sample point of cell (x, y): 4 * (x/l - 0.5) + 4 * (y/l - 0.5) i. */
  function Sample(l: int, x: int, y: int): Cpx
    requires l >= 1
  {
    Cpx(4.0 * ((x as real) / (l as real) - 0.5), 4.0 * ((y as real) / (l as real) - 0.5))
  }

  /** One coordinate of a sample lies in [-2, 2). */
  lemma CoordinateBounds(l: int, x: int)
    requires 0 <= x < l
    ensures -2.0 <= 4.0 * ((x as real) / (l as real) - 0.5) < 2.0
  {
    var q := (x as real) / (l as real);
    assert q * (l as real) == x as real;
  }

  /** Every sample lies in the square [-2, 2) x [-2, 2). */
  lemma SampleInSquare(l: int, x: int, y: int)
    requires 0 <= x < l && 0 <= y < l
    ensures -2.0 <= Sample(l, x, y).re < 2.0 && -2.0 <= Sample(l, x, y).im < 2.0
  {
    CoordinateBounds(l, x);
    CoordinateBounds(l, y);
  }

  /** Distinct cells sample distinct points. */
  lemma SampleInjective(l: int, x1: int, y1: int, x2: int, y2: int)
    requires l >= 1
    requires Sample(l, x1, y1) == Sample(l, x2, y2)
    ensures x1 == x2 && y1 == y2
  {
    CoordinateInjective(l, x1, x2);
    CoordinateInjective(l, y1, y2);
  }

  lemma CoordinateInjective(l: int, a: int, b: int)
    requires l >= 1
    requires 4.0 * ((a as real) / (l as real) - 0.5) == 4.0 * ((b as real) / (l as real) - 0.5)
    ensures a == b
  {
    var qa, qb := (a as real) / (l as real), (b as real) / (l as real);
    assert qa == qb;
    assert qa * (l as real) == a as real;
    assert qb * (l as real) == b as real;
  }

  /** On a grid of even side the centre cell samples the origin exactly. */
  lemma CentreIsOrigin(l: int)
    requires l >= 2 && l % 2 == 0
    ensures Sample(l, l / 2, l / 2) == Zero
  {
    var h := l / 2;
    assert (h as real) * 2.0 == l as real;
    assert (h as real) / (l as real) == 0.5;
  }
}
