/**
  The per-pixel classifier shared by both programs.

  Starting from the pixel's sample point, each pass of the iteration loop
  first compares the current point with every root of unity in table order
  (squared distance below 1e-6 means converged to that root), then tests
  for divergence (a component beyond 1e10 in absolute value, or a squared
  modulus below 1e-6, where the next step would divide by almost zero),
  and only then takes one Newton step.  The pixel records the 1-based root
  index (degree+1 for "diverged") and the number of passes made.

  The source loop has no bound.  Here `fuel` bounds the number of Newton
  steps; running out of it is the distinct outcome `OutOfFuel`.

  `Classify` is the reference definition over the exact Newton update;
  `ClassifyLoop` is the loop as both programs write it, with each program's
  own step, and is proved to compute `Classify`.
*/
module Classifier {
  import opened Complex
  import opened Newton

  /** The convergence and collapse threshold, 1e-6, on squared distances. */
  const Tolerance: real := 0.000001
  /** The escape threshold, 1e10, on the absolute value of either component. */
  const EscapeBound: real := 10000000000.0

  /** `fabs`. */
  function Abs(a: real): (r: real)
    ensures r >= 0.0 && (r == a || r == -a)
  {
    if a < 0.0 then -a else a
  }

  /** `x` has converged to `root`. */
  predicate Near(x: Cpx, root: Cpx) {
    DistSq(x, root) < Tolerance
  }

  /** The divergence test: escaped to infinity, or collapsed onto the origin. */
  predicate Escaped(x: Cpx) {
    Abs(x.re) > EscapeBound || Abs(x.im) > EscapeBound || MagSq(x) < Tolerance
  }

  /** A point that passed the divergence test can be stepped from. */
  lemma NotEscapedSteppable(d: int, x: Cpx)
    requires d >= 1 && !Escaped(x)
    ensures Steppable(d, x)
  {
  }

  /**
    The root-table scan from position `j`: the index of the first root at or
    after `j` that `x` is near, or `|roots|` when there is none.
  */
  function FirstNear(roots: seq<Cpx>, x: Cpx, j: nat): (k: nat)
    requires j <= |roots|
    ensures j <= k <= |roots|
    ensures k < |roots| ==> Near(x, roots[k])
    ensures forall i :: j <= i < k ==> !Near(x, roots[i])
    decreases |roots| - j
  {
    if j == |roots| then j
    else if Near(x, roots[j]) then j
    else FirstNear(roots, x, j + 1)
  }

  /** The result stored for one pixel: `root[px]` and `num_its[px]`. */
  datatype Pixel = Pixel(root: int, iters: int)

  /** A classified pixel with the point it stopped at, or an exhausted step budget. */
  datatype Outcome = Classified(pixel: Pixel, last: Cpx) | OutOfFuel

  /**
    The iteration loop from point `x` at pass `its`, with at most `fuel`
    further Newton steps: scan the roots, then test for divergence, then step.
  */
  function Classify(d: int, roots: seq<Cpx>, x: Cpx, its: nat, fuel: nat): Outcome
    requires d >= 1 && |roots| == d
    decreases fuel
  {
    var k := FirstNear(roots, x, 0);
    if k < d then Classified(Pixel(k + 1, its + 1), x)
    else if Escaped(x) then Classified(Pixel(d + 1, its + 1), x)
    else if fuel == 0 then OutOfFuel
    else
      NotEscapedSteppable(d, x);
      Classify(d, roots, NewtonRaphson(d, x), its + 1, fuel - 1)
  }

  /**
    What a classified pixel means.  Its root index lies in 1..d+1 and its
    pass count is at least one.  A converged pixel names the first root in
    table order that its stopping point is near.  A diverged pixel (index
    d+1) stopped at a point that escaped or collapsed and is near no root:
    convergence is checked before divergence.
  */
  lemma {:induction false} ClassifySound(d: int, roots: seq<Cpx>, x: Cpx, its: nat, fuel: nat)
    requires d >= 1 && |roots| == d
    ensures var o := Classify(d, roots, x, its, fuel);
      && (o.Classified? ==> 1 <= o.pixel.root <= d + 1)
      && (o.Classified? ==> its + 1 <= o.pixel.iters <= its + 1 + fuel)
      && (o.Classified? && o.pixel.root <= d ==>
            Near(o.last, roots[o.pixel.root - 1])
            && forall i :: 0 <= i < o.pixel.root - 1 ==> !Near(o.last, roots[i]))
      && (o.Classified? && o.pixel.root == d + 1 ==>
            Escaped(o.last) && forall i :: 0 <= i < d ==> !Near(o.last, roots[i]))
    decreases fuel
  {
    if FirstNear(roots, x, 0) == d && !Escaped(x) && fuel > 0 {
      NotEscapedSteppable(d, x);
      ClassifySound(d, roots, NewtonRaphson(d, x), its + 1, fuel - 1);
    }
  }

  /** More fuel never changes a classification that was already reached. */
  lemma {:induction false} FuelMonotone(d: int, roots: seq<Cpx>, x: Cpx, its: nat, fuel: nat, more: nat)
    requires d >= 1 && |roots| == d
    requires Classify(d, roots, x, its, fuel).Classified?
    ensures Classify(d, roots, x, its, fuel + more) == Classify(d, roots, x, its, fuel)
    decreases fuel
  {
    if FirstNear(roots, x, 0) == d && !Escaped(x) {
      if fuel == 0 {
        assert false;
      }
      NotEscapedSteppable(d, x);
      FuelMonotone(d, roots, NewtonRaphson(d, x), its + 1, fuel - 1, more);
    }
  }

  // ---------------------------------------------------------------------------
  // The loop as the two programs write it
  // ---------------------------------------------------------------------------

  /** Which program's Newton step is used: the threaded closed form or the sequential explicit one. */
  datatype Variant = Threaded | Sequential

  /** The Newton step of the chosen program; both are the exact Newton update. */
  function Step(v: Variant, d: int, x: Cpx): (r: Cpx)
    requires Steppable(d, x)
    ensures r == NewtonRaphson(d, x)
  {
    match v
    case Threaded => NewtonClosed(d, x)
    case Sequential => NewtonExplicit(d, x)
  }

  /**
    The per-pixel loop: for `its` = 0, 1, ..., scan the roots in order and
    stop at the first one within tolerance; otherwise stop if the point
    escaped or collapsed; otherwise take the program's Newton step.  Leaving
    both the root scan and the pass loop at once stands for the `done` flag.
  */
  method ClassifyLoop(v: Variant, d: int, roots: seq<Cpx>, x0: Cpx, fuel: nat) returns (o: Outcome)
    requires d >= 1 && |roots| == d
    ensures o == Classify(d, roots, x0, 0, fuel)
  {
    var x := x0;
    var its: nat := 0;
    while true
      invariant its <= fuel
      invariant Classify(d, roots, x, its, fuel - its) == Classify(d, roots, x0, 0, fuel)
      decreases fuel - its
    {
      var j := 0;
      while j < d
        invariant 0 <= j <= d
        invariant FirstNear(roots, x, j) == FirstNear(roots, x, 0)
      {
        if DistSq(x, roots[j]) < Tolerance {
          return Classified(Pixel(j + 1, its + 1), x);
        }
        j := j + 1;
      }
      if Abs(x.re) > EscapeBound || Abs(x.im) > EscapeBound || MagSq(x) < Tolerance {
        return Classified(Pixel(d + 1, its + 1), x);
      }
      if its == fuel {
        return OutOfFuel;
      }
      NotEscapedSteppable(d, x);
      x := Step(v, d, x);
      its := its + 1;
    }
  }

  // ---------------------------------------------------------------------------
  // A second description: the first stopping point of the Newton orbit
  // ---------------------------------------------------------------------------

  /** The iteration loop stops at `x`: some root is near, or `x` diverged. */
  predicate Stops(roots: seq<Cpx>, x: Cpx) {
    (exists i :: 0 <= i < |roots| && Near(x, roots[i])) || Escaped(x)
  }

  /** The pixel's root index at a stopping point: the least near root, plus one, else |roots|+1. */
  function Verdict(roots: seq<Cpx>, x: Cpx): int
  {
    FirstNear(roots, x, 0) + 1
  }

  /** The Newton update, extended by the identity where it is undefined. */
  function SafeStep(d: int, x: Cpx): Cpx {
    if Steppable(d, x) then NewtonRaphson(d, x) else x
  }

  /** The `n`-th point of the Newton orbit of `x`. */
  function Iterate(d: int, x: Cpx, n: nat): Cpx
    decreases n
  {
    if n == 0 then x else Iterate(d, SafeStep(d, x), n - 1)
  }

  /**
    If the orbit of `x` first stops after `n <= fuel` steps, the classifier
    reports the verdict at that point, after `n + 1` passes.
  */
  lemma {:induction false} ClassifyFirstStop(d: int, roots: seq<Cpx>, x: Cpx, its: nat, fuel: nat, n: nat)
    requires d >= 1 && |roots| == d && n <= fuel
    requires Stops(roots, Iterate(d, x, n))
    requires forall m :: 0 <= m < n ==> !Stops(roots, Iterate(d, x, m))
    ensures Classify(d, roots, x, its, fuel)
         == Classified(Pixel(Verdict(roots, Iterate(d, x, n)), its + n + 1), Iterate(d, x, n))
    decreases n
  {
    if n > 0 {
      assert !Stops(roots, Iterate(d, x, 0));
      NotEscapedSteppable(d, x);
      var y := SafeStep(d, x);
      forall m | 0 <= m < n - 1
        ensures !Stops(roots, Iterate(d, y, m))
      {
        assert Iterate(d, x, m + 1) == Iterate(d, y, m);
      }
      ClassifyFirstStop(d, roots, y, its + 1, fuel - 1, n - 1);
    }
  }

  /** If the orbit does not stop within `fuel` steps, the classifier runs out of fuel. */
  lemma {:induction false} ClassifyNoStop(d: int, roots: seq<Cpx>, x: Cpx, its: nat, fuel: nat)
    requires d >= 1 && |roots| == d
    requires forall m :: 0 <= m <= fuel ==> !Stops(roots, Iterate(d, x, m))
    ensures Classify(d, roots, x, its, fuel) == OutOfFuel
    decreases fuel
  {
    assert !Stops(roots, Iterate(d, x, 0));
    if fuel > 0 {
      NotEscapedSteppable(d, x);
      var y := SafeStep(d, x);
      forall m | 0 <= m <= fuel - 1
        ensures !Stops(roots, Iterate(d, y, m))
      {
        assert Iterate(d, x, m + 1) == Iterate(d, y, m);
      }
      ClassifyNoStop(d, roots, y, its + 1, fuel - 1);
    }
  }

  // ---------------------------------------------------------------------------
  // Particular starting points
  // ---------------------------------------------------------------------------

  /** A unit-modulus root lies at squared distance 1 from the origin. */
  lemma UnitRootFarFromOrigin(r: Cpx)
    requires MagSq(r) == 1.0
    ensures DistSq(Zero, r) == 1.0
  {
    assert Sub(Zero, r) == Cpx(-r.re, -r.im);
    assert (-r.re) * (-r.re) == r.re * r.re;
    assert (-r.im) * (-r.im) == r.im * r.im;
  }

  /**
    The origin, where the Newton step is undefined, is classified as
    diverged on the first pass when every root has unit modulus, as the
    roots of unity do.
  */
  lemma OriginDiverges(d: int, roots: seq<Cpx>, its: nat, fuel: nat)
    requires d >= 1 && |roots| == d
    requires forall i :: 0 <= i < d ==> MagSq(roots[i]) == 1.0
    ensures Classify(d, roots, Zero, its, fuel) == Classified(Pixel(d + 1, its + 1), Zero)
  {
    var k := FirstNear(roots, Zero, 0);
    if k < d {
      UnitRootFarFromOrigin(roots[k]);
      assert false;
    }
    assert Escaped(Zero) by { assert MagSq(Zero) == 0.0; }
  }

  /**
    A point already within tolerance of the `k`-th root, and of no earlier
    one, is classified as that root on the current pass without any Newton
    step.
  */
  lemma ConvergedOnFirstPass(d: int, roots: seq<Cpx>, x: Cpx, k: int, its: nat, fuel: nat)
    requires d >= 1 && |roots| == d && 0 <= k < d
    requires Near(x, roots[k])
    requires forall i :: 0 <= i < k ==> !Near(x, roots[i])
    ensures Classify(d, roots, x, its, fuel) == Classified(Pixel(k + 1, its + 1), x)
  {
    FirstNearAt(roots, x, k);
    ClassifyAtFirstNear(d, roots, x, k, its, fuel);
  }

  lemma ClassifyAtFirstNear(d: int, roots: seq<Cpx>, x: Cpx, k: int, its: nat, fuel: nat)
    requires d >= 1 && |roots| == d && 0 <= k < d
    requires FirstNear(roots, x, 0) == k
    ensures Classify(d, roots, x, its, fuel) == Classified(Pixel(k + 1, its + 1), x)
  {
  }

  lemma FirstNearAt(roots: seq<Cpx>, x: Cpx, k: nat)
    requires k < |roots|
    requires forall i :: 0 <= i < k ==> !Near(x, roots[i])
    requires Near(x, roots[k])
    ensures FirstNear(roots, x, 0) == k
  {
  }
}
