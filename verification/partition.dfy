/**
  The static work partitioner of the threaded renderer.

  Worker `i` of `t` owns the half-open range of flattened pixel indices
  [n*i/t, n*(i+1)/t) where n = side*side.  The ranges tile [0, n) in worker
  order, no pixel has two owners, and any two range sizes differ by at most
  one.  Integers are unbounded here; the configuration check of the driver
  keeps every product within the 64-bit range the source computes in.
*/
module Partition {
  import opened IntDiv

  /** `px_start` of worker `i`: n*i/t. */
  function Start(n: int, t: int, i: int): int
    requires n >= 0 && t >= 1 && 0 <= i <= t
  {
    n * i / t
  }

  /** `px_end` of worker `i`: n*(i+1)/t. */
  function End(n: int, t: int, i: int): int
    requires n >= 0 && t >= 1 && 0 <= i < t
  {
    n * (i + 1) / t
  }

  /** Range starts grow with the worker index. */
  lemma StartMono(n: int, t: int, i: int, j: int)
    requires n >= 0 && t >= 1 && 0 <= i <= j <= t
    ensures Start(n, t, i) <= Start(n, t, j)
  {
    if i < j {
      MulMono(n, i, j);
    }
    DivMono(n * i, n * j, t);
  }

  /**
    The ranges tile [0, n): worker 0 starts at 0, the last worker ends at n,
    each worker ends where the next one starts, and no range is inverted.
  */
  lemma Tiling(n: int, t: int)
    requires n >= 0 && t >= 1
    ensures Start(n, t, 0) == 0
    ensures End(n, t, t - 1) == n
    ensures forall i :: 0 <= i < t - 1 ==> End(n, t, i) == Start(n, t, i + 1)
    ensures forall i :: 0 <= i < t ==> 0 <= Start(n, t, i) <= End(n, t, i) <= n
  {
    assert n * t / t == n by { DivModUnique(n * t, t, n, 0); }
    forall i | 0 <= i < t
      ensures 0 <= Start(n, t, i) <= End(n, t, i) <= n
    {
      StartMono(n, t, 0, i);
      StartMono(n, t, i, i + 1);
      StartMono(n, t, i + 1, t);
    }
  }

  /**
    Every range holds either floor(n/t) or ceil(n/t) pixels, and exactly
    n/t when t divides n.
  */
  lemma RangeSize(n: int, t: int, i: int)
    requires n >= 0 && t >= 1 && 0 <= i < t
    ensures var size := End(n, t, i) - Start(n, t, i);
      && (size == n / t || size == n / t + 1)
      && size <= (n + t - 1) / t
      && (n % t == 0 ==> size == n / t)
  {
    var q, r := n / t, n % t;
    var a := n * i;
    assert n * (i + 1) == (a + r) + t * q;
    DivAddMultiple(a + r, q, t);
    DivAddSmall(a, r, t);
    assert n + t - 1 == (r + t - 1) + t * q;
    DivAddMultiple(r + t - 1, q, t);
    if r == 0 {
      DivModUnique(t - 1, t, 0, t - 1);
    } else {
      DivModUnique(r + t - 1, t, 1, r - 1);
    }
  }

  /** No pixel lies in the ranges of two different workers. */
  lemma OwnersDisjoint(n: int, t: int, i: int, j: int, px: int)
    requires n >= 0 && t >= 1 && 0 <= i < t && 0 <= j < t
    requires Start(n, t, i) <= px < End(n, t, i)
    requires Start(n, t, j) <= px < End(n, t, j)
    ensures i == j
  {
    if i < j {
      StartMono(n, t, i + 1, j);
      assert false;
    } else if j < i {
      StartMono(n, t, j + 1, i);
      assert false;
    }
  }

  /**
    The worker that owns pixel `px`, searching upward from worker `i`
    whose range starts at or before `px`: every pixel of [0, n) has one.
  */
  function OwnerFrom(n: int, t: int, px: int, i: int): (w: int)
    requires n >= 0 && t >= 1 && 0 <= i < t && 0 <= px < n
    requires Start(n, t, i) <= px
    ensures i <= w < t
    ensures Start(n, t, w) <= px < End(n, t, w)
    decreases t - i
  {
    Tiling(n, t);
    if px < End(n, t, i) then i else OwnerFrom(n, t, px, i + 1)
  }

  /** Every pixel of [0, n) has exactly one owning worker. */
  function Owner(n: int, t: int, px: int): (w: int)
    requires n >= 0 && t >= 1 && 0 <= px < n
    ensures 0 <= w < t && Start(n, t, w) <= px < End(n, t, w)
    ensures forall j :: 0 <= j < t && Start(n, t, j) <= px < End(n, t, j) ==> j == w
  {
    Tiling(n, t);
    var w := OwnerFrom(n, t, px, 0);
    forall j | 0 <= j < t && Start(n, t, j) <= px < End(n, t, j)
      ensures j == w
    {
      OwnersDisjoint(n, t, j, w, px);
    }
    w
  }
}
