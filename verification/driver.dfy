/**
  The two programs' computation stages.

  The threaded program splits the side*side pixels into one contiguous range
  per worker; each worker walks its range in raster order, keeping the
  column and row of the current pixel incrementally, and classifies each
  pixel's sample point.  The workers write disjoint slots of shared result
  arrays; here each worker returns its slice and the slices are joined in
  worker order, which the partition lemmas show is the same array.

  The sequential program first fills the whole grid of sample points, then
  classifies index by index.  Both stages produce, at every index, the
  classification of that pixel's sample point, whatever the thread count.
*/
module Driver {
  import opened Complex
  import opened Classifier
  import opened Partition
  import opened Raster
  import opened IntDiv

  const Int32Max: int := 0x7FFF_FFFF
  const Int64Max: int := 0x7FFF_FFFF_FFFF_FFFF

  /** The threaded program's parameters: the degree (last argument), `-l` side and `-t` threads. */
  datatype Config = Config(degree: int, side: int, threads: int)

  /**
    A configuration the threaded program runs on: a positive degree (the
    step divides by it), a positive side (the worker divides by it), a
    positive thread count, and partition products l*l*(i+1) within the
    signed 64-bit range the workers compute them in.
  */
  predicate ValidConfig(c: Config) {
    c.degree >= 1 && c.side >= 1 && c.threads >= 1
    && c.side * c.side * c.threads <= Int64Max
  }

  /** The classification of pixel `px`: its sample point run through the iteration loop. */
  function PixelOutcome(d: int, l: int, roots: seq<Cpx>, px: int, fuel: nat): Outcome
    requires d >= 1 && |roots| == d && l >= 1
  {
    Classify(d, roots, Sample(l, px % l, px / l), 0, fuel)
  }

  /** Under a valid configuration every product the partitioner forms fits in 64 bits. */
  lemma PartitionProductsFit(c: Config, i: int)
    requires ValidConfig(c) && 0 <= i < c.threads
    ensures 0 <= c.side * c.side * i <= c.side * c.side * (i + 1) <= Int64Max
  {
    var n := c.side * c.side;
    assert n >= 0;
    MulMono(n, i, i + 1);
    if i + 1 < c.threads {
      MulMono(n, i + 1, c.threads);
    }
  }

  /**
    Worker `i`: from `px_start` to `px_end`, with `px_x`/`px_y` started at
    px_start % l and px_start / l and advanced in raster order, classify
    every pixel with the threaded program's step.
  */
  method Worker(c: Config, roots: seq<Cpx>, i: int, fuel: nat) returns (out: seq<Outcome>)
    requires ValidConfig(c) && |roots| == c.degree && 0 <= i < c.threads
    ensures var n := c.side * c.side;
      |out| == End(n, c.threads, i) - Start(n, c.threads, i)
    ensures var n := c.side * c.side;
      forall k :: 0 <= k < |out| ==>
        out[k] == PixelOutcome(c.degree, c.side, roots, Start(n, c.threads, i) + k, fuel)
  {
    var l := c.side;
    var n := l * l;
    Tiling(n, c.threads);
    var pxStart := Start(n, c.threads, i);
    var pxEnd := End(n, c.threads, i);
    var pxX := pxStart % l;
    var pxY := pxStart / l;
    var px := pxStart;
    out := [];
    while px < pxEnd
      invariant pxStart <= px <= pxEnd
      invariant pxX == px % l && pxY == px / l
      invariant |out| == px - pxStart
      invariant forall k :: 0 <= k < |out| ==>
        out[k] == PixelOutcome(c.degree, l, roots, pxStart + k, fuel)
    {
      var o := ClassifyLoop(Threaded, c.degree, roots, Sample(l, pxX, pxY), fuel);
      out := out + [o];
      RasterStep(l, px);
      pxX := pxX + 1;
      if pxX == l {
        pxX := 0;
        pxY := pxY + 1;
      }
      px := px + 1;
    }
  }

  /**
    The threaded computation: every worker's slice, in worker order.  The
    result at each index is that pixel's classification, independent of the
    number of threads.
  */
  method RunThreaded(c: Config, roots: seq<Cpx>, fuel: nat) returns (out: seq<Outcome>)
    requires ValidConfig(c) && |roots| == c.degree
    ensures |out| == c.side * c.side
    ensures forall px :: 0 <= px < |out| ==> out[px] == PixelOutcome(c.degree, c.side, roots, px, fuel)
  {
    var n := c.side * c.side;
    var t := c.threads;
    Tiling(n, t);
    out := [];
    var i := 0;
    while i < t
      invariant 0 <= i <= t
      invariant |out| == Start(n, t, i)
      invariant forall px :: 0 <= px < |out| ==> out[px] == PixelOutcome(c.degree, c.side, roots, px, fuel)
    {
      var slice := Worker(c, roots, i, fuel);
      ghost var start := |out|;
      out := out + slice;
      assert |out| == Start(n, t, i + 1);
      forall px | start <= px < |out|
        ensures out[px] == PixelOutcome(c.degree, c.side, roots, px, fuel)
      {
        assert out[px] == slice[px - start];
      }
      i := i + 1;
    }
    DivModUnique(n * t, t, n, 0);
  }

  /** Every cell before column `x`, and the first `y` cells of column `x`, hold their sample. */
  ghost predicate FilledBefore(xs: seq<Cpx>, l: int, x: int, y: int)
    requires l >= 1
  {
    |xs| == l * l
    && forall px :: 0 <= px < l * l && (px % l < x || (px % l == x && px / l < y)) ==>
         xs[px] == Sample(l, px % l, px / l)
  }

  lemma FillCell(xs: seq<Cpx>, l: int, x: int, y: int)
    requires l >= 1 && 0 <= x < l && 0 <= y < l
    requires FilledBefore(xs, l, x, y)
    ensures FilledBefore(xs[Flatten(l, x, y) := Sample(l, x, y)], l, x, y + 1)
  {
    var p := Flatten(l, x, y);
    var ys := xs[p := Sample(l, x, y)];
    forall q | 0 <= q < l * l && (q % l < x || (q % l == x && q / l < y + 1))
      ensures ys[q] == Sample(l, q % l, q / l)
    {
      UnflattenRoundTrip(l, q);
    }
  }

  lemma FillColumnDone(xs: seq<Cpx>, l: int, x: int)
    requires l >= 1 && 0 <= x < l
    requires FilledBefore(xs, l, x, l)
    ensures FilledBefore(xs, l, x + 1, 0)
  {
    forall q | 0 <= q < l * l && q % l < x + 1
      ensures xs[q] == Sample(l, q % l, q / l)
    {
      UnflattenRoundTrip(l, q);
    }
  }

  /**
    The sequential program's grid fill: the outer loop runs over columns
    `x`, the inner over rows `y`, writing cell (x, y)'s sample at x + y*l.
  */
  method FillGrid(l: int) returns (xs: seq<Cpx>)
    requires l >= 1
    ensures |xs| == l * l
    ensures forall px :: 0 <= px < l * l ==> xs[px] == Sample(l, px % l, px / l)
  {
    xs := seq(l * l, _ => Zero);
    var x := 0;
    while x < l
      invariant 0 <= x <= l
      invariant FilledBefore(xs, l, x, 0)
    {
      var y := 0;
      while y < l
        invariant 0 <= y <= l
        invariant FilledBefore(xs, l, x, y)
      {
        FillCell(xs, l, x, y);
        xs := xs[Flatten(l, x, y) := Sample(l, x, y)];
        y := y + 1;
      }
      FillColumnDone(xs, l, x);
      x := x + 1;
    }
    forall q | 0 <= q < l * l
      ensures xs[q] == Sample(l, q % l, q / l)
    {
      UnflattenRoundTrip(l, q);
    }
  }

  /**
    The sequential computation: fill the grid, then classify every index in
    order with the sequential program's step.  Its indices are `int`, so the
    pixel count must fit in 32 bits.
  */
  method RunSequential(d: int, l: int, roots: seq<Cpx>, fuel: nat) returns (out: seq<Outcome>)
    requires d >= 1 && |roots| == d && l >= 1 && l * l <= Int32Max
    ensures |out| == l * l
    ensures forall px :: 0 <= px < |out| ==> out[px] == PixelOutcome(d, l, roots, px, fuel)
  {
    var xs := FillGrid(l);
    out := [];
    var px := 0;
    while px < l * l
      invariant 0 <= px <= l * l
      invariant |out| == px
      invariant forall k :: 0 <= k < px ==> out[k] == PixelOutcome(d, l, roots, k, fuel)
    {
      var o := ClassifyLoop(Sequential, d, roots, xs[px], fuel);
      out := out + [o];
      px := px + 1;
    }
  }
}
