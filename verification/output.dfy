/**
  The image stage: turning the per-pixel results into the attractor image
  (one palette colour per pixel, chosen by root index) and the convergence
  image (one gray level per pixel, chosen by pass count).

  The threaded program writes both images in index order; the sequential
  program writes only the attractor image, reading index i + l*j for row i,
  column j, so its image is the transpose of the threaded program's.

  Three out-of-bounds reads and an overflow of the threaded program are
  modelled as written (as `...AsWritten` members returning `None` where the
  C code reads past an array) next to the corrected behaviour the rest of
  the model uses.
*/
module Output {
  import opened Complex
  import opened Classifier
  import opened Raster
  import opened Driver
  import opened IntDiv

  datatype Option<T> = None | Some(value: T)

  /** One output colour. */
  datatype Rgb = Rgb(r: int, g: int, b: int)

  /** The attractor palette `cols`, indexed by root index: entry 0 is never produced, entry d+1 marks divergence. */
  const Palette: seq<Rgb> := [
    Rgb(0, 0, 0), Rgb(255, 0, 0), Rgb(0, 255, 0), Rgb(0, 0, 255),
    Rgb(255, 0, 255), Rgb(0, 255, 255), Rgb(255, 255, 0), Rgb(255, 255, 255),
    Rgb(200, 100, 150), Rgb(200, 150, 100), Rgb(150, 200, 100)]

  /** The largest degree whose root indices 1..d+1 all have a palette entry. */
  const MaxDegree: int := |Palette| - 2

  /** Distinct root indices get distinct colours, so the attractor image determines the root indices. */
  lemma PaletteDistinct(i: int, j: int)
    requires 0 <= i < |Palette| && 0 <= j < |Palette|
    ensures Palette[i] == Palette[j] <==> i == j
  {
  }

  /** A stored pixel as the classifier produces it: root index 1..d+1, at least one pass. */
  predicate ValidPixel(d: int, p: Pixel) {
    1 <= p.root <= d + 1 && p.iters >= 1
  }

  /** Every pixel the computation stage classifies is a valid pixel. */
  lemma ClassifiedPixelValid(d: int, l: int, roots: seq<Cpx>, px: int, fuel: nat)
    requires d >= 1 && |roots| == d && l >= 1
    requires PixelOutcome(d, l, roots, px, fuel).Classified?
    ensures ValidPixel(d, PixelOutcome(d, l, roots, px, fuel).pixel)
  {
    ClassifySound(d, roots, Sample(l, px % l, px / l), 0, fuel);
  }

  // ---------------------------------------------------------------------------
  // The palette bound
  // ---------------------------------------------------------------------------

  /** `cols[root]` as written: a read past the 11 entries is undefined, modelled as `None`. */
  function PaletteLookupAsWritten(root: int): Option<Rgb>
  {
    if 0 <= root < |Palette| then Some(Palette[root]) else None
  }

  /**
    For degree 10 the divergence index is 11, one past the palette.  On a
    2x2 grid the pixel at index 3 samples the origin, which diverges on the
    first pass whenever the roots have unit modulus, so the threaded program
    reads `cols[11]`.
  */
  lemma PaletteOverrunAsWritten(roots: seq<Cpx>, fuel: nat)
    requires |roots| == 10
    requires forall i :: 0 <= i < 10 ==> MagSq(roots[i]) == 1.0
    ensures ValidConfig(Config(10, 2, 1))
    ensures PixelOutcome(10, 2, roots, 3, fuel) == Classified(Pixel(11, 1), Zero)
    ensures PaletteLookupAsWritten(11) == None
  {
    CentreIsOrigin(2);
    assert Sample(2, 3 % 2, 3 / 2) == Sample(2, 1, 1);
    OriginDiverges(10, roots, 0, fuel);
  }

  /** Every root index of a valid pixel has a palette entry exactly when the degree is at most 9. */
  lemma PaletteCoversRoots(d: int)
    requires d >= 1
    ensures d <= MaxDegree <==> forall root :: 1 <= root <= d + 1 ==> PaletteLookupAsWritten(root).Some?
  {
    if d > MaxDegree {
      assert PaletteLookupAsWritten(d + 1).None?;
    }
  }

  // ---------------------------------------------------------------------------
  // The gray-level table
  // ---------------------------------------------------------------------------

  /** Rows the gray table is declared with, and rows the corrected table has. */
  const GrayRowsAsWritten: int := 255
  const GrayRows: int := 256

  /** The gray level of a pixel: twice its pass count, clamped to 255. */
  function GrayLevel(iters: int): (x: int)
    requires iters >= 0
    ensures 0 <= x <= 255
    ensures x == 255 <==> iters >= 128
    ensures x < 255 ==> x / 2 == iters && x % 2 == 0
  {
    var x := iters * 2;
    if x > 255 then 255 else x
  }

  /** Gray levels grow with the pass count. */
  lemma GrayMonotone(a: int, b: int)
    requires 0 <= a <= b
    ensures GrayLevel(a) <= GrayLevel(b)
  {
  }

  /** The row the table holds for gray level `x`: the level on all three channels. */
  function Gray(x: int): Rgb
  {
    Rgb(x, x, x)
  }

  /** `gray_scale[x]` with the declared 255 rows: row 255 is past the end, modelled as `None`. */
  function GrayLookupAsWritten(x: int): Option<Rgb>
  {
    if 0 <= x < GrayRowsAsWritten then Some(Gray(x)) else None
  }

  /** Rows the table-filling loop `i = 0 .. 255` writes. */
  const GrayFillRows: int := 256

  /**
    The table-filling loop run against a table declared with `rows` rows:
    row i receives level i while i < rows, and every later i is a write
    past the end, collected in `overrun`.
  */
  method FillGrayTable(rows: nat) returns (table: seq<Rgb>, overrun: seq<int>)
    ensures |table| == if rows < GrayFillRows then rows else GrayFillRows
    ensures forall x :: 0 <= x < |table| ==> table[x] == Gray(x)
    ensures forall i :: 0 <= i < GrayFillRows ==> (i in overrun <==> i >= rows)
    ensures forall k :: 0 <= k < |overrun| ==> rows <= overrun[k] < GrayFillRows
  {
    table, overrun := [], [];
    var i := 0;
    while i < GrayFillRows
      invariant 0 <= i <= GrayFillRows
      invariant |table| == if rows < i then rows else i
      invariant forall x :: 0 <= x < |table| ==> table[x] == Gray(x)
      invariant forall j :: 0 <= j < GrayFillRows ==> (j in overrun <==> rows <= j < i)
      invariant forall k :: 0 <= k < |overrun| ==> rows <= overrun[k] < i
    {
      if i < rows {
        table := table + [Gray(i)];
      } else {
        overrun := overrun + [i];
      }
      i := i + 1;
    }
  }

  /**
    Every pixel with 128 or more passes reads the missing row 255, and only
    those; the table-filling loop's last row is that same missing row, so
    it is written past the end on every run.
  */
  lemma GrayOverrunAsWritten(iters: int)
    requires iters >= 0
    ensures GrayLookupAsWritten(GrayLevel(iters)).None? <==> iters >= 128
    ensures GrayFillRows - 1 == GrayRowsAsWritten
    ensures forall i :: 0 <= i < GrayFillRows ==> (GrayLookupAsWritten(i).None? <==> i == GrayFillRows - 1)
  {
  }

  /** `gray_scale[x]` with 256 rows: every gray level has its row. */
  function GrayLookup(x: int): Option<Rgb>
  {
    if 0 <= x < GrayRows then Some(Gray(x)) else None
  }

  /** With the corrected table every pixel's gray row exists. */
  lemma GrayLookupTotal(iters: int)
    requires iters >= 0
    ensures GrayLookup(GrayLevel(iters)) == Some(Gray(GrayLevel(iters)))
  {
  }

  // ---------------------------------------------------------------------------
  // The 32-bit pixel count of the image loop
  // ---------------------------------------------------------------------------

  /** Two's-complement wrap-around of a mathematical integer to a signed 32-bit `int`. */
  function Wrap32(v: int): (r: int)
    ensures -0x8000_0000 <= r <= Int32Max
    ensures (v - r) % 0x1_0000_0000 == 0
    ensures -0x8000_0000 <= v <= Int32Max ==> r == v
  {
    WrapFacts(v + 0x8000_0000, 0x1_0000_0000);
    (v + 0x8000_0000) % 0x1_0000_0000 - 0x8000_0000
  }

  lemma WrapFacts(a: int, m: int)
    requires m > 0
    ensures (a - a % m) % m == 0
    ensures 0 <= a < m ==> a % m == a
  {
    DivModUnique(m * (a / m), m, a / m, 0);
    if 0 <= a < m {
      DivModUnique(a, m, 0, a);
    }
  }

  /** The image loop's bound as written: `l*l` evaluated in 32-bit `int`. */
  function RasterBoundAsWritten(l: int): (b: int)
    ensures b == l * l <==> l * l <= Int32Max
  {
    Wrap32(l * l)
  }

  /**
    With side 46341, which the 64-bit computation stage accepts, `l*l`
    wraps to a negative `int`, so the image loop writes no pixel at all.
  */
  lemma RasterBoundWrapsAsWritten()
    ensures ValidConfig(Config(7, 46341, 1))
    ensures 46341 * 46341 > Int32Max
    ensures RasterBoundAsWritten(46341) < 0
  {
    assert RasterBoundAsWritten(46341) == 46341 * 46341 - 0x1_0000_0000;
  }

  /** Under a valid configuration the pixel count is exact in 64 bits. */
  lemma PixelCountFits(c: Config)
    requires ValidConfig(c)
    ensures 0 <= c.side * c.side <= Int64Max
  {
    var n := c.side * c.side;
    if c.threads > 1 {
      MulMono(n, 1, c.threads);
    }
  }

  // ---------------------------------------------------------------------------
  // The two image writers
  // ---------------------------------------------------------------------------

  /**
    The threaded program's image loop, with the corrections: the index runs
    to side*side in 64 bits, the gray table has 256 rows and the degree is
    at most 9.  Pixel `i` becomes palette entry `root[i]` in the attractor
    image and gray level min(2*num_its[i], 255) in the convergence image.
  */
  method EncodeRaster(c: Config, px: seq<Pixel>) returns (attractors: seq<Rgb>, convergence: seq<Rgb>)
    requires ValidConfig(c) && c.degree <= MaxDegree
    requires |px| == c.side * c.side
    requires forall i :: 0 <= i < |px| ==> ValidPixel(c.degree, px[i])
    ensures |attractors| == |px| && |convergence| == |px|
    ensures forall i :: 0 <= i < |px| ==>
      ValidPixel(c.degree, px[i])
      && PaletteLookupAsWritten(px[i].root) == Some(attractors[i])
      && GrayLookup(GrayLevel(px[i].iters)) == Some(convergence[i])
  {
    PixelCountFits(c);
    var n := c.side * c.side;
    attractors, convergence := [], [];
    var i := 0;
    while i < n
      invariant 0 <= i <= n
      invariant |attractors| == i && |convergence| == i
      invariant forall k :: 0 <= k < i ==>
        PaletteLookupAsWritten(px[k].root) == Some(attractors[k])
        && GrayLookup(GrayLevel(px[k].iters)) == Some(convergence[k])
    {
      attractors := attractors + [Palette[px[i].root]];
      var x := px[i].iters * 2;
      x := if x > 255 then 255 else x;
      convergence := convergence + [Gray(x)];
      i := i + 1;
    }
  }

  /** The first `|file|` entries of the sequential program's file, in visiting order. */
  ghost predicate WrittenInVisitOrder(file: seq<Rgb>, l: int, root: seq<int>)
    requires l >= 1 && |root| == l * l
    requires forall k :: 0 <= k < |root| ==> 0 <= root[k] < |Palette|
  {
    |file| <= l * l && forall k :: 0 <= k < |file| ==> file[k] == Palette[root[Visit(l, k)]]
  }

  /** Entry i*l + j of the file reads grid index i + l*j. */
  lemma TransposedIndex(l: int, i: int, j: int)
    requires 0 <= i < l && 0 <= j < l
    ensures Flatten(l, j, i) == i * l + j
    ensures Visit(l, Flatten(l, j, i)) == Flatten(l, i, j)
  {
  }

  lemma WriteNext(file: seq<Rgb>, l: int, root: seq<int>, i: int, j: int)
    requires 0 <= i < l && 0 <= j < l && |root| == l * l
    requires forall k :: 0 <= k < |root| ==> 0 <= root[k] < |Palette|
    requires |file| == i * l + j && WrittenInVisitOrder(file, l, root)
    ensures WrittenInVisitOrder(file + [Palette[root[Flatten(l, i, j)]]], l, root)
  {
    TransposedIndex(l, i, j);
  }

  /**
    The sequential program's image loop: the outer index `i` and inner index
    `j` run over [0, l) and entry i*l + j of the file is the colour of grid
    index i + l*j.  Its degree is fixed at 7, so every root index has a
    palette entry.  The file is the transpose of the grid, and each grid
    index is written exactly once.
  */
  method EncodeTransposed(l: int, root: seq<int>) returns (file: seq<Rgb>)
    requires l >= 1 && l * l <= Int32Max && |root| == l * l
    requires forall k :: 0 <= k < |root| ==> 0 <= root[k] < |Palette|
    ensures |file| == l * l
    ensures forall k :: 0 <= k < l * l ==> file[k] == Palette[root[Visit(l, k)]]
    ensures forall i, j :: 0 <= i < l && 0 <= j < l ==> file[Flatten(l, j, i)] == Palette[root[Flatten(l, i, j)]]
  {
    file := [];
    var i := 0;
    while i < l
      invariant 0 <= i <= l
      invariant |file| == i * l
      invariant WrittenInVisitOrder(file, l, root)
    {
      var j := 0;
      while j < l
        invariant 0 <= j <= l
        invariant |file| == i * l + j
        invariant WrittenInVisitOrder(file, l, root)
      {
        WriteNext(file, l, root, i, j);
        file := file + [Palette[root[Flatten(l, i, j)]]];
        j := j + 1;
      }
      i := i + 1;
    }
    forall i, j | 0 <= i < l && 0 <= j < l
      ensures file[Flatten(l, j, i)] == Palette[root[Flatten(l, i, j)]]
    {
      TransposedIndex(l, i, j);
    }
  }
}
