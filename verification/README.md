# Newton fractal renderer, modelled in Dafny

This project models the core of a Newton fractal renderer for z^d - 1. It
samples a square grid of side `l` over [-2, 2) x [-2, 2). Each sample point
is run through the Newton–Raphson iteration until one of two things
happens:

- it comes within squared distance 1e-6 of one of the d roots of unity;
- it escapes (a component beyond 1e10 in absolute value) or collapses
  (squared modulus below 1e-6).

The renderer records, per pixel:

- `root`: the 1-based index of that root, or d+1 for a diverged pixel;
- `num_its`: the number of passes made.

It then writes an attractor image (palette colour by root index) and a
convergence image (gray level by pass count).

The repository has two programs:

- `newton.c` is threaded. It computes 1/d once, uses the closed-form step
  x·(1 - 1/d) + (1/d)·(x^(d-1))^-1, and splits the flattened pixel range
  statically among `-t` workers. It writes both images.
- `main.c` is sequential. It fixes d = 7 and l = 4000, fills the whole
  grid of samples first, uses the explicit step x + f(x)·(-1/f'(x)), and
  writes only the attractor image, in transposed order.

The integer-power and complex-arithmetic routines of `main.c` (lines
16-121) are the same text as `newton.c` lines 17-122. They are modelled
once, and every row below that cites those `newton.c` lines covers the
`main.c` copy too.

Complex numbers are pairs of `real`s, so every identity is exact:

- all four power routines equal the naive power;
- both Newton steps equal the textbook update x - f(x)/f'(x);
- hence, in the model, both programs classify every pixel identically;
  under IEEE doubles the two steps round differently, so pixels near basin
  boundaries may be classified differently.

The iteration loop of the source has no bound. The model gives it a `fuel`
bound, and exhausting the fuel is a separate outcome.

Modules, one file each:

- `Complex`: `Cpx` and its arithmetic.
- `Power`: the four power routines.
- `Newton`: the two steps and the reference update.
- `Classifier`: the per-pixel loop.
- `IntDiv` and `Partition`: the static work split.
- `Raster`: the grid, its flattening, raster stepping and visiting order, and the sample points.
- `Driver`: the two computation stages.
- `Output`: palette, gray table and the two image writers.

Facts about the code that the model keeps as written:

- Both programs record root index `degree+1` for a diverged pixel, and
  pass count `its+1` for every classified pixel.
- The diverged index d+1 is looked up in `cols` like any other index;
  there is no separate colour for it and no wrap-around of the palette.
- The closed-form step at `newton.c:143` uses (1/d)·(x^(d-1))^-1. The
  derivation comment at `newton.c:141` writes 1/((d-1)·x^(d-1)) instead;
  the model follows line 143.
- The sequential program's image is the transpose of the grid.

## Model

| member | source | states |
|---|---|---|
| Complex.Sub | newton.c:33-39 | subtraction undoes addition: (a - b) + b = a; and a - b is zero exactly when a = b |
| Complex.MagSq | newton.c:107-110 | the squared modulus is never negative |
| Complex.MagSqZero | newton.c:107-110 | the squared modulus is zero exactly at the origin |
| Complex.MagSqMul | newton.c:107-110 | the squared modulus of a product is the product of the squared moduli |
| Complex.MulAssoc | newton.c:17-23 | complex multiplication is associative |
| Complex.DivReal | newton.c:119-122 | dividing by a non-zero real (as a multiplication by its reciprocal) is undone by multiplying by it |
| Complex.Inv | newton.c:124-129 | the conjugate over the squared modulus is a right inverse: x · inv(x) = 1 for x ≠ 0 |
| Complex.InverseUnique | newton.c:124-129 | any value with x · y = 1 has x ≠ 0 and y = inv(x) |
| Complex.DistSq | newton.c:147-149 | the squared distance is non-negative and zero exactly for equal points |
| Complex.DistSqSymmetric | newton.c:147-149 | the squared distance does not depend on the order of its arguments |
| Power.PowAdd | newton.c:42-50 | the naive power adds exponents: x^(a+b) = x^a · x^b |
| Power.PowNonZero | newton.c:42-50 | a non-zero base has non-zero powers, and the inverse of x^n is (1/x)^n |
| Power.FastLoop | newton.c:55-61 | the square-and-multiply loop keeps ret · sq^p invariant, so it returns ret · sq^p |
| Power.PowFast | newton.c:52-64 | `cpx_pow_fast` equals the naive power for every p ≥ 0 |
| Power.SkipEven | newton.c:70-74 | stripping trailing zero bits leaves a positive odd exponent and the same power |
| Power.PowFast2 | newton.c:66-87 | `cpx_pow_fast_2` returns 1 for p = 0 and equals the naive power for every p |
| Power.PowFast2SkipsIdentity | newton.c:52-87 | `cpx_pow_fast` makes the same `cpx_mul` calls as `cpx_pow_fast_2`, in the same order, plus exactly one: 1+0i times the lowest set power x^(2^t); for p = 0 neither multiplies |
| Power.PowUnrolledCorrect | newton.c:89-105 | every case 0..8 of the unrolled switch, and its default, equals the naive power |
| Newton.InvDegree | newton.c:221 | the cached `inv_degree` times the degree is 1 |
| Newton.DFInverse | newton.c:143 | where the step is defined, f'(x) = d·x^(d-1) is invertible with inverse (1/d)·(x^(d-1))^-1 |
| Newton.ClosedIsNewton | newton.c:139-144 | x·(1 - 1/d) + (1/d)·(x^(d-1))^-1 equals the Newton update x - f(x)/f'(x) |
| Newton.NewtonClosed | newton.c:137-145 | the threaded program's step is the Newton update |
| Newton.NewtonExplicit | main.c:123-139 | the sequential program's step (f(x) = x_pow·x - 1, the negated-real-part quotient for -1/f'(x)) is the Newton update |
| Newton.StepsAgree | main.c:123-139 | the two programs' steps give the same point wherever defined |
| Newton.RootIsFixedPoint | newton.c:137-145 | every exact root of z^d - 1 is a fixed point of the step |
| Classifier.Abs | newton.c:185 | `fabs` returns a non-negative value equal to its argument or its negation |
| Classifier.Step | newton.c:190 | each program's step, chosen by variant, is the Newton update |
| Classifier.FirstNear | newton.c:175-183 | the root scan returns the first root in table order within tolerance, or the table size when none is |
| Classifier.ClassifySound | newton.c:173-191 | a classified pixel has root in 1..d+1 and pass count its+1 to its+1+fuel; a converged pixel names the first near root; a diverged pixel escaped or collapsed and is near no root |
| Classifier.ClassifyLoop | newton.c:173-191 | the per-pixel loop of either program (root scan with early exit, divergence test, step) computes the reference classification; `main.c:176-195` is the same loop |
| Classifier.FuelMonotone | newton.c:173 | a pixel classified within some number of steps keeps that classification with any larger bound |
| Classifier.ClassifyFirstStop | newton.c:173-191 | if the Newton orbit first stops after n steps, the pixel gets the verdict at that point and n+1 passes |
| Classifier.ClassifyNoStop | newton.c:173-191 | if the orbit does not stop within the bound, the loop does not finish within it |
| Classifier.OriginDiverges | newton.c:185-188 | with unit-modulus roots the origin is classified diverged on the first pass, without a step |
| Classifier.ConvergedOnFirstPass | newton.c:175-184 | a point within tolerance of root k and of no earlier root is classified as root k+1 on the current pass |
| Partition.StartMono | newton.c:164 | range starts never decrease with the worker index |
| Partition.Tiling | newton.c:164-166 | the ranges start at 0, end at l·l, each ends where the next starts, and none is inverted |
| Partition.RangeSize | newton.c:164-166 | every range holds ⌊N/T⌋ or ⌊N/T⌋+1 ≤ ⌈N/T⌉ pixels, exactly N/T when T divides N |
| Partition.OwnersDisjoint | newton.c:164-166 | no pixel lies in two workers' ranges |
| Partition.Owner | newton.c:164-166 | every pixel of [0, l·l) has exactly one owning worker |
| Raster.Flatten | main.c:170 | x + y·l lies in [0, l·l) and its remainder and quotient by l give back x and y |
| Raster.UnflattenRoundTrip | main.c:168-172 | every index is the flattening of its remainder and quotient, so flattening is a bijection |
| Raster.RasterStep | newton.c:193-196 | advancing px_x and wrapping it into px_y keeps (px_x, px_y) = (px % l, px / l) |
| Raster.Visit | main.c:204-206 | the index read at step i·l + j of the output loop nest lies in [0, l·l) |
| Raster.VisitInvolution | main.c:204-206 | the output loop's visiting order is its own inverse |
| Raster.VisitBijective | main.c:204-206 | the output loop reads every index exactly once |
| Raster.SampleInSquare | newton.c:171 | every sample lies in [-2, 2) x [-2, 2) |
| Raster.SampleInjective | newton.c:171 | distinct cells sample distinct points |
| Raster.CentreIsOrigin | newton.c:171 | on an even grid the centre cell samples exactly 0+0i |
| Driver.PartitionProductsFit | newton.c:164-166 | under a valid configuration every product l·l·i the partitioner forms fits in signed 64 bits |
| Driver.Worker | newton.c:161-199 | a worker fills its own range, in order, with each pixel's classification |
| Driver.RunThreaded | newton.c:238-246 | the joined result has l·l entries, each the classification of its pixel, whatever the thread count |
| Driver.FillGrid | main.c:168-172 | the grid fill stores at every index the sample of its cell |
| Driver.RunSequential | main.c:175-196 | the sequential stage produces at every index the same classification as the threaded stage |
| Output.PaletteDistinct | newton.c:248 | the 11 palette colours are pairwise distinct, so the attractor image determines root indices |
| Output.ClassifiedPixelValid | newton.c:178-187 | every classified pixel has root index 1..d+1 and at least one pass |
| Output.PaletteOverrunAsWritten | newton.c:264 | degree 10 on a 2x2 grid classifies pixel 3 (the origin) as root 11 and reads past `cols` |
| Output.PaletteCoversRoots | newton.c:248 | every possible root index has a palette entry exactly when the degree is at most 9 |
| Output.GrayLevel | newton.c:265-266 | the gray level lies in 0..255, is 255 exactly from 128 passes on, and is otherwise twice the pass count |
| Output.GrayMonotone | newton.c:265-266 | gray levels grow with the pass count |
| Output.FillGrayTable | newton.c:260-261 | the fill loop `i = 0 .. 255` stores level i in row i of every row the table has, and writes past the end exactly for the rows i ≥ the declared row count |
| Output.GrayOverrunAsWritten | newton.c:260-267 | a pixel reads the missing row 255 exactly when it took 128 or more passes; the fill loop's last row 255 is the only one of its rows missing from the declared table |
| Output.GrayLookupTotal | newton.c:265-267 | with the corrected table every pixel's gray row exists |
| Output.Wrap32 | newton.c:263 | 32-bit wrap-around lands in the signed range, differs by a multiple of 2^32, and is the identity on that range |
| Output.RasterBoundAsWritten | newton.c:263 | the 32-bit `l*l` equals the true pixel count exactly when it fits in `int` |
| Output.RasterBoundWrapsAsWritten | newton.c:263 | for l = 46341, which the workers accept, `l*l` wraps negative and the image loop writes nothing |
| Output.PixelCountFits | newton.c:263 | under a valid configuration l·l is exact in 64 bits |
| Output.EncodeRaster | newton.c:263-268 | pixel i becomes palette entry `root[i]` and gray row min(2·num_its[i], 255), in index order |
| Output.EncodeTransposed | main.c:204-209 | entry i·l + j of the file is the colour of grid index i + l·j, so the file is the transpose of the grid |

## Left out

- IEEE-754 rounding: components are exact reals. The tolerances 1e-6 and 1e10 are exact constants. The comparisons `<`, `>` and `fabs` are modelled exactly.
- The root table `cos(2πj/d), sin(2πj/d)` (`newton.c:229-231`, `main.c:163-165`): trigonometry is not modelled. The table is a parameter of length d. Lemmas that need it assume only that its entries have unit modulus.
- Termination of the iteration loop: a `fuel` bound replaces the unbounded `for(its = 0;; its++)`. Pixels that would need more steps are reported as `OutOfFuel`. Nothing is claimed about which starting points converge.
- pthreads: `pthread_create`/`pthread_join` are modelled as each worker returning its slice and the slices being joined in worker order. The partition lemmas show the slices are disjoint and tile the array, so scheduling cannot change the result.
- Command-line parsing (`getopt`, `atoi`), `malloc`, `sprintf`, `fopen`/`fwrite`/`fprintf` and the PPM header and text formatting: these are I/O. Colours are modelled as RGB triples and gray rows as the level on three channels.
- `print_cpx` (`newton.c:131-133`, `main.c:141-143`): printing only.
- Power routines with a negative exponent: the model's exponents are natural numbers. The degree comes from `atoi` at `newton.c:220` unchecked; with degree ≤ 0 the step calls `cpx_pow_unrolled(x, degree-1)` with a negative p, which falls through to `cpx_pow_fast_2`, where `p >>= 1` keeps -1 at -1 and the loop never ends.
- Driver.ValidConfig: requires degree ≥ 1, side ≥ 1, threads ≥ 1 and l·l·threads ≤ 2^63-1; the source checks none of these. Degree ≤ 0 makes the power loop run forever (above). Side 0 divides by zero in `px_start % l` at `newton.c:168`. Threads 0 starts no worker, so the image loop at `newton.c:264` reads `root[]` that nothing wrote. The product bound keeps the 64-bit partition products of `newton.c:164-166` from overflowing. The model describes only runs that satisfy all four.
- Driver.RunSequential: takes the degree and side as parameters instead of the constants 7 and 4000, and requires l·l to fit in 32 bits because its indices are `int`. It also leaves the grid `xs` unchanged, whereas `main.c:194` writes each Newton iterate back into `xs[px]`; nothing reads `xs` after the loop, so no output depends on it.
- Output.GrayLevel: does not wrap `num_its*2` at 32 bits. Within any fuel bound reachable in practice the count stays far below 2^30.
- Output.EncodeRaster: requires degree ≤ 9 and uses the 256-row gray table and a 64-bit loop bound. These are the corrected behaviour; the as-written behaviour is modelled separately below.

## Findings

| source | as written | input that shows it | evidently intended | confidence | as-written member | corrected member |
|---|---|---|---|---|---|---|
| newton.c:260-267 | `char gray_scale[255][20]` is filled for i < 256 and indexed by min(2·num_its, 255) | every run writes row 255; any pixel taking 128 or more passes reads it | a table of 256 rows | not executed; high | Output.GrayOverrunAsWritten | Output.GrayLookupTotal |
| newton.c:264 | `cols` has 11 entries but is indexed by root indices up to degree+1 | degree 10, `-l 2`: pixel 3 samples 0+0i, is classified 11 and reads `cols[11]` | degree at most 9, or a longer palette | not executed; high | Output.PaletteOverrunAsWritten | Output.PaletteCoversRoots |
| newton.c:263 | the image loop bound `l*l` is computed in 32-bit `int` while the workers use 64 bits | `-l 46341`: l·l = 2147488281 overflows `int`; wrapped, the bound is negative and no pixel is written | a 64-bit bound, as in the workers | not executed; medium (signed overflow is undefined; the wrap-around is the common outcome) | Output.RasterBoundWrapsAsWritten | Output.EncodeRaster |
