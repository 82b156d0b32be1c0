/** The convolution filters of src/utils/filter.ts. Each filter snapshots
    the buffer, then overwrites the RGB samples of every interior pixel (one
    pixel away from each border) in place with the kernel-weighted sum of the
    snapshot's 3x3 neighbourhood anchored one pixel up and left. The average
    and Gaussian filters divide the sum by the sum of all kernel entries;
    the sharpen filter stores the raw sum. Alpha and border pixels are never
    written. Kernel weights are JavaScript numbers, which the user interface
    lets the user edit to any value, so they are reals here. */
module Filter {
  import opened Pixels

  const DefaultAverageKernel: seq<seq<real>> := [[1.0, 1.0, 1.0], [1.0, 1.0, 1.0], [1.0, 1.0, 1.0]]
  const DefaultGaussianKernel: seq<seq<real>> := [[1.0, 2.0, 1.0], [2.0, 4.0, 2.0], [1.0, 2.0, 1.0]]
  const DefaultSharpenKernel: seq<seq<real>> := [[0.0, -1.0, 0.0], [-1.0, 5.0, -1.0], [0.0, -1.0, 0.0]]

  /** How a filter turns a weighted sum into the value it stores. */
  datatype Normalisation = DivideBySum | RawSum

  /** The kernels the filters can read without leaving the image: at most
      3 rows (the window is anchored one pixel up and left of the target),
      each row at least as long as the number of rows. */
  predicate FilterKernel(k: seq<seq<real>>)
  {
    |k| <= 3 && forall r :: 0 <= r < |k| ==> |k[r]| >= |k|
  }

  function RowSum(s: seq<real>): real
  {
    if |s| == 0 then 0.0 else RowSum(s[..|s| - 1]) + s[|s| - 1]
  }

  /** Sum of every entry of the kernel, row after row (`kernel.flat()`
      reduced with `+`). */
  function KernelSum(k: seq<seq<real>>): real
  {
    if |k| == 0 then 0.0 else KernelSum(k[..|k| - 1]) + RowSum(k[|k| - 1])
  }

  /** The pixel is interior: the filters write it. */
  predicate Interior(w: nat, h: nat, y: nat, x: nat)
  {
    1 <= y && y + 1 < h && 1 <= x && x + 1 < w
  }

  /** A sample times a kernel weight. */
  function Weigh(b: Byte, weight: real): real
  {
    b as real * weight
  }

  /** Weighted sum of channel c over the kernel cells before (ky, kx) in
      row-major order, the window of pixel (y, x) starting at (y - 1, x - 1). */
  function SumTaps(img: seq<Byte>, w: nat, h: nat, k: seq<seq<real>>, y: nat, x: nat, c: nat,
                   ky: nat, kx: nat): real
    requires |img| == w * h * 4 && FilterKernel(k) && Interior(w, h, y, x) && c < 4
    requires ky <= |k| && kx <= |k| && (ky == |k| ==> kx == 0)
    decreases ky, kx
  {
    if kx == 0 then
      (if ky == 0 then 0.0 else SumTaps(img, w, h, k, y, x, c, ky - 1, |k|))
    else
      var ty, tx := y + ky - 1, x + (kx - 1) - 1;
      IdxBound(w, h, ty, tx, c);
      SumTaps(img, w, h, k, y, x, c, ky, kx - 1) + Weigh(img[Idx(w, ty, tx, c)], k[ky][kx - 1])
  }

  function WindowSum(img: seq<Byte>, w: nat, h: nat, k: seq<seq<real>>, y: nat, x: nat, c: nat): real
    requires |img| == w * h * 4 && FilterKernel(k) && Interior(w, h, y, x) && c < 4
  {
    SumTaps(img, w, h, k, y, x, c, |k|, 0)
  }

  /** What the store into the clamped buffer makes of a weighted sum:
      clamped and rounded half to even. A division by a zero kernel sum
      gives +Infinity (stored 255) for a positive sum and -Infinity or NaN
      (stored 0) otherwise. */
  function Store(norm: Normalisation, kernelSum: real, s: real): Byte
  {
    match norm
    case RawSum => ClampRound(s)
    case DivideBySum =>
      if kernelSum == 0.0 then (if s > 0.0 then 255 else 0)
      else ClampRound(s / kernelSum)
  }

  function FilteredSample(norm: Normalisation, img: seq<Byte>, w: nat, h: nat, k: seq<seq<real>>, i: nat): Byte
    requires |img| == w * h * 4 && FilterKernel(k) && i < |img|
  {
    DecodeBound(i, w, h);
    var y, x, c := Row(i, w), Col(i, w), Chan(i);
    if Interior(w, h, y, x) && c < 3 then Store(norm, KernelSum(k), WindowSum(img, w, h, k, y, x, c))
    else img[i]
  }

  /** The buffer after one filter pass over the snapshot img. */
  function Filtered(norm: Normalisation, img: seq<Byte>, w: nat, h: nat, k: seq<seq<real>>): seq<Byte>
    requires |img| == w * h * 4 && FilterKernel(k)
  {
    seq(|img|, i requires 0 <= i < |img| => FilteredSample(norm, img, w, h, k, i))
  }

  lemma FilteredAt(norm: Normalisation, img: seq<Byte>, w: nat, h: nat, k: seq<seq<real>>, y: nat, x: nat, c: nat)
    requires |img| == w * h * 4 && FilterKernel(k) && y < h && x < w && c < 4
    ensures Idx(w, y, x, c) < |img|
    ensures Filtered(norm, img, w, h, k)[Idx(w, y, x, c)] ==
      if Interior(w, h, y, x) && c < 3 then Store(norm, KernelSum(k), WindowSum(img, w, h, k, y, x, c))
      else img[Idx(w, y, x, c)]
  {
    IdxBound(w, h, y, x, c);
    IdxDecode(w, y, x, c);
  }

  // ---------------------------------------------------------------------
  // Properties of one pass.

  /** Only RGB samples of interior pixels can change. */
  lemma FilterKeepsBorderAndAlpha(norm: Normalisation, img: seq<Byte>, w: nat, h: nat, k: seq<seq<real>>, i: nat)
    requires |img| == w * h * 4 && FilterKernel(k) && i < |img|
    ensures w > 0 && |Filtered(norm, img, w, h, k)| == |img|
    ensures Filtered(norm, img, w, h, k)[i] != img[i] ==> Interior(w, h, Row(i, w), Col(i, w)) && i % 4 < 3
  {
    DecodeBound(i, w, h);
  }

  /** Sample c of the pixel dy rows and dx columns away from the top-left
      corner of the window of the interior pixel (y, x). */
  function At(img: seq<Byte>, w: nat, h: nat, y: nat, x: nat, c: nat, dy: nat, dx: nat): Byte
    requires |img| == w * h * 4 && Interior(w, h, y, x) && c < 4 && dy < 3 && dx < 3
  {
    IdxBound(w, h, y + dy - 1, x + dx - 1, c);
    img[Idx(w, y + dy - 1, x + dx - 1, c)]
  }

  /** For a 3x3 kernel the window sum is the nine weighted neighbours. */
  lemma WindowSum3x3(img: seq<Byte>, w: nat, h: nat, k: seq<seq<real>>, y: nat, x: nat, c: nat)
    requires |img| == w * h * 4 && FilterKernel(k) && |k| == 3 && Interior(w, h, y, x) && c < 4
    ensures WindowSum(img, w, h, k, y, x, c) ==
      Weigh(At(img, w, h, y, x, c, 0, 0), k[0][0]) + Weigh(At(img, w, h, y, x, c, 0, 1), k[0][1]) + Weigh(At(img, w, h, y, x, c, 0, 2), k[0][2]) +
      Weigh(At(img, w, h, y, x, c, 1, 0), k[1][0]) + Weigh(At(img, w, h, y, x, c, 1, 1), k[1][1]) + Weigh(At(img, w, h, y, x, c, 1, 2), k[1][2]) +
      Weigh(At(img, w, h, y, x, c, 2, 0), k[2][0]) + Weigh(At(img, w, h, y, x, c, 2, 1), k[2][1]) + Weigh(At(img, w, h, y, x, c, 2, 2), k[2][2])
  {
    assert SumTaps(img, w, h, k, y, x, c, 0, 3) ==
      Weigh(At(img, w, h, y, x, c, 0, 0), k[0][0]) + Weigh(At(img, w, h, y, x, c, 0, 1), k[0][1]) + Weigh(At(img, w, h, y, x, c, 0, 2), k[0][2]);
    assert SumTaps(img, w, h, k, y, x, c, 1, 3) == SumTaps(img, w, h, k, y, x, c, 0, 3) +
      Weigh(At(img, w, h, y, x, c, 1, 0), k[1][0]) + Weigh(At(img, w, h, y, x, c, 1, 1), k[1][1]) + Weigh(At(img, w, h, y, x, c, 1, 2), k[1][2]);
    assert SumTaps(img, w, h, k, y, x, c, 2, 3) == SumTaps(img, w, h, k, y, x, c, 1, 3) +
      Weigh(At(img, w, h, y, x, c, 2, 0), k[2][0]) + Weigh(At(img, w, h, y, x, c, 2, 1), k[2][1]) + Weigh(At(img, w, h, y, x, c, 2, 2), k[2][2]);
  }

  lemma RowSum3(r: seq<real>)
    requires |r| == 3
    ensures RowSum(r) == r[0] + r[1] + r[2]
  {
    assert r[..1][..0] == [];
    assert RowSum(r[..1]) == r[0];
    assert r[..2][..1] == r[..1];
    assert RowSum(r[..2]) == r[0] + r[1];
    assert r[..3] == r;
  }

  lemma KernelSum3x3(k: seq<seq<real>>)
    requires |k| == 3 && |k[0]| == 3 && |k[1]| == 3 && |k[2]| == 3
    ensures KernelSum(k) == k[0][0] + k[0][1] + k[0][2] + k[1][0] + k[1][1] + k[1][2] + k[2][0] + k[2][1] + k[2][2]
  {
    RowSum3(k[0]);
    RowSum3(k[1]);
    RowSum3(k[2]);
    assert k[..2][..1] == k[..1];
    assert k[..1][..0] == [];
    assert KernelSum(k[..1]) == RowSum(k[0]);
    assert KernelSum(k[..2]) == RowSum(k[0]) + RowSum(k[1]);
  }

  lemma DefaultKernels()
    ensures FilterKernel(DefaultAverageKernel) && KernelSum(DefaultAverageKernel) == 9.0
    ensures FilterKernel(DefaultGaussianKernel) && KernelSum(DefaultGaussianKernel) == 16.0
    ensures FilterKernel(DefaultSharpenKernel) && KernelSum(DefaultSharpenKernel) == 1.0
  {
    KernelSum3x3(DefaultAverageKernel);
    KernelSum3x3(DefaultGaussianKernel);
    KernelSum3x3(DefaultSharpenKernel);
  }

  lemma AverageWindow(img: seq<Byte>, w: nat, h: nat, y: nat, x: nat, c: nat)
    requires |img| == w * h * 4 && Interior(w, h, y, x) && c < 3
    ensures FilterKernel(DefaultAverageKernel)
    ensures WindowSum(img, w, h, DefaultAverageKernel, y, x, c) ==
      (At(img, w, h, y, x, c, 0, 0) + At(img, w, h, y, x, c, 0, 1) + At(img, w, h, y, x, c, 0, 2) +
       At(img, w, h, y, x, c, 1, 0) + At(img, w, h, y, x, c, 1, 1) + At(img, w, h, y, x, c, 1, 2) +
       At(img, w, h, y, x, c, 2, 0) + At(img, w, h, y, x, c, 2, 1) + At(img, w, h, y, x, c, 2, 2)) as real
  {
    var k := DefaultAverageKernel;
    assert FilterKernel(k);
    WindowSum3x3(img, w, h, k, y, x, c);
    assert k[0][0] == 1.0 && k[0][1] == 1.0 && k[0][2] == 1.0;
    assert k[1][0] == 1.0 && k[1][1] == 1.0 && k[1][2] == 1.0;
    assert k[2][0] == 1.0 && k[2][1] == 1.0 && k[2][2] == 1.0;
  }

  /** The default average filter stores the rounded mean of the 3x3
      neighbourhood. */
  lemma AverageDefaultStores(img: seq<Byte>, w: nat, h: nat, y: nat, x: nat, c: nat)
    requires |img| == w * h * 4 && Interior(w, h, y, x) && c < 3
    ensures FilterKernel(DefaultAverageKernel) && Idx(w, y, x, c) < |img|
    ensures Filtered(DivideBySum, img, w, h, DefaultAverageKernel)[Idx(w, y, x, c)] ==
      ClampRound((At(img, w, h, y, x, c, 0, 0) + At(img, w, h, y, x, c, 0, 1) + At(img, w, h, y, x, c, 0, 2) +
                  At(img, w, h, y, x, c, 1, 0) + At(img, w, h, y, x, c, 1, 1) + At(img, w, h, y, x, c, 1, 2) +
                  At(img, w, h, y, x, c, 2, 0) + At(img, w, h, y, x, c, 2, 1) + At(img, w, h, y, x, c, 2, 2)) as real / 9.0)
  {
    DefaultKernels();
    AverageWindow(img, w, h, y, x, c);
    FilteredAt(DivideBySum, img, w, h, DefaultAverageKernel, y, x, c);
  }

  lemma GaussianWindow(img: seq<Byte>, w: nat, h: nat, y: nat, x: nat, c: nat)
    requires |img| == w * h * 4 && Interior(w, h, y, x) && c < 3
    ensures FilterKernel(DefaultGaussianKernel)
    ensures WindowSum(img, w, h, DefaultGaussianKernel, y, x, c) ==
      (At(img, w, h, y, x, c, 0, 0) + 2 * At(img, w, h, y, x, c, 0, 1) + At(img, w, h, y, x, c, 0, 2) +
       2 * At(img, w, h, y, x, c, 1, 0) + 4 * At(img, w, h, y, x, c, 1, 1) + 2 * At(img, w, h, y, x, c, 1, 2) +
       At(img, w, h, y, x, c, 2, 0) + 2 * At(img, w, h, y, x, c, 2, 1) + At(img, w, h, y, x, c, 2, 2)) as real
  {
    var k := DefaultGaussianKernel;
    assert FilterKernel(k);
    WindowSum3x3(img, w, h, k, y, x, c);
    assert k[0][0] == 1.0 && k[0][1] == 2.0 && k[0][2] == 1.0;
    assert k[1][0] == 2.0 && k[1][1] == 4.0 && k[1][2] == 2.0;
    assert k[2][0] == 1.0 && k[2][1] == 2.0 && k[2][2] == 1.0;
  }

  /** The default Gaussian filter stores the rounded 1-2-1 weighted mean. */
  lemma GaussianDefaultStores(img: seq<Byte>, w: nat, h: nat, y: nat, x: nat, c: nat)
    requires |img| == w * h * 4 && Interior(w, h, y, x) && c < 3
    ensures FilterKernel(DefaultGaussianKernel) && Idx(w, y, x, c) < |img|
    ensures Filtered(DivideBySum, img, w, h, DefaultGaussianKernel)[Idx(w, y, x, c)] ==
      ClampRound((At(img, w, h, y, x, c, 0, 0) + 2 * At(img, w, h, y, x, c, 0, 1) + At(img, w, h, y, x, c, 0, 2) +
                  2 * At(img, w, h, y, x, c, 1, 0) + 4 * At(img, w, h, y, x, c, 1, 1) + 2 * At(img, w, h, y, x, c, 1, 2) +
                  At(img, w, h, y, x, c, 2, 0) + 2 * At(img, w, h, y, x, c, 2, 1) + At(img, w, h, y, x, c, 2, 2)) as real / 16.0)
  {
    DefaultKernels();
    GaussianWindow(img, w, h, y, x, c);
    FilteredAt(DivideBySum, img, w, h, DefaultGaussianKernel, y, x, c);
  }

  lemma SharpenWindow(img: seq<Byte>, w: nat, h: nat, y: nat, x: nat, c: nat)
    requires |img| == w * h * 4 && Interior(w, h, y, x) && c < 3
    ensures FilterKernel(DefaultSharpenKernel)
    ensures WindowSum(img, w, h, DefaultSharpenKernel, y, x, c) ==
      (5 * At(img, w, h, y, x, c, 1, 1) - At(img, w, h, y, x, c, 0, 1) - At(img, w, h, y, x, c, 1, 0)
       - At(img, w, h, y, x, c, 1, 2) - At(img, w, h, y, x, c, 2, 1)) as real
  {
    var k := DefaultSharpenKernel;
    assert FilterKernel(k);
    WindowSum3x3(img, w, h, k, y, x, c);
    assert k[0][0] == 0.0 && k[0][1] == -1.0 && k[0][2] == 0.0;
    assert k[1][0] == -1.0 && k[1][1] == 5.0 && k[1][2] == -1.0;
    assert k[2][0] == 0.0 && k[2][1] == -1.0 && k[2][2] == 0.0;
  }

  /** The default sharpen filter stores the clamped five-point Laplacian
      sharpening of the sample, with no division. */
  lemma SharpenDefaultStores(img: seq<Byte>, w: nat, h: nat, y: nat, x: nat, c: nat)
    requires |img| == w * h * 4 && Interior(w, h, y, x) && c < 3
    ensures FilterKernel(DefaultSharpenKernel) && Idx(w, y, x, c) < |img|
    ensures Filtered(RawSum, img, w, h, DefaultSharpenKernel)[Idx(w, y, x, c)] ==
      ClampRound((5 * At(img, w, h, y, x, c, 1, 1) - At(img, w, h, y, x, c, 0, 1) - At(img, w, h, y, x, c, 1, 0)
                  - At(img, w, h, y, x, c, 1, 2) - At(img, w, h, y, x, c, 2, 1)) as real)
  {
    SharpenWindow(img, w, h, y, x, c);
    FilteredAt(RawSum, img, w, h, DefaultSharpenKernel, y, x, c);
  }

  /** Sum of the weights the pass reads (the leading square of the kernel),
      in the order SumTaps visits them. */
  function SquareSum(k: seq<seq<real>>, ky: nat, kx: nat): real
    requires FilterKernel(k) && ky <= |k| && kx <= |k| && (ky == |k| ==> kx == 0)
    decreases ky, kx
  {
    if kx == 0 then (if ky == 0 then 0.0 else SquareSum(k, ky - 1, |k|))
    else SquareSum(k, ky, kx - 1) + k[ky][kx - 1]
  }

  predicate SquareKernel(k: seq<seq<real>>)
  {
    |k| <= 3 && forall r :: 0 <= r < |k| ==> |k[r]| == |k|
  }

  lemma {:induction false} SquareSumRows(k: seq<seq<real>>, ky: nat, kx: nat)
    requires SquareKernel(k) && ky <= |k| && kx <= |k| && (ky == |k| ==> kx == 0)
    ensures SquareSum(k, ky, kx) == KernelSum(k[..ky]) + (if ky < |k| then RowSum(k[ky][..kx]) else 0.0)
    decreases ky, kx
  {
    if kx == 0 {
      if ky > 0 {
        SquareSumRows(k, ky - 1, |k|);
        assert k[ky - 1][..|k|] == k[ky - 1];
        assert k[..ky][..ky - 1] == k[..ky - 1];
      }
    } else {
      SquareSumRows(k, ky, kx - 1);
      assert k[ky][..kx][..kx - 1] == k[ky][..kx - 1];
    }
  }

  /** A channel that is constant over the image. */
  predicate UniformChannel(img: seq<Byte>, c: nat, v: Byte)
  {
    forall j :: 0 <= j < |img| && j % 4 == c ==> img[j] == v
  }

  /** One step of the window sum: cell (ky, kx) reads sample c of the pixel
      whose samples start at Idx(w, ty, tx, 0). */
  lemma SumTapsStep(img: seq<Byte>, w: nat, h: nat, k: seq<seq<real>>, y: nat, x: nat, c: nat,
                    ky: nat, kx: nat)
    requires |img| == w * h * 4 && FilterKernel(k) && Interior(w, h, y, x) && c < 4
    requires ky < |k| && kx < |k|
    ensures var ty, tx := y + ky - 1, x + kx - 1;
      0 <= ty < h && 0 <= tx < w && Idx(w, ty, tx, 0) + c == Idx(w, ty, tx, c) < |img| &&
      Idx(w, ty, tx, c) % 4 == c &&
      SumTaps(img, w, h, k, y, x, c, ky, kx + 1) ==
        SumTaps(img, w, h, k, y, x, c, ky, kx) + Weigh(img[Idx(w, ty, tx, c)], k[ky][kx])
  {
    var ty, tx := y + ky - 1, x + kx - 1;
    IdxBound(w, h, ty, tx, c);
    IdxDecode(w, ty, tx, c);
  }

  lemma {:induction false} UniformSumTaps(img: seq<Byte>, w: nat, h: nat, k: seq<seq<real>>, y: nat, x: nat,
                                          c: nat, v: Byte, ky: nat, kx: nat)
    requires |img| == w * h * 4 && FilterKernel(k) && Interior(w, h, y, x) && c < 4
    requires ky <= |k| && kx <= |k| && (ky == |k| ==> kx == 0) && UniformChannel(img, c, v)
    ensures SumTaps(img, w, h, k, y, x, c, ky, kx) == Weigh(v, SquareSum(k, ky, kx))
    decreases ky, kx
  {
    if kx == 0 {
      if ky > 0 {
        UniformSumTaps(img, w, h, k, y, x, c, v, ky - 1, |k|);
      } else {
        WeighZero(v);
      }
    } else {
      UniformSumTaps(img, w, h, k, y, x, c, v, ky, kx - 1);
      UniformStep(img, w, h, k, y, x, c, v, ky, kx - 1);
    }
  }

  /** A step of the window sum over a constant channel adds v times the weight. */
  lemma UniformStep(img: seq<Byte>, w: nat, h: nat, k: seq<seq<real>>, y: nat, x: nat,
                    c: nat, v: Byte, ky: nat, kx: nat)
    requires |img| == w * h * 4 && FilterKernel(k) && Interior(w, h, y, x) && c < 4
    requires ky < |k| && kx < |k| && UniformChannel(img, c, v)
    requires SumTaps(img, w, h, k, y, x, c, ky, kx) == Weigh(v, SquareSum(k, ky, kx))
    ensures SumTaps(img, w, h, k, y, x, c, ky, kx + 1) == Weigh(v, SquareSum(k, ky, kx + 1))
  {
    SumTapsStep(img, w, h, k, y, x, c, ky, kx);
    var weight := k[ky][kx];
    assert SquareSum(k, ky, kx + 1) == SquareSum(k, ky, kx) + weight;
    Distribute(v, SquareSum(k, ky, kx), weight);
  }

  lemma WeighZero(v: Byte)
    ensures Weigh(v, 0.0) == 0.0
  {}

  lemma Distribute(v: Byte, a: real, b: real)
    ensures Weigh(v, a + b) == Weigh(v, a) + Weigh(v, b)
  {}

  lemma ExactQuotient(v: Byte, s: real)
    requires s != 0.0
    ensures Weigh(v, s) / s == v as real && Weigh(v, 1.0) == v as real
  {}

  /** The store of the window sum of a channel that is constant v. */
  lemma UniformStore(norm: Normalisation, img: seq<Byte>, w: nat, h: nat, k: seq<seq<real>>,
                     y: nat, x: nat, c: nat, v: Byte)
    requires |img| == w * h * 4 && SquareKernel(k) && Interior(w, h, y, x) && c < 4
    requires UniformChannel(img, c, v)
    requires if norm == DivideBySum then KernelSum(k) != 0.0 else KernelSum(k) == 1.0
    ensures FilterKernel(k) && Store(norm, KernelSum(k), WindowSum(img, w, h, k, y, x, c)) == v
  {
    SquareSumRows(k, |k|, 0);
    assert k[..|k|] == k;
    var s := KernelSum(k);
    UniformSumTaps(img, w, h, k, y, x, c, v, |k|, 0);
    assert WindowSum(img, w, h, k, y, x, c) == Weigh(v, s);
    ExactQuotient(v, s);
    ClampRoundOfInt(v as int);
  }

  /** An image whose RGB channels are each constant is left unchanged by an
      average or Gaussian pass with a square kernel of non-zero sum, and by a
      sharpen pass with a square kernel summing to 1 (as the defaults do). */
  lemma ConstantImageFixed(norm: Normalisation, img: seq<Byte>, w: nat, h: nat, k: seq<seq<real>>,
                           v0: Byte, v1: Byte, v2: Byte)
    requires |img| == w * h * 4 && SquareKernel(k)
    requires UniformChannel(img, 0, v0) && UniformChannel(img, 1, v1) && UniformChannel(img, 2, v2)
    requires if norm == DivideBySum then KernelSum(k) != 0.0 else KernelSum(k) == 1.0
    ensures FilterKernel(k) && Filtered(norm, img, w, h, k) == img
  {
    forall i | 0 <= i < |img|
      ensures Filtered(norm, img, w, h, k)[i] == img[i]
    {
      DecodeBound(i, w, h);
      var y, x, c := Row(i, w), Col(i, w), Chan(i);
      if Interior(w, h, y, x) && c < 3 {
        if c == 0 {
          UniformStore(norm, img, w, h, k, y, x, c, v0);
        } else if c == 1 {
          UniformStore(norm, img, w, h, k, y, x, c, v1);
        } else {
          UniformStore(norm, img, w, h, k, y, x, c, v2);
        }
      }
    }
  }

  // ---------------------------------------------------------------------
  // The filters as the source runs them.

  /** One step of the three RGB window sums at cell (ky, kx). */
  lemma RgbTapsStep(img: seq<Byte>, w: nat, h: nat, k: seq<seq<real>>, y: nat, x: nat, ky: nat, kx: nat)
    requires |img| == w * h * 4 && FilterKernel(k) && Interior(w, h, y, x)
    requires ky < |k| && kx < |k|
    ensures var p, weight := Idx(w, y + ky - 1, x + kx - 1, 0), k[ky][kx];
      p + 2 < |img| &&
      SumTaps(img, w, h, k, y, x, 0, ky, kx + 1) == SumTaps(img, w, h, k, y, x, 0, ky, kx) + Weigh(img[p], weight) &&
      SumTaps(img, w, h, k, y, x, 1, ky, kx + 1) == SumTaps(img, w, h, k, y, x, 1, ky, kx) + Weigh(img[p + 1], weight) &&
      SumTaps(img, w, h, k, y, x, 2, ky, kx + 1) == SumTaps(img, w, h, k, y, x, 2, ky, kx) + Weigh(img[p + 2], weight)
  {
    SumTapsStep(img, w, h, k, y, x, 0, ky, kx);
    SumTapsStep(img, w, h, k, y, x, 1, ky, kx);
    SumTapsStep(img, w, h, k, y, x, 2, ky, kx);
  }

  /** The kernel loops of one interior pixel: the three channel sums. */
  method WeightedSums(tempData: seq<Byte>, width: nat, height: nat, kernel: seq<seq<real>>, y: nat, x: nat)
    returns (r: real, g: real, b: real)
    requires |tempData| == width * height * 4 && FilterKernel(kernel) && Interior(width, height, y, x)
    ensures r == WindowSum(tempData, width, height, kernel, y, x, 0)
    ensures g == WindowSum(tempData, width, height, kernel, y, x, 1)
    ensures b == WindowSum(tempData, width, height, kernel, y, x, 2)
  {
    var kernelSize := |kernel|;
    r, g, b := 0.0, 0.0, 0.0;
    for ky := 0 to kernelSize
      invariant r == SumTaps(tempData, width, height, kernel, y, x, 0, ky, 0)
      invariant g == SumTaps(tempData, width, height, kernel, y, x, 1, ky, 0)
      invariant b == SumTaps(tempData, width, height, kernel, y, x, 2, ky, 0)
    {
      r, g, b := KernelRowSums(tempData, width, height, kernel, y, x, ky, r, g, b);
    }
  }

  /** The kx loop of kernel row ky, adding that row's taps to the sums. */
  method KernelRowSums(tempData: seq<Byte>, width: nat, height: nat, kernel: seq<seq<real>>, y: nat, x: nat,
                       ky: nat, r0: real, g0: real, b0: real) returns (r: real, g: real, b: real)
    requires |tempData| == width * height * 4 && FilterKernel(kernel) && Interior(width, height, y, x)
    requires ky < |kernel|
    requires r0 == SumTaps(tempData, width, height, kernel, y, x, 0, ky, 0)
    requires g0 == SumTaps(tempData, width, height, kernel, y, x, 1, ky, 0)
    requires b0 == SumTaps(tempData, width, height, kernel, y, x, 2, ky, 0)
    ensures r == SumTaps(tempData, width, height, kernel, y, x, 0, ky + 1, 0)
    ensures g == SumTaps(tempData, width, height, kernel, y, x, 1, ky + 1, 0)
    ensures b == SumTaps(tempData, width, height, kernel, y, x, 2, ky + 1, 0)
  {
    var kernelSize := |kernel|;
    r, g, b := r0, g0, b0;
    for kx := 0 to kernelSize
      invariant r == SumTaps(tempData, width, height, kernel, y, x, 0, ky, kx)
      invariant g == SumTaps(tempData, width, height, kernel, y, x, 1, ky, kx)
      invariant b == SumTaps(tempData, width, height, kernel, y, x, 2, ky, kx)
    {
      r, g, b := AddTaps(tempData, width, height, kernel, y, x, ky, kx, r, g, b);
    }
  }

  /** The body of the kx loop: cell (ky, kx) adds its weighted RGB samples. */
  method AddTaps(tempData: seq<Byte>, width: nat, height: nat, kernel: seq<seq<real>>, y: nat, x: nat,
                 ky: nat, kx: nat, r0: real, g0: real, b0: real) returns (r: real, g: real, b: real)
    requires |tempData| == width * height * 4 && FilterKernel(kernel) && Interior(width, height, y, x)
    requires ky < |kernel| && kx < |kernel|
    requires r0 == SumTaps(tempData, width, height, kernel, y, x, 0, ky, kx)
    requires g0 == SumTaps(tempData, width, height, kernel, y, x, 1, ky, kx)
    requires b0 == SumTaps(tempData, width, height, kernel, y, x, 2, ky, kx)
    ensures r == SumTaps(tempData, width, height, kernel, y, x, 0, ky, kx + 1)
    ensures g == SumTaps(tempData, width, height, kernel, y, x, 1, ky, kx + 1)
    ensures b == SumTaps(tempData, width, height, kernel, y, x, 2, ky, kx + 1)
  {
    var pixelIndex := ((y + ky - 1) * width + (x + kx - 1)) * 4;
    assert pixelIndex == Idx(width, y + ky - 1, x + kx - 1, 0);
    IdxBound(width, height, y + ky - 1, x + kx - 1, 3);
    var weight := kernel[ky][kx];
    r := r0 + Weigh(tempData[pixelIndex], weight);
    g := g0 + Weigh(tempData[pixelIndex + 1], weight);
    b := b0 + Weigh(tempData[pixelIndex + 2], weight);
    TapsAdded(tempData, width, height, kernel, y, x, ky, kx, pixelIndex, r0, g0, b0, r, g, b);
  }

  lemma TapsAdded(img: seq<Byte>, w: nat, h: nat, k: seq<seq<real>>, y: nat, x: nat, ky: nat, kx: nat,
                  p: nat, r0: real, g0: real, b0: real, r: real, g: real, b: real)
    requires |img| == w * h * 4 && FilterKernel(k) && Interior(w, h, y, x) && ky < |k| && kx < |k|
    requires p == Idx(w, y + ky - 1, x + kx - 1, 0) && p + 2 < |img|
    requires r0 == SumTaps(img, w, h, k, y, x, 0, ky, kx) && r == r0 + Weigh(img[p], k[ky][kx])
    requires g0 == SumTaps(img, w, h, k, y, x, 1, ky, kx) && g == g0 + Weigh(img[p + 1], k[ky][kx])
    requires b0 == SumTaps(img, w, h, k, y, x, 2, ky, kx) && b == b0 + Weigh(img[p + 2], k[ky][kx])
    ensures r == SumTaps(img, w, h, k, y, x, 0, ky, kx + 1)
    ensures g == SumTaps(img, w, h, k, y, x, 1, ky, kx + 1)
    ensures b == SumTaps(img, w, h, k, y, x, 2, ky, kx + 1)
  {
    RgbTapsStep(img, w, h, k, y, x, ky, kx);
  }

  /** Which samples already hold their filtered value while the pass is at
      pixel (y, x): those of earlier pixels in row-major order. */
  ghost function Progress(norm: Normalisation, temp: seq<Byte>, w: nat, h: nat, k: seq<seq<real>>,
                          y: nat, x: nat, i: nat): Byte
    requires |temp| == w * h * 4 && FilterKernel(k) && i < |temp|
  {
    DecodeBound(i, w, h);
    if Row(i, w) < y || (Row(i, w) == y && Col(i, w) < x) then Filtered(norm, temp, w, h, k)[i]
    else temp[i]
  }

  /** The body of the pixel loop: the filtered RGB samples of the interior
      pixel (y, x) are stored. */
  method FilterPixel(norm: Normalisation, data: array<Byte>, tempData: seq<Byte>, width: nat, height: nat,
                     kernel: seq<seq<real>>, y: nat, x: nat)
    requires data.Length == width * height * 4 && |tempData| == data.Length && FilterKernel(kernel)
    requires Interior(width, height, y, x)
    requires forall i :: 0 <= i < data.Length ==> data[i] == Progress(norm, tempData, width, height, kernel, y, x, i)
    modifies data
    ensures forall i :: 0 <= i < data.Length ==> data[i] == Progress(norm, tempData, width, height, kernel, y, x + 1, i)
  {
    var kernelSum := KernelSum(kernel);
    var r, g, b := WeightedSums(tempData, width, height, kernel, y, x);
    FilteredAt(norm, tempData, width, height, kernel, y, x, 0);
    FilteredAt(norm, tempData, width, height, kernel, y, x, 1);
    FilteredAt(norm, tempData, width, height, kernel, y, x, 2);
    IdxBound(width, height, y, x, 3);
    ghost var before := data[..];
    var index := (y * width + x) * 4;
    data[index] := Store(norm, kernelSum, r);
    data[index + 1] := Store(norm, kernelSum, g);
    data[index + 2] := Store(norm, kernelSum, b);
    ProgressPixel(norm, tempData, width, height, kernel, y, x, before, data[..]);
  }

  /** Storing the three filtered RGB samples of pixel (y, x) advances the
      progress by one pixel. */
  lemma ProgressPixel(norm: Normalisation, temp: seq<Byte>, w: nat, h: nat, k: seq<seq<real>>,
                      y: nat, x: nat, before: seq<Byte>, after: seq<Byte>)
    requires |temp| == w * h * 4 && FilterKernel(k) && Interior(w, h, y, x) && |before| == |temp|
    requires forall i :: 0 <= i < |before| ==> before[i] == Progress(norm, temp, w, h, k, y, x, i)
    requires Idx(w, y, x, 3) < |temp|
    requires after == before[Idx(w, y, x, 0) := Filtered(norm, temp, w, h, k)[Idx(w, y, x, 0)]]
                            [Idx(w, y, x, 1) := Filtered(norm, temp, w, h, k)[Idx(w, y, x, 1)]]
                            [Idx(w, y, x, 2) := Filtered(norm, temp, w, h, k)[Idx(w, y, x, 2)]]
    ensures forall i :: 0 <= i < |after| ==> after[i] == Progress(norm, temp, w, h, k, y, x + 1, i)
  {
    var index := Idx(w, y, x, 0);
    forall i | 0 <= i < |after|
      ensures after[i] == Progress(norm, temp, w, h, k, y, x + 1, i)
    {
      DecodeBound(i, w, h);
      if index <= i < index + 3 {
        IdxDecode(w, y, x, i - index);
      } else if Row(i, w) == y && Col(i, w) == x {
        assert i == index + 3;
        FilteredAt(norm, temp, w, h, k, y, x, 3);
      }
    }
  }

  /** The pixel loop of row y, followed by the step to the next row. */
  method FilterRow(norm: Normalisation, data: array<Byte>, tempData: seq<Byte>, width: nat, height: nat,
                   kernel: seq<seq<real>>, y: nat)
    requires data.Length == width * height * 4 && |tempData| == data.Length && FilterKernel(kernel)
    requires 1 <= y && y + 1 < height
    requires forall i :: 0 <= i < data.Length ==> data[i] == Progress(norm, tempData, width, height, kernel, y, 0, i)
    modifies data
    ensures forall i :: 0 <= i < data.Length ==> data[i] == Progress(norm, tempData, width, height, kernel, y + 1, 0, i)
  {
    forall i | 0 <= i < data.Length
      ensures data[i] == Progress(norm, tempData, width, height, kernel, y, 1, i)
    {
      DecodeBound(i, width, height);
      if Row(i, width) == y && Col(i, width) == 0 {
        FilteredAt(norm, tempData, width, height, kernel, y, 0, Chan(i));
      }
    }
    var x := 1;
    while x < width - 1
      invariant 1 <= x && (width >= 2 ==> x <= width - 1)
      invariant forall i :: 0 <= i < data.Length ==>
        data[i] == Progress(norm, tempData, width, height, kernel, y, x, i)
    {
      FilterPixel(norm, data, tempData, width, height, kernel, y, x);
      x := x + 1;
    }
    forall i | 0 <= i < data.Length
      ensures data[i] == Progress(norm, tempData, width, height, kernel, y + 1, 0, i)
    {
      DecodeBound(i, width, height);
      if Row(i, width) == y && Col(i, width) >= x {
        FilteredAt(norm, tempData, width, height, kernel, y, Col(i, width), Chan(i));
      }
    }
  }

  /** The shared loop nest of the three filters, writing into data. */
  method FilterInPlace(norm: Normalisation, data: array<Byte>, width: nat, height: nat, kernel: seq<seq<real>>)
    requires data.Length == width * height * 4 && FilterKernel(kernel)
    modifies data
    ensures data[..] == Filtered(norm, old(data[..]), width, height, kernel)
  {
    var tempData := data[..];
    forall i | 0 <= i < data.Length
      ensures data[i] == Progress(norm, tempData, width, height, kernel, 1, 0, i)
    {
      DecodeBound(i, width, height);
      if Row(i, width) == 0 {
        FilteredAt(norm, tempData, width, height, kernel, 0, Col(i, width), Chan(i));
      }
    }
    var y := 1;
    while y < height - 1
      invariant 1 <= y && (height >= 2 ==> y <= height - 1)
      invariant forall i :: 0 <= i < data.Length ==>
        data[i] == Progress(norm, tempData, width, height, kernel, y, 0, i)
    {
      FilterRow(norm, data, tempData, width, height, kernel, y);
      y := y + 1;
    }
    forall i | 0 <= i < data.Length
      ensures data[i] == Filtered(norm, tempData, width, height, kernel)[i]
    {
      DecodeBound(i, width, height);
      if Row(i, width) >= y {
        FilteredAt(norm, tempData, width, height, kernel, Row(i, width), Col(i, width), Chan(i));
      }
    }
  }

  method ApplyAverageFilter(data: array<Byte>, width: nat, height: nat, kernel: seq<seq<real>>)
    returns (out: array<Byte>)
    requires data.Length == width * height * 4 && FilterKernel(kernel)
    modifies data
    ensures out == data
    ensures data[..] == Filtered(DivideBySum, old(data[..]), width, height, kernel)
  {
    FilterInPlace(DivideBySum, data, width, height, kernel);
    out := data;
  }

  method ApplyGaussianFilter(data: array<Byte>, width: nat, height: nat, kernel: seq<seq<real>>)
    returns (out: array<Byte>)
    requires data.Length == width * height * 4 && FilterKernel(kernel)
    modifies data
    ensures out == data
    ensures data[..] == Filtered(DivideBySum, old(data[..]), width, height, kernel)
  {
    FilterInPlace(DivideBySum, data, width, height, kernel);
    out := data;
  }

  method ApplySharpenFilter(data: array<Byte>, width: nat, height: nat, kernel: seq<seq<real>>)
    returns (out: array<Byte>)
    requires data.Length == width * height * 4 && FilterKernel(kernel)
    modifies data
    ensures out == data
    ensures data[..] == Filtered(RawSum, old(data[..]), width, height, kernel)
  {
    FilterInPlace(RawSum, data, width, height, kernel);
    out := data;
  }
}
