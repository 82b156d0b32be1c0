/** Flat grey-level morphology of src/utils/morphology.ts: erosion and
    dilation take, per sample (alpha included), the minimum or the maximum
    over the in-image taps whose kernel weight is non-zero; taps outside the
    image are ignored. Opening and closing are their compositions. */
module Morphology {
  import opened Pixels

  datatype EMorphology = Erode | Dilate | Open | Close

  const DefaultSquareKernel: seq<seq<int>> := [[1, 1, 1], [1, 1, 1], [1, 1, 1]]

  /** A kernel has at least one row and all rows as long as the first. */
  predicate IsKernel(k: seq<seq<int>>)
  {
    |k| > 0 && forall r :: 0 <= r < |k| ==> |k[r]| == |k[0]|
  }

  /** The kernel cell under the anchor pixel has a non-zero weight. */
  predicate CentreActive(k: seq<seq<int>>)
    requires IsKernel(k)
  {
    var cy := |k| / 2;
    assert |k[cy]| == |k[0]|;
    |k[0]| > 0 && k[cy][|k[0]| / 2] != 0
  }

  /** Which extremum a pass takes: erosion keeps the lowest sample (starting
      from 255), dilation the highest (starting from 0). */
  datatype Extremum = Lowest | Highest

  function Seed(e: Extremum): Byte { if e == Lowest then 255 else 0 }

  function Pick(e: Extremum, a: Byte, b: Byte): Byte
  {
    if e == Lowest then (if a <= b then a else b) else (if a >= b then a else b)
  }

  /** a is at least as extreme as b in the direction of e. */
  predicate Dominates(e: Extremum, a: int, b: int)
  {
    if e == Lowest then a <= b else a >= b
  }

  /** The sample under kernel cell (ky, kx) when the kernel centre
      (|k|/2, |k[0]|/2) sits on pixel (y, x); None when the weight is zero or
      the tap falls outside the image. */
  function Tap(img: seq<Byte>, w: nat, h: nat, k: seq<seq<int>>, y: nat, x: nat, c: nat,
               ky: nat, kx: nat): Option<Byte>
    requires |img| == w * h * 4 && IsKernel(k) && ky < |k| && kx < |k[0]| && c < 4
  {
    var py := y + (ky - |k| / 2);
    var px := x + (kx - |k[0]| / 2);
    if k[ky][kx] == 0 then None
    else if 0 <= py < h && 0 <= px < w then
      IdxBound(w, h, py, px, c);
      Some(img[Idx(w, py, px, c)])
    else None
  }

  /** Cell (ty, tx) comes before cell (ky, kx) in row-major order. */
  predicate Before(ty: nat, tx: nat, ky: nat, kx: nat)
  {
    ty < ky || (ty == ky && tx < kx)
  }

  /** The accumulator after the kernel cells before (ky, kx) in row-major
      order have been visited. */
  function FoldTaps(e: Extremum, img: seq<Byte>, w: nat, h: nat, k: seq<seq<int>>,
                    y: nat, x: nat, c: nat, ky: nat, kx: nat): Byte
    requires |img| == w * h * 4 && IsKernel(k) && c < 4
    requires ky <= |k| && kx <= |k[0]| && (ky == |k| ==> kx == 0)
    decreases ky, kx
  {
    if kx == 0 then
      (if ky == 0 then Seed(e) else FoldTaps(e, img, w, h, k, y, x, c, ky - 1, |k[0]|))
    else
      var acc := FoldTaps(e, img, w, h, k, y, x, c, ky, kx - 1);
      match Tap(img, w, h, k, y, x, c, ky, kx - 1)
      case None => acc
      case Some(v) => Pick(e, acc, v)
  }

  /** The value one pass stores at sample c of pixel (y, x). */
  function Extreme(e: Extremum, img: seq<Byte>, w: nat, h: nat, k: seq<seq<int>>,
                   y: nat, x: nat, c: nat): Byte
    requires |img| == w * h * 4 && IsKernel(k) && c < 4
  {
    FoldTaps(e, img, w, h, k, y, x, c, |k|, 0)
  }

  function MorphSample(e: Extremum, img: seq<Byte>, w: nat, h: nat, k: seq<seq<int>>, i: nat): Byte
    requires |img| == w * h * 4 && IsKernel(k) && i < |img|
  {
    DecodeBound(i, w, h);
    Extreme(e, img, w, h, k, Row(i, w), Col(i, w), Chan(i))
  }

  function Morphed(e: Extremum, img: seq<Byte>, w: nat, h: nat, k: seq<seq<int>>): seq<Byte>
    requires |img| == w * h * 4 && IsKernel(k)
  {
    seq(|img|, i requires 0 <= i < |img| => MorphSample(e, img, w, h, k, i))
  }

  function Eroded(img: seq<Byte>, w: nat, h: nat, k: seq<seq<int>>): seq<Byte>
    requires |img| == w * h * 4 && IsKernel(k)
  {
    Morphed(Lowest, img, w, h, k)
  }

  function Dilated(img: seq<Byte>, w: nat, h: nat, k: seq<seq<int>>): seq<Byte>
    requires |img| == w * h * 4 && IsKernel(k)
  {
    Morphed(Highest, img, w, h, k)
  }

  function Opened(img: seq<Byte>, w: nat, h: nat, k: seq<seq<int>>): seq<Byte>
    requires |img| == w * h * 4 && IsKernel(k)
  {
    Dilated(Eroded(img, w, h, k), w, h, k)
  }

  function Closed(img: seq<Byte>, w: nat, h: nat, k: seq<seq<int>>): seq<Byte>
    requires |img| == w * h * 4 && IsKernel(k)
  {
    Eroded(Dilated(img, w, h, k), w, h, k)
  }

  /** The result of one operation of a `getPupil` operation list. */
  function ApplyOp(op: EMorphology, img: seq<Byte>, w: nat, h: nat, k: seq<seq<int>>): (r: seq<Byte>)
    requires |img| == w * h * 4 && IsKernel(k)
    ensures |r| == |img|
  {
    match op
    case Erode => Eroded(img, w, h, k)
    case Dilate => Dilated(img, w, h, k)
    case Open => Opened(img, w, h, k)
    case Close => Closed(img, w, h, k)
  }

  // ---------------------------------------------------------------------
  // What the fold computes: it dominates every active in-image tap, and it
  // is either the seed or the value of one such tap.

  lemma {:induction false} FoldTapsCharacterised(e: Extremum, img: seq<Byte>, w: nat, h: nat,
                                                 k: seq<seq<int>>, y: nat, x: nat, c: nat,
                                                 ky: nat, kx: nat)
    requires |img| == w * h * 4 && IsKernel(k) && c < 4
    requires ky <= |k| && kx <= |k[0]| && (ky == |k| ==> kx == 0)
    ensures forall ty, tx ::
      (0 <= ty < |k| && 0 <= tx < |k[0]| && Before(ty, tx, ky, kx) &&
       Tap(img, w, h, k, y, x, c, ty, tx).Some?) ==>
      Dominates(e, FoldTaps(e, img, w, h, k, y, x, c, ky, kx), Tap(img, w, h, k, y, x, c, ty, tx).value)
    ensures FoldTaps(e, img, w, h, k, y, x, c, ky, kx) == Seed(e) ||
      exists ty, tx :: 0 <= ty < |k| && 0 <= tx < |k[0]| && Before(ty, tx, ky, kx) &&
        Tap(img, w, h, k, y, x, c, ty, tx) == Some(FoldTaps(e, img, w, h, k, y, x, c, ky, kx))
    decreases ky, kx
  {
    if kx == 0 {
      if ky > 0 {
        FoldTapsCharacterised(e, img, w, h, k, y, x, c, ky - 1, |k[0]|);
      }
    } else {
      FoldTapsCharacterised(e, img, w, h, k, y, x, c, ky, kx - 1);
    }
  }

  lemma ExtremeDominatesTap(e: Extremum, img: seq<Byte>, w: nat, h: nat, k: seq<seq<int>>,
                            y: nat, x: nat, c: nat, ty: nat, tx: nat)
    requires |img| == w * h * 4 && IsKernel(k) && c < 4 && ty < |k| && tx < |k[0]|
    requires Tap(img, w, h, k, y, x, c, ty, tx).Some?
    ensures Dominates(e, Extreme(e, img, w, h, k, y, x, c), Tap(img, w, h, k, y, x, c, ty, tx).value)
  {
    FoldTapsCharacterised(e, img, w, h, k, y, x, c, |k|, 0);
  }

  lemma ExtremeAttained(e: Extremum, img: seq<Byte>, w: nat, h: nat, k: seq<seq<int>>,
                        y: nat, x: nat, c: nat)
    requires |img| == w * h * 4 && IsKernel(k) && c < 4
    ensures Extreme(e, img, w, h, k, y, x, c) == Seed(e) ||
      exists ty, tx :: 0 <= ty < |k| && 0 <= tx < |k[0]| &&
        Tap(img, w, h, k, y, x, c, ty, tx) == Some(Extreme(e, img, w, h, k, y, x, c))
  {
    FoldTapsCharacterised(e, img, w, h, k, y, x, c, |k|, 0);
  }

  /** Sample i of the result, read back at the pixel and channel it encodes. */
  lemma MorphedAt(e: Extremum, img: seq<Byte>, w: nat, h: nat, k: seq<seq<int>>, y: nat, x: nat, c: nat)
    requires |img| == w * h * 4 && IsKernel(k) && y < h && x < w && c < 4
    ensures Idx(w, y, x, c) < |img|
    ensures Morphed(e, img, w, h, k)[Idx(w, y, x, c)] == Extreme(e, img, w, h, k, y, x, c)
  {
    IdxBound(w, h, y, x, c);
    IdxDecode(w, y, x, c);
  }

  // ---------------------------------------------------------------------
  // Lattice properties.

  /** With a non-zero kernel centre, erosion never raises and dilation never
      lowers a sample. */
  lemma ErodeBelowDilateAbove(img: seq<Byte>, w: nat, h: nat, k: seq<seq<int>>, i: nat)
    requires |img| == w * h * 4 && IsKernel(k) && i < |img| && CentreActive(k)
    ensures Eroded(img, w, h, k)[i] <= img[i] <= Dilated(img, w, h, k)[i]
  {
    DecodeBound(i, w, h);
    var y, x, c := Row(i, w), Col(i, w), Chan(i);
    assert Tap(img, w, h, k, y, x, c, |k| / 2, |k[0]| / 2) == Some(img[i]);
    ExtremeDominatesTap(Lowest, img, w, h, k, y, x, c, |k| / 2, |k[0]| / 2);
    ExtremeDominatesTap(Highest, img, w, h, k, y, x, c, |k| / 2, |k[0]| / 2);
  }

  predicate PointwiseLe(a: seq<Byte>, b: seq<Byte>)
  {
    |a| == |b| && forall i :: 0 <= i < |a| ==> a[i] <= b[i]
  }

  lemma TapMonotone(a: seq<Byte>, b: seq<Byte>, w: nat, h: nat, k: seq<seq<int>>,
                    y: nat, x: nat, c: nat, ty: nat, tx: nat)
    requires |a| == w * h * 4 && IsKernel(k) && PointwiseLe(a, b) && c < 4 && ty < |k| && tx < |k[0]|
    ensures Tap(a, w, h, k, y, x, c, ty, tx).Some? == Tap(b, w, h, k, y, x, c, ty, tx).Some?
    ensures Tap(a, w, h, k, y, x, c, ty, tx).Some? ==>
      Tap(a, w, h, k, y, x, c, ty, tx).value <= Tap(b, w, h, k, y, x, c, ty, tx).value
  {
    var py, px := y + (ty - |k| / 2), x + (tx - |k[0]| / 2);
    if k[ty][tx] != 0 && 0 <= py < h && 0 <= px < w {
      IdxBound(w, h, py, px, c);
      var j := Idx(w, py, px, c);
      assert a[j] <= b[j];
    }
  }

  lemma ExtremeMonotone(e: Extremum, a: seq<Byte>, b: seq<Byte>, w: nat, h: nat, k: seq<seq<int>>,
                        y: nat, x: nat, c: nat)
    requires |a| == w * h * 4 && IsKernel(k) && PointwiseLe(a, b) && c < 4
    ensures Extreme(e, a, w, h, k, y, x, c) <= Extreme(e, b, w, h, k, y, x, c)
  {
    var ea, eb := Extreme(e, a, w, h, k, y, x, c), Extreme(e, b, w, h, k, y, x, c);
    if e == Lowest {
      ExtremeAttained(e, b, w, h, k, y, x, c);
      if eb != Seed(e) {
        var ty, tx :| 0 <= ty < |k| && 0 <= tx < |k[0]| && Tap(b, w, h, k, y, x, c, ty, tx) == Some(eb);
        TapMonotone(a, b, w, h, k, y, x, c, ty, tx);
        ExtremeDominatesTap(e, a, w, h, k, y, x, c, ty, tx);
      }
    } else {
      ExtremeAttained(e, a, w, h, k, y, x, c);
      if ea != Seed(e) {
        var ty, tx :| 0 <= ty < |k| && 0 <= tx < |k[0]| && Tap(a, w, h, k, y, x, c, ty, tx) == Some(ea);
        TapMonotone(a, b, w, h, k, y, x, c, ty, tx);
        ExtremeDominatesTap(e, b, w, h, k, y, x, c, ty, tx);
      }
    }
  }

  /** Both passes are monotone: a pointwise smaller image gives a pointwise
      smaller result. */
  lemma MorphedMonotone(e: Extremum, a: seq<Byte>, b: seq<Byte>, w: nat, h: nat, k: seq<seq<int>>)
    requires |a| == w * h * 4 && IsKernel(k) && PointwiseLe(a, b)
    ensures PointwiseLe(Morphed(e, a, w, h, k), Morphed(e, b, w, h, k))
  {
    forall i | 0 <= i < |a|
      ensures Morphed(e, a, w, h, k)[i] <= Morphed(e, b, w, h, k)[i]
    {
      DecodeBound(i, w, h);
      ExtremeMonotone(e, a, b, w, h, k, Row(i, w), Col(i, w), Chan(i));
    }
  }

  /** Every active kernel cell has an active mirror image through the centre. */
  predicate SymmetricSupport(k: seq<seq<int>>)
  {
    IsKernel(k) &&
    forall ky, kx {:trigger k[ky][kx]} :: 0 <= ky < |k| && 0 <= kx < |k[0]| && k[ky][kx] != 0 ==>
      0 <= 2 * (|k| / 2) - ky < |k| && 0 <= 2 * (|k[0]| / 2) - kx < |k[0]| &&
      k[2 * (|k| / 2) - ky][2 * (|k[0]| / 2) - kx] != 0
  }

  lemma DefaultSquareKernelSymmetric()
    ensures SymmetricSupport(DefaultSquareKernel)
    ensures CentreActive(DefaultSquareKernel)
  {}

  /** If pixel (y, x) sees the pixel under cell (ty, tx), then that pixel sees
      (y, x) under the mirrored cell. */
  lemma MirrorTap(a: seq<Byte>, img: seq<Byte>, w: nat, h: nat, k: seq<seq<int>>,
                  y: nat, x: nat, c: nat, ty: nat, tx: nat)
    requires |a| == w * h * 4 && |img| == w * h * 4 && SymmetricSupport(k)
    requires y < h && x < w && c < 4 && ty < |k| && tx < |k[0]|
    requires Tap(a, w, h, k, y, x, c, ty, tx).Some?
    ensures 0 <= y + (ty - |k| / 2) < h && 0 <= x + (tx - |k[0]| / 2) < w
    ensures 0 <= 2 * (|k| / 2) - ty < |k| && 0 <= 2 * (|k[0]| / 2) - tx < |k[0]|
    ensures Idx(w, y, x, c) < |img|
    ensures Tap(img, w, h, k, y + (ty - |k| / 2), x + (tx - |k[0]| / 2), c,
                2 * (|k| / 2) - ty, 2 * (|k[0]| / 2) - tx) == Some(img[Idx(w, y, x, c)])
  {
    IdxBound(w, h, y, x, c);
    var py, px := y + (ty - |k| / 2), x + (tx - |k[0]| / 2);
    var ry, rx := 2 * (|k| / 2) - ty, 2 * (|k[0]| / 2) - tx;
    assert k[ty][tx] != 0;
    assert py + (ry - |k| / 2) == y && px + (rx - |k[0]| / 2) == x;
  }

  /** Opening never raises a sample, for a kernel with symmetric support. */
  lemma OpenedBelow(img: seq<Byte>, w: nat, h: nat, k: seq<seq<int>>, i: nat)
    requires |img| == w * h * 4 && SymmetricSupport(k) && i < |img|
    ensures Opened(img, w, h, k)[i] <= img[i]
  {
    DecodeBound(i, w, h);
    var y, x, c := Row(i, w), Col(i, w), Chan(i);
    var er := Eroded(img, w, h, k);
    var d := Extreme(Highest, er, w, h, k, y, x, c);
    MorphedAt(Highest, er, w, h, k, y, x, c);
    ExtremeAttained(Highest, er, w, h, k, y, x, c);
    if d != 0 {
      var ty, tx :| 0 <= ty < |k| && 0 <= tx < |k[0]| && Tap(er, w, h, k, y, x, c, ty, tx) == Some(d);
      MirrorTap(er, img, w, h, k, y, x, c, ty, tx);
      var py, px := y + (ty - |k| / 2), x + (tx - |k[0]| / 2);
      MorphedAt(Lowest, img, w, h, k, py, px, c);
      ExtremeDominatesTap(Lowest, img, w, h, k, py, px, c, 2 * (|k| / 2) - ty, 2 * (|k[0]| / 2) - tx);
    }
  }

  /** Closing never lowers a sample, for a kernel with symmetric support. */
  lemma ClosedAbove(img: seq<Byte>, w: nat, h: nat, k: seq<seq<int>>, i: nat)
    requires |img| == w * h * 4 && SymmetricSupport(k) && i < |img|
    ensures img[i] <= Closed(img, w, h, k)[i]
  {
    DecodeBound(i, w, h);
    var y, x, c := Row(i, w), Col(i, w), Chan(i);
    var di := Dilated(img, w, h, k);
    var d := Extreme(Lowest, di, w, h, k, y, x, c);
    MorphedAt(Lowest, di, w, h, k, y, x, c);
    ExtremeAttained(Lowest, di, w, h, k, y, x, c);
    if d != 255 {
      var ty, tx :| 0 <= ty < |k| && 0 <= tx < |k[0]| && Tap(di, w, h, k, y, x, c, ty, tx) == Some(d);
      MirrorTap(di, img, w, h, k, y, x, c, ty, tx);
      var py, px := y + (ty - |k| / 2), x + (tx - |k[0]| / 2);
      MorphedAt(Highest, img, w, h, k, py, px, c);
      ExtremeDominatesTap(Highest, img, w, h, k, py, px, c, 2 * (|k| / 2) - ty, 2 * (|k[0]| / 2) - tx);
    }
  }

  // ---------------------------------------------------------------------
  // The passes as the source runs them.

  /** The two innermost loops of `erode`/`dilate`: the accumulator over the
      kernel for one sample. */
  method TapExtreme(e: Extremum, data: seq<Byte>, width: nat, height: nat, kernel: seq<seq<int>>,
                    y: nat, x: nat, c: nat) returns (v: Byte)
    requires |data| == width * height * 4 && IsKernel(kernel) && c < 4
    ensures v == Extreme(e, data, width, height, kernel, y, x, c)
  {
    var kernelHeight, kernelWidth := |kernel|, |kernel[0]|;
    var kernelCenterY, kernelCenterX := kernelHeight / 2, kernelWidth / 2;
    v := Seed(e);
    for ky := 0 to kernelHeight
      invariant v == FoldTaps(e, data, width, height, kernel, y, x, c, ky, 0)
    {
      for kx := 0 to kernelWidth
        invariant v == FoldTaps(e, data, width, height, kernel, y, x, c, ky, kx)
      {
        if kernel[ky][kx] != 0 {
          var pixelY := y + (ky - kernelCenterY);
          var pixelX := x + (kx - kernelCenterX);
          if pixelY >= 0 && pixelY < height && pixelX >= 0 && pixelX < width {
            IdxBound(width, height, pixelY, pixelX, c);
            var idx := (pixelY * width + pixelX) * 4 + c;
            v := Pick(e, v, data[idx]);
          }
        }
      }
    }
  }

  /** The channel loop of `erode`/`dilate` for pixel p == y * width + x. */
  method MorphPixel(e: Extremum, result: array<Byte>, data: seq<Byte>, width: nat, height: nat,
                    kernel: seq<seq<int>>, y: nat, x: nat, ghost p: nat)
    requires |data| == width * height * 4 && IsKernel(kernel) && result.Length == |data|
    requires y < height && x < width && p == y * width + x && p < width * height
    requires forall i :: 0 <= i < 4 * p ==> result[i] == Morphed(e, data, width, height, kernel)[i]
    modifies result
    ensures forall i :: 0 <= i < 4 * p + 4 ==> result[i] == Morphed(e, data, width, height, kernel)[i]
  {
    PixelBound(width, height, y, x);
    for c := 0 to 4
      invariant forall i :: 0 <= i < 4 * p + c ==> result[i] == Morphed(e, data, width, height, kernel)[i]
    {
      MorphedAt(e, data, width, height, kernel, y, x, c);
      var v := TapExtreme(e, data, width, height, kernel, y, x, c);
      assert Idx(width, y, x, c) == 4 * p + c;
      result[(y * width + x) * 4 + c] := v;
    }
  }

  /** The pixel loop of `erode`/`dilate` for row y. */
  method MorphRow(e: Extremum, result: array<Byte>, data: seq<Byte>, width: nat, height: nat,
                  kernel: seq<seq<int>>, y: nat)
    requires |data| == width * height * 4 && IsKernel(kernel) && result.Length == |data| && y < height
    requires y * width + width <= width * height
    requires forall i :: 0 <= i < 4 * (y * width) ==> result[i] == Morphed(e, data, width, height, kernel)[i]
    modifies result
    ensures forall i :: 0 <= i < 4 * (y * width + width) ==> result[i] == Morphed(e, data, width, height, kernel)[i]
  {
    for x := 0 to width
      invariant forall i :: 0 <= i < 4 * (y * width + x) ==> result[i] == Morphed(e, data, width, height, kernel)[i]
    {
      MorphPixel(e, result, data, width, height, kernel, y, x, y * width + x);
    }
  }

  /** The shared loop nest of `erode` and `dilate`: a fresh buffer, every
      sample (alpha included) set to the extremum over its taps. */
  method MorphologyPass(e: Extremum, data: seq<Byte>, width: nat, height: nat, kernel: seq<seq<int>>)
    returns (r: seq<Byte>)
    requires |data| == width * height * 4 && IsKernel(kernel)
    ensures r == Morphed(e, data, width, height, kernel)
  {
    var result := new Byte[|data|](_ => 0);
    for y := 0 to height
      invariant y * width <= width * height
      invariant forall i :: 0 <= i < 4 * (y * width) ==> result[i] == Morphed(e, data, width, height, kernel)[i]
    {
      RowFits(y, width, height);
      MorphRow(e, result, data, width, height, kernel, y);
    }
    assert 4 * (height * width) == |data|;
    r := result[..];
  }

  method ErodeBuffer(data: seq<Byte>, width: nat, height: nat, kernel: seq<seq<int>>)
    returns (r: seq<Byte>)
    requires |data| == width * height * 4 && IsKernel(kernel)
    ensures r == Eroded(data, width, height, kernel)
  {
    r := MorphologyPass(Lowest, data, width, height, kernel);
  }

  method DilateBuffer(data: seq<Byte>, width: nat, height: nat, kernel: seq<seq<int>>)
    returns (r: seq<Byte>)
    requires |data| == width * height * 4 && IsKernel(kernel)
    ensures r == Dilated(data, width, height, kernel)
  {
    r := MorphologyPass(Highest, data, width, height, kernel);
  }

  method OpenBuffer(data: seq<Byte>, width: nat, height: nat, kernel: seq<seq<int>>)
    returns (r: seq<Byte>)
    requires |data| == width * height * 4 && IsKernel(kernel)
    ensures r == Opened(data, width, height, kernel)
  {
    var eroded := ErodeBuffer(data, width, height, kernel);
    r := DilateBuffer(eroded, width, height, kernel);
  }

  method CloseBuffer(data: seq<Byte>, width: nat, height: nat, kernel: seq<seq<int>>)
    returns (r: seq<Byte>)
    requires |data| == width * height * 4 && IsKernel(kernel)
    ensures r == Closed(data, width, height, kernel)
  {
    var dilated := DilateBuffer(data, width, height, kernel);
    r := ErodeBuffer(dilated, width, height, kernel);
  }
}
