/** The distance-transform half of src/utils/pupil.ts: `distanceTransform`
    (foreground mask, two-pass 8-neighbour chamfer distance on an integer
    map, normalisation into a clamped buffer), `calculateP` and the
    `getPupil` pipeline that binarises, transforms, re-binarises and then
    applies a list of morphological operations. */
module PupilDistance {
  import opened Pixels
  import Manipulate
  import Morphology

  /** A pixel is foreground when any of its colour samples exceeds 128. */
  predicate Foreground(data: seq<Byte>, p: nat)
    requires p * 4 + 3 < |data|
  {
    data[p * 4] > 128 || data[p * 4 + 1] > 128 || data[p * 4 + 2] > 128
  }

  /** The distance map before the passes: 0 on the foreground, INF = w + h
      elsewhere. */
  function InitialMap(data: seq<Byte>, w: nat, h: nat): (m: seq<int>)
    requires |data| == w * h * 4
    ensures |m| == w * h
  {
    seq(w * h, p requires 0 <= p < w * h => if Foreground(data, p) then 0 else w + h)
  }

  /** A pixel below the first row is at least one row past the start. */
  lemma RowColumn(q: nat, w: nat)
    requires w > 0
    ensures q / w >= 1 ==> q >= w + q % w
  {
    assert q == (q / w) * w + q % w;
    if q / w >= 1 {
      MulMono(1, q / w, w);
    }
  }

  /** Pixel q has a row below it inside an image of height h. */
  lemma RowBelow(q: nat, w: nat, h: nat)
    requires w > 0 && q < w * h
    ensures q / w + 1 < h ==> q + w + (w - 1 - q % w) < w * h
  {
    assert q == (q / w) * w + q % w;
    if q / w + 1 < h {
      MulMono(q / w + 2, h, w);
      assert (q / w + 2) * w == (q / w) * w + w + w;
      assert h * w == w * h;
    }
  }

  /** The rest of the row of pixel q lies inside the image. */
  lemma RowEnd(q: nat, w: nat, h: nat)
    requires w > 0 && q < w * h
    ensures q + (w - 1 - q % w) < w * h
  {
    assert q == (q / w) * w + q % w;
    assert q / w < h by {
      if q / w >= h {
        MulMono(h, q / w, w);
      }
    }
    MulMono(q / w + 1, h, w);
    assert (q / w + 1) * w == (q / w) * w + w;
    assert h * w == w * h;
  }

  /** The linear facts about the neighbours of pixel q that the passes
      index by. */
  lemma Neighbours(q: nat, w: nat, h: nat)
    requires w > 0 && q < w * h
    ensures q / w >= 1 ==> q >= w + q % w
    ensures q + (w - 1 - q % w) < w * h
    ensures q / w + 1 < h ==> q + w + (w - 1 - q % w) < w * h
  {
    RowColumn(q, w);
    RowEnd(q, w, h);
    RowBelow(q, w, h);
  }

  /** The value the forward pass stores at pixel q: 0 stays 0, any other
      pixel takes the smallest of INF and one more than its west, north-west,
      north and north-east neighbours (those already visited). */
  function ForwardValue(m: seq<int>, w: nat, inf: int, q: nat): int
    requires w > 0 && q < |m|
  {
    if m[q] == 0 then 0
    else
      RowColumn(q, w);
      var y, x := q / w, q % w;
      var a0 := inf;
      var a1 := if y > 0 && x > 0 then Min(a0, m[q - w - 1] + 1) else a0;
      var a2 := if y > 0 then Min(a1, m[q - w] + 1) else a1;
      var a3 := if y > 0 && x < w - 1 then Min(a2, m[q - w + 1] + 1) else a2;
      if x > 0 then Min(a3, m[q - 1] + 1) else a3
  }

  /** The value the backward pass stores at pixel q: the smallest of its own
      value and one more than its east, south-west, south and south-east
      neighbours. */
  function BackwardValue(m: seq<int>, w: nat, h: nat, q: nat): int
    requires |m| == w * h && q < |m|
  {
    Neighbours(q, w, h);
    var y, x := q / w, q % w;
    var d0 := m[q];
    var d1 := if x < w - 1 then Min(d0, m[q + 1] + 1) else d0;
    var d2 := if y < h - 1 && x > 0 then Min(d1, m[q + w - 1] + 1) else d1;
    var d3 := if y < h - 1 then Min(d2, m[q + w] + 1) else d2;
    if y < h - 1 && x < w - 1 then Min(d3, m[q + w + 1] + 1) else d3
  }

  /** The map after the forward pass has visited pixels 0 .. p-1. */
  function Forward(m0: seq<int>, w: nat, h: nat, p: nat): (m: seq<int>)
    requires |m0| == w * h && p <= |m0|
    ensures |m| == |m0|
    decreases p
  {
    if p == 0 then m0
    else
      var m := Forward(m0, w, h, p - 1);
      m[p - 1 := ForwardValue(m, w, w + h, p - 1)]
  }

  /** The map after the backward pass has visited the last n pixels, from
      the end. */
  function Backward(m0: seq<int>, w: nat, h: nat, n: nat): (m: seq<int>)
    requires |m0| == w * h && n <= |m0|
    ensures |m| == |m0|
    decreases n
  {
    if n == 0 then m0
    else
      var m := Backward(m0, w, h, n - 1);
      var q := |m0| - n;
      m[q := BackwardValue(m, w, h, q)]
  }

  function DistanceMap(data: seq<Byte>, w: nat, h: nat): (m: seq<int>)
    requires |data| == w * h * 4
    ensures |m| == w * h
  {
    var m0 := InitialMap(data, w, h);
    Backward(Forward(m0, w, h, w * h), w, h, w * h)
  }

  /** Largest distance in m[..n] that is not INF, or 0. */
  function MaxFinite(m: seq<int>, inf: int, n: nat): int
    requires n <= |m|
  {
    if n == 0 then 0
    else
      var best := MaxFinite(m, inf, n - 1);
      if m[n - 1] != inf && m[n - 1] > best then m[n - 1] else best
  }

  /** The grey level of a pixel at distance dist: INF gives 0; with a zero
      maximum the source divides by zero (NaN or -Infinity, stored 0);
      otherwise 255 scaled down linearly to 0 at the maximum. */
  function Normalised(dist: int, maxDist: int, inf: int): Byte
  {
    if dist == inf then 0
    else if maxDist == 0 then 0
    else ClampRound(255.0 - (dist as real / maxDist as real) * 255.0)
  }

  /** The output buffer: alpha copied, the colour samples of pixel p the
      grey level of distance d[p]. */
  function NormalisedBuffer(data: seq<Byte>, d: seq<int>, maxDist: int, inf: int): (r: seq<Byte>)
    requires |data| == |d| * 4
    ensures |r| == |data|
  {
    seq(|data|, k requires 0 <= k < |data| =>
      if k % 4 == 3 then data[k] else Normalised(d[k / 4], maxDist, inf))
  }

  function DistanceTransformed(data: seq<Byte>, w: nat, h: nat): (r: seq<Byte>)
    requires |data| == w * h * 4
    ensures |r| == |data|
  {
    var d := DistanceMap(data, w, h);
    NormalisedBuffer(data, d, MaxFinite(d, w + h, |d|), w + h)
  }

  // ---------------------------------------------------------------------
  // What the passes compute.

  /** Foreground pixels hold 0, the others a distance in [1, INF]. */
  predicate ChamferBounds(m: seq<int>, data: seq<Byte>, w: nat, h: nat)
    requires |data| == w * h * 4
  {
    |m| == w * h &&
    forall p :: 0 <= p < |m| ==>
      if Foreground(data, p) then m[p] == 0 else 1 <= m[p] <= w + h
  }

  /** The forward value keeps 0 and otherwise lies in [1, inf], since every
      neighbour is non-negative. */
  lemma ForwardValueRange(m: seq<int>, w: nat, inf: int, q: nat)
    requires w > 0 && q < |m| && inf >= 1 && forall p :: 0 <= p < |m| ==> m[p] >= 0
    ensures m[q] == 0 ==> ForwardValue(m, w, inf, q) == 0
    ensures m[q] != 0 ==> 1 <= ForwardValue(m, w, inf, q) <= inf
  {
    if m[q] != 0 {
      RowColumn(q, w);
      var y, x := q / w, q % w;
      var a0 := inf;
      var a1 := if y > 0 && x > 0 then Min(a0, m[q - w - 1] + 1) else a0;
      assert 1 <= a1 <= inf;
      var a2 := if y > 0 then Min(a1, m[q - w] + 1) else a1;
      assert 1 <= a2 <= inf;
      var a3 := if y > 0 && x < w - 1 then Min(a2, m[q - w + 1] + 1) else a2;
      assert 1 <= a3 <= inf;
      var a4 := if x > 0 then Min(a3, m[q - 1] + 1) else a3;
      assert 1 <= a4 <= inf;
      assert ForwardValue(m, w, inf, q) == a4;
    }
  }

  lemma ForwardStepBounds(m: seq<int>, data: seq<Byte>, w: nat, h: nat, q: nat)
    requires |data| == w * h * 4 && ChamferBounds(m, data, w, h) && q < |m|
    ensures w > 0 && ChamferBounds(m[q := ForwardValue(m, w, w + h, q)], data, w, h)
  {
    assert w > 0 && h > 0;
    ForwardValueRange(m, w, w + h, q);
  }

  /** The backward value never exceeds the old one and stays at least 1
      when the old one was, since every neighbour is non-negative. */
  lemma BackwardValueRange(m: seq<int>, w: nat, h: nat, q: nat)
    requires |m| == w * h && q < |m| && forall p :: 0 <= p < |m| ==> m[p] >= 0
    ensures BackwardValue(m, w, h, q) <= m[q]
    ensures BackwardValue(m, w, h, q) >= Min(m[q], 1)
  {
    Neighbours(q, w, h);
    var y, x := q / w, q % w;
    var d0 := m[q];
    var d1 := if x < w - 1 then Min(d0, m[q + 1] + 1) else d0;
    assert Min(d0, 1) <= d1 <= d0;
    var d2 := if y < h - 1 && x > 0 then Min(d1, m[q + w - 1] + 1) else d1;
    assert Min(d0, 1) <= d2 <= d0;
    var d3 := if y < h - 1 then Min(d2, m[q + w] + 1) else d2;
    assert Min(d0, 1) <= d3 <= d0;
    var d4 := if y < h - 1 && x < w - 1 then Min(d3, m[q + w + 1] + 1) else d3;
    assert Min(d0, 1) <= d4 <= d0;
    assert BackwardValue(m, w, h, q) == d4;
  }

  lemma BackwardStepBounds(m: seq<int>, data: seq<Byte>, w: nat, h: nat, q: nat)
    requires |data| == w * h * 4 && ChamferBounds(m, data, w, h) && q < |m|
    ensures ChamferBounds(m[q := BackwardValue(m, w, h, q)], data, w, h)
  {
    BackwardValueRange(m, w, h, q);
  }

  lemma {:induction false} ForwardBounds(m0: seq<int>, data: seq<Byte>, w: nat, h: nat, p: nat)
    requires |data| == w * h * 4 && ChamferBounds(m0, data, w, h) && p <= |m0|
    ensures ChamferBounds(Forward(m0, w, h, p), data, w, h)
    decreases p
  {
    if p > 0 {
      ForwardBounds(m0, data, w, h, p - 1);
      ForwardStepBounds(Forward(m0, w, h, p - 1), data, w, h, p - 1);
    }
  }

  lemma {:induction false} BackwardBounds(m0: seq<int>, data: seq<Byte>, w: nat, h: nat, n: nat)
    requires |data| == w * h * 4 && ChamferBounds(m0, data, w, h) && n <= |m0|
    ensures ChamferBounds(Backward(m0, w, h, n), data, w, h)
    decreases n
  {
    if n > 0 {
      BackwardBounds(m0, data, w, h, n - 1);
      BackwardStepBounds(Backward(m0, w, h, n - 1), data, w, h, |m0| - n);
    }
  }

  /** After both passes a pixel is at distance 0 exactly when it is
      foreground, and every other pixel is at a distance in [1, INF]. */
  lemma DistanceMapBounds(data: seq<Byte>, w: nat, h: nat)
    requires |data| == w * h * 4
    ensures ChamferBounds(DistanceMap(data, w, h), data, w, h)
  {
    var m0 := InitialMap(data, w, h);
    assert ChamferBounds(m0, data, w, h);
    ForwardBounds(m0, data, w, h, w * h);
    BackwardBounds(Forward(m0, w, h, w * h), data, w, h, w * h);
  }

  lemma {:induction false} MaxFiniteBounds(m: seq<int>, inf: int, n: nat)
    requires n <= |m|
    ensures forall i :: 0 <= i < n && m[i] != inf ==> m[i] <= MaxFinite(m, inf, n)
    ensures MaxFinite(m, inf, n) == 0 ||
      exists i :: 0 <= i < n && m[i] != inf && m[i] == MaxFinite(m, inf, n)
  {
    if n > 0 {
      MaxFiniteBounds(m, inf, n - 1);
    }
  }

  /** The output keeps the alpha samples, gives the three colour samples of a
      pixel one grey level, maps INF to 0 and, when some finite distance is
      positive, the foreground to 255. */
  lemma DistanceTransformedSamples(data: seq<Byte>, w: nat, h: nat, k: nat)
    requires |data| == w * h * 4 && k < |data|
    ensures var r := DistanceTransformed(data, w, h);
      var d := DistanceMap(data, w, h);
      var maxDist := MaxFinite(d, w + h, w * h);
      var p := k / 4;
      p < w * h &&
      (k % 4 == 3 ==> r[k] == data[k]) &&
      (k % 4 < 3 ==> r[k] == r[p * 4]) &&
      (k % 4 < 3 && d[p] == w + h ==> r[k] == 0) &&
      (k % 4 < 3 && Foreground(data, p) && maxDist > 0 ==> r[k] == 255)
  {
    var r := DistanceTransformed(data, w, h);
    var d := DistanceMap(data, w, h);
    var maxDist := MaxFinite(d, w + h, w * h);
    var p := k / 4;
    SampleOf(k);
    assert p * 4 < |data|;
    assert r[k] == if k % 4 == 3 then data[k] else Normalised(d[p], maxDist, w + h);
    assert r[p * 4] == Normalised(d[p], maxDist, w + h);
    if Foreground(data, p) {
      DistanceMapBounds(data, w, h);
      assert d[p] == 0;
    }
  }

  // ---------------------------------------------------------------------
  // The transform as the source runs it.

  /** The first loop: 255 on the foreground, 0 elsewhere. */
  method ForegroundMatrix(data: seq<Byte>, width: nat, height: nat) returns (binaryMatrix: array<int>)
    requires |data| == width * height * 4
    ensures fresh(binaryMatrix) && binaryMatrix.Length == width * height
    ensures forall p :: 0 <= p < width * height ==>
      binaryMatrix[p] == if Foreground(data, p) then 255 else 0
  {
    binaryMatrix := new int[width * height](_ => 0);
    for y := 0 to height
      invariant forall p :: 0 <= p < y * width ==>
        binaryMatrix[p] == if Foreground(data, p) then 255 else 0
      invariant y * width <= width * height
    {
      RowShift(y, width);
      MulMono(y + 1, height, width);
      for x := 0 to width
        invariant forall p :: 0 <= p < y * width + x ==>
          binaryMatrix[p] == if Foreground(data, p) then 255 else 0
      {
        PixelBound(width, height, y, x);
        var i := (y * width + x) * 4;
        binaryMatrix[y * width + x] :=
          if data[i] > 128 || data[i + 1] > 128 || data[i + 2] > 128 then 255 else 0;
      }
    }
  }

  /** The second loop: the map with 0 on the foreground and INF elsewhere. */
  method InitialDistanceMap(data: seq<Byte>, width: nat, height: nat) returns (distanceMap: array<int>)
    requires |data| == width * height * 4
    ensures fresh(distanceMap) && distanceMap[..] == InitialMap(data, width, height)
  {
    var binaryMatrix := ForegroundMatrix(data, width, height);
    distanceMap := new int[width * height](_ => 0);
    var INF := width + height;
    for y := 0 to height
      modifies distanceMap
      invariant forall p :: 0 <= p < y * width ==>
        distanceMap[p] == if Foreground(data, p) then 0 else INF
      invariant y * width <= width * height
    {
      RowShift(y, width);
      MulMono(y + 1, height, width);
      for x := 0 to width
        modifies distanceMap
        invariant forall p :: 0 <= p < y * width + x ==>
          distanceMap[p] == if Foreground(data, p) then 0 else INF
      {
        PixelBound(width, height, y, x);
        var idx := y * width + x;
        distanceMap[idx] := if binaryMatrix[idx] == 255 then 0 else INF;
      }
    }
  }

  lemma ForwardUnfold(m0: seq<int>, w: nat, h: nat, p: nat)
    requires |m0| == w * h && p < |m0|
    ensures w > 0
    ensures Forward(m0, w, h, p + 1) == Forward(m0, w, h, p)[p := ForwardValue(Forward(m0, w, h, p), w, w + h, p)]
  {}

  /** The body of the forward loop at pixel (y, x). */
  method ForwardStep(distanceMap: array<int>, width: nat, height: nat, y: nat, x: nat)
    requires distanceMap.Length == width * height && y < height && x < width
    modifies distanceMap
    ensures y * width + x < distanceMap.Length
    ensures distanceMap[..] == old(distanceMap[..])[y * width + x :=
      ForwardValue(old(distanceMap[..]), width, width + height, y * width + x)]
  {
    PixelBound(width, height, y, x);
    DivModUnique(width, y, x);
    RowShift(y, width);
    RowColumn(y * width + x, width);
    var INF := width + height;
    var idx := y * width + x;
    if distanceMap[idx] == 0 {
      assert distanceMap[..][idx := 0] == distanceMap[..];
      return;
    }
    var minDist := INF;
    if y > 0 && x > 0 {
      minDist := Min(minDist, distanceMap[(y - 1) * width + (x - 1)] + 1);
    }
    if y > 0 {
      minDist := Min(minDist, distanceMap[(y - 1) * width + x] + 1);
    }
    if y > 0 && x < width - 1 {
      minDist := Min(minDist, distanceMap[(y - 1) * width + (x + 1)] + 1);
    }
    if x > 0 {
      minDist := Min(minDist, distanceMap[y * width + (x - 1)] + 1);
    }
    assert minDist == ForwardValue(distanceMap[..], width, INF, idx);
    distanceMap[idx] := minDist;
  }

  /** One row of the forward loop. */
  method ForwardRow(distanceMap: array<int>, width: nat, height: nat, y: nat, ghost m0: seq<int>)
    requires distanceMap.Length == width * height && |m0| == width * height && y < height
    requires y * width + width <= width * height
    requires distanceMap[..] == Forward(m0, width, height, y * width)
    modifies distanceMap
    ensures distanceMap[..] == Forward(m0, width, height, y * width + width)
  {
    for x := 0 to width
      invariant distanceMap[..] == Forward(m0, width, height, y * width + x)
    {
      PixelBound(width, height, y, x);
      ForwardUnfold(m0, width, height, y * width + x);
      ForwardStep(distanceMap, width, height, y, x);
    }
  }

  method ForwardPass(distanceMap: array<int>, width: nat, height: nat)
    requires distanceMap.Length == width * height
    modifies distanceMap
    ensures distanceMap[..] == Forward(old(distanceMap[..]), width, height, width * height)
  {
    ghost var m0 := distanceMap[..];
    for y := 0 to height
      invariant distanceMap[..] == Forward(m0, width, height, y * width)
    {
      RowFits(y, width, height);
      ForwardRow(distanceMap, width, height, y, m0);
    }
    assert height * width == width * height;
  }

  /** The body of the backward loop at pixel (y, x). */
  method BackwardStep(distanceMap: array<int>, width: nat, height: nat, y: nat, x: nat)
    requires distanceMap.Length == width * height && y < height && x < width
    modifies distanceMap
    ensures y * width + x < distanceMap.Length
    ensures distanceMap[..] == old(distanceMap[..])[y * width + x :=
      BackwardValue(old(distanceMap[..]), width, height, y * width + x)]
  {
    PixelBound(width, height, y, x);
    DivModUnique(width, y, x);
    RowShift(y, width);
    var idx := y * width + x;
    RowBelow(idx, width, height);
    ghost var m := distanceMap[..];
    if x < width - 1 {
      distanceMap[idx] := Min(distanceMap[idx], distanceMap[y * width + (x + 1)] + 1);
    }
    if y < height - 1 && x > 0 {
      distanceMap[idx] := Min(distanceMap[idx], distanceMap[(y + 1) * width + (x - 1)] + 1);
    }
    if y < height - 1 {
      distanceMap[idx] := Min(distanceMap[idx], distanceMap[(y + 1) * width + x] + 1);
    }
    if y < height - 1 && x < width - 1 {
      distanceMap[idx] := Min(distanceMap[idx], distanceMap[(y + 1) * width + (x + 1)] + 1);
    }
    assert distanceMap[idx] == BackwardValue(m, width, height, idx);
    assert distanceMap[..] == m[idx := distanceMap[idx]];
  }

  /** One row of the backward loop, from its last pixel to its first. */
  method BackwardRow(distanceMap: array<int>, width: nat, height: nat, y: nat, ghost m0: seq<int>)
    requires distanceMap.Length == width * height && |m0| == width * height && y < height
    requires y * width + width <= width * height
    requires distanceMap[..] == Backward(m0, width, height, width * height - (y * width + width))
    modifies distanceMap
    ensures distanceMap[..] == Backward(m0, width, height, width * height - y * width)
  {
    for x := width downto 0
      invariant distanceMap[..] == Backward(m0, width, height, width * height - (y * width + x))
    {
      PixelBound(width, height, y, x);
      BackwardStep(distanceMap, width, height, y, x);
    }
  }

  method BackwardPass(distanceMap: array<int>, width: nat, height: nat)
    requires distanceMap.Length == width * height
    modifies distanceMap
    ensures distanceMap[..] == Backward(old(distanceMap[..]), width, height, width * height)
  {
    ghost var m0 := distanceMap[..];
    assert height * width == width * height;
    for y := height downto 0
      invariant y * width <= width * height
      invariant distanceMap[..] == Backward(m0, width, height, width * height - y * width)
    {
      RowFits(y, width, height);
      BackwardRow(distanceMap, width, height, y, m0);
    }
    assert width * height - 0 * width == width * height;
  }

  method MaxDistance(distanceMap: seq<int>, inf: int) returns (maxDist: int)
    ensures maxDist == MaxFinite(distanceMap, inf, |distanceMap|)
  {
    maxDist := 0;
    for i := 0 to |distanceMap|
      invariant maxDist == MaxFinite(distanceMap, inf, i)
    {
      if distanceMap[i] != inf && distanceMap[i] > maxDist {
        maxDist := distanceMap[i];
      }
    }
  }

  /** One row of the output loop. */
  method WriteRow(result: array<Byte>, data: seq<Byte>, d: seq<int>, maxDist: int, width: nat, height: nat, y: nat)
    requires |data| == width * height * 4 && result.Length == |data| && |d| == width * height && y < height
    requires y * width + width <= width * height
    requires forall k :: 0 <= k < 4 * (y * width) ==>
      result[k] == if k % 4 == 3 then data[k] else Normalised(d[k / 4], maxDist, width + height)
    modifies result
    ensures forall k :: 0 <= k < 4 * (y * width + width) ==>
      result[k] == if k % 4 == 3 then data[k] else Normalised(d[k / 4], maxDist, width + height)
  {
    var INF := width + height;
    for x := 0 to width
      invariant forall k :: 0 <= k < 4 * (y * width + x) ==>
        result[k] == if k % 4 == 3 then data[k] else Normalised(d[k / 4], maxDist, INF)
    {
      var dist := d[y * width + x];
      var normalizedValue := Normalised(dist, maxDist, INF);
      var i := (y * width + x) * 4;
      result[i] := normalizedValue;
      result[i + 1] := normalizedValue;
      result[i + 2] := normalizedValue;
      result[i + 3] := data[i + 3];
      forall k | i <= k < i + 4
        ensures result[k] == if k % 4 == 3 then data[k] else Normalised(d[k / 4], maxDist, INF)
      {
        SampleOf(k);
        assert k / 4 == y * width + x;
      }
    }
  }

  /** The three loops that build the distance map. */
  method ComputeDistanceMap(data: seq<Byte>, width: nat, height: nat) returns (d: seq<int>)
    requires |data| == width * height * 4
    ensures d == DistanceMap(data, width, height)
  {
    var distanceMap := InitialDistanceMap(data, width, height);
    ForwardPass(distanceMap, width, height);
    BackwardPass(distanceMap, width, height);
    d := distanceMap[..];
  }

  /** The output loop. */
  method WriteOutput(data: seq<Byte>, d: seq<int>, maxDist: int, width: nat, height: nat) returns (r: seq<Byte>)
    requires |data| == width * height * 4 && |d| == width * height
    ensures r == NormalisedBuffer(data, d, maxDist, width + height)
  {
    var INF := width + height;
    var result := new Byte[|data|](_ => 0);
    for y := 0 to height
      invariant y * width <= width * height
      invariant forall k :: 0 <= k < 4 * (y * width) ==>
        result[k] == if k % 4 == 3 then data[k] else Normalised(d[k / 4], maxDist, INF)
    {
      RowFits(y, width, height);
      WriteRow(result, data, d, maxDist, width, height, y);
    }
    assert 4 * (height * width) == |data|;
    r := result[..];
    assert forall k :: 0 <= k < |r| ==> r[k] == NormalisedBuffer(data, d, maxDist, INF)[k];
  }

  method DistanceTransform(data: seq<Byte>, width: nat, height: nat) returns (r: seq<Byte>)
    requires |data| == width * height * 4
    ensures r == DistanceTransformed(data, width, height)
  {
    var d := ComputeDistanceMap(data, width, height);
    var INF := width + height;
    var maxDist := MaxDistance(d, INF);
    r := WriteOutput(data, d, maxDist, width, height);
  }

  // ---------------------------------------------------------------------
  // calculateP and getPupil.

  /** Sum of the red samples of pixels 0 .. n-1. */
  function RedSum(data: seq<Byte>, n: nat): int
    requires n * 4 <= |data|
  {
    if n == 0 then 0 else RedSum(data, n - 1) + data[(n - 1) * 4]
  }

  /** The mean red level; None where the source divides by a zero pixel
      count and returns NaN. */
  function MeanRed(data: seq<Byte>, w: nat, h: nat): Option<real>
    requires |data| == w * h * 4
  {
    if w * h == 0 then None else Some(RedSum(data, w * h) as real / (w * h) as real)
  }

  lemma {:induction false} RedSumBounds(data: seq<Byte>, n: nat)
    requires n * 4 <= |data|
    ensures 0 <= RedSum(data, n) <= 255 * n
  {
    if n > 0 {
      RedSumBounds(data, n - 1);
    }
  }

  /** The mean red level of a non-empty image lies in [0, 255]. */
  lemma MeanRedBounds(data: seq<Byte>, w: nat, h: nat)
    requires |data| == w * h * 4 && w * h > 0
    ensures MeanRed(data, w, h).Some?
    ensures 0.0 <= MeanRed(data, w, h).value <= 255.0
  {
    RedSumBounds(data, w * h);
    var n := (w * h) as real;
    var s := RedSum(data, w * h) as real;
    assert s <= 255.0 * n;
    assert s / n <= 255.0 * n / n;
  }

  /** One row of the summing loop. */
  method SumRow(data: seq<Byte>, width: nat, height: nat, y: nat, sum0: int) returns (sum: int)
    requires |data| == width * height * 4 && y < height && y * width + width <= width * height
    requires sum0 == RedSum(data, y * width)
    ensures sum == RedSum(data, y * width + width)
  {
    sum := sum0;
    for x := 0 to width
      invariant sum == RedSum(data, y * width + x)
    {
      sum := sum + data[(y * width + x) * 4];
    }
  }

  method CalculateP(data: seq<Byte>, width: nat, height: nat) returns (P: Option<real>)
    requires |data| == width * height * 4
    ensures P == MeanRed(data, width, height)
  {
    var sum: int := 0;
    for y := 0 to height
      invariant y * width <= width * height
      invariant sum == RedSum(data, y * width)
    {
      RowFits(y, width, height);
      sum := SumRow(data, width, height, y, sum);
    }
    assert height * width == width * height;
    if width * height == 0 {
      P := None;
    } else {
      P := Some(sum as real / (width * height) as real);
    }
  }

  /** The first binarisation threshold P / Xl. A division by zero gives
      +Infinity or NaN in the source, against which no pixel mean compares
      greater; 255 has the same effect. */
  function FirstThreshold(P: Option<real>, Xl: real): real
  {
    match P
    case None => 255.0
    case Some(p) => if Xl == 0.0 then 255.0 else p / Xl
  }

  /** The operations of the list, applied from the first to the last. */
  function ApplyOps(ops: seq<Morphology.EMorphology>, img: seq<Byte>, w: nat, h: nat, k: seq<seq<int>>): (r: seq<Byte>)
    requires |img| == w * h * 4 && Morphology.IsKernel(k)
    ensures |r| == |img|
    decreases |ops|
  {
    if |ops| == 0 then img
    else ApplyOps(ops[1..], Morphology.ApplyOp(ops[0], img, w, h, k), w, h, k)
  }

  /** Applying a longer list is applying the last operation to the result of
      the shorter one. */
  lemma {:induction false} ApplyOpsSnoc(ops: seq<Morphology.EMorphology>, op: Morphology.EMorphology,
                                        img: seq<Byte>, w: nat, h: nat, k: seq<seq<int>>)
    requires |img| == w * h * 4 && Morphology.IsKernel(k)
    ensures ApplyOps(ops + [op], img, w, h, k) ==
      Morphology.ApplyOp(op, ApplyOps(ops, img, w, h, k), w, h, k)
    decreases |ops|
  {
    if |ops| > 0 {
      assert (ops + [op])[1..] == ops[1..] + [op];
      ApplyOpsSnoc(ops[1..], op, Morphology.ApplyOp(ops[0], img, w, h, k), w, h, k);
    }
  }

  /** Running two lists one after the other is running their concatenation. */
  lemma {:induction false} ApplyOpsAppend(a: seq<Morphology.EMorphology>, b: seq<Morphology.EMorphology>,
                                          img: seq<Byte>, w: nat, h: nat, k: seq<seq<int>>)
    requires |img| == w * h * 4 && Morphology.IsKernel(k)
    ensures ApplyOps(a + b, img, w, h, k) == ApplyOps(b, ApplyOps(a, img, w, h, k), w, h, k)
    decreases |a|
  {
    if |a| == 0 {
      assert a + b == b;
    } else {
      assert (a + b)[1..] == a[1..] + b;
      ApplyOpsAppend(a[1..], b, Morphology.ApplyOp(a[0], img, w, h, k), w, h, k);
    }
  }

  /** The mask `getPupil` returns. */
  function PupilMask(data: seq<Byte>, w: nat, h: nat, Xl: real, threshold: real,
                     ops: seq<Morphology.EMorphology>, k: seq<seq<int>>): (r: seq<Byte>)
    requires |data| == w * h * 4 && Morphology.IsKernel(k)
    ensures |r| == |data|
  {
    var first := Manipulate.Binarized(data, FirstThreshold(MeanRed(data, w, h), Xl));
    var distances := DistanceTransformed(first, w, h);
    ApplyOps(ops, Manipulate.Binarized(distances, threshold), w, h, k)
  }

  /** With no operations the mask is the re-binarised distance image, whose
      colour samples are all 0 or 255. */
  lemma PupilMaskWithoutOps(data: seq<Byte>, w: nat, h: nat, Xl: real, threshold: real, k: seq<seq<int>>, i: nat)
    requires |data| == w * h * 4 && Morphology.IsKernel(k) && i < |data| && i % 4 < 3
    ensures PupilMask(data, w, h, Xl, threshold, [], k) ==
      Manipulate.Binarized(DistanceTransformed(Manipulate.Binarized(data, FirstThreshold(MeanRed(data, w, h), Xl)), w, h),
                           threshold)
    ensures var r := PupilMask(data, w, h, Xl, threshold, [], k);
      r[i] == 0 || r[i] == 255
  {
    var first := Manipulate.Binarized(data, FirstThreshold(MeanRed(data, w, h), Xl));
    var distances := DistanceTransformed(first, w, h);
    Manipulate.BinarizedValues(distances, threshold, i);
  }

  method ApplyOperation(op: Morphology.EMorphology, processed: seq<Byte>, width: nat, height: nat,
                        kernel: seq<seq<int>>) returns (r: seq<Byte>)
    requires |processed| == width * height * 4 && Morphology.IsKernel(kernel)
    ensures r == Morphology.ApplyOp(op, processed, width, height, kernel)
  {
    match op
    case Erode => r := Morphology.ErodeBuffer(processed, width, height, kernel);
    case Dilate => r := Morphology.DilateBuffer(processed, width, height, kernel);
    case Open => r := Morphology.OpenBuffer(processed, width, height, kernel);
    case Close => r := Morphology.CloseBuffer(processed, width, height, kernel);
  }

  /** The loop over the operation list. */
  method ApplyOperations(operations: seq<Morphology.EMorphology>, base: seq<Byte>, width: nat, height: nat,
                         kernel: seq<seq<int>>) returns (processed: seq<Byte>)
    requires |base| == width * height * 4 && Morphology.IsKernel(kernel)
    ensures processed == ApplyOps(operations, base, width, height, kernel)
  {
    processed := base;
    for i := 0 to |operations|
      invariant |processed| == width * height * 4
      invariant processed == ApplyOps(operations[..i], base, width, height, kernel)
    {
      ApplyOpsSnoc(operations[..i], operations[i], base, width, height, kernel);
      assert operations[..i + 1] == operations[..i] + [operations[i]];
      processed := ApplyOperation(operations[i], processed, width, height, kernel);
    }
    assert operations[..|operations|] == operations;
  }

  method GetPupil(data: seq<Byte>, width: nat, height: nat, Xl: real, threshold: real,
                  operations: seq<Morphology.EMorphology>, kernel: seq<seq<int>>) returns (r: seq<Byte>)
    requires |data| == width * height * 4 && Morphology.IsKernel(kernel)
    ensures r == PupilMask(data, width, height, Xl, threshold, operations, kernel)
  {
    var P := CalculateP(data, width, height);
    var processed := Manipulate.BinarizeClampedArray(data, width, height, FirstThreshold(P, Xl));
    processed := DistanceTransform(processed, width, height);
    processed := Manipulate.BinarizeClampedArray(processed, width, height, threshold);
    r := ApplyOperations(operations, processed, width, height, kernel);
  }
}
