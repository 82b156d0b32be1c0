/** The iris boundary profile of src/utils/iris.ts: the mean red level of
    the lattice points of an annulus around the pupil, the list of such
    means for growing radii (an empty ring repeats the previous mean) and
    the selection of the largest jumps in that list. */
module Iris {
  import opened Pixels

  // ---------------------------------------------------------------------
  // getMeanPixelValueInCircle.

  /** Running sum and count of the sampled red values. */
  datatype Acc = Acc(sum: int, count: int)

  function Plus(a: Acc, b: Acc): Acc { Acc(a.sum + b.sum, a.count + b.count) }

  /** Lattice point (i, j) lies in the closed annulus rIn <= d <= rOut
      around (x, y), compared on squares as the source does. */
  predicate InRing(x: int, y: int, rOut: int, rIn: int, i: int, j: int)
  {
    var d := (i - x) * (i - x) + (j - y) * (j - y);
    d <= rOut * rOut && d >= rIn * rIn
  }

  /** The red sample of pixel (j, i). */
  function Red(data: seq<Byte>, w: nat, h: nat, j: nat, i: nat): Byte
    requires |data| == w * h * 4 && j < h && i < w
  {
    PixelBound(w, h, j, i);
    data[(j * w + i) * 4]
  }

  /** The red values of the ring points of row j with iStart <= i < i1. */
  function ColsAcc(data: seq<Byte>, w: nat, h: nat, x: int, y: int, rOut: int, rIn: int,
                   j: nat, iStart: nat, i1: int): Acc
    requires |data| == w * h * 4 && j < h && (i1 <= iStart || i1 <= w)
    decreases i1 - iStart
  {
    if i1 <= iStart then Acc(0, 0)
    else
      var a := ColsAcc(data, w, h, x, y, rOut, rIn, j, iStart, i1 - 1);
      if InRing(x, y, rOut, rIn, i1 - 1, j) then Plus(a, Acc(Red(data, w, h, j, i1 - 1), 1))
      else a
  }

  /** The ring points of rows jStart <= j < j1, each row over
      iStart <= i < i1. */
  function RowsAcc(data: seq<Byte>, w: nat, h: nat, x: int, y: int, rOut: int, rIn: int,
                   jStart: nat, j1: int, iStart: nat, i1: int): Acc
    requires |data| == w * h * 4 && (j1 <= jStart || j1 <= h) && i1 <= w
    decreases j1 - jStart
  {
    if j1 <= jStart then Acc(0, 0)
    else Plus(RowsAcc(data, w, h, x, y, rOut, rIn, jStart, j1 - 1, iStart, i1),
              ColsAcc(data, w, h, x, y, rOut, rIn, j1 - 1, iStart, i1))
  }

  /** The accumulation over the scanned box: rows max(0, y - rOut) ..
      min(h - 1, y + rOut) and the same for the columns, both inclusive. */
  function CircleAcc(data: seq<Byte>, w: nat, h: nat, x: int, y: int, rOut: int, rIn: int): Acc
    requires |data| == w * h * 4
  {
    RowsAcc(data, w, h, x, y, rOut, rIn, Max(0, y - rOut), Min(h - 1, y + rOut) + 1,
            Max(0, x - rOut), Min(w - 1, x + rOut) + 1)
  }

  /** The mean, or None where the source returns null for an empty ring. */
  function CircleMean(data: seq<Byte>, w: nat, h: nat, centerX: real, centerY: real,
                      rOut: int, rIn: int): Option<real>
    requires |data| == w * h * 4
  {
    var acc := CircleAcc(data, w, h, JsRound(centerX), JsRound(centerY), rOut, rIn);
    if acc.count != 0 then Some(acc.sum as real / acc.count as real) else None
  }

  method GetMeanPixelValueInCircle(data: seq<Byte>, width: nat, height: nat, centerX: real, centerY: real,
                                   rOut: int, rIn: int) returns (r: Option<real>)
    requires |data| == width * height * 4
    ensures r == CircleMean(data, width, height, centerX, centerY, rOut, rIn)
  {
    var sum: int := 0;
    var count: int := 0;
    var x := JsRound(centerX);
    var y := JsRound(centerY);
    var jStart := Max(0, y - rOut);
    var jLast := Min(height - 1, y + rOut);
    var iStart := Max(0, x - rOut);
    var iLast := Min(width - 1, x + rOut);
    var j := jStart;
    while j <= jLast
      invariant jStart <= j <= Max(jStart, jLast + 1)
      invariant Acc(sum, count) == RowsAcc(data, width, height, x, y, rOut, rIn, jStart, j, iStart, iLast + 1)
      decreases jLast + 1 - j
    {
      var rowSum, rowCount := ScanRow(data, width, height, x, y, rOut, rIn, j, iStart, iLast);
      sum := sum + rowSum;
      count := count + rowCount;
      j := j + 1;
    }
    assert RowsAcc(data, width, height, x, y, rOut, rIn, jStart, j, iStart, iLast + 1) ==
           RowsAcc(data, width, height, x, y, rOut, rIn, jStart, jLast + 1, iStart, iLast + 1);
    r := if count != 0 then Some(sum as real / count as real) else None;
  }

  /** The inner loop of `getMeanPixelValueInCircle`, over row j. */
  method ScanRow(data: seq<Byte>, width: nat, height: nat, x: int, y: int, rOut: int, rIn: int,
                 j: nat, iStart: nat, iLast: int) returns (sum: int, count: int)
    requires |data| == width * height * 4 && j < height && iLast < width
    ensures Acc(sum, count) == ColsAcc(data, width, height, x, y, rOut, rIn, j, iStart, iLast + 1)
  {
    sum, count := 0, 0;
    var rOutSquared := rOut * rOut;
    var rInSquared := rIn * rIn;
    var i := iStart;
    while i <= iLast
      invariant iStart <= i <= Max(iStart, iLast + 1)
      invariant Acc(sum, count) == ColsAcc(data, width, height, x, y, rOut, rIn, j, iStart, i)
      decreases iLast + 1 - i
    {
      var distSquared := (i - x) * (i - x) + (j - y) * (j - y);
      assert (distSquared <= rOutSquared && distSquared >= rInSquared) == InRing(x, y, rOut, rIn, i, j);
      if distSquared <= rOutSquared && distSquared >= rInSquared {
        PixelBound(width, height, j, i);
        var idx := (j * width + i) * 4;
        assert data[idx] == Red(data, width, height, j, i);
        sum := sum + data[idx];
        count := count + 1;
      }
      i := i + 1;
    }
  }

  /** A row's count is never negative and its sum lies between 0 and 255
      per sampled point. */
  lemma {:induction false} ColsAccBounds(data: seq<Byte>, w: nat, h: nat, x: int, y: int, rOut: int, rIn: int,
                                         j: nat, iStart: nat, i1: int)
    requires |data| == w * h * 4 && j < h && (i1 <= iStart || i1 <= w)
    ensures var a := ColsAcc(data, w, h, x, y, rOut, rIn, j, iStart, i1);
      0 <= a.count && 0 <= a.sum <= 255 * a.count
    decreases i1 - iStart
  {
    if i1 > iStart {
      ColsAccBounds(data, w, h, x, y, rOut, rIn, j, iStart, i1 - 1);
    }
  }

  /** A row's count is 0 exactly when no point of its span is in the ring. */
  lemma {:induction false} ColsAccEmpty(data: seq<Byte>, w: nat, h: nat, x: int, y: int, rOut: int, rIn: int,
                                        j: nat, iStart: nat, i1: int)
    requires |data| == w * h * 4 && j < h && (i1 <= iStart || i1 <= w)
    ensures ColsAcc(data, w, h, x, y, rOut, rIn, j, iStart, i1).count == 0 <==>
      forall i :: iStart <= i < i1 ==> !InRing(x, y, rOut, rIn, i, j)
    decreases i1 - iStart
  {
    if i1 > iStart {
      ColsAccEmpty(data, w, h, x, y, rOut, rIn, j, iStart, i1 - 1);
      ColsAccBounds(data, w, h, x, y, rOut, rIn, j, iStart, i1 - 1);
    }
  }

  lemma {:induction false} RowsAccBounds(data: seq<Byte>, w: nat, h: nat, x: int, y: int, rOut: int, rIn: int,
                                         jStart: nat, j1: int, iStart: nat, i1: int)
    requires |data| == w * h * 4 && (j1 <= jStart || j1 <= h) && i1 <= w
    ensures var a := RowsAcc(data, w, h, x, y, rOut, rIn, jStart, j1, iStart, i1);
      0 <= a.count && 0 <= a.sum <= 255 * a.count
    decreases j1 - jStart
  {
    if j1 > jStart {
      RowsAccBounds(data, w, h, x, y, rOut, rIn, jStart, j1 - 1, iStart, i1);
      ColsAccBounds(data, w, h, x, y, rOut, rIn, j1 - 1, iStart, i1);
    }
  }

  /** The box's count is 0 exactly when no point of the box is in the ring. */
  lemma {:induction false} RowsAccEmpty(data: seq<Byte>, w: nat, h: nat, x: int, y: int, rOut: int, rIn: int,
                                        jStart: nat, j1: int, iStart: nat, i1: int)
    requires |data| == w * h * 4 && (j1 <= jStart || j1 <= h) && i1 <= w
    ensures RowsAcc(data, w, h, x, y, rOut, rIn, jStart, j1, iStart, i1).count == 0 <==>
      forall j, i :: jStart <= j < j1 && iStart <= i < i1 ==> !InRing(x, y, rOut, rIn, i, j)
    decreases j1 - jStart
  {
    if j1 > jStart {
      RowsAccEmpty(data, w, h, x, y, rOut, rIn, jStart, j1 - 1, iStart, i1);
      RowsAccBounds(data, w, h, x, y, rOut, rIn, jStart, j1 - 1, iStart, i1);
      ColsAccEmpty(data, w, h, x, y, rOut, rIn, j1 - 1, iStart, i1);
      ColsAccBounds(data, w, h, x, y, rOut, rIn, j1 - 1, iStart, i1);
      RowsSplit(x, y, rOut, rIn, jStart, j1 - 1, iStart, i1);
    }
  }

  /** No ring point in rows jStart .. last is no ring point in the rows
      before the last and none in the last. */
  lemma RowsSplit(x: int, y: int, rOut: int, rIn: int, jStart: int, last: int, iStart: int, i1: int)
    requires jStart <= last
    ensures (forall j, i :: jStart <= j <= last && iStart <= i < i1 ==> !InRing(x, y, rOut, rIn, i, j)) <==>
      (forall j, i :: jStart <= j < last && iStart <= i < i1 ==> !InRing(x, y, rOut, rIn, i, j)) &&
      (forall i :: iStart <= i < i1 ==> !InRing(x, y, rOut, rIn, i, last))
  {
    if (forall j, i :: jStart <= j < last && iStart <= i < i1 ==> !InRing(x, y, rOut, rIn, i, j)) &&
       (forall i :: iStart <= i < i1 ==> !InRing(x, y, rOut, rIn, i, last)) {
      forall j, i | jStart <= j <= last && iStart <= i < i1
        ensures !InRing(x, y, rOut, rIn, i, j)
      {
        if j == last {
          assert iStart <= i < i1;
        }
      }
    }
  }

  /** A square bounded by r * r with r >= 0 has its root within [-r, r]. */
  lemma SquareBound(d: int, r: int)
    requires r >= 0 && d * d <= r * r
    ensures -r <= d <= r
  {}

  /** A lattice point of the ring lies within rOut of the centre on each
      axis, so inside the scanned box once it is inside the image. */
  lemma RingInBox(x: int, y: int, rOut: int, rIn: int, i: int, j: int)
    requires rOut >= 0 && InRing(x, y, rOut, rIn, i, j)
    ensures x - rOut <= i <= x + rOut && y - rOut <= j <= y + rOut
  {
    SquareBound(i - x, rOut);
    SquareBound(j - y, rOut);
  }

  /** The mean of a non-empty ring lies in [0, 255]. */
  lemma CircleMeanBounds(data: seq<Byte>, w: nat, h: nat, centerX: real, centerY: real, rOut: int, rIn: int)
    requires |data| == w * h * 4
    requires CircleMean(data, w, h, centerX, centerY, rOut, rIn).Some?
    ensures 0.0 <= CircleMean(data, w, h, centerX, centerY, rOut, rIn).value <= 255.0
  {
    var x, y := JsRound(centerX), JsRound(centerY);
    RowsAccBounds(data, w, h, x, y, rOut, rIn, Max(0, y - rOut), Min(h - 1, y + rOut) + 1,
                  Max(0, x - rOut), Min(w - 1, x + rOut) + 1);
    var a := CircleAcc(data, w, h, x, y, rOut, rIn);
    MeanBetween(a.sum as real, a.count as real, 0.0, 255.0);
  }

  /** With rOut >= 0 the source returns null exactly when no pixel of the
      image lies in the annulus around the rounded centre. */
  lemma CircleMeanNoneIff(data: seq<Byte>, w: nat, h: nat, centerX: real, centerY: real, rOut: int, rIn: int)
    requires |data| == w * h * 4 && rOut >= 0
    ensures CircleMean(data, w, h, centerX, centerY, rOut, rIn).None? <==>
      forall j, i :: 0 <= j < h && 0 <= i < w ==> !InRing(JsRound(centerX), JsRound(centerY), rOut, rIn, i, j)
  {
    var x, y := JsRound(centerX), JsRound(centerY);
    RowsAccEmpty(data, w, h, x, y, rOut, rIn, Max(0, y - rOut), Min(h - 1, y + rOut) + 1,
                 Max(0, x - rOut), Min(w - 1, x + rOut) + 1);
    forall j, i | 0 <= j < h && 0 <= i < w && InRing(x, y, rOut, rIn, i, j)
      ensures Max(0, y - rOut) <= j < Min(h - 1, y + rOut) + 1 && Max(0, x - rOut) <= i < Min(w - 1, x + rOut) + 1
    {
      RingInBox(x, y, rOut, rIn, i, j);
    }
  }

  // ---------------------------------------------------------------------
  // listOfMeanPixelValuesInEyeStartingFromPupil.

  /** The first radius: 1 for rings (annulus [i - 1, i]), 0 for discs. */
  function FirstRadius(useRings: bool): int { if useRings then 1 else 0 }

  /** The mean for radius i: over the annulus [i - 1, i] or the disc [0, i]. */
  function RadiusMean(data: seq<Byte>, w: nat, h: nat, cx: real, cy: real, useRings: bool, i: int): Option<real>
    requires |data| == w * h * 4
  {
    CircleMean(data, w, h, cx, cy, i, if useRings then i - 1 else 0)
  }

  /** The first n entries of the list: entry k is the mean for radius
      FirstRadius + k * step, or, for an empty ring, the entry before it
      (0 for the first). */
  function MeanList(data: seq<Byte>, w: nat, h: nat, cx: real, cy: real, useRings: bool, step: int, n: nat): (r: seq<real>)
    requires |data| == w * h * 4
    ensures |r| == n
  {
    if n == 0 then []
    else
      var prev := MeanList(data, w, h, cx, cy, useRings, step, n - 1);
      match RadiusMean(data, w, h, cx, cy, useRings, FirstRadius(useRings) + (n - 1) * step)
      case Some(m) => prev + [m]
      case None => prev + [if n == 1 then 0.0 else prev[n - 2]]
  }

  /** The list grows by the entry for the next radius. */
  lemma MeanListNext(data: seq<Byte>, w: nat, h: nat, cx: real, cy: real, useRings: bool, step: int,
                     list: seq<real>, mean: Option<real>)
    requires |data| == w * h * 4
    requires list == MeanList(data, w, h, cx, cy, useRings, step, |list|)
    requires mean == RadiusMean(data, w, h, cx, cy, useRings, FirstRadius(useRings) + |list| * step)
    ensures MeanList(data, w, h, cx, cy, useRings, step, |list| + 1) ==
      list + [if mean.Some? then mean.value else if |list| == 0 then 0.0 else list[|list| - 1]]
  {}

  method ListOfMeanPixelValuesInEyeStartingFromPupil(data: seq<Byte>, width: nat, height: nat,
                                                    pupilCenterX: real, pupilCenterY: real,
                                                    eyeRadius: int, useRings: bool, step: int)
    returns (meanPixelValues: seq<real>)
    requires |data| == width * height * 4 && (step > 0 || eyeRadius <= FirstRadius(useRings))
    ensures meanPixelValues == MeanList(data, width, height, pupilCenterX, pupilCenterY, useRings, step, |meanPixelValues|)
    ensures forall k :: 0 <= k < |meanPixelValues| ==> FirstRadius(useRings) + k * step < eyeRadius
    ensures FirstRadius(useRings) + |meanPixelValues| * step >= eyeRadius
  {
    meanPixelValues := [];
    var i := FirstRadius(useRings);
    while i < eyeRadius
      invariant i == FirstRadius(useRings) + |meanPixelValues| * step
      invariant meanPixelValues == MeanList(data, width, height, pupilCenterX, pupilCenterY, useRings, step, |meanPixelValues|)
      invariant forall k :: 0 <= k < |meanPixelValues| ==> FirstRadius(useRings) + k * step < eyeRadius
      invariant step > 0 || i >= eyeRadius
      decreases eyeRadius - i
    {
      var meanPixelVal := GetMeanPixelValueInCircle(data, width, height, pupilCenterX, pupilCenterY, i,
                                                    if useRings then i - 1 else 0);
      MeanListNext(data, width, height, pupilCenterX, pupilCenterY, useRings, step, meanPixelValues, meanPixelVal);
      RowShift(|meanPixelValues|, step);
      if meanPixelVal.None? {
        if |meanPixelValues| == 0 {
          meanPixelValues := meanPixelValues + [0.0];
        } else {
          meanPixelValues := meanPixelValues + [meanPixelValues[|meanPixelValues| - 1]];
        }
      } else {
        meanPixelValues := meanPixelValues + [meanPixelVal.value];
      }
      i := i + step;
    }
  }

  /** A shorter list is a prefix of a longer one. */
  lemma {:induction false} MeanListPrefix(data: seq<Byte>, w: nat, h: nat, cx: real, cy: real,
                                          useRings: bool, step: int, n: nat, m: nat)
    requires |data| == w * h * 4 && m <= n
    ensures MeanList(data, w, h, cx, cy, useRings, step, n)[..m] == MeanList(data, w, h, cx, cy, useRings, step, m)
    decreases n
  {
    if m < n {
      MeanListPrefix(data, w, h, cx, cy, useRings, step, n - 1, m);
      var prev := MeanList(data, w, h, cx, cy, useRings, step, n - 1);
      assert MeanList(data, w, h, cx, cy, useRings, step, n)[..n - 1] == prev;
      assert MeanList(data, w, h, cx, cy, useRings, step, n)[..m] == prev[..m];
    }
  }

  /** Entry k is the mean for its radius when that ring has points, and
      otherwise repeats entry k - 1, or is 0 when k is the first. */
  lemma MeanListEntry(data: seq<Byte>, w: nat, h: nat, cx: real, cy: real, useRings: bool, step: int, n: nat, k: nat)
    requires |data| == w * h * 4 && k < n
    ensures var l := MeanList(data, w, h, cx, cy, useRings, step, n);
      match RadiusMean(data, w, h, cx, cy, useRings, FirstRadius(useRings) + k * step)
      case Some(m) => l[k] == m
      case None => l[k] == if k == 0 then 0.0 else l[k - 1]
  {
    MeanListPrefix(data, w, h, cx, cy, useRings, step, n, k + 1);
    var l := MeanList(data, w, h, cx, cy, useRings, step, n);
    var short := MeanList(data, w, h, cx, cy, useRings, step, k + 1);
    assert l[k] == short[k];
    if k > 0 {
      assert l[k - 1] == short[k - 1];
    }
  }

  /** Every entry of the list lies in [0, 255]. */
  lemma {:induction false} MeanListBounds(data: seq<Byte>, w: nat, h: nat, cx: real, cy: real,
                                          useRings: bool, step: int, n: nat)
    requires |data| == w * h * 4
    ensures forall k :: 0 <= k < n ==> 0.0 <= MeanList(data, w, h, cx, cy, useRings, step, n)[k] <= 255.0
  {
    if n > 0 {
      MeanListBounds(data, w, h, cx, cy, useRings, step, n - 1);
      var i := FirstRadius(useRings) + (n - 1) * step;
      var m := RadiusMean(data, w, h, cx, cy, useRings, i);
      if m.Some? {
        CircleMeanBounds(data, w, h, cx, cy, i, if useRings then i - 1 else 0);
      }
    }
  }

  // ---------------------------------------------------------------------
  // findLargestJumps.

  /** |data[i] - data[i - 1]|. */
  function Jump(data: seq<real>, i: nat): real
    requires 1 <= i < |data|
  {
    AbsReal(data[i] - data[i - 1])
  }

  /** Index i is a candidate: any index for the pupil jump, only those with
      pupilRadius + i > thresholdRadius for the iris jump. */
  predicate Candidate(restricted: bool, pupilRadius: real, thresholdRadius: real, i: int)
  {
    !restricted || pupilRadius + i as real > thresholdRadius
  }

  /** The first candidate index among 1 .. n - 1 with the largest jump: a
      stable sort by decreasing jump keeps the earliest of equal jumps
      first. */
  function BestJump(data: seq<real>, restricted: bool, pupilRadius: real, thresholdRadius: real, n: nat): (r: Option<nat>)
    requires n <= |data|
    ensures r.None? <==> forall i :: 1 <= i < n ==> !Candidate(restricted, pupilRadius, thresholdRadius, i)
    ensures r.Some? ==> 1 <= r.value < n && Candidate(restricted, pupilRadius, thresholdRadius, r.value)
    ensures r.Some? ==> forall i :: 1 <= i < n && Candidate(restricted, pupilRadius, thresholdRadius, i) ==>
      Jump(data, i) <= Jump(data, r.value)
    ensures r.Some? ==> forall i :: 1 <= i < r.value && Candidate(restricted, pupilRadius, thresholdRadius, i) ==>
      Jump(data, i) < Jump(data, r.value)
  {
    if n <= 1 then None
    else
      var b := BestJump(data, restricted, pupilRadius, thresholdRadius, n - 1);
      if !Candidate(restricted, pupilRadius, thresholdRadius, n - 1) then b
      else if b.None? || Jump(data, n - 1) > Jump(data, b.value) then Some(n - 1)
      else b
  }

  datatype Jumps = Jumps(pupilJump: Option<nat>, irisJump: Option<nat>)

  function FindLargestJumps(data: seq<real>, pupilRadius: real, thresholdRadius: real): (r: Jumps)
    ensures |data| < 2 ==> r == Jumps(None, None)
    ensures |data| >= 2 ==> r.pupilJump.Some?
  {
    if |data| < 2 then Jumps(None, None)
    else Jumps(BestJump(data, false, pupilRadius, thresholdRadius, |data|),
               BestJump(data, true, pupilRadius, thresholdRadius, |data|))
  }

  /** The pupil jump is the first index of the largest jump; the iris jump
      is the first index of the largest jump among those beyond the
      threshold radius, and absent when no index is beyond it. */
  lemma LargestJumpsProperties(data: seq<real>, pupilRadius: real, thresholdRadius: real)
    requires |data| >= 2
    ensures var r := FindLargestJumps(data, pupilRadius, thresholdRadius);
      r.pupilJump.Some? && 1 <= r.pupilJump.value < |data| &&
      (forall i :: 1 <= i < |data| ==> Jump(data, i) <= Jump(data, r.pupilJump.value)) &&
      (forall i :: 1 <= i < r.pupilJump.value ==> Jump(data, i) < Jump(data, r.pupilJump.value))
    ensures var r := FindLargestJumps(data, pupilRadius, thresholdRadius);
      (r.irisJump.None? <==> forall i :: 1 <= i < |data| ==> !Candidate(true, pupilRadius, thresholdRadius, i)) &&
      (r.irisJump.Some? ==>
        pupilRadius + r.irisJump.value as real > thresholdRadius &&
        (forall i :: 1 <= i < |data| && Candidate(true, pupilRadius, thresholdRadius, i) ==>
          Jump(data, i) <= Jump(data, r.irisJump.value)) &&
        (forall i :: 1 <= i < r.irisJump.value && Candidate(true, pupilRadius, thresholdRadius, i) ==>
          Jump(data, i) < Jump(data, r.irisJump.value)))
  {
    var r := FindLargestJumps(data, pupilRadius, thresholdRadius);
    assert Candidate(false, pupilRadius, thresholdRadius, 1);
    forall i | 1 <= i < |data|
      ensures Candidate(false, pupilRadius, thresholdRadius, i)
    {}
  }
}
