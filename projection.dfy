/** `detectPupilWithProjections` of src/utils/pupil.ts and its helpers
    `applyMovingAverage`, `findDensityRegions` and `findBestRegion`: the
    dark pixels (red below 128) are counted per row and per column, counts
    above 80% of the shorter side are zeroed, both projections are smoothed
    over a window of three, the runs above 10 become candidate bands, the
    best band of each axis is picked and the circle they describe is kept
    unless it is too elongated or too close to the border. */
module PupilProjection {
  import opened Pixels

  // ---------------------------------------------------------------------
  // Projections.

  /** Pixel (y, x) counts as black: its red sample is below 128. */
  predicate DarkAt(data: seq<Byte>, w: nat, h: nat, y: nat, x: nat)
    requires |data| == w * h * 4 && y < h && x < w
  {
    PixelBound(w, h, y, x);
    data[(y * w + x) * 4] < 128
  }

  /** Black pixels among the first n of row y. */
  function RowCount(data: seq<Byte>, w: nat, h: nat, y: nat, n: nat): nat
    requires |data| == w * h * 4 && y < h && n <= w
  {
    if n == 0 then 0 else RowCount(data, w, h, y, n - 1) + (if DarkAt(data, w, h, y, n - 1) then 1 else 0)
  }

  /** Black pixels among the first n of column x. */
  function ColCount(data: seq<Byte>, w: nat, h: nat, x: nat, n: nat): nat
    requires |data| == w * h * 4 && x < w && n <= h
  {
    if n == 0 then 0 else ColCount(data, w, h, x, n - 1) + (if DarkAt(data, w, h, n - 1, x) then 1 else 0)
  }

  function HorizontalProjection(data: seq<Byte>, w: nat, h: nat): seq<int>
    requires |data| == w * h * 4
  {
    seq(h, y requires 0 <= y < h => RowCount(data, w, h, y, w))
  }

  function VerticalProjection(data: seq<Byte>, w: nat, h: nat): seq<int>
    requires |data| == w * h * 4
  {
    seq(w, x requires 0 <= x < w => ColCount(data, w, h, x, h))
  }

  /** The counting loop of `detectPupilWithProjections`. */
  method Projections(data: seq<Byte>, width: nat, height: nat)
    returns (horizontalProj: array<int>, verticalProj: array<int>)
    requires |data| == width * height * 4
    ensures fresh(horizontalProj) && fresh(verticalProj) && horizontalProj != verticalProj
    ensures horizontalProj[..] == HorizontalProjection(data, width, height)
    ensures verticalProj[..] == VerticalProjection(data, width, height)
  {
    horizontalProj := new int[height](_ => 0);
    verticalProj := new int[width](_ => 0);
    for y := 0 to height
      invariant forall j :: 0 <= j < height ==>
        horizontalProj[j] == if j < y then RowCount(data, width, height, j, width) else 0
      invariant forall i :: 0 <= i < width ==> verticalProj[i] == ColCount(data, width, height, i, y)
    {
      for x := 0 to width
        invariant forall j :: 0 <= j < height ==>
          horizontalProj[j] == if j < y then RowCount(data, width, height, j, width)
                               else if j == y then RowCount(data, width, height, y, x) else 0
        invariant forall i :: 0 <= i < width ==>
          verticalProj[i] == if i < x then ColCount(data, width, height, i, y + 1) else ColCount(data, width, height, i, y)
      {
        PixelBound(width, height, y, x);
        var idx := (y * width + x) * 4;
        var isBlack := data[idx] < 128;
        assert isBlack == DarkAt(data, width, height, y, x);
        if isBlack {
          horizontalProj[y] := horizontalProj[y] + 1;
          verticalProj[x] := verticalProj[x] + 1;
        }
      }
    }
  }

  /** Sum of s[lo .. hi). */
  function IntSum(s: seq<int>, lo: nat, hi: nat): int
    requires lo <= hi <= |s|
    decreases hi - lo
  {
    if lo == hi then 0 else IntSum(s, lo, hi - 1) + s[hi - 1]
  }

  /** Black pixels of the first n rows, counted column by column over the
      first m columns. */
  function ColumnsUpTo(data: seq<Byte>, w: nat, h: nat, m: nat, n: nat): int
    requires |data| == w * h * 4 && m <= w && n <= h
  {
    if m == 0 then 0 else ColumnsUpTo(data, w, h, m - 1, n) + ColCount(data, w, h, m - 1, n)
  }

  lemma {:induction false} ColumnsUpToNextRow(data: seq<Byte>, w: nat, h: nat, m: nat, n: nat)
    requires |data| == w * h * 4 && m <= w && n < h
    ensures ColumnsUpTo(data, w, h, m, n + 1) == ColumnsUpTo(data, w, h, m, n) + RowCount(data, w, h, n, m)
  {
    if m > 0 {
      ColumnsUpToNextRow(data, w, h, m - 1, n);
    }
  }

  lemma {:induction false} VerticalTotal(data: seq<Byte>, w: nat, h: nat, m: nat)
    requires |data| == w * h * 4 && m <= w
    ensures IntSum(VerticalProjection(data, w, h), 0, m) == ColumnsUpTo(data, w, h, m, h)
  {
    if m > 0 {
      VerticalTotal(data, w, h, m - 1);
    }
  }

  lemma {:induction false} HorizontalTotal(data: seq<Byte>, w: nat, h: nat, n: nat)
    requires |data| == w * h * 4 && n <= h
    ensures IntSum(HorizontalProjection(data, w, h), 0, n) == ColumnsUpTo(data, w, h, w, n)
  {
    if n == 0 {
      ColumnsUpToZeroRows(data, w, h, w);
    } else {
      HorizontalTotal(data, w, h, n - 1);
      ColumnsUpToNextRow(data, w, h, w, n - 1);
    }
  }

  lemma {:induction false} ColumnsUpToZeroRows(data: seq<Byte>, w: nat, h: nat, m: nat)
    requires |data| == w * h * 4 && m <= w
    ensures ColumnsUpTo(data, w, h, m, 0) == 0
  {
    if m > 0 {
      ColumnsUpToZeroRows(data, w, h, m - 1);
    }
  }

  /** Both projections count every black pixel once. */
  lemma DarkCountsAgree(data: seq<Byte>, w: nat, h: nat)
    requires |data| == w * h * 4
    ensures IntSum(HorizontalProjection(data, w, h), 0, h) == IntSum(VerticalProjection(data, w, h), 0, w)
  {
    HorizontalTotal(data, w, h, h);
    VerticalTotal(data, w, h, w);
  }

  lemma {:induction false} RowCountBounds(data: seq<Byte>, w: nat, h: nat, y: nat, n: nat)
    requires |data| == w * h * 4 && y < h && n <= w
    ensures RowCount(data, w, h, y, n) <= n
    ensures RowCount(data, w, h, y, n) == 0 <==> forall x :: 0 <= x < n ==> !DarkAt(data, w, h, y, x)
  {
    if n > 0 {
      RowCountBounds(data, w, h, y, n - 1);
    }
  }

  lemma {:induction false} ColCountBounds(data: seq<Byte>, w: nat, h: nat, x: nat, n: nat)
    requires |data| == w * h * 4 && x < w && n <= h
    ensures ColCount(data, w, h, x, n) <= n
    ensures ColCount(data, w, h, x, n) == 0 <==> forall y :: 0 <= y < n ==> !DarkAt(data, w, h, y, x)
  {
    if n > 0 {
      ColCountBounds(data, w, h, x, n - 1);
    }
  }

  // ---------------------------------------------------------------------
  // Clipping.

  /** The clipping limit: 80% of the shorter side. */
  function MaxThreshold(w: nat, h: nat): real
  {
    Min(w, h) as real * 0.8
  }

  function Clipped(proj: seq<int>, limit: real): seq<int>
  {
    seq(|proj|, i requires 0 <= i < |proj| => if proj[i] as real > limit then 0 else proj[i])
  }

  /** One of the two clipping loops, in place on the projection. */
  method ClipProjection(proj: array<int>, maxThreshold: real)
    modifies proj
    ensures proj[..] == Clipped(old(proj[..]), maxThreshold)
  {
    for i := 0 to proj.Length
      invariant forall j :: 0 <= j < proj.Length ==>
        proj[j] == if j < i then Clipped(old(proj[..]), maxThreshold)[j] else old(proj[j])
    {
      if proj[i] as real > maxThreshold {
        proj[i] := 0;
      }
    }
  }

  /** A clipped entry is either zeroed or at most the limit, and was the
      original one when it was at most the limit; clipping twice is clipping
      once. */
  lemma ClippedProperties(proj: seq<int>, limit: real)
    ensures |Clipped(proj, limit)| == |proj|
    ensures forall i :: 0 <= i < |proj| ==>
      (proj[i] as real <= limit ==> Clipped(proj, limit)[i] == proj[i]) &&
      (proj[i] as real > limit ==> Clipped(proj, limit)[i] == 0)
    ensures Clipped(Clipped(proj, limit), limit) == Clipped(proj, limit)
  {}

  // ---------------------------------------------------------------------
  // Smoothing.

  /** First and last index (both inclusive) of the window around i. */
  function WindowLo(i: int, half: nat): int { Max(0, i - half) }
  function WindowHi(n: int, i: int, half: nat): int { Min(n - 1, i + half) }

  /** The mean of the window around i, which always holds i itself. */
  function SmoothedAt(s: seq<int>, half: nat, i: nat): real
    requires i < |s|
  {
    var lo := WindowLo(i, half);
    var hi := WindowHi(|s|, i, half);
    IntSum(s, lo, hi + 1) as real / (hi + 1 - lo) as real
  }

  function Smoothed(s: seq<int>, windowSize: nat): seq<real>
  {
    seq(|s|, i requires 0 <= i < |s| => SmoothedAt(s, windowSize / 2, i))
  }

  method ApplyMovingAverage(data: seq<int>, windowSize: nat) returns (r: seq<real>)
    ensures r == Smoothed(data, windowSize)
  {
    var result := new real[|data|](_ => 0.0);
    var halfWindow := windowSize / 2;
    for i := 0 to |data|
      invariant forall k :: 0 <= k < i ==> result[k] == SmoothedAt(data, halfWindow, k)
    {
      var sum: int := 0;
      var count: int := 0;
      var j := Max(0, i - halfWindow);
      var last := Min(|data| - 1, i + halfWindow);
      while j <= last
        invariant WindowLo(i, halfWindow) <= j <= last + 1
        invariant sum == IntSum(data, WindowLo(i, halfWindow), j)
        invariant count == j - WindowLo(i, halfWindow)
        decreases last + 1 - j
      {
        sum := sum + data[j];
        count := count + 1;
        j := j + 1;
      }
      result[i] := sum as real / count as real;
    }
    r := result[..];
  }

  lemma {:induction false} IntSumBounds(s: seq<int>, lo: nat, hi: nat, low: int, high: int)
    requires lo <= hi <= |s|
    requires forall k :: lo <= k < hi ==> low <= s[k] <= high
    ensures (hi - lo) * low <= IntSum(s, lo, hi) <= (hi - lo) * high
  {
    if lo < hi {
      IntSumBounds(s, lo, hi - 1, low, high);
      assert (hi - lo) * low == (hi - 1 - lo) * low + low;
      assert (hi - lo) * high == (hi - 1 - lo) * high + high;
    }
  }

  lemma CastProduct(a: int, b: int)
    ensures (a * b) as real == a as real * b as real
  {}

  lemma SmoothedAtBounds(s: seq<int>, half: nat, i: nat, low: int, high: int)
    requires i < |s|
    requires forall k :: 0 <= k < |s| ==> low <= s[k] <= high
    ensures low as real <= SmoothedAt(s, half, i) <= high as real
  {
    var lo := WindowLo(i, half);
    var hi := WindowHi(|s|, i, half);
    assert 0 <= lo <= i <= hi < |s|;
    var n := hi + 1 - lo;
    IntSumBounds(s, lo, hi + 1, low, high);
    var sum := IntSum(s, lo, hi + 1);
    assert n * low <= sum <= n * high;
    CastProduct(n, low);
    CastProduct(n, high);
    assert n as real * low as real <= sum as real <= n as real * high as real;
    MeanBetween(sum as real, n as real, low as real, high as real);
    assert SmoothedAt(s, half, i) == sum as real / n as real;
  }

  /** A smoothed value lies between the least and the greatest input value;
      in particular a constant projection is left as it is. */
  lemma SmoothedBounds(s: seq<int>, windowSize: nat, low: int, high: int)
    requires forall k :: 0 <= k < |s| ==> low <= s[k] <= high
    ensures |Smoothed(s, windowSize)| == |s|
    ensures forall i :: 0 <= i < |s| ==> low as real <= Smoothed(s, windowSize)[i] <= high as real
  {
    forall i | 0 <= i < |s|
      ensures low as real <= Smoothed(s, windowSize)[i] <= high as real
    {
      SmoothedAtBounds(s, windowSize / 2, i, low, high);
    }
  }

  /** A window of fewer than two samples leaves the projection unchanged. */
  lemma SmoothedNarrowWindow(s: seq<int>, windowSize: nat)
    requires windowSize < 2
    ensures |Smoothed(s, windowSize)| == |s|
    ensures forall i :: 0 <= i < |s| ==> Smoothed(s, windowSize)[i] == s[i] as real
  {
    forall i | 0 <= i < |s|
      ensures Smoothed(s, windowSize)[i] == s[i] as real
    {
      assert windowSize / 2 == 0;
      assert WindowLo(i, 0) == i && WindowHi(|s|, i, 0) == i;
      assert IntSum(s, i, i + 1) == s[i];
    }
  }

  // ---------------------------------------------------------------------
  // Density regions.

  /** A run of consecutive indices [start, end] and the sum of its values. */
  datatype Region = Region(start: int, end: int, sum: real)

  /** Sum of s[lo .. hi). */
  function RealSum(s: seq<real>, lo: nat, hi: nat): real
    requires lo <= hi <= |s|
    decreases hi - lo
  {
    if lo == hi then 0.0 else RealSum(s, lo, hi - 1) + s[hi - 1]
  }

  /** The first index at or after i whose value is not above t. */
  function RunEnd(p: seq<real>, t: real, i: nat): (e: nat)
    requires i <= |p|
    ensures i <= e <= |p|
    ensures forall j :: i <= j < e ==> p[j] > t
    ensures e < |p| ==> !(p[e] > t)
    decreases |p| - i
  {
    if i == |p| || !(p[i] > t) then i else RunEnd(p, t, i + 1)
  }

  /** The maximal runs of values above t from index i on, as a reference
      definition: a run starts at the first value above t and ends before
      the next value that is not. */
  function RegionsFrom(p: seq<real>, t: real, i: nat): seq<Region>
    requires i <= |p|
    decreases |p| - i
  {
    if i == |p| then []
    else if p[i] > t then
      var e := RunEnd(p, t, i);
      [Region(i, e - 1, RealSum(p, i, e))] + RegionsFrom(p, t, e)
    else RegionsFrom(p, t, i + 1)
  }

  function Regions(p: seq<real>, t: real): seq<Region>
  {
    RegionsFrom(p, t, 0)
  }

  /** All of [start, i) is above t, so the run from start ends where the
      run from i does. */
  lemma {:induction false} RunEndAfter(p: seq<real>, t: real, start: nat, i: nat)
    requires start <= i <= |p|
    requires forall j :: start <= j < i ==> p[j] > t
    ensures RunEnd(p, t, start) == RunEnd(p, t, i)
    decreases i - start
  {
    if start < i {
      RunEndAfter(p, t, start + 1, i);
    }
  }

  method FindDensityRegions(projection: seq<real>, minThreshold: real) returns (regions: seq<Region>)
    ensures regions == Regions(projection, minThreshold)
  {
    regions := [];
    var inRegion := false;
    var start := 0;
    var sum := 0.0;
    for i := 0 to |projection|
      invariant 0 <= start <= i
      invariant !inRegion ==>
        regions + RegionsFrom(projection, minThreshold, i) == Regions(projection, minThreshold)
      invariant inRegion ==>
        start < i && (forall j :: start <= j < i ==> projection[j] > minThreshold) &&
        sum == RealSum(projection, start, i) &&
        regions + RegionsFrom(projection, minThreshold, start) == Regions(projection, minThreshold)
    {
      if projection[i] > minThreshold {
        if !inRegion {
          inRegion := true;
          start := i;
          sum := 0.0;
        }
        sum := sum + projection[i];
      } else if inRegion {
        RunEndAfter(projection, minThreshold, start, i);
        var region := Region(start, i - 1, sum);
        assert RegionsFrom(projection, minThreshold, start) ==
          [region] + RegionsFrom(projection, minThreshold, i + 1);
        assert regions + [region] + RegionsFrom(projection, minThreshold, i + 1) ==
          regions + ([region] + RegionsFrom(projection, minThreshold, i + 1));
        regions := regions + [region];
        inRegion := false;
      }
    }
    if inRegion {
      RunEndAfter(projection, minThreshold, start, |projection|);
      var region := Region(start, |projection| - 1, sum);
      assert RegionsFrom(projection, minThreshold, start) == [region];
      regions := regions + [region];
    }
  }

  /** Index i does not continue a run: it is the first index, an index
      past a value not above t, or an index whose own value is not above t. */
  predicate FreshStart(p: seq<real>, t: real, i: nat)
    requires i <= |p|
  {
    i == 0 || i == |p| || !(p[i - 1] > t) || !(p[i] > t)
  }

  /** Region r is a maximal run of values above t whose sum is recorded. */
  predicate MaximalRun(p: seq<real>, t: real, r: Region)
  {
    0 <= r.start <= r.end < |p| &&
    (forall j :: r.start <= j <= r.end ==> p[j] > t) &&
    (r.start == 0 || !(p[r.start - 1] > t)) &&
    (r.end == |p| - 1 || !(p[r.end + 1] > t)) &&
    r.sum == RealSum(p, r.start, r.end + 1)
  }

  predicate AllMaximal(p: seq<real>, t: real, rs: seq<Region>, i: int)
  {
    forall k :: 0 <= k < |rs| ==> MaximalRun(p, t, rs[k]) && i <= rs[k].start
  }

  /** Each region ends at least two indices before the next one starts. */
  predicate Apart(rs: seq<Region>)
  {
    forall k :: 0 <= k < |rs| - 1 ==> rs[k].end + 1 < rs[k + 1].start
  }

  predicate Covers(p: seq<real>, t: real, rs: seq<Region>, i: nat)
  {
    forall j :: i <= j < |p| && p[j] > t ==> exists k :: 0 <= k < |rs| && rs[k].start <= j <= rs[k].end
  }

  /** Every region found from i on is a maximal run starting at or after i. */
  lemma {:induction false} RegionsFromMaximal(p: seq<real>, t: real, i: nat)
    requires i <= |p| && FreshStart(p, t, i)
    ensures AllMaximal(p, t, RegionsFrom(p, t, i), i)
    decreases |p| - i
  {
    var rs := RegionsFrom(p, t, i);
    if i < |p| && p[i] > t {
      var e := RunEnd(p, t, i);
      var r := Region(i, e - 1, RealSum(p, i, e));
      var rest := RegionsFrom(p, t, e);
      RegionsFromMaximal(p, t, e);
      assert rs == [r] + rest;
      assert MaximalRun(p, t, r);
      forall k | 0 <= k < |rs|
        ensures MaximalRun(p, t, rs[k]) && i <= rs[k].start
      {
        if k > 0 {
          assert rs[k] == rest[k - 1];
        }
      }
    } else if i < |p| {
      RegionsFromMaximal(p, t, i + 1);
    }
  }

  lemma {:induction false} RegionsFromApart(p: seq<real>, t: real, i: nat)
    requires i <= |p| && FreshStart(p, t, i)
    ensures Apart(RegionsFrom(p, t, i))
    decreases |p| - i
  {
    var rs := RegionsFrom(p, t, i);
    if i < |p| && p[i] > t {
      var e := RunEnd(p, t, i);
      var r := Region(i, e - 1, RealSum(p, i, e));
      var rest := RegionsFrom(p, t, e);
      RegionsFromApart(p, t, e);
      RegionsFromMaximal(p, t, e);
      assert rs == [r] + rest;
      forall k | 0 <= k < |rs| - 1
        ensures rs[k].end + 1 < rs[k + 1].start
      {
        if k == 0 {
          assert rs[1] == rest[0];
          assert MaximalRun(p, t, rest[0]) && e <= rest[0].start;
        } else {
          assert rs[k] == rest[k - 1] && rs[k + 1] == rest[k];
        }
      }
    } else if i < |p| {
      RegionsFromApart(p, t, i + 1);
    }
  }

  lemma {:induction false} RegionsFromCovers(p: seq<real>, t: real, i: nat)
    requires i <= |p|
    ensures Covers(p, t, RegionsFrom(p, t, i), i)
    decreases |p| - i
  {
    var rs := RegionsFrom(p, t, i);
    if i < |p| && p[i] > t {
      var e := RunEnd(p, t, i);
      var r := Region(i, e - 1, RealSum(p, i, e));
      var rest := RegionsFrom(p, t, e);
      RegionsFromCovers(p, t, e);
      assert rs == [r] + rest;
      forall j | i <= j < |p| && p[j] > t
        ensures exists k :: 0 <= k < |rs| && rs[k].start <= j <= rs[k].end
      {
        if j < e {
          assert rs[0].start <= j <= rs[0].end;
        } else {
          var k' :| 0 <= k' < |rest| && rest[k'].start <= j <= rest[k'].end;
          assert rs[k' + 1] == rest[k'];
        }
      }
    } else if i < |p| {
      RegionsFromCovers(p, t, i + 1);
    }
  }

  /** The regions are the maximal runs above t, in order and apart, and
      cover every value above t; no region is found exactly when no value
      is above t. */
  lemma RegionsShape(p: seq<real>, t: real)
    ensures AllMaximal(p, t, Regions(p, t), 0)
    ensures Apart(Regions(p, t))
    ensures Covers(p, t, Regions(p, t), 0)
    ensures |Regions(p, t)| == 0 <==> forall j :: 0 <= j < |p| ==> !(p[j] > t)
  {
    RegionsFromMaximal(p, t, 0);
    RegionsFromApart(p, t, 0);
    RegionsFromCovers(p, t, 0);
    var rs := Regions(p, t);
    if |rs| > 0 {
      assert MaximalRun(p, t, rs[0]);
      assert p[rs[0].start] > t;
    }
  }

  // ---------------------------------------------------------------------
  // The best region.

  function Size(r: Region): int { r.end - r.start }

  /** The regions spanning at least five steps, in their order. */
  function LongRegions(regions: seq<Region>): (long: seq<Region>)
    ensures forall r :: r in long <==> r in regions && Size(r) >= 5
    ensures AllLong(long)
    ensures |long| <= |regions|
  {
    if |regions| == 0 then []
    else (if Size(regions[0]) >= 5 then [regions[0]] else []) + LongRegions(regions[1..])
  }

  /** Mean value of the region times its size capped at 50. */
  function Quality(r: Region): real
    requires Size(r) > 0
  {
    (r.sum / Size(r) as real) * Min(Size(r), 50) as real
  }

  predicate AllLong(regions: seq<Region>)
  {
    forall k :: 0 <= k < |regions| ==> Size(regions[k]) >= 5
  }

  /** Index of the first best-quality region among the first n. */
  function FirstBest(regions: seq<Region>, n: nat): (b: nat)
    requires 1 <= n <= |regions| && AllLong(regions)
    ensures b < n
    ensures forall j :: 0 <= j < n ==> Quality(regions[j]) <= Quality(regions[b])
    ensures forall j :: 0 <= j < b ==> Quality(regions[j]) < Quality(regions[b])
  {
    if n == 1 then 0
    else
      var b := FirstBest(regions, n - 1);
      if Quality(regions[n - 1]) > Quality(regions[b]) then n - 1 else b
  }

  function BestRegion(regions: seq<Region>): (best: Option<Region>)
    ensures best.None? <==> |regions| == 0
    ensures best.Some? ==> best.value in regions
    ensures best.Some? && |LongRegions(regions)| == 0 ==> best.value == regions[0]
    ensures best.Some? && |LongRegions(regions)| > 0 ==>
      Size(best.value) >= 5 &&
      forall r :: r in regions && Size(r) >= 5 ==> Quality(r) <= Quality(best.value)
    ensures best.Some? && |LongRegions(regions)| > 0 ==>
      var long := LongRegions(regions);
      best.value == long[FirstBest(long, |long|)]
  {
    if |regions| == 0 then None
    else
      var long := LongRegions(regions);
      if |long| == 0 then Some(regions[0])
      else
        assert AllLong(long) by {
          forall k | 0 <= k < |long| ensures Size(long[k]) >= 5 {
            assert long[k] in long;
          }
        }
        var b := FirstBest(long, |long|);
        assert long[b] in long;
        assert forall r :: r in long ==> Quality(r) <= Quality(long[b]);
        Some(long[b])
  }

  method FindBestRegion(regions: seq<Region>) returns (best: Option<Region>)
    ensures best == BestRegion(regions)
  {
    if |regions| == 0 {
      return None;
    }
    var filteredRegions := LongRegions(regions);
    if |filteredRegions| == 0 {
      return Some(regions[0]);
    }
    assert AllLong(filteredRegions) by {
      forall k | 0 <= k < |filteredRegions| ensures Size(filteredRegions[k]) >= 5 {
        assert filteredRegions[k] in filteredRegions;
      }
    }
    var qualityScores := seq(|filteredRegions|, i requires 0 <= i < |filteredRegions| => Quality(filteredRegions[i]));
    var bestIndex := 0;
    var bestScore := qualityScores[0];
    for i := 1 to |qualityScores|
      invariant bestIndex == FirstBest(filteredRegions, i) && bestScore == qualityScores[bestIndex]
    {
      if qualityScores[i] > bestScore {
        bestScore := qualityScores[i];
        bestIndex := i;
      }
    }
    best := Some(filteredRegions[bestIndex]);
  }

  // ---------------------------------------------------------------------
  // The decision.

  datatype Circle = Circle(centerX: int, centerY: int, radius: int)

  /** `max / min > 2` over the two half-extents: a positive value over zero
      is +Infinity (rejected), zero over zero is NaN (never greater). */
  predicate AspectRejected(hr: real, wr: real)
  {
    var mx := if hr >= wr then hr else wr;
    var mn := if hr <= wr then hr else wr;
    if mn == 0.0 then mx > 0.0 else mx / mn > 2.0
  }

  /** Middle of a band, rounded half up. */
  function Centre(r: Region): int
  {
    JsRound(r.start as real + (r.end - r.start) as real / 2.0)
  }

  function HalfExtent(r: Region): real
  {
    (r.end - r.start) as real / 2.0
  }

  /** The circle of two chosen bands, or None when it is too elongated or
      its centre lies within half a radius of a border. */
  function Decide(bh: Region, bv: Region, w: nat, h: nat): Option<Circle>
  {
    var centerY := Centre(bh);
    var centerX := Centre(bv);
    var radius := JsRound((HalfExtent(bh) + HalfExtent(bv)) / 2.0);
    if AspectRejected(HalfExtent(bh), HalfExtent(bv)) then None
    else
      var margin := radius as real * 0.5;
      if centerX as real < margin || centerY as real < margin ||
         centerX as real > w as real - margin || centerY as real > h as real - margin
      then None
      else Some(Circle(centerX, centerY, radius))
  }

  function DetectionFromProjections(smoothedHorizontal: seq<real>, smoothedVertical: seq<real>,
                                    w: nat, h: nat): Option<Circle>
  {
    var hRegions := Regions(smoothedHorizontal, 10.0);
    var vRegions := Regions(smoothedVertical, 10.0);
    if |hRegions| == 0 || |vRegions| == 0 then None
    else
      match (BestRegion(hRegions), BestRegion(vRegions))
      case (Some(bh), Some(bv)) => Decide(bh, bv, w, h)
      case _ => None
  }

  function SmoothedHorizontal(data: seq<Byte>, w: nat, h: nat): seq<real>
    requires |data| == w * h * 4
  {
    Smoothed(Clipped(HorizontalProjection(data, w, h), MaxThreshold(w, h)), 3)
  }

  function SmoothedVertical(data: seq<Byte>, w: nat, h: nat): seq<real>
    requires |data| == w * h * 4
  {
    Smoothed(Clipped(VerticalProjection(data, w, h), MaxThreshold(w, h)), 3)
  }

  function Detection(data: seq<Byte>, w: nat, h: nat): Option<Circle>
    requires |data| == w * h * 4
  {
    DetectionFromProjections(SmoothedHorizontal(data, w, h), SmoothedVertical(data, w, h), w, h)
  }

  /** The part of `detectPupilWithProjections` after the smoothing. */
  method SelectCircle(smoothedHorizontal: seq<real>, smoothedVertical: seq<real>, width: nat, height: nat)
    returns (r: Option<Circle>)
    ensures r == DetectionFromProjections(smoothedHorizontal, smoothedVertical, width, height)
  {
    var hRegions := FindDensityRegions(smoothedHorizontal, 10.0);
    var vRegions := FindDensityRegions(smoothedVertical, 10.0);
    if |hRegions| == 0 || |vRegions| == 0 {
      return None;
    }
    var bestHRegion := FindBestRegion(hRegions);
    var bestVRegion := FindBestRegion(vRegions);
    if bestHRegion.None? || bestVRegion.None? {
      return None;
    }
    r := Decide(bestHRegion.value, bestVRegion.value, width, height);
  }

  method DetectPupilWithProjections(data: seq<Byte>, width: nat, height: nat) returns (r: Option<Circle>)
    requires |data| == width * height * 4
    ensures r == Detection(data, width, height)
  {
    var horizontalProj, verticalProj := Projections(data, width, height);
    var maxThreshold := Min(width, height) as real * 0.8;
    ClipProjection(horizontalProj, maxThreshold);
    ClipProjection(verticalProj, maxThreshold);
    var smoothedHorizontal := ApplyMovingAverage(horizontalProj[..], 3);
    var smoothedVertical := ApplyMovingAverage(verticalProj[..], 3);
    assert smoothedHorizontal == SmoothedHorizontal(data, width, height);
    assert smoothedVertical == SmoothedVertical(data, width, height);
    r := SelectCircle(smoothedHorizontal, smoothedVertical, width, height);
  }

  // ---------------------------------------------------------------------
  // Properties of the detection.

  /** The rounded middle of a band lies inside it. */
  lemma CentreInside(r: Region)
    requires r.start <= r.end
    ensures r.start <= Centre(r) <= r.end
  {}

  /** A circle of two bands with start <= end is centred inside both, at
      least half a radius from every border, with a non-negative radius. */
  lemma DecideSound(bh: Region, bv: Region, w: nat, h: nat)
    requires bh.start <= bh.end && bv.start <= bv.end
    requires Decide(bh, bv, w, h).Some?
    ensures var c := Decide(bh, bv, w, h).value;
      c.centerX == Centre(bv) && c.centerY == Centre(bh) &&
      bh.start <= c.centerY <= bh.end && bv.start <= c.centerX <= bv.end &&
      c.radius >= 0 && !AspectRejected(HalfExtent(bh), HalfExtent(bv)) &&
      c.radius as real * 0.5 <= c.centerX as real <= w as real - c.radius as real * 0.5 &&
      c.radius as real * 0.5 <= c.centerY as real <= h as real - c.radius as real * 0.5
  {
    CentreInside(bh);
    CentreInside(bv);
  }

  /** A detected circle is centred on a row and a column whose smoothed
      projections exceed 10, at least half a radius from every border, with
      a non-negative radius, and comes from one region of each axis whose
      half-extents are within a factor of two of each other. */
  lemma DetectionSound(hs: seq<real>, vs: seq<real>, w: nat, h: nat)
    requires DetectionFromProjections(hs, vs, w, h).Some?
    ensures var c := DetectionFromProjections(hs, vs, w, h).value;
      0 <= c.centerY < |hs| && hs[c.centerY] > 10.0 &&
      0 <= c.centerX < |vs| && vs[c.centerX] > 10.0 &&
      c.radius >= 0 &&
      c.radius as real * 0.5 <= c.centerX as real <= w as real - c.radius as real * 0.5 &&
      c.radius as real * 0.5 <= c.centerY as real <= h as real - c.radius as real * 0.5
    ensures var c := DetectionFromProjections(hs, vs, w, h).value;
      exists bh, bv :: bh in Regions(hs, 10.0) && bv in Regions(vs, 10.0) &&
        c.centerX == Centre(bv) && c.centerY == Centre(bh) &&
        !AspectRejected(HalfExtent(bh), HalfExtent(bv))
  {
    DetectionDecided(hs, vs, w, h);
    var bh := BestRegion(Regions(hs, 10.0)).value;
    var bv := BestRegion(Regions(vs, 10.0)).value;
    BestIsMaximal(hs, 10.0);
    BestIsMaximal(vs, 10.0);
    DecideSound(bh, bv, w, h);
  }

  /** A detection passed both emptiness checks and is the decision on the
      two best regions. */
  lemma DetectionDecided(hs: seq<real>, vs: seq<real>, w: nat, h: nat)
    requires DetectionFromProjections(hs, vs, w, h).Some?
    ensures |Regions(hs, 10.0)| > 0 && |Regions(vs, 10.0)| > 0
    ensures DetectionFromProjections(hs, vs, w, h) ==
      Decide(BestRegion(Regions(hs, 10.0)).value, BestRegion(Regions(vs, 10.0)).value, w, h)
  {}

  /** The best region of a non-empty list of regions is a maximal run. */
  lemma BestIsMaximal(p: seq<real>, t: real)
    requires |Regions(p, t)| > 0
    ensures BestRegion(Regions(p, t)).Some?
    ensures BestRegion(Regions(p, t)).value in Regions(p, t)
    ensures MaximalRun(p, t, BestRegion(Regions(p, t)).value)
  {
    var rs := Regions(p, t);
    RegionsFromMaximal(p, t, 0);
    assert AllMaximal(p, t, rs, 0);
    var best := BestRegion(rs).value;
    var k :| 0 <= k < |rs| && rs[k] == best;
    assert MaximalRun(p, t, rs[k]);
  }

  /** With no value above 10 on one axis nothing is detected. */
  lemma {:induction false} NoBandNoPupil(hs: seq<real>, vs: seq<real>, w: nat, h: nat)
    requires (forall j :: 0 <= j < |hs| ==> hs[j] <= 10.0) || (forall j :: 0 <= j < |vs| ==> vs[j] <= 10.0)
    ensures DetectionFromProjections(hs, vs, w, h) == None
  {
    RegionsShape(hs, 10.0);
    RegionsShape(vs, 10.0);
  }

  /** An image without a single black pixel yields no pupil. */
  lemma NoDarkPixelNoPupil(data: seq<Byte>, w: nat, h: nat)
    requires |data| == w * h * 4
    requires forall y, x :: 0 <= y < h && 0 <= x < w ==> !DarkAt(data, w, h, y, x)
    ensures Detection(data, w, h) == None
  {
    var hp := HorizontalProjection(data, w, h);
    forall y | 0 <= y < h ensures hp[y] == 0 {
      RowCountBounds(data, w, h, y, w);
    }
    var hc := Clipped(hp, MaxThreshold(w, h));
    assert forall k :: 0 <= k < |hc| ==> 0 <= hc[k] <= 0;
    SmoothedBounds(hc, 3, 0, 0);
    NoBandNoPupil(SmoothedHorizontal(data, w, h), SmoothedVertical(data, w, h), w, h);
  }
}
