/** The integer parts of src/utils/irisCode.ts: the comparison of two iris
    codes by the smallest fraction of differing bits over circular column
    shifts -8 .. 8, the sign bits of the Gabor responses and their 16 x 128
    layout, and the resampling of the mean list to 128 entries. */
module IrisCode {
  import opened Pixels

  // ---------------------------------------------------------------------
  // createIrisComparisonReport.

  datatype CompareError =
    | DimensionMismatch   // different row counts or first-row lengths: the source throws
    | MissingFirstRow     // both codes empty: reading the first row's length throws

  datatype Result<T> = Success(value: T) | Failure(error: CompareError)

  datatype Report = Report(isMatch: bool, distance: real, shift: int)

  /** The shifts tried, in order. */
  const MinShift: int := -8
  const MaxShift: int := 8

  /** A code cell; off the row (including a negative column) it reads
      `undefined`, which equals only another `undefined`. */
  function Cell(code: seq<seq<int>>, i: int, j: int): Option<int>
  {
    if 0 <= i < |code| && 0 <= j < |code[i]| then Some(code[i][j]) else None
  }

  function Cols(code: seq<seq<int>>): nat
  {
    if |code| == 0 then 0 else |code[0]|
  }

  /** `(j + shift + cols) % cols` with the truncating remainder. */
  function ShiftedColumn(j: int, shift: int, cols: nat): int
  {
    if cols == 0 then 0 else JsRem(j + shift + cols, cols)
  }

  predicate Differs(code1: seq<seq<int>>, code2: seq<seq<int>>, i: int, j: int, shift: int)
  {
    Cell(code1, i, j) != Cell(code2, i, ShiftedColumn(j, shift, Cols(code1)))
  }

  /** Differing cells among the first n columns of row i. */
  function RowDifferences(code1: seq<seq<int>>, code2: seq<seq<int>>, i: int, shift: int, n: nat): nat
  {
    if n == 0 then 0
    else RowDifferences(code1, code2, i, shift, n - 1) + (if Differs(code1, code2, i, n - 1, shift) then 1 else 0)
  }

  /** Differing cells among the first m rows, each over Cols(code1) columns. */
  function Differences(code1: seq<seq<int>>, code2: seq<seq<int>>, shift: int, m: nat): nat
  {
    if m == 0 then 0
    else Differences(code1, code2, shift, m - 1) + RowDifferences(code1, code2, m - 1, shift, Cols(code1))
  }

  /** The distance at one shift; None where the source divides 0 by 0 bits
      and gets NaN, which never compares below the running minimum. */
  function ShiftDistance(code1: seq<seq<int>>, code2: seq<seq<int>>, shift: int): Option<real>
  {
    var totalBits := |code1| * Cols(code1);
    if totalBits == 0 then None
    else Some(Differences(code1, code2, shift, |code1|) as real / totalBits as real)
  }

  /** The running (minDistance, optimalShift) after the first k shifts,
      starting from (1.0, 0) and replacing on a strictly smaller distance. */
  function BestShift(code1: seq<seq<int>>, code2: seq<seq<int>>, k: nat): (real, int)
  {
    if k == 0 then (1.0, 0)
    else
      var best := BestShift(code1, code2, k - 1);
      var shift := MinShift + (k - 1);
      match ShiftDistance(code1, code2, shift)
      case Some(d) => if d < best.0 then (d, shift) else best
      case None => best
  }

  function ShiftCount(): nat { MaxShift - MinShift + 1 }

  function Compare(code1: seq<seq<int>>, code2: seq<seq<int>>, threshold: real): Result<Report>
  {
    if |code1| != |code2| then Failure(DimensionMismatch)
    else if |code1| == 0 then Failure(MissingFirstRow)
    else if |code1[0]| != |code2[0]| then Failure(DimensionMismatch)
    else
      var best := BestShift(code1, code2, ShiftCount());
      Success(Report(best.0 < threshold, best.0, best.1))
  }

  /** The two inner loops for one shift. */
  method CountDifferences(code1: seq<seq<int>>, code2: seq<seq<int>>, shift: int) returns (differences: nat)
    requires |code1| > 0
    ensures differences == Differences(code1, code2, shift, |code1|)
  {
    differences := 0;
    var cols := |code1[0]|;
    for i := 0 to |code1|
      invariant differences == Differences(code1, code2, shift, i)
    {
      ghost var before := differences;
      for j := 0 to cols
        invariant differences == before + RowDifferences(code1, code2, i, shift, j)
      {
        var shiftedJ := JsRem(j + shift + cols, cols);
        assert shiftedJ == ShiftedColumn(j, shift, Cols(code1));
        if Cell(code1, i, j) != Cell(code2, i, shiftedJ) {
          differences := differences + 1;
        }
      }
    }
  }

  method CreateIrisComparisonReport(code1: seq<seq<int>>, code2: seq<seq<int>>, threshold: real)
    returns (r: Result<Report>)
    ensures r == Compare(code1, code2, threshold)
  {
    if |code1| != |code2| {
      return Failure(DimensionMismatch);
    }
    if |code1| == 0 {
      return Failure(MissingFirstRow);
    }
    if |code1[0]| != |code2[0]| {
      return Failure(DimensionMismatch);
    }
    var minDistance := 1.0;
    var optimalShift := 0;
    var shift := MinShift;
    while shift <= MaxShift
      invariant MinShift <= shift <= MaxShift + 1
      invariant (minDistance, optimalShift) == BestShift(code1, code2, shift - MinShift)
      decreases MaxShift - shift
    {
      var differences := CountDifferences(code1, code2, shift);
      var totalBits := |code1| * |code1[0]|;
      if totalBits != 0 {
        var distance := differences as real / totalBits as real;
        if distance < minDistance {
          minDistance := distance;
          optimalShift := shift;
        }
      }
      shift := shift + 1;
    }
    r := Success(Report(minDistance < threshold, minDistance, optimalShift));
  }

  // ---------------------------------------------------------------------
  // Properties of the comparison.

  lemma {:induction false} RowDifferencesBound(code1: seq<seq<int>>, code2: seq<seq<int>>, i: int, shift: int, n: nat)
    ensures RowDifferences(code1, code2, i, shift, n) <= n
  {
    if n > 0 {
      RowDifferencesBound(code1, code2, i, shift, n - 1);
    }
  }

  lemma {:induction false} DifferencesBound(code1: seq<seq<int>>, code2: seq<seq<int>>, shift: int, m: nat)
    ensures Differences(code1, code2, shift, m) <= m * Cols(code1)
  {
    if m > 0 {
      var c := Cols(code1);
      DifferencesBound(code1, code2, shift, m - 1);
      RowDifferencesBound(code1, code2, m - 1, shift, c);
      assert Differences(code1, code2, shift, m) ==
        Differences(code1, code2, shift, m - 1) + RowDifferences(code1, code2, m - 1, shift, c);
      RowShift(m, c);
    }
  }

  /** The distance at a shift, where defined, is a fraction in [0, 1]. */
  lemma ShiftDistanceBounds(code1: seq<seq<int>>, code2: seq<seq<int>>, shift: int)
    ensures ShiftDistance(code1, code2, shift).None? <==> |code1| * Cols(code1) == 0
    ensures ShiftDistance(code1, code2, shift).Some? ==>
      0.0 <= ShiftDistance(code1, code2, shift).value <= 1.0
  {
    DifferencesBound(code1, code2, shift, |code1|);
    var total := |code1| * Cols(code1);
    if total != 0 {
      var d := Differences(code1, code2, shift, |code1|);
      MeanBetween(d as real, total as real, 0.0, 1.0);
    }
  }

  /** After the first k shifts the running minimum is at most 1 and at most
      every defined distance so far; it is either the initial (1.0, 0) with
      no distance below 1, or the distance of its shift, strictly smaller
      than the distance of every earlier shift. */
  lemma {:induction false} BestShiftProperties(code1: seq<seq<int>>, code2: seq<seq<int>>, k: nat)
    ensures var best := BestShift(code1, code2, k);
      0.0 <= best.0 <= 1.0 &&
      (forall t :: MinShift <= t < MinShift + k && ShiftDistance(code1, code2, t).Some? ==>
        best.0 <= ShiftDistance(code1, code2, t).value)
    ensures var best := BestShift(code1, code2, k);
      (best == (1.0, 0) &&
        forall t :: MinShift <= t < MinShift + k && ShiftDistance(code1, code2, t).Some? ==>
          ShiftDistance(code1, code2, t).value >= 1.0) ||
      (MinShift <= best.1 < MinShift + k && ShiftDistance(code1, code2, best.1) == Some(best.0) && best.0 < 1.0 &&
        forall t :: MinShift <= t < best.1 && ShiftDistance(code1, code2, t).Some? ==>
          ShiftDistance(code1, code2, t).value > best.0)
  {
    if k > 0 {
      BestShiftProperties(code1, code2, k - 1);
      ShiftDistanceBounds(code1, code2, MinShift + (k - 1));
    }
  }

  /** The report: an error exactly for codes of different shape or two
      empty codes; otherwise a distance in [0, 1] that is at most the
      distance at every shift, a match exactly below the threshold, and a
      shift that is 0 when no shift gets below 1 and otherwise the first
      shift reaching the distance. */
  lemma ComparisonReport(code1: seq<seq<int>>, code2: seq<seq<int>>, threshold: real)
    ensures Compare(code1, code2, threshold) == Failure(DimensionMismatch) <==>
      |code1| != |code2| || (|code1| > 0 && |code1[0]| != |code2[0]|)
    ensures Compare(code1, code2, threshold) == Failure(MissingFirstRow) <==> |code1| == |code2| == 0
    ensures Compare(code1, code2, threshold).Success? ==>
      var rep := Compare(code1, code2, threshold).value;
      0.0 <= rep.distance <= 1.0 && (rep.isMatch <==> rep.distance < threshold) &&
      MinShift <= rep.shift <= MaxShift
    ensures Compare(code1, code2, threshold).Success? ==>
      var rep := Compare(code1, code2, threshold).value;
      (forall t :: MinShift <= t <= MaxShift && ShiftDistance(code1, code2, t).Some? ==>
        rep.distance <= ShiftDistance(code1, code2, t).value) &&
      (rep.distance < 1.0 ==>
        (ShiftDistance(code1, code2, rep.shift) == Some(rep.distance) &&
         forall t :: MinShift <= t < rep.shift && ShiftDistance(code1, code2, t).Some? ==>
           ShiftDistance(code1, code2, t).value > rep.distance))
    ensures Compare(code1, code2, threshold).Success? &&
            !(Compare(code1, code2, threshold).value.distance < 1.0) ==>
      Compare(code1, code2, threshold).value == Report(1.0 < threshold, 1.0, 0)
    ensures Compare(code1, code2, threshold).Success? && Cols(code1) == 0 ==>
      Compare(code1, code2, threshold).value == Report(1.0 < threshold, 1.0, 0)
  {
    BestShiftProperties(code1, code2, ShiftCount());
    if |code1| > 0 && Cols(code1) == 0 {
      forall t ensures ShiftDistance(code1, code2, t).None? {
        assert |code1| * Cols(code1) == 0;
      }
    }
  }

  /** Every row of the code has the first row's length. */
  predicate Rectangular(code: seq<seq<int>>)
  {
    forall i :: 0 <= i < |code| ==> |code[i]| == Cols(code)
  }

  /** Adding one period leaves a remainder unchanged. */
  lemma ModPeriod(x: int, n: int)
    requires n > 0
    ensures (x + n) % n == x % n
  {
    var q, r := x / n, x % n;
    DivModUnique(n, q + 1, r);
    assert (q + 1) * n + r == x + n;
  }

  /** Where the argument is non-negative, the shifted column is the
      Euclidean remainder of j + shift. */
  lemma ShiftedColumnMod(j: int, shift: int, cols: nat)
    requires cols > 0 && j + shift + cols >= 0
    ensures ShiftedColumn(j, shift, cols) == (j + shift) % cols
  {
    ModPeriod(j + shift, cols);
  }

  lemma {:induction false} RowDifferencesSelf(code: seq<seq<int>>, i: nat, n: nat)
    requires i < |code| && n <= Cols(code)
    ensures RowDifferences(code, code, i, 0, n) == 0
  {
    if n > 0 {
      RowDifferencesSelf(code, i, n - 1);
      ShiftedColumnMod(n - 1, 0, Cols(code));
      DivModUnique(Cols(code), 0, n - 1);
    }
  }

  lemma {:induction false} DifferencesSelf(code: seq<seq<int>>, m: nat)
    requires m <= |code|
    ensures Differences(code, code, 0, m) == 0
  {
    if m > 0 {
      DifferencesSelf(code, m - 1);
      RowDifferencesSelf(code, m - 1, Cols(code));
    }
  }

  /** A code with a non-empty first row compared with itself is at
      distance 0 and matches under every positive threshold, whatever the
      lengths of its other rows: at shift 0 every cell, defined or not, is
      compared with itself. */
  lemma SelfComparison(code: seq<seq<int>>, threshold: real)
    requires |code| > 0 && Cols(code) > 0
    ensures Compare(code, code, threshold).Success?
    ensures Compare(code, code, threshold).value.distance == 0.0
    ensures Compare(code, code, threshold).value.isMatch <==> threshold > 0.0
  {
    DifferencesSelf(code, |code|);
    ComparisonReport(code, code, threshold);
    assert ShiftDistance(code, code, 0) == Some(0.0);
  }

  // Circular reindexing of a count, used for symmetry.

  /** Number of indices in [a, b) where f holds. */
  function Count(f: int -> bool, a: int, b: int): nat
    decreases b - a
  {
    if b <= a then 0 else Count(f, a, b - 1) + (if f(b - 1) then 1 else 0)
  }

  lemma {:induction false} CountFront(f: int -> bool, a: int, b: int)
    requires a < b
    ensures Count(f, a, b) == (if f(a) then 1 else 0) + Count(f, a + 1, b)
    decreases b - a
  {
    if a + 1 < b {
      CountFront(f, a, b - 1);
    }
  }

  lemma {:induction false} CountExt(f: int -> bool, g: int -> bool, a: int, b: int)
    requires forall x :: a <= x < b ==> f(x) == g(x)
    ensures Count(f, a, b) == Count(g, a, b)
    decreases b - a
  {
    if a < b {
      CountExt(f, g, a, b - 1);
    }
  }

  /** Counting g over [a, b) where g(x) = f(x + d) is counting f over
      [a + d, b + d). */
  lemma {:induction false} CountShift(f: int -> bool, g: int -> bool, d: int, a: int, b: int)
    requires forall x :: g(x) == f(x + d)
    ensures Count(g, a, b) == Count(f, a + d, b + d)
    decreases b - a
  {
    if a < b {
      CountShift(f, g, d, a, b - 1);
    }
  }

  /** For f of period n, every window of n indices holds the same count. */
  lemma {:induction false} CountPeriodic(f: int -> bool, n: nat, d: int)
    requires n > 0 && forall x :: f(x + n) == f(x)
    ensures Count(f, d, d + n) == Count(f, 0, n)
    decreases if d < 0 then -d else d
  {
    if d > 0 {
      CountPeriodic(f, n, d - 1);
      CountFront(f, d - 1, d - 1 + n);
      assert f(d - 1 + n) == f(d - 1);
    } else if d < 0 {
      CountPeriodic(f, n, d + 1);
      CountFront(f, d, d + n);
      assert f(d + n) == f(d);
    }
  }

  lemma {:induction false} RowDifferencesAsCount(code1: seq<seq<int>>, code2: seq<seq<int>>, i: int, shift: int,
                                                 f: int -> bool, n: nat)
    requires forall j :: 0 <= j < n ==> f(j) == Differs(code1, code2, i, j, shift)
    ensures RowDifferences(code1, code2, i, shift, n) == Count(f, 0, n)
  {
    if n > 0 {
      RowDifferencesAsCount(code1, code2, i, shift, f, n - 1);
    }
  }

  /** Two codes of the same rectangular shape with at least 8 columns, so
      that no shifted column goes negative. */
  predicate SameShape(code1: seq<seq<int>>, code2: seq<seq<int>>)
  {
    Rectangular(code1) && Rectangular(code2) && |code1| == |code2| && Cols(code1) == Cols(code2) >= MaxShift
  }

  /** Cell x of row a against cell x + s of row b, both read circularly. */
  predicate Mismatch(a: seq<int>, b: seq<int>, s: int, x: int)
    requires |a| == |b| > 0
  {
    a[x % |a|] != b[(x + s) % |a|]
  }

  /** A row's differences are the circular mismatches over one period. */
  lemma RowAsMismatchCount(code1: seq<seq<int>>, code2: seq<seq<int>>, i: nat, s: int)
    requires SameShape(code1, code2) && i < |code1| && -MaxShift <= s <= MaxShift
    ensures RowDifferences(code1, code2, i, s, Cols(code1)) ==
            Count(x => Mismatch(code1[i], code2[i], s, x), 0, Cols(code1))
  {
    var n := Cols(code1);
    var a, b := code1[i], code2[i];
    var g := x => Mismatch(a, b, s, x);
    forall j | 0 <= j < n
      ensures g(j) == Differs(code1, code2, i, j, s)
    {
      ShiftedColumnMod(j, s, n);
      DivModUnique(n, 0, j);
      var t := (j + s) % n;
      assert Cell(code1, i, j) == Some(a[j]);
      assert Cell(code2, i, t) == Some(b[t]);
    }
    RowDifferencesAsCount(code1, code2, i, s, g, n);
  }

  /** Mismatches of a against b at shift s, over one period, are as many
      as those of b against a at shift -s. */
  lemma MismatchCountSwap(a: seq<int>, b: seq<int>, s: int)
    requires |a| == |b| > 0
    ensures Count(x => Mismatch(a, b, s, x), 0, |a|) == Count(x => Mismatch(b, a, -s, x), 0, |a|)
  {
    var n := |a|;
    var g := x => Mismatch(a, b, s, x);
    var hh := x => g(x - s);
    CountShift(g, hh, -s, 0, n);
    forall x ensures g(x + n) == g(x) {
      ModPeriod(x, n);
      ModPeriod(x + s, n);
      assert x + n + s == (x + s) + n;
    }
    CountPeriodic(g, n, -s);
    forall x | 0 <= x < n
      ensures hh(x) == Mismatch(b, a, -s, x)
    {
      assert x - s + s == x;
    }
    CountExt(hh, x => Mismatch(b, a, -s, x), 0, n);
  }

  /** One row differs in as many cells at shift s as the swapped row at -s. */
  lemma RowDifferencesSymmetric(code1: seq<seq<int>>, code2: seq<seq<int>>, i: nat, s: int)
    requires SameShape(code1, code2) && i < |code1| && -MaxShift <= s <= MaxShift
    ensures RowDifferences(code1, code2, i, s, Cols(code1)) == RowDifferences(code2, code1, i, -s, Cols(code2))
  {
    RowAsMismatchCount(code1, code2, i, s);
    RowAsMismatchCount(code2, code1, i, -s);
    MismatchCountSwap(code1[i], code2[i], s);
  }

  lemma {:induction false} DifferencesSymmetric(code1: seq<seq<int>>, code2: seq<seq<int>>, s: int, m: nat)
    requires SameShape(code1, code2) && m <= |code1| && -MaxShift <= s <= MaxShift
    ensures Differences(code1, code2, s, m) == Differences(code2, code1, -s, m)
  {
    if m > 0 {
      DifferencesSymmetric(code1, code2, s, m - 1);
      RowDifferencesSymmetric(code1, code2, m - 1, s);
    }
  }

  /** Comparing in either order gives the same distance, since the shift
      range is symmetric. */
  lemma ComparisonSymmetric(code1: seq<seq<int>>, code2: seq<seq<int>>, threshold: real)
    requires SameShape(code1, code2) && |code1| > 0
    ensures Compare(code1, code2, threshold).Success? && Compare(code2, code1, threshold).Success?
    ensures Compare(code1, code2, threshold).value.distance == Compare(code2, code1, threshold).value.distance
  {
    ComparisonReport(code1, code2, threshold);
    ComparisonReport(code2, code1, threshold);
    forall s | -MaxShift <= s <= MaxShift
      ensures ShiftDistance(code1, code2, s) == ShiftDistance(code2, code1, -s)
    {
      DifferencesSymmetric(code1, code2, s, |code1|);
    }
    var d1 := Compare(code1, code2, threshold).value.distance;
    var d2 := Compare(code2, code1, threshold).value.distance;
    var s1 := Compare(code1, code2, threshold).value.shift;
    var s2 := Compare(code2, code1, threshold).value.shift;
    if d1 < 1.0 {
      assert ShiftDistance(code2, code1, -s1) == Some(d1);
    }
    if d2 < 1.0 {
      assert ShiftDistance(code1, code2, -s2) == Some(d2);
    }
  }

  // ---------------------------------------------------------------------
  // generateDaugmanIrisCode: the code layout.

  /** A Gabor response, computed by floating-point code that is not part of
      this model. */
  datatype Complex = Complex(re: real, im: real)

  /** The two sign bits of a response: 1 for a real part <= 0 and 1 for a
      negative imaginary part. */
  function ComplexToPart(c: Complex): (bits: (int, int))
    ensures bits.0 == 1 <==> c.re <= 0.0
    ensures bits.1 == 1 <==> c.im < 0.0
    ensures bits.0 in {0, 1} && bits.1 in {0, 1}
  {
    (if c.re <= 0.0 then 1 else 0, if c.im < 0.0 then 1 else 0)
  }

  const Segments: nat := 8
  const CodeWidth: nat := 128

  /** responses[s][k] is the response of segment s at position k. */
  predicate ResponseShape(responses: seq<seq<Complex>>)
  {
    |responses| == Segments && forall s :: 0 <= s < Segments ==> |responses[s]| == CodeWidth
  }

  /** Rows 2s and 2s + 1 hold the real and the imaginary bits of segment s. */
  function CodeBit(responses: seq<seq<Complex>>, row: nat, k: nat): int
    requires ResponseShape(responses) && row < 2 * Segments && k < CodeWidth
  {
    var bits := ComplexToPart(responses[row / 2][k]);
    if row % 2 == 0 then bits.0 else bits.1
  }

  function IrisCodeOf(responses: seq<seq<Complex>>): seq<seq<int>>
    requires ResponseShape(responses)
  {
    seq(2 * Segments, row requires 0 <= row < 2 * Segments =>
      seq(CodeWidth, k requires 0 <= k < CodeWidth => CodeBit(responses, row, k)))
  }

  /** The segment loop of `generateDaugmanIrisCode`, given the responses. */
  method AssembleIrisCode(responses: seq<seq<Complex>>) returns (irisCode: array2<int>)
    requires ResponseShape(responses)
    ensures fresh(irisCode) && irisCode.Length0 == 2 * Segments && irisCode.Length1 == CodeWidth
    ensures forall row, k :: 0 <= row < 2 * Segments && 0 <= k < CodeWidth ==>
      irisCode[row, k] == IrisCodeOf(responses)[row][k]
  {
    irisCode := new int[2 * Segments, CodeWidth]((_, _) => 0);
    for segment := 0 to Segments
      invariant forall row, k :: 0 <= row < 2 * Segments && 0 <= k < CodeWidth ==>
        irisCode[row, k] == if row < 2 * segment then CodeBit(responses, row, k) else 0
    {
      for k := 0 to CodeWidth
        invariant forall row, k' :: 0 <= row < 2 * Segments && 0 <= k' < CodeWidth ==>
          irisCode[row, k'] ==
            if row < 2 * segment || ((row == 2 * segment || row == 2 * segment + 1) && k' < k)
            then CodeBit(responses, row, k') else 0
      {
        var parts := ComplexToPart(responses[segment][k]);
        irisCode[2 * segment, k] := parts.0;
        irisCode[2 * segment + 1, k] := parts.1;
      }
    }
  }

  /** The code is 16 x 128 bits; row 2s holds the real and row 2s + 1 the
      imaginary sign bits of segment s. */
  lemma IrisCodeLayout(responses: seq<seq<Complex>>)
    requires ResponseShape(responses)
    ensures var code := IrisCodeOf(responses);
      |code| == 16 && Rectangular(code) && Cols(code) == 128 &&
      (forall row, k :: 0 <= row < 16 && 0 <= k < 128 ==> code[row][k] in {0, 1})
    ensures var code := IrisCodeOf(responses);
      forall s, k :: 0 <= s < 8 && 0 <= k < 128 ==>
        (code[2 * s][k] == 1 <==> responses[s][k].re <= 0.0) &&
        (code[2 * s + 1][k] == 1 <==> responses[s][k].im < 0.0)
  {
    var code := IrisCodeOf(responses);
    forall row, k | 0 <= row < 16 && 0 <= k < 128 ensures code[row][k] in {0, 1} {
      var bits := ComplexToPart(responses[row / 2][k]);
    }
    forall s, k | 0 <= s < 8 && 0 <= k < 128
      ensures (code[2 * s][k] == 1 <==> responses[s][k].re <= 0.0) &&
              (code[2 * s + 1][k] == 1 <==> responses[s][k].im < 0.0)
    {
      assert (2 * s) / 2 == s && (2 * s + 1) / 2 == s;
    }
  }

  /** Two codes assembled from responses always have the same shape, so
      their comparison reports a distance, equal in both orders. */
  lemma AssembledCodesCompare(r1: seq<seq<Complex>>, r2: seq<seq<Complex>>, threshold: real)
    requires ResponseShape(r1) && ResponseShape(r2)
    ensures Compare(IrisCodeOf(r1), IrisCodeOf(r2), threshold).Success?
    ensures Compare(IrisCodeOf(r1), IrisCodeOf(r1), threshold).value.distance == 0.0
    ensures Compare(IrisCodeOf(r1), IrisCodeOf(r2), threshold).value.distance ==
            Compare(IrisCodeOf(r2), IrisCodeOf(r1), threshold).value.distance
  {
    IrisCodeLayout(r1);
    IrisCodeLayout(r2);
    SelfComparison(IrisCodeOf(r1), threshold);
    ComparisonSymmetric(IrisCodeOf(r1), IrisCodeOf(r2), threshold);
  }

  /** Rows [s * (h / 8), (s + 1) * (h / 8)) of the normalised image feed
      segment s; the eight ranges tile the first 8 * (h / 8) rows. */
  function SegmentStart(s: nat, normalizedHeight: nat): nat
  {
    s * (normalizedHeight / Segments)
  }

  lemma SegmentsTile(s: nat, normalizedHeight: nat)
    requires s < Segments
    ensures SegmentStart(s, normalizedHeight) <= SegmentStart(s + 1, normalizedHeight) <= normalizedHeight
  {
    var q := normalizedHeight / Segments;
    MulMono(s, s + 1, q);
    MulMono(s + 1, Segments, q);
    assert Segments * q <= normalizedHeight;
  }

  /** The red sample of pixel (x, y) of an RGBA image nw pixels wide. */
  function RedAt(img: seq<Byte>, nw: nat, nh: nat, y: nat, x: nat): Byte
    requires |img| == nw * nh * 4 && y < nh && x < nw
  {
    IdxBound(nw, nh, y, x, 0);
    img[Idx(nw, y, x, 0)]
  }

  /** Row y of the red channel. */
  function RedRow(img: seq<Byte>, nw: nat, nh: nat, y: nat): (row: seq<Byte>)
    requires |img| == nw * nh * 4 && y < nh
    ensures |row| == nw && forall x :: 0 <= x < nw ==> row[x] == RedAt(img, nw, nh, y, x)
  {
    seq(nw, x requires 0 <= x < nw => RedAt(img, nw, nh, y, x))
  }

  /** The rows handed to `gaussianWeightedMean` for segment s: the red
      channel of rows [SegmentStart(s), SegmentStart(s + 1)) of the RGBA
      normalised image, each row nw samples wide. */
  function SegmentData(img: seq<Byte>, nw: nat, nh: nat, s: nat): (rows: seq<seq<Byte>>)
    requires |img| == nw * nh * 4 && s < Segments
    ensures SegmentStart(s, nh) + |rows| == SegmentStart(s + 1, nh) <= nh
    ensures forall i :: 0 <= i < |rows| ==> rows[i] == RedRow(img, nw, nh, SegmentStart(s, nh) + i)
  {
    SegmentsTile(s, nh);
    var q := nh / Segments;
    var y0 := SegmentStart(s, nh);
    assert y0 + q == SegmentStart(s + 1, nh) by {
      assert (s + 1) * q == s * q + q;
    }
    seq(q, i requires 0 <= i < q => RedRow(img, nw, nh, y0 + i))
  }

  // ---------------------------------------------------------------------
  // The resampling loop of gaussianWeightedMean.

  /** `Math.min(Math.floor(k * n / 128), n - 1)`. */
  function ResampleIndex(k: nat, n: nat): int
  {
    Min(k * n / CodeWidth, n - 1)
  }

  /** Entry k of the resampled list; None reads past an empty list. */
  function Resampled(meanList: seq<real>): (r: seq<Option<real>>)
    ensures |r| == CodeWidth
  {
    seq(CodeWidth, k requires 0 <= k < CodeWidth =>
      var idx := ResampleIndex(k, |meanList|);
      if 0 <= idx < |meanList| then Some(meanList[idx]) else None)
  }

  method ResampleMeans(meanList: seq<real>) returns (finalList: seq<Option<real>>)
    ensures finalList == Resampled(meanList)
  {
    finalList := [];
    for k := 0 to CodeWidth
      invariant finalList == Resampled(meanList)[..k]
    {
      var indexOf := k * |meanList| / CodeWidth;
      var idx := Min(indexOf, |meanList| - 1);
      var entry := if 0 <= idx < |meanList| then Some(meanList[idx]) else None;
      finalList := finalList + [entry];
    }
  }

  /** For a non-empty list the index is floor(k * n / 128) itself, inside
      the list and non-decreasing in k; the list is resampled in full. */
  lemma ResampleIndexProperties(k: nat, n: nat)
    requires n >= 1 && k < CodeWidth
    ensures ResampleIndex(k, n) == k * n / CodeWidth
    ensures 0 <= ResampleIndex(k, n) < n
    ensures k + 1 < CodeWidth ==> ResampleIndex(k, n) <= ResampleIndex(k + 1, n)
  {
    MulMono(k, CodeWidth - 1, n);
    assert k * n < CodeWidth * n;
    assert k * n / CodeWidth < n;
    MulMono(k, k + 1, n);
  }

  lemma ResampledEntries(meanList: seq<real>)
    requires |meanList| >= 1
    ensures forall k :: 0 <= k < CodeWidth ==>
      Resampled(meanList)[k] == Some(meanList[k * |meanList| / CodeWidth])
  {
    forall k | 0 <= k < CodeWidth
      ensures Resampled(meanList)[k] == Some(meanList[k * |meanList| / CodeWidth])
    {
      ResampleIndexProperties(k, |meanList|);
    }
  }
}
