/** The KMM lookup-table thinning of src/utils/skeletonization.ts. The
    foreground is carried as non-zero cells of a bitmap framed by one cell
    of 0; each iteration marks border pixels 2, pixels with all four direct
    neighbours set 3 and pixels with 2 to 4 adjoining neighbours 4, clears
    the 4s, deletes 2s and then 3s whose neighbourhood code is in the
    deletion table (in place, in raster order), and sets every remaining
    cell to 1. */
module Kmm {
  import opened Pixels
  import opened Skeleton

  // ---------------------------------------------------------------------
  // Neighbourhoods.

  predicate Patch3(m: Image)
  {
    Grid(m, 3, 3)
  }

  /** The eight neighbours, clockwise from the top, set when non-zero. */
  function Ravel(m: Image): (nbh: seq<bool>)
    requires Patch3(m)
    ensures |nbh| == 8
  {
    [m[0][1] != 0, m[0][2] != 0, m[1][2] != 0, m[2][2] != 0,
     m[2][1] != 0, m[2][0] != 0, m[1][0] != 0, m[0][0] != 0]
  }

  const Weights: seq<nat> := [1, 2, 4, 8, 16, 32, 64, 128]

  /** The weights of the set positions among the first n. */
  function WeightedSum(nbh: seq<bool>, n: nat): nat
    requires n <= |nbh| && n <= 8
  {
    if n == 0 then 0 else WeightedSum(nbh, n - 1) + (if nbh[n - 1] then Weights[n - 1] else 0)
  }

  function NeighborhoodValue(nbh: seq<bool>): nat
    requires |nbh| == 8
  {
    WeightedSum(nbh, 8)
  }

  method CalculateNeighborhoodValue(neighborhood: seq<bool>) returns (sum: nat)
    requires |neighborhood| == 8
    ensures sum == NeighborhoodValue(neighborhood)
  {
    var weights := Weights;
    sum := 0;
    for i := 0 to 8
      invariant sum == WeightedSum(neighborhood, i)
    {
      if neighborhood[i] {
        sum := sum + weights[i];
      }
    }
  }

  function Pow2(k: nat): nat
  {
    if k == 0 then 1 else 2 * Pow2(k - 1)
  }

  lemma WeightsArePowers()
    ensures forall k :: 0 <= k < 8 ==> Weights[k] == Pow2(k)
  {
    assert Pow2(0) == 1 && Pow2(1) == 2 && Pow2(2) == 4 && Pow2(3) == 8;
    assert Pow2(4) == 16 && Pow2(5) == 32 && Pow2(6) == 64 && Pow2(7) == 128;
  }

  lemma {:induction false} WeightedSumBound(nbh: seq<bool>, n: nat)
    requires n <= |nbh| && n <= 8
    ensures WeightedSum(nbh, n) < Pow2(n)
  {
    if n > 0 {
      WeightedSumBound(nbh, n - 1);
      WeightsArePowers();
    }
  }

  lemma {:induction false} WeightedSumInjective(a: seq<bool>, b: seq<bool>, n: nat)
    requires n <= |a| && n <= |b| && n <= 8
    requires WeightedSum(a, n) == WeightedSum(b, n)
    ensures a[..n] == b[..n]
  {
    if n > 0 {
      WeightedSumBound(a, n - 1);
      WeightedSumBound(b, n - 1);
      WeightsArePowers();
      assert a[n - 1] == b[n - 1];
      WeightedSumInjective(a, b, n - 1);
      assert a[..n] == a[..n - 1] + [a[n - 1]];
      assert b[..n] == b[..n - 1] + [b[n - 1]];
    }
  }

  /** The code is a byte, and different neighbourhoods get different
      codes. */
  lemma NeighborhoodCode(a: seq<bool>, b: seq<bool>)
    requires |a| == 8 && |b| == 8
    ensures 0 <= NeighborhoodValue(a) <= 255
    ensures NeighborhoodValue(a) == NeighborhoodValue(b) <==> a == b
  {
    WeightedSumBound(a, 8);
    assert Pow2(8) == 256 by { WeightsArePowers(); }
    if NeighborhoodValue(a) == NeighborhoodValue(b) {
      WeightedSumInjective(a, b, 8);
      assert a == a[..8] && b == b[..8];
    }
  }

  /** Set positions among the first n. */
  function CountTrue(s: seq<bool>, n: nat): nat
    requires n <= |s|
  {
    if n == 0 then 0 else CountTrue(s, n - 1) + (if s[n - 1] then 1 else 0)
  }

  lemma {:induction false} CountTrueFull(s: seq<bool>, n: nat)
    requires n <= |s|
    ensures CountTrue(s, n) <= n
    ensures CountTrue(s, n) == n <==> forall k :: 0 <= k < n ==> s[k]
  {
    if n > 0 {
      CountTrueFull(s, n - 1);
    }
  }

  /** With at most one set neighbour the code is 0 or a single weight. */
  lemma {:induction false} FewNeighbours(s: seq<bool>, n: nat)
    requires n <= |s| && n <= 8 && CountTrue(s, n) <= 1
    ensures CountTrue(s, n) == 0 ==> WeightedSum(s, n) == 0
    ensures WeightedSum(s, n) == 0 || exists k :: 0 <= k < n && WeightedSum(s, n) == Weights[k]
  {
    if n > 0 {
      FewNeighbours(s, n - 1);
    }
  }

  // ---------------------------------------------------------------------
  // The rules.

  /** The codes isFour looks up. */
  predicate InFourList(v: int)
  {
    v in {
    3, 6, 12, 24, 48, 96, 192, 129, 7, 14, 28, 56, 112, 224, 193, 131, 15, 30, 60, 120, 240, 225,
    195, 135}
  }

  /** The codes isToDelete2 and isToDelete3 look up. */
  predicate InDeleteList(v: int)
  {
    v in {
    3, 5, 7, 12, 13, 14, 15, 20, 21, 22, 23, 28, 29, 30, 31, 48, 52, 53, 54, 55, 56, 60, 61, 62, 63,
    65, 67, 69, 71, 77, 79, 80, 81, 83, 84, 85, 86, 87, 88, 89, 91, 92, 93, 94, 95, 97, 99, 101,
    103, 109, 111, 112, 113, 115, 116, 117, 118, 119, 120, 121, 123, 124, 125, 126, 127, 131, 133,
    135, 141, 143, 149, 151, 157, 159, 181, 183, 189, 191, 192, 193, 195, 197, 199, 205, 207, 208,
    209, 211, 212, 213, 214, 215, 216, 217, 219, 220, 221, 222, 223, 224, 225, 227, 229, 231, 237,
    239, 240, 241, 243, 244, 245, 246, 247, 248, 249, 251, 252, 253, 254, 255}
  }

  predicate IsTwo(m: Image)
    requires Patch3(m)
  {
    m[1][1] != 0 && CountTrue(Ravel(m), 8) != 8
  }

  predicate IsThree(m: Image)
    requires Patch3(m)
  {
    m[1][1] == 2 && var nbh := Ravel(m); nbh[0] && nbh[2] && nbh[4] && nbh[6]
  }

  predicate IsFour(m: Image)
    requires Patch3(m)
  {
    m[1][1] != 0 && InFourList(NeighborhoodValue(Ravel(m)))
  }

  predicate IsToDelete2(m: Image)
    requires Patch3(m)
  {
    m[1][1] == 2 && InDeleteList(NeighborhoodValue(Ravel(m)))
  }

  predicate IsToDelete3(m: Image)
    requires Patch3(m)
  {
    m[1][1] == 3 && InDeleteList(NeighborhoodValue(Ravel(m)))
  }

  /** The rules the thinning passes to the patch loops. */
  datatype Rule = Two | Three | Four | ToDelete2 | ToDelete3

  predicate Holds(rule: Rule, m: Image)
    requires Patch3(m)
  {
    match rule
    case Two => IsTwo(m)
    case Three => IsThree(m)
    case Four => IsFour(m)
    case ToDelete2 => IsToDelete2(m)
    case ToDelete3 => IsToDelete3(m)
  }

  /** A neighbour cell of the patch centre. */
  predicate Neighbour(a: int, b: int)
  {
    0 <= a < 3 && 0 <= b < 3 && (a != 1 || b != 1)
  }

  /** The position of each neighbour in the clockwise order. */
  function RavelIndex(a: int, b: int): (k: int)
    requires Neighbour(a, b)
    ensures 0 <= k < 8
  {
    if a == 0 then (if b == 0 then 7 else b - 1)
    else if a == 1 then (if b == 0 then 6 else 2)
    else 5 - b
  }

  lemma RavelCell(m: Image, a: int, b: int)
    requires Patch3(m) && Neighbour(a, b)
    ensures Ravel(m)[RavelIndex(a, b)] == (m[a][b] != 0)
  {}

  /** A neighbour of the patch is 0 exactly when some position of the
      clockwise ravel is false. */
  lemma SomeNeighbourUnset(m: Image)
    requires Patch3(m)
    ensures CountTrue(Ravel(m), 8) != 8 <==> exists a, b :: Neighbour(a, b) && m[a][b] == 0
  {
    var nbh := Ravel(m);
    CountTrueFull(nbh, 8);
    if exists a, b :: Neighbour(a, b) && m[a][b] == 0 {
      var a, b :| Neighbour(a, b) && m[a][b] == 0;
      RavelCell(m, a, b);
      assert !nbh[RavelIndex(a, b)];
    }
    if CountTrue(nbh, 8) != 8 {
      var k :| 0 <= k < 8 && !nbh[k];
      if k == 0 { assert Neighbour(0, 1) && m[0][1] == 0; }
      else if k == 1 { assert Neighbour(0, 2) && m[0][2] == 0; }
      else if k == 2 { assert Neighbour(1, 2) && m[1][2] == 0; }
      else if k == 3 { assert Neighbour(2, 2) && m[2][2] == 0; }
      else if k == 4 { assert Neighbour(2, 1) && m[2][1] == 0; }
      else if k == 5 { assert Neighbour(2, 0) && m[2][0] == 0; }
      else if k == 6 { assert Neighbour(1, 0) && m[1][0] == 0; }
      else { assert Neighbour(0, 0) && m[0][0] == 0; }
    }
  }

  /** isTwo holds exactly for a set centre with some neighbour 0; isThree
      exactly for a centre 2 whose four direct neighbours are all set. */
  lemma TwoThreeMeaning(m: Image)
    requires Patch3(m)
    ensures IsTwo(m) <==> m[1][1] != 0 && exists a, b :: Neighbour(a, b) && m[a][b] == 0
    ensures IsThree(m) <==> m[1][1] == 2 && m[0][1] != 0 && m[1][2] != 0 && m[2][1] != 0 && m[1][0] != 0
  {
    SomeNeighbourUnset(m);
  }

  /** Every rule needs a set centre, so a marking pass never sets a 0. */
  lemma RulesNeedCentre(rule: Rule, m: Image)
    requires Patch3(m) && Holds(rule, m)
    ensures m[1][1] != 0
  {}

  /** The codes of no neighbour or a single neighbour. */
  predicate SingleBit(v: int)
  {
    v == 0 || v == 1 || v == 2 || v == 4 || v == 8 || v == 16 || v == 32 || v == 64 || v == 128
  }

  lemma SingleBitNotFour(v: int)
    requires SingleBit(v)
    ensures !InFourList(v)
  {}

  lemma SingleBitNotDeleted(v: int)
    requires SingleBit(v)
    ensures !InDeleteList(v)
  {}

  /** No code of a single neighbour, nor 0, is in either table. */
  lemma SingleBitsUnlisted(v: int)
    requires v == 0 || exists k :: 0 <= k < 8 && v == Weights[k]
    ensures !InFourList(v) && !InDeleteList(v)
  {
    if v != 0 {
      var k :| 0 <= k < 8 && v == Weights[k];
      assert SingleBit(Weights[k]);
    }
    SingleBitNotFour(v);
    SingleBitNotDeleted(v);
  }

  /** A pixel with at most one set neighbour (an end point or an isolated
      pixel) is never marked 4 and never deleted. */
  lemma EndPointsKept(m: Image)
    requires Patch3(m) && CountTrue(Ravel(m), 8) <= 1
    ensures !IsFour(m) && !IsToDelete2(m) && !IsToDelete3(m)
  {
    FewNeighbours(Ravel(m), 8);
    SingleBitsUnlisted(NeighborhoodValue(Ravel(m)));
  }

  // ---------------------------------------------------------------------
  // Patch loops over a bitmap.

  function Contents(a: array2<int>): (g: Image)
    reads a
    ensures Grid(g, a.Length0, a.Length1)
  {
    seq(a.Length0, i requires 0 <= i < a.Length0 reads a =>
      seq(a.Length1, j requires 0 <= j < a.Length1 reads a => a[i, j]))
  }

  lemma ContentsFrom(a: array2<int>, g: Image)
    requires Grid(g, a.Length0, a.Length1)
    requires forall i, j :: 0 <= i < a.Length0 && 0 <= j < a.Length1 ==> a[i, j] == g[i][j]
    ensures Contents(a) == g
  {
    forall i | 0 <= i < a.Length0 ensures Contents(a)[i] == g[i] {}
  }

  predicate Interior(g: Image, i: int, j: int)
    requires Rect(g)
  {
    1 <= i < |g| - 1 && 1 <= j < |g[0]| - 1
  }

  function PatchAt(g: Image, i: int, j: int): (m: Image)
    requires Rect(g) && Interior(g, i, j)
    ensures Patch3(m) && m[1][1] == g[i][j]
  {
    [[g[i - 1][j - 1], g[i - 1][j], g[i - 1][j + 1]],
     [g[i][j - 1], g[i][j], g[i][j + 1]],
     [g[i + 1][j - 1], g[i + 1][j], g[i + 1][j + 1]]]
  }

  /** The value applyPatchRule gives cell (i, j): v where the patch around
      an interior cell satisfies the rule, the old value elsewhere. */
  function RuledCell(g: Image, rule: Rule, v: int, i: int, j: int): int
    requires Rect(g) && 0 <= i < |g| && 0 <= j < |g[0]|
  {
    if Interior(g, i, j) && Holds(rule, PatchAt(g, i, j)) then v else g[i][j]
  }

  /** applyPatchRule: every cell decided from the unmodified input. */
  function PatchRuled(g: Image, rule: Rule, v: int): (r: Image)
    requires Rect(g)
    ensures Grid(r, |g|, |g[0]|)
  {
    seq(|g|, i requires 0 <= i < |g| =>
      seq(|g[0]|, j requires 0 <= j < |g[0]| => RuledCell(g, rule, v, i, j)))
  }

  /** One cell of applyPatchRule, read from img and written to result. */
  method RuleCell(img: array2<int>, result: array2<int>, rule: Rule, valueToSet: int, i: int, j: int)
    requires img != result && result.Length0 == img.Length0 && result.Length1 == img.Length1
    requires 1 <= i < img.Length0 - 1 && 1 <= j < img.Length1 - 1
    modifies result
    ensures result[i, j] == (if Holds(rule, PatchAt(Contents(img), i, j)) then valueToSet else old(result[i, j]))
    ensures forall a, b :: 0 <= a < result.Length0 && 0 <= b < result.Length1 && (a != i || b != j) ==>
      result[a, b] == old(result[a, b])
  {
    var patch := [[img[i - 1, j - 1], img[i - 1, j], img[i - 1, j + 1]],
                  [img[i, j - 1], img[i, j], img[i, j + 1]],
                  [img[i + 1, j - 1], img[i + 1, j], img[i + 1, j + 1]]];
    assert patch == PatchAt(Contents(img), i, j);
    if Holds(rule, patch) {
      result[i, j] := valueToSet;
    }
  }

  method ApplyPatchRule(img: array2<int>, rule: Rule, valueToSet: int) returns (result: array2<int>)
    requires img.Length0 > 0
    ensures fresh(result)
    ensures result.Length0 == img.Length0 && result.Length1 == img.Length1
    ensures Contents(result) == PatchRuled(Contents(img), rule, valueToSet)
  {
    ghost var g := Contents(img);
    var height := img.Length0;
    var width := img.Length1;
    result := new int[height, width]((a, b) reads img => if 0 <= a < height && 0 <= b < width then img[a, b] else 0);
    var i := 1;
    while i < height - 1
      invariant 1 <= i <= Max(1, height - 1)
      invariant forall a, b :: 0 <= a < height && 0 <= b < width ==>
        result[a, b] == if a < i then RuledCell(g, rule, valueToSet, a, b) else g[a][b]
    {
      var j := 1;
      while j < width - 1
        invariant 1 <= j <= Max(1, width - 1)
        invariant forall a, b :: 0 <= a < height && 0 <= b < width ==>
          result[a, b] == if a < i || (a == i && b < j) then RuledCell(g, rule, valueToSet, a, b) else g[a][b]
      {
        RuleCell(img, result, rule, valueToSet, i, j);
        j := j + 1;
      }
      i := i + 1;
    }
    ContentsFrom(result, PatchRuled(g, rule, valueToSet));
  }

  predicate OnBorder(g: Image, i: int, j: int)
    requires Rect(g)
  {
    0 <= i < |g| && 0 <= j < |g[0]| && !Interior(g, i, j)
  }

  /** Both images have the same size and agree on the outer border. */
  predicate SameBorder(g: Image, r: Image)
    requires Rect(g)
  {
    Grid(r, |g|, |g[0]|) &&
    forall i, j :: 0 <= i < |g| && 0 <= j < |g[0]| && OnBorder(g, i, j) ==> r[i][j] == g[i][j]
  }

  /** Both images have the same size and r is 0 wherever g is. */
  predicate Shrinks(g: Image, r: Image)
    requires Rect(g)
  {
    Grid(r, |g|, |g[0]|) && forall i, j :: 0 <= i < |g| && 0 <= j < |g[0]| && r[i][j] != 0 ==> g[i][j] != 0
  }

  /** The marking pass leaves the border alone and changes a cell only to
      the marker and only where its patch satisfies the rule; a non-zero
      marker keeps the set cells set and the 0 cells 0. */
  lemma PatchRuledProperties(g: Image, rule: Rule, v: int)
    requires Rect(g)
    ensures SameBorder(g, PatchRuled(g, rule, v))
    ensures forall i, j :: 0 <= i < |g| && 0 <= j < |g[0]| && PatchRuled(g, rule, v)[i][j] != g[i][j] ==>
      Interior(g, i, j) && PatchRuled(g, rule, v)[i][j] == v && Holds(rule, PatchAt(g, i, j))
    ensures v != 0 ==> forall i, j :: 0 <= i < |g| && 0 <= j < |g[0]| ==>
      (PatchRuled(g, rule, v)[i][j] != 0 <==> g[i][j] != 0)
  {
    forall i, j | 0 <= i < |g| && 0 <= j < |g[0]| && Interior(g, i, j) && Holds(rule, PatchAt(g, i, j))
      ensures g[i][j] != 0
    {
      RulesNeedCentre(rule, PatchAt(g, i, j));
    }
  }

  // applyDeletePatchRule: the same scan, in place, so a deletion is seen by
  // the patches of the cells after it.

  function DeleteStep(g: Image, rule: Rule, i: int, j: int): (r: Image)
    requires Rect(g) && Interior(g, i, j)
    ensures Grid(r, |g|, |g[0]|) && Rect(r) && |r[0]| == |g[0]|
  {
    if Holds(rule, PatchAt(g, i, j)) then g[i := g[i][j := 0]] else g
  }

  /** Row i scanned over columns 1 .. n - 1. */
  function RowScan(g: Image, rule: Rule, i: int, n: int): (r: Image)
    requires Rect(g) && 1 <= i < |g| - 1 && 1 <= n <= Max(1, |g[0]| - 1)
    ensures Grid(r, |g|, |g[0]|) && Rect(r) && |r[0]| == |g[0]|
    decreases n
  {
    if n == 1 then g else DeleteStep(RowScan(g, rule, i, n - 1), rule, i, n - 1)
  }

  /** Rows 1 .. m - 1 scanned. */
  function Scan(g: Image, rule: Rule, m: int): (r: Image)
    requires Rect(g) && 1 <= m <= Max(1, |g| - 1)
    ensures Grid(r, |g|, |g[0]|) && Rect(r) && |r[0]| == |g[0]|
    decreases m
  {
    if m == 1 then g else RowScan(Scan(g, rule, m - 1), rule, m - 1, Max(1, |g[0]| - 1))
  }

  function DeleteScan(g: Image, rule: Rule): (r: Image)
    requires Rect(g)
    ensures Grid(r, |g|, |g[0]|) && Rect(r) && |r[0]| == |g[0]|
  {
    Scan(g, rule, Max(1, |g| - 1))
  }

  /** One cell of the in-place scan. */
  method DeleteCell(img: array2<int>, rule: Rule, i: int, j: int)
    requires 1 <= i < img.Length0 - 1 && 1 <= j < img.Length1 - 1
    modifies img
    ensures Contents(img) == DeleteStep(old(Contents(img)), rule, i, j)
  {
    ghost var before := Contents(img);
    var patch := [[img[i - 1, j - 1], img[i - 1, j], img[i - 1, j + 1]],
                  [img[i, j - 1], img[i, j], img[i, j + 1]],
                  [img[i + 1, j - 1], img[i + 1, j], img[i + 1, j + 1]]];
    assert patch == PatchAt(before, i, j);
    if Holds(rule, patch) {
      img[i, j] := 0;
      ContentsFrom(img, before[i := before[i][j := 0]]);
    }
  }

  /** One more cell of the scan of row i. */
  lemma RowScanNext(g: Image, rule: Rule, i: int, j: int)
    requires Rect(g) && 1 <= i < |g| - 1 && 1 <= j < |g[0]| - 1
    ensures Rect(RowScan(g, rule, i, j)) && |RowScan(g, rule, i, j)| == |g| && |RowScan(g, rule, i, j)[0]| == |g[0]|
    ensures RowScan(g, rule, i, j + 1) == DeleteStep(RowScan(g, rule, i, j), rule, i, j)
  {}

  /** Row i of the in-place scan. */
  method DeleteRow(img: array2<int>, rule: Rule, i: int)
    requires 1 <= i < img.Length0 - 1
    modifies img
    ensures Contents(img) == RowScan(old(Contents(img)), rule, i, Max(1, img.Length1 - 1))
  {
    ghost var g := Contents(img);
    var width := img.Length1;
    var j := 1;
    while j < width - 1
      invariant 1 <= j <= Max(1, width - 1)
      invariant Contents(img) == RowScan(g, rule, i, j)
    {
      RowScanNext(g, rule, i, j);
      DeleteCell(img, rule, i, j);
      j := j + 1;
    }
  }

  /** One more row of the scan. */
  lemma ScanNext(g: Image, rule: Rule, i: int)
    requires Rect(g) && 1 <= i < |g| - 1
    ensures Rect(Scan(g, rule, i)) && |Scan(g, rule, i)| == |g| && |Scan(g, rule, i)[0]| == |g[0]|
    ensures Scan(g, rule, i + 1) == RowScan(Scan(g, rule, i), rule, i, Max(1, |g[0]| - 1))
  {}

  method ApplyDeletePatchRule(img: array2<int>, rule: Rule)
    requires img.Length0 > 0
    modifies img
    ensures Contents(img) == DeleteScan(old(Contents(img)), rule)
  {
    ghost var g := Contents(img);
    var height := img.Length0;
    var i := 1;
    while i < height - 1
      invariant 1 <= i <= Max(1, height - 1)
      invariant Contents(img) == Scan(g, rule, i)
    {
      ScanNext(g, rule, i);
      DeleteRow(img, rule, i);
      i := i + 1;
    }
  }

  /** Both images have the same size and r equals g or is 0 at every cell. */
  predicate OnlyClears(g: Image, r: Image)
    requires Rect(g)
  {
    Grid(r, |g|, |g[0]|) && forall i, j :: 0 <= i < |g| && 0 <= j < |g[0]| ==> r[i][j] == g[i][j] || r[i][j] == 0
  }

  lemma {:induction false} RowScanClears(g: Image, rule: Rule, i: int, n: int)
    requires Rect(g) && 1 <= i < |g| - 1 && 1 <= n <= Max(1, |g[0]| - 1)
    ensures OnlyClears(g, RowScan(g, rule, i, n)) && SameBorder(g, RowScan(g, rule, i, n))
    decreases n
  {
    if n > 1 {
      RowScanClears(g, rule, i, n - 1);
    }
  }

  lemma {:induction false} ScanClears(g: Image, rule: Rule, m: int)
    requires Rect(g) && 1 <= m <= Max(1, |g| - 1)
    ensures OnlyClears(g, Scan(g, rule, m)) && SameBorder(g, Scan(g, rule, m))
    decreases m
  {
    if m > 1 {
      ScanClears(g, rule, m - 1);
      RowScanClears(Scan(g, rule, m - 1), rule, m - 1, Max(1, |g[0]| - 1));
    }
  }

  /** The deletion pass only writes 0 and never touches the border. */
  lemma DeleteScanClears(g: Image, rule: Rule)
    requires Rect(g)
    ensures OnlyClears(g, DeleteScan(g, rule)) && SameBorder(g, DeleteScan(g, rule))
  {
    ScanClears(g, rule, Max(1, |g| - 1));
  }

  // ---------------------------------------------------------------------
  // kmmThinning.

  /** The pass that clears every cell marked 4. */
  function FoursCleared(g: Image): (r: Image)
    requires Rect(g)
    ensures Grid(r, |g|, |g[0]|)
  {
    seq(|g|, i requires 0 <= i < |g| =>
      seq(|g[0]|, j requires 0 <= j < |g[0]| => if g[i][j] == 4 then 0 else g[i][j]))
  }

  /** The pass that sets every non-zero cell to 1. */
  function Unmarked(g: Image): (r: Image)
    requires Rect(g)
    ensures Grid(r, |g|, |g[0]|)
  {
    seq(|g|, i requires 0 <= i < |g| =>
      seq(|g[0]|, j requires 0 <= j < |g[0]| => if g[i][j] != 0 then 1 else g[i][j]))
  }

  method ClearFours(bitmap: array2<int>)
    requires bitmap.Length0 > 0
    modifies bitmap
    ensures Contents(bitmap) == FoursCleared(old(Contents(bitmap)))
  {
    ghost var g := Contents(bitmap);
    for i := 0 to bitmap.Length0
      invariant forall a, b :: 0 <= a < bitmap.Length0 && 0 <= b < bitmap.Length1 ==>
        bitmap[a, b] == if a < i then FoursCleared(g)[a][b] else g[a][b]
    {
      for j := 0 to bitmap.Length1
        invariant forall a, b :: 0 <= a < bitmap.Length0 && 0 <= b < bitmap.Length1 ==>
          bitmap[a, b] == if a < i || (a == i && b < j) then FoursCleared(g)[a][b] else g[a][b]
      {
        if bitmap[i, j] == 4 {
          bitmap[i, j] := 0;
        }
      }
    }
    ContentsFrom(bitmap, FoursCleared(g));
  }

  method SetOnes(bitmap: array2<int>)
    requires bitmap.Length0 > 0
    modifies bitmap
    ensures Contents(bitmap) == Unmarked(old(Contents(bitmap)))
  {
    ghost var g := Contents(bitmap);
    for i := 0 to bitmap.Length0
      invariant forall a, b :: 0 <= a < bitmap.Length0 && 0 <= b < bitmap.Length1 ==>
        bitmap[a, b] == if a < i then Unmarked(g)[a][b] else g[a][b]
    {
      for j := 0 to bitmap.Length1
        invariant forall a, b :: 0 <= a < bitmap.Length0 && 0 <= b < bitmap.Length1 ==>
          bitmap[a, b] == if a < i || (a == i && b < j) then Unmarked(g)[a][b] else g[a][b]
      {
        if bitmap[i, j] != 0 {
          bitmap[i, j] := 1;
        }
      }
    }
    ContentsFrom(bitmap, Unmarked(g));
  }

  /** One iteration of the thinning loop. */
  function KmmIteration(g: Image): (r: Image)
    requires Rect(g)
    ensures Grid(r, |g|, |g[0]|)
  {
    var marked2 := PatchRuled(g, Two, 2);
    var marked3 := PatchRuled(marked2, Three, 3);
    var marked4 := PatchRuled(marked3, Four, 4);
    var cleared := FoursCleared(marked4);
    var deleted2 := DeleteScan(cleared, ToDelete2);
    var deleted3 := DeleteScan(deleted2, ToDelete3);
    Unmarked(deleted3)
  }

  function KmmIterated(g: Image, n: nat): (r: Image)
    requires Rect(g)
    ensures Grid(r, |g|, |g[0]|)
  {
    if n == 0 then g else KmmIteration(KmmIterated(g, n - 1))
  }

  method PadImage2D(image: Image, padSize: nat, value: int) returns (paddedImage: array2<int>)
    requires Rect(image)
    ensures fresh(paddedImage)
    ensures Contents(paddedImage) == Padded(image, padSize, value)
  {
    var height := |image|;
    var width := |image[0]|;
    paddedImage := new int[height + 2 * padSize, width + 2 * padSize]((_, _) => value);
    for i := 0 to height
      invariant forall a, b :: 0 <= a < paddedImage.Length0 && 0 <= b < paddedImage.Length1 ==>
        paddedImage[a, b] == if padSize <= a < padSize + i && padSize <= b < padSize + width
                             then Padded(image, padSize, value)[a][b] else value
    {
      for j := 0 to width
        invariant forall a, b :: 0 <= a < paddedImage.Length0 && 0 <= b < paddedImage.Length1 ==>
          paddedImage[a, b] ==
            if (padSize <= a < padSize + i && padSize <= b < padSize + width) ||
               (a == padSize + i && padSize <= b < padSize + j)
            then Padded(image, padSize, value)[a][b] else value
      {
        paddedImage[i + padSize, j + padSize] := image[i][j];
      }
    }
    ContentsFrom(paddedImage, Padded(image, padSize, value));
  }

  /** 0 stays 0 and every other cell becomes 255. */
  function Mask(g: Image): (r: Image)
    ensures |r| == |g| && forall i :: 0 <= i < |g| ==> |r[i]| == |g[i]|
  {
    seq(|g|, i requires 0 <= i < |g| =>
      seq(|g[i]|, j requires 0 <= j < |g[i]| => if g[i][j] == 0 then 0 else 255))
  }

  /** The bitmap the iterations start from: the negated binary image framed
      by 0. */
  function StartBitmap(data: seq<Byte>, w: nat, h: nat): (g: Image)
    requires |data| == w * h * 4 && h > 0
    ensures Rect(g) && Grid(g, h + 2, w + 2)
  {
    Padded(Negate(BinaryImageOf(data, w, h)), 1, 0)
  }

  function KmmResult(data: seq<Byte>, w: nat, h: nat, n: nat): seq<Byte>
    requires |data| == w * h * 4 && h > 0
  {
    var g := KmmIterated(StartBitmap(data, w, h), n);
    FromBinary(Negate(Mask(Cropped(g, 1))), w, h)
  }

  /** The body of the thinning loop. */
  method KmmStep(bitmap: array2<int>) returns (next: array2<int>)
    requires bitmap.Length0 > 0
    ensures fresh(next)
    ensures next.Length0 == bitmap.Length0 && next.Length1 == bitmap.Length1
    ensures Contents(next) == KmmIteration(Contents(bitmap))
  {
    next := ApplyPatchRule(bitmap, Two, 2);
    next := ApplyPatchRule(next, Three, 3);
    next := ApplyPatchRule(next, Four, 4);
    ClearFours(next);
    ApplyDeletePatchRule(next, ToDelete2);
    ApplyDeletePatchRule(next, ToDelete3);
    SetOnes(next);
  }

  /** The loop that drops the frame and maps every set cell to 255. */
  method CropToMask(bitmap: array2<int>) returns (result: Image)
    requires bitmap.Length0 >= 2 && bitmap.Length1 >= 2
    ensures result == Mask(Cropped(Contents(bitmap), 1))
  {
    ghost var g := Contents(bitmap);
    result := [];
    for i := 1 to bitmap.Length0 - 1
      invariant result == Mask(Cropped(g, 1))[..i - 1]
    {
      var row: seq<int> := [];
      for j := 1 to bitmap.Length1 - 1
        invariant row == Mask(Cropped(g, 1))[i - 1][..j - 1]
      {
        row := row + [if bitmap[i, j] == 0 then 0 else 255];
      }
      assert row == Mask(Cropped(g, 1))[i - 1];
      result := result + [row];
    }
  }

  /** The thinning loop, run numIter times (not at all when numIter <= 0). */
  method Iterate(bitmap: array2<int>, numIter: int) returns (out: array2<int>)
    requires bitmap.Length0 > 0
    ensures out.Length0 == bitmap.Length0 && out.Length1 == bitmap.Length1
    ensures Contents(out) == KmmIterated(Contents(bitmap), Max(0, numIter))
  {
    ghost var g0 := Contents(bitmap);
    out := bitmap;
    for iter := 0 to Max(0, numIter)
      invariant out.Length0 == bitmap.Length0 && out.Length1 == bitmap.Length1
      invariant Contents(out) == KmmIterated(g0, iter)
    {
      out := KmmStep(out);
      IteratedStep(g0, iter);
    }
  }

  lemma IteratedStep(g: Image, n: nat)
    requires Rect(g)
    ensures KmmIterated(g, n + 1) == KmmIteration(KmmIterated(g, n))
  {}

  method KmmThinning(data: seq<Byte>, width: nat, height: nat, numIter: int) returns (r: seq<Byte>)
    requires |data| == width * height * 4 && height > 0
    ensures r == KmmResult(data, width, height, Max(0, numIter))
  {
    var binaryImage := ToBinaryImage(data, width, height);
    var start := PadImage2D(Negate(binaryImage), 1, 0);
    var bitmap := Iterate(start, numIter);
    var result := CropToMask(bitmap);
    r := FromBinaryImage(Negate(result), width, height);
  }

  // ---------------------------------------------------------------------
  // What an iteration keeps.

  /** Every cell is 0 or 1. */
  predicate Unit(g: Image)
    requires Rect(g)
  {
    forall i, j :: 0 <= i < |g| && 0 <= j < |g[0]| ==> g[i][j] == 0 || g[i][j] == 1
  }

  /** The outer border is 0. */
  predicate ZeroBorder(g: Image)
    requires Rect(g)
  {
    forall i, j :: 0 <= i < |g| && 0 <= j < |g[0]| && OnBorder(g, i, j) ==> g[i][j] == 0
  }

  lemma ShrinksTrans(a: Image, b: Image, c: Image)
    requires Rect(a) && Rect(b) && Shrinks(a, b) && Shrinks(b, c)
    ensures Shrinks(a, c)
  {}

  /** The marking passes keep the support and the border. */
  lemma MarkingPasses(g: Image)
    requires Rect(g)
    ensures var m := PatchRuled(PatchRuled(PatchRuled(g, Two, 2), Three, 3), Four, 4);
      Rect(m) && Shrinks(g, m) && (ZeroBorder(g) ==> ZeroBorder(m))
  {
    var m2 := PatchRuled(g, Two, 2);
    PatchRuledProperties(g, Two, 2);
    var m3 := PatchRuled(m2, Three, 3);
    PatchRuledProperties(m2, Three, 3);
    var m4 := PatchRuled(m3, Four, 4);
    PatchRuledProperties(m3, Four, 4);
    ShrinksTrans(g, m2, m3);
    ShrinksTrans(g, m3, m4);
  }

  /** Clearing the 4s and the two deletion passes only clear cells. */
  lemma ClearingPasses(m: Image)
    requires Rect(m)
    ensures var d := DeleteScan(DeleteScan(FoursCleared(m), ToDelete2), ToDelete3);
      Rect(d) && Shrinks(m, d) && (ZeroBorder(m) ==> ZeroBorder(d))
  {
    var c := FoursCleared(m);
    assert Shrinks(m, c);
    var d2 := DeleteScan(c, ToDelete2);
    DeleteScanClears(c, ToDelete2);
    var d3 := DeleteScan(d2, ToDelete3);
    DeleteScanClears(d2, ToDelete3);
    ShrinksTrans(m, c, d2);
    ShrinksTrans(m, d2, d3);
  }

  /** After an iteration every cell is 0 or 1, no 0 cell has become set,
      and a 0 border stays 0. */
  lemma IterationProperties(g: Image)
    requires Rect(g)
    ensures Unit(KmmIteration(g)) && Shrinks(g, KmmIteration(g))
    ensures ZeroBorder(g) ==> ZeroBorder(KmmIteration(g))
  {
    MarkingPasses(g);
    var m := PatchRuled(PatchRuled(PatchRuled(g, Two, 2), Three, 3), Four, 4);
    ClearingPasses(m);
    var d := DeleteScan(DeleteScan(FoursCleared(m), ToDelete2), ToDelete3);
    ShrinksTrans(g, m, d);
    assert KmmIteration(g) == Unmarked(d);
  }

  lemma {:induction false} IteratedProperties(g: Image, n: nat)
    requires Rect(g)
    ensures n > 0 ==> Unit(KmmIterated(g, n))
    ensures Shrinks(g, KmmIterated(g, n))
    ensures ZeroBorder(g) ==> ZeroBorder(KmmIterated(g, n))
  {
    if n > 0 {
      IteratedProperties(g, n - 1);
      IterationProperties(KmmIterated(g, n - 1));
      ShrinksTrans(g, KmmIterated(g, n - 1), KmmIterated(g, n));
    }
  }

  /** The starting bitmap has a 0 frame and is set exactly where the
      binary image is dark. */
  lemma StartBitmapProperties(data: seq<Byte>, w: nat, h: nat)
    requires |data| == w * h * 4 && h > 0
    ensures ZeroBorder(StartBitmap(data, w, h))
    ensures forall y, x :: 0 <= y < h && 0 <= x < w ==>
      (StartBitmap(data, w, h)[y + 1][x + 1] != 0 <==> RgbSum(data, w, h, y, x) < 384)
  {
    var b := BinaryImageOf(data, w, h);
    BinaryImageProperties(data, w, h);
    NegateProperties(b);
    PaddedProperties(Negate(b), 1, 0);
  }

  /** Cropping the frame off a bitmap g that shrinks g0, masking and
      negating gives an h x w binary image, black at (y, x) only where g0 is
      set one cell down and right. */
  lemma CroppedPixel(g0: Image, g: Image, w: nat, h: nat, y: nat, x: nat)
    requires Grid(g0, h + 2, w + 2) && Shrinks(g0, g) && y < h && x < w
    ensures Rect(g) && |g| == h + 2 && |g[0]| == w + 2
    ensures var t := Negate(Mask(Cropped(g, 1)));
      Grid(t, h, w) && Binary(t) && (t[y][x] == 0 ==> g0[y + 1][x + 1] != 0)
  {
    assert |g[0]| == w + 2;
    var c := Cropped(g, 1);
    var m := Mask(c);
    assert Grid(m, h, w);
    NegateProperties(m);
    assert m[y][x] != 0 ==> g[y + 1][x + 1] != 0;
  }

  /** Pixel (y, x) of the output: opaque grey, black or white, and black
      only where the input pixel was dark. */
  lemma KmmOutput(data: seq<Byte>, w: nat, h: nat, n: nat, y: nat, x: nat)
    requires |data| == w * h * 4 && h > 0 && y < h && x < w
    ensures var out := KmmResult(data, w, h, n);
      |out| == |data| && Idx(w, y, x, 3) < |out| &&
      out[Idx(w, y, x, 3)] == 255 &&
      out[Idx(w, y, x, 0)] == out[Idx(w, y, x, 1)] == out[Idx(w, y, x, 2)] &&
      (out[Idx(w, y, x, 0)] == 0 || out[Idx(w, y, x, 0)] == 255) &&
      (out[Idx(w, y, x, 0)] == 0 ==> RgbSum(data, w, h, y, x) < 384)
  {
    var g0 := StartBitmap(data, w, h);
    var g := KmmIterated(g0, n);
    IteratedProperties(g0, n);
    StartBitmapProperties(data, w, h);
    CroppedPixel(g0, g, w, h, y, x);
    var t := Negate(Mask(Cropped(g, 1)));
    BinaryPixel(t, w, h, y, x);
    assert t[y][x] == 0 || t[y][x] == 255;
  }

  /** With no iterations the output is the binarised input. */
  lemma NoIterations(data: seq<Byte>, w: nat, h: nat)
    requires |data| == w * h * 4 && h > 0
    ensures KmmResult(data, w, h, 0) == FromBinary(BinaryImageOf(data, w, h), w, h)
  {
    var b := BinaryImageOf(data, w, h);
    BinaryImageProperties(data, w, h);
    NegateProperties(b);
    PaddedProperties(Negate(b), 1, 0);
    NegateProperties(Negate(b));
    assert Mask(Negate(b)) == Negate(b) by {
      forall i | 0 <= i < h ensures Mask(Negate(b))[i] == Negate(b)[i] {}
    }
  }
}
