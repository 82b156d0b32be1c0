/** The binary-image helpers and the hit-and-miss thinning of
    src/utils/skeletonization.ts. Images are lists of rows (`number[][]`);
    in the thinning the foreground is 0 and the background 255. */
module Skeleton {
  import opened Pixels

  type Image = seq<seq<int>>

  /** h rows of w cells each. */
  predicate Grid(img: Image, h: nat, w: nat)
  {
    |img| == h && forall i :: 0 <= i < h ==> |img[i]| == w
  }

  /** A non-empty image whose rows all have the first row's length. */
  predicate Rect(img: Image)
  {
    |img| > 0 && Grid(img, |img|, |img[0]|)
  }

  predicate Binary(img: Image)
  {
    forall i, j :: 0 <= i < |img| && 0 <= j < |img[i]| ==> img[i][j] == 0 || img[i][j] == 255
  }

  // ---------------------------------------------------------------------
  // toBinaryImage and fromBinaryImage.

  /** R + G + B of pixel (i, j). */
  function RgbSum(data: seq<Byte>, w: nat, h: nat, i: nat, j: nat): int
    requires |data| == w * h * 4 && i < h && j < w
  {
    PixelBound(w, h, i, j);
    var idx := (i * w + j) * 4;
    data[idx] as int + data[idx + 1] as int + data[idx + 2] as int
  }

  function BinaryValue(data: seq<Byte>, w: nat, h: nat, i: nat, j: nat): int
    requires |data| == w * h * 4 && i < h && j < w
  {
    if RgbSum(data, w, h, i, j) as real / 3.0 < 128.0 then 0 else 255
  }

  function BinaryImageOf(data: seq<Byte>, w: nat, h: nat): Image
    requires |data| == w * h * 4
  {
    seq(h, i requires 0 <= i < h => seq(w, j requires 0 <= j < w => BinaryValue(data, w, h, i, j)))
  }

  method ToBinaryImage(data: seq<Byte>, width: nat, height: nat) returns (binaryImage: Image)
    requires |data| == width * height * 4
    ensures binaryImage == BinaryImageOf(data, width, height)
  {
    binaryImage := [];
    for i := 0 to height
      invariant binaryImage == BinaryImageOf(data, width, height)[..i]
    {
      var row: seq<int> := [];
      for j := 0 to width
        invariant row == BinaryImageOf(data, width, height)[i][..j]
      {
        PixelBound(width, height, i, j);
        var idx := (i * width + j) * 4;
        var value := (data[idx] as int + data[idx + 1] as int + data[idx + 2] as int) as real / 3.0;
        row := row + [if value < 128.0 then 0 else 255];
      }
      assert row == BinaryImageOf(data, width, height)[i];
      binaryImage := binaryImage + [row];
    }
  }

  /** height rows of width cells, each 0 or 255, and 0 exactly where the
      mean of R, G and B is below 128 (their sum below 384). */
  lemma BinaryImageProperties(data: seq<Byte>, w: nat, h: nat)
    requires |data| == w * h * 4
    ensures Grid(BinaryImageOf(data, w, h), h, w) && Binary(BinaryImageOf(data, w, h))
    ensures forall i, j :: 0 <= i < h && 0 <= j < w ==>
      (BinaryImageOf(data, w, h)[i][j] == 0 <==> RgbSum(data, w, h, i, j) < 384)
  {}

  /** Sample k of the buffer written from a binary image: the cell value
      (stored clamped) on R, G and B, and 255 on alpha. */
  function BinarySample(img: Image, w: nat, h: nat, k: nat): Byte
    requires Grid(img, h, w) && k < w * h * 4
  {
    DecodeBound(k, w, h);
    if Chan(k) == 3 then 255 else Clamp(img[Row(k, w)][Col(k, w)])
  }

  function FromBinary(img: Image, w: nat, h: nat): seq<Byte>
    requires Grid(img, h, w)
  {
    seq(w * h * 4, k requires 0 <= k < w * h * 4 => BinarySample(img, w, h, k))
  }

  /** The four stores of pixel (i, j). */
  method WritePixel(data: array<Byte>, binaryImage: Image, width: nat, height: nat, i: nat, j: nat)
    requires Grid(binaryImage, height, width) && i < height && j < width
    requires data.Length == width * height * 4
    modifies data
    ensures forall k :: 0 <= k < data.Length ==>
      data[k] == if (i * width + j) * 4 <= k < (i * width + j) * 4 + 4
                 then FromBinary(binaryImage, width, height)[k] else old(data[k])
  {
    PixelBound(width, height, i, j);
    var idx := (i * width + j) * 4;
    var v := Clamp(binaryImage[i][j]);
    data[idx] := v;
    data[idx + 1] := v;
    data[idx + 2] := v;
    data[idx + 3] := 255;
    forall k | idx <= k < idx + 4
      ensures data[k] == FromBinary(binaryImage, width, height)[k]
    {
      IdxDecode(width, i, j, k - idx);
      assert Idx(width, i, j, k - idx) == k;
    }
  }

  method FromBinaryImage(binaryImage: Image, width: nat, height: nat) returns (r: seq<Byte>)
    requires Grid(binaryImage, height, width)
    ensures r == FromBinary(binaryImage, width, height)
  {
    var data := new Byte[4 * width * height](_ => 0);
    assert data.Length == width * height * 4;
    ghost var p := 0;
    for i := 0 to height
      invariant p == i * width && p <= width * height
      invariant forall k :: 0 <= k < 4 * p ==> data[k] == FromBinary(binaryImage, width, height)[k]
    {
      RowShift(i, width);
      MulMono(i + 1, height, width);
      for j := 0 to width
        invariant p == i * width + j && p <= width * height
        invariant forall k :: 0 <= k < 4 * p ==> data[k] == FromBinary(binaryImage, width, height)[k]
      {
        WritePixel(data, binaryImage, width, height, i, j);
        p := p + 1;
      }
    }
    r := data[..];
  }

  /** 4 * w * h samples; pixel (i, j) carries the cell value on R, G and B
      and 255 on alpha. */
  lemma FromBinaryLayout(img: Image, w: nat, h: nat, i: nat, j: nat, c: nat)
    requires Grid(img, h, w) && i < h && j < w && c < 4
    ensures |FromBinary(img, w, h)| == 4 * w * h
    ensures Idx(w, i, j, c) < |FromBinary(img, w, h)|
    ensures FromBinary(img, w, h)[Idx(w, i, j, c)] == if c == 3 then 255 else Clamp(img[i][j])
  {
    IdxBound(w, h, i, j, c);
    IdxDecode(w, i, j, c);
  }

  /** Converting a binary image to a buffer and back gives it back. */
  lemma BinaryRoundTrip(img: Image, w: nat, h: nat)
    requires Grid(img, h, w) && Binary(img)
    ensures BinaryImageOf(FromBinary(img, w, h), w, h) == img
  {
    var data := FromBinary(img, w, h);
    forall i, j | 0 <= i < h && 0 <= j < w
      ensures BinaryImageOf(data, w, h)[i][j] == img[i][j]
    {
      FromBinaryLayout(img, w, h, i, j, 0);
      FromBinaryLayout(img, w, h, i, j, 1);
      FromBinaryLayout(img, w, h, i, j, 2);
      assert RgbSum(data, w, h, i, j) == 3 * img[i][j];
    }
    forall i | 0 <= i < h ensures BinaryImageOf(data, w, h)[i] == img[i] {}
  }

  // ---------------------------------------------------------------------
  // negate and padImage.

  function Negate(img: Image): (r: Image)
    ensures |r| == |img| && forall i :: 0 <= i < |img| ==> |r[i]| == |img[i]|
  {
    seq(|img|, i requires 0 <= i < |img| =>
      seq(|img[i]|, j requires 0 <= j < |img[i]| => if img[i][j] == 0 then 255 else 0))
  }

  /** The negation is a binary image that is 0 exactly where the image is
      not, and negating a binary image twice gives it back. */
  lemma NegateProperties(img: Image)
    ensures Binary(Negate(img))
    ensures forall i, j :: 0 <= i < |img| && 0 <= j < |img[i]| ==> (Negate(img)[i][j] == 0 <==> img[i][j] != 0)
    ensures forall h: nat, w: nat :: Grid(img, h, w) ==> Grid(Negate(img), h, w)
    ensures Binary(img) ==> Negate(Negate(img)) == img
  {
    if Binary(img) {
      forall i | 0 <= i < |img| ensures Negate(Negate(img))[i] == img[i] {}
    }
  }

  function PadCell(img: Image, pad: nat, value: int, i: nat, j: nat): int
    requires Rect(img) && i < |img| + 2 * pad && j < |img[0]| + 2 * pad
  {
    if i < pad || i >= |img| + pad || j < pad || j >= |img[0]| + pad then value
    else img[i - pad][j - pad]
  }

  /** The image framed by pad cells of value on every side. */
  function Padded(img: Image, pad: nat, value: int): Image
    requires Rect(img)
  {
    seq(|img| + 2 * pad, i requires 0 <= i < |img| + 2 * pad =>
      seq(|img[0]| + 2 * pad, j requires 0 <= j < |img[0]| + 2 * pad => PadCell(img, pad, value, i, j)))
  }

  method PadImage(image: Image, pad: nat, value: int) returns (padded: Image)
    requires Rect(image)
    ensures padded == Padded(image, pad, value)
  {
    padded := [];
    var width := |image[0]|;
    var height := |image|;
    for i := 0 to height + 2 * pad
      invariant padded == Padded(image, pad, value)[..i]
    {
      var row: seq<int> := [];
      for j := 0 to width + 2 * pad
        invariant row == Padded(image, pad, value)[i][..j]
      {
        if i < pad || i >= height + pad || j < pad || j >= width + pad {
          row := row + [value];
        } else {
          row := row + [image[i - pad][j - pad]];
        }
      }
      assert row == Padded(image, pad, value)[i];
      padded := padded + [row];
    }
  }

  /** The inner part of an image, without pad cells on each side. */
  function Cropped(img: Image, pad: nat): (r: Image)
    requires Rect(img) && |img| >= 2 * pad && |img[0]| >= 2 * pad
    ensures Grid(r, |img| - 2 * pad, |img[0]| - 2 * pad)
  {
    seq(|img| - 2 * pad, i requires 0 <= i < |img| - 2 * pad =>
      seq(|img[0]| - 2 * pad, j requires 0 <= j < |img[0]| - 2 * pad => img[i + pad][j + pad]))
  }

  /** The padded image is (h + 2 pad) x (w + 2 pad), holds value on every
      cell outside the inner window, and cropping the frame gives the image
      back. */
  lemma PaddedProperties(img: Image, pad: nat, value: int)
    requires Rect(img)
    ensures var p := Padded(img, pad, value);
      Rect(p) && Grid(p, |img| + 2 * pad, |img[0]| + 2 * pad)
    ensures var p := Padded(img, pad, value);
      forall i, j :: 0 <= i < |p| && 0 <= j < |p[i]| ==>
        (p[i][j] != value ==> pad <= i < |img| + pad && pad <= j < |img[0]| + pad)
    ensures Cropped(Padded(img, pad, value), pad) == img
  {
    var p := Padded(img, pad, value);
    forall i | 0 <= i < |img| ensures Cropped(p, pad)[i] == img[i] {}
  }

  // ---------------------------------------------------------------------
  // erosionRep.

  /** The first 0 of a row from column j on. */
  function FirstZeroInRow(row: seq<int>, j: nat): (r: Option<nat>)
    ensures r.Some? ==> (j <= r.value < |row| && row[r.value] == 0 &&
      forall k :: j <= k < r.value ==> row[k] != 0)
    ensures r.None? ==> forall k :: j <= k < |row| ==> row[k] != 0
    decreases |row| - j
  {
    if j >= |row| then None
    else if row[j] == 0 then Some(j)
    else FirstZeroInRow(row, j + 1)
  }

  /** The first 0 cell of rows i and later, in row-major order. */
  function FirstZeroFrom(rep: Image, i: nat): (r: Option<(nat, nat)>)
    ensures r.Some? ==> (i <= r.value.0 < |rep| && r.value.1 < |rep[r.value.0]| &&
      rep[r.value.0][r.value.1] == 0 &&
      (forall a, b :: i <= a < r.value.0 && 0 <= b < |rep[a]| ==> rep[a][b] != 0) &&
      (forall b :: 0 <= b < r.value.1 ==> rep[r.value.0][b] != 0))
    ensures r.None? ==> forall a, b :: i <= a < |rep| && 0 <= b < |rep[a]| ==> rep[a][b] != 0
    decreases |rep| - i
  {
    if i >= |rep| then None
    else match FirstZeroInRow(rep[i], 0)
      case Some(j) => Some((i, j))
      case None => FirstZeroFrom(rep, i + 1)
  }

  /** The representative point: the first 0 cell of repPt, else (0, 0). */
  function Anchor(rep: Image): (nat, nat)
  {
    match FirstZeroFrom(rep, 0)
    case Some(p) => p
    case None => (0, 0)
  }

  /** The frame wide enough for every offset of the element from the anchor. */
  function ErosionPad(se: Image, rep: Image): (pad: nat)
    requires |se| > 0
    ensures Anchor(rep).0 <= pad && Anchor(rep).1 <= pad
    ensures |se| - 1 - Anchor(rep).0 <= pad && |se[0]| - 1 - Anchor(rep).1 <= pad
  {
    var (ri, rj) := Anchor(rep);
    Max(Max(ri, rj), Max(|se| - 1 - ri, |se[0]| - 1 - rj))
  }

  /** Element cell (a, b), placed over pixel (y, x) by its anchor, lands on
      a 0 of the 255-padded image. */
  predicate HitAt(image: Image, se: Image, rep: Image, a: nat, b: nat, y: nat, x: nat)
    requires Rect(image) && Rect(se) && a < |se| && b < |se[0]| && y < |image| && x < |image[0]|
  {
    var pad := ErosionPad(se, rep);
    Padded(image, pad, 255)[y + pad + a - Anchor(rep).0][x + pad + b - Anchor(rep).1] == 0
  }

  /** Zero cells among the first n of element row a that hit at (y, x). */
  function RowHits(image: Image, se: Image, rep: Image, y: nat, x: nat, a: nat, n: nat): nat
    requires Rect(image) && Rect(se) && a < |se| && n <= |se[0]| && y < |image| && x < |image[0]|
  {
    if n == 0 then 0
    else
      var hit := se[a][n - 1] == 0 && HitAt(image, se, rep, a, n - 1, y, x);
      RowHits(image, se, rep, y, x, a, n - 1) + (if hit then 1 else 0)
  }

  /** Hits of the first m element rows at (y, x): the count result[y][x]. */
  function HitCount(image: Image, se: Image, rep: Image, y: nat, x: nat, m: nat): nat
    requires Rect(image) && Rect(se) && m <= |se| && y < |image| && x < |image[0]|
  {
    if m == 0 then 0
    else HitCount(image, se, rep, y, x, m - 1) + RowHits(image, se, rep, y, x, m - 1, |se[0]|)
  }

  function RowZeros(row: seq<int>, n: nat): nat
    requires n <= |row|
  {
    if n == 0 then 0 else RowZeros(row, n - 1) + (if row[n - 1] == 0 then 1 else 0)
  }

  function Zeros(se: Image, m: nat): nat
    requires m <= |se|
  {
    if m == 0 then 0 else Zeros(se, m - 1) + RowZeros(se[m - 1], |se[m - 1]|)
  }

  /** The number of 0 cells of the element. */
  function ZeroCount(se: Image): nat
  {
    Zeros(se, |se|)
  }

  function Eroded(image: Image, se: Image, rep: Image): Image
    requires Rect(image) && Rect(se)
  {
    seq(|image|, y requires 0 <= y < |image| =>
      seq(|image[0]|, x requires 0 <= x < |image[0]| =>
        if HitCount(image, se, rep, y, x, |se|) == ZeroCount(se) then 0 else 255))
  }

  /** The counting loops for one element cell at offset (di, dj). */
  method AddHits(result: array2<int>, ghost image: Image, ghost se: Image, ghost rep: Image,
                 padded: Image, pad: nat, a: nat, b: nat, di: int, dj: int)
    requires Rect(image) && Rect(se) && a < |se| && b < |se[0]|
    requires pad == ErosionPad(se, rep) && padded == Padded(image, pad, 255)
    requires di == a - Anchor(rep).0 && dj == b - Anchor(rep).1
    requires result.Length0 == |image| && result.Length1 == |image[0]|
    modifies result
    ensures forall y, x :: 0 <= y < result.Length0 && 0 <= x < result.Length1 ==>
      result[y, x] == old(result[y, x]) + (if HitAt(image, se, rep, a, b, y, x) then 1 else 0)
  {
    var height, width := result.Length0, result.Length1;
    for y := 0 to height
      invariant forall y', x :: 0 <= y' < height && 0 <= x < width ==>
        result[y', x] == old(result[y', x]) + (if y' < y && HitAt(image, se, rep, a, b, y', x) then 1 else 0)
    {
      for x := 0 to width
        invariant forall y', x' :: 0 <= y' < height && 0 <= x' < width ==>
          result[y', x'] == old(result[y', x']) +
            (if (y' < y || (y' == y && x' < x)) && HitAt(image, se, rep, a, b, y', x') then 1 else 0)
      {
        if padded[y + pad + di][x + pad + dj] == 0 {
          result[y, x] := result[y, x] + 1;
        }
      }
    }
  }

  /** The loop over the cells of element row a: every pixel's count grows
      by the hits of that row. */
  method AddRowHits(result: array2<int>, ghost image: Image, se: Image, rep: Image,
                    padded: Image, pad: nat, a: nat)
    requires Rect(image) && Rect(se) && a < |se|
    requires pad == ErosionPad(se, rep) && padded == Padded(image, pad, 255)
    requires result.Length0 == |image| && result.Length1 == |image[0]|
    modifies result
    ensures forall y, x :: 0 <= y < result.Length0 && 0 <= x < result.Length1 ==>
      result[y, x] == old(result[y, x]) + RowHits(image, se, rep, y, x, a, |se[0]|)
  {
    var (repI, repJ) := Anchor(rep);
    var seWidth := |se[0]|;
    assert |se[a]| == seWidth;
    for j := 0 to seWidth
      invariant forall y, x :: 0 <= y < result.Length0 && 0 <= x < result.Length1 ==>
        result[y, x] == old(result[y, x]) + RowHits(image, se, rep, y, x, a, j)
    {
      if se[a][j] == 0 {
        var di := a - repI;
        var dj := j - repJ;
        AddHits(result, image, se, rep, padded, pad, a, j, di, dj);
      }
    }
  }

  method ErosionRep(image: Image, se: Image, repPt: Image) returns (r: Image)
    requires Rect(image) && Rect(se)
    ensures r == Eroded(image, se, repPt)
  {
    var (repI, repJ) := Anchor(repPt);
    var seHeight := |se|;
    var seWidth := |se[0]|;
    var pad := Max(Max(repI, repJ), Max(seHeight - 1 - repI, seWidth - 1 - repJ));
    assert pad == ErosionPad(se, repPt);
    var padded := PadImage(image, pad, 255);
    var height := |image|;
    var width := |image[0]|;
    var result := new int[height, width]((_, _) => 0);
    var count := ZeroCount(se);
    for i := 0 to seHeight
      invariant forall y, x :: 0 <= y < height && 0 <= x < width ==>
        result[y, x] == HitCount(image, se, repPt, y, x, i)
    {
      AddRowHits(result, image, se, repPt, padded, pad, i);
    }
    r := seq(height, y requires 0 <= y < height reads result =>
      seq(width, x requires 0 <= x < width reads result => if result[y, x] == count then 0 else 255));
    forall y | 0 <= y < height ensures r[y] == Eroded(image, se, repPt)[y] {}
  }

  /** Element cell over pixel (y, x) lands on cell (yy, xx); it hits when
      that cell is inside the image and 0 (the frame is 255). */
  predicate Covered(image: Image, yy: int, xx: int)
    requires Rect(image)
  {
    0 <= yy < |image| && 0 <= xx < |image[0]| && image[yy][xx] == 0
  }

  lemma HitAtCovered(image: Image, se: Image, rep: Image, a: nat, b: nat, y: nat, x: nat)
    requires Rect(image) && Rect(se) && a < |se| && b < |se[0]| && y < |image| && x < |image[0]|
    ensures HitAt(image, se, rep, a, b, y, x) <==> Covered(image, y + a - Anchor(rep).0, x + b - Anchor(rep).1)
  {}

  lemma {:induction false} RowHitsVersusZeros(image: Image, se: Image, rep: Image, y: nat, x: nat, a: nat, n: nat)
    requires Rect(image) && Rect(se) && a < |se| && n <= |se[0]| && y < |image| && x < |image[0]|
    ensures RowHits(image, se, rep, y, x, a, n) <= RowZeros(se[a], n)
    ensures RowHits(image, se, rep, y, x, a, n) == RowZeros(se[a], n) <==>
      forall b :: 0 <= b < n && se[a][b] == 0 ==> HitAt(image, se, rep, a, b, y, x)
  {
    if n > 0 {
      RowHitsVersusZeros(image, se, rep, y, x, a, n - 1);
    }
  }

  lemma {:induction false} HitCountVersusZeros(image: Image, se: Image, rep: Image, y: nat, x: nat, m: nat)
    requires Rect(image) && Rect(se) && m <= |se| && y < |image| && x < |image[0]|
    ensures HitCount(image, se, rep, y, x, m) <= Zeros(se, m)
    ensures HitCount(image, se, rep, y, x, m) == Zeros(se, m) <==>
      forall a, b :: 0 <= a < m && 0 <= b < |se[0]| && se[a][b] == 0 ==> HitAt(image, se, rep, a, b, y, x)
  {
    if m > 0 {
      assert |se[m - 1]| == |se[0]|;
      HitCountVersusZeros(image, se, rep, y, x, m - 1);
      RowHitsVersusZeros(image, se, rep, y, x, m - 1, |se[0]|);
      assert Zeros(se, m) == Zeros(se, m - 1) + RowZeros(se[m - 1], |se[0]|);
      AllHitSplit(image, se, rep, y, x, m - 1);
    }
  }

  /** Every 0 cell of the first r + 1 rows hits exactly when every one of
      the first r rows does and every one of row r does. */
  lemma AllHitSplit(image: Image, se: Image, rep: Image, y: nat, x: nat, r: nat)
    requires Rect(image) && Rect(se) && r < |se| && y < |image| && x < |image[0]|
    ensures (forall a, b :: 0 <= a < r + 1 && 0 <= b < |se[0]| && se[a][b] == 0 ==> HitAt(image, se, rep, a, b, y, x)) <==>
      (forall a, b :: 0 <= a < r && 0 <= b < |se[0]| && se[a][b] == 0 ==> HitAt(image, se, rep, a, b, y, x)) &&
      (forall b :: 0 <= b < |se[r]| && se[r][b] == 0 ==> HitAt(image, se, rep, r, b, y, x))
  {
    if (forall a, b :: 0 <= a < r && 0 <= b < |se[0]| && se[a][b] == 0 ==> HitAt(image, se, rep, a, b, y, x)) &&
       (forall b :: 0 <= b < |se[r]| && se[r][b] == 0 ==> HitAt(image, se, rep, r, b, y, x))
    {
      forall a, b | 0 <= a < r + 1 && 0 <= b < |se[0]| && se[a][b] == 0
        ensures HitAt(image, se, rep, a, b, y, x)
      {
        if a == r {
          assert |se[r]| == |se[0]|;
        }
      }
    }
  }

  /** The erosion is an image of the input's size holding 0 and 255 only,
      and pixel (y, x) is 0 exactly when every 0 cell (a, b) of the
      element, placed with its anchor over (y, x), lands on a 0 pixel of
      the image. */
  lemma ErodedMeaning(image: Image, se: Image, rep: Image)
    requires Rect(image) && Rect(se)
    ensures Grid(Eroded(image, se, rep), |image|, |image[0]|) && Binary(Eroded(image, se, rep))
    ensures forall y, x :: 0 <= y < |image| && 0 <= x < |image[0]| ==>
      (Eroded(image, se, rep)[y][x] == 0 <==>
        forall a, b :: 0 <= a < |se| && 0 <= b < |se[0]| && se[a][b] == 0 ==>
          Covered(image, y + a - Anchor(rep).0, x + b - Anchor(rep).1))
  {
    forall y, x | 0 <= y < |image| && 0 <= x < |image[0]|
      ensures Eroded(image, se, rep)[y][x] == 0 <==>
        forall a, b :: 0 <= a < |se| && 0 <= b < |se[0]| && se[a][b] == 0 ==>
          Covered(image, y + a - Anchor(rep).0, x + b - Anchor(rep).1)
    {
      HitCountVersusZeros(image, se, rep, y, x, |se|);
      forall a, b | 0 <= a < |se| && 0 <= b < |se[0]|
        ensures HitAt(image, se, rep, a, b, y, x) <==> Covered(image, y + a - Anchor(rep).0, x + b - Anchor(rep).1)
      {
        HitAtCovered(image, se, rep, a, b, y, x);
      }
    }
  }

  // ---------------------------------------------------------------------
  // hitAndMiss.

  function HitAndMissOf(image: Image, seHit: Image, repHit: Image, seMiss: Image, repMiss: Image): Image
    requires Rect(image) && Rect(seHit) && Rect(seMiss)
  {
    var erosionObj := Eroded(image, seHit, repHit);
    var erosionBg := Eroded(Negate(image), seMiss, repMiss);
    seq(|image|, i requires 0 <= i < |image| =>
      seq(|image[0]|, j requires 0 <= j < |image[0]| =>
        if erosionObj[i][j] == 0 && erosionBg[i][j] == 0 then 0 else 255))
  }

  method HitAndMiss(image: Image, seHit: Image, repHit: Image, seMiss: Image, repMiss: Image) returns (r: Image)
    requires Rect(image) && Rect(seHit) && Rect(seMiss)
    ensures r == HitAndMissOf(image, seHit, repHit, seMiss, repMiss)
  {
    var erosionObj := ErosionRep(image, seHit, repHit);
    var erosionBg := ErosionRep(Negate(image), seMiss, repMiss);
    r := seq(|image|, i requires 0 <= i < |image| =>
      seq(|image[0]|, j requires 0 <= j < |image[0]| =>
        if erosionObj[i][j] == 0 && erosionBg[i][j] == 0 then 0 else 255));
  }

  /** A pixel matches exactly when the object element fits inside the 0
      pixels and the background element fits inside the non-zero pixels
      (both placed by their anchors; outside the image neither fits). */
  lemma HitAndMissMeaning(image: Image, seHit: Image, repHit: Image, seMiss: Image, repMiss: Image, y: nat, x: nat)
    requires Rect(image) && Rect(seHit) && Rect(seMiss) && y < |image| && x < |image[0]|
    ensures Grid(HitAndMissOf(image, seHit, repHit, seMiss, repMiss), |image|, |image[0]|)
    ensures Binary(HitAndMissOf(image, seHit, repHit, seMiss, repMiss))
    ensures HitAndMissOf(image, seHit, repHit, seMiss, repMiss)[y][x] == 0 <==>
      (forall a, b :: 0 <= a < |seHit| && 0 <= b < |seHit[0]| && seHit[a][b] == 0 ==>
        Covered(image, y + a - Anchor(repHit).0, x + b - Anchor(repHit).1)) &&
      (forall a, b :: 0 <= a < |seMiss| && 0 <= b < |seMiss[0]| && seMiss[a][b] == 0 ==>
        Covered(Negate(image), y + a - Anchor(repMiss).0, x + b - Anchor(repMiss).1))
  {
    ErodedMeaning(image, seHit, repHit);
    ErodedMeaning(Negate(image), seMiss, repMiss);
  }

  // ---------------------------------------------------------------------
  // morphologicalThinning.

  const RepPoint: Image := [[255, 255, 255], [255, 0, 255], [255, 255, 255]]

  /** The eight rotations of the object element. */
  const HitElements: seq<Image> := [
    [[255, 255, 255], [255, 0, 255], [0, 0, 0]],
    [[255, 255, 255], [0, 0, 255], [0, 0, 255]],
    [[0, 255, 255], [0, 0, 255], [0, 255, 255]],
    [[0, 0, 255], [0, 0, 255], [255, 255, 255]],
    [[0, 0, 0], [255, 0, 255], [255, 255, 255]],
    [[255, 0, 0], [255, 0, 0], [255, 255, 255]],
    [[255, 255, 0], [255, 0, 0], [255, 255, 0]],
    [[255, 255, 255], [255, 0, 0], [255, 0, 0]]
  ]

  /** The matching rotations of the background element. */
  const MissElements: seq<Image> := [
    [[0, 0, 0], [255, 255, 255], [255, 255, 255]],
    [[255, 0, 0], [255, 255, 0], [255, 255, 255]],
    [[255, 255, 0], [255, 255, 0], [255, 255, 0]],
    [[255, 255, 255], [255, 255, 0], [255, 0, 0]],
    [[255, 255, 255], [255, 255, 255], [0, 0, 0]],
    [[255, 255, 255], [0, 255, 255], [0, 0, 255]],
    [[0, 255, 255], [0, 255, 255], [0, 255, 255]],
    [[0, 0, 255], [0, 255, 255], [255, 255, 255]]
  ]

  /** The elements are 3 x 3, each object element has its centre set, and
      the representative point is the centre. */
  lemma ElementFacts()
    ensures |HitElements| == 8 && |MissElements| == 8
    ensures forall k :: 0 <= k < 8 ==> Grid(HitElements[k], 3, 3) && Grid(MissElements[k], 3, 3)
    ensures forall k :: 0 <= k < 8 ==> HitElements[k][1][1] == 0
    ensures Anchor(RepPoint) == (1, 1)
  {
    assert RepPoint[1][1] == 0;
    assert forall b :: 0 <= b < 3 ==> RepPoint[0][b] != 0;
    assert RepPoint[1][0] != 0;
  }

  /** One rotation step: every matched pixel becomes background. */
  function ThinStep(img: Image, k: nat): (r: Image)
    requires Rect(img) && k < 8
    ensures Grid(r, |img|, |img[0]|)
  {
    ElementFacts();
    var hmt := HitAndMissOf(img, HitElements[k], RepPoint, MissElements[k], RepPoint);
    seq(|img|, y requires 0 <= y < |img| =>
      seq(|img[y]|, x requires 0 <= x < |img[y]| => if hmt[y][x] == 0 then 255 else img[y][x]))
  }

  /** The first k rotation steps of one iteration. */
  function ThinRounds(img: Image, k: nat): (r: Image)
    requires Rect(img) && k <= 8
    ensures Grid(r, |img|, |img[0]|)
  {
    if k == 0 then img else ThinStep(ThinRounds(img, k - 1), k - 1)
  }

  /** n iterations of all eight rotation steps. */
  function Thinned(img: Image, n: nat): (r: Image)
    requires n == 0 || Rect(img)
    ensures |r| == |img| && (Rect(img) ==> Grid(r, |img|, |img[0]|))
  {
    if n == 0 then img else ThinRounds(Thinned(img, n - 1), 8)
  }

  /** The body of the rotation loop: rotation i's hit-and-miss result, and
      every matched pixel set to background. */
  method ApplyRotation(img: Image, i: nat) returns (r: Image)
    requires Rect(img) && i < 8
    ensures r == ThinStep(img, i)
  {
    ElementFacts();
    var hmt := HitAndMiss(img, HitElements[i], RepPoint, MissElements[i], RepPoint);
    r := seq(|img|, y requires 0 <= y < |img| =>
      seq(|img[y]|, x requires 0 <= x < |img[y]| => if hmt[y][x] == 0 then 255 else img[y][x]));
  }

  /** One iteration: the eight rotations in order. */
  method ThinIteration(img: Image) returns (r: Image)
    requires Rect(img)
    ensures r == ThinRounds(img, 8)
  {
    r := img;
    for i := 0 to 8
      invariant r == ThinRounds(img, i)
    {
      r := ApplyRotation(r, i);
    }
  }

  /** One more iteration applies the eight rotations to the last iterate. */
  lemma ThinnedNext(img: Image, n: nat)
    requires Rect(img)
    ensures Rect(Thinned(img, n))
    ensures Thinned(img, n + 1) == ThinRounds(Thinned(img, n), 8)
    ensures Grid(Thinned(img, n + 1), |img|, |img[0]|)
  {}

  /** The iteration loop of `morphologicalThinning`. */
  method IterateThinning(binaryImage: Image, height: nat, width: nat, numIter: int) returns (result: Image)
    requires Grid(binaryImage, height, width) && (height > 0 || numIter <= 0)
    ensures Grid(result, height, width) && result == Thinned(binaryImage, Max(0, numIter))
  {
    result := binaryImage;
    if numIter <= 0 {
      return;
    }
    assert Rect(binaryImage);
    var iter := 0;
    while iter < numIter
      invariant 0 <= iter <= numIter
      invariant Grid(result, height, width) && result == Thinned(binaryImage, iter)
    {
      result := NextIterate(binaryImage, iter, result);
      iter := iter + 1;
    }
  }

  /** One pass of the iteration loop takes iterate n to iterate n + 1. */
  method NextIterate(ghost img: Image, ghost n: nat, cur: Image) returns (r: Image)
    requires Rect(img) && cur == Thinned(img, n)
    ensures r == Thinned(img, n + 1) && Grid(r, |img|, |img[0]|)
  {
    ThinnedNext(img, n);
    r := ThinIteration(cur);
  }

  method MorphologicalThinning(data: seq<Byte>, width: nat, height: nat, numIter: int) returns (r: seq<Byte>)
    requires |data| == width * height * 4 && (height > 0 || numIter <= 0)
    ensures r == FromBinary(Thinned(BinaryImageOf(data, width, height), Max(0, numIter)), width, height)
  {
    var binaryImage := ToBinaryImage(data, width, height);
    BinaryImageProperties(data, width, height);
    var result := IterateThinning(binaryImage, height, width, numIter);
    r := FromBinaryImage(result, width, height);
  }

  /** A rotation step turns exactly the matched pixels into background, and
      every matched pixel was foreground: at (y, x) it only ever turns 0
      into 255, and the pixel is foreground afterwards exactly when it was
      foreground and did not match. */
  lemma ThinStepPixel(img: Image, k: nat, y: nat, x: nat)
    requires Rect(img) && k < 8 && y < |img| && x < |img[0]|
    ensures ThinStep(img, k)[y][x] == 0 <==>
      img[y][x] == 0 && HitAndMissOf(img, HitElements[k], RepPoint, MissElements[k], RepPoint)[y][x] != 0
    ensures ThinStep(img, k)[y][x] != img[y][x] ==> img[y][x] == 0 && ThinStep(img, k)[y][x] == 255
  {
    ElementFacts();
    if HitAndMissOf(img, HitElements[k], RepPoint, MissElements[k], RepPoint)[y][x] == 0 {
      HitAndMissMeaning(img, HitElements[k], RepPoint, MissElements[k], RepPoint, y, x);
      assert Covered(img, y + 1 - 1, x + 1 - 1);
    }
  }

  /** A rotation step keeps a binary image binary. */
  lemma ThinStepBinary(img: Image, k: nat)
    requires Rect(img) && k < 8 && Binary(img)
    ensures Binary(ThinStep(img, k))
  {}

  /** Over the first k steps a pixel only turns from foreground into
      background. */
  lemma {:induction false} ThinRoundsPixel(img: Image, k: nat, y: nat, x: nat)
    requires Rect(img) && k <= 8 && y < |img| && x < |img[0]|
    ensures ThinRounds(img, k)[y][x] == 0 ==> img[y][x] == 0
    ensures ThinRounds(img, k)[y][x] != img[y][x] ==> ThinRounds(img, k)[y][x] == 255
  {
    if k > 0 {
      ThinRoundsPixel(img, k - 1, y, x);
      ThinStepPixel(ThinRounds(img, k - 1), k - 1, y, x);
    }
  }

  lemma {:induction false} ThinRoundsBinary(img: Image, k: nat)
    requires Rect(img) && k <= 8 && Binary(img)
    ensures Binary(ThinRounds(img, k))
  {
    if k > 0 {
      ThinRoundsBinary(img, k - 1);
      ThinStepBinary(ThinRounds(img, k - 1), k - 1);
    }
  }

  /** After any number of iterations the foreground is a subset of the
      original one and every changed pixel is background. */
  lemma {:induction false} ThinnedPixel(img: Image, n: nat, y: nat, x: nat)
    requires Rect(img) && y < |img| && x < |img[0]|
    ensures Thinned(img, n)[y][x] == 0 ==> img[y][x] == 0
    ensures Thinned(img, n)[y][x] != img[y][x] ==> Thinned(img, n)[y][x] == 255
  {
    if n > 0 {
      ThinnedPixel(img, n - 1, y, x);
      ThinRoundsPixel(Thinned(img, n - 1), 8, y, x);
    }
  }

  lemma {:induction false} ThinnedBinary(img: Image, n: nat)
    requires Rect(img) && Binary(img)
    ensures Binary(Thinned(img, n))
  {
    if n > 0 {
      ThinnedBinary(img, n - 1);
      ThinRoundsBinary(Thinned(img, n - 1), 8);
    }
  }

  /** The thinned buffer: every pixel is black or white and opaque, and a
      black pixel was dark (mean of R, G, B below 128) in the input. */
  lemma ThinningOutput(data: seq<Byte>, w: nat, h: nat, n: nat, y: nat, x: nat)
    requires |data| == w * h * 4 && h > 0 && y < h && x < w
    ensures var out := FromBinary(Thinned(BinaryImageOf(data, w, h), n), w, h);
      |out| == |data| && Idx(w, y, x, 3) < |out| &&
      out[Idx(w, y, x, 3)] == 255 &&
      out[Idx(w, y, x, 0)] == out[Idx(w, y, x, 1)] == out[Idx(w, y, x, 2)] &&
      (out[Idx(w, y, x, 0)] == 0 || out[Idx(w, y, x, 0)] == 255) &&
      (out[Idx(w, y, x, 0)] == 0 ==> RgbSum(data, w, h, y, x) < 384)
  {
    var img := BinaryImageOf(data, w, h);
    BinaryImageProperties(data, w, h);
    ThinnedPixel(img, n, y, x);
    ThinnedBinary(img, n);
    BinaryPixel(Thinned(img, n), w, h, y, x);
  }

  /** Pixel (y, x) of the buffer written from a binary image. */
  lemma BinaryPixel(t: Image, w: nat, h: nat, y: nat, x: nat)
    requires Grid(t, h, w) && Binary(t) && y < h && x < w
    ensures var out := FromBinary(t, w, h);
      |out| == w * h * 4 && Idx(w, y, x, 3) < |out| &&
      out[Idx(w, y, x, 3)] == 255 &&
      out[Idx(w, y, x, 0)] == out[Idx(w, y, x, 1)] == out[Idx(w, y, x, 2)] == t[y][x]
  {
    FromBinaryLayout(t, w, h, y, x, 0);
    FromBinaryLayout(t, w, h, y, x, 1);
    FromBinaryLayout(t, w, h, y, x, 2);
    FromBinaryLayout(t, w, h, y, x, 3);
  }
}
