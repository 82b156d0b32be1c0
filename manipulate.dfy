/** Point operations on colour triples and the two buffer-wide binarisers and
    the buffer negation of src/utils/manipulate.ts. */
module Manipulate {
  import opened Pixels

  /** A colour triple as the per-pixel functions return it (plain numbers, not
      yet stored into a clamped buffer). */
  datatype Rgb = Rgb(r: real, g: real, b: real)

  function Mean3(r: real, g: real, b: real): real { (r + g + b) / 3.0 }

  function ApplyGrayscale(r: real, g: real, b: real): Rgb
  {
    var avg := Mean3(r, g, b);
    Rgb(avg, avg, avg)
  }

  function ApplyBrightness(r: real, g: real, b: real, brightness: real): Rgb
  {
    Rgb(r * (brightness / 100.0), g * (brightness / 100.0), b * (brightness / 100.0))
  }

  function ApplyContrast(r: real, g: real, b: real, contrast: real): Rgb
  {
    Rgb((r - 128.0) * (contrast / 100.0) + 128.0,
        (g - 128.0) * (contrast / 100.0) + 128.0,
        (b - 128.0) * (contrast / 100.0) + 128.0)
  }

  function ApplyNegative(r: real, g: real, b: real): Rgb
  {
    Rgb(255.0 - r, 255.0 - g, 255.0 - b)
  }

  /** Strict `<` against the threshold: a mean equal to it gives white. */
  function ApplyBinarization(r: real, g: real, b: real, threshold: real): Rgb
  {
    if Mean3(r, g, b) < threshold then Rgb(0.0, 0.0, 0.0) else Rgb(255.0, 255.0, 255.0)
  }

  lemma GrayscaleIdempotent(r: real, g: real, b: real)
    ensures var p := ApplyGrayscale(r, g, b);
      p.r == p.g == p.b == Mean3(r, g, b) && ApplyGrayscale(p.r, p.g, p.b) == p
  {}

  lemma NegativeInvolution(r: real, g: real, b: real)
    ensures var p := ApplyNegative(r, g, b); ApplyNegative(p.r, p.g, p.b) == Rgb(r, g, b)
  {}

  lemma BrightnessAndContrastNeutral(r: real, g: real, b: real, contrast: real)
    ensures ApplyBrightness(r, g, b, 100.0) == Rgb(r, g, b)
    ensures ApplyContrast(r, g, b, 100.0) == Rgb(r, g, b)
    ensures ApplyContrast(128.0, 128.0, 128.0, contrast) == Rgb(128.0, 128.0, 128.0)
  {}

  lemma BinarizationTies(r: real, g: real, b: real, threshold: real)
    ensures var p := ApplyBinarization(r, g, b, threshold);
      (p == Rgb(0.0, 0.0, 0.0) <==> Mean3(r, g, b) < threshold) &&
      (p == Rgb(0.0, 0.0, 0.0) || p == Rgb(255.0, 255.0, 255.0))
    ensures Mean3(r, g, b) == threshold ==> ApplyBinarization(r, g, b, threshold) == Rgb(255.0, 255.0, 255.0)
  {}

  /** Mean of the RGB samples of the pixel that sample k belongs to. */
  function PixelMean(data: seq<Byte>, k: nat): real
    requires k < |data| && |data| % 4 == 0
  {
    var base := k - k % 4;
    Mean3(data[base] as real, data[base + 1] as real, data[base + 2] as real)
  }

  /** Sample k of `binarizeClampedArray`: strict `>` against the threshold. */
  function BinarizedSample(data: seq<Byte>, threshold: real, k: nat): Byte
    requires k < |data| && |data| % 4 == 0
  {
    if k % 4 == 3 then data[k]
    else if PixelMean(data, k) > threshold then 255 else 0
  }

  function Binarized(data: seq<Byte>, threshold: real): seq<Byte>
    requires |data| % 4 == 0
  {
    seq(|data|, k requires 0 <= k < |data| => BinarizedSample(data, threshold, k))
  }

  /** One row of the loop of `binarizeClampedArray`: the pixels start up to
      start + width of a buffer of n pixels. */
  method BinarizeRow(result: array<Byte>, data: seq<Byte>, n: nat, start: nat, width: nat, threshold: real)
    requires |data| == n * 4 && result.Length == |data| && start + width <= n
    requires forall k :: 0 <= k < 4 * start ==> result[k] == BinarizedSample(data, threshold, k)
    modifies result
    ensures forall k :: 0 <= k < 4 * (start + width) ==> result[k] == BinarizedSample(data, threshold, k)
  {
    for x := 0 to width
      invariant forall k :: 0 <= k < 4 * (start + x) ==> result[k] == BinarizedSample(data, threshold, k)
    {
      var idx := (start + x) * 4;
      var avgValue := (data[idx] as int + data[idx + 1] + data[idx + 2]) as real / 3.0;
      var binaryValue: Byte := if avgValue > threshold then 255 else 0;
      result[idx] := binaryValue;
      result[idx + 1] := binaryValue;
      result[idx + 2] := binaryValue;
      result[idx + 3] := data[idx + 3];
      forall k | idx <= k < idx + 4
        ensures result[k] == BinarizedSample(data, threshold, k)
      {
        SampleOf(k);
        assert k / 4 == start + x;
        assert k - k % 4 == idx;
      }
    }
  }

  method BinarizeClampedArray(data: seq<Byte>, width: nat, height: nat, threshold: real)
    returns (r: seq<Byte>)
    requires |data| == width * height * 4
    ensures |data| % 4 == 0 && r == Binarized(data, threshold)
  {
    var result := new Byte[|data|](_ => 0);
    for y := 0 to height
      invariant y * width <= width * height
      invariant forall k :: 0 <= k < 4 * (y * width) ==> result[k] == BinarizedSample(data, threshold, k)
    {
      RowFits(y, width, height);
      BinarizeRow(result, data, width * height, y * width, width, threshold);
    }
    assert 4 * (height * width) == |data|;
    r := result[..];
    assert forall k :: 0 <= k < |r| ==> r[k] == Binarized(data, threshold)[k];
  }

  /** The RGB channels of a binarised buffer are 0 or 255, white exactly when
      the pixel mean exceeds the threshold (a tie gives black); alpha is copied. */
  lemma BinarizedValues(data: seq<Byte>, threshold: real, k: nat)
    requires |data| % 4 == 0 && k < |data|
    ensures |Binarized(data, threshold)| == |data|
    ensures k % 4 == 3 ==> Binarized(data, threshold)[k] == data[k]
    ensures k % 4 != 3 ==>
      (Binarized(data, threshold)[k] == 255 <==> PixelMean(data, k) > threshold) &&
      (Binarized(data, threshold)[k] == 0 <==> PixelMean(data, k) <= threshold)
  {}

  /** The three colour samples of a binarised pixel are equal, and black or white. */
  lemma BinarizedPixelUniform(data: seq<Byte>, once: seq<Byte>, threshold: real, k: nat)
    requires |data| % 4 == 0 && k < |data| && k % 4 != 3
    requires once == Binarized(data, threshold)
    ensures var base := k - k % 4;
      base + 2 < |once| && once[base] == once[base + 1] == once[base + 2] == once[k] &&
      (once[k] == 0 || once[k] == 255)
  {
    SampleOf(k);
    var base := k - k % 4;
    assert base % 4 == 0 && (base + 1) % 4 == 1 && (base + 2) % 4 == 2;
    assert base + 1 - (base + 1) % 4 == base && base + 2 - (base + 2) % 4 == base;
    assert once[base] == BinarizedSample(data, threshold, base);
    assert once[base + 1] == BinarizedSample(data, threshold, base + 1);
    assert once[base + 2] == BinarizedSample(data, threshold, base + 2);
  }

  /** A sample of a binarised buffer that is binarised again keeps its value. */
  lemma BinarizedSampleStable(data: seq<Byte>, once: seq<Byte>, threshold: real, k: nat)
    requires |data| % 4 == 0 && 0.0 <= threshold < 255.0 && k < |data|
    requires once == Binarized(data, threshold)
    ensures BinarizedSample(once, threshold, k) == once[k]
  {
    if k % 4 != 3 {
      BinarizedPixelUniform(data, once, threshold, k);
      var v := once[k] as real;
      assert PixelMean(once, k) == Mean3(v, v, v) == v;
    }
  }

  /** Binarising twice at the same threshold changes nothing when 0 <= t < 255. */
  lemma {:induction false} BinarizeIdempotent(data: seq<Byte>, threshold: real)
    requires |data| % 4 == 0 && 0.0 <= threshold < 255.0
    ensures Binarized(Binarized(data, threshold), threshold) == Binarized(data, threshold)
  {
    var once := Binarized(data, threshold);
    var twice := Binarized(once, threshold);
    forall k | 0 <= k < |data|
      ensures twice[k] == once[k]
    {
      BinarizedSampleStable(data, once, threshold, k);
    }
  }

  /** Sample k of `negateClampedArray`. */
  function NegatedSample(data: seq<Byte>, k: nat): Byte
    requires k < |data|
  {
    if k % 4 == 3 then data[k] else 255 - data[k]
  }

  function Negated(data: seq<Byte>): seq<Byte>
  {
    seq(|data|, k requires 0 <= k < |data| => NegatedSample(data, k))
  }

  /** The loop steps over pixels four samples at a time; a write past the end
      of a typed array is ignored, which the guards model. */
  method NegateClampedArray(data: seq<Byte>) returns (r: seq<Byte>)
    ensures r == Negated(data)
  {
    var n := |data|;
    var result := new Byte[n](_ => 0);
    var i := 0;
    while i < n
      invariant 0 <= i <= n + 3 && i % 4 == 0
      invariant forall k :: 0 <= k < i && k < n ==> result[k] == NegatedSample(data, k)
    {
      result[i] := 255 - data[i];
      if i + 1 < n { result[i + 1] := 255 - data[i + 1]; }
      if i + 2 < n { result[i + 2] := 255 - data[i + 2]; }
      if i + 3 < n { result[i + 3] := data[i + 3]; }
      i := i + 4;
    }
    r := result[..];
  }

  lemma {:induction false} NegatedInvolution(data: seq<Byte>)
    ensures Negated(Negated(data)) == data
    ensures forall k :: 0 <= k < |data| && k % 4 == 3 ==> Negated(data)[k] == data[k]
  {
    var once := Negated(data);
    assert |Negated(once)| == |data|;
    forall k | 0 <= k < |data| ensures Negated(once)[k] == data[k] {
      assert once[k] == NegatedSample(data, k);
    }
  }
}
