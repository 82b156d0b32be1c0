/** Shared vocabulary of the pixel-buffer algorithms: bytes of a clamped RGBA
    buffer, the store conversion of a clamped byte array, the JavaScript
    rounding and remainder operators, and the index arithmetic of a row-major
    RGBA buffer (sample (y, x, c) lives at (y*w + x)*4 + c). */
module Pixels {

  /** One byte of a `Uint8ClampedArray`. */
  type Byte = b: int | 0 <= b < 256

  datatype Option<T> = None | Some(value: T)

  function Min(a: int, b: int): int { if a <= b then a else b }
  function Max(a: int, b: int): int { if a >= b then a else b }
  function AbsReal(r: real): real { if r < 0.0 then -r else r }

  /** A quotient of a sum between n * low and n * high by n > 0. */
  lemma MeanBetween(sum: real, n: real, low: real, high: real)
    requires n > 0.0 && n * low <= sum <= n * high
    ensures low <= sum / n <= high
  {
    assert (n * low) / n == low && (n * high) / n == high;
  }

  /** Round to the nearest integer, ties to the even neighbour. */
  function RoundHalfEven(r: real): (n: int)
    ensures (n as real) - 0.5 <= r <= (n as real) + 0.5
    ensures (r == (n as real) - 0.5 || r == (n as real) + 0.5) ==> n % 2 == 0
  {
    var f := r.Floor;
    var frac := r - f as real;
    if frac < 0.5 then f
    else if frac > 0.5 then f + 1
    else if f % 2 == 0 then f else f + 1
  }

  /** The value a `Uint8ClampedArray` stores when a number is written into it:
      clamp to [0, 255], then round half to even. (A NaN stores 0; the model
      has no NaN, callers that can produce one take that branch explicitly.) */
  function ClampRound(r: real): (b: Byte)
    ensures r <= 0.0 ==> b == 0
    ensures r >= 255.0 ==> b == 255
    ensures 0.0 <= r <= 255.0 ==> (b as real) - 0.5 <= r <= (b as real) + 0.5
    ensures 0.0 <= r <= 255.0 && (r == (b as real) - 0.5 || r == (b as real) + 0.5) ==> b % 2 == 0
  {
    if r <= 0.0 then 0
    else if r >= 255.0 then 255
    else RoundHalfEven(r)
  }

  /** The store of an integer: plain clamping. */
  function Clamp(v: int): (b: Byte)
    ensures 0 <= v < 256 ==> b == v
    ensures v < 0 ==> b == 0
    ensures v > 255 ==> b == 255
  {
    if v < 0 then 0 else if v > 255 then 255 else v
  }

  lemma ClampRoundOfInt(v: int)
    ensures ClampRound(v as real) == Clamp(v)
  {
    if 0 < v < 255 {
      assert (v as real).Floor == v;
    }
  }

  lemma {:induction false} ClampRoundMonotone(a: real, b: real)
    requires a <= b
    ensures ClampRound(a) <= ClampRound(b)
  {
    if 0.0 < a && b < 255.0 {
      var fa, fb := a.Floor, b.Floor;
      assert fa <= fb;
      if fa == fb {
        assert a - fa as real <= b - fb as real;
      }
    }
  }

  /** JavaScript `Math.round`: nearest integer, ties toward +infinity. */
  function JsRound(r: real): (n: int)
    ensures (n as real) - 0.5 <= r < (n as real) + 0.5
  {
    (r + 0.5).Floor
  }

  /** JavaScript `%` on integers: the remainder truncates toward zero, so it
      takes the sign of the dividend (Dafny's `%` is Euclidean). */
  function JsRem(a: int, n: int): (r: int)
    requires n > 0
    ensures a >= 0 ==> r == a % n
    ensures -n < r < n
    ensures (a - r) % n == 0 && (a < 0 ==> r <= 0)
  {
    if a >= 0 then
      RemainderRemoved(a, n);
      a % n
    else
      RemainderRemoved(-a, n);
      -((-a) % n)
  }

  /** Taking away the remainder leaves a multiple of n, and so does negating it. */
  lemma RemainderRemoved(x: int, n: int)
    requires n > 0
    ensures (x - x % n) % n == 0 && (-(x - x % n)) % n == 0
  {
    var q := x / n;
    assert x - x % n == n * q;
    assert -(n * q) == n * -q;
    MultipleMod(n, q);
    MultipleMod(n, -q);
  }

  lemma MultipleMod(n: int, k: int)
    requires n > 0
    ensures (n * k) % n == 0
  {
    var m := k - (n * k) / n;
    assert (n * k) % n == n * m;
  }

  /** Index of channel c of pixel (y, x) in a buffer of width w. */
  function Idx(w: nat, y: nat, x: nat, c: nat): nat { (y * w + x) * 4 + c }

  /** Neighbouring rows start one width apart. */
  lemma RowShift(y: int, w: int)
    ensures (y - 1) * w == y * w - w && (y + 1) * w == y * w + w
  {}

  lemma MulMono(a: nat, b: nat, w: nat)
    requires a <= b
    ensures a * w <= b * w
  {}

  /** Row y of an image of height h ends at (y + 1) * w, within w * h. */
  lemma RowFits(y: nat, w: nat, h: nat)
    requires y < h
    ensures (y + 1) * w == y * w + w
    ensures y * w + w <= w * h
    ensures h * w == w * h
  {
    MulMono(y + 1, h, w);
  }

  /** The pixel index y*w + x of an in-image pixel is below w*h. */
  lemma PixelBound(w: nat, h: nat, y: nat, x: nat)
    requires y < h && x < w
    ensures y * w + x < w * h
    ensures 0 <= y * w + x
  {
    MulMono(y + 1, h, w);
    assert (y + 1) * w == y * w + w;
    assert h * w == w * h;
  }

  lemma IdxBound(w: nat, h: nat, y: nat, x: nat, c: nat)
    requires y < h && x < w && c < 4
    ensures Idx(w, y, x, c) < w * h * 4
  {
    PixelBound(w, h, y, x);
    assert w * h * 4 == (w * h) * 4;
  }

  /** Division by w recovers the row and the column of a pixel index. */
  lemma DivModUnique(w: nat, y: int, x: int)
    requires 0 <= x < w
    ensures (y * w + x) / w == y
    ensures (y * w + x) % w == x
  {
    var p := y * w + x;
    var q, r := p / w, p % w;
    assert p == q * w + r;
    assert (y - q) * w == r - x;
    if y - q > 0 {
      MulMono(1, y - q, w);
      assert false;
    } else if y - q < 0 {
      MulMono(1, q - y, w);
      assert false;
    }
  }

  /** Sample k belongs to pixel k / 4, whose first sample is (k / 4) * 4. */
  lemma SampleOf(k: nat)
    ensures (k / 4) * 4 <= k < (k / 4) * 4 + 4
    ensures k % 4 == k - (k / 4) * 4
    ensures ((k / 4) * 4) / 4 == k / 4 && ((k / 4) * 4) % 4 == 0
  {}

  /** Decoding a sample index back into (row, column, channel). */
  function Row(k: nat, w: nat): nat requires w > 0 { (k / 4) / w }
  function Col(k: nat, w: nat): nat requires w > 0 { (k / 4) % w }
  function Chan(k: nat): nat { k % 4 }

  lemma IdxDecode(w: nat, y: nat, x: nat, c: nat)
    requires x < w && c < 4
    ensures Idx(w, y, x, c) / 4 == y * w + x
    ensures Row(Idx(w, y, x, c), w) == y
    ensures Col(Idx(w, y, x, c), w) == x
    ensures Chan(Idx(w, y, x, c)) == c
  {
    DivModUnique(4, y * w + x, c);
    DivModUnique(w, y, x);
  }

  lemma DecodeBound(k: nat, w: nat, h: nat)
    requires k < w * h * 4
    ensures w > 0 && h > 0
    ensures Row(k, w) < h && Col(k, w) < w && Chan(k) < 4
    ensures Idx(w, Row(k, w), Col(k, w), Chan(k)) == k
  {
    var p := k / 4;
    assert p < w * h;
    var y, x := p / w, p % w;
    assert p == y * w + x;
    if y >= h {
      MulMono(h, y, w);
      assert false;
    }
  }
}
