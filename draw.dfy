/** `drawCrosshair` of src/utils/draw.ts: a copy of the buffer with a
    horizontal segment of 2*size+1 pixels on row centerY and a vertical one
    on column centerX painted in one colour. Only the range checks of the
    source are made (x against the width, y against the height); a write
    whose index falls outside the typed array is ignored, which is what
    keeps a horizontal segment on a row outside the image invisible and
    lets a vertical segment through a column outside the image wrap onto a
    neighbouring row. */
module Draw {
  import opened Pixels

  /** Pixel p (an index y*width + x, possibly outside the buffer) is set by
      the horizontal loop once x has run up to xEnd (exclusive). */
  predicate HorizontalPainted(width: nat, centerX: int, centerY: int, size: int, p: int, xEnd: int)
  {
    var x := p - centerY * width;
    centerX - size <= x < xEnd && 0 <= x < width
  }

  /** Pixel p is set by the vertical loop once y has run up to yEnd
      (exclusive): p lies at (y * width + centerX) for an admitted y. */
  predicate VerticalPainted(width: nat, height: nat, centerX: int, centerY: int, size: int, p: int, yEnd: int)
  {
    width > 0 && (p - centerX) % width == 0 &&
    var y := (p - centerX) / width;
    centerY - size <= y < yEnd && 0 <= y < height
  }

  predicate Painted(width: nat, height: nat, centerX: int, centerY: int, size: int, p: int)
  {
    HorizontalPainted(width, centerX, centerY, size, p, centerX + size + 1) ||
    VerticalPainted(width, height, centerX, centerY, size, p, centerY + size + 1)
  }

  function Crosshair(data: seq<Byte>, width: nat, height: nat, centerX: int, centerY: int,
                     size: int, color: seq<int>): seq<Byte>
    requires |color| == 4
  {
    seq(|data|, k requires 0 <= k < |data| =>
      if Painted(width, height, centerX, centerY, size, k / 4) then Clamp(color[k % 4]) else data[k])
  }

  /** One pixel's four stores; the ones past the end of the array are
      ignored. */
  method PaintPixel(result: array<Byte>, idx: int, color: seq<int>)
    requires |color| == 4
    modifies result
    ensures forall k :: 0 <= k < result.Length ==>
      result[k] == if idx <= k < idx + 4 then Clamp(color[k - idx]) else old(result[k])
  {
    if 0 <= idx < result.Length { result[idx] := Clamp(color[0]); }
    if 0 <= idx + 1 < result.Length { result[idx + 1] := Clamp(color[1]); }
    if 0 <= idx + 2 < result.Length { result[idx + 2] := Clamp(color[2]); }
    if 0 <= idx + 3 < result.Length { result[idx + 3] := Clamp(color[3]); }
  }

  /** idx = 4q covers sample k exactly when k / 4 == q. */
  lemma Quarter(q: int, k: nat)
    ensures (4 * q <= k < 4 * q + 4) <==> k / 4 == q
    ensures k / 4 == q ==> k - 4 * q == k % 4
  {}

  /** The horizontal loop of `drawCrosshair`. */
  method DrawRow(result: array<Byte>, data: seq<Byte>, width: nat, centerX: int, centerY: int,
                 size: int, color: seq<int>)
    requires |color| == 4 && result.Length == |data| && result[..] == data
    modifies result
    ensures forall k :: 0 <= k < result.Length ==>
      result[k] == if HorizontalPainted(width, centerX, centerY, size, k / 4, centerX + size + 1)
                   then Clamp(color[k % 4]) else data[k]
  {
    var x := centerX - size;
    while x <= centerX + size
      invariant centerX - size <= x && (x <= centerX + size + 1 || x == centerX - size)
      invariant forall k :: 0 <= k < result.Length ==>
        result[k] == if HorizontalPainted(width, centerX, centerY, size, k / 4, x) then Clamp(color[k % 4]) else data[k]
      decreases centerX + size + 1 - x
    {
      ghost var before := result[..];
      if x >= 0 && x < width {
        var idx := (centerY * width + x) * 4;
        PaintPixel(result, idx, color);
      }
      forall k | 0 <= k < result.Length
        ensures result[k] == if HorizontalPainted(width, centerX, centerY, size, k / 4, x + 1)
                             then Clamp(color[k % 4]) else data[k]
      {
        Quarter(centerY * width + x, k);
        assert before[k] == if HorizontalPainted(width, centerX, centerY, size, k / 4, x)
                            then Clamp(color[k % 4]) else data[k];
      }
      x := x + 1;
    }
    forall k | 0 <= k < result.Length
      ensures HorizontalPainted(width, centerX, centerY, size, k / 4, x) ==
              HorizontalPainted(width, centerX, centerY, size, k / 4, centerX + size + 1)
    {}
  }

  /** The vertical loop of `drawCrosshair`, over a buffer whose samples are
      the colour wherever before holds and data elsewhere. */
  method DrawColumn(result: array<Byte>, data: seq<Byte>, width: nat, height: nat, centerX: int, centerY: int,
                    size: int, color: seq<int>)
    requires |color| == 4 && result.Length == |data| == width * height * 4
    requires forall k :: 0 <= k < result.Length ==>
      result[k] == if HorizontalPainted(width, centerX, centerY, size, k / 4, centerX + size + 1)
                   then Clamp(color[k % 4]) else data[k]
    modifies result
    ensures forall k :: 0 <= k < result.Length ==>
      result[k] == if Painted(width, height, centerX, centerY, size, k / 4) then Clamp(color[k % 4]) else data[k]
  {
    var y := centerY - size;
    while y <= centerY + size
      invariant centerY - size <= y && (y <= centerY + size + 1 || y == centerY - size)
      invariant forall k :: 0 <= k < result.Length ==>
        result[k] == if HorizontalPainted(width, centerX, centerY, size, k / 4, centerX + size + 1) ||
                        VerticalPainted(width, height, centerX, centerY, size, k / 4, y)
                     then Clamp(color[k % 4]) else data[k]
      decreases centerY + size + 1 - y
    {
      ghost var before := result[..];
      if y >= 0 && y < height {
        var idx := (y * width + centerX) * 4;
        PaintPixel(result, idx, color);
      }
      forall k | 0 <= k < result.Length
        ensures result[k] == if HorizontalPainted(width, centerX, centerY, size, k / 4, centerX + size + 1) ||
                                VerticalPainted(width, height, centerX, centerY, size, k / 4, y + 1)
                             then Clamp(color[k % 4]) else data[k]
      {
        Quarter(y * width + centerX, k);
        ColumnStep(width, height, centerX, centerY, size, y, k / 4);
        assert before[k] == if HorizontalPainted(width, centerX, centerY, size, k / 4, centerX + size + 1) ||
                               VerticalPainted(width, height, centerX, centerY, size, k / 4, y)
                            then Clamp(color[k % 4]) else data[k];
      }
      y := y + 1;
    }
    forall k | 0 <= k < result.Length
      ensures VerticalPainted(width, height, centerX, centerY, size, k / 4, y) ==
              VerticalPainted(width, height, centerX, centerY, size, k / 4, centerY + size + 1)
    {}
  }

  /** One more row admitted to the vertical loop adds exactly the pixel
      y * width + centerX, when y is a row of the image. */
  lemma ColumnStep(width: nat, height: nat, centerX: int, centerY: int, size: int, y: int, p: int)
    requires centerY - size <= y
    ensures VerticalPainted(width, height, centerX, centerY, size, p, y + 1) <==>
      VerticalPainted(width, height, centerX, centerY, size, p, y) ||
      (0 <= y < height && width > 0 && p == y * width + centerX)
  {
    OnColumn(width, y, centerX, p);
  }

  method DrawCrosshair(data: seq<Byte>, width: nat, height: nat, centerX: int, centerY: int,
                       size: int, color: seq<int>) returns (r: seq<Byte>)
    requires |color| == 4 && |data| == width * height * 4
    ensures r == Crosshair(data, width, height, centerX, centerY, size, color)
  {
    var result := new Byte[|data|](k requires 0 <= k < |data| => data[k]);
    DrawRow(result, data, width, centerX, centerY, size, color);
    DrawColumn(result, data, width, height, centerX, centerY, size, color);
    r := result[..];
  }

  /** p = y * width + centerX exactly when p - centerX is a multiple of the
      width with quotient y. */
  lemma OnColumn(width: nat, y: int, centerX: int, p: int)
    ensures (p == y * width + centerX) <==>
      ((width > 0 && (p - centerX) % width == 0 && (p - centerX) / width == y) || (width == 0 && p == centerX))
  {
    if width > 0 {
      DivModUnique(width, y, 0);
    }
  }

  /** Pixel (y, x) of the image is on the horizontal segment exactly when it
      is on the centre row within size columns of the centre. */
  lemma HorizontalShape(width: nat, centerX: int, centerY: int, size: int, y: nat, x: nat)
    requires x < width
    ensures HorizontalPainted(width, centerX, centerY, size, y * width + x, centerX + size + 1) <==>
      y == centerY && centerX - size <= x <= centerX + size
  {
    var p := y * width + x;
    assert p - centerY * width == (y - centerY) * width + x;
    if y > centerY {
      MulMono(1, y - centerY, width);
    } else if y < centerY {
      MulMono(1, centerY - y, width);
      assert (y - centerY) * width == -((centerY - y) * width);
    }
  }

  /** Pixel (y, x) of the image is on the vertical segment exactly when it is
      on the centre column within size rows of the centre. */
  lemma VerticalShape(width: nat, height: nat, centerX: int, centerY: int, size: int, y: nat, x: nat)
    requires 0 <= centerX < width && y < height && x < width
    ensures VerticalPainted(width, height, centerX, centerY, size, y * width + x, centerY + size + 1) <==>
      x == centerX && centerY - size <= y <= centerY + size
  {
    var p := y * width + x;
    assert p - centerX == y * width + (x - centerX);
    if x >= centerX {
      DivModUnique(width, y, x - centerX);
    } else {
      DivModUnique(width, y - 1, width + x - centerX);
      assert (y - 1) * width + (width + x - centerX) == y * width + (x - centerX);
    }
  }

  /** With the centre column inside the image, a pixel is painted exactly
      when it is on the centre row within size columns of the centre, or on
      the centre column within size rows of it. */
  lemma CrosshairShape(width: nat, height: nat, centerX: int, centerY: int, size: int, y: nat, x: nat)
    requires 0 <= centerX < width && y < height && x < width
    ensures Painted(width, height, centerX, centerY, size, y * width + x) <==>
      (y == centerY && centerX - size <= x <= centerX + size) ||
      (x == centerX && centerY - size <= y <= centerY + size)
  {
    HorizontalShape(width, centerX, centerY, size, y, x);
    VerticalShape(width, height, centerX, centerY, size, y, x);
  }

  /** Drawing the same crosshair twice changes nothing more. */
  lemma CrosshairIdempotent(data: seq<Byte>, width: nat, height: nat, centerX: int, centerY: int,
                            size: int, color: seq<int>)
    requires |color| == 4
    ensures var once := Crosshair(data, width, height, centerX, centerY, size, color);
      Crosshair(once, width, height, centerX, centerY, size, color) == once
  {}
}
