/**
 * The frame pixel layer of the screen caster: converting a padded BGRA
 * capture buffer into packed RGBA, the in-place redaction transforms
 * `crop` and `blank`, and the single-slot "latest frame" cell that the
 * capture thread publishes into.
 */
module Screen {
  import opened Common

  /** The value every channel of a redacted pixel is set to. */
  const WHITE: byte := 255

  /** A captured frame: packed row-major RGBA bytes and its dimensions. */
  datatype Frame = Frame(data: seq<byte>, width: nat, height: nat)

  /** The frame the latest-frame slot is created with: 0x0 and no bytes. */
  const EMPTY_FRAME: Frame := Frame([], 0, 0)

  // ---------------------------------------------------------------------
  // Pixel geometry
  // ---------------------------------------------------------------------

  /** Index of the first byte of pixel (x, y) in a packed buffer of width w. */
  function ByteIndex(y: nat, x: nat, w: nat): nat
  {
    (y * w + x) * 4
  }

  /** Column of the pixel that byte j belongs to. */
  function Col(j: nat, w: nat): nat
    requires w > 0
  {
    (j / 4) % w
  }

  /** Row of the pixel that byte j belongs to. */
  function Row(j: nat, w: nat): nat
    requires w > 0
  {
    (j / 4) / w
  }

  /** Byte j lies inside pixel (x, y) exactly when its pixel coordinates are (x, y). */
  lemma PixelCoordinates(j: nat, y: nat, x: nat, w: nat)
    requires x < w
    ensures (Row(j, w) == y && Col(j, w) == x) <==> ByteIndex(y, x, w) <= j < ByteIndex(y, x, w) + 4
  {
    var p := j / 4;
    assert p == (p / w) * w + p % w;
    assert ByteIndex(y, x, w) <= j < ByteIndex(y, x, w) + 4 <==> p == y * w + x;
    if p == y * w + x {
      DivModUnique(p, w, y, x);
    }
  }

  /** Euclidean division is unique. */
  lemma DivModUnique(p: nat, w: nat, q: nat, r: nat)
    requires r < w && p == q * w + r
    ensures p / w == q && p % w == r
  {
    var q', r' := p / w, p % w;
    assert p == q' * w + r';
    assert (q' - q) * w == r - r';
    SmallMultiple(q' - q, w);
  }

  /** Multiplying by an integer of magnitude at least one does not shrink w. */
  lemma MulMagnitude(d: int, w: nat)
    ensures d >= 1 ==> d * w >= w
    ensures d <= -1 ==> d * w <= -(w as int)
  {
    if d >= 1 {
      var e: nat := d - 1;
      assert d * w == e * w + w;
    } else if d <= -1 {
      var e: nat := -d - 1;
      assert d * w == -(e * w) - w;
    }
  }

  /** The only multiple of w strictly between -w and w is 0. */
  lemma SmallMultiple(d: int, w: nat)
    requires -(w as int) < d * w < w
    ensures d == 0
  {
    MulMagnitude(d, w);
  }

  /** The pixel coordinates of a byte at offset c of pixel (x, y). */
  lemma CoordinatesOf(y: nat, x: nat, c: nat, w: nat)
    requires x < w && c < 4
    ensures Row(ByteIndex(y, x, w) + c, w) == y && Col(ByteIndex(y, x, w) + c, w) == x
  {
    PixelCoordinates(ByteIndex(y, x, w) + c, y, x, w);
  }

  /** Every pixel of a w x h frame lies inside its buffer. */
  lemma PixelInBuffer(y: nat, x: nat, w: nat, h: nat)
    requires y < h && x < w
    ensures ByteIndex(y, x, w) + 4 <= w * h * 4
  {
    assert y * w + x < y * w + w == (y + 1) * w;
    assert (y + 1) * w <= h * w;
  }

  /** Every byte of a w x h buffer has pixel coordinates inside the frame. */
  lemma CoordinatesInFrame(j: nat, w: nat, h: nat)
    requires w > 0 && j < w * h * 4
    ensures Row(j, w) < h && Col(j, w) < w
  {
    var p := j / 4;
    assert p < w * h;
  }

  // ---------------------------------------------------------------------
  // Filling a rectangle of pixels with white
  // ---------------------------------------------------------------------

  /** A half-open rectangle of pixels: columns [x0, x1), rows [y0, y1). */
  datatype Rect = Rect(x0: nat, x1: nat, y0: nat, y1: nat)

  predicate InRect(j: nat, w: nat, r: Rect)
    requires w > 0
  {
    r.x0 <= Col(j, w) < r.x1 && r.y0 <= Row(j, w) < r.y1
  }

  /** The buffer s with every pixel of rectangle r painted white. */
  function Filled(s: seq<byte>, w: nat, r: Rect): (t: seq<byte>)
    ensures |t| == |s|
  {
    if w == 0 then s
    else seq(|s|, j requires 0 <= j < |s| => if InRect(j, w, r) then WHITE else s[j])
  }

  /** Paints the four bytes of the pixel starting at `index` white. */
  method PaintPixel(data: array<byte>, index: nat)
    requires index + 4 <= data.Length
    modifies data
    ensures forall j :: 0 <= j < data.Length ==>
      data[j] == if index <= j < index + 4 then WHITE else old(data[j])
  {
    data[index] := WHITE;
    data[index + 1] := WHITE;
    data[index + 2] := WHITE;
    data[index + 3] := WHITE;
  }

  /**
   * One of the four band loops of `crop`: for every row of [y0, y1) and
   * every column of [x0, x1), paint the pixel white.
   */
  method FillRect(data: array<byte>, w: nat, h: nat, r: Rect)
    requires data.Length >= w * h * 4
    requires r.x0 <= r.x1 <= w && r.y0 <= r.y1 <= h
    modifies data
    ensures data[..] == Filled(old(data[..]), w, r)
  {
    if w == 0 {
      return;
    }
    var y := r.y0;
    while y < r.y1
      invariant r.y0 <= y <= r.y1
      invariant forall j :: 0 <= j < data.Length ==>
        data[j] == if InRect(j, w, Rect(r.x0, r.x1, r.y0, y)) then WHITE else old(data[j])
    {
      var x := r.x0;
      while x < r.x1
        invariant r.x0 <= x <= r.x1
        invariant forall j :: 0 <= j < data.Length ==>
          data[j] == if InRect(j, w, Rect(r.x0, r.x1, r.y0, y)) || InRect(j, w, Rect(r.x0, x, y, y + 1))
                     then WHITE else old(data[j])
      {
        var index := ByteIndex(y, x, w);
        PixelInBuffer(y, x, w, h);
        PaintPixel(data, index);
        forall j | 0 <= j < data.Length
          ensures (Row(j, w) == y && Col(j, w) == x) <==> index <= j < index + 4
        {
          PixelCoordinates(j, y, x, w);
        }
        x := x + 1;
      }
      y := y + 1;
    }
  }

  // ---------------------------------------------------------------------
  // crop
  // ---------------------------------------------------------------------

  /** The operator's crop percentages, one per edge. */
  datatype CropValues = CropValues(left: real, right: real, top: real, bottom: real)

  predicate ValidPercent(p: real)
  {
    0.0 <= p <= 100.0
  }

  predicate ValidCrop(c: CropValues)
  {
    ValidPercent(c.left) && ValidPercent(c.right) && ValidPercent(c.top) && ValidPercent(c.bottom)
  }

  /** Pixel bands to redact: columns from the left and right edges, rows from the top and bottom. */
  datatype Bounds = Bounds(left: nat, right: nat, top: nat, bottom: nat)

  /** No band is wider than the dimension it is measured along. */
  predicate BoundsFit(b: Bounds, w: nat, h: nat)
  {
    b.left <= w && b.right <= w && b.top <= h && b.bottom <= h
  }

  /**
   * `((percent / 100.0) * dim).round() as usize`: the nearest whole number of
   * pixels, halves rounded away from zero; a quantity at or below zero
   * saturates to 0 in the cast.
   */
  function PixelBound(percent: real, dim: nat): (b: nat)
    ensures percent / 100.0 * dim as real <= 0.0 ==> b == 0
    ensures percent / 100.0 * dim as real > 0.0 ==>
      b as real - 0.5 <= percent / 100.0 * dim as real < b as real + 0.5
  {
    var q := (percent / 100.0) * dim as real;
    if q <= 0.0 then 0
    else
      var b := (q + 0.5).Floor;
      assert b as real <= q + 0.5 < b as real + 1.0;
      b
  }

  /** A percentage in [0, 100] gives a band no wider than the dimension. */
  lemma PixelBoundFits(percent: real, dim: nat)
    requires ValidPercent(percent)
    ensures PixelBound(percent, dim) <= dim
  {
    var f := percent / 100.0;
    var q := f * dim as real;
    assert 0.0 <= f <= 1.0;
    ScaleAtMost(f, dim as real);
    assert q <= dim as real;
    if q > 0.0 {
      var b := PixelBound(percent, dim);
      assert b as real <= q + 0.5 <= dim as real + 0.5;
      assert b as real < (dim + 1) as real;
      assert b < dim + 1;
    }
  }

  /** Scaling by a fraction in [0, 1] keeps a non-negative quantity between 0 and itself. */
  lemma ScaleAtMost(p: real, d: real)
    requires 0.0 <= p <= 1.0 && 0.0 <= d
    ensures 0.0 <= p * d <= d
  {
    assert d - p * d == (1.0 - p) * d;
  }

  /** The four band widths `crop` computes. */
  function CropBounds(c: CropValues, w: nat, h: nat): Bounds
  {
    Bounds(PixelBound(c.left, w), PixelBound(c.right, w), PixelBound(c.top, h), PixelBound(c.bottom, h))
  }

  /** Percentages in [0, 100] give bands that fit the frame. */
  lemma CropBoundsFit(c: CropValues, w: nat, h: nat)
    requires ValidCrop(c)
    ensures BoundsFit(CropBounds(c, w, h), w, h)
  {
    PixelBoundFits(c.left, w);
    PixelBoundFits(c.right, w);
    PixelBoundFits(c.top, h);
    PixelBoundFits(c.bottom, h);
  }

  /** Pixel (x, y) lies in one of the four redacted bands. */
  predicate InCropRegion(x: nat, y: nat, w: nat, h: nat, b: Bounds)
    requires BoundsFit(b, w, h)
  {
    x < b.left || x >= w - b.right || y < b.top || y >= h - b.bottom
  }

  /** The buffer after the four band loops of `crop`, in their order. */
  function Cropped(s: seq<byte>, w: nat, h: nat, b: Bounds): seq<byte>
    requires BoundsFit(b, w, h)
  {
    var leftDone := Filled(s, w, Rect(0, b.left, 0, h));
    var rightDone := Filled(leftDone, w, Rect(w - b.right, w, 0, h));
    var topDone := Filled(rightDone, w, Rect(0, w, 0, b.top));
    Filled(topDone, w, Rect(0, w, h - b.bottom, h))
  }

  /**
   * `crop`: paints the left, right, top and bottom bands of the frame white,
   * in place. Every write is inside the buffer: each index is proved in range.
   */
  method Crop(data: array<byte>, width: nat, height: nat, crop: CropValues)
    requires data.Length >= width * height * 4
    requires BoundsFit(CropBounds(crop, width, height), width, height)
    modifies data
    ensures data[..] == Cropped(old(data[..]), width, height, CropBounds(crop, width, height))
  {
    var leftBound := PixelBound(crop.left, width);
    var rightBound := PixelBound(crop.right, width);
    var topBound := PixelBound(crop.top, height);
    var bottomBound := PixelBound(crop.bottom, height);

    FillRect(data, width, height, Rect(0, leftBound, 0, height));
    FillRect(data, width, height, Rect(width - rightBound, width, 0, height));
    FillRect(data, width, height, Rect(0, width, 0, topBound));
    FillRect(data, width, height, Rect(0, width, height - bottomBound, height));
  }

  /** What `crop` does to one byte: white inside a band, unchanged elsewhere. */
  lemma CroppedAt(s: seq<byte>, w: nat, h: nat, b: Bounds, j: nat)
    requires BoundsFit(b, w, h) && w > 0 && j < |s|
    ensures Cropped(s, w, h, b)[j] == if Row(j, w) < h && InCropRegion(Col(j, w), Row(j, w), w, h, b) then WHITE else s[j]
  {
  }

  /**
   * Every channel of a pixel in one of the four bands is white after `crop`;
   * every byte of every other pixel is unchanged.
   */
  lemma CropEffect(s: seq<byte>, w: nat, h: nat, b: Bounds, y: nat, x: nat, c: nat)
    requires BoundsFit(b, w, h) && |s| == w * h * 4
    requires y < h && x < w && c < 4
    ensures ByteIndex(y, x, w) + c < |s| == |Cropped(s, w, h, b)|
    ensures Cropped(s, w, h, b)[ByteIndex(y, x, w) + c] ==
      if InCropRegion(x, y, w, h, b) then WHITE else s[ByteIndex(y, x, w) + c]
  {
    var j := ByteIndex(y, x, w) + c;
    PixelInBuffer(y, x, w, h);
    CoordinatesOf(y, x, c, w);
    assert j < |s|;
    CroppedAt(s, w, h, b, j);
  }

  /** Cropping twice with the same bounds is cropping once. */
  lemma CropIdempotent(s: seq<byte>, w: nat, h: nat, b: Bounds)
    requires BoundsFit(b, w, h)
    ensures Cropped(Cropped(s, w, h, b), w, h, b) == Cropped(s, w, h, b)
  {
    var once := Cropped(s, w, h, b);
    if w > 0 {
      forall j | 0 <= j < |s|
        ensures Cropped(once, w, h, b)[j] == once[j]
      {
        CroppedAt(s, w, h, b, j);
        CroppedAt(once, w, h, b, j);
      }
    }
  }

  // ---------------------------------------------------------------------
  // blank
  // ---------------------------------------------------------------------

  /** The buffer with every complete 4-byte chunk painted white; a short tail is kept. */
  function Blanked(s: seq<byte>): (t: seq<byte>)
  {
    seq(|s|, j requires 0 <= j < |s| => if j < |s| / 4 * 4 then WHITE else s[j])
  }

  /** `blank`: when `isBlank` is set, paints every whole pixel white, in place. */
  method Blank(data: array<byte>, isBlank: bool)
    modifies data
    ensures data[..] == if isBlank then Blanked(old(data[..])) else old(data[..])
  {
    if isBlank {
      var i := 0;
      while i + 4 <= data.Length
        invariant i % 4 == 0 && i <= data.Length
        invariant forall j :: 0 <= j < data.Length ==> data[j] == if j < i then WHITE else old(data[j])
      {
        PaintPixel(data, i);
        i := i + 4;
      }
      assert i == data.Length / 4 * 4;
    }
  }

  /** Blanking a cropped frame gives an all-white frame, whatever the crop. */
  lemma BlankAfterCrop(s: seq<byte>, w: nat, h: nat, b: Bounds)
    requires BoundsFit(b, w, h) && |s| == w * h * 4
    ensures |Blanked(Cropped(s, w, h, b))| == |s|
    ensures forall j :: 0 <= j < |s| ==> Blanked(Cropped(s, w, h, b))[j] == WHITE
  {
    assert |s| / 4 * 4 == |s|;
  }

  /** Blanking is idempotent. */
  lemma BlankIdempotent(s: seq<byte>)
    ensures Blanked(Blanked(s)) == Blanked(s)
  {
  }

  // ---------------------------------------------------------------------
  // convert_bgra_to_rgba
  // ---------------------------------------------------------------------

  /** The input channel that output channel c is copied from: blue and red swap places. */
  function SourceChannel(c: nat): nat
  {
    if c == 0 then 2 else if c == 2 then 0 else c
  }

  /** One BGRA pixel as RGBA. */
  function SwapRedBlue(px: seq<byte>): seq<byte>
    requires |px| == 4
  {
    [px[2], px[1], px[0], px[3]]
  }

  /** A row of w whole BGRA pixels (the row's `chunks_exact(4)`) as RGBA. */
  function ConvertRow(row: seq<byte>, w: nat): (out: seq<byte>)
    requires |row| == w * 4
    ensures |out| == |row|
  {
    if w == 0 then []
    else ConvertRow(row[..|row| - 4], w - 1) + SwapRedBlue(row[|row| - 4..])
  }

  /** Output byte c of pixel x of a converted row is input byte SourceChannel(c) of that pixel. */
  lemma {:induction false} ConvertRowAt(row: seq<byte>, w: nat, x: nat, c: nat)
    requires |row| == w * 4 && x < w && c < 4
    ensures ConvertRow(row, w)[x * 4 + c] == row[x * 4 + SourceChannel(c)]
  {
    var last := |row| - 4;
    var init := row[..last];
    assert ConvertRow(row, w) == ConvertRow(init, w - 1) + SwapRedBlue(row[last..]);
    if x < w - 1 {
      ConvertRowAt(init, w - 1, x, c);
      assert init[x * 4 + SourceChannel(c)] == row[x * 4 + SourceChannel(c)];
    } else {
      assert row[last..][SourceChannel(c)] == row[x * 4 + SourceChannel(c)];
    }
  }

  /** Where row y starts when rows lie `stride` bytes apart, counted row by row. */
  function RowStart(y: nat, stride: nat): nat
  {
    if y == 0 then 0 else RowStart(y - 1, stride) + stride
  }

  /** Counting rows is multiplying: row y starts at `y * stride`. */
  lemma {:induction false} RowStartIsProduct(y: nat, stride: nat)
    ensures RowStart(y, stride) == y * stride
  {
    if y > 0 {
      RowStartIsProduct(y - 1, stride);
    }
  }

  /** Later rows start later. */
  lemma {:induction false} RowStartMonotone(y: nat, n: nat, stride: nat)
    requires y <= n
    ensures RowStart(y, stride) <= RowStart(n, stride)
    decreases n
  {
    if y < n {
      RowStartMonotone(y, n - 1, stride);
    }
  }

  /** Rows laid one after the other, as pushing each onto a vector does. */
  function Flatten(rows: seq<seq<byte>>): seq<byte>
  {
    if rows == [] then [] else Flatten(rows[..|rows| - 1]) + rows[|rows| - 1]
  }

  /** Every row is L bytes long. */
  predicate Uniform(rows: seq<seq<byte>>, L: nat)
  {
    forall k :: 0 <= k < |rows| ==> |rows[k]| == L
  }

  /** n rows of L bytes flatten to n * L bytes. */
  lemma {:induction false} FlattenLength(rows: seq<seq<byte>>, L: nat)
    requires Uniform(rows, L)
    ensures |Flatten(rows)| == RowStart(|rows|, L)
    decreases |rows|
  {
    if rows != [] {
      var init := rows[..|rows| - 1];
      assert Uniform(init, L);
      FlattenLength(init, L);
    }
  }

  /** Byte k of row y of the flattened rows is at offset y * L + k. */
  lemma {:induction false} FlattenAt(rows: seq<seq<byte>>, L: nat, y: nat, k: nat)
    requires Uniform(rows, L) && y < |rows| && k < L
    ensures RowStart(y, L) + k < |Flatten(rows)|
    ensures Flatten(rows)[RowStart(y, L) + k] == rows[y][k]
    decreases |rows|
  {
    var init := rows[..|rows| - 1];
    assert Uniform(init, L);
    FlattenLength(init, L);
    if y < |rows| - 1 {
      FlattenAt(init, L, y, k);
    }
  }

  /** Every one of the first n rows, `stride` bytes apart and `w * 4` long, lies inside the buffer. */
  predicate RowsFit(frame: seq<byte>, stride: nat, w: nat, n: nat)
  {
    forall y :: 0 <= y < n ==> RowStart(y, stride) + w * 4 <= |frame|
  }

  /** If the last row fits, all earlier ones do. */
  lemma LastRowFits(frame: seq<byte>, stride: nat, w: nat, n: nat)
    requires n > 0 && RowStart(n - 1, stride) + w * 4 <= |frame|
    ensures RowsFit(frame, stride, w, n)
  {
    forall y | 0 <= y < n
      ensures RowStart(y, stride) + w * 4 <= |frame|
    {
      RowStartMonotone(y, n - 1, stride);
    }
  }

  /** Row y of the capture buffer: the `w * 4` bytes at `y * stride`, row padding left out. */
  function FrameRow(frame: seq<byte>, stride: nat, w: nat, y: nat): (row: seq<byte>)
    requires RowStart(y, stride) + w * 4 <= |frame|
    ensures |row| == w * 4
  {
    frame[RowStart(y, stride)..RowStart(y, stride) + w * 4]
  }

  /** The first n rows of the capture buffer, each converted to RGBA. */
  function ConvertedRows(frame: seq<byte>, stride: nat, w: nat, n: nat): (rows: seq<seq<byte>>)
    requires RowsFit(frame, stride, w, n)
    ensures |rows| == n && Uniform(rows, w * 4)
  {
    seq(n, y requires 0 <= y < n => ConvertRow(FrameRow(frame, stride, w, y), w))
  }

  /** The row stride of a capture buffer: its length divided by its height. */
  function Stride(frame: seq<byte>, h: nat): nat
    requires h > 0
  {
    |frame| / h
  }

  /**
   * What `convert_bgra_to_rgba` needs in order not to panic: a positive
   * height (the stride is a division by it) and a last row that ends inside
   * the buffer.
   */
  predicate Convertible(frame: seq<byte>, w: nat, h: nat)
  {
    h > 0 && RowStart(h - 1, Stride(frame, h)) + w * 4 <= |frame|
  }

  /** A convertible buffer holds all of its rows. */
  lemma ConvertibleRowsFit(frame: seq<byte>, w: nat, h: nat)
    requires Convertible(frame, w, h)
    ensures RowsFit(frame, Stride(frame, h), w, h)
  {
    LastRowFits(frame, Stride(frame, h), w, h);
  }

  /** The packed RGBA image that `convert_bgra_to_rgba` builds: the converted rows, back to back. */
  function BgraToRgba(frame: seq<byte>, w: nat, h: nat): (rgba: seq<byte>)
    requires Convertible(frame, w, h)
    ensures |rgba| == w * h * 4
  {
    ConvertibleRowsFit(frame, w, h);
    var rows := ConvertedRows(frame, Stride(frame, h), w, h);
    FlattenLength(rows, w * 4);
    PackedOffsets(0, 0, w, h);
    Flatten(rows)
  }

  /** A buffer whose stride holds a full row of pixels can always be converted. */
  lemma PaddedRowsConvertible(frame: seq<byte>, w: nat, h: nat)
    requires h > 0 && Stride(frame, h) >= w * 4
    ensures Convertible(frame, w, h)
  {
    var stride := Stride(frame, h);
    RowStartIsProduct(h - 1, stride);
    assert h * stride == (h - 1) * stride + stride;
    assert h * stride <= |frame|;
  }

  /** Index of the capture-buffer byte that output channel c of pixel (x, y) is copied from. */
  function SourceIndex(y: nat, x: nat, c: nat, stride: nat): nat
  {
    y * stride + x * 4 + SourceChannel(c)
  }

  /** Row offsets in a packed buffer of width w agree with ByteIndex. */
  lemma PackedOffsets(y: nat, x: nat, w: nat, h: nat)
    ensures RowStart(y, w * 4) + x * 4 == ByteIndex(y, x, w)
    ensures RowStart(h, w * 4) == w * h * 4
  {
    RowStartIsProduct(y, w * 4);
    RowStartIsProduct(h, w * 4);
  }

  /**
   * The layout of the converted image: exactly `w * h * 4` bytes, and output
   * pixel (x, y) is input pixel (x, y) of row y (at `y * stride`) with blue
   * and red swapped. Row padding beyond `w * 4` bytes is dropped.
   */
  lemma ConvertedLayout(frame: seq<byte>, w: nat, h: nat, y: nat, x: nat, c: nat)
    requires Convertible(frame, w, h)
    requires y < h && x < w && c < 4
    ensures |BgraToRgba(frame, w, h)| == w * h * 4
    ensures ByteIndex(y, x, w) + c < w * h * 4
    ensures SourceIndex(y, x, c, Stride(frame, h)) < |frame|
    ensures BgraToRgba(frame, w, h)[ByteIndex(y, x, w) + c] == frame[SourceIndex(y, x, c, Stride(frame, h))]
  {
    var stride := Stride(frame, h);
    ConvertibleRowsFit(frame, w, h);
    var rows := ConvertedRows(frame, stride, w, h);
    FlattenAt(rows, w * 4, y, x * 4 + c);
    var row := FrameRow(frame, stride, w, y);
    ConvertRowAt(row, w, x, c);
    RowStartIsProduct(y, stride);
    PackedOffsets(y, x, w, h);
  }

  /** A converted frame holds no bytes exactly when the display has no columns. */
  lemma ConvertedEmptyIff(frame: seq<byte>, w: nat, h: nat)
    requires Convertible(frame, w, h)
    ensures BgraToRgba(frame, w, h) == [] <==> w == 0
  {
    if w > 0 {
      ConvertedLayout(frame, w, h, 0, 0, 0);
    } else {
      ConvertibleRowsFit(frame, w, h);
      FlattenEmpty(ConvertedRows(frame, Stride(frame, h), w, h));
    }
  }

  /** Rows of no bytes flatten to nothing. */
  lemma {:induction false} FlattenEmpty(rows: seq<seq<byte>>)
    requires Uniform(rows, 0)
    ensures Flatten(rows) == []
    decreases |rows|
  {
    if rows != [] {
      var init := rows[..|rows| - 1];
      assert Uniform(init, 0);
      FlattenEmpty(init);
    }
  }

  /** The inner loop of `convert_bgra_to_rgba`: push each pixel of a row, red and blue swapped. */
  method PushRow(rgbaData: seq<byte>, row: seq<byte>, width: nat) returns (out: seq<byte>)
    requires |row| == width * 4
    ensures out == rgbaData + ConvertRow(row, width)
  {
    out := rgbaData;
    var x := 0;
    while x < width
      invariant x <= width
      invariant out == rgbaData + ConvertRow(row[..x * 4], x)
    {
      var chunk := row[x * 4..x * 4 + 4];
      out := out + [chunk[2], chunk[1], chunk[0], chunk[3]];
      assert row[..(x + 1) * 4][..x * 4] == row[..x * 4];
      x := x + 1;
    }
    assert row[..width * 4] == row;
  }

  /** `convert_bgra_to_rgba`: the nested row and pixel loops appending to a vector. */
  method ConvertBgraToRgba(frame: seq<byte>, width: nat, height: nat) returns (rgbaData: seq<byte>)
    requires Convertible(frame, width, height)
    ensures rgbaData == BgraToRgba(frame, width, height)
  {
    var stride := Stride(frame, height);
    var rowWidth := width * 4;
    ConvertibleRowsFit(frame, width, height);
    ghost var rows := ConvertedRows(frame, stride, width, height);
    rgbaData := [];
    var y := 0;
    while y < height
      invariant y <= height
      invariant rgbaData == Flatten(rows[..y])
    {
      ConvertedRowStep(frame, stride, width, height, y, rgbaData);
      var start := y * stride;
      var end := start + rowWidth;
      var row := frame[start..end];
      rgbaData := PushRow(rgbaData, row, width);
      y := y + 1;
    }
    assert rows[..height] == rows;
  }

  /**
   * One iteration of the row loop: appending row y, sliced at `y * stride`
   * and converted, to the first y converted rows gives the first y + 1.
   */
  lemma ConvertedRowStep(frame: seq<byte>, stride: nat, w: nat, n: nat, y: nat, done: seq<byte>)
    requires RowsFit(frame, stride, w, n) && y < n
    requires done == Flatten(ConvertedRows(frame, stride, w, n)[..y])
    ensures 0 <= y * stride && y * stride + w * 4 <= |frame|
    ensures done + ConvertRow(frame[y * stride..y * stride + w * 4], w) == Flatten(ConvertedRows(frame, stride, w, n)[..y + 1])
  {
    var rows := ConvertedRows(frame, stride, w, n);
    RowStartIsProduct(y, stride);
    assert frame[y * stride..y * stride + w * 4] == FrameRow(frame, stride, w, y);
    assert rows[..y + 1][..y] == rows[..y];
  }

  // ---------------------------------------------------------------------
  // The latest-frame slot and the capture loop
  // ---------------------------------------------------------------------

  /** One call of the capture device: a raw BGRA buffer, "not ready yet", or any other failure. */
  datatype CaptureResult = Captured(buffer: seq<byte>) | WouldBlock | CaptureFailed

  /** Why the capture loop stopped; `OutOfInput` means the modelled results ran out while it would go on. */
  datatype CaptureEnd = DeviceFailed | ReceiverDropped | OutOfInput

  /** The slot's final value, why the loop stopped, and how many device calls it made. */
  datatype CaptureRun = CaptureRun(latest: Frame, end: CaptureEnd, attempts: nat)

  /** Every buffer the device hands over is one the conversion accepts (the device's own guarantee). */
  predicate AllConvertible(results: seq<CaptureResult>, w: nat, h: nat)
  {
    forall k :: 0 <= k < |results| && results[k].Captured? ==> Convertible(results[k].buffer, w, h)
  }

  /** The receiver side of the slot has been dropped by the time of attempt k. */
  predicate ReceiverGone(dropAt: Option<nat>, k: nat)
  {
    dropAt.Some? && dropAt.value <= k
  }

  /** The frame the loop publishes for a captured buffer. */
  function Published(buffer: seq<byte>, w: nat, h: nat): Frame
    requires Convertible(buffer, w, h)
  {
    Frame(BgraToRgba(buffer, w, h), w, h)
  }

  /** The capture loop from attempt i on, with `latest` in the slot. */
  function CaptureFrom(latest: Frame, results: seq<CaptureResult>, dropAt: Option<nat>, w: nat, h: nat, i: nat): CaptureRun
    requires i <= |results| && AllConvertible(results, w, h)
    decreases |results| - i
  {
    if i == |results| then CaptureRun(latest, OutOfInput, i)
    else match results[i]
      case Captured(buffer) =>
        if ReceiverGone(dropAt, i) then CaptureRun(latest, ReceiverDropped, i + 1)
        else CaptureFrom(Published(buffer, w, h), results, dropAt, w, h, i + 1)
      case WouldBlock => CaptureFrom(latest, results, dropAt, w, h, i + 1)
      case CaptureFailed => CaptureRun(latest, DeviceFailed, i + 1)
  }

  /** Index of the last captured buffer among the first n results, if any. */
  function LastCaptured(results: seq<CaptureResult>, n: nat): (r: Option<nat>)
    requires n <= |results|
    ensures r.Some? ==> r.value < n && results[r.value].Captured?
    ensures r.Some? ==> forall k :: r.value < k < n ==> !results[k].Captured?
    ensures r.None? ==> forall k :: 0 <= k < n ==> !results[k].Captured?
  {
    if n == 0 then None
    else if results[n - 1].Captured? then Some(n - 1)
    else LastCaptured(results, n - 1)
  }

  /** The slot's value after the first n results were handled and all were published. */
  function LatestAfter(init: Frame, results: seq<CaptureResult>, n: nat, w: nat, h: nat): Frame
    requires n <= |results| && AllConvertible(results, w, h)
  {
    match LastCaptured(results, n)
    case None => init
    case Some(k) => Published(results[k].buffer, w, h)
  }

  /** Attempts whose outcome let the loop go on (all but a stopping last one). */
  function Continued(run: CaptureRun): nat
  {
    if run.end == OutOfInput || run.attempts == 0 then run.attempts else run.attempts - 1
  }

  /**
   * The slot holds only the latest published frame: after the loop it is the
   * conversion of the last buffer that was captured and sent, or the initial
   * value when there was none. A would-block result or an error never touches it.
   */
  lemma {:induction false} SlotHoldsLatest(init: Frame, latest: Frame, results: seq<CaptureResult>, dropAt: Option<nat>, w: nat, h: nat, i: nat)
    requires i <= |results| && AllConvertible(results, w, h)
    requires latest == LatestAfter(init, results, i, w, h)
    ensures i <= Continued(CaptureFrom(latest, results, dropAt, w, h, i)) <= |results|
    ensures CaptureFrom(latest, results, dropAt, w, h, i).latest ==
      LatestAfter(init, results, Continued(CaptureFrom(latest, results, dropAt, w, h, i)), w, h)
    decreases |results| - i
  {
    var run := CaptureFrom(latest, results, dropAt, w, h, i);
    if i < |results| {
      match results[i]
      case Captured(buffer) =>
        if !ReceiverGone(dropAt, i) {
          var next := Published(buffer, w, h);
          assert run == CaptureFrom(next, results, dropAt, w, h, i + 1);
          LatestStep(init, results, i, w, h);
          SlotHoldsLatest(init, next, results, dropAt, w, h, i + 1);
        } else {
          assert run == CaptureRun(latest, ReceiverDropped, i + 1);
        }
      case WouldBlock =>
        assert run == CaptureFrom(latest, results, dropAt, w, h, i + 1);
        LatestStep(init, results, i, w, h);
        SlotHoldsLatest(init, latest, results, dropAt, w, h, i + 1);
      case CaptureFailed =>
        assert run == CaptureRun(latest, DeviceFailed, i + 1);
    }
  }

  /** Handling one more result changes the latest frame only when it is a captured buffer. */
  lemma LatestStep(init: Frame, results: seq<CaptureResult>, i: nat, w: nat, h: nat)
    requires i < |results| && AllConvertible(results, w, h)
    ensures LatestAfter(init, results, i + 1, w, h) ==
      if results[i].Captured? then Published(results[i].buffer, w, h) else LatestAfter(init, results, i, w, h)
  {
  }

  /**
   * The three outcomes of a device call: every attempt that let the loop go on
   * was a would-block or a frame sent to a live receiver; the loop stops at
   * the first other error, at the first send to a dropped receiver, or when
   * the results run out.
   */
  lemma {:induction false} CaptureStops(latest: Frame, results: seq<CaptureResult>, dropAt: Option<nat>, w: nat, h: nat, i: nat)
    requires i <= |results| && AllConvertible(results, w, h)
    ensures var run := CaptureFrom(latest, results, dropAt, w, h, i);
      && i <= run.attempts <= |results|
      && (forall k :: i <= k < Continued(run) ==>
            results[k].WouldBlock? || (results[k].Captured? && !ReceiverGone(dropAt, k)))
      && (run.end == OutOfInput ==> run.attempts == |results|)
      && (run.end == DeviceFailed ==> i < run.attempts && results[run.attempts - 1].CaptureFailed?)
      && (run.end == ReceiverDropped ==>
            i < run.attempts && results[run.attempts - 1].Captured? && ReceiverGone(dropAt, run.attempts - 1))
    decreases |results| - i
  {
    var run := CaptureFrom(latest, results, dropAt, w, h, i);
    if i < |results| {
      match results[i]
      case Captured(buffer) =>
        if !ReceiverGone(dropAt, i) {
          var next := Published(buffer, w, h);
          assert run == CaptureFrom(next, results, dropAt, w, h, i + 1);
          CaptureStops(next, results, dropAt, w, h, i + 1);
        } else {
          assert run == CaptureRun(latest, ReceiverDropped, i + 1);
        }
      case WouldBlock =>
        assert run == CaptureFrom(latest, results, dropAt, w, h, i + 1);
        CaptureStops(latest, results, dropAt, w, h, i + 1);
      case CaptureFailed =>
        assert run == CaptureRun(latest, DeviceFailed, i + 1);
    }
  }

  /**
   * The capture side of the system: a single-slot, overwrite-on-publish cell
   * (the watch channel) with its receiver.
   */
  class ScreenCapture {
    /** The slot's current value. */
    var latest: Frame

    /** `ScreenCapture::new`: the slot starts as the empty 0x0 frame. */
    constructor ()
      ensures latest == EMPTY_FRAME
    {
      latest := EMPTY_FRAME;
    }

    /**
     * `receive_frame`: a peek at the slot. Nothing before the first publish
     * (the slot still holds the empty frame), and never consumes the value.
     */
    method ReceiveFrame() returns (r: Option<Frame>)
      ensures r.None? <==> latest.data == []
      ensures r.Some? ==> r.value == latest
    {
      if latest.data != [] {
        r := Some(latest);
      } else {
        r := None;
      }
    }

    /**
     * The body of the capture thread: call the device once per tick, publish
     * the converted frame on success, retry on would-block, and stop on any
     * other error or when the receiver is gone.
     */
    method CaptureLoop(results: seq<CaptureResult>, dropAt: Option<nat>, width: nat, height: nat)
        returns (end: CaptureEnd, attempts: nat)
      requires AllConvertible(results, width, height)
      modifies this
      ensures CaptureRun(latest, end, attempts) == CaptureFrom(old(latest), results, dropAt, width, height, 0)
    {
      var i := 0;
      while true
        invariant i <= |results|
        invariant CaptureFrom(latest, results, dropAt, width, height, i)
               == CaptureFrom(old(latest), results, dropAt, width, height, 0)
        decreases |results| - i
      {
        if i == |results| {
          end, attempts := OutOfInput, i;
          return;
        }
        var result := results[i];
        if result.Captured? {
          var rgbaFrame := ConvertBgraToRgba(result.buffer, width, height);
          var frameData := Frame(rgbaFrame, width, height);
          if ReceiverGone(dropAt, i) {
            end, attempts := ReceiverDropped, i + 1;
            return;
          }
          latest := frameData;
        } else if result.CaptureFailed? {
          end, attempts := DeviceFailed, i + 1;
          return;
        }
        i := i + 1;
      }
    }
  }

  /** Right after the slot is created, `receive_frame` has nothing to return. */
  method ReceiveBeforePublish() returns (r: Option<Frame>)
    ensures r == None
  {
    var capture := new ScreenCapture();
    r := capture.ReceiveFrame();
  }
}
