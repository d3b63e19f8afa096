/** The RGB bitmap the model renders for the view (src/main.rs): three bytes
    per pixel, rows from top to bottom, pixels from left to right within a
    row. The colour of a pixel is given as three channels in [0, 1]; the
    colour map that produces them works in floating point and is a
    parameter here. */
module Bitmaps {
  import opened Powers

  newtype byte = x: int | 0 <= x < 256

  /** A colour as three channels, red, green and blue, nominally in [0, 1]. */
  type Rgb = (real, real, real)

  datatype Bitmap = Bitmap(data: seq<byte>, width: int, height: int)

  /** `v.min(1.0).max(0.0)`: v pulled into [0, 1]. */
  function Clamp01(v: real): (r: real)
    ensures 0.0 <= r <= 1.0
    ensures 0.0 <= v <= 1.0 ==> r == v
    ensures v < 0.0 ==> r == 0.0
    ensures v > 1.0 ==> r == 1.0
  {
    var m := if v < 1.0 then v else 1.0;
    if m > 0.0 then m else 0.0
  }

  /** `(c.min(1.0).max(0.0) * 255.0) as u8`: the cast truncates toward
      zero, which for the clamped, non-negative value is the floor. */
  function Quantize(c: real): (r: byte)
    ensures c <= 0.0 ==> r == 0
    ensures c >= 1.0 ==> r == 255
  {
    var v := Clamp01(c) * 255.0;
    v.Floor as byte
  }

  /** The three bytes generate pushes for one pixel. */
  function Channels(c: Rgb): (r: seq<byte>)
    ensures |r| == 3
  {
    [Quantize(c.0), Quantize(c.1), Quantize(c.2)]
  }

  /** The bytes of the first x pixels of row y. */
  function Row(pixel: (nat, nat) -> Rgb, y: nat, x: nat): (r: seq<byte>)
    ensures |r| == 3 * x
  {
    if x == 0 then [] else Row(pixel, y, x - 1) + Channels(pixel(x - 1, y))
  }

  /** The bytes of the first y rows of a bitmap `width` pixels wide. */
  function Rows(pixel: (nat, nat) -> Rgb, width: nat, y: nat): (r: seq<byte>)
    ensures |r| == 3 * width * y
  {
    if y == 0 then [] else Rows(pixel, width, y - 1) + Row(pixel, y - 1, width)
  }

  /** Channel c of pixel x sits at offset 3x + c of its row. */
  lemma {:induction false} RowAt(pixel: (nat, nat) -> Rgb, y: nat, n: nat, x: nat, c: nat)
    requires x < n && c < 3
    ensures Row(pixel, y, n)[3 * x + c] == Channels(pixel(x, y))[c]
  {
    if x < n - 1 {
      RowAt(pixel, y, n - 1, x, c);
    }
  }

  /** Channel c of pixel (x, y) sits at offset 3 (y width + x) + c. */
  lemma {:induction false} RowsAt(pixel: (nat, nat) -> Rgb, width: nat, h: nat, x: nat, y: nat, c: nat)
    requires x < width && y < h && c < 3
    ensures 3 * (y * width + x) + c < |Rows(pixel, width, h)|
    ensures Rows(pixel, width, h)[3 * (y * width + x) + c] == Channels(pixel(x, y))[c]
  {
    var prefix, row := Rows(pixel, width, h - 1), Row(pixel, h - 1, width);
    var all := Rows(pixel, width, h);
    var p := (h - 1) * width;
    var o := 3 * (y * width + x) + c;
    assert all == prefix + row;
    assert |prefix| == 3 * p;
    assert |all| == 3 * p + 3 * width by {
      MulPred(h, width);
    }
    if y < h - 1 {
      MulMonotone(y + 1, h - 1, width);
      MulPred(y + 1, width);
      RowsAt(pixel, width, h - 1, x, y, c);
      assert all[o] == prefix[o];
    } else {
      assert y * width == p;
      RowAt(pixel, y, width, x, c);
      assert all[o] == row[3 * x + c];
    }
  }

  /** `Bitmap::new`: every byte zero. */
  function NewBitmap(width: int, height: int): (b: Bitmap)
    requires 0 <= width && 0 <= height && width * height * 3 <= I32Max
    ensures |b.data| == 3 * width * height
    ensures b.width == width && b.height == height
    ensures b.data == Rows(Black, width, height)
  {
    BlackRows(width, height);
    Bitmap(seq(width * height * 3, _ => 0), width, height)
  }

  function Black(x: nat, y: nat): Rgb
  {
    (0.0, 0.0, 0.0)
  }

  /** Every row of an all-black image is zero bytes. */
  lemma {:induction false} BlackRow(y: nat, n: nat)
    ensures Row(Black, y, n) == seq(3 * n, _ => 0)
  {
    if n > 0 {
      BlackRow(y, n - 1);
    }
  }

  /** An all-black image is zero bytes: a new bitmap and a generated black
      one agree. */
  lemma {:induction false} BlackRows(width: nat, h: nat)
    ensures Rows(Black, width, h) == seq(width * h * 3, _ => 0)
  {
    if h > 0 {
      BlackRows(width, h - 1);
      BlackRow(h - 1, width);
      MulPred(h, width * 3);
      Zeros(width * (h - 1) * 3, 3 * width);
    }
  }

  lemma Zeros(a: nat, b: nat)
    ensures seq(a, _ => 0 as byte) + seq(b, _ => 0 as byte) == seq(a + b, _ => 0 as byte)
  {
  }

  /** The colour of pixel (x, y): the colour map applied to the value the
      caller's closure gives for that pixel. */
  function Painted(f: (nat, nat) -> real, colormap: real -> Rgb): (nat, nat) -> Rgb
  {
    (x: nat, y: nat) => colormap(f(x, y))
  }

  /** `Bitmap::generate`: push the three bytes of every pixel, row by row. */
  method Generate(width: int, height: int, f: (nat, nat) -> real, colormap: real -> Rgb) returns (b: Bitmap)
    requires 0 <= width && 0 <= height && width * height * 3 <= I32Max
    ensures b.width == width && b.height == height
    ensures b.data == Rows(Painted(f, colormap), width, height)
    ensures |b.data| == 3 * width * height
  {
    var data: seq<byte> := [];
    for y := 0 to height
      invariant data == Rows(Painted(f, colormap), width, y)
    {
      data := PushRow(data, width, y, f, colormap);
    }
    b := Bitmap(data, width, height);
  }

  /** The inner loop of generate: push the pixels of row y, left to right. */
  method PushRow(data: seq<byte>, width: nat, y: nat, f: (nat, nat) -> real, colormap: real -> Rgb)
    returns (out: seq<byte>)
    ensures out == data + Row(Painted(f, colormap), y, width)
  {
    ghost var pixel := Painted(f, colormap);
    out := data;
    for x := 0 to width
      invariant out == data + Row(pixel, y, x)
    {
      var t := f(x, y);
      var rgb := colormap(t);
      assert rgb == pixel(x, y);
      out := out + [Quantize(rgb.0)];
      out := out + [Quantize(rgb.1)];
      out := out + [Quantize(rgb.2)];
    }
  }
}
