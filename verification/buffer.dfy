/** The frame buffer (`Buffer`): a `width` by `height` image of colours
    stored row after row in one flat sequence, pixel `(x, y)` at position
    `y * width + x`. Every access checks its coordinates; the only
    arithmetic that can leave the image is the y-flip of `get_rgb`. */
module Buffers {
  import opened Vectors
  import opened IntArith

  /** `usize::MAX + 1`: unsigned index arithmetic wraps modulo this. */
  const UsizeModulus: nat := 0x1_0000_0000_0000_0000

  datatype Buffer = Buffer(width: nat, height: nat, data: seq<Vec3>)

  /** The data holds exactly one colour per pixel. */
  predicate Valid(b: Buffer) {
    |b.data| == b.width * b.height
  }

  predicate InBounds(b: Buffer, x: nat, y: nat) {
    x < b.width && y < b.height
  }

  /** The position of an in-bounds pixel in the flat data. */
  function Index(b: Buffer, x: nat, y: nat): (i: nat)
    requires Valid(b) && InBounds(b, x, y)
    ensures i < |b.data|
  {
    PixelIndexInRange(x, y, b.width, b.height, y * b.width, b.width * b.height);
    y * b.width + x
  }

  lemma PixelIndexInRange(x: nat, y: nat, w: nat, h: nat, p: int, n: int)
    requires x < w && y < h && p == y * w && n == w * h
    ensures p + x < n
  {
    RowBefore(y, h, w, p, n);
  }

  /** Distinct in-bounds pixels occupy distinct positions. */
  lemma IndexInjective(b: Buffer, x: nat, y: nat, x2: nat, y2: nat)
    requires Valid(b) && InBounds(b, x, y) && InBounds(b, x2, y2)
    requires x != x2 || y != y2
    ensures Index(b, x, y) != Index(b, x2, y2)
  {
    if y < y2 {
      RowBefore(y, y2, b.width, y * b.width, y2 * b.width);
    } else if y2 < y {
      RowBefore(y2, y, b.width, y2 * b.width, y * b.width);
    }
  }

  /** `Buffer::new(width, height)`: every pixel black. */
  function New(width: nat, height: nat): (b: Buffer)
    ensures Valid(b) && b.width == width && b.height == height
    ensures forall x: nat, y: nat :: GetPixel(b, x, y) == Zero
  {
    Buffer(width, height, seq(width * height, _ => Zero))
  }

  /** `get_pixel(x, y)`: the stored colour, or black outside the image. */
  function GetPixel(b: Buffer, x: nat, y: nat): (c: Vec3)
    requires Valid(b)
    ensures !InBounds(b, x, y) ==> c == Zero
  {
    if InBounds(b, x, y) then b.data[Index(b, x, y)] else Zero
  }

  /** `set_pixel(x, y, colour)`: replaces one in-bounds pixel; outside the
      image the buffer is left as it is. */
  function SetPixel(b: Buffer, x: nat, y: nat, c: Vec3): (r: Buffer)
    requires Valid(b)
    ensures Valid(r) && r.width == b.width && r.height == b.height
    ensures !InBounds(b, x, y) ==> r == b
    ensures InBounds(b, x, y) ==> GetPixel(r, x, y) == c
    ensures forall x2: nat, y2: nat :: x2 != x || y2 != y ==> GetPixel(r, x2, y2) == GetPixel(b, x2, y2)
  {
    if InBounds(b, x, y) then
      var r := b.(data := b.data[Index(b, x, y) := c]);
      OthersKept(b, r, x, y);
      r
    else
      b
  }

  /** `set_mut_pixel(x, y, colour)`: adds to one in-bounds pixel; outside
      the image the buffer is left as it is. */
  function AddPixel(b: Buffer, x: nat, y: nat, c: Vec3): (r: Buffer)
    requires Valid(b)
    ensures Valid(r) && r.width == b.width && r.height == b.height
    ensures !InBounds(b, x, y) ==> r == b
    ensures InBounds(b, x, y) ==> GetPixel(r, x, y) == Vectors.Add(GetPixel(b, x, y), c)
    ensures forall x2: nat, y2: nat :: x2 != x || y2 != y ==> GetPixel(r, x2, y2) == GetPixel(b, x2, y2)
  {
    if InBounds(b, x, y) then
      var i := Index(b, x, y);
      var r := b.(data := b.data[i := Vectors.Add(b.data[i], c)]);
      OthersKept(b, r, x, y);
      r
    else
      b
  }

  /** Changing the data at one pixel's position changes no other pixel. */
  lemma OthersKept(b: Buffer, r: Buffer, x: nat, y: nat)
    requires Valid(b) && InBounds(b, x, y)
    requires r.width == b.width && r.height == b.height && |r.data| == |b.data|
    requires forall i :: 0 <= i < |b.data| && i != Index(b, x, y) ==> r.data[i] == b.data[i]
    ensures forall x2: nat, y2: nat :: x2 != x || y2 != y ==> GetPixel(r, x2, y2) == GetPixel(b, x2, y2)
  {
    forall x2: nat, y2: nat | x2 != x || y2 != y
      ensures GetPixel(r, x2, y2) == GetPixel(b, x2, y2)
    {
      if InBounds(b, x2, y2) {
        IndexInjective(b, x, y, x2, y2);
      }
    }
  }

  /** The row `get_rgb` reads for row `y` counted from the bottom:
      `height - 1 - y` in wrapping unsigned arithmetic. */
  function FlipRow(height: nat, y: nat): (row: nat)
    requires height < UsizeModulus && y < UsizeModulus
    ensures y < height ==> row == height - 1 - y && row < height
    ensures y >= height ==> row >= height
  {
    (height - 1 - y) % UsizeModulus
  }

  /** `get_rgb(x, y)`: the colour of pixel `x` on row `y` counted from the
      bottom of the image. A `y` past the last row wraps to a row far
      outside the image, which reads as black. */
  function GetRgb(b: Buffer, x: nat, y: nat): (rgb: (real, real, real))
    requires Valid(b) && b.height < UsizeModulus && y < UsizeModulus
    ensures y < b.height ==> rgb == (GetPixel(b, x, b.height - 1 - y).x, GetPixel(b, x, b.height - 1 - y).y,
                                     GetPixel(b, x, b.height - 1 - y).z)
    ensures y >= b.height ==> rgb == (0.0, 0.0, 0.0)
  {
    var p := GetPixel(b, x, FlipRow(b.height, y));
    (p.x, p.y, p.z)
  }

  /** Writing a colour at the flipped row and reading it back through
      `get_rgb` returns that colour. */
  lemma RgbOfFlippedWrite(b: Buffer, x: nat, y: nat, c: Vec3)
    requires Valid(b) && b.height < UsizeModulus && x < b.width && y < b.height
    ensures GetRgb(SetPixel(b, x, b.height - 1 - y, c), x, y) == (c.x, c.y, c.z)
  {}
}
