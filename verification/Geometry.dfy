/**
 Rectangles on a screen and their bytes: the least rectangle around others, the packed bytes of a
 rectangle, and what storing them changes.
 */
module Geometry {
  import opened Bytes

  const BPP := 4

  /** A rectangle of pixels. */
  datatype Box = Box(x: nat, y: nat, width: nat, height: nat) {
    predicate Contains(px: int, py: int) {
      x <= px < x + width && y <= py < y + height
    }

    predicate NonEmpty() {
      1 <= width && 1 <= height
    }

    predicate Fits(w: nat, h: nat) {
      NonEmpty() && x + width <= w && y + height <= h
    }

    predicate Within(other: Box) {
      other.x <= x && x + width <= other.x + other.width && other.y <= y && y + height <= other.y + other.height
    }
  }

  /** One rectangle lies within another exactly when all its pixels do. */
  lemma WithinIsContained(a: Box, b: Box)
    requires a.NonEmpty()
    ensures a.Within(b) <==> forall px, py :: a.Contains(px, py) ==> b.Contains(px, py)
  {
    assert a.Contains(a.x, a.y) && a.Contains(a.x + a.width - 1, a.y + a.height - 1);
  }

  // ----- The least rectangle around others -----

  /** How GudQueueFlush grows the damage. */
  function Union(a: Box, b: Box): (r: Box)
    ensures a.Within(r) && b.Within(r)
    ensures a.NonEmpty() && b.NonEmpty() ==> r.NonEmpty()
  {
    var x, y: int := Min(a.x, b.x), Min(a.y, b.y);
    Box(x, y, Max(a.x + a.width, b.x + b.width) - x, Max(a.y + a.height, b.y + b.height) - y)
  }

  /** The damage after a number of rectangles. */
  function Damage(boxes: seq<Box>): (r: Box)
    requires boxes != []
  {
    if |boxes| == 1 then boxes[0] else Union(Damage(boxes[..|boxes| - 1]), boxes[|boxes| - 1])
  }

  /** `r` is around all of them. */
  ghost predicate Bounds(r: Box, boxes: seq<Box>) {
    forall b :: b in boxes ==> b.Within(r)
  }

  /** The damage is around all rectangles, and within whatever else is. */
  lemma {:induction false} DamageIsLeast(boxes: seq<Box>, other: Box)
    requires boxes != []
    ensures Bounds(Damage(boxes), boxes)
    ensures Bounds(other, boxes) ==> Damage(boxes).Within(other)
    decreases |boxes|
  {
    var front, last := boxes[..|boxes| - 1], boxes[|boxes| - 1];
    assert boxes == front + [last] && last in boxes;
    if |boxes| > 1 {
      DamageIsLeast(front, other);
    }
  }

  /** The order of the rectangles, and their number, do not matter. */
  lemma DamageIgnoresOrder(boxes: seq<Box>, others: seq<Box>)
    requires boxes != [] && others != [] && forall b :: b in boxes <==> b in others
    ensures Damage(boxes) == Damage(others)
  {
    DamageIsLeast(boxes, Damage(others));
    DamageIsLeast(others, Damage(boxes));
  }

  /** It stays on the screen, and is not empty, if all of them do and are. */
  lemma {:induction false} DamageFits(boxes: seq<Box>, w: nat, h: nat)
    requires boxes != [] && forall b :: b in boxes ==> b.Fits(w, h)
    ensures Damage(boxes).Fits(w, h)
    decreases |boxes|
  {
    assert boxes[|boxes| - 1] in boxes;
    if |boxes| > 1 {
      DamageFits(boxes[..|boxes| - 1], w, h);
    }
  }

  // ----- Bytes of pixels -----

  /** USB_GUD_FB_AT: where a pixel stands in a buffer of rows of `stride` pixels. */
  function Offset(stride: nat, x: nat, y: nat): nat {
    BPP * (stride * y + x)
  }

  /** The pixel a byte belongs to. */
  function PixelX(stride: nat, i: nat): nat
    requires 1 <= stride
  {
    i / BPP % stride
  }

  function PixelY(stride: nat, i: nat): nat
    requires 1 <= stride
  {
    i / BPP / stride
  }

  function ImageSize(w: nat, h: nat): nat {
    BPP * (w * h)
  }

  lemma MulGrows(a: nat, b: nat, c: nat)
    requires b <= c
    ensures a * b <= a * c
  {
  }

  lemma MulStep(a: nat, b: nat)
    ensures a * (b + 1) == a * b + a
  {
  }

  /** Bytes and pixels correspond. */
  lemma PixelOfOffset(stride: nat, x: nat, y: nat, c: nat)
    requires x < stride && c < BPP
    ensures PixelX(stride, Offset(stride, x, y) + c) == x && PixelY(stride, Offset(stride, x, y) + c) == y
  {
    var p := stride * y + x;
    assert (BPP * p + c) / BPP == p;
    DivMod(stride, x, y);
  }

  /** A multiple of `d` closer to 0 than `d` is 0. */
  lemma SmallMultiple(d: int, k: int, m: int)
    requires 0 < d && d * k == m && -d < m < d
    ensures k == 0
  {
  }

  lemma DivMod(d: nat, r: nat, q: nat)
    requires r < d
    ensures (d * q + r) / d == q && (d * q + r) % d == r
  {
    var n := d * q + r;
    assert d * (n / d - q) == r - n % d;
    SmallMultiple(d, n / d - q, r - n % d);
  }

  lemma OffsetOfPixel(stride: nat, i: nat)
    requires 1 <= stride
    ensures i == Offset(stride, PixelX(stride, i), PixelY(stride, i)) + i % BPP && PixelX(stride, i) < stride
  {
    var p := i / BPP;
    assert p == stride * (p / stride) + p % stride;
  }

  /** The last byte of a row of a rectangle is on the screen. */
  lemma RowInside(stride: nat, h: nat, x: nat, y: nat, w: nat)
    requires x + w <= stride && y < h
    ensures Offset(stride, x, y) + BPP * w <= ImageSize(stride, h)
  {
    MulGrows(stride, y + 1, h);
    MulStep(stride, y);
  }

  /** A byte of the rectangle. */
  predicate Inside(stride: nat, box: Box, i: nat)
    requires 1 <= stride
  {
    box.Contains(PixelX(stride, i), PixelY(stride, i))
  }

  /** Where the byte `k` of the packed rectangle comes from. */
  function Source(stride: nat, box: Box, k: nat): nat
    requires 1 <= box.width
  {
    Offset(stride, box.x + PixelX(box.width, k), box.y + PixelY(box.width, k)) + k % BPP
  }

  lemma SourceInside(stride: nat, h: nat, box: Box, k: nat)
    requires box.Fits(stride, h) && k < ImageSize(box.width, box.height)
    ensures Source(stride, box, k) < ImageSize(stride, h)
    ensures PixelX(box.width, k) < box.width && PixelY(box.width, k) < box.height
  {
    OffsetOfPixel(box.width, k);
    if PixelY(box.width, k) >= box.height {
      MulGrows(box.width, box.height, PixelY(box.width, k));
    }
    RowInside(stride, h, box.x + PixelX(box.width, k), box.y + PixelY(box.width, k), 1);
  }

  /** The bytes of a rectangle, row by row. */
  function Packed(image: seq<byte>, stride: nat, h: nat, box: Box): (r: seq<byte>)
    requires |image| == ImageSize(stride, h) && box.Fits(stride, h)
    ensures |r| == ImageSize(box.width, box.height)
  {
    seq(ImageSize(box.width, box.height), k requires 0 <= k < ImageSize(box.width, box.height) =>
      SourceInside(stride, h, box, k);
      image[Source(stride, box, k)])
  }

  /** Where a byte of the rectangle stands when packed. */
  function Target(stride: nat, box: Box, i: nat): nat
    requires 1 <= stride && Inside(stride, box, i)
  {
    Offset(box.width, PixelX(stride, i) - box.x, PixelY(stride, i) - box.y) + i % BPP
  }

  lemma TargetInside(stride: nat, box: Box, i: nat)
    requires 1 <= stride && Inside(stride, box, i)
    ensures Target(stride, box, i) < ImageSize(box.width, box.height)
    ensures Source(stride, box, Target(stride, box, i)) == i
  {
    RowInside(box.width, box.height, PixelX(stride, i) - box.x, PixelY(stride, i) - box.y, 1);
    PixelOfOffset(box.width, PixelX(stride, i) - box.x, PixelY(stride, i) - box.y, i % BPP);
    OffsetOfPixel(stride, i);
  }

  /** What a screen shows once the packed bytes of a rectangle are stored. */
  function Stored(screen: seq<byte>, stride: nat, h: nat, box: Box, bytes: seq<byte>): (r: seq<byte>)
    requires |screen| == ImageSize(stride, h) && box.Fits(stride, h) && |bytes| == ImageSize(box.width, box.height)
    ensures |r| == |screen|
  {
    seq(|screen|, i requires 0 <= i < |screen| =>
      if Inside(stride, box, i) then
        TargetInside(stride, box, i);
        bytes[Target(stride, box, i)]
      else screen[i])
  }

  /** Storing what was packed copies the rectangle, and touches nothing else. */
  lemma StoredPacked(screen: seq<byte>, image: seq<byte>, stride: nat, h: nat, box: Box, i: nat)
    requires |screen| == |image| == ImageSize(stride, h) && box.Fits(stride, h) && i < |screen|
    ensures Stored(screen, stride, h, box, Packed(image, stride, h, box))[i]
            == if Inside(stride, box, i) then image[i] else screen[i]
  {
    if Inside(stride, box, i) {
      TargetInside(stride, box, i);
    }
  }

  /** A byte of the whole rectangle, in the band it belongs to. */
  lemma PackedByte(image: seq<byte>, stride: nat, h: nat, box: Box, top: Box, bottom: Box, k: nat)
    requires |image| == ImageSize(stride, h) && box.Fits(stride, h) && top.Fits(stride, h) && bottom.Fits(stride, h)
    requires top == Box(box.x, box.y, box.width, top.height)
    requires top.height <= box.height && bottom == Box(box.x, box.y + top.height, box.width, box.height - top.height)
    requires ImageSize(box.width, box.height) == ImageSize(box.width, top.height) + ImageSize(box.width, bottom.height)
    requires k < ImageSize(box.width, box.height)
    ensures Packed(image, stride, h, box)[k]
            == if k < ImageSize(box.width, top.height) then Packed(image, stride, h, top)[k]
               else Packed(image, stride, h, bottom)[k - ImageSize(box.width, top.height)]
  {
    if k >= ImageSize(box.width, top.height) {
      BandSource(stride, box, bottom, top.height, k);
    }
    hide ImageSize, Offset, PixelX, PixelY;
  }

  /** A rectangle packed in two bands is packed whole. */
  lemma PackedBands(image: seq<byte>, stride: nat, h: nat, box: Box, rows: nat)
    requires |image| == ImageSize(stride, h) && box.Fits(stride, h) && 1 <= rows < box.height
    ensures Packed(image, stride, h, box)
            == Packed(image, stride, h, Box(box.x, box.y, box.width, rows))
               + Packed(image, stride, h, Box(box.x, box.y + rows, box.width, box.height - rows))
  {
    var top, bottom := Box(box.x, box.y, box.width, rows), Box(box.x, box.y + rows, box.width, box.height - rows);
    assert ImageSize(box.width, box.height) == ImageSize(box.width, rows) + ImageSize(box.width, box.height - rows) by {
      assert box.width * box.height == box.width * rows + box.width * (box.height - rows);
    }
    hide ImageSize;
    var whole, parts := Packed(image, stride, h, box), Packed(image, stride, h, top) + Packed(image, stride, h, bottom);
    hide Packed;
    forall k | 0 <= k < |whole|
      ensures whole[k] == parts[k]
    {
      PackedByte(image, stride, h, box, top, bottom, k);
    }
  }

  lemma BandSource(stride: nat, box: Box, bottom: Box, rows: nat, k: nat)
    requires 1 <= box.width && bottom.width == box.width && bottom.x == box.x && bottom.y == box.y + rows
    requires ImageSize(box.width, rows) <= k
    ensures Source(stride, bottom, k - ImageSize(box.width, rows)) == Source(stride, box, k)
  {
    var w := box.width;
    var j := k - ImageSize(w, rows);
    OffsetOfPixel(w, j);
    var x, y := PixelX(w, j), PixelY(w, j);
    assert Offset(w, x, y + rows) == Offset(w, x, y) + ImageSize(w, rows) by {
      assert w * (y + rows) == w * y + w * rows;
    }
    assert k == Offset(w, x, y + rows) + j % BPP;
    PixelOfOffset(w, x, y + rows, j % BPP);
    assert k % BPP == j % BPP;
  }

  /** One more row packed. */
  lemma PackedRow(image: seq<byte>, stride: nat, h: nat, box: Box, b: nat)
    requires |image| == ImageSize(stride, h) && box.Fits(stride, h) && box.height == 1 && b < BPP * box.width
    ensures b < |Packed(image, stride, h, box)|
    ensures Offset(stride, box.x, box.y) + b < |image|
    ensures Packed(image, stride, h, box)[b] == image[Offset(stride, box.x, box.y) + b]
  {
    var x := b / BPP;
    PixelOfOffset(box.width, x, 0, b % BPP);
    RowInside(stride, h, box.x, box.y, box.width);
    assert Source(stride, box, b) == Offset(stride, box.x + x, box.y) + b % BPP;
  }
}
