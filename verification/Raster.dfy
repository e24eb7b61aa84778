/**
 * Painting and copying on an image held row by row: the mathematics behind fillRaw, fillSolid,
 * copyRect and the tile decoders, stated on pixels instead of bytes.
 */
module Raster {
  import opened Arith
  import opened PixelFormat

  type Image = seq<Color>

  datatype Rect = Rect(x: nat, y: nat, w: nat, h: nat)

  predicate Inside(r: Rect, width: nat, height: nat) {
    r.x + r.w <= width && r.y + r.h <= height
  }

  /** Pixel `k` of an image of the given width lies in the rectangle. */
  predicate Covers(r: Rect, width: nat, k: nat) {
    && width > 0
    && r.x <= k % width < r.x + r.w
    && r.y <= k / width < r.y + r.h
  }

  /** The position of a covered pixel in the rectangle's own raster order. */
  function Rank(r: Rect, width: nat, k: nat): (n: nat)
    requires Covers(r, width, k)
    ensures n < r.w * r.h
  {
    IndexBelow(k / width - r.y, k % width - r.x, r.w, r.h);
    (k / width - r.y) * r.w + (k % width - r.x)
  }

  /** The pixel that has rank `n` in the rectangle. */
  function At(r: Rect, width: nat, n: nat): nat
    requires r.w > 0
  {
    (r.y + n / r.w) * width + (r.x + n % r.w)
  }

  /** Colours the first |cols| pixels of the rectangle, in raster order; nothing else changes. */
  function Paint(img: Image, width: nat, r: Rect, cols: seq<Color>): (out: Image)
    ensures |out| == |img|
  {
    seq(|img|, k requires 0 <= k < |img| =>
      if Covers(r, width, k) && Rank(r, width, k) < |cols| then cols[Rank(r, width, k)] else img[k])
  }

  lemma AtIsCovered(r: Rect, width: nat, height: nat, n: nat)
    requires Inside(r, width, height) && n < r.w * r.h
    ensures r.w > 0 && At(r, width, n) < width * height
    ensures Covers(r, width, At(r, width, n)) && Rank(r, width, At(r, width, n)) == n
  {
    assert r.w > 0;
    RowBelow(n, r.w, r.h);
    DivModOf(r.y + n / r.w, r.x + n % r.w, width);
    IndexBelow(r.y + n / r.w, r.x + n % r.w, width, height);
  }

  lemma AtOfRank(r: Rect, width: nat, k: nat)
    requires Covers(r, width, k)
    ensures r.w > 0 && At(r, width, Rank(r, width, k)) == k
  {
    DivModOf(k / width - r.y, k % width - r.x, r.w);
  }

  /** Painting one more colour changes exactly the next pixel of the rectangle. */
  lemma PaintOneMore(img: Image, width: nat, height: nat, r: Rect, cols: seq<Color>, c: Color)
    requires Inside(r, width, height) && |img| == width * height && |cols| < r.w * r.h
    ensures r.w > 0 && At(r, width, |cols|) < |img|
    ensures Paint(img, width, r, cols + [c]) == Paint(img, width, r, cols)[At(r, width, |cols|) := c]
  {
    AtIsCovered(r, width, height, |cols|);
    var p := At(r, width, |cols|);
    var one, all := Paint(img, width, r, cols)[p := c], Paint(img, width, r, cols + [c]);
    forall k | 0 <= k < |img| ensures all[k] == one[k] {
      if Covers(r, width, k) && Rank(r, width, k) == |cols| {
        AtOfRank(r, width, k);
      }
    }
  }

  lemma PaintNothing(img: Image, width: nat, r: Rect)
    ensures Paint(img, width, r, []) == img
  {
  }

  function Repeat<T>(c: T, n: nat): (s: seq<T>)
    ensures |s| == n && forall i :: 0 <= i < n ==> s[i] == c
  {
    seq(n, _ => c)
  }

  lemma PaintOnePixel(img: Image, width: nat, height: nat, px: nat, py: nat, c: Color)
    requires px < width && py < height && |img| == width * height
    ensures py * width + px < |img|
    ensures Paint(img, width, Rect(px, py, 1, 1), Repeat(c, 1)) == img[py * width + px := c]
  {
    PaintNothing(img, width, Rect(px, py, 1, 1));
    PaintOneMore(img, width, height, Rect(px, py, 1, 1), [], c);
    assert Repeat(c, 1) == [] + [c];
  }

  /** At most `pix` colours of a sequence. */
  function Capped(cols: seq<Color>, pix: nat): seq<Color> {
    if |cols| <= pix then cols else cols[..pix]
  }

  // ----- copyRect -----

  /** The state of the in-place copy after `n` pixels: each step reads the image as it is by then. */
  function CopySteps(img: Image, width: nat, height: nat, dst: Rect, sx: nat, sy: nat, n: nat): (out: Image)
    requires Inside(dst, width, height) && Inside(Rect(sx, sy, dst.w, dst.h), width, height)
    requires |img| == width * height && n <= dst.w * dst.h
    ensures |out| == |img|
  {
    if n == 0 then img else
      var src := Rect(sx, sy, dst.w, dst.h);
      AtIsCovered(dst, width, height, n - 1);
      AtIsCovered(src, width, height, n - 1);
      var before := CopySteps(img, width, height, dst, sx, sy, n - 1);
      before[At(dst, width, n - 1) := before[At(src, width, n - 1)]]
  }

  /** What section 7.7.2 of RFC 6143 asks for: every pixel takes the value its source had before. */
  function CopyAtOnce(img: Image, width: nat, height: nat, dst: Rect, sx: nat, sy: nat): (out: Image)
    requires Inside(dst, width, height) && Inside(Rect(sx, sy, dst.w, dst.h), width, height)
    requires |img| == width * height
    ensures |out| == |img|
  {
    seq(|img|, k requires 0 <= k < |img| =>
      if Covers(dst, width, k) then
        AtIsCovered(Rect(sx, sy, dst.w, dst.h), width, height, Rank(dst, width, k));
        img[At(Rect(sx, sy, dst.w, dst.h), width, Rank(dst, width, k))]
      else img[k])
  }

  /** Source and destination pixels of one step are a fixed distance apart. */
  lemma Displacement(dst: Rect, width: nat, sx: nat, sy: nat, n: nat)
    requires dst.w > 0
    ensures At(Rect(sx, sy, dst.w, dst.h), width, n) - At(dst, width, n)
         == (sy * width + sx) - (dst.y * width + dst.x)
  {
    var q := n / dst.w;
    assert (sy + q) * width == sy * width + q * width;
    assert (dst.y + q) * width == dst.y * width + q * width;
  }

  /** Later steps touch later pixels. */
  lemma AtIncreases(r: Rect, width: nat, height: nat, m: nat, n: nat)
    requires Inside(r, width, height) && m < n < r.w * r.h
    ensures r.w > 0 && At(r, width, m) < At(r, width, n)
  {
    assert r.w > 0;
    RowBelow(m, r.w, r.h);
    RowBelow(n, r.w, r.h);
    RasterOrder(m / r.w, m % r.w, n / r.w, n % r.w, r.w);
    RasterOrder(r.y + m / r.w, r.x + m % r.w, r.y + n / r.w, r.x + n % r.w, width);
  }

  ghost predicate Written(dst: Rect, width: nat, n: nat, k: nat) {
    Covers(dst, width, k) && Rank(dst, width, k) < n
  }

  /** A pixel not yet written still has its old colour; a written one holds what its step read. */
  lemma {:induction false} CopyStepsAt(
      img: Image, width: nat, height: nat, dst: Rect, sx: nat, sy: nat, n: nat, k: nat)
    requires Inside(dst, width, height) && Inside(Rect(sx, sy, dst.w, dst.h), width, height)
    requires |img| == width * height && n <= dst.w * dst.h && k < |img|
    ensures !Written(dst, width, n, k) ==> CopySteps(img, width, height, dst, sx, sy, n)[k] == img[k]
    ensures Written(dst, width, n, k) ==>
      (var m := Rank(dst, width, k);
       AtIsCovered(Rect(sx, sy, dst.w, dst.h), width, height, m);
       CopySteps(img, width, height, dst, sx, sy, n)[k]
         == CopySteps(img, width, height, dst, sx, sy, m)[At(Rect(sx, sy, dst.w, dst.h), width, m)])
  {
    if n > 0 {
      CopyStepsAt(img, width, height, dst, sx, sy, n - 1, k);
      AtIsCovered(dst, width, height, n - 1);
      if Covers(dst, width, k) {
        AtOfRank(dst, width, k);
      }
    }
  }

  /** No step before the n-th one overwrites what the n-th one reads. */
  ghost predicate ReadsIntact(dst: Rect, width: nat, sx: nat, sy: nat) {
    forall n: nat :: n < dst.w * dst.h ==>
      dst.w > 0 && !Written(dst, width, n, At(Rect(sx, sy, dst.w, dst.h), width, n))
  }

  ghost predicate CopiesAtOnce(img: Image, width: nat, height: nat, dst: Rect, sx: nat, sy: nat)
    requires Inside(dst, width, height) && Inside(Rect(sx, sy, dst.w, dst.h), width, height)
    requires |img| == width * height
  {
    CopySteps(img, width, height, dst, sx, sy, dst.w * dst.h) == CopyAtOnce(img, width, height, dst, sx, sy)
  }

  lemma CopyIsAtOnceWhenIntact(img: Image, width: nat, height: nat, dst: Rect, sx: nat, sy: nat)
    requires Inside(dst, width, height) && Inside(Rect(sx, sy, dst.w, dst.h), width, height)
    requires |img| == width * height && ReadsIntact(dst, width, sx, sy)
    ensures CopiesAtOnce(img, width, height, dst, sx, sy)
  {
    var src := Rect(sx, sy, dst.w, dst.h);
    var steps := CopySteps(img, width, height, dst, sx, sy, dst.w * dst.h);
    var once := CopyAtOnce(img, width, height, dst, sx, sy);
    forall k | 0 <= k < |img| ensures steps[k] == once[k] {
      CopyStepsAt(img, width, height, dst, sx, sy, dst.w * dst.h, k);
      if Covers(dst, width, k) {
        var m := Rank(dst, width, k);
        AtIsCovered(src, width, height, m);
        CopyStepsAt(img, width, height, dst, sx, sy, m, At(src, width, m));
      }
    }
  }

  /** The destination's origin is at or before the source's in raster order. */
  predicate OriginNotAfter(dst: Rect, sx: nat, sy: nat) {
    dst.y < sy || (dst.y == sy && dst.x <= sx)
  }

  predicate Apart(a: Rect, b: Rect) {
    || a.w == 0 || a.h == 0 || b.w == 0 || b.h == 0
    || a.x + a.w <= b.x || b.x + b.w <= a.x || a.y + a.h <= b.y || b.y + b.h <= a.y
  }

  predicate CopySafe(dst: Rect, sx: nat, sy: nat) {
    OriginNotAfter(dst, sx, sy) || Apart(dst, Rect(sx, sy, dst.w, dst.h))
  }

  lemma SafeReadsIntact(width: nat, height: nat, dst: Rect, sx: nat, sy: nat)
    requires Inside(dst, width, height) && Inside(Rect(sx, sy, dst.w, dst.h), width, height)
    requires CopySafe(dst, sx, sy)
    ensures ReadsIntact(dst, width, sx, sy)
  {
    var src := Rect(sx, sy, dst.w, dst.h);
    forall n: nat | n < dst.w * dst.h
      ensures dst.w > 0 && !Written(dst, width, n, At(src, width, n))
    {
      AtIsCovered(src, width, height, n);
      AtIsCovered(dst, width, height, n);
      var k := At(src, width, n);
      if Written(dst, width, n, k) {
        AtOfRank(dst, width, k);
        AtIncreases(dst, width, height, Rank(dst, width, k), n);
        Displacement(dst, width, sx, sy, n);
        RasterOrder(sy, sx, dst.y, dst.x, width);
        assert false;
      }
    }
  }

  lemma SafeCopyIsAtOnce(img: Image, width: nat, height: nat, dst: Rect, sx: nat, sy: nat)
    requires Inside(dst, width, height) && Inside(Rect(sx, sy, dst.w, dst.h), width, height)
    requires |img| == width * height
    ensures CopySafe(dst, sx, sy) ==> CopiesAtOnce(img, width, height, dst, sx, sy)
  {
    if CopySafe(dst, sx, sy) {
      SafeReadsIntact(width, height, dst, sx, sy);
      CopyIsAtOnceWhenIntact(img, width, height, dst, sx, sy);
    }
  }

  /** The first step whose write lands on a pixel that a later step still has to read. */
  lemma ClashingSteps(width: nat, height: nat, dst: Rect, sx: nat, sy: nat) returns (i: nat, j: nat)
    requires Inside(dst, width, height) && Inside(Rect(sx, sy, dst.w, dst.h), width, height)
    requires !CopySafe(dst, sx, sy)
    ensures i < j < dst.w * dst.h && dst.w > 0
    ensures At(Rect(sx, sy, dst.w, dst.h), width, j) == At(dst, width, i)
    ensures !Covers(dst, width, At(Rect(sx, sy, dst.w, dst.h), width, i))
         || Rank(dst, width, At(Rect(sx, sy, dst.w, dst.h), width, i)) >= i
  {
    var dx, dy := dst.x - sx, dst.y - sy;
    var a := if dx < 0 then -dx else 0;
    i := a;
    IndexBelow(0, a, dst.w, dst.h);
    IndexBelow(dy, a + dx, dst.w, dst.h);
    j := dy * dst.w + (a + dx);
    DivModOf(0, a, dst.w);
    DivModOf(dy, a + dx, dst.w);
    RasterOrder(0, a, dy, a + dx, dst.w);
    // The source of step i is left of the destination's first row or above it.
    DivModOf(sy, sx + a, width);
  }

  /**
   * The in-place copy of copyRect gives the simultaneous copy, whatever the picture, exactly when the
   * rectangles do not meet or the destination's origin is not after the source's in raster order.
   */
  lemma CopyRectExactly(width: nat, height: nat, dst: Rect, sx: nat, sy: nat)
    requires Inside(dst, width, height) && Inside(Rect(sx, sy, dst.w, dst.h), width, height)
    ensures CopySafe(dst, sx, sy) <==>
      forall img: Image | |img| == width * height :: CopiesAtOnce(img, width, height, dst, sx, sy)
  {
    if CopySafe(dst, sx, sy) {
      forall img: Image | |img| == width * height ensures CopiesAtOnce(img, width, height, dst, sx, sy) {
        SafeCopyIsAtOnce(img, width, height, dst, sx, sy);
      }
    } else {
      var img := UnsafeCopyDiffers(width, height, dst, sx, sy);
    }
  }

  /** A picture on which an unsafe copy goes wrong. */
  lemma UnsafeCopyDiffers(width: nat, height: nat, dst: Rect, sx: nat, sy: nat) returns (img: Image)
    requires Inside(dst, width, height) && Inside(Rect(sx, sy, dst.w, dst.h), width, height)
    requires !CopySafe(dst, sx, sy)
    ensures |img| == width * height && !CopiesAtOnce(img, width, height, dst, sx, sy)
  {
    var src := Rect(sx, sy, dst.w, dst.h);
    var i, j := ClashingSteps(width, height, dst, sx, sy);
    AtIsCovered(src, width, height, i);
    AtIsCovered(src, width, height, j);
    AtIsCovered(dst, width, height, i);
    AtIsCovered(dst, width, height, j);
    AtIncreases(src, width, height, i, j);
    var black, white := Color(0, 0, 0, 255), Color(255, 255, 255, 255);
    img := Repeat(black, width * height)[At(src, width, i) := white];
    // The last write to At(dst, j) read At(dst, i), which step i had already turned white.
    CopyStepsAt(img, width, height, dst, sx, sy, dst.w * dst.h, At(dst, width, j));
    CopyStepsAt(img, width, height, dst, sx, sy, j, At(dst, width, i));
    CopyStepsAt(img, width, height, dst, sx, sy, i, At(src, width, i));
    assert CopySteps(img, width, height, dst, sx, sy, dst.w * dst.h)[At(dst, width, j)] == white;
    assert CopyAtOnce(img, width, height, dst, sx, sy)[At(dst, width, j)] == black;
  }

  // ----- Pixel by pixel -----

  /** After painting a whole rectangle, column xx of its row yy has the colour number yy * w + xx. */
  lemma PaintedAt(img: Image, width: nat, height: nat, r: Rect, cols: seq<Color>, xx: nat, yy: nat)
    requires Inside(r, width, height) && |img| == width * height && |cols| == r.w * r.h && xx < r.w && yy < r.h
    ensures (r.y + yy) * width + r.x + xx < |img| && yy * r.w + xx < |cols|
    ensures Paint(img, width, r, cols)[(r.y + yy) * width + r.x + xx] == cols[yy * r.w + xx]
  {
    IndexBelow(yy, xx, r.w, r.h);
    IndexBelow(r.y + yy, r.x + xx, width, height);
    DivModOf(r.y + yy, r.x + xx, width);
  }

  /** And what is outside is as before. */
  lemma NotPaintedAt(img: Image, width: nat, height: nat, r: Rect, cols: seq<Color>, px: nat, py: nat)
    requires |img| == width * height && px < width && py < height
    requires !(r.x <= px < r.x + r.w && r.y <= py < r.y + r.h)
    ensures py * width + px < |img| && Paint(img, width, r, cols)[py * width + px] == img[py * width + px]
  {
    IndexBelow(py, px, width, height);
    DivModOf(py, px, width);
  }

  /** The simultaneous copy: column xx of row yy of the destination has what that of the source had before. */
  lemma CopiedAt(img: Image, width: nat, height: nat, dst: Rect, sx: nat, sy: nat, xx: nat, yy: nat)
    requires Inside(dst, width, height) && Inside(Rect(sx, sy, dst.w, dst.h), width, height)
    requires |img| == width * height && xx < dst.w && yy < dst.h
    ensures (dst.y + yy) * width + dst.x + xx < |img| && (sy + yy) * width + sx + xx < |img|
    ensures CopyAtOnce(img, width, height, dst, sx, sy)[(dst.y + yy) * width + dst.x + xx]
         == img[(sy + yy) * width + sx + xx]
  {
    IndexBelow(dst.y + yy, dst.x + xx, width, height);
    IndexBelow(sy + yy, sx + xx, width, height);
    DivModOf(dst.y + yy, dst.x + xx, width);
    DivModOf(yy, xx, dst.w);
  }

  lemma NotCopiedAt(img: Image, width: nat, height: nat, dst: Rect, sx: nat, sy: nat, px: nat, py: nat)
    requires Inside(dst, width, height) && Inside(Rect(sx, sy, dst.w, dst.h), width, height)
    requires |img| == width * height && px < width && py < height
    requires !(dst.x <= px < dst.x + dst.w && dst.y <= py < dst.y + dst.h)
    ensures py * width + px < |img|
    ensures CopyAtOnce(img, width, height, dst, sx, sy)[py * width + px] == img[py * width + px]
  {
    IndexBelow(py, px, width, height);
    DivModOf(py, px, width);
  }
}
