/** Value-level facts about a row-major pixel list: addressing, pointwise maps
    and the sharpening combination. The Image class builds on these. */
module PixelGrid {

  /** The list index of pixel (x, y): x + width*y. */
  function Flat(x: int, y: int, width: int): int
  {
    x + width * y
  }

  /** Python list indexing: an index in [-n, 0) counts from the end. */
  function Slot(i: int, n: nat): (s: nat)
    requires -(n as int) <= i < n
    ensures s < n
    ensures s == i || s == i + n
  {
    if i < 0 then i + n else i
  }

  /** The value get_pixel returns. */
  function PixelAt(pixels: seq<int>, width: int, x: int, y: int): int
    requires -|pixels| <= Flat(x, y, width) < |pixels|
  {
    pixels[Slot(Flat(x, y, width), |pixels|)]
  }

  /** The list set_pixel leaves behind. */
  function WithPixel(pixels: seq<int>, width: int, x: int, y: int, c: int): (q: seq<int>)
    requires -|pixels| <= Flat(x, y, width) < |pixels|
    ensures |q| == |pixels|
  {
    pixels[Slot(Flat(x, y, width), |pixels|) := c]
  }

  /** Reading a pixel after writing one: the written pixel reads back as the
      new value, and every pixel stored at another list index is unchanged. */
  lemma GetAfterSet(pixels: seq<int>, width: int, x: int, y: int, c: int, x': int, y': int)
    requires -|pixels| <= Flat(x, y, width) < |pixels|
    requires -|pixels| <= Flat(x', y', width) < |pixels|
    ensures PixelAt(WithPixel(pixels, width, x, y, c), width, x, y) == c
    ensures Slot(Flat(x', y', width), |pixels|) != Slot(Flat(x, y, width), |pixels|) ==>
              PixelAt(WithPixel(pixels, width, x, y, c), width, x', y') == PixelAt(pixels, width, x', y')
  {
  }

  /** Multiplying by a natural number keeps the order. */
  lemma {:induction false} MulMonotone(w: nat, a: int, b: int)
    requires a <= b
    ensures w * a <= w * b
    decreases b - a
  {
    if a < b {
      MulMonotone(w, a, b - 1);
      assert w * b == w * (b - 1) + w;
    }
  }

  /** Cancelling a positive factor keeps a strict order. */
  lemma MulCancel(w: nat, a: int, b: int)
    requires w * a < w * b
    ensures a < b
  {
    if b <= a {
      MulMonotone(w, b, a);
    }
  }

  /** Inside the grid, distinct coordinates have distinct list indices. */
  lemma FlatInjective(width: nat, x: int, y: int, x': int, y': int)
    requires 0 <= x < width && 0 <= x' < width && 0 <= y && 0 <= y'
    requires Flat(x, y, width) == Flat(x', y', width)
    ensures x == x' && y == y'
  {
    assert width * (y + 1) == width * y + width;
    assert width * (y' + 1) == width * y' + width;
    MulCancel(width, y, y' + 1);
    MulCancel(width, y', y + 1);
  }

  /** Inside a width-by-height grid the list index lies in [0, width*height). */
  lemma FlatInRange(width: nat, height: nat, x: int, y: int)
    requires 0 <= x < width && 0 <= y < height
    ensures 0 <= Flat(x, y, width) < width * height
  {
    MulMonotone(width, 0, y);
    MulMonotone(width, y + 1, height);
    assert width * (y + 1) == width * y + width;
  }

  /** Every list index of a width-by-height grid is the index of one
      coordinate pair in the grid. */
  lemma Unflatten(width: nat, height: nat, i: int)
    requires 0 <= i < width * height
    ensures width > 0
    ensures 0 <= i % width < width && 0 <= i / width < height
    ensures Flat(i % width, i / width, width) == i
  {
    MulCancel(width, 0, height);
    MulCancel(width, i / width, height);
  }

  /** The list a pointwise map produces. */
  function MapPixels(f: int -> int, pixels: seq<int>): (q: seq<int>)
    ensures |q| == |pixels|
    ensures forall i :: 0 <= i < |pixels| ==> q[i] == f(pixels[i])
  {
    seq(|pixels|, i requires 0 <= i < |pixels| => f(pixels[i]))
  }

  /** Whether apply_per_pixel, going column by column and down each column,
      has set list index i before it reaches (x, y). */
  predicate Before(i: int, width: nat, x: int, y: int)
  {
    width > 0 && (i % width < x || (i % width == x && i / width < y))
  }

  /** The pixels of the new image when the loops of apply_per_pixel reach
      (x, y): f of the source pixel where already set, 0 elsewhere. */
  function Painted(f: int -> int, src: seq<int>, width: nat, height: nat, x: int, y: int): (q: seq<int>)
    requires width * height <= |src|
    ensures |q| == width * height
  {
    seq(width * height, i requires 0 <= i < width * height => if Before(i, width, x, y) then f(src[i]) else 0)
  }

  /** Nothing is set before the loops start. */
  lemma PaintStart(f: int -> int, src: seq<int>, width: nat, height: nat)
    requires width * height <= |src|
    ensures forall i :: 0 <= i < width * height ==> Painted(f, src, width, height, 0, 0)[i] == 0
  {
  }

  /** Setting (x, y) to f of its source pixel moves the loops one step down
      the column. */
  lemma PaintStep(f: int -> int, src: seq<int>, width: nat, height: nat, x: nat, y: nat)
    requires width * height <= |src| && x < width && y < height
    ensures 0 <= Flat(x, y, width) < width * height
    ensures Painted(f, src, width, height, x, y)[Flat(x, y, width) := f(src[Flat(x, y, width)])]
         == Painted(f, src, width, height, x, y + 1)
  {
    FlatInRange(width, height, x, y);
    var p := Painted(f, src, width, height, x, y);
    var q := Painted(f, src, width, height, x, y + 1);
    var n := Flat(x, y, width);
    forall i | 0 <= i < width * height
      ensures p[n := f(src[n])][i] == q[i]
    {
      Unflatten(width, height, i);
      if i == n {
        FlatInjective(width, i % width, i / width, x, y);
      } else if i % width == x && i / width == y {
        assert false;
      }
    }
  }

  /** Finishing a column is starting the next one. */
  lemma PaintColumnEnd(f: int -> int, src: seq<int>, width: nat, height: nat, x: nat)
    requires width * height <= |src|
    ensures Painted(f, src, width, height, x, height) == Painted(f, src, width, height, x + 1, 0)
  {
    forall i | 0 <= i < width * height
      ensures Before(i, width, x, height) == Before(i, width, x + 1, 0)
    {
      Unflatten(width, height, i);
    }
  }

  /** After the last column every pixel is set. */
  lemma PaintDone(f: int -> int, src: seq<int>, width: nat, height: nat)
    requires width * height <= |src|
    ensures Painted(f, src, width, height, width, 0) == MapPixels(f, src[..width * height])
  {
    forall i | 0 <= i < width * height
      ensures Before(i, width, width, 0)
    {
      Unflatten(width, height, i);
    }
  }

  /** The pointwise map of inverted: 256 - c. */
  function Invert(c: int): int
  {
    256 - c
  }

  /** Inverting twice gives the same list back, whatever the values. */
  lemma InvertTwice(pixels: seq<int>)
    ensures MapPixels(Invert, MapPixels(Invert, pixels)) == pixels
  {
  }

  /** Inversion uses 256, not 255: gray levels in [0, 255] go to [1, 256],
      so black leaves the gray range and nothing maps to 0. */
  lemma InvertRange(pixels: seq<int>)
    requires forall i :: 0 <= i < |pixels| ==> 0 <= pixels[i] <= 255
    ensures forall i :: 0 <= i < |pixels| ==> 1 <= MapPixels(Invert, pixels)[i] <= 256
    ensures forall i :: 0 <= i < |pixels| ==> (pixels[i] == 0 <==> MapPixels(Invert, pixels)[i] == 256)
  {
  }

  /** The 2x2 checkerboard 0, 255, 255, 0 inverts to 256, 1, 1, 256. */
  lemma InvertCheckerboard()
    ensures MapPixels(Invert, [0, 255, 255, 0]) == [256, 1, 1, 256]
  {
  }

  /** What sharpened leaves in the pixel list: each of the first |blurred|
      entries becomes twice itself minus the blurred value, and the rest stay. */
  function Sharpen(pixels: seq<int>, blurred: seq<int>): (q: seq<int>)
    requires |blurred| <= |pixels|
    ensures |q| == |pixels|
  {
    seq(|pixels|, i requires 0 <= i < |pixels| =>
      if i < |blurred| then 2 * pixels[i] - blurred[i] else pixels[i])
  }

  /** The loop of sharpened: entry i is the first one it has not yet
      changed, and changing it extends the prefix of blurred values used. */
  lemma SharpenStep(pixels: seq<int>, blurred: seq<int>, i: nat)
    requires i < |blurred| <= |pixels|
    ensures Sharpen(pixels, blurred[..i])[i] == pixels[i]
    ensures Sharpen(pixels, blurred[..i])[i := 2 * pixels[i] - blurred[i]] == Sharpen(pixels, blurred[..i + 1])
  {
  }

  /** Sharpening does not clamp: with gray inputs and gray blurred values the
      result may lie anywhere in [-255, 510], and it is the unsharp mask
      relation new + blurred == 2 * old wherever a blurred value exists. */
  lemma SharpenRange(pixels: seq<int>, blurred: seq<int>)
    requires |blurred| <= |pixels|
    requires forall i :: 0 <= i < |pixels| ==> 0 <= pixels[i] <= 255
    requires forall i :: 0 <= i < |blurred| ==> 0 <= blurred[i] <= 255
    ensures forall i :: 0 <= i < |blurred| ==>
              -255 <= Sharpen(pixels, blurred)[i] <= 510
              && Sharpen(pixels, blurred)[i] + blurred[i] == 2 * pixels[i]
    ensures forall i :: |blurred| <= i < |pixels| ==> Sharpen(pixels, blurred)[i] == pixels[i]
  {
  }
}
