/**
 * What the converter needs from the image library: an image's size and
 * colour mode, dropping the alpha channel, Pillow's `thumbnail` size
 * computation, the bounding-box decision, and the JPEG round trip.
 */
module Imaging {
  import opened Wrappers

  /** A pixel dimension of a decoded image: at least one. */
  type Dim = n: int | 1 <= n witness 1

  /** A decoded image: its size and its Pillow mode ("RGB", "RGBA", "P", ...). */
  datatype Image = Image(width: Dim, height: Dim, mode: string)

  /** The modes Pillow's JPEG writer accepts; any other mode makes `save` raise. */
  const JpegModes: set<string> := {"1", "L", "RGB", "RGBX", "CMYK", "YCbCr"}

  /** `if img.mode == "RGBA": img = img.convert("RGB")`. */
  function DropAlpha(img: Image): (r: Image)
    ensures r.width == img.width && r.height == img.height
    ensures r.mode != "RGBA"
    ensures img.mode == "RGBA" ==> r.mode == "RGB"
    ensures img.mode != "RGBA" ==> r == img
  {
    if img.mode == "RGBA" then img.(mode := "RGB") else img
  }

  /** Dropping the alpha channel is what lets an RGBA image be written as JPEG. */
  lemma DropAlphaMakesRgbaWritable(img: Image)
    requires img.mode == "RGBA"
    ensures img.mode !in JpegModes && DropAlpha(img).mode in JpegModes
  {
  }

  lemma MulLtIff(a: int, b: int, c: int)
    requires c > 0
    ensures a < b <==> a * c < b * c
  {
  }

  /**
   * Pillow's `round_aspect` when the height bound `mh` decides: of the floor
   * and the ceiling of mh * w / h, the one whose ratio to `mh` is closer to
   * w / h (the floor on a tie), and at least 1. The result is within one
   * pixel of the exact width.
   */
  function WidthForHeight(w: Dim, h: Dim, mh: Dim): (x: Dim)
    ensures (x - 1) * h < mh * w < (x + 1) * h
  {
    var f := (mh * w) / h;
    var rem := (mh * w) % h;
    var x := if 2 * rem <= h then f else f + 1;
    WithinOne(mh * w, h, f, rem, x);
    if x < 1 then 1 else x
  }

  /** Either rounding of n / d, floored at 1, lies within one of the exact quotient. */
  lemma WithinOne(n: int, d: int, f: int, rem: int, x: int)
    requires d > 0 && n > 0 && f == n / d && rem == n % d
    requires x == f || (x == f + 1 && rem > 0)
    ensures var y := if x < 1 then 1 else x; (y - 1) * d < n < (y + 1) * d
  {
    assert n == f * d + rem && 0 <= rem < d;
    assert (f - 1) * d == f * d - d;
    assert (f + 1) * d == f * d + d;
    assert (f + 2) * d == f * d + 2 * d;
    if f < 1 {
      assert f >= 0;
      assert f == 0;
      assert f * d == 0;
    }
  }

  /**
   * Pillow's `round_aspect` when the width bound `mw` decides: of the floor
   * and the ceiling of mw * h / w, the one that makes mw / n closer to
   * w / h (a floor of 0 always wins), and at least 1.
   */
  function HeightForWidth(w: Dim, h: Dim, mw: Dim): (y: Dim)
    ensures (y - 1) * w < mw * h < (y + 1) * w
  {
    var f := (mw * h) / w;
    var rem := (mw * h) % w;
    var y := if f == 0 || rem * (f + 1) <= (w - rem) * f then f else f + 1;
    assert y == f + 1 ==> rem > 0 by {
      if rem == 0 {
        assert rem * (f + 1) == 0;
        assert f >= 0;
        assert (w - rem) * f >= 0;
      }
    }
    WithinOne(mw * h, w, f, rem, y);
    if y < 1 then 1 else y
  }

  /**
   * The size `img.thumbnail((mw, mh))` gives an image of size w x h: the
   * image itself when it already fits; otherwise the bound whose ratio is
   * the tighter one is met exactly and the other side follows the aspect
   * ratio (see ThumbnailKeepsAspect). The result fits the box and is never
   * larger than the original.
   */
  function Thumbnail(w: Dim, h: Dim, mw: Dim, mh: Dim): (r: (Dim, Dim))
    ensures r.0 <= mw && r.1 <= mh
    ensures r.0 <= w && r.1 <= h
    ensures w <= mw && h <= mh ==> r == (w, h)
    ensures !(w <= mw && h <= mh) ==> r.0 == mw || r.1 == mh
  {
    if mw >= w && mh >= h then (w, h)
    else if mw * h >= mh * w then
      var x := WidthForHeight(w, h, mh);
      HeightBoundFits(w, h, mw, mh, x);
      (x, mh)
    else
      var y := HeightForWidth(w, h, mw);
      WidthBoundFits(w, h, mw, mh, y);
      (mw, y)
  }

  /**
   * A shrunk thumbnail keeps the aspect ratio up to rounding: the side that
   * was computed is within one pixel of the exact proportion.
   */
  lemma ThumbnailKeepsAspect(w: Dim, h: Dim, mw: Dim, mh: Dim)
    requires !(w <= mw && h <= mh)
    ensures var r := Thumbnail(w, h, mw, mh);
      (r.1 == mh && (r.0 - 1) * h < r.1 * w < (r.0 + 1) * h) ||
      (r.0 == mw && (r.1 - 1) * w < r.0 * h < (r.1 + 1) * w)
  {
    if mw * h >= mh * w {
      var x := WidthForHeight(w, h, mh);
      assert Thumbnail(w, h, mw, mh) == (x, mh);
    } else {
      var y := HeightForWidth(w, h, mw);
      assert Thumbnail(w, h, mw, mh) == (mw, y);
    }
  }

  /** When the height bound is the tighter one, the computed width fits both bounds. */
  lemma HeightBoundFits(w: Dim, h: Dim, mw: Dim, mh: Dim, x: int)
    requires !(mw >= w && mh >= h) && mw * h >= mh * w
    requires (x - 1) * h < mh * w
    ensures mh < h && x <= mw && x <= w
  {
    MulLtIff(mh, h, w);
    MulLtIff(mw, w, h);
    assert h * w == w * h;
    MulLtIff(x - 1, mw, h);
    MulLtIff(x - 1, w, h);
  }

  /** When the width bound is the tighter one, the computed height fits both bounds. */
  lemma WidthBoundFits(w: Dim, h: Dim, mw: Dim, mh: Dim, y: int)
    requires !(mw >= w && mh >= h) && mw * h < mh * w
    requires (y - 1) * w < mw * h
    ensures mw < w && y <= mh && y <= h
  {
    MulLtIff(mw, w, h);
    MulLtIff(mh, h, w);
    assert h * w == w * h;
    MulLtIff(y - 1, mh, w);
    MulLtIff(y - 1, h, w);
  }

  /**
   * The size step of the routine: the image is shrunk with `thumbnail` only
   * when a side exceeds its maximum. The result fits the box, is never
   * larger than the original, keeps its mode, and equals the original when
   * it already fits.
   */
  function Fit(img: Image, maxWidth: Dim, maxHeight: Dim): (r: Image)
    ensures r.mode == img.mode
    ensures r.width <= maxWidth && r.height <= maxHeight
    ensures r.width <= img.width && r.height <= img.height
    ensures img.width <= maxWidth && img.height <= maxHeight ==> r == img
    ensures !(img.width <= maxWidth && img.height <= maxHeight) ==>
      r.width == maxWidth || r.height == maxHeight
  {
    if img.width > maxWidth || img.height > maxHeight then
      var size := Thumbnail(img.width, img.height, maxWidth, maxHeight);
      Image(size.0, size.1, img.mode)
    else img
  }

  /** The worked example: 3000 x 1000 into 2400 x 1800 gives 2400 x 800. */
  lemma FitExample()
    ensures Fit(Image(3000, 1000, "RGB"), 2400, 1800) == Image(2400, 800, "RGB")
    ensures Fit(Image(800, 600, "RGB"), 2400, 1800) == Image(800, 600, "RGB")
  {
  }

  /**
   * `img.save(path, format="JPEG")` followed by `Image.open(path)`: fails
   * for a mode the JPEG writer does not accept, otherwise reads back an
   * image of the same size.
   */
  function JpegRoundTrip(img: Image): (r: Option<Image>)
    ensures r.Some? <==> img.mode in JpegModes
    ensures r.Some? ==> r.value.width == img.width && r.value.height == img.height
  {
    if img.mode in JpegModes then Some(img) else None
  }
}
