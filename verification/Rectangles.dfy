/**
  A rectangle of the framebuffer, pixel by pixel in the order src/drawing.c walks it.
 */
module Rectangles {
  import opened Arithmetic
  import opened PpmText

  datatype Pixel = Pixel(r: Byte, g: Byte, b: Byte, a: Byte)

  /** A rectangle inside a framebuffer of the given size. */
  datatype Rect = Rect(x: nat, y: nat, width: nat, height: nat) {
    predicate Fits(fbWidth: nat, fbHeight: nat) {
      x + width <= fbWidth && y + height <= fbHeight
    }

    /** Whether the pixel with this index lies in it. */
    predicate Has(fbWidth: nat, idx: nat)
      requires fbWidth > 0
    {
      y <= idx / fbWidth < y + height && x <= idx % fbWidth < x + width
    }

    /** The index of its k-th pixel. */
    function At(fbWidth: nat, k: nat): nat
      requires width > 0
    {
      (y + k / width) * fbWidth + x + k % width
    }
  }

  /** Byte n of a rectangle: red, green and blue of one pixel after the other. */
  function Channel(fb: seq<Pixel>, fbWidth: nat, rect: Rect, n: nat): Byte
    requires rect.width > 0
  {
    var idx := rect.At(fbWidth, n / 3);
    if idx >= |fb| then 0
    else if n % 3 == 0 then fb[idx].r
    else if n % 3 == 1 then fb[idx].g
    else fb[idx].b
  }

  function RectBytes(fb: seq<Pixel>, fbWidth: nat, rect: Rect): (img: seq<Byte>)
    requires rect.width > 0
  {
    seq(3 * (rect.width * rect.height), n requires 0 <= n => Channel(fb, fbWidth, rect, n))
  }

  lemma RectBytesAre(fb: seq<Pixel>, fbWidth: nat, rect: Rect, img: seq<Byte>)
    requires rect.width > 0 && |img| == 3 * (rect.width * rect.height)
    requires forall n :: 0 <= n < |img| ==> img[n] == Channel(fb, fbWidth, rect, n)
    ensures img == RectBytes(fb, fbWidth, rect)
  {
  }

  lemma Channels(fb: seq<Pixel>, fbWidth: nat, rect: Rect, k: nat)
    requires rect.width > 0 && rect.At(fbWidth, k) < |fb|
    ensures var p := fb[rect.At(fbWidth, k)];
            && Channel(fb, fbWidth, rect, 3 * k) == p.r
            && Channel(fb, fbWidth, rect, 3 * k + 1) == p.g
            && Channel(fb, fbWidth, rect, 3 * k + 2) == p.b
  {
    assert 3 * k / 3 == k && (3 * k + 1) / 3 == k && (3 * k + 2) / 3 == k;
  }

  lemma FirstPixel(rect: Rect, fbWidth: nat)
    requires rect.width > 0
    ensures rect.At(fbWidth, 0) == rect.y * fbWidth + rect.x
  {
  }

  lemma NextPixel(rect: Rect, fbWidth: nat, k: nat)
    requires rect.width > 0
    ensures (k + 1) % rect.width == if k % rect.width + 1 == rect.width then 0 else k % rect.width + 1
    ensures rect.At(fbWidth, k + 1) ==
            if k % rect.width + 1 == rect.width then rect.At(fbWidth, k) + fbWidth - rect.width + 1
                else rect.At(fbWidth, k) + 1
  {
    var w := rect.width;
    var r, c := k / w, k % w;
    assert k == r * w + c;
    if c + 1 == w {
      QuotientRemainder(k + 1, r + 1, w, 0);
      assert (rect.y + r + 1) * fbWidth == (rect.y + r) * fbWidth + fbWidth;
    } else {
      QuotientRemainder(k + 1, r, w, c + 1);
    }
  }

  /** The row and column of the k-th pixel, inside the framebuffer. */
  lemma PixelInRange(rect: Rect, fbWidth: nat, fbHeight: nat, k: nat)
    requires rect.Fits(fbWidth, fbHeight) && rect.width > 0 && k < rect.width * rect.height
    ensures k / rect.width < rect.height
    ensures rect.At(fbWidth, k) < fbWidth * fbHeight && rect.Has(fbWidth, rect.At(fbWidth, k))
    ensures rect.At(fbWidth, k) / fbWidth == rect.y + k / rect.width
    ensures rect.At(fbWidth, k) % fbWidth == rect.x + k % rect.width
  {
    var w := rect.width;
    var r, c := k / w, k % w;
    assert k == r * w + c;
    RowBelow(k, w, rect.height);
    QuotientRemainder(rect.At(fbWidth, k), rect.y + r, fbWidth, rect.x + c);
    InsideProduct(rect.y + r, rect.x + c, fbWidth, fbHeight);
  }

  lemma RowBelow(k: nat, w: nat, h: nat)
    requires w > 0 && k < w * h
    ensures k / w < h
  {
    var r := k / w;
    assert r * w <= k;
    if r >= h {
      Times(h, r, w);
      assert false;
    }
  }

  lemma InsideProduct(r: nat, c: nat, w: nat, h: nat)
    requires r < h && c < w
    ensures r * w + c < w * h
  {
    Times(r + 1, h, w);
    assert (r + 1) * w == r * w + w;
  }

  /** The end test of ppm_write_fb's loop holds exactly after the last pixel. */
  lemma WalkEnds(rect: Rect, fbWidth: nat, k: nat)
    requires 0 < rect.width <= fbWidth && rect.height > 0 && k <= rect.width * rect.height
    ensures rect.At(fbWidth, k) < fbWidth * (rect.height - 1) + rect.width + (rect.y * fbWidth + rect.x)
            <==> k < rect.width * rect.height
  {
    var w, h := rect.width, rect.height;
    var r, c := k / w, k % w;
    assert k == r * w + c;
    Distribute(rect.y, r, fbWidth);
    Distribute(h - 1, 1, fbWidth);
    var a, b := r * fbWidth, (h - 1) * fbWidth;
    if k < w * h {
      RowBelow(k, w, h);
      Times(r, h - 1, fbWidth);
    } else {
      QuotientRemainder(k, h, w, 0);
    }
  }

  lemma Distribute(a: nat, b: nat, w: nat)
    ensures (a + b) * w == a * w + b * w
  {
  }

  lemma RectCount(rect: Rect, fbWidth: nat, fbHeight: nat)
    requires rect.Fits(fbWidth, fbHeight)
    ensures rect.width * rect.height <= fbWidth * fbHeight
  {
    Times(rect.width, fbWidth, rect.height);
    Times(rect.height, fbHeight, fbWidth);
  }

  /** Which pixel of the rectangle an index is. */
  function Order(rect: Rect, fbWidth: nat, idx: nat): nat
    requires fbWidth > 0 && rect.Has(fbWidth, idx)
  {
    (idx / fbWidth - rect.y) * rect.width + (idx % fbWidth - rect.x)
  }

  lemma OrderAt(rect: Rect, fbWidth: nat, fbHeight: nat, k: nat)
    requires rect.Fits(fbWidth, fbHeight) && rect.width > 0 && k < rect.width * rect.height
    ensures rect.Has(fbWidth, rect.At(fbWidth, k)) && Order(rect, fbWidth, rect.At(fbWidth, k)) == k
  {
    PixelInRange(rect, fbWidth, fbHeight, k);
  }

  lemma AtOrder(rect: Rect, fbWidth: nat, idx: nat)
    requires fbWidth > 0 && rect.Has(fbWidth, idx)
    ensures Order(rect, fbWidth, idx) < rect.width * rect.height && rect.width > 0
    ensures rect.At(fbWidth, Order(rect, fbWidth, idx)) == idx
  {
    var r, c := idx / fbWidth - rect.y, idx % fbWidth - rect.x;
    InsideProduct(r, c, rect.width, rect.height);
    QuotientRemainder(Order(rect, fbWidth, idx), r, rect.width, c);
  }

  function Colour(img: seq<Byte>, k: nat): Pixel {
    if 3 * k + 2 < |img| then Pixel(img[3 * k], img[3 * k + 1], img[3 * k + 2], 255) else Pixel(0, 0, 0, 255)
  }

  /** The framebuffer with a picture drawn into the rectangle. */
  function Painted(fb: seq<Pixel>, fbWidth: nat, rect: Rect, img: seq<Byte>): (r: seq<Pixel>)
    requires fbWidth > 0
  {
    seq(|fb|, idx requires 0 <= idx < |fb| =>
      if rect.Has(fbWidth, idx) then Colour(img, Order(rect, fbWidth, idx)) else fb[idx])
  }

  /** How far the walk of ppm_read_fb has come after k pixels. */
  ghost predicate PaintedUpTo(fb: seq<Pixel>, fb': seq<Pixel>, fbWidth: nat, rect: Rect, img: seq<Byte>, k: nat)
    requires fbWidth > 0
  {
    && |fb'| == |fb|
    && (forall idx :: 0 <= idx < |fb| ==>
          fb'[idx] == if rect.Has(fbWidth, idx) && Order(rect, fbWidth, idx) < k
              then Colour(img, Order(rect, fbWidth, idx)) else fb[idx])
  }

  lemma PaintNext(fb: seq<Pixel>, fb': seq<Pixel>, fbWidth: nat, fbHeight: nat, rect: Rect, img: seq<Byte>, k: nat)
    requires rect.Fits(fbWidth, fbHeight) && |fb| == fbWidth * fbHeight && fbWidth > 0
    requires rect.width > 0 && k < rect.width * rect.height && PaintedUpTo(fb, fb', fbWidth, rect, img, k)
    ensures rect.At(fbWidth, k) < |fb'|
    ensures PaintedUpTo(fb, fb'[rect.At(fbWidth, k) := Colour(img, k)], fbWidth, rect, img, k + 1)
  {
    OrderAt(rect, fbWidth, fbHeight, k);
    PixelInRange(rect, fbWidth, fbHeight, k);
    hide Colour;
    var at := rect.At(fbWidth, k);
    var fb'' := fb'[at := Colour(img, k)];
    forall idx | 0 <= idx < |fb|
      ensures fb''[idx] == if rect.Has(fbWidth, idx) && Order(rect, fbWidth, idx) < k + 1
                then Colour(img, Order(rect, fbWidth, idx)) else fb[idx]
    {
      if rect.Has(fbWidth, idx) {
        AtOrder(rect, fbWidth, idx);
      }
    }
  }

  lemma PaintDone(fb: seq<Pixel>, fb': seq<Pixel>, fbWidth: nat, rect: Rect, img: seq<Byte>)
    requires fbWidth > 0 && PaintedUpTo(fb, fb', fbWidth, rect, img, rect.width * rect.height)
    ensures fb' == Painted(fb, fbWidth, rect, img)
  {
    hide Colour;
    forall idx | 0 <= idx < |fb|
      ensures fb'[idx] == Painted(fb, fbWidth, rect, img)[idx]
    {
      if rect.Has(fbWidth, idx) {
        AtOrder(rect, fbWidth, idx);
      }
    }
  }

  lemma ColourOf(fb: seq<Pixel>, fbWidth: nat, fbHeight: nat, rect: Rect, idx: nat)
    requires rect.Fits(fbWidth, fbHeight) && |fb| == fbWidth * fbHeight && fbWidth > 0
    requires rect.Has(fbWidth, idx) && idx < |fb| && rect.width > 0
    ensures Colour(RectBytes(fb, fbWidth, rect), Order(rect, fbWidth, idx))
              == Pixel(fb[idx].r, fb[idx].g, fb[idx].b, 255)
  {
    AtOrder(rect, fbWidth, idx);
    Channels(fb, fbWidth, rect, Order(rect, fbWidth, idx));
    hide Channel, Order;
  }

  /**
    A rectangle saved from one framebuffer and drawn into another at the same place: the first
    one's colours with alpha 255 inside, the second one's pixels everywhere else.
   */
  lemma SavedAndRestored(fb: seq<Pixel>, other: seq<Pixel>, fbWidth: nat, fbHeight: nat, rect: Rect, idx: nat)
    requires rect.Fits(fbWidth, fbHeight) && 0 < rect.width < 10000 && 0 < rect.height < 10000
    requires fbWidth > 0 && |fb| == |other| == fbWidth * fbHeight && idx < |fb|
    ensures var img := RectBytes(fb, fbWidth, rect);
            && ParsePpm(PpmBytes(rect.width, rect.height, img)) == Loaded(rect.width, rect.height, img)
            && Painted(other, fbWidth, rect, img)[idx] ==
                 if rect.Has(fbWidth, idx) then Pixel(fb[idx].r, fb[idx].g, fb[idx].b, 255) else other[idx]
  {
    var img := RectBytes(fb, fbWidth, rect);
    hide Channel, Order, Colour, ParsePpm, PpmBytes;
    RoundTrip(rect.width, rect.height, img);
    if rect.Has(fbWidth, idx) {
      ColourOf(fb, fbWidth, fbHeight, rect, idx);
    }
  }

  /** Where ppm_write_fb's walk ends, in 32-bit arithmetic (src/drawing.c:78). */
  function WalkBound(rect: Rect, fbWidth: nat): nat {
    (fbWidth * (rect.height - 1) + rect.width + (rect.y * fbWidth + rect.x)) % WORD
  }

  /** The rectangles without pixels for which the walk starts all the same, into an image of no bytes. */
  predicate Overruns(rect: Rect, fbWidth: nat) {
    || (rect.width == 0 && rect.height >= 2)
    || (rect.height == 0 && rect.y * fbWidth + rect.x + rect.width < fbWidth)
  }

  lemma BoundSmall(rect: Rect, fbWidth: nat, fbHeight: nat)
    requires rect.Fits(fbWidth, fbHeight) && rect.height > 0
    ensures fbWidth * (rect.height - 1) + rect.width + (rect.y * fbWidth + rect.x) <= fbWidth * fbHeight
    ensures rect.height > 1 ==> fbWidth * (rect.height - 1) >= fbWidth
  {
    var h := rect.height - 1;
    Distribute(rect.y, h, fbWidth);
    Distribute(rect.y + h, 1, fbWidth);
    Times(rect.y + h + 1, fbHeight, fbWidth);
    if h > 0 { Times(1, h, fbWidth); }
  }

  lemma BoundFacts(rect: Rect, fbWidth: nat, fbHeight: nat)
    requires rect.Fits(fbWidth, fbHeight) && 0 < fbWidth < WORD / 2 && 3 * (fbWidth * fbHeight) < WORD
    ensures rect.height > 0 ==>
              WalkBound(rect, fbWidth) == fbWidth * (rect.height - 1) + rect.width + (rect.y * fbWidth + rect.x)
    ensures rect.width == 0 || rect.height == 0 ==>
              (rect.y * fbWidth + rect.x < WalkBound(rect, fbWidth) <==> Overruns(rect, fbWidth))
  {
    Times(rect.y, fbHeight, fbWidth);
    if rect.height > 0 {
      BoundSmall(rect, fbWidth, fbHeight);
      WordMod(fbWidth * (rect.height - 1) + rect.width + (rect.y * fbWidth + rect.x));
    } else {
      WordMod(rect.y * fbWidth + rect.x + rect.width - fbWidth);
    }
  }

  lemma WordMod(x: int)
    ensures 0 <= x < WORD ==> x % WORD == x
    ensures -WORD <= x < 0 ==> x % WORD == x + WORD
  {
  }
}
