/**
  Pictures between the framebuffer and PPM files (src/drawing.c): the stream reads and writes,
  and the single-loop walk over a rectangle of the framebuffer.
 */
module Drawing {
  import opened Arithmetic
  import opened Options
  import opened PpmText
  import opened Rectangles

  function Reversed(s: seq<Byte>): seq<Byte> {
    if s == [] then [] else Reversed(s[1..]) + [s[0]]
  }

  lemma {:induction false} ReversedSnoc(s: seq<Byte>, c: Byte)
    ensures Reversed(s + [c]) == [c] + Reversed(s)
  {
    if s == [] {
      assert [c][1..] == [];
    } else {
      assert (s + [c])[1..] == s[1..] + [c];
      ReversedSnoc(s[1..], c);
    }
  }

  /** The digits of n, last one first, into the buffer (src/drawing.c:272-275); it overruns from the fifth digit on. */
  method FillDigits(buf: array<Byte>, n: nat) returns (idx: nat, overrun: bool)
    requires buf.Length == 4
    modifies buf
    ensures overrun <==> n >= 10000
    ensures !overrun ==> idx <= 4 && Reversed(buf[..idx]) == Decimal(n)
  {
    FitsBuffer(n);
    idx, overrun := 0, false;
    var m: nat := n;
    while m > 0
      invariant idx <= 4 && !overrun && |Decimal(n)| == |Decimal(m)| + idx
      invariant Decimal(n) == Decimal(m) + Reversed(buf[..idx])
    {
      if idx == buf.Length {
        overrun := true;
        return;
      }
      ghost var done := buf[..idx];
      buf[idx] := 48 + m % 10;
      assert buf[..idx + 1] == done + [48 + m % 10];
      ReversedSnoc(done, 48 + m % 10);
      idx := idx + 1;
      m := m / 10;
    }
    assert Decimal(0) + Reversed(buf[..idx]) == Reversed(buf[..idx]);
  }

  /** An open file: read and write move the position. */
  class Stream {
    var data: seq<Byte>
    var pos: nat

    constructor ()
      ensures data == [] && pos == 0
    {
      data, pos := [], 0;
    }

    /** write at the end of the file. */
    method Put(bytes: seq<Byte>)
      requires pos == |data|
      modifies this
      ensures data == old(data) + bytes && pos == |data|
    {
      data := data + bytes;
      pos := |data|;
    }

    /** write_integer (src/drawing.c:263-280); with five digits or more it runs past its buffer. */
    method WriteInteger(n: int) returns (overrun: bool)
      requires pos == |data|
      modifies this
      ensures overrun <==> n <= -10000 || 10000 <= n
      ensures !overrun ==> data == old(data) + Printed(n) && pos == |data|
    {
      hide Decimal, Reversed;
      var m := n;
      if n < 0 {
        Put([45]);
        m := -n;
      }
      var buf := new Byte[4](_ => 0);
      var digits;
      digits, overrun := FillDigits(buf, m);
      if overrun { return; }
      PrintDigits(buf, digits);
    }

    /** The digits, last of the buffer first (src/drawing.c:277-279). */
    method PrintDigits(buf: array<Byte>, digits: nat)
      requires digits <= buf.Length && pos == |data|
      modifies this
      ensures data == old(data) + Reversed(buf[..digits]) && pos == |data|
    {
      var idx := digits;
      while idx > 0
        invariant 0 <= idx <= digits && pos == |data|
        invariant data == old(data) + Reversed(buf[idx..digits])
      {
        assert buf[idx - 1..digits][1..] == buf[idx..digits];
        Put([buf[idx - 1]]);
        idx := idx - 1;
      }
      assert buf[0..digits] == buf[..digits];
    }

    /** read of one byte into c; at the end of the file c stays what it was. */
    method Get(c: Byte) returns (c': Byte)
      requires pos <= |data|
      modifies `pos
      ensures if old(pos) < |data| then c' == data[old(pos)] && pos == old(pos) + 1 else c' == c && pos == old(pos)
    {
      c' := c;
      if pos < |data| {
        c' := data[pos];
        pos := pos + 1;
      }
    }

    /** Reads up to the first digit (src/drawing.c:251-252); None where the loop never ends. */
    method FindDigit() returns (r: Option<Byte>)
      requires pos <= |data|
      modifies `pos
      ensures pos <= |data|
      ensures r.None? <==> SkipToDigit(data, old(pos)) == |data|
      ensures r.Some? ==> pos == SkipToDigit(data, old(pos)) + 1 && r.value == data[pos - 1]
    {
      if pos == |data| { return None; }
      var c := Get(0);
      while !IsDigit(c)
        invariant old(pos) < pos <= |data| && c == data[pos - 1]
        invariant SkipToDigit(data, old(pos)) == SkipToDigit(data, pos - 1)
        decreases |data| - pos
      {
        if pos == |data| { return None; }
        c := Get(c);
      }
      r := Some(c);
    }

    /** read_integer (src/drawing.c:247-261); None where it would loop for ever at the end of the file. */
    method ReadInteger() returns (r: Option<nat>)
      requires pos <= |data|
      modifies `pos
      ensures pos <= |data|
      ensures match ParseInteger(data, old(pos)) case None => r == None case Some(p) => r == Some(p.n) && pos == p.next
    {
      hide SkipToDigit, ValueOf;
      SkipBounds(data, pos);
      var n := 0;
      var first := FindDigit();
      if first.None? { return None; }
      var c := first.value;
      ghost var a := pos - 1;
      NoDigits();
      assert data[a..a] == [];
      while IsDigit(c)
        invariant a < pos <= |data| && c == data[pos - 1]
        invariant SkipDigits(data, a) == SkipDigits(data, pos - 1)
        invariant 0 <= n == ValueOf(data[a..pos - 1]) % WORD
        decreases |data| - pos
      {
        MoreDigits(data, a, pos, n);
        n := n * 10 % WORD;
        n := (n + (c as int - 48)) % WORD;
        if pos == |data| { return None; }
        c := Get(c);
      }
      r := Some(n);
    }

    /** ppm_write (src/drawing.c:33-49) into a new file; sizes that are not printable overrun write_integer's buffer. */
    method WritePpm(width: nat, height: nat, img: seq<Byte>) returns (overrun: bool)
      requires width < WORD && height < WORD && |img| == ImageSize(width, height)
      requires data == [] && pos == 0
      modifies this
      ensures overrun <==> !Printable(width) || !Printable(height)
      ensures !overrun ==> data == PpmBytes(width, height, img)
      ensures 0 < width < 10000 && 0 < height < 10000 ==>
                exists w: seq<Byte>, h: seq<Byte> ::
                  && Numeral(w, width) && Numeral(h, height)
                  && data == [80, 54, 10] + w + [32] + h + [10, 50, 53, 53, 10] + img
    {
      hide Printed, ToInt, Numeral;
      if 0 < width < 10000 && 0 < height < 10000 {
        SmallPrintable(width);
        SmallPrintable(height);
        WritesPpm(width, height, img);
      }
      Put(MAGIC);
      overrun := WriteInteger(ToInt(width));
      if overrun { return; }
      Put([32]);
      assert data == WidthPart(width);
      overrun := WriteInteger(ToInt(height));
      if overrun { return; }
      Put([10]);
      assert data == HeightPart(width, height);
      overrun := WriteInteger(255);
      PlainNumber(255);
      Put([10]);
      assert data == Header(width, height);
      Put(img);
    }

    /** ppm_read (src/drawing.c:10-31) of a file opened anew. */
    method ReadPpm() returns (r: Outcome)
      requires pos == 0
      modifies `pos
      ensures r == ParsePpm(data)
      ensures |data| < 3 || data[0] != 80 || data[1] != 54 || data[2] != 10 ==> r == Null
      ensures forall width: nat, height: nat, max: nat, img ::
                IsPpm(data, width, height, max, img) && width < WORD && height < WORD && max < WORD
                && |img| == width * height * 3 % WORD ==>
                  r == if max == 255 then Loaded(width, height, img) else Null
    {
      hide ParseInteger, IsPpm;
      if |data| < 3 || data[0] != 80 || data[1] != 54 || data[2] != 10 { RefusesOthers(data); }
      forall width: nat, height: nat, max: nat, img |
        IsPpm(data, width, height, max, img) && width < WORD && height < WORD && max < WORD
        && |img| == width * height * 3 % WORD
        ensures ParsePpm(data) == if max == 255 then Loaded(width, height, img) else Null
      {
        ReadsPpm(data, width, height, max, img);
      }
      var buf := if |data| < 3 then data else data[..3];
      pos := |buf|;
      if buf != MAGIC { return Null; }
      var w := ReadInteger();
      if w.None? { return Spins; }
      var h := ReadInteger();
      if h.None? { return Spins; }
      var m := ReadInteger();
      if m.None? { return Spins; }
      if m.value != 255 { return Null; }
      var size := w.value * h.value * 3 % WORD;
      r := Loaded(w.value, h.value, Fetch(data, pos, size));
    }
  }

  lemma SkipBounds(data: seq<Byte>, pos: nat)
    requires pos <= |data|
    ensures pos <= SkipToDigit(data, pos) <= |data|
  {
  }

  lemma NoDigits()
    ensures ValueOf([]) % WORD == 0
  {
  }

  lemma MoreDigits(data: seq<Byte>, a: nat, pos: nat, n: nat)
    requires a < pos <= |data| && IsDigit(data[pos - 1]) && n == ValueOf(data[a..pos - 1]) % WORD
    ensures 0 <= ValueOf(data[a..pos]) % WORD == (n * 10 % WORD + (data[pos - 1] as int - 48)) % WORD
  {
    assert data[a..pos] == data[a..pos - 1] + [data[pos - 1]];
    NextDigit(data[a..pos - 1], data[pos - 1], n);
  }

  lemma NextDigit(digits: seq<Byte>, c: Byte, n: nat)
    requires n == ValueOf(digits) % WORD && IsDigit(c)
    ensures ValueOf(digits + [c]) % WORD == (n * 10 % WORD + (c as int - 48)) % WORD
  {
    assert (digits + [c])[..|digits|] == digits;
    assert ValueOf(digits + [c]) == 10 * ValueOf(digits) + (c as int - 48);
    var v := ValueOf(digits);
    hide ValueOf;
    var p, r := n * 10 / WORD, n * 10 % WORD;
    SameRemainder(10 * v + (c as int - 48), 10 * (v / WORD) + p, r + (c as int - 48));
  }

  lemma SameRemainder(x: int, q: int, y: int)
    requires x == q * WORD + y
    ensures x % WORD == y % WORD
  {
  }

  /** The GPU's framebuffer (src/drawing.c:51-94). */
  class Framebuffer {
    const pixels: array<Pixel>
    const width: nat
    const height: nat

    /** Its size keeps every index and byte count of the walks below 2^32. */
    ghost predicate Valid() {
      0 < width < WORD / 2 && pixels.Length == width * height && 3 * pixels.Length < WORD
    }

    /**
      The walk of ppm_write_fb (src/drawing.c:76-89): the rectangle's bytes, row by row.  It runs
      past its image exactly for some rectangles without pixels.
     */
    method Capture(rect: Rect) returns (img: array<Byte>, overrun: bool)
      requires Valid() && rect.Fits(width, height)
      ensures fresh(img)
      ensures overrun <==> Overruns(rect, width)
      ensures !overrun && rect.width > 0 ==> img[..] == RectBytes(pixels[..], width, rect)
      ensures rect.width == 0 || rect.height == 0 ==> img.Length == 0
    {
      hide RectBytes, WalkBound, Overruns;
      RectCount(rect, width, height);
      BoundFacts(rect, width, height);
      NoOverrun(rect, width);
      var count := rect.width * rect.height;
      img, overrun := new Byte[3 * count](_ => 0), false;
      ghost var fb := pixels[..];
      var start, bound := rect.y * width + rect.x, WalkBound(rect, width);
      var i, j, idx := 0, 0, start;
      ghost var k := 0;
      if rect.width > 0 && rect.height > 0 {
        FirstPixel(rect, width);
        WalkEnds(rect, width, k);
      }
      while idx < bound
        invariant 0 <= k <= count && i == 3 * k && img.Length == 3 * count && !overrun
        invariant count == 0 ==> idx == start
        invariant count > 0 ==> j == k % rect.width && idx == rect.At(width, k) && (idx < bound <==> k < count)
        invariant rect.width > 0 ==> forall n :: 0 <= n < 3 * k ==> img[n] == Channel(fb, width, rect, n)
        decreases count - k
      {
        if i + 2 >= img.Length {
          overrun := true;
          return;
        }
        PixelInRange(rect, width, height, k);
        Channels(fb, width, rect, k);
        img[i] := pixels[idx].r;
        img[i + 1] := pixels[idx].g;
        img[i + 2] := pixels[idx].b;
        j, idx := Advance(rect, j, idx, k);
        i := i + 3;
        k := k + 1;
        WalkEnds(rect, width, k);
      }
      if rect.width > 0 { RectBytesAre(fb, width, rect, img[..]); }
    }

    /** The step of both walks: the next column, or the first one of the next row (src/drawing.c:60-64, 84-88). */
    method Advance(rect: Rect, j: nat, idx: nat, ghost k: nat) returns (j': nat, idx': nat)
      requires Valid() && rect.Fits(width, height) && k < rect.width * rect.height
      requires rect.width > 0 && j == k % rect.width && idx == rect.At(width, k)
      ensures j' == (k + 1) % rect.width && idx' == rect.At(width, k + 1)
    {
      NextPixel(rect, width, k);
      SmallWidth(rect, width, height);
      j', idx' := j, idx;
      if j + 1 == rect.width {
        idx' := idx' + (width - rect.width + 1);
        j' := WORD - 1;
      } else {
        idx' := idx' + 1;
      }
      j' := (j' + 1) % WORD;
    }

    /** The walk of ppm_read_fb (src/drawing.c:54-65). */
    method Paint(rect: Rect, img: seq<Byte>)
      requires Valid() && rect.Fits(width, height) && |img| == rect.width * rect.height * 3
      modifies pixels
      ensures pixels[..] == Painted(old(pixels[..]), width, rect, img)
    {
      hide Order, Colour, Painted, PaintedUpTo;
      RectCount(rect, width, height);
      ghost var fb := pixels[..];
      var i, j, idx := 0, 0, rect.y * width + rect.x;
      ghost var k := 0;
      if rect.width > 0 { FirstPixel(rect, width); }
      NothingPainted(fb, width, rect, img);
      while i < rect.width * rect.height * 3
        invariant 0 <= k <= rect.width * rect.height && i == 3 * k
        invariant rect.width > 0 ==> j == k % rect.width && idx == rect.At(width, k)
        invariant PaintedUpTo(fb, pixels[..], width, rect, img, k)
      {
        SomeWidth(rect, k);
        PaintNext(fb, pixels[..], width, height, rect, img, k);
        ghost var before := pixels[..];
        ColourIs(img, k);
        pixels[idx] := Pixel(img[i], img[i + 1], img[i + 2], 255);
        assert pixels[..] == before[idx := Colour(img, k)];
        j, idx := Advance(rect, j, idx, k);
        i := i + 3;
        k := k + 1;
      }
      PaintDone(fb, pixels[..], width, rect, img);
    }

    /** ppm_write_fb (src/drawing.c:71-94) into a new file. */
    method Save(file: Stream, rect: Rect) returns (overrun: bool)
      requires Valid() && rect.Fits(width, height)
      requires file.data == [] && file.pos == 0
      modifies file
      ensures overrun <==> Overruns(rect, width) || rect.width >= 10000 || rect.height >= 10000
      ensures !overrun && rect.width > 0 && rect.height > 0 ==>
                file.data == PpmBytes(rect.width, rect.height, RectBytes(pixels[..], width, rect))
      ensures !overrun && (rect.width == 0 || rect.height == 0) ==> file.data == PpmBytes(rect.width, rect.height, [])
    {
      hide RectBytes, Overruns, PpmBytes, ImageSize, Printable;
      var img;
      img, overrun := Capture(rect);
      if overrun { return; }
      SmallSizes(rect, width, height);
      RectLength(pixels[..], width, rect);
      overrun := file.WritePpm(rect.width, rect.height, img[..]);
    }

    /** ppm_read_fb (src/drawing.c:51-69) of a file opened anew, when its picture fits; false when there is none. */
    method Load(file: Stream, x: nat, y: nat) returns (ok: bool)
      requires Valid() && file.pos == 0
      requires var p := ParsePpm(file.data); p.Loaded? ==> Rect(x, y, p.width, p.height).Fits(width, height)
      modifies file`pos, pixels
      ensures ok <==> ParsePpm(file.data).Loaded?
      ensures var p := ParsePpm(file.data);
              pixels[..] == if p.Loaded? then Painted(old(pixels[..]), width, Rect(x, y, p.width, p.height), p.img)
                  else old(pixels[..])
    {
      hide ParsePpm, Painted;
      ghost var data := file.data;
      var p := file.ReadPpm();
      ok := p.Loaded?;
      if ok {
        LoadedSize(data);
        RectCount(Rect(x, y, p.width, p.height), width, height);
        Paint(Rect(x, y, p.width, p.height), p.img);
      }
    }
  }

  lemma PlainNumber(n: nat)
    ensures Printed(n) == Decimal(n)
  {
  }

  lemma NoOverrun(rect: Rect, fbWidth: nat)
    ensures rect.width > 0 && rect.height > 0 ==> !Overruns(rect, fbWidth) && rect.width * rect.height > 0
    ensures rect.width == 0 || rect.height == 0 ==> rect.width * rect.height == 0
  {
  }

  /** The sizes of a rectangle of the framebuffer are printable exactly below 10000. */
  lemma SmallSizes(rect: Rect, fbWidth: nat, fbHeight: nat)
    requires rect.Fits(fbWidth, fbHeight) && 0 < fbWidth < WORD / 2 && 3 * (fbWidth * fbHeight) < WORD
    ensures rect.width < WORD && rect.height < WORD
    ensures ImageSize(rect.width, rect.height) == 3 * (rect.width * rect.height)
    ensures rect.width == 0 || rect.height == 0 ==> rect.width * rect.height == 0
    ensures Printable(rect.width) <==> rect.width < 10000
    ensures Printable(rect.height) <==> rect.height < 10000
  {
    RectCount(rect, fbWidth, fbHeight);
    Times(1, fbWidth, fbHeight);
    ThreeBytes(rect.width * rect.height);
    PrintableBelow(rect.width);
    PrintableBelow(rect.height);
    hide Printable;
  }

  lemma SmallPrintable(size: nat)
    requires size < 10000
    ensures Printable(size)
  {
  }

  lemma PrintableBelow(size: nat)
    requires size < WORD / 2
    ensures Printable(size) <==> size < 10000
  {
  }

  lemma RectLength(fb: seq<Pixel>, fbWidth: nat, rect: Rect)
    ensures rect.width > 0 ==> |RectBytes(fb, fbWidth, rect)| == 3 * (rect.width * rect.height)
  {
  }

  lemma SomeWidth(rect: Rect, k: nat)
    requires k < rect.width * rect.height
    ensures rect.width > 0
  {
  }

  lemma SmallWidth(rect: Rect, fbWidth: nat, fbHeight: nat)
    requires rect.Fits(fbWidth, fbHeight) && rect.height > 0 && 3 * (fbWidth * fbHeight) < WORD
    ensures rect.width < WORD
  {
    RectCount(rect, fbWidth, fbHeight);
    Times(1, rect.height, rect.width);
  }

  lemma ColourIs(img: seq<Byte>, k: nat)
    requires 3 * k + 2 < |img|
    ensures Colour(img, k) == Pixel(img[3 * k], img[3 * k + 1], img[3 * k + 2], 255)
  {
  }

  lemma NothingPainted(fb: seq<Pixel>, fbWidth: nat, rect: Rect, img: seq<Byte>)
    requires fbWidth > 0
    ensures PaintedUpTo(fb, fb, fbWidth, rect, img, 0)
  {
    hide Colour;
  }

  lemma LoadedSize(data: seq<Byte>)
    ensures var p := ParsePpm(data); p.Loaded? ==> |p.img| == p.width * p.height * 3 % WORD
  {
  }
}
