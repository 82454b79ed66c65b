/**
  The PPM file format as src/drawing.c prints and parses it: decimal integers, the header, and
  that parsing undoes printing.
 */
module PpmText {
  import opened Arithmetic
  import opened Options
  import BlockStore

  type Byte = BlockStore.Byte

  const WORD := 0x1_0000_0000

  datatype Parsed = Parsed(n: nat, next: nat)

  predicate IsDigit(c: Byte) {
    48 <= c <= 57
  }

  /** The digits write_integer prints for n > 0; for 0 it prints none (src/drawing.c:272-279). */
  function Decimal(n: nat): seq<Byte> {
    if n == 0 then [] else Decimal(n / 10) + [48 + n % 10]
  }

  function ValueOf(digits: seq<Byte>): int {
    if digits == [] then 0 else 10 * ValueOf(digits[..|digits| - 1]) + (digits[|digits| - 1] as int - 48)
  }

  lemma {:induction false} DecimalDigits(n: nat)
    ensures forall i :: 0 <= i < |Decimal(n)| ==> IsDigit(Decimal(n)[i])
    ensures ValueOf(Decimal(n)) == n
    ensures n > 0 ==> |Decimal(n)| > 0
  {
    if n > 0 {
      DecimalDigits(n / 10);
      assert Decimal(n)[..|Decimal(n)| - 1] == Decimal(n / 10);
    }
  }

  function Pow10(k: nat): nat {
    if k == 0 then 1 else 10 * Pow10(k - 1)
  }

  lemma {:induction false} DecimalLength(n: nat, k: nat)
    ensures |Decimal(n)| <= k <==> n < Pow10(k)
  {
    if n > 0 && k > 0 {
      DecimalLength(n / 10, k - 1);
    } else if n == 0 {
      Pow10Positive(k);
    }
  }

  lemma {:induction false} Pow10Positive(k: nat)
    ensures Pow10(k) > 0
  {
    if k > 0 { Pow10Positive(k - 1); }
  }

  /** write_integer's buffer holds four digits, and exactly the numbers below 10000 have no more. */
  lemma FitsBuffer(n: nat)
    ensures |Decimal(n)| <= 4 <==> n < 10000
  {
    DecimalLength(n, 4);
    assert Pow10(2) == 100;
  }

  /** The first digit from pos on, or the end. */
  function SkipToDigit(data: seq<Byte>, pos: nat): (a: nat)
    requires pos <= |data|
    ensures pos <= a <= |data| && (a < |data| ==> IsDigit(data[a]))
    ensures forall i :: pos <= i < a ==> !IsDigit(data[i])
    decreases |data| - pos
  {
    if pos == |data| || IsDigit(data[pos]) then pos else SkipToDigit(data, pos + 1)
  }

  /** The first byte from pos on that is no digit, or the end. */
  function SkipDigits(data: seq<Byte>, pos: nat): (b: nat)
    requires pos <= |data|
    ensures pos <= b <= |data| && (b < |data| ==> !IsDigit(data[b]))
    ensures forall i :: pos <= i < b ==> IsDigit(data[i])
    decreases |data| - pos
  {
    if pos == |data| || !IsDigit(data[pos]) then pos else SkipDigits(data, pos + 1)
  }

  /**
    read_integer from pos (src/drawing.c:247-261): the number and the position behind the byte
    that ended it.  At the end of the file read leaves the character as it was, so the function
    never returns if no digit follows or the digits run to the end: None.
   */
  function ParseInteger(data: seq<Byte>, pos: nat): (r: Option<Parsed>)
    requires pos <= |data|
    ensures r.Some? ==> r.value.next <= |data|
  {
    var a := SkipToDigit(data, pos);
    var b := SkipDigits(data, a);
    if a == |data| || b == |data| then None
    else Some(Parsed(ValueOf(data[a..b]) % WORD, b + 1))
  }

  /** A number is found exactly where digits, after no others, end before the file does. */
  lemma ParseIntegerIs(data: seq<Byte>, pos: nat, a: nat, b: nat)
    requires pos <= a < b < |data|
    requires forall i :: pos <= i < a ==> !IsDigit(data[i])
    requires forall i :: a <= i < b ==> IsDigit(data[i])
    requires !IsDigit(data[b])
    ensures ParseInteger(data, pos) == Some(Parsed(ValueOf(data[a..b]) % 4294967296, b + 1))
  {
    var a', b' := SkipToDigit(data, pos), SkipDigits(data, a);
    assert a' == a;
    assert b' == b;
  }

  /** Without a digit there is no number. */
  lemma ParseNothing(data: seq<Byte>, pos: nat)
    requires pos <= |data| && forall i :: pos <= i < |data| ==> !IsDigit(data[i])
    ensures ParseInteger(data, pos) == None
  {
  }

  /** What read_integer makes of digits followed by a byte that is none. */
  lemma ParseDigits(data: seq<Byte>, pos: nat, head: seq<Byte>, digits: seq<Byte>, end: Byte)
    requires digits != [] && (forall i :: 0 <= i < |digits| ==> IsDigit(digits[i])) && !IsDigit(end)
    requires head + digits + [end] <= data
    requires pos <= |head| && forall i :: pos <= i < |head| ==> !IsDigit(head[i])
    ensures pos <= |data|
    ensures ParseInteger(data, pos) == Some(Parsed(ValueOf(digits) % WORD, |head + digits + [end]|))
  {
    hide IsDigit, ValueOf;
    var start := head + digits + [end];
    var a, b := |head|, |head| + |digits|;
    assert data[..|start|] == start;
    assert data[a..b] == start[a..b] == digits;
    assert data[b] == start[b] == end;
    forall i | pos <= i < a
      ensures !IsDigit(data[i])
    {
      assert data[i] == start[i] == head[i];
    }
    forall i | a <= i < b
      ensures IsDigit(data[i])
    {
      assert data[i] == start[i] == digits[i - a];
    }
    ParseIntegerIs(data, pos, a, b);
  }

  /** It reads back a printed number. */
  lemma ParsePrinted(data: seq<Byte>, pos: nat, head: seq<Byte>, n: nat, end: Byte)
    requires 0 < n < WORD && !IsDigit(end) && head + Decimal(n) + [end] <= data
    requires pos <= |head| && forall i :: pos <= i < |head| ==> !IsDigit(head[i])
    ensures pos <= |data| && ParseInteger(data, pos) == Some(Parsed(n, |head + Decimal(n) + [end]|))
  {
    DecimalDigits(n);
    hide IsDigit, ValueOf, Decimal, ParseInteger;
    ParseDigits(data, pos, head, Decimal(n), end);
  }

  const MAGIC: seq<Byte> := [80, 54, 10]

  /** What write_integer prints. */
  function Printed(n: int): seq<Byte> {
    if n < 0 then [45] + Decimal(-n) else Decimal(n)
  }

  /** The header up to and including the width, the height, the maximal value; sizes are passed as int. */
  function WidthPart(width: nat): seq<Byte> {
    MAGIC + Printed(ToInt(width)) + [32]
  }

  function HeightPart(width: nat, height: nat): seq<Byte> {
    WidthPart(width) + Printed(ToInt(height)) + [10]
  }

  function Header(width: nat, height: nat): seq<Byte> {
    HeightPart(width, height) + Decimal(255) + [10]
  }

  /** The file ppm_write leaves (src/drawing.c:33-49). */
  function PpmBytes(width: nat, height: nat, img: seq<Byte>): seq<Byte> {
    Header(width, height) + img
  }

  /** The 32-bit sizes write_integer's buffer has room for. */
  predicate Printable(size: nat) {
    size < WORD && -10000 < ToInt(size) < 10000
  }

  /** Spins: read_integer never returns.  Null: the file is refused. */
  datatype Outcome = Spins | Null | Loaded(width: nat, height: nat, img: seq<Byte>)

  /** read(fd, img, size) into a zeroed buffer. */
  function Fetch(data: seq<Byte>, pos: nat, size: nat): (img: seq<Byte>)
    requires pos <= |data|
    ensures |img| == size
  {
    if pos + size <= |data| then data[pos..pos + size]
    else data[pos..] + seq(size - (|data| - pos), _ => 0)
  }

  /** The bytes of an image, in 32-bit arithmetic. */
  function ImageSize(width: nat, height: nat): nat {
    width * height * 3 % WORD
  }

  /** ppm_read (src/drawing.c:10-31). */
  function ParsePpm(data: seq<Byte>): Outcome {
    if !(MAGIC <= data) then Null
    else match ParseInteger(data, 3)
      case None => Spins
      case Some(w) =>
        match ParseInteger(data, w.next)
        case None => Spins
        case Some(h) =>
          match ParseInteger(data, h.next)
          case None => Spins
          case Some(m) =>
            if m.n != 255 then Null
            else Loaded(w.n, h.n, Fetch(data, m.next, ImageSize(w.n, h.n)))
  }

  lemma HeaderParts(width: nat, height: nat, img: seq<Byte>)
    ensures var data := PpmBytes(width, height, img);
            && MAGIC <= data && WidthPart(width) <= data && HeightPart(width, height) <= data
            && Header(width, height) <= data && data[|Header(width, height)|..] == img
  {
    hide Printed, Decimal;
  }

  lemma Terminators()
    ensures !IsDigit(32) && !IsDigit(10) && !IsDigit(45) && |MAGIC| == 3
  {
  }

  function Abs(n: int): nat {
    if n < 0 then -n else n
  }

  /** A printed size is read back without its sign. */
  lemma ParseSize(data: seq<Byte>, pos: nat, head: seq<Byte>, n: int, end: Byte)
    requires 0 < Abs(n) < WORD && !IsDigit(end) && head + Printed(n) + [end] <= data
    requires pos <= |head| && forall i :: pos <= i < |head| ==> !IsDigit(head[i])
    ensures pos <= |data| && ParseInteger(data, pos) == Some(Parsed(Abs(n), |head + Printed(n) + [end]|))
  {
    hide Decimal, IsDigit, ParseInteger;
    Terminators();
    if n < 0 {
      assert head + Printed(n) + [end] == (head + [45]) + Decimal(-n) + [end];
      ParsePrinted(data, pos, head + [45], -n, end);
    } else {
      ParsePrinted(data, pos, head, n, end);
    }
  }

  /** A picture without a size of 0 is read back with the magnitudes of its sizes. */
  lemma ReadBack(width: nat, height: nat, img: seq<Byte>)
    requires Printable(width) && Printable(height) && width > 0 && height > 0
    ensures ParsePpm(PpmBytes(width, height, img)) ==
            var w, h := Abs(ToInt(width)), Abs(ToInt(height));
            Loaded(w, h, Fetch(img, 0, ImageSize(w, h)))
  {
    hide Decimal, Printed, IsDigit, ParseInteger, Abs, ImageSize, ToInt;
    var data := PpmBytes(width, height, img);
    Terminators();
    HeaderParts(width, height, img);
    SizeNotZero(width);
    SizeNotZero(height);
    ParseSize(data, 3, MAGIC, ToInt(width), 32);
    ParseSize(data, |WidthPart(width)|, WidthPart(width), ToInt(height), 10);
    ParsePrinted(data, |HeightPart(width, height)|, HeightPart(width, height), 255, 10);
    hide PpmBytes, Header;
    FetchShift(data, |Header(width, height)|, ImageSize(Abs(ToInt(width)), Abs(ToInt(height))));
  }

  lemma SizeNotZero(size: nat)
    requires Printable(size) && size > 0
    ensures 0 < Abs(ToInt(size)) < 10000
  {
  }

  lemma FetchShift(data: seq<Byte>, m: nat, size: nat)
    requires m <= |data|
    ensures Fetch(data, m, size) == Fetch(data[m..], 0, size)
  {
  }

  /** Reading back what was written gives the picture, for all sizes from 1 to 9999. */
  lemma RoundTrip(width: nat, height: nat, img: seq<Byte>)
    requires 0 < width < 10000 && 0 < height < 10000 && |img| == width * height * 3
    ensures ParsePpm(PpmBytes(width, height, img)) == Loaded(width, height, img)
  {
    hide PpmBytes, ParsePpm, ImageSize, ToInt, Abs, Fetch, Printable;
    Positive(width);
    Positive(height);
    ReadBack(width, height, img);
    SmallImage(width, height);
    FetchAll(img);
  }

  lemma Positive(size: nat)
    requires size < 10000
    ensures Printable(size) && ToInt(size) == size && Abs(size) == size
  {
  }

  lemma FetchAll(img: seq<Byte>)
    ensures Fetch(img, 0, |img|) == img
  {
  }

  lemma SmallImage(width: nat, height: nat)
    requires width < 10000 && height < 10000
    ensures ImageSize(width, height) == width * height * 3
  {
    SmallArea(width, height);
    ThreeBytes(width * height);
  }

  lemma SmallArea(width: nat, height: nat)
    requires width < 10000 && height < 10000
    ensures width * height <= 10000 * 10000
  {
    Times(width, 10000, height);
    assert 10000 * height <= 10000 * 10000;
  }

  lemma ThreeBytes(area: nat)
    requires 3 * area < WORD
    ensures area * 3 % WORD == 3 * area
  {
  }

  /**
    For all 32-bit sizes that write_integer can print, the picture comes back if and only if both
    are between 1 and 9999.  A size of 0 prints no digits, so the maximal value is read in its
    place and ppm_read never returns; a size passed on as a negative int loses its sign.
   */
  lemma RoundTripIff(width: nat, height: nat, img: seq<Byte>)
    requires Printable(width) && Printable(height) && |img| == ImageSize(width, height)
    ensures ParsePpm(PpmBytes(width, height, img)) == Loaded(width, height, img) <==>
            0 < width < 10000 && 0 < height < 10000
    ensures width == 0 || height == 0 ==> ParsePpm(PpmBytes(width, height, img)) == Spins
  {
    if width == 0 || height == 0 {
      EmptySpins(width, height, img);
    } else {
      hide PpmBytes, ParsePpm, Fetch, ToInt, Abs, Printable, ImageSize;
      ReadBack(width, height, img);
      SignLost(width);
      SignLost(height);
      if width < 10000 && height < 10000 {
        SmallImage(width, height);
        RoundTrip(width, height, img);
      }
    }
  }

  lemma SignLost(size: nat)
    requires Printable(size)
    ensures Abs(ToInt(size)) == size <==> size < 10000
  {
  }

  lemma EmptySpins(width: nat, height: nat, img: seq<Byte>)
    requires Printable(width) && Printable(height) && |img| == ImageSize(width, height)
    requires width == 0 || height == 0
    ensures ParsePpm(PpmBytes(width, height, img)) == Spins
  {
    hide Decimal, Printed, IsDigit, ParseInteger, Abs;
    NoImage(width, height);
    hide ImageSize;
    Terminators();
    HeaderParts(width, height, img);
    NoDigitsOfZero();
    var data := PpmBytes(width, height, img);
    var pos := if width > 0 then |WidthPart(width)| else 3;
    if width > 0 {
      SizeNotZero(width);
      ParseSize(data, 3, MAGIC, ToInt(width), 32);
    }
    if height > 0 {
      SizeNotZero(height);
      ParseSize(data, pos, WidthPart(width), ToInt(height), 10);
    }
    var pos' := if height > 0 then |HeightPart(width, height)| else pos;
    ParsePrinted(data, pos', HeightPart(width, height), 255, 10);
    ParseNothing(data, |data|);
  }

  lemma NoImage(width: nat, height: nat)
    ensures width == 0 || height == 0 ==> ImageSize(width, height) == 0
  {
  }

  /** The file written for an empty picture is never read. */
  lemma EmptyPicture()
    ensures ParsePpm(PpmBytes(0, 0, [])) == Spins
  {
    RoundTripIff(0, 0, []);
    hide ParsePpm, PpmBytes;
  }

  lemma NoDigitsOfZero()
    ensures Printed(0) == [] && ToInt(0) == 0
  {
  }

  /** A decimal number as people write it: digits only, without leading zeros. */
  ghost predicate Numeral(digits: seq<Byte>, n: nat) {
    && digits != [] && digits[0] != 48 && (forall i :: 0 <= i < |digits| ==> 48 <= digits[i] <= 57)
    && ValueOf(digits) == n
  }

  lemma {:induction false} DecimalNumeral(n: nat)
    requires n > 0
    ensures Numeral(Decimal(n), n)
  {
    DecimalDigits(n);
    if n >= 10 {
      DecimalNumeral(n / 10);
    } else {
      assert Decimal(n / 10) == [];
    }
  }

  /** The bytes of a PPM file: "P6", the width, the height, the maximal value, the image. */
  ghost predicate IsPpm(data: seq<Byte>, width: nat, height: nat, max: nat, img: seq<Byte>) {
    exists w: seq<Byte>, h: seq<Byte>, m: seq<Byte> ::
      && Numeral(w, width) && Numeral(h, height) && Numeral(m, max)
      && data == [80, 54, 10] + w + [32] + h + [10] + m + [10] + img
  }

  /** ppm_write's file is one, with 255 as the maximal value. */
  lemma WritesPpm(width: nat, height: nat, img: seq<Byte>)
    requires 0 < width < 10000 && 0 < height < 10000
    ensures IsPpm(PpmBytes(width, height, img), width, height, 255, img)
    ensures exists w: seq<Byte>, h: seq<Byte> ::
              && Numeral(w, width) && Numeral(h, height)
              && PpmBytes(width, height, img) == [80, 54, 10] + w + [32] + h + [10, 50, 53, 53, 10] + img
  {
    hide Decimal, Numeral;
    DecimalNumeral(width);
    DecimalNumeral(height);
    DecimalNumeral(255);
    MaximalDigits();
    PlainSize(width);
    PlainSize(height);
    var w, h, data := Decimal(width), Decimal(height), PpmBytes(width, height, img);
    assert data == [80, 54, 10] + w + [32] + h + [10] + Decimal(255) + [10] + img;
    assert data == [80, 54, 10] + w + [32] + h + [10, 50, 53, 53, 10] + img;
  }

  lemma MaximalDigits()
    ensures Decimal(255) == [50, 53, 53]
  {
    assert Decimal(2) == [50];
    assert Decimal(25) == [50, 53];
  }

  lemma PlainSize(size: nat)
    requires size < 10000
    ensures Printed(ToInt(size)) == Decimal(size)
  {
    hide Decimal, ToInt;
    Positive(size);
  }

  /** ppm_read loads any such file with the image bytes its sizes ask for, if its maximal value is 255. */
  lemma ReadsPpm(data: seq<Byte>, width: nat, height: nat, max: nat, img: seq<Byte>)
    requires IsPpm(data, width, height, max, img) && width < WORD && height < WORD && max < WORD
    requires |img| == ImageSize(width, height)
    ensures ParsePpm(data) == if max == 255 then Loaded(width, height, img) else Null
  {
    hide Numeral, ParseInteger, ImageSize, IsDigit, ValueOf;
    var w: seq<Byte>, h: seq<Byte>, m: seq<Byte> :|
      && Numeral(w, width) && Numeral(h, height) && Numeral(m, max)
      && data == [80, 54, 10] + w + [32] + h + [10] + m + [10] + img;
    Terminators();
    NumeralParts(w, width);
    NumeralParts(h, height);
    NumeralParts(m, max);
    var head: seq<Byte> := [80, 54, 10];
    var start1 := head + w + [32];
    var start2 := start1 + h + [10];
    var start3 := start2 + m + [10];
    assert data == start3 + img && data[|start3|..] == img;
    assert head <= data && start1 <= data && start2 <= data && start3 <= data;
    ParseDigits(data, 3, head, w, 32);
    ParseDigits(data, |start1|, start1, h, 10);
    ParseDigits(data, |start2|, start2, m, 10);
    FetchShift(data, |start3|, |img|);
    FetchAll(img);
  }

  /** Sizes from 2^31 on are passed on as negative numbers and printed with a minus sign. */
  lemma NegativeSize(n: nat)
    requires 0 < n <= 2147483648
    ensures Printed(ToInt(4294967296 - n)) == [45] + Decimal(n)
  {
    hide Decimal, ToInt;
    HighWord(n);
  }

  lemma HighWord(n: nat)
    requires 0 < n <= 2147483648
    ensures ToInt(4294967296 - n) + n == 0
  {
  }

  lemma NumeralParts(digits: seq<Byte>, n: nat)
    requires Numeral(digits, n) && n < WORD
    ensures digits != [] && (forall i :: 0 <= i < |digits| ==> IsDigit(digits[i])) && ValueOf(digits) % WORD == n
  {
  }

  lemma BeginsP6(data: seq<Byte>)
    requires MAGIC <= data
    ensures |data| >= 3 && data[0] == 80 && data[1] == 54 && data[2] == 10
  {
    assert data[0] == MAGIC[0] && data[1] == MAGIC[1] && data[2] == MAGIC[2];
  }

  /** A file that does not begin with "P6" and a line end is refused. */
  lemma RefusesOthers(data: seq<Byte>)
    requires |data| < 3 || data[0] != 80 || data[1] != 54 || data[2] != 10
    ensures ParsePpm(data) == Null
  {
    if MAGIC <= data { BeginsP6(data); }
  }
}
