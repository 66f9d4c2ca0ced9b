/** The bitmap decoders of bmpread. A pointer into the output buffer is an index; the file is the bytes from
    the start of the pixel data on. */
module Bmp {
  import opened Common
  import opened Bits

  datatype Color = Color(red: byte, green: byte, blue: byte)

  /** GetLineLength, where `sizeMax` is the greatest `size_t`. */
  function GetLineLength(width: nat, bpp: nat, sizeMax: nat): (r: nat)
    requires bpp > 0
  {
    var bits := width * bpp;
    var padBits := (32 - bits % 32) % 32;
    if width > sizeMax / bpp || bits > sizeMax - padBits then 0 else (bits + padBits) / 8
  }

  /** The least multiple of 4 bytes that holds all the bits of a line; 0 when the bits are too many for a
      `size_t`. */
  lemma LineLengthIs(width: nat, bpp: nat, sizeMax: nat)
    requires bpp > 0 && width > 0
    ensures var r, bits := GetLineLength(width, bpp, sizeMax), width * bpp;
            && (r == 0 <==> bits + (32 - bits % 32) % 32 > sizeMax)
            && (r != 0 ==> r % 4 == 0 && 8 * r >= bits && forall n :: n % 4 == 0 && 8 * n >= bits ==> r <= n)
  {
    var bits := width * bpp;
    assert bits > 0;
    Quotient(sizeMax, bpp, width);
    LeastPadded(bits);
  }

  lemma LeastPadded(bits: nat)
    requires bits > 0
    ensures var r := (bits + (32 - bits % 32) % 32) / 8;
            r > 0 && r % 4 == 0 && 8 * r >= bits && forall n :: n % 4 == 0 && 8 * n >= bits ==> r <= n
  {
    var k := (bits + 31) / 32;
    assert bits + (32 - bits % 32) % 32 == 32 * k;
    assert 32 * k / 8 == 4 * k;
    forall n | n % 4 == 0 && 8 * n >= bits ensures 4 * k <= n {
      var m := n / 4;
      assert n == 4 * m && 32 * m >= bits;
    }
  }

  lemma Quotient(a: nat, b: nat, c: nat)
    requires b > 0
    ensures c > a / b <==> c * b > a
  {
    var q := a / b;
    assert a == q * b + a % b;
    if c > q {
      Monotone(q + 1, c, b);
      assert (q + 1) * b == q * b + b;
    } else {
      Monotone(c, q, b);
    }
  }

  lemma Monotone(x: int, y: int, b: nat)
    requires x <= y
    ensures x * b <= y * b
  {
    assert y * b == x * b + (y - x) * b;
  }

  /** The byte and the bit in it, counted from the uppermost one, where field `x` of `bpp` bits begins. */
  function FieldByte(bpp: nat, x: nat): (i: nat) {
    if bpp == 1 then x / 8 else if bpp == 4 then x / 2 else x
  }

  function FieldBit(bpp: nat, x: nat): (i: nat)
    ensures bpp in {1, 4, 8} ==> bpp + i <= 8
  {
    if bpp == 1 then x % 8 else if bpp == 4 then 4 * (x % 2) else 0
  }

  /** The fields follow each other without a gap. */
  lemma FieldPosition(bpp: nat, x: nat)
    requires bpp in {1, 4, 8}
    ensures 8 * FieldByte(bpp, x) + FieldBit(bpp, x) == x * bpp
  {
  }

  function Field(file: seq<byte>, bpp: nat, x: nat): (v: nat)
    requires bpp in {1, 4, 8} && FieldByte(bpp, x) < |file|
  {
    file[FieldByte(bpp, x)] / Pow2(8 - bpp - FieldBit(bpp, x)) % Pow2(bpp)
  }

  predicate Holds(file: seq<byte>, bpp: nat, width: nat) {
    bpp in {1, 4, 8, 24} && width * bpp <= 8 * |file|
  }

  predicate Colors(palette: seq<Color>, bpp: nat) {
    bpp in {1, 4, 8} ==> |palette| == Pow2(bpp)
  }

  /** The color of pixel `x`. */
  function Pixel(file: seq<byte>, bpp: nat, palette: seq<Color>, x: nat): (c: Color)
    requires Holds(file, bpp, x + 1) && Colors(palette, bpp)
  {
    if bpp == 24 then Color(file[3 * x + 2], file[3 * x + 1], file[3 * x])
    else
      assert FieldByte(bpp, x) < |file| && Pow2(bpp) > 0;
      palette[Field(file, bpp, x)]
  }

  function Rgb(c: Color): (s: seq<byte>) {
    [c.red, c.green, c.blue]
  }

  /** The bytes of the first `n` pixels of a line. */
  function Pixels(file: seq<byte>, bpp: nat, palette: seq<Color>, n: nat): (s: seq<byte>)
    requires Holds(file, bpp, n) && Colors(palette, bpp)
    ensures |s| == 3 * n
  {
    if n == 0 then [] else Pixels(file, bpp, palette, n - 1) + Rgb(Pixel(file, bpp, palette, n - 1))
  }

  lemma Pow2Small()
    ensures Pow2(0) == 1 && Pow2(1) == 2 && Pow2(2) == 4 && Pow2(3) == 8 && Pow2(4) == 16
    ensures Pow2(5) == 32 && Pow2(6) == 64 && Pow2(7) == 128 && Pow2(8) == 256
  {
  }

  /** `a` with the first pixels of the line put between `p0` and `p`, and nothing else changed. */
  ghost predicate Decoded(a0: seq<byte>, a: seq<byte>, p0: nat, x: nat, end: nat, file: seq<byte>, bpp: nat,
                          palette: seq<Color>) {
    && |a| == |a0| && p0 + 3 * x <= end <= |a| && Holds(file, bpp, x) && Colors(palette, bpp)
    && a[..p0] == a0[..p0] && a[p0..p0 + 3 * x] == Pixels(file, bpp, palette, x) && a[end..] == a0[end..]
  }

  lemma DecodedNext(a0: seq<byte>, a: seq<byte>, a': seq<byte>, p0: nat, x: nat, end: nat, file: seq<byte>, bpp: nat,
                    palette: seq<Color>)
    requires Decoded(a0, a, p0, x, end, file, bpp, palette) && p0 + 3 * x < end && (end - p0) % 3 == 0
    requires Holds(file, bpp, x + 1)
    requires var p := p0 + 3 * x; p + 3 <= |a| && a' == a[..p] + Rgb(Pixel(file, bpp, palette, x)) + a[p + 3..]
    ensures Decoded(a0, a', p0, x + 1, end, file, bpp, palette)
  {
    hide Pixel;
    var p := p0 + 3 * x;
    assert p + 3 <= end;
    assert a'[p0..p + 3] == a[p0..p] + Rgb(Pixel(file, bpp, palette, x));
    assert a'[end..] == a[end..];
  }

  /** The color of pixel `x` put behind the pixels before it. */
  method PutPixel(a: array<byte>, p: nat, c: Color, ghost a0: seq<byte>, ghost p0: nat, ghost x: nat, ghost end: nat,
                  ghost file: seq<byte>, ghost bpp: nat, ghost palette: seq<Color>)
    requires Decoded(a0, a[..], p0, x, end, file, bpp, palette) && p == p0 + 3 * x < end <= a.Length
    requires (end - p0) % 3 == 0
    requires Colors(palette, bpp) && Holds(file, bpp, x + 1) && c == Pixel(file, bpp, palette, x)
    modifies a
    ensures Decoded(a0, a[..], p0, x + 1, end, file, bpp, palette)
  {
    hide Decoded, Pixel;
    ghost var before := a[..];
    a[p] := c.red;
    a[p + 1] := c.green;
    a[p + 2] := c.blue;
    assert a[..] == before[..p] + Rgb(c) + before[p + 3..];
    DecodedNext(a0, before, a[..], p0, x, end, file, bpp, palette);
  }

  /** Decode24. */
  method Decode24(a: array<byte>, p0: nat, end: nat, file: seq<byte>, palette: seq<Color>, ghost width: nat)
    requires end == p0 + 3 * width && end <= a.Length && Holds(file, 24, width)
    modifies a
    ensures Decoded(old(a[..]), a[..], p0, width, end, file, 24, palette)
    ensures forall x :: 0 <= x < width ==> PixelShown(a[..], p0, file, 0, 24, palette, x)
  {
    hide PixelShown, Decoded;
    var p, f := p0, 0;
    ghost var a0, x := a[..], 0;
    DecodedNone(a0, p0, end, file, 24, palette);
    while p < end
      invariant x <= width && p == p0 + 3 * x && f == 3 * x
      invariant Decoded(a0, a[..], p0, x, end, file, 24, palette)
    {
      PutPixel(a, p, Color(file[f + 2], file[f + 1], file[f]), a0, p0, x, end, file, 24, palette);
      p, f, x := p + 3, f + 3, x + 1;
    }
    assert x == width;
    DecodedShown(a0, a[..], p0, width, end, file, 24, palette);
  }

  lemma DecodedNone(a: seq<byte>, p0: nat, end: nat, file: seq<byte>, bpp: nat, palette: seq<Color>)
    requires p0 <= end <= |a| && Holds(file, bpp, 0) && Colors(palette, bpp)
    ensures Decoded(a, a, p0, 0, end, file, bpp, palette)
  {
  }

  /** The field of a pixel in its byte, for each number of bits. */
  lemma PixelFields(file: seq<byte>, bpp: nat, palette: seq<Color>, x: nat)
    requires Holds(file, bpp, x + 1) && Colors(palette, bpp)
    ensures bpp == 8 ==> x < |file| && |palette| == 256 && Pixel(file, bpp, palette, x) == palette[file[x]]
    ensures bpp == 4 ==>
      && x / 2 < |file| && |palette| == 16
      && Pixel(file, bpp, palette, x) == palette[if x % 2 == 0 then file[x / 2] / 0x10 else file[x / 2] % 0x10]
    ensures bpp == 1 ==>
      x / 8 < |file| && |palette| == 2 && Pixel(file, bpp, palette, x) == palette[Bit(file[x / 8], x % 8)]
  {
    hide Field, FieldByte, FieldBit;
    if bpp != 24 { FieldIs(file, bpp, x); }
    Pow2Small();
  }

  lemma FieldIs(file: seq<byte>, bpp: nat, x: nat)
    requires bpp in {1, 4, 8} && (x + 1) * bpp <= 8 * |file|
    ensures bpp == 8 ==> FieldByte(bpp, x) == x < |file| && Field(file, bpp, x) == file[x]
    ensures bpp == 4 ==>
      && FieldByte(bpp, x) == x / 2 < |file|
      && Field(file, bpp, x) == if x % 2 == 0 then file[x / 2] / 0x10 else file[x / 2] % 0x10
    ensures bpp == 1 ==> FieldByte(bpp, x) == x / 8 < |file| && Field(file, bpp, x) == Bit(file[x / 8], x % 8)
  {
    Pow2Small();
    hide Pow2;
  }

  /** `(x >> (7 - bit)) & 1`. */
  function Bit(x: byte, bit: nat): (v: nat)
    requires bit < 8
    ensures v < 2
  {
    x / Pow2(7 - bit) % 2
  }

  /** The value of a bit of a byte, the uppermost first. */
  ghost function BitValue(bit: nat): (v: nat)
    requires bit < 8
    ensures v > 0
  {
    [128, 64, 32, 16, 8, 4, 2, 1][bit]
  }

  lemma BitIs(x: byte, bit: nat)
    requires bit < 8
    ensures Bit(x, bit) == x / BitValue(bit) % 2
  {
    Pow2Small();
  }

  /** From `q` on, `a` has pixel `x` of the line that begins at `f`: red, green, blue. With 24 bits the line has them
      in the other order, else it has their place in the palette. */
  ghost predicate PixelShown(a: seq<byte>, q: nat, file: seq<byte>, f: nat, bpp: nat, palette: seq<Color>, x: nat) {
    && q + 3 * x + 3 <= |a|
    && var red, green, blue := a[q + 3 * x], a[q + 3 * x + 1], a[q + 3 * x + 2];
    && (bpp == 24 ==>
         f + 3 * x + 3 <= |file| && red == file[f + 3 * x + 2] && green == file[f + 3 * x + 1]
         && blue == file[f + 3 * x])
    && (bpp == 8 ==>
         f + x < |file| && |palette| == 256 && Color(red, green, blue) == palette[file[f + x]])
    && (bpp == 4 ==>
         f + x / 2 < |file| && |palette| == 16
         && Color(red, green, blue) == palette[if x % 2 == 0 then file[f + x / 2] / 16 else file[f + x / 2] % 16])
    && (bpp == 1 ==>
         f + x / 8 < |file| && |palette| == 2
         && Color(red, green, blue) == palette[file[f + x / 8] / BitValue(x % 8) % 2])
  }

  lemma {:induction false} PixelsAt(file: seq<byte>, bpp: nat, palette: seq<Color>, n: nat, x: nat)
    requires Holds(file, bpp, n) && Colors(palette, bpp) && x < n
    ensures Holds(file, bpp, x + 1)
    ensures Pixels(file, bpp, palette, n)[3 * x..3 * x + 3] == Rgb(Pixel(file, bpp, palette, x))
  {
    hide Pixel;
    Monotone(x + 1, n, bpp);
    if x < n - 1 {
      Monotone(n - 1, n, bpp);
      PixelsAt(file, bpp, palette, n - 1, x);
      var s := Pixels(file, bpp, palette, n - 1);
      assert Pixels(file, bpp, palette, n)[3 * x..3 * x + 3] == s[3 * x..3 * x + 3];
    }
  }

  lemma RgbShown(a: seq<byte>, q: nat, file: seq<byte>, bpp: nat, palette: seq<Color>, x: nat)
    requires Holds(file, bpp, x + 1) && Colors(palette, bpp)
    requires q + 3 * x + 3 <= |a| && a[q + 3 * x..q + 3 * x + 3] == Rgb(Pixel(file, bpp, palette, x))
    ensures PixelShown(a, q, file, 0, bpp, palette, x)
  {
    var rgb := a[q + 3 * x..q + 3 * x + 3];
    assert rgb[0] == a[q + 3 * x] && rgb[1] == a[q + 3 * x + 1] && rgb[2] == a[q + 3 * x + 2];
    PixelFields(file, bpp, palette, x);
    if bpp == 1 { BitIs(file[x / 8], x % 8); }
    hide Field, FieldByte, FieldBit, Pow2, Bit, BitValue;
  }

  /** A line decoded shows its pixels. */
  lemma LineShown(a: seq<byte>, q: nat, width: nat, file: seq<byte>, bpp: nat, palette: seq<Color>)
    requires Holds(file, bpp, width) && Colors(palette, bpp)
    requires q + 3 * width <= |a| && a[q..q + 3 * width] == Pixels(file, bpp, palette, width)
    ensures forall x :: 0 <= x < width ==> PixelShown(a, q, file, 0, bpp, palette, x)
  {
    hide Pixel, PixelShown, Pixels;
    forall x | 0 <= x < width ensures PixelShown(a, q, file, 0, bpp, palette, x) {
      PixelsAt(file, bpp, palette, width, x);
      SubSlice(a, q, q + 3 * width, 3 * x, 3 * x + 3);
      RgbShown(a, q, file, bpp, palette, x);
    }
  }

  lemma DecodedShown(a0: seq<byte>, a: seq<byte>, q: nat, width: nat, end: nat, file: seq<byte>, bpp: nat,
                     palette: seq<Color>)
    requires Decoded(a0, a, q, width, end, file, bpp, palette)
    ensures forall x :: 0 <= x < width ==> PixelShown(a, q, file, 0, bpp, palette, x)
  {
    hide PixelShown, Pixels;
    LineShown(a, q, width, file, bpp, palette);
  }

  /** Decode8. */
  method Decode8(a: array<byte>, p0: nat, end: nat, file: seq<byte>, palette: seq<Color>, ghost width: nat)
    requires end == p0 + 3 * width && end <= a.Length && Holds(file, 8, width) && Colors(palette, 8)
    modifies a
    ensures Decoded(old(a[..]), a[..], p0, width, end, file, 8, palette)
    ensures forall x :: 0 <= x < width ==> PixelShown(a[..], p0, file, 0, 8, palette, x)
  {
    hide PixelShown, Decoded, Pixel, Pow2;
    var p, f := p0, 0;
    ghost var a0 := a[..];
    DecodedNone(a0, p0, end, file, 8, palette);
    while p < end
      invariant f <= width && p == p0 + 3 * f
      invariant Decoded(a0, a[..], p0, f, end, file, 8, palette)
    {
      PixelFields(file, 8, palette, f);
      PutPixel(a, p, palette[file[f]], a0, p0, f, end, file, 8, palette);
      p, f := p + 3, f + 1;
    }
    assert f == width;
    DecodedShown(a0, a[..], p0, width, end, file, 8, palette);
  }

  /** Decode4: the two halves of a byte, the upper one first. */
  method Decode4(a: array<byte>, p0: nat, end: nat, file: seq<byte>, palette: seq<Color>, ghost width: nat)
    requires end == p0 + 3 * width && end <= a.Length && Holds(file, 4, width) && Colors(palette, 4)
    modifies a
    ensures Decoded(old(a[..]), a[..], p0, width, end, file, 4, palette)
    ensures forall x :: 0 <= x < width ==> PixelShown(a[..], p0, file, 0, 4, palette, x)
  {
    hide PixelShown, Decoded, Pixel, Pow2;
    var p, f := p0, 0;
    ghost var a0, x := a[..], 0;
    DecodedNone(a0, p0, end, file, 4, palette);
    while p < end
      invariant x <= width && p == p0 + 3 * x && (if p < end then x == 2 * f else x == width)
      invariant Decoded(a0, a[..], p0, x, end, file, 4, palette)
      decreases end - p
    {
      PixelFields(file, 4, palette, x);
      var lookup := file[f] / 0x10;
      PutPixel(a, p, palette[lookup], a0, p0, x, end, file, 4, palette);
      p, x := p + 3, x + 1;
      if p < end {
        PixelFields(file, 4, palette, x);
        lookup := file[f] % 0x10;
        f := f + 1;
        PutPixel(a, p, palette[lookup], a0, p0, x, end, file, 4, palette);
        p, x := p + 3, x + 1;
      }
    }
    assert x == width;
    DecodedShown(a0, a[..], p0, width, end, file, 4, palette);
  }

  /** Decode1: the bits of a byte, the uppermost first. */
  method Decode1(a: array<byte>, p0: nat, end: nat, file: seq<byte>, palette: seq<Color>, ghost width: nat)
    requires end == p0 + 3 * width && end <= a.Length && Holds(file, 1, width) && Colors(palette, 1)
    modifies a
    ensures Decoded(old(a[..]), a[..], p0, width, end, file, 1, palette)
    ensures forall x :: 0 <= x < width ==> PixelShown(a[..], p0, file, 0, 1, palette, x)
  {
    hide PixelShown, Decoded, Pixel, Pow2, Bit;
    var p, f := p0, 0;
    ghost var a0, x := a[..], 0;
    DecodedNone(a0, p0, end, file, 1, palette);
    while p < end
      invariant x <= width && p == p0 + 3 * x && (p < end ==> x == 8 * f)
      invariant Decoded(a0, a[..], p0, x, end, file, 1, palette)
    {
      var bit := 0;
      while bit < 8 && p < end
        invariant bit <= 8 && x == 8 * f + bit <= width && p == p0 + 3 * x
        invariant Decoded(a0, a[..], p0, x, end, file, 1, palette)
      {
        PixelFields(file, 1, palette, x);
        var lookup := Bit(file[f], bit);
        PutPixel(a, p, palette[lookup], a0, p0, x, end, file, 1, palette);
        p, bit, x := p + 3, bit + 1, x + 1;
      }
      f := f + 1;
    }
    assert x == width;
    DecodedShown(a0, a[..], p0, width, end, file, 1, palette);
  }

  /** Where the row for line `k` of the file begins in the output. */
  function Row(inOrder: bool, lines: nat, len: nat, k: nat): (p: nat)
    requires k < lines
  {
    if inOrder then k * len else (lines - 1 - k) * len
  }

  lemma RowInside(inOrder: bool, lines: nat, len: nat, k: nat)
    requires k < lines
    ensures Row(inOrder, lines, len, k) + len <= lines * len
  {
    var i := if inOrder then k else lines - 1 - k;
    assert (i + 1) * len == i * len + len;
    Monotone(i + 1, lines, len);
  }

  lemma RowsApart(inOrder: bool, lines: nat, len: nat, j: nat, k: nat)
    requires j < k < lines
    ensures var p, q := Row(inOrder, lines, len, j), Row(inOrder, lines, len, k); p + len <= q || q + len <= p
  {
    if inOrder {
      assert (j + 1) * len == j * len + len;
      Monotone(j + 1, k, len);
    } else {
      var x, y := lines - 1 - k, lines - 1 - j;
      assert (x + 1) * len == x * len + len;
      Monotone(x + 1, y, len);
    }
  }

  /** What one call of Decode works on: the rows' order, number and length in the output, and the file. */
  datatype Picture = Picture(inOrder: bool, lines: nat, rgbLen: nat, data: seq<byte>, fileLen: nat, bpp: nat,
                             palette: seq<Color>, width: nat)

  predicate Sound(pic: Picture) {
    && pic.bpp in {1, 4, 8, 24} && Colors(pic.palette, pic.bpp) && pic.lines > 0
    && pic.fileLen > 0 && pic.width * pic.bpp <= 8 * pic.fileLen && 0 < 3 * pic.width <= pic.rgbLen
  }

  /** The file has line `k`. */
  predicate HasLine(pic: Picture, k: nat) {
    k * pic.fileLen + pic.fileLen <= |pic.data|
  }

  function FileLine(pic: Picture, k: nat): (s: seq<byte>)
    requires HasLine(pic, k)
    ensures |s| == pic.fileLen
  {
    pic.data[k * pic.fileLen..k * pic.fileLen + pic.fileLen]
  }

  /** The row for line `k` holds its pixels. */
  ghost predicate RowDecoded(a: seq<byte>, pic: Picture, k: nat) {
    && Sound(pic) && k < pic.lines && HasLine(pic, k)
    && var p := Row(pic.inOrder, pic.lines, pic.rgbLen, k);
    p + 3 * pic.width <= |a|
    && a[p..p + 3 * pic.width] == Pixels(FileLine(pic, k), pic.bpp, pic.palette, pic.width)
  }

  /** The row for line `k` shows its pixels. */
  lemma RowShown(a: seq<byte>, pic: Picture, k: nat, x: nat)
    requires RowDecoded(a, pic, k) && x < pic.width
    ensures var p := Row(pic.inOrder, pic.lines, pic.rgbLen, k);
            PixelShown(a, p, pic.data, k * pic.fileLen, pic.bpp, pic.palette, x)
  {
    hide Pixels, PixelShown;
    var p, f := Row(pic.inOrder, pic.lines, pic.rgbLen, k), k * pic.fileLen;
    LineShown(a, p, pic.width, FileLine(pic, k), pic.bpp, pic.palette);
    SliceShown(a, p, pic.data, f, f + pic.fileLen, pic.bpp, pic.palette, x);
  }

  lemma SliceShown(a: seq<byte>, q: nat, file: seq<byte>, f: nat, e: nat, bpp: nat, palette: seq<Color>, x: nat)
    requires f <= e <= |file| && PixelShown(a, q, file[f..e], 0, bpp, palette, x)
    ensures PixelShown(a, q, file, f, bpp, palette, x)
  {
    hide BitValue;
    assert forall i :: 0 <= i < e - f ==> file[f..e][i] == file[f + i];
  }

  /** When the first `rows` lines are decoded, what is behind the pixels of the row for line `k` is as it was, and all
      of a row that is not decoded. */
  ghost predicate RestKept(a0: seq<byte>, a: seq<byte>, pic: Picture, k: nat, rows: nat) {
    && k < pic.lines && 3 * pic.width <= pic.rgbLen && |a0| == |a|
    && var from := if k < rows then 3 * pic.width else 0;
    var p := Row(pic.inOrder, pic.lines, pic.rgbLen, k);
    p + pic.rgbLen <= |a| && a[p + from..p + pic.rgbLen] == a0[p + from..p + pic.rgbLen]
  }

  /** Filling a row keeps the bytes behind its pixels, and all other rows. */
  lemma RestFilled(a0: seq<byte>, a: seq<byte>, a': seq<byte>, pic: Picture, j: nat, k: nat)
    requires Sound(pic) && j < pic.lines && k < pic.lines && HasLine(pic, k)
    requires var p := Row(pic.inOrder, pic.lines, pic.rgbLen, k);
             Decoded(a, a', p, pic.width, p + 3 * pic.width, FileLine(pic, k), pic.bpp, pic.palette)
    requires RestKept(a0, a, pic, j, k)
    ensures RestKept(a0, a', pic, j, k + 1)
  {
    hide Pixels;
    var len, w := pic.rgbLen, 3 * pic.width;
    var p, q := Row(pic.inOrder, pic.lines, len, j), Row(pic.inOrder, pic.lines, len, k);
    if j == k {
      SliceKept(a, a', 0, q + w, q + w, q + len);
      SubSlice(a, q, q + len, w, len);
      SubSlice(a0, q, q + len, w, len);
    } else {
      if j < k { RowsApart(pic.inOrder, pic.lines, len, j, k); } else { RowsApart(pic.inOrder, pic.lines, len, k, j); }
      SliceKept(a, a', q, q + w, p + (if j < k then w else 0), p + len);
    }
  }

  /** What lies before or behind the bytes written is kept. */
  lemma SliceKept(a: seq<byte>, a': seq<byte>, q: nat, e: nat, i: nat, j: nat)
    requires q <= e <= |a| == |a'| && i <= j <= |a| && (j <= q || e <= i)
    requires j <= q ==> a'[..q] == a[..q]
    requires e <= i ==> a'[e..] == a[e..]
    ensures a'[i..j] == a[i..j]
  {
    if j <= q {
      SubSlice(a, 0, q, i, j);
      SubSlice(a', 0, q, i, j);
      assert a'[0..q] == a[0..q];
    } else {
      SubSlice(a, e, |a|, i - e, j - e);
      SubSlice(a', e, |a|, i - e, j - e);
      assert a'[e..|a|] == a[e..|a|];
    }
  }

  /** A row filled is decoded and leaves the others alone. */
  lemma RowFilled(a: seq<byte>, a': seq<byte>, pic: Picture, j: nat, k: nat)
    requires Sound(pic) && j <= k < pic.lines && HasLine(pic, k)
    requires var p := Row(pic.inOrder, pic.lines, pic.rgbLen, k);
             Decoded(a, a', p, pic.width, p + 3 * pic.width, FileLine(pic, k), pic.bpp, pic.palette)
    requires j < k ==> RowDecoded(a, pic, j)
    ensures RowDecoded(a', pic, j)
  {
    hide Pixels;
    if j < k {
      RowsApart(pic.inOrder, pic.lines, pic.rgbLen, j, k);
      var p, q := Row(pic.inOrder, pic.lines, pic.rgbLen, j), Row(pic.inOrder, pic.lines, pic.rgbLen, k);
      SliceKept(a, a', q, q + 3 * pic.width, p, p + 3 * pic.width);
    }
  }

  /** One of the four decoders. */
  method DecodeLine(a: array<byte>, p: nat, end: nat, file: seq<byte>, bpp: nat, palette: seq<Color>, ghost width: nat)
    requires end == p + 3 * width && end <= a.Length && Holds(file, bpp, width) && Colors(palette, bpp)
    modifies a
    ensures Decoded(old(a[..]), a[..], p, width, end, file, bpp, palette)
  {
    hide Decoded;
    if bpp == 24 {
      Decode24(a, p, end, file, palette, width);
    } else if bpp == 8 {
      Decode8(a, p, end, file, palette, width);
    } else if bpp == 4 {
      Decode4(a, p, end, file, palette, width);
    } else {
      Decode1(a, p, end, file, palette, width);
    }
  }

  /** The row for one line, behind those of the lines before. */
  method DecodeRow(a: array<byte>, pic: Picture, p: nat, i: nat, ghost k: nat, ghost next: nat,
                   ghost a0: seq<byte>)
    requires Sound(pic) && k < pic.lines && HasLine(pic, k) && i == k * pic.fileLen && next == k + 1
    requires a.Length == pic.lines * pic.rgbLen && p == Row(pic.inOrder, pic.lines, pic.rgbLen, k)
    requires forall j :: 0 <= j < k ==> RowDecoded(a[..], pic, j)
    requires forall j :: 0 <= j < pic.lines ==> RestKept(a0, a[..], pic, j, k)
    modifies a
    ensures forall j :: 0 <= j <= k ==> RowDecoded(a[..], pic, j)
    ensures forall j :: 0 <= j < pic.lines ==> RestKept(a0, a[..], pic, j, next)
  {
    hide RowDecoded, Decoded, RestKept, Pixels;
    RowInside(pic.inOrder, pic.lines, pic.rgbLen, k);
    ghost var before := a[..];
    DecodeLine(a, p, p + 3 * pic.width, pic.data[i..i + pic.fileLen], pic.bpp, pic.palette, pic.width);
    forall j | 0 <= j <= k ensures RowDecoded(a[..], pic, j) {
      RowFilled(before, a[..], pic, j, k);
    }
    forall j: nat | j < pic.lines ensures RestKept(a0, a[..], pic, j, next) {
      RestFilled(a0, before, a[..], pic, j, k);
    }
  }

  /** Decode, with the row walk: file order or reversed, as the sign of the height and the flag say. It ends
      well exactly when the file has every line; then every row is filled. Otherwise those rows are whose
      lines it has. */
  method Decode(a: array<byte>, height: int, topDown: bool, pic: Picture) returns (ok: bool, ghost rows: nat)
    requires Sound(pic) && pic.lines == (if height < 0 then -height else height)
    requires pic.inOrder == ((height < 0) == topDown) && a.Length == pic.lines * pic.rgbLen
    modifies a
    ensures rows <= pic.lines && (ok <==> rows == pic.lines) && (!ok ==> !HasLine(pic, rows))
    ensures forall k :: 0 <= k < rows ==> RowDecoded(a[..], pic, k)
    ensures forall k, x {:trigger Pixelled(a[..], height, topDown, pic, k, x)} ::
      0 <= k < rows && 0 <= x < pic.width ==> Pixelled(a[..], height, topDown, pic, k, x)
    ensures forall k :: 0 <= k < pic.lines ==> RestKept(old(a[..]), a[..], pic, k, rows)
  {
    hide RowDecoded, Decoded, RestKept, PixelShown, Pixelled, Pixels, Row;
    forall k: nat | k < pic.lines ensures RestKept(a[..], a[..], pic, k, 0) {
      AllKept(a[..], pic, k);
    }
    var len: int := pic.rgbLen;
    var p: int, pEnd: int, inc: int;
    if (height < 0) == topDown {
      p, pEnd, inc := 0, pic.lines * len, len;
    } else {
      p, pEnd, inc := (pic.lines - 1) * len, -len, -len;
    }
    rows := 0;
    var i := 0;  // how far the file is read
    WalkStart(pic);
    while p != pEnd && |pic.data| - i >= pic.fileLen
      invariant rows <= pic.lines && i == rows * pic.fileLen <= |pic.data|
      invariant rows < pic.lines ==> p == Row(pic.inOrder, pic.lines, len, rows)
      invariant p == pEnd <==> rows == pic.lines
      invariant forall k :: 0 <= k < rows ==> RowDecoded(a[..], pic, k)
      invariant forall k :: 0 <= k < pic.lines ==> RestKept(old(a[..]), a[..], pic, k, rows)
      decreases pic.lines - rows
    {
      DecodeRow(a, pic, p, i, rows, rows + 1, old(a[..]));
      WalkNext(pic, rows);
      p := p + inc;
      i := i + pic.fileLen;
      rows := rows + 1;
    }
    ok := p == pEnd;
    RowsPixelled(a[..], height, topDown, pic, rows);
  }

  lemma RowsPixelled(a: seq<byte>, height: int, topDown: bool, pic: Picture, rows: nat)
    requires pic.inOrder == ((height < 0) == topDown) && rows <= pic.lines
    requires forall k :: 0 <= k < rows ==> RowDecoded(a, pic, k)
    ensures forall k, x {:trigger Pixelled(a, height, topDown, pic, k, x)} ::
      0 <= k < rows && 0 <= x < pic.width ==> Pixelled(a, height, topDown, pic, k, x)
  {
    hide RowDecoded, Pixelled;
    forall k: nat, x: nat | k < rows && x < pic.width ensures Pixelled(a, height, topDown, pic, k, x) {
      RowPixelled(a, height, topDown, pic, k, x);
    }
  }

  lemma RowPixelled(a: seq<byte>, height: int, topDown: bool, pic: Picture, k: nat, x: nat)
    requires RowDecoded(a, pic, k) && pic.inOrder == ((height < 0) == topDown) && x < pic.width
    ensures Pixelled(a, height, topDown, pic, k, x)
  {
    hide PixelShown;
    RowInside(pic.inOrder, pic.lines, pic.rgbLen, k);
    RowShown(a, pic, k, x);
  }

  /** Pixel `x` of line `k` of the file is where it should be: the lines go down when the sign of the height and the
      flag agree, else up. */
  ghost predicate Pixelled(a: seq<byte>, height: int, topDown: bool, pic: Picture, k: nat, x: nat)
    requires k < pic.lines
  {
    var row := if (height < 0) == topDown then k else pic.lines - 1 - k;
    row * pic.rgbLen >= 0 && PixelShown(a, row * pic.rgbLen, pic.data, k * pic.fileLen, pic.bpp, pic.palette, x)
  }

  lemma AllKept(a: seq<byte>, pic: Picture, k: nat)
    requires k < pic.lines && |a| == pic.lines * pic.rgbLen && 3 * pic.width <= pic.rgbLen
    ensures RestKept(a, a, pic, k, 0)
  {
    RowInside(pic.inOrder, pic.lines, pic.rgbLen, k);
  }

  lemma WalkStart(pic: Picture)
    requires Sound(pic)
    ensures Row(pic.inOrder, pic.lines, pic.rgbLen, 0) == (if pic.inOrder then 0 else (pic.lines - 1) * pic.rgbLen)
    ensures pic.lines * pic.rgbLen > 0 && (pic.lines - 1) * pic.rgbLen >= 0
  {
    Monotone(1, pic.lines, pic.rgbLen);
  }

  /** The step to the next row, which is the end after the last one only. */
  lemma WalkNext(pic: Picture, k: nat)
    requires Sound(pic) && k < pic.lines
    ensures (k + 1) * pic.fileLen == k * pic.fileLen + pic.fileLen
    ensures var p, n := Row(pic.inOrder, pic.lines, pic.rgbLen, k), pic.rgbLen;
            var next, end := if pic.inOrder then p + n else p - n, if pic.inOrder then pic.lines * n else 0 - n;
            && (k + 1 < pic.lines ==> next == Row(pic.inOrder, pic.lines, n, k + 1) && next != end)
            && (k + 1 == pic.lines ==> next == end)
  {
    var n := pic.rgbLen;
    assert (k + 1) * n == k * n + n;
    if pic.inOrder {
      if k + 1 < pic.lines {
        Monotone(k + 2, pic.lines, n);
        assert (k + 2) * n == (k + 1) * n + n;
      }
    } else if k + 1 < pic.lines {
      assert (pic.lines - 1 - k) * n == (pic.lines - 2 - k) * n + n;
    }
  }
}
