/** The binary ("P6") portable-pixmap encoder of main.rs: an ASCII header
    `P6\n<width> <height> 255\n` followed by three bytes (red, green, blue)
    per pixel in row-major order. Only the bytes a successful write emits
    are modelled; the file handle is not. */
module Ppm {

  import Grid

  type byte = bv8

  /** Channel `k` of a packed pixel: 0 is red (bits 16-23), 1 green
      (bits 8-15), 2 blue (bits 0-7), i.e. `(p >> 8*(2-k)) & 0xFF`. */
  function Channel(p: bv32, k: nat): byte
    requires k < 3
  {
    if k == 0 then ((p >> 16) & 0xFF) as byte
    else if k == 1 then ((p >> 8) & 0xFF) as byte
    else (p & 0xFF) as byte
  }

  /** The three bytes written for one pixel, in the order red, green, blue. */
  function Rgb(p: bv32): (b: seq<byte>)
    ensures |b| == 3
  {
    [Channel(p, 0), Channel(p, 1), Channel(p, 2)]
  }

  /** Packs three channels back into a colour value `(r << 16) | (g << 8) | b`. */
  function Pack(r: byte, g: byte, b: byte): bv32
  {
    ((r as bv32) << 16) | ((g as bv32) << 8) | (b as bv32)
  }

  /** Unpacking then packing keeps exactly the low 24 bits of a pixel. */
  lemma PackChannels(p: bv32)
    ensures Pack(Channel(p, 0), Channel(p, 1), Channel(p, 2)) == p & 0xFF_FFFF
  {
  }

  /** Packing then unpacking gives back each channel. */
  lemma ChannelsOfPack(r: byte, g: byte, b: byte)
    ensures Channel(Pack(r, g, b), 0) == r
    ensures Channel(Pack(r, g, b), 1) == g
    ensures Channel(Pack(r, g, b), 2) == b
  {
  }

  /** The encoder ignores every bit above bit 23 of a pixel. */
  lemma ChannelIgnoresHighBits(p: bv32, k: nat)
    requires k < 3
    ensures Channel(p, k) == Channel(p & 0xFF_FFFF, k)
  {
  }

  /** Value of a decimal digit character. */
  function DigitValue(c: char): nat
    requires '0' <= c <= '9'
  {
    c as int - '0' as int
  }

  /** Decimal rendering of a natural number as Rust's `{}` prints a `usize`:
      no sign, no leading zeros, and "0" for zero. */
  function Decimal(n: nat): (s: seq<char>)
    ensures |s| >= 1
    ensures forall i :: 0 <= i < |s| ==> '0' <= s[i] <= '9'
    ensures s[0] == '0' ==> n == 0
    decreases n
  {
    if n < 10 then ['0' + n as char]
    else Decimal(n / 10) + ['0' + (n % 10) as char]
  }

  /** Reads a string of decimal digits back as a number. */
  function DecimalValue(s: seq<char>): nat
    requires forall i :: 0 <= i < |s| ==> '0' <= s[i] <= '9'
  {
    if s == [] then 0 else DecimalValue(s[..|s| - 1]) * 10 + DigitValue(s[|s| - 1])
  }

  /** Reading the rendered digits gives the number back, so distinct
      dimensions give distinct headers. */
  lemma {:induction false} DecimalRoundTrip(n: nat)
    ensures DecimalValue(Decimal(n)) == n
    decreases n
  {
    var s := Decimal(n);
    if n >= 10 {
      DecimalRoundTrip(n / 10);
      assert s[..|s| - 1] == Decimal(n / 10);
    }
  }

  /** The header text `P6\n<width> <height> 255\n`. */
  function HeaderText(width: nat, height: nat): string
  {
    "P6\n" + Decimal(width) + " " + Decimal(height) + " 255\n"
  }

  /** ASCII codes of the digits '0' to '9'. */
  const DIGIT_CODES: seq<byte> := [0x30, 0x31, 0x32, 0x33, 0x34, 0x35, 0x36, 0x37, 0x38, 0x39]

  /** The characters a header is made of: 'P', newline, space and the digits. */
  predicate HeaderChar(c: char)
  {
    c == 'P' || c == '\n' || c == ' ' || '0' <= c <= '9'
  }

  /** The ASCII byte of a header character. */
  function AsciiByte(c: char): (b: byte)
    requires HeaderChar(c)
    ensures b as int == c as int
  {
    if c == 'P' then 0x50 else if c == '\n' then 0x0A else if c == ' ' then 0x20
    else DIGIT_CODES[c as int - '0' as int]
  }

  /** The ASCII bytes of a string of header characters. */
  function Ascii(s: string): (b: seq<byte>)
    requires forall i :: 0 <= i < |s| ==> HeaderChar(s[i])
    ensures |b| == |s|
    ensures forall i :: 0 <= i < |s| ==> b[i] as int == s[i] as int
  {
    seq(|s|, i requires 0 <= i < |s| => AsciiByte(s[i]))
  }

  /** The header as bytes. */
  function Header(width: nat, height: nat): (b: seq<byte>)
    ensures |b| == |HeaderText(width, height)|
    ensures forall i :: 0 <= i < |b| ==> b[i] as int == HeaderText(width, height)[i] as int
  {
    Ascii(HeaderText(width, height))
  }

  /** The pixel records of `pixels`, one RGB triple per pixel, in order. */
  function PixelBytes(pixels: seq<bv32>): seq<byte>
  {
    if pixels == [] then []
    else PixelBytes(pixels[..|pixels| - 1]) + Rgb(pixels[|pixels| - 1])
  }

  /** Record `i` occupies bytes `3i`, `3i+1`, `3i+2`, holding red, green, blue. */
  lemma {:induction false} PixelBytesLayout(pixels: seq<bv32>)
    ensures |PixelBytes(pixels)| == 3 * |pixels|
    ensures forall i, k :: 0 <= i < |pixels| && 0 <= k < 3 ==>
      PixelBytes(pixels)[3 * i + k] == Channel(pixels[i], k)
  {
    if pixels != [] {
      var front := pixels[..|pixels| - 1];
      PixelBytesLayout(front);
      forall i, k | 0 <= i < |pixels| && 0 <= k < 3
        ensures PixelBytes(pixels)[3 * i + k] == Channel(pixels[i], k)
      {
        if i < |front| {
          assert PixelBytes(pixels)[3 * i + k] == PixelBytes(front)[3 * i + k];
        }
      }
    }
  }

  /** The whole file: header, then the `width*height` pixels of the
      buffer in row-major order (index `y*width + x`). */
  function Image(pixels: seq<bv32>, width: nat, height: nat): seq<byte>
    requires width * height <= |pixels|
  {
    Header(width, height) + PixelBytes(pixels[..width * height])
  }

  /** Pixel `i` of the grid is written as bytes `|header| + 3i + k`. */
  lemma ImageAt(pixels: seq<bv32>, width: nat, height: nat, i: nat, k: nat)
    requires width * height <= |pixels| && i < width * height && k < 3
    ensures |Image(pixels, width, height)| == |HeaderText(width, height)| + 3 * (width * height)
    ensures Image(pixels, width, height)[|HeaderText(width, height)| + 3 * i + k] == Channel(pixels[i], k)
  {
    var body := pixels[..width * height];
    PixelBytesLayout(body);
    assert body[i] == pixels[i];
  }

  /** Layout of the file: the header, then exactly `3*width*height` bytes,
      the byte at `|header| + 3*(y*width + x) + k` being channel `k` of
      pixel `(x, y)`. */
  lemma ImageLayout(pixels: seq<bv32>, width: nat, height: nat)
    requires width * height <= |pixels|
    ensures |Image(pixels, width, height)| == |HeaderText(width, height)| + 3 * (width * height)
    ensures Image(pixels, width, height)[..|HeaderText(width, height)|] == Header(width, height)
    ensures forall x, y, k :: 0 <= x < width && 0 <= y < height && 0 <= k < 3 ==>
      Image(pixels, width, height)[|HeaderText(width, height)| + 3 * Grid.Cell(width, height, x, y) + k]
        == Channel(pixels[Grid.Cell(width, height, x, y)], k)
  {
    PixelBytesLayout(pixels[..width * height]);
    forall x, y, k | 0 <= x < width && 0 <= y < height && 0 <= k < 3
      ensures Image(pixels, width, height)[|HeaderText(width, height)| + 3 * Grid.Cell(width, height, x, y) + k]
        == Channel(pixels[Grid.Cell(width, height, x, y)], k)
    {
      ImageAt(pixels, width, height, Grid.Cell(width, height, x, y), k);
    }
  }

  /** Emitting one more pixel appends its three bytes. */
  lemma PixelBytesExtend(pixels: seq<bv32>, n: nat)
    requires n < |pixels|
    ensures PixelBytes(pixels[..n + 1]) == PixelBytes(pixels[..n]) + Rgb(pixels[n])
  {
    assert pixels[..n + 1][..n] == pixels[..n];
  }

  /** `write_as_ppm` without the file: it emits the header, then the
      pixel records. */
  method WriteAsPpm(pixels: array<bv32>, width: nat, height: nat) returns (bytes: seq<byte>)
    requires width * height <= pixels.Length
    ensures bytes == Image(pixels[..], width, height)
  {
    var header := Header(width, height);
    var body := WritePixels(pixels, width, height);
    bytes := header + body;
  }

  /** The pixel loop of `write_as_ppm`: it walks the rows and emits the
      records of each. */
  method WritePixels(pixels: array<bv32>, width: nat, height: nat) returns (bytes: seq<byte>)
    requires width * height <= pixels.Length
    ensures bytes == PixelBytes(pixels[..width * height])
  {
    bytes := [];
    var y := 0;
    while y < height
      invariant 0 <= y <= height
      invariant y * width <= width * height
      invariant bytes == PixelBytes(pixels[..y * width])
    {
      Grid.RowBound(width, height, y);
      bytes := WriteRow(pixels, width, y * width, bytes);
      y := y + 1;
    }
  }

  /** The inner loop of `write_as_ppm`: walking the columns of the row
      that starts at index `row`, it appends that row's records to the
      records of the rows before. */
  method WriteRow(pixels: array<bv32>, width: nat, row: nat, before: seq<byte>) returns (bytes: seq<byte>)
    requires row + width <= pixels.Length
    requires before == PixelBytes(pixels[..row])
    ensures bytes == PixelBytes(pixels[..row + width])
  {
    bytes := before;
    var x := 0;
    while x < width
      invariant 0 <= x <= width
      invariant bytes == PixelBytes(pixels[..row + x])
    {
      var pixel := pixels[row + x];
      PixelBytesExtend(pixels[..], row + x);
      bytes := bytes + Rgb(pixel);
      x := x + 1;
    }
  }

  /** The header of a 2x2 image is `P6\n2 2 255\n`. */
  lemma SmallHeader()
    ensures Header(2, 2) == [0x50, 0x36, 0x0A, 0x32, 0x20, 0x32, 0x20, 0x32, 0x35, 0x35, 0x0A]
  {
    SmallHeaderText();
    var b := Header(2, 2);
    assert b[0] == 0x50 && b[1] == 0x36 && b[2] == 0x0A && b[3] == 0x32;
    assert b[4] == 0x20 && b[5] == 0x32 && b[6] == 0x20 && b[7] == 0x32;
    assert b[8] == 0x35 && b[9] == 0x35 && b[10] == 0x0A;
  }

  /** The header text of a 2x2 image. */
  lemma SmallHeaderText()
    ensures HeaderText(2, 2) == "P6\n2 2 255\n"
  {
    assert Decimal(2) == "2";
  }

  /** Four pixels of 0x123456 are emitted as 12 34 56, four times. */
  lemma SmallBody()
    ensures PixelBytes([0x123456, 0x123456, 0x123456, 0x123456]) ==
      [0x12, 0x34, 0x56, 0x12, 0x34, 0x56, 0x12, 0x34, 0x56, 0x12, 0x34, 0x56]
  {
    var p: seq<bv32> := [0x123456, 0x123456, 0x123456, 0x123456];
    SmallRgb();
    PixelBytesExtend(p, 0);
    PixelBytesExtend(p, 1);
    PixelBytesExtend(p, 2);
    PixelBytesExtend(p, 3);
    assert p[..0] == [] && p[..4] == p;
  }

  /** The pixel 0x123456 is emitted as the bytes 12 34 56. */
  lemma SmallRgb()
    ensures Rgb(0x123456) == [0x12, 0x34, 0x56]
  {
  }

  /** The encoding of a 2x2 buffer filled with 0x123456: the header
      `P6\n2 2 255\n` followed by the bytes 12 34 56, four times. */
  lemma SmallImage()
    ensures Image([0x123456, 0x123456, 0x123456, 0x123456], 2, 2) ==
      [0x50, 0x36, 0x0A, 0x32, 0x20, 0x32, 0x20, 0x32, 0x35, 0x35, 0x0A,
       0x12, 0x34, 0x56, 0x12, 0x34, 0x56, 0x12, 0x34, 0x56, 0x12, 0x34, 0x56]
  {
    var p: seq<bv32> := [0x123456, 0x123456, 0x123456, 0x123456];
    SmallHeader();
    SmallBody();
    assert p[..2 * 2] == p;
  }
}
