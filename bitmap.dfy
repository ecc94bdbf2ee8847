/** The bitmap files the container writes: `b_export_bmp`, which puts a
    Windows BMP header in front of raw pixel rows, and the 256-colour
    `PALETTE` that paletted tiles carry in front of their pixels. */
module Bitmap {
  import opened Bytes

  // ---------------------------------------------------------------------------
  // The 256-entry palette, four bytes (blue, green, red, reserved) per entry:
  // ten fixed colours at each end and, between them, entry e has blue
  // 64 * (e / 64), green 32 * (e / 8 % 8) and red 32 * (e % 8).

  /** Blue, green and red of entries 0-9. */
  const LowColours: seq<byte> := [0x00, 0x00, 0x00, 0x00, 0x00, 0x80, 0x00, 0x80, 0x00, 0x00, 0x80, 0x80, 0x80, 0x00, 0x00, 0x80, 0x00, 0x80, 0x80, 0x80, 0x00, 0xC0, 0xC0, 0xC0, 0xC0, 0xDC, 0xC0, 0xF0, 0xCA, 0xA6]

  /** Blue, green and red of entries 246-255. */
  const HighColours: seq<byte> := [0xF0, 0xFB, 0xFF, 0xA4, 0xA0, 0xA0, 0x80, 0x80, 0x80, 0x00, 0x00, 0xFF, 0x00, 0xFF, 0x00, 0x00, 0xFF, 0xFF, 0xFF, 0x00, 0x00, 0xFF, 0x00, 0xFF, 0xFF, 0xFF, 0x00, 0xFF, 0xFF, 0xFF]

  /** Byte i of PALETTE. */
  function PaletteByte(i: int): byte
  {
    if !(0 <= i < 1024) then 0x00
    else
      var e, c := i / 4, i % 4;
      if c == 3 then 0x00
      else if e < 10 then LowColours[3 * e + c]
      else if e >= 246 then HighColours[3 * (e - 246) + c]
      else if c == 0 then (64 * (e / 64)) as byte
      else if c == 1 then (32 * (e / 8 % 8)) as byte
      else (32 * (e % 8)) as byte
  }

  /** PALETTE: 256 entries of four bytes. */
  function Palette(): (p: seq<byte>)
    ensures |p| == 1024
  {
    seq(1024, PaletteByte)
  }

  /** The reserved byte of every palette entry is zero. */
  lemma PaletteReserved(e: nat)
    requires e < 256
    ensures Palette()[4 * e + 3] == 0x00
  {
    DivModUnique(4 * e + 3, 4, e, 3);
    assert Palette()[4 * e + 3] == PaletteByte(4 * e + 3);
  }


  // ---------------------------------------------------------------------------
  // Headers

  /** "BM", the signature every BMP file starts with. */
  const Signature: seq<byte> := [0x42, 0x4D]

  /** Bytes of the 32-bit header after "BM" and the file size: two reserved
      words, the offset of the pixels (122) and the size of the BITMAPV4HEADER
      that follows (108). */
  const V4Lead: seq<byte> := [0x00, 0x00, 0x00, 0x00, 0x7A, 0x00, 0x00, 0x00, 0x6C, 0x00, 0x00, 0x00]

  /** One plane, 32 bits per pixel, BI_BITFIELDS compression. */
  const V4Format: seq<byte> := [0x01, 0x00, 0x20, 0x00, 0x03, 0x00, 0x00, 0x00]

  /** n zero bytes. */
  function Zeros(n: nat): (z: seq<byte>)
    ensures |z| == n && forall i :: 0 <= i < n ==> z[i] == 0x00
  {
    seq(n, _ => 0x00)
  }

  /** The red, green, blue and alpha masks of BI_BITFIELDS, then the colour
      space tag "Win " (LCS_WINDOWS_COLOR_SPACE, stored little-endian). */
  const V4Masks: seq<byte> := [0x00, 0x00, 0xFF, 0x00, 0x00, 0xFF, 0x00, 0x00, 0xFF, 0x00, 0x00, 0x00, 0x00, 0x00, 0x00, 0xFF, 0x20, 0x6E, 0x69, 0x57]

  /** The rest of the BITMAPV4HEADER after the image size: resolution and
      colour counts (zero), the masks and colour space, and zeroed end points
      and gammas. */
  function V4Tail(): (t: seq<byte>)
    ensures |t| == 84 && t[16..36] == V4Masks
  {
    Zeros(16) + V4Masks + Zeros(48)
  }

  /** Bytes of the 8-bit header after "BM" and the file size: two reserved
      words, the offset of the pixels (54 + 1024 for the palette) and the
      size of the BITMAPINFOHEADER that follows (40). */
  const InfoLead: seq<byte> := [0x00, 0x00, 0x00, 0x00, 0x36, 0x04, 0x00, 0x00, 0x28, 0x00, 0x00, 0x00]

  /** One plane, 8 bits per pixel, no compression. */
  const InfoFormat: seq<byte> := [0x01, 0x00, 0x08, 0x00, 0x00, 0x00, 0x00, 0x00]

  /** Resolution and colour counts, all zero. */
  function InfoTail(): (t: seq<byte>)
    ensures |t| == 16
  {
    Zeros(16)
  }

  /** Length of the header b_export_bmp writes in front of the data: 14 bytes
      of file header and a 108-byte BITMAPV4HEADER, or 14 bytes and a 40-byte
      BITMAPINFOHEADER. */
  function HeaderSize(pal: bool): nat
  {
    if pal then 54 else 122
  }

  /** The first 38 bytes of the header: signature, file size, the lead
      words, width, height, the format words and the image size. */
  function Fields(pal: bool, size: nat, width: nat, height: nat, image: nat): (h: seq<byte>)
    requires IsU32(size) && IsU32(width) && IsU32(height) && IsU32(image)
    ensures |h| == 38 && h[..2] == Signature
    ensures U32(h, 2) == size && U32(h, 18) == width && U32(h, 22) == height && U32(h, 34) == image
    ensures U32(h, 10) == (if pal then 1078 else 122) && U32(h, 14) == (if pal then 40 else 108)
    ensures U16(h, 26) == 1 && U16(h, 28) == (if pal then 8 else 32)
    ensures U32(h, 30) == (if pal then 0 else 3)
  {
    var lead := if pal then InfoLead else V4Lead;
    var format := if pal then InfoFormat else V4Format;
    assert U32(lead, 4) == (if pal then 1078 else 122) && U32(lead, 8) == (if pal then 40 else 108);
    assert U16(format, 0) == 1 && U16(format, 2) == (if pal then 8 else 32);
    assert U32(format, 4) == (if pal then 0 else 3);
    var a, b, c, d := PackU32(size), PackU32(width), PackU32(height), PackU32(image);
    Layout(Signature, a, lead, b, c, format, d);
    Signature + a + lead + b + c + format + d
  }

  /** Where each piece of the first 38 header bytes lands. */
  lemma Layout(sig: seq<byte>, a: seq<byte>, lead: seq<byte>, b: seq<byte>, c: seq<byte>, format: seq<byte>, d: seq<byte>)
    requires |sig| == 2 && |a| == 4 && |lead| == 12 && |b| == 4 && |c| == 4 && |format| == 8 && |d| == 4
    ensures var h := sig + a + lead + b + c + format + d;
      && |h| == 38 && h[..2] == sig
      && U32(h, 2) == U32(a, 0) && U32(h, 10) == U32(lead, 4) && U32(h, 14) == U32(lead, 8)
      && U32(h, 18) == U32(b, 0) && U32(h, 22) == U32(c, 0) && U32(h, 34) == U32(d, 0)
      && U16(h, 26) == U16(format, 0) && U16(h, 28) == U16(format, 2)
      && U32(h, 30) == U32(format, 4)
  {
    var h := sig + a + lead + b + c + format + d;
    assert h[..2] == sig;
    Field(h, 2, a);
    Field(h, 18, b);
    Field(h, 22, c);
    Field(h, 34, d);
    Field(h, 10, lead[4..8]);
    Field(lead, 4, lead[4..8]);
    Field(h, 14, lead[8..]);
    Field(lead, 8, lead[8..]);
    assert h[26..30] == format[..4];
    Field(h, 30, format[4..]);
    Field(format, 4, format[4..]);
  }

  /** A 32-bit field reads the four bytes it sits on. */
  lemma Field(s: seq<byte>, i: nat, p: seq<byte>)
    requires |p| == 4 && i + 4 <= |s| && s[i..i + 4] == p
    ensures U32(s, i) == U32(p, 0)
  {
    assert s[i] == p[0] && s[i + 1] == p[1] && s[i + 2] == p[2] && s[i + 3] == p[3];
  }

  /** Bytes appended after the 38 bytes of fields leave the fields as they
      were, and the data sits at the end. */
  lemma Assemble(p: seq<byte>, tail: seq<byte>, data: seq<byte>)
    requires |p| == 38
    ensures var f := p + tail + data;
      && f[..2] == p[..2] && f[38 + |tail|..] == data
      && U32(f, 2) == U32(p, 2) && U32(f, 10) == U32(p, 10) && U32(f, 14) == U32(p, 14)
      && U32(f, 18) == U32(p, 18) && U32(f, 22) == U32(p, 22) && U32(f, 34) == U32(p, 34)
      && U16(f, 26) == U16(p, 26) && U16(f, 28) == U16(p, 28)
      && U32(f, 30) == U32(p, 30) && f[38..38 + |tail|] == tail
  {
    var f := p + tail + data;
    assert f[..38] == p;
  }

  /** The masks of a 32-bit header sit at bytes 54-73 of the file. */
  lemma MasksAt(f: seq<byte>, tail: seq<byte>)
    requires |tail| == 84 && tail[16..36] == V4Masks && |f| >= 122 && f[38..122] == tail
    ensures f[54..74] == V4Masks
  {
    forall i | 0 <= i < 20
      ensures f[54..74][i] == tail[16..36][i]
    {
      assert f[54..74][i] == f[38..122][16 + i];
    }
  }

  /** b_export_bmp. struct.pack("<L", v) raises unless 0 <= v < 2^32; None
      stands for that exception. The paletted header records the image size
      as the data length less the 1024-byte palette, so data shorter than the
      palette raises. */
  function ExportBmp(pal: bool, width: int, height: int, data: seq<byte>): (r: Option<seq<byte>>)
    ensures r.Some? <==> IsU32(width) && IsU32(height) && IsU32(|data| + HeaderSize(pal)) && (pal ==> |data| >= 1024)
    ensures r.Some? ==>
      var f := r.value;
      && |f| == |data| + HeaderSize(pal) && f[..2] == Signature && U32(f, 2) == |f|
      && U32(f, 10) == (if pal then 1078 else 122) && U32(f, 14) == (if pal then 40 else 108)
      && U32(f, 18) == width && U32(f, 22) == height
      && U16(f, 26) == 1 && U16(f, 28) == (if pal then 8 else 32)
      && U32(f, 30) == (if pal then 0 else 3)
      && U32(f, 34) == |data| - (if pal then 1024 else 0)
      && (!pal ==> f[54..74] == V4Masks)
      && f[HeaderSize(pal)..] == data
  {
    var size := |data| + HeaderSize(pal);
    var image := |data| - (if pal then 1024 else 0);
    if IsU32(width) && IsU32(height) && IsU32(size) && image >= 0 then
      var p := Fields(pal, size, width, height, image);
      var tail := if pal then InfoTail() else V4Tail();
      var f := p + tail + data;
      Assemble(p, tail, data);
      assert !pal ==> f[54..74] == V4Masks by { if !pal { MasksAt(f, tail); } }
      Some(f)
    else
      None
  }

  /** Replacing four bytes at offset 22 leaves the rest in place. */
  lemma Splice(x: seq<byte>, m: seq<byte>, y: seq<byte>, z: seq<byte>)
    requires |x| == 22 && |m| == 4
    ensures (x + m + y + z)[..22] == x && (x + m + y + z)[26..] == y + z
  {
    assert x + m + y + z == x + (m + (y + z));
  }

  /** Two headers that differ only in the height differ only in bytes
      22-25. */
  lemma FieldsHeight(pal: bool, size: nat, width: nat, h1: nat, h2: nat, image: nat)
    requires IsU32(size) && IsU32(width) && IsU32(h1) && IsU32(h2) && IsU32(image)
    ensures Fields(pal, size, width, h1, image)[..22] == Fields(pal, size, width, h2, image)[..22]
    ensures Fields(pal, size, width, h1, image)[26..] == Fields(pal, size, width, h2, image)[26..]
  {
    var lead := if pal then InfoLead else V4Lead;
    var format := if pal then InfoFormat else V4Format;
    var x := Signature + PackU32(size) + lead + PackU32(width);
    Splice(x, PackU32(h1), format, PackU32(image));
    Splice(x, PackU32(h2), format, PackU32(image));
  }

  /** The first 22 bytes and everything from byte 26 of a header with
      something after it. */
  lemma Outside(p1: seq<byte>, p2: seq<byte>, tail: seq<byte>, data: seq<byte>)
    requires |p1| == 38 && |p2| == 38 && p1[..22] == p2[..22] && p1[26..] == p2[26..]
    ensures |p1 + tail + data| == |p2 + tail + data|
    ensures (p1 + tail + data)[..22] == (p2 + tail + data)[..22]
    ensures (p1 + tail + data)[26..] == (p2 + tail + data)[26..]
  {
    assert (p1 + tail + data)[26..] == p1[26..] + tail + data;
    assert (p2 + tail + data)[26..] == p2[26..] + tail + data;
  }

  /** A successful export is the 38 header fields, the rest of the info
      header (with the palette or the colour masks) and the data. */
  lemma ExportParts(pal: bool, width: int, height: int, data: seq<byte>)
    requires ExportBmp(pal, width, height, data).Some?
    ensures |data| + HeaderSize(pal) >= 38 && |data| >= (if pal then 1024 else 0)
    ensures ExportBmp(pal, width, height, data).value ==
      Fields(pal, |data| + HeaderSize(pal), width, height, |data| - (if pal then 1024 else 0))
        + (if pal then InfoTail() else V4Tail()) + data
  {
  }

  /** Two files of the same length that agree everywhere except, perhaps,
      in the height field (bytes 22-25). */
  predicate HeightOnly(a: seq<byte>, b: seq<byte>)
  {
    |a| == |b| && |a| >= 26 && a[..22] == b[..22] && a[26..] == b[26..]
  }

  /** Changing the height b_export_bmp is given changes bytes 22-25 of the
      file and nothing else. */
  lemma ExportHeight(pal: bool, width: int, h1: int, h2: int, data: seq<byte>)
    requires ExportBmp(pal, width, h1, data).Some? && ExportBmp(pal, width, h2, data).Some?
    ensures HeightOnly(ExportBmp(pal, width, h1, data).value, ExportBmp(pal, width, h2, data).value)
  {
    var size := |data| + HeaderSize(pal);
    var image := |data| - (if pal then 1024 else 0);
    var tail := if pal then InfoTail() else V4Tail();
    ExportParts(pal, width, h1, data);
    ExportParts(pal, width, h2, data);
    var p1, p2 := Fields(pal, size, width, h1, image), Fields(pal, size, width, h2, image);
    FieldsHeight(pal, size, width, h1, h2, image);
    Outside(p1, p2, tail, data);
  }

  /** A paletted tile or collage is the palette followed by one byte per
      pixel: the pixel offset the header records points just past the
      palette, and the image size it records is the number of pixels. */
  lemma ExportPaletted(width: nat, height: nat, pixels: seq<byte>)
    requires IsU32(width) && IsU32(height) && IsU32(|pixels| + 1078)
    ensures ExportBmp(true, width, height, Palette() + pixels).Some?
    ensures var f := ExportBmp(true, width, height, Palette() + pixels).value;
      U32(f, 10) == 1078 && f[54..1078] == Palette() && f[1078..] == pixels && U32(f, 34) == |pixels|
  {
    ExportPrefixed(width, height, Palette(), pixels);
  }

  lemma ExportPrefixed(width: nat, height: nat, colours: seq<byte>, pixels: seq<byte>)
    requires |colours| == 1024 && IsU32(width) && IsU32(height) && IsU32(|pixels| + 1078)
    ensures ExportBmp(true, width, height, colours + pixels).Some?
    ensures var f := ExportBmp(true, width, height, colours + pixels).value;
      U32(f, 10) == 1078 && f[54..1078] == colours && f[1078..] == pixels && U32(f, 34) == |pixels|
  {
    var data := colours + pixels;
    var r := ExportBmp(true, width, height, data);
    assert r.Some?;
    var f := r.value;
    assert f[54..] == data && U32(f, 10) == 1078 && U32(f, 34) == |data| - 1024;
    SplitAfter(f, 54, colours, pixels);
  }

  lemma SplitAfter(f: seq<byte>, k: nat, a: seq<byte>, b: seq<byte>)
    requires k <= |f| && f[k..] == a + b
    ensures f[k..k + |a|] == a && f[k + |a|..] == b
  {
    assert f[k..k + |a|] == (a + b)[..|a|];
    assert f[k + |a|..] == (a + b)[|a|..];
  }
}
