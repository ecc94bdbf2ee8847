/** The pixel-format converters of the container: `b_parse_rgb565` (16-bit
    5-6-5 pixels to 32-bit BGRA) and `b_parse_rgb32b` / `b_parse_rgb24b`
    (32-bit or 24-bit pixels to BGRA with an opaque alpha, the .BIN variant
    also turning the tile upside down by 64-pixel rows). Each converter is a
    loop over the input, proved to compute the function that specifies it. */
module Colour {
  import opened Bytes

  // ---------------------------------------------------------------------------
  // 16-bit pixels

  /** A 5-bit channel widened to 8 bits: its bits on top, its top three bits
      repeated underneath. */
  function Widen5(v: bv16): bv16
    requires v < 32
  {
    (v << 3) | (v >> 2)
  }

  /** A 6-bit channel widened to 8 bits. */
  function Widen6(v: bv16): bv16
    requires v < 64
  {
    (v << 2) | (v >> 4)
  }

  /** One little-endian 16-bit pixel `pxl` to four bytes, in the order the
      source writes them: the low five bits widened, the middle six widened,
      the top five widened, and an opaque alpha. */
  function Pixel565(lo: byte, hi: byte): (r: seq<byte>)
    ensures |r| == 4 && r[3] == 0xFF
    ensures var pxl := (lo as bv16) | ((hi as bv16) << 8);
      && r[0] as bv16 == Widen5(pxl & 0x1F)
      && r[1] as bv16 == Widen6((pxl >> 5) & 0x3F)
      && r[2] as bv16 == Widen5(pxl >> 11)
  {
    var pxl := (lo as bv16) | ((hi as bv16) << 8);
    var bl := ((pxl >> 8) & 0xF8) | ((pxl >> 13) & 0x07);
    var gr := ((pxl >> 3) & 0xFC) | ((pxl >> 9) & 0x03);
    var re := ((pxl << 3) & 0xF8) | ((pxl >> 2) & 0x07);
    [re as byte, gr as byte, bl as byte, 0xFF]
  }

  /** No two 16-bit pixels give the same colour: each widened channel keeps
      all the bits it came from. */
  lemma Pixel565Injective(lo: byte, hi: byte, lo': byte, hi': byte)
    requires Pixel565(lo, hi) == Pixel565(lo', hi')
    ensures lo == lo' && hi == hi'
  {
    var p, q := Pixel565(lo, hi), Pixel565(lo', hi');
    assert p[0] == q[0] && p[1] == q[1] && p[2] == q[2];
  }

  /** Black stays black and white stays white. */
  lemma Pixel565Extremes()
    ensures Pixel565(0x00, 0x00) == [0x00, 0x00, 0x00, 0xFF]
    ensures Pixel565(0xFF, 0xFF) == [0xFF, 0xFF, 0xFF, 0xFF]
  {
  }

  /** b_parse_rgb565 on an even number of bytes. */
  function {:induction false} Rgb565(data: seq<byte>): (r: seq<byte>)
    requires |data| % 2 == 0
    ensures |r| == 2 * |data|
    decreases |data|
  {
    if |data| == 0 then [] else Pixel565(data[0], data[1]) + Rgb565(data[2..])
  }

  /** Input pixel j becomes output pixel j. */
  lemma {:induction false} Rgb565At(data: seq<byte>, j: nat)
    requires |data| % 2 == 0 && 2 * j + 2 <= |data|
    ensures Rgb565(data)[4 * j .. 4 * j + 4] == Pixel565(data[2 * j], data[2 * j + 1])
    decreases j
  {
    var r, tail := Rgb565(data), Rgb565(data[2..]);
    assert r == Pixel565(data[0], data[1]) + tail;
    if j > 0 {
      Rgb565At(data[2..], j - 1);
      assert r[4..] == tail;
      assert r[4 * j .. 4 * j + 4] == tail[4 * (j - 1) .. 4 * (j - 1) + 4];
    }
  }

  /** The converter loop. The source raises on an odd length when it unpacks
      the last, one-byte pixel; callers here check the length first. */
  method ParseRgb565(data: seq<byte>) returns (out: seq<byte>)
    requires |data| % 2 == 0
    ensures out == Rgb565(data)
  {
    out := [];
    var rest := data;
    while |rest| > 0
      invariant |rest| % 2 == 0
      invariant out + Rgb565(rest) == Rgb565(data)
      decreases |rest|
    {
      var lo, hi := rest[0], rest[1];
      out := out + Pixel565(lo, hi);
      rest := rest[2..];
    }
  }

  // ---------------------------------------------------------------------------
  // 32-bit and 24-bit pixels

  /** The input pixels at `stride` bytes apart, each cut to its first three
      bytes (fewer for a short last pixel) and given an opaque alpha. */
  function {:induction false} Bgra(data: seq<byte>, stride: nat): (r: seq<byte>)
    requires stride >= 1
    decreases |data|
  {
    if |data| == 0 then [] else Slice(data, 0, 3) + [0xFF] + Bgra(Drop(data, stride), stride)
  }

  /** A non-empty input of whole pixels starts with a whole pixel. */
  lemma DropPixel(data: seq<byte>, stride: nat)
    requires stride >= 1 && |data| > 0 && |data| % stride == 0
    ensures |data| >= stride && Drop(data, stride) == data[stride..]
    ensures (|data| - stride) % stride == 0 && |data| / stride == (|data| - stride) / stride + 1
  {
    var q := |data| / stride;
    assert |data| == q * stride;
    assert q >= 1;
    MulAtLeast(q, stride);
    DivModUnique(|data| - stride, stride, q - 1, 0);
  }

  lemma {:induction false} BgraLength(data: seq<byte>, stride: nat)
    requires stride == 3 || stride == 4
    requires |data| % stride == 0
    ensures |Bgra(data, stride)| == 4 * (|data| / stride)
    decreases |data|
  {
    if |data| > 0 {
      DropPixel(data, stride);
      BgraLength(data[stride..], stride);
    }
  }

  /** When the input is whole pixels, channel c of output pixel j is channel
      c of input pixel j, and its alpha (c == 3) is opaque. */
  lemma {:induction false} BgraAt(data: seq<byte>, stride: nat, j: nat, c: nat)
    requires stride == 3 || stride == 4
    requires |data| % stride == 0 && c < 4 && 4 * j + 4 <= |Bgra(data, stride)|
    ensures stride * j + 3 <= |data|
    ensures Bgra(data, stride)[4 * j + c] == if c == 3 then 0xFF else data[stride * j + c]
    decreases j
  {
    DropPixel(data, stride);
    var rest := data[stride..];
    assert Slice(data, 0, 3) == data[..3];
    assert Bgra(data, stride) == data[..3] + [0xFF] + Bgra(rest, stride);
    if j > 0 {
      BgraAt(rest, stride, j - 1, c);
      if stride == 3 {
        assert stride * j == 3 + 3 * (j - 1);
      } else {
        assert stride * j == 4 + 4 * (j - 1);
      }
      assert Bgra(data, stride)[4 * j + c] == Bgra(rest, stride)[4 * (j - 1) + c];
    }
  }

  /** The 256-byte rows of s (64 pixels of four bytes) in reverse order; a
      trailing partial row is dropped. */
  function {:induction false} FlipRows(s: seq<byte>): (r: seq<byte>)
    ensures |r| == |s| - |s| % 256
    decreases |s|
  {
    if |s| < 256 then [] else
      ModShift(|s|, 256, 256);
      FlipRows(s[256..]) + s[..256]
  }

  /** Rows after a whole number of rows come out first. */
  lemma {:induction false} FlipRowsAppend(a: seq<byte>, b: seq<byte>)
    requires |a| % 256 == 0
    ensures FlipRows(a + b) == FlipRows(b) + FlipRows(a)
    decreases |a|
  {
    if |a| == 0 {
      assert a + b == b;
    } else {
      ModShift(|a|, 256, 256);
      assert (a + b)[256..] == a[256..] + b;
      assert (a + b)[..256] == a[..256];
      FlipRowsAppend(a[256..], b);
    }
  }

  /** Output row j of a flipped buffer is input row n - 1 - j, n rows in all. */
  lemma {:induction false} FlipRowsAt(s: seq<byte>, j: nat)
    requires 256 * j + 256 <= |s| - |s| % 256
    ensures 256 * ((|s| / 256) - 1 - j) + 256 <= |s|
    ensures FlipRows(s)[256 * j .. 256 * j + 256] == s[256 * ((|s| / 256) - 1 - j) .. 256 * ((|s| / 256) - j)]
    decreases |s|
  {
    var n := |s| / 256;
    DivModUnique(|s|, 256, n, |s| % 256);
    var tail := s[256..];
    ModShift(|s|, 256, 256);
    DivModUnique(|tail|, 256, n - 1, |s| % 256);
    var f := FlipRows(s);
    assert f == FlipRows(tail) + s[..256];
    if j == n - 1 {
      assert f[256 * j .. 256 * j + 256] == s[..256];
    } else {
      FlipRowsAt(tail, j);
      var lo := 256 * (n - 1 - j);
      assert FlipRows(tail)[256 * j .. 256 * j + 256] == tail[lo - 256 .. lo];
      DropSlice(s, 256, lo - 256, lo);
      assert f[256 * j .. 256 * j + 256] == FlipRows(tail)[256 * j .. 256 * j + 256];
    }
  }

  /** What b_parse_rgb32b (stride 4) and b_parse_rgb24b (stride 3) return. */
  function TrueColour(data: seq<byte>, stride: nat, bin: bool): (r: seq<byte>)
    requires stride >= 1
  {
    var bgra := Bgra(data, stride);
    if bin then FlipRows(bgra) else bgra
  }

  /** m pixels of stride bytes become 4 * m bytes. */
  lemma TrueColourLength(data: seq<byte>, stride: nat, m: nat)
    requires (stride == 3 || stride == 4) && |data| == stride * m
    ensures |TrueColour(data, stride, false)| == 4 * m
  {
    DivModUnique(|data|, stride, m, 0);
    BgraLength(data, stride);
  }

  /** The converter loop, with the .BIN row buffer `d_buf`: a full row is put
      in front of everything output so far. */
  method ParseTrueColour(data: seq<byte>, stride: nat, bin: bool) returns (out: seq<byte>)
    requires stride == 3 || stride == 4
    ensures out == TrueColour(data, stride, bin)
  {
    out := [];
    var buf: seq<byte> := [];
    var rest := data;
    ghost var full: seq<byte> := [];
    ghost var done: seq<byte> := [];
    while |rest| > 0
      invariant done + Bgra(rest, stride) == Bgra(data, stride)
      invariant done == full + buf
      invariant !bin ==> out == full && buf == []
      invariant bin ==> |buf| < 256 && |full| % 256 == 0 && out == FlipRows(full)
      invariant bin && |rest| > 0 ==> |buf| % 4 == 0
      decreases |rest|
    {
      var pixel := Slice(rest, 0, 3) + [0xFF];
      ghost var next := Drop(rest, stride);
      Append3(done, pixel, Bgra(next, stride));
      Append3(full, buf, pixel);
      done := done + pixel;
      assert |pixel| <= 4 && (|next| > 0 ==> |pixel| == 4);
      if bin {
        BufferRoom(|buf|, |pixel|, |next| > 0);
        buf := buf + pixel;
        if |buf| == 256 {
          FlipRowsAppend(full, buf);
          FullRow(buf);
          ModShift(|full| + 256, 256, 256);
          out := buf + out;
          full, buf := full + buf, [];
          assert done == full + buf;
        }
      } else {
        out := out + pixel;
        full := full + pixel;
        assert done == full + buf;
      }
      rest := Drop(rest, stride);
    }
    assert Bgra(rest, stride) == [];
    assert done == Bgra(data, stride);
    if bin {
      FlipRowsAppend(full, buf);
      assert FlipRows(buf) == [];
    }
  }

  /** A row buffer of whole pixels never skips past a full row, and stays
      whole when another whole pixel is added. */
  lemma BufferRoom(len: nat, add: nat, whole: bool)
    requires len < 256 && len % 4 == 0 && add <= 4 && (whole ==> add == 4)
    ensures len + add <= 256
    ensures whole ==> (len + add) % 4 == 0
  {
    DivModUnique(len, 4, len / 4, 0);
    if whole {
      DivModUnique(len + add, 4, len / 4 + 1, 0);
    }
  }

  lemma Append3<T>(a: seq<T>, b: seq<T>, c: seq<T>)
    ensures a + (b + c) == (a + b) + c
  {
  }

  lemma FullRow(row: seq<byte>)
    requires |row| == 256
    ensures FlipRows(row) == row
  {
    assert row[256..] == [] && row[..256] == row;
  }
}
