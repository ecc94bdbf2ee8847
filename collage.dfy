/** The collage that `b_export` assembles when asked for one big image: every
    tile is padded to a full 64x64 cell, filler cells complete the last stripe
    of cells, and the image is written scanline by scanline, each scanline
    taking one 64-pixel row from every cell of a stripe (right to left for
    .BIN caches, whose tiles are stored in reverse order). */
module Collage {
  import opened Bytes
  import opened Bitmap

  /** Bytes per pixel of the collage: one palette index, or four BGRA bytes. */
  function Unit(pal: bool): (u: nat)
    ensures u == 1 || u == 4
  {
    if pal then 1 else 4
  }

  /** The pixel `pad` that fills missing cells: white (index 255 or opaque
      white BGRA). */
  function Pad(unit: nat): (p: seq<byte>)
    ensures |p| == unit && forall i :: 0 <= i < unit ==> p[i] == 0xFF
  {
    seq(unit, _ => 0xFF)
  }

  /** The padding loop of one tile: whole rows of white pixels are appended
      while the tile is shorter than 64 rows. */
  function {:induction false} PadTile(t: seq<byte>, unit: nat): (r: seq<byte>)
    requires unit >= 1
    ensures |r| >= |t| && |r| >= 4096 * unit && r[..|t|] == t
    ensures forall i :: |t| <= i < |r| ==> r[i] == 0xFF
    ensures |t| >= 4096 * unit ==> r == t
    decreases 4096 * unit - |t|
  {
    if |t| >= 4096 * unit then t
    else
      var row := Repeat(Pad(unit), 64);
      WhiteRow(unit);
      var r := PadTile(t + row, unit);
      assert r[..|t|] == r[..|t + row|][..|t|];
      r
  }

  /** A row of pad pixels is 64 * unit white bytes. */
  lemma WhiteRow(unit: nat)
    requires unit >= 1
    ensures |Repeat(Pad(unit), 64)| == 64 * unit
    ensures forall i :: 0 <= i < 64 * unit ==> Repeat(Pad(unit), 64)[i] == 0xFF
  {
    forall i | 0 <= i < 64 * unit
      ensures Repeat(Pad(unit), 64)[i] == 0xFF
    {
      RepeatAt(Pad(unit), 64, i);
    }
  }

  /** A tile of whole rows, at most 64 of them, is padded to exactly 64 rows. */
  lemma {:induction false} PadTileExact(t: seq<byte>, unit: nat)
    requires unit >= 1 && |t| % (64 * unit) == 0 && |t| <= 4096 * unit
    ensures |PadTile(t, unit)| == 4096 * unit
    decreases 4096 * unit - |t|
  {
    if |t| < 4096 * unit {
      var row := Repeat(Pad(unit), 64);
      WhiteRow(unit);
      NextRow(|t|, 64 * unit);
      PadTileExact(t + row, unit);
    }
  }

  /** One more row of b bytes after whole rows keeps whole rows, and stays
      within 64 rows. */
  lemma NextRow(len: nat, b: nat)
    requires b > 0 && len % b == 0 && len < 64 * b
    ensures (len + b) % b == 0 && len + b <= 64 * b
  {
    var q := len / b;
    DivModUnique(len, b, q, 0);
    if q >= 64 {
      MulLe(64, q, b);
      assert false;
    }
    DivModUnique(len + b, b, q + 1, 0);
    MulLe(q + 1, 64, b);
  }

  /** What a tile is before padding: a paletted tile loses its palette (the
      whole tile is sliced from byte 1024 on, which leaves nothing of a
      shorter one). */
  function Prepare(t: seq<byte>, pal: bool): (r: seq<byte>)
    ensures |r| >= 4096 * Unit(pal)
  {
    PadTile(if pal then Drop(t, 1024) else t, Unit(pal))
  }

  /** Every tile of the list prepared. */
  function PrepareAll(tiles: seq<seq<byte>>, pal: bool): (r: seq<seq<byte>>)
    ensures |r| == |tiles| && Padded(r, Unit(pal))
    ensures forall i :: 0 <= i < |r| ==> r[i] == Prepare(tiles[i], pal)
  {
    seq(|tiles|, i requires 0 <= i < |tiles| => Prepare(tiles[i], pal))
  }

  /** Every tile covers a full 64x64 cell. */
  predicate Padded(tiles: seq<seq<byte>>, unit: nat)
  {
    forall i :: 0 <= i < |tiles| ==> |tiles[i]| >= 4096 * unit
  }

  // ---------------------------------------------------------------------------
  // Geometry

  /** The number of filler cells and the image size in cells. */
  datatype Grid = Grid(fillers: nat, rows: nat, cols: nat)

  function Rows(g: Grid): nat { g.rows }

  function Cols(g: Grid): nat { g.cols }

  /** The image size in pixels: `w` and `h`. */
  function Width(g: Grid): nat { 64 * g.cols }

  function Height(g: Grid): nat { 64 * g.rows }

  /** With at least a stripe of tiles, the image is a stripe wide and the
      last stripe is completed with filler cells; otherwise it is one row of
      all the tiles. */
  function Layout(n: nat, sw: nat): (g: Grid)
    requires sw > 0
    ensures Rows(g) >= 1 && Rows(g) * Cols(g) == n + g.fillers
    ensures g.fillers < sw
    ensures n >= sw ==> (n + g.fillers) % sw == 0 && Cols(g) == sw
    ensures n < sw ==> g.fillers == 0 && Rows(g) == 1 && Cols(g) == n
  {
    if n / sw > 0 then
      var m := n % sw;
      var f := if m != 0 then sw - m else 0;
      StripeFill(n, sw);
      Grid(f, (n + f) / sw, sw)
    else
      assert n < sw by { DivModUnique(n, sw, n / sw, n % sw); }
      Grid(0, 1, n)
  }

  /** With at least a stripe of tiles, the sw - n % sw fillers (none when sw
      divides n) complete a whole number of stripes. */
  lemma StripeFill(n: nat, sw: nat)
    requires sw > 0 && n / sw > 0
    ensures var m := n % sw; var f := if m != 0 then sw - m else 0;
      && n >= sw && f < sw && (n + f) % sw == 0
      && (n + f) / sw >= 1 && (n + f) / sw * sw == n + f
  {
    var q, m := n / sw, n % sw;
    var f := if m != 0 then sw - m else 0;
    var rows := q + (if m != 0 then 1 else 0);
    assert n == q * sw + m;
    assert n + f == rows * sw by {
      if m != 0 { assert (q + 1) * sw == q * sw + sw; }
    }
    DivModUnique(n + f, sw, rows, 0);
    MulLe(1, q, sw);
  }


  /** With n at least a stripe and not a whole number of stripes, exactly
      sw - n % sw fillers are added, the image is 64 * sw pixels wide and 64
      pixels high per stripe. */
  lemma LayoutFillers(n: nat, sw: nat)
    requires sw > 0 && n >= sw && n % sw != 0
    ensures Layout(n, sw).fillers == sw - n % sw
    ensures Width(Layout(n, sw)) == 64 * sw
    ensures Height(Layout(n, sw)) == 64 * ((n + sw - n % sw) / sw)
  {
    DivModUnique(n, sw, n / sw, n % sw);
  }

  // ---------------------------------------------------------------------------
  // Pixels

  /** The tile in stripe x, column k: .BIN stripes are read right to left. */
  function Cell(sw: nat, bin: bool, x: nat, k: nat): int
  {
    if bin then sw * (x + 1) - 1 - k else sw * x + k
  }

  /** Every cell of the grid names one of `count` tiles. */
  predicate CellsInRange(count: nat, sw: nat, bin: bool, g: Grid)
  {
    forall x, k :: 0 <= x < Rows(g) && 0 <= k < Cols(g) ==> 0 <= Cell(sw, bin, x, k) < count
  }

  /** Once the fillers are added, every cell is a tile, except for a .BIN
      cache with fewer tiles than a stripe, whose first cell lies past the
      last tile. */
  lemma CellsFit(n: nat, sw: nat, bin: bool)
    requires sw > 0
    ensures CellsInRange(n + Layout(n, sw).fillers, sw, bin, Layout(n, sw)) <==> (!bin || n == 0 || n >= sw)
  {
    var g := Layout(n, sw);
    if n >= sw {
      FullStripes(sw, bin, g, n + g.fillers);
    } else if bin && n > 0 {
      assert Cell(sw, bin, 0, 0) == sw - 1;
    } else {
      assert CellsInRange(n, sw, bin, Grid(0, 1, n));
    }
  }

  /** Whole stripes of sw cells hold their own tiles. */
  lemma FullStripes(sw: nat, bin: bool, g: Grid, count: nat)
    requires Cols(g) == sw && Rows(g) * sw == count
    ensures CellsInRange(count, sw, bin, g)
  {
    forall x, k | 0 <= x < Rows(g) && 0 <= k < sw
      ensures 0 <= Cell(sw, bin, x, k) < count
    {
      StripeCell(sw, bin, x, k, Rows(g));
    }
  }

  /** The cells of stripe x are the tiles sw * x up to sw * (x + 1). */
  lemma StripeCell(sw: nat, bin: bool, x: nat, k: nat, rows: nat)
    requires k < sw && x < rows
    ensures sw * x <= Cell(sw, bin, x, k) < sw * rows
  {
    MulLe(x + 1, rows, sw);
    assert sw * (x + 1) == sw * x + sw;
  }

  /** Row j of a cell: bytes 64 * unit * j up to 64 * unit * (j + 1). */
  function Strip(t: seq<byte>, unit: nat, j: nat): (r: seq<byte>)
    ensures |t| >= 4096 * unit && j < 64 ==> |r| == 64 * unit
    ensures |r| == 0 || 64 * unit * j + |r| <= |t|
    ensures forall i :: 0 <= i < |r| ==> r[i] == t[64 * unit * j + i]
  {
    RowBound(unit, j);
    Slice(t, 64 * unit * j, 64 * unit * (j + 1))
  }

  lemma RowBound(unit: nat, j: nat)
    ensures 64 * unit * (j + 1) == 64 * unit * j + 64 * unit
    ensures j < 64 ==> 64 * unit * (j + 1) <= 4096 * unit
  {
    if j < 64 {
      MulLe(j + 1, 64, 64 * unit);
    }
  }

  /** The tiles of stripe x, left to right in the image. */
  function Stripe(tiles: seq<seq<byte>>, sw: nat, bin: bool, g: Grid, x: nat): (r: seq<seq<byte>>)
    requires CellsInRange(|tiles|, sw, bin, g) && x < Rows(g)
    ensures |r| == Cols(g)
    ensures forall k :: 0 <= k < Cols(g) ==> r[k] == tiles[Cell(sw, bin, x, k)]
    ensures Padded(tiles, 1) ==> Padded(r, 1)
    ensures Padded(tiles, 4) ==> Padded(r, 4)
  {
    seq(Cols(g), k requires 0 <= k < Cols(g) => tiles[Cell(sw, bin, x, k)])
  }

  /** Row j of every cell of a stripe. */
  function Strips(cells: seq<seq<byte>>, unit: nat, j: nat): (r: seq<seq<byte>>)
    ensures |r| == |cells|
    ensures forall k :: 0 <= k < |cells| ==> r[k] == Strip(cells[k], unit, j)
  {
    seq(|cells|, k requires 0 <= k < |cells| => Strip(cells[k], unit, j))
  }

  /** Scanline j of a stripe: `b"".join(... for k in WIDTH)`. */
  function Scanline(cells: seq<seq<byte>>, unit: nat, j: nat): seq<byte>
  {
    Concat(Strips(cells, unit, j))
  }

  /** The 64 scanlines of a stripe, top to bottom. */
  function Lines(cells: seq<seq<byte>>, unit: nat): (r: seq<seq<byte>>)
    ensures |r| == 64
    ensures forall j :: 0 <= j < 64 ==> r[j] == Scanline(cells, unit, j)
  {
    seq(64, j requires 0 <= j < 64 => Scanline(cells, unit, j))
  }

  /** A stripe: `collage_builder(x)`. */
  function Band(cells: seq<seq<byte>>, unit: nat): seq<byte>
  {
    Concat(Lines(cells, unit))
  }

  /** The stripes, top to bottom. */
  function Bands(tiles: seq<seq<byte>>, sw: nat, bin: bool, unit: nat, g: Grid): (r: seq<seq<byte>>)
    requires CellsInRange(|tiles|, sw, bin, g)
    ensures |r| == Rows(g)
    ensures forall x :: 0 <= x < Rows(g) ==> r[x] == Band(Stripe(tiles, sw, bin, g, x), unit)
  {
    seq(Rows(g), x requires 0 <= x < Rows(g) => Band(Stripe(tiles, sw, bin, g, x), unit))
  }

  /** The pixel data of the collage, stripe after stripe. */
  function Pixels(tiles: seq<seq<byte>>, sw: nat, bin: bool, unit: nat, g: Grid): seq<byte>
    requires CellsInRange(|tiles|, sw, bin, g)
  {
    Concat(Bands(tiles, sw, bin, unit, g))
  }

  lemma ScanlineLength(cells: seq<seq<byte>>, unit: nat, j: nat)
    requires Padded(cells, unit) && j < 64
    ensures |Scanline(cells, unit, j)| == |cells| * (64 * unit)
  {
    ConcatLength(Strips(cells, unit, j), 64 * unit);
  }

  lemma BandLength(cells: seq<seq<byte>>, unit: nat)
    requires Padded(cells, unit)
    ensures |Band(cells, unit)| == 64 * (|cells| * (64 * unit))
  {
    var lines := Lines(cells, unit);
    forall j | 0 <= j < 64
      ensures |lines[j]| == |cells| * (64 * unit)
    {
      ScanlineLength(cells, unit, j);
    }
    ConcatLength(lines, |cells| * (64 * unit));
  }

  /** The collage holds width * height pixels of `unit` bytes. */
  lemma PixelsLength(tiles: seq<seq<byte>>, sw: nat, bin: bool, unit: nat, g: Grid)
    requires CellsInRange(|tiles|, sw, bin, g) && Padded(tiles, unit) && (unit == 1 || unit == 4)
    ensures |Pixels(tiles, sw, bin, unit, g)| == Width(g) * Height(g) * unit
  {
    var band := 64 * (Cols(g) * (64 * unit));
    var bands := Bands(tiles, sw, bin, unit, g);
    forall x | 0 <= x < Rows(g)
      ensures |bands[x]| == band
    {
      BandLength(Stripe(tiles, sw, bin, g, x), unit);
    }
    ConcatLength(bands, band);
    Area(Rows(g), Cols(g), unit);
  }

  lemma Area(rows: nat, cols: nat, unit: nat)
    ensures rows * (64 * (cols * (64 * unit))) == (64 * cols) * (64 * rows) * unit
  {
  }

  /** Offset i in block k of n blocks of b bytes lies within the n blocks. */
  lemma Below(k: nat, i: nat, n: nat, b: nat)
    requires k < n && i < b
    ensures k * b + i < n * b
  {
    MulLe(k + 1, n, b);
    assert (k + 1) * b == k * b + b;
  }

  /** Byte i of row j of cell k is byte p = k * 64 * unit + i of scanline j. */
  lemma StripAt(cells: seq<seq<byte>>, unit: nat, j: nat, k: nat, i: nat, p: nat, off: nat)
    requires Padded(cells, unit) && j < 64 && k < |cells| && i < 64 * unit
    requires p == k * (64 * unit) + i && off == 64 * unit * j + i
    ensures p < |Scanline(cells, unit, j)| && off < |cells[k]|
    ensures Scanline(cells, unit, j)[p] == cells[k][off]
  {
    var strips := Strips(cells, unit, j);
    ConcatLength(strips, 64 * unit);
    Below(k, i, |cells|, 64 * unit);
    ConcatBlock(strips, 64 * unit, k, i, p);
  }

  /** Byte r of scanline j is byte p = j * (scanline length) + r of the stripe. */
  lemma ScanlineAt(cells: seq<seq<byte>>, unit: nat, j: nat, r: nat, p: nat)
    requires Padded(cells, unit) && j < 64 && r < |cells| * (64 * unit)
    requires p == j * (|cells| * (64 * unit)) + r
    ensures p < |Band(cells, unit)| && r < |Scanline(cells, unit, j)|
    ensures Band(cells, unit)[p] == Scanline(cells, unit, j)[r]
  {
    var line := |cells| * (64 * unit);
    var lines := Lines(cells, unit);
    forall y | 0 <= y < 64
      ensures |lines[y]| == line
    {
      ScanlineLength(cells, unit, y);
    }
    ConcatLength(lines, line);
    Below(j, r, 64, line);
    ConcatBlock(lines, line, j, r, p);
  }

  /** Byte i of row j of cell k of a stripe, within the stripe: byte r. */
  lemma BandPixel(cells: seq<seq<byte>>, unit: nat, j: nat, k: nat, i: nat, r: nat)
    requires Padded(cells, unit) && j < 64 && k < |cells| && i < 64 * unit
    requires r == j * (|cells| * (64 * unit)) + k * (64 * unit) + i
    ensures r < |Band(cells, unit)| && 64 * unit * j + i < |cells[k]|
    ensures Band(cells, unit)[r] == cells[k][64 * unit * j + i]
  {
    MulLe(0, k, 64 * unit);
    MulLe(0, j, 64 * unit);
    Below(k, i, |cells|, 64 * unit);
    StripAt(cells, unit, j, k, i, k * (64 * unit) + i, 64 * unit * j + i);
    ScanlineAt(cells, unit, j, k * (64 * unit) + i, r);
  }

  /** Byte r of stripe x is byte p = x * (stripe length) + r of the collage. */
  lemma BandAt(tiles: seq<seq<byte>>, sw: nat, bin: bool, unit: nat, g: Grid, x: nat, r: nat, p: nat)
    requires CellsInRange(|tiles|, sw, bin, g) && Padded(tiles, unit) && (unit == 1 || unit == 4)
    requires x < Rows(g) && r < 64 * (Cols(g) * (64 * unit))
    requires p == x * (64 * (Cols(g) * (64 * unit))) + r
    ensures p < |Pixels(tiles, sw, bin, unit, g)|
    ensures r < |Band(Stripe(tiles, sw, bin, g, x), unit)|
    ensures Pixels(tiles, sw, bin, unit, g)[p] == Band(Stripe(tiles, sw, bin, g, x), unit)[r]
  {
    var band := 64 * (Cols(g) * (64 * unit));
    var bands := Bands(tiles, sw, bin, unit, g);
    forall y | 0 <= y < Rows(g)
      ensures |bands[y]| == band
    {
      BandLength(Stripe(tiles, sw, bin, g, y), unit);
    }
    ConcatLength(bands, band);
    Below(x, r, Rows(g), band);
    ConcatBlock(bands, band, x, r, p);
  }

  /** Byte i of row j of the tile in stripe x, column k, sits in the collage
      at scanline 64 * x + j, after k cell rows: the scanlines interleave the
      rows of the cells of a stripe, and the stripes follow one another. */
  lemma PixelAt(tiles: seq<seq<byte>>, sw: nat, bin: bool, unit: nat, g: Grid, x: nat, j: nat, k: nat, i: nat, p: nat, off: nat)
    requires CellsInRange(|tiles|, sw, bin, g) && Padded(tiles, unit) && (unit == 1 || unit == 4)
    requires x < Rows(g) && j < 64 && k < Cols(g) && i < 64 * unit
    requires p == ((64 * x + j) * Cols(g) + k) * (64 * unit) + i && off == 64 * unit * j + i
    ensures 0 <= Cell(sw, bin, x, k) < |tiles|
    ensures p < |Pixels(tiles, sw, bin, unit, g)| && off < |tiles[Cell(sw, bin, x, k)]|
    ensures Pixels(tiles, sw, bin, unit, g)[p] == tiles[Cell(sw, bin, x, k)][off]
  {
    var cells := Stripe(tiles, sw, bin, g, x);
    MulLe(0, j, Cols(g) * (64 * unit));
    MulLe(0, k, 64 * unit);
    var r := j * (Cols(g) * (64 * unit)) + k * (64 * unit) + i;
    BandPixel(cells, unit, j, k, i, r);
    BandLength(cells, unit);
    Offset(x, j, k, i, Cols(g), 64 * unit);
    BandAt(tiles, sw, bin, unit, g, x, r, p);
  }

  lemma Offset(x: nat, j: nat, k: nat, i: nat, cols: nat, strip: nat)
    ensures x * (64 * (cols * strip)) + (j * (cols * strip) + k * strip + i) == ((64 * x + j) * cols + k) * strip + i
  {
  }

  // ---------------------------------------------------------------------------
  // The whole collage

  /** A filler cell: 64 rows of pad pixels. */
  function Filler(unit: nat): (t: seq<byte>)
    ensures |t| == 4096 * unit
  {
    Repeat(Pad(unit), 64 * 64)
  }

  /** The tile list after the collage code: each tile prepared, then the
      fillers. */
  function Cells(tiles: seq<seq<byte>>, pal: bool, sw: nat): (r: seq<seq<byte>>)
    requires sw > 0
    ensures |r| == |tiles| + Layout(|tiles|, sw).fillers && Padded(r, Unit(pal))
    ensures r[..|tiles|] == PrepareAll(tiles, pal)
    ensures forall i :: |tiles| <= i < |r| ==> r[i] == Filler(Unit(pal))
  {
    var fillers := seq(Layout(|tiles|, sw).fillers, _ => Filler(Unit(pal)));
    var r := PrepareAll(tiles, pal) + fillers;
    assert r[..|tiles|] == PrepareAll(tiles, pal);
    r
  }

  /** The bytes handed to b_export_bmp: the palette, if any, then the pixels. */
  function Data(tiles: seq<seq<byte>>, pal: bool, sw: nat, bin: bool): seq<byte>
    requires sw > 0 && (!bin || |tiles| == 0 || |tiles| >= sw)
  {
    var g := Layout(|tiles|, sw);
    CellsFit(|tiles|, sw, bin);
    (if pal then Palette() else []) + Pixels(Cells(tiles, pal, sw), sw, bin, Unit(pal), g)
  }

  /** The collage file: refused exactly when a header field would not fit in
      32 bits; otherwise it records the layout's width and height and holds
      the data after its header. */
  function Image(tiles: seq<seq<byte>>, pal: bool, sw: nat, bin: bool): (r: Option<seq<byte>>)
    requires sw > 0 && (!bin || |tiles| == 0 || |tiles| >= sw)
    ensures var g := Layout(|tiles|, sw);
      r.Some? <==> IsU32(Width(g)) && IsU32(Height(g)) && IsU32(HeaderSize(pal) + |Data(tiles, pal, sw, bin)|)
    ensures r.Some? ==> var g := Layout(|tiles|, sw); var f := r.value;
      && |f| == HeaderSize(pal) + |Data(tiles, pal, sw, bin)|
      && U32(f, 18) == Width(g) && U32(f, 22) == Height(g)
      && f[HeaderSize(pal)..] == Data(tiles, pal, sw, bin)
  {
    var g := Layout(|tiles|, sw);
    ExportBmp(pal, Width(g), Height(g), Data(tiles, pal, sw, bin))
  }

  /** How the collage part of b_export ends: no stripe width to divide by,
      a first cell past the last .BIN tile, a header field too large for 32
      bits, or the collage file. */
  datatype End = NoStripe | CellOutOfRange | TooLarge | Made(file: seq<byte>)

  /** The end of the collage part and the tile list it leaves behind. */
  datatype Collaged = Collaged(end: End, cells: seq<seq<byte>>)

  /** The collage part of b_export: a zero stripe width fails on the
      division once the tiles are padded; otherwise the fillers go in and the
      collage ends as Ended says. */
  function Built(tiles: seq<seq<byte>>, pal: bool, sw: nat, bin: bool): (r: Collaged)
    ensures r.end == NoStripe <==> sw == 0
    ensures sw == 0 ==> r.cells == PrepareAll(tiles, pal)
    ensures sw > 0 ==> r.cells == Cells(tiles, pal, sw)
  {
    if sw == 0 then Collaged(NoStripe, PrepareAll(tiles, pal))
    else Collaged(Ended(tiles, pal, sw, bin), Cells(tiles, pal, sw))
  }

  /** With a stripe width: a .BIN cache with fewer tiles than a stripe fails
      on its first cell; otherwise the file is the collage image unless a
      header field overflows. */
  function Ended(tiles: seq<seq<byte>>, pal: bool, sw: nat, bin: bool): (e: End)
    requires sw > 0
    ensures e != NoStripe
    ensures e == CellOutOfRange <==> bin && 0 < |tiles| < sw
    ensures e.Made? ==> Image(tiles, pal, sw, bin) == Some(e.file)
    ensures e == TooLarge ==> Image(tiles, pal, sw, bin).None?
  {
    if bin && 0 < |tiles| < sw then CellOutOfRange
    else
      match Image(tiles, pal, sw, bin)
      case None => TooLarge
      case Some(f) => Made(f)
  }

  /** The data is width * height pixels, after the palette when paletted. */
  lemma DataLength(tiles: seq<seq<byte>>, pal: bool, sw: nat, bin: bool)
    requires sw > 0 && (!bin || |tiles| == 0 || |tiles| >= sw)
    ensures var g := Layout(|tiles|, sw);
      |Data(tiles, pal, sw, bin)| == Width(g) * Height(g) * Unit(pal) + (if pal then 1024 else 0)
  {
    var g := Layout(|tiles|, sw);
    CellsFit(|tiles|, sw, bin);
    PixelsLength(Cells(tiles, pal, sw), sw, bin, Unit(pal), g);
  }

  /** Pixel i of row j of the cell at stripe x, column k of the image is
      pixel i of row j of tile Cell(x, k) once prepared, or white for a
      filler. */
  lemma CellPixel(tiles: seq<seq<byte>>, pal: bool, sw: nat, bin: bool, g: Grid, x: nat, j: nat, k: nat, i: nat, q: nat, off: nat)
    requires sw > 0 && CellsInRange(|Cells(tiles, pal, sw)|, sw, bin, g)
    requires x < Rows(g) && j < 64 && k < Cols(g) && i < 64 * Unit(pal)
    requires q == ((64 * x + j) * Cols(g) + k) * (64 * Unit(pal)) + i && off == 64 * Unit(pal) * j + i
    ensures 0 <= Cell(sw, bin, x, k) < |Cells(tiles, pal, sw)|
    ensures q < |Pixels(Cells(tiles, pal, sw), sw, bin, Unit(pal), g)|
    ensures Pixels(Cells(tiles, pal, sw), sw, bin, Unit(pal), g)[q] == CellByte(tiles, pal, Cell(sw, bin, x, k), off)
  {
    var unit := Unit(pal);
    var cells := Cells(tiles, pal, sw);
    PixelAt(cells, sw, bin, unit, g, x, j, k, i, q, off);
    assert off < 4096 * unit by { RowBound(unit, j); }
    CellAt(tiles, pal, sw, Cell(sw, bin, x, k), off);
  }

  /** Byte q of cell c: of the prepared tile c, or white past the tiles. */
  function CellByte(tiles: seq<seq<byte>>, pal: bool, c: int, q: int): byte
  {
    if 0 <= c < |tiles| && 0 <= q < |Prepare(tiles[c], pal)| then Prepare(tiles[c], pal)[q] else 0xFF
  }

  /** The pixels follow the palette, if any. */
  lemma DataSplit(tiles: seq<seq<byte>>, pal: bool, sw: nat, bin: bool)
    requires sw > 0 && (!bin || |tiles| == 0 || |tiles| >= sw)
    requires CellsInRange(|Cells(tiles, pal, sw)|, sw, bin, Layout(|tiles|, sw))
    ensures Data(tiles, pal, sw, bin) == (if pal then Palette() else []) + Pixels(Cells(tiles, pal, sw), sw, bin, Unit(pal), Layout(|tiles|, sw))
  {
  }

  /** A cell is a prepared tile or a white filler. */
  lemma CellAt(tiles: seq<seq<byte>>, pal: bool, sw: nat, c: nat, q: nat)
    requires sw > 0 && c < |Cells(tiles, pal, sw)| && q < 4096 * Unit(pal)
    ensures q < |Cells(tiles, pal, sw)[c]| && Cells(tiles, pal, sw)[c][q] == CellByte(tiles, pal, c, q)
  {
    var cells := Cells(tiles, pal, sw);
    if c < |tiles| {
      assert cells[c] == cells[..|tiles|][c];
    } else {
      RepeatAt(Pad(Unit(pal)), 64 * 64, q);
    }
  }
}
