/** What `b_import` and `b_process` compute, written as functions: which kind
    of cache a file is, how one tile is read from the front of the remaining
    stream, and the walk over the stream that collects the tiles. The class in
    module Container runs the same steps in place and is proved to agree. */
module Tiles {
  import opened Bytes
  import Codec
  import Colour
  import Bitmap

  /** The two container formats: a .BMC cache (bcache2x.bmc and similar) and
      a .BIN cache (Cache0000.bin and similar). */
  datatype Kind = Bmc | Bin

  /** The Python exceptions the container lets escape. */
  datatype Exception = StructError | ZeroDivisionError | TypeError | IndexError

  /** How a call of the container ends: it returns True or False, or raises. */
  datatype Outcome = Returned(ok: bool) | Raised(error: Exception)

  /** `RDP8bmp\0`, the first eight bytes of a .BIN cache. */
  const BinMagic: seq<byte> := [0x52, 0x44, 0x50, 0x38, 0x62, 0x6D, 0x70, 0x00]

  /** TILE_HEADER_SIZE: 0x14 bytes per .BMC tile header, 0xC per .BIN one. */
  function TileHeaderSize(k: Kind): (n: nat)
    ensures n >= 12
  {
    match k
    case Bmc => 0x14
    case Bin => 0xC
  }

  // ---------------------------------------------------------------------------
  // b_import, once the file has been read

  /** A loaded file: its kind and the tile stream that follows any file header. */
  datatype Loaded = Loaded(kind: Kind, stream: seq<byte>)

  /** The kind of a non-empty file and its tile stream. A .BIN file loses its
      magic and the 4-byte version after it; the version is unpacked for the
      log message, so a .BIN file cut short inside the version raises (None). */
  function Detect(data: seq<byte>): (r: Option<Loaded>)
    ensures r.None? <==> |data| >= 8 && data[..8] == BinMagic && |data| < 12
    ensures r.Some? && |data| >= 8 && data[..8] == BinMagic ==> r.value == Loaded(Bin, data[12..])
    ensures r.Some? && !(|data| >= 8 && data[..8] == BinMagic) ==> r.value == Loaded(Bmc, data)
  {
    if |data| >= 8 && data[..8] == BinMagic then
      if |data| < 12 then None else Some(Loaded(Bin, data[12..]))
    else
      Some(Loaded(Bmc, data))
  }

  /** A .BIN file is recognised by its magic whatever version and tiles follow. */
  lemma DetectBin(version: seq<byte>, stream: seq<byte>)
    requires |version| == 4
    ensures Detect(BinMagic + version + stream) == Some(Loaded(Bin, stream))
  {
    var data := BinMagic + version + stream;
    assert data[..8] == BinMagic;
    assert data[12..] == stream;
  }

  // ---------------------------------------------------------------------------
  // The cell size of compressed tiles

  /** Python's `sub in s` on strings. */
  function {:induction false} Contains(s: string, sub: string): (b: bool)
    ensures b ==> |s| >= |sub|
    decreases |s|
  {
    |s| >= |sub| && (s[..|sub|] == sub || (|s| > 0 && Contains(s[1..], sub)))
  }

  /** The cell size the file name gives away, or 0: "22.bmc" is checked before
      "2.bmc", which it also contains. */
  function CellSizeByName(fname: string): (bl: nat)
    ensures bl in {0, 4096, 8192, 16384}
  {
    if Contains(fname, "22.bmc") then 64 * 64 * 2
    else if Contains(fname, "24.bmc") then 64 * 64 * 4
    else if Contains(fname, "2.bmc") then 64 * 64
    else 0
  }

  /** What the size probe finds: a cell size, nothing, or a struct.error from
      unpacking fewer than two bytes. */
  datatype Probe = Found(cell: nat) | Missing | ProbeRaised

  /** Bytes of the cell candidates, in the order the probe tries them. */
  const Candidates: seq<nat> := [1, 2, 4]

  /** The probe loop over the candidates bs: for a cell of 4096 * b bytes the
      next tile header would start at hdr + 4096 * b, and its width field, 8
      bytes further on, must read 64. The loop stops at the first candidate
      that lies past the end of the stream. */
  function {:induction false} ProbeFrom(bdat: seq<byte>, hdr: nat, bs: seq<nat>): (r: Probe)
    requires forall i :: 0 <= i < |bs| ==> bs[i] >= 1
    ensures r.Found? ==> r.cell >= 4096 && hdr + r.cell + 10 <= |bdat| && U16(bdat, hdr + r.cell + 8) == 64
    ensures r.Found? ==> exists i :: 0 <= i < |bs| && r.cell == 4096 * bs[i]
    decreases |bs|
  {
    if |bs| == 0 then Missing
    else
      var pos := hdr + 4096 * bs[0] + 8;
      if |bdat| < pos then Missing
      else if |bdat| < pos + 2 then ProbeRaised
      else if U16(bdat, pos) == 64 then Found(4096 * bs[0])
      else
        var r := ProbeFrom(bdat, hdr, bs[1..]);
        assert r.Found? ==> exists i :: 0 <= i < |bs| && r.cell == 4096 * bs[i] by {
          if r.Found? {
            var i :| 0 <= i < |bs[1..]| && r.cell == 4096 * bs[1..][i];
            assert r.cell == 4096 * bs[i + 1];
          }
        }
        r
  }

  /** Candidates in increasing order. */
  predicate Increasing(bs: seq<nat>)
  {
    forall i, j :: 0 <= i < j < |bs| ==> bs[i] < bs[j]
  }

  /** When the probe finds nothing, no candidate that lies within the stream
      has a width field of 64 there. */
  lemma {:induction false} ProbeMissing(bdat: seq<byte>, hdr: nat, bs: seq<nat>)
    requires forall i :: 0 <= i < |bs| ==> bs[i] >= 1
    requires Increasing(bs) && ProbeFrom(bdat, hdr, bs) == Missing
    ensures forall i :: 0 <= i < |bs| && hdr + 4096 * bs[i] + 10 <= |bdat| ==> U16(bdat, hdr + 4096 * bs[i] + 8) != 64
    decreases |bs|
  {
    if |bs| > 0 {
      var pos := hdr + 4096 * bs[0] + 8;
      if |bdat| < pos {
        forall i | 0 <= i < |bs|
          ensures hdr + 4096 * bs[i] + 10 > |bdat|
        {
          if i > 0 {
            assert bs[0] < bs[i];
            MulLe(bs[0], bs[i], 4096);
          }
        }
      } else {
        assert forall i :: 0 <= i < |bs[1..]| ==> bs[1..][i] == bs[i + 1];
        ProbeMissing(bdat, hdr, bs[1..]);
        forall i | 1 <= i < |bs| && hdr + 4096 * bs[i] + 10 <= |bdat|
          ensures U16(bdat, hdr + 4096 * bs[i] + 8) != 64
        {
          assert bs[i] == bs[1..][i - 1];
        }
      }
    }
  }

  /** The cell size of a .BMC cache when no tile has fixed it yet. */
  function CellSize(fname: string, bdat: seq<byte>, hdr: nat): (r: Probe)
    ensures r.Found? ==> r.cell in {4096, 8192, 16384}
  {
    var named := CellSizeByName(fname);
    if named != 0 then Found(named)
    else
      var r := ProbeFrom(bdat, hdr, Candidates);
      assert r.Found? ==> r.cell in {4096, 8192, 16384} by {
        if r.Found? {
          var i :| 0 <= i < |Candidates| && r.cell == 4096 * Candidates[i];
        }
      }
      r
  }

  // ---------------------------------------------------------------------------
  // One tile

  /** A tile as b_process keeps it: the converted pixels (empty when the tile
      is skipped), the "old" pixels below a short tile (empty if none), the
      cell size that moves the cursor, and whether the tile set the palette
      flag. */
  datatype Tile = Tile(bmp: seq<byte>, prior: seq<byte>, cell: nat, paletted: bool)

  /** Reading the tile at the front of the stream: a tile, or the way
      b_process ends there. */
  datatype Read = Got(tile: Tile) | Failed(outcome: Outcome)

  /** Python's `len(t_hdr)`: the header is cut short at the end of the stream. */
  function HeaderLength(k: Kind, bdat: seq<byte>): nat
  {
    Min(TileHeaderSize(k), |bdat|)
  }

  /** The cell size b_process carries between .BMC tiles: not known yet (0),
      or a whole number of 4096-byte planes. */
  predicate CellKnown(k: Kind, bl: nat)
  {
    k == Bmc ==> bl == 0 || bl >= 4096
  }

  /** The tile at the front of bdat. The width and height are the u16 fields
      at offsets 8 and 10; a .BMC header ends with the u32 data length and the
      u32 flags, read from its last eight bytes. */
  function ReadTile(k: Kind, fname: string, bdat: seq<byte>, bl: nat): (r: Read)
    requires CellKnown(k, bl)
    ensures r.Got? ==> HeaderLength(k, bdat) >= 12 && CellKnown(k, r.tile.cell)
    ensures r.Failed? ==> r.outcome != Returned(true)
    ensures HeaderLength(k, bdat) < 12 ==> r == Failed(Raised(StructError))
  {
    var hdr := HeaderLength(k, bdat);
    if hdr < 12 then Failed(Raised(StructError))
    else
      var w, h := U16(bdat, 8), U16(bdat, 10);
      match k
      case Bin => ReadBin(bdat, hdr, w, h)
      case Bmc => ReadBmc(fname, bdat, hdr, bl, w, h)
  }

  /** A .BMC tile: the data length and the flags are the last two 32-bit
      words of its header; flag 0x08 marks a compressed tile. */
  function ReadBmc(fname: string, bdat: seq<byte>, hdr: nat, bl: nat, w: nat, h: nat): (r: Read)
    requires 12 <= hdr <= |bdat| && (bl == 0 || bl >= 4096)
    ensures r.Got? ==> r.tile.cell >= 4096
    ensures r.Failed? ==> r.outcome != Returned(true)
  {
    var tlen, params := U32(bdat, hdr - 8), U32(bdat, hdr - 4);
    if params / 8 % 2 == 1 then ReadCompressed(fname, bdat, hdr, bl, tlen, w, h)
    else ReadUncompressed(bdat, hdr, tlen, w, h)
  }

  /** A .BIN tile: 4 * w * h bytes of 32-bit pixels, turned upside down. */
  function ReadBin(bdat: seq<byte>, hdr: nat, w: nat, h: nat): (r: Read)
    ensures r.Got? && r.tile.prior == [] && !r.tile.paletted && r.tile.cell == 4 * w * h
  {
    var bl := 4 * w * h;
    Got(Tile(Colour.TrueColour(Slice(bdat, hdr, hdr + bl), 4, true), [], bl, false))
  }

  /** The cell size a compressed .BMC tile is read with: the one carried over
      from earlier tiles or, for the first such tile, the probed one. */
  function CellProbe(fname: string, bdat: seq<byte>, hdr: nat, bl: nat): (r: Probe)
    requires bl == 0 || bl >= 4096
    ensures r.Found? ==> r.cell >= 4096
    ensures bl != 0 ==> r == Found(bl)
  {
    if bl == 0 then CellSize(fname, bdat, hdr) else Found(bl)
  }

  /** A compressed .BMC tile (flag 0x08) once its cell size is known: the
      decoded data must be w * h pixels of that depth or the tile is dropped,
      and what is kept always goes through the 16-bit converter, which
      doubles it. */
  function ReadRle(bdat: seq<byte>, hdr: nat, tlen: nat, w: nat, h: nat, cell: nat): (r: Read)
    requires cell >= 4096
    ensures r.Got? ==> r.tile.cell == cell && r.tile.prior == [] && !r.tile.paletted
    ensures r.Got? ==> |r.tile.bmp| == 0 || |r.tile.bmp| == 2 * (w * h * cell / 4096)
    ensures r.Failed? ==> r.outcome == Raised(StructError)
  {
    var raw := Codec.Uncompress(Slice(bdat, hdr, hdr + tlen), cell / 4096);
    if |raw| == 0 || |raw| != w * h * cell / 4096 then Got(Tile([], [], cell, false))
    else if |raw| % 2 != 0 then Failed(Raised(StructError))
    else Got(Tile(Colour.Rgb565(raw), [], cell, false))
  }

  /** A compressed .BMC tile: a cell size, then the tile read with it. */
  function ReadCompressed(fname: string, bdat: seq<byte>, hdr: nat, bl: nat, tlen: nat, w: nat, h: nat): (r: Read)
    requires bl == 0 || bl >= 4096
    ensures r.Got? ==> r.tile.cell >= 4096 && r.tile.prior == [] && !r.tile.paletted
    ensures r.Failed? ==> r.outcome in {Returned(false), Raised(StructError)}
  {
    match CellProbe(fname, bdat, hdr, bl)
    case Missing => Failed(Returned(false))
    case ProbeRaised => Failed(Raised(StructError))
    case Found(cell) => ReadRle(bdat, hdr, tlen, w, h, cell)
  }

  /** An uncompressed .BMC tile: the depth is the data length over the pixel
      count. The tile's rows come first; a tile shorter than 64 rows also
      yields the bytes after them up to the end of the 64x64 cell. */
  function ReadUncompressed(bdat: seq<byte>, hdr: nat, tlen: nat, w: nat, h: nat): (r: Read)
    ensures r.Got? ==> r.tile.cell >= 4096
    ensures r.Failed? ==> r.outcome in {Returned(false), Raised(StructError), Raised(ZeroDivisionError)}
    ensures w * h == 0 <==> r == Failed(Raised(ZeroDivisionError))
    ensures w * h > 0 && !(1 <= tlen / (w * h) <= 4) <==> r == Failed(Returned(false))
  {
    if w * h == 0 then Failed(Raised(ZeroDivisionError))
    else
      var cf := tlen / (w * h);
      if cf < 1 || cf > 4 then Failed(Returned(false))
      else ReadCells(bdat, hdr, cf, w * h, h != 64)
  }

  /** An uncompressed tile of n pixels of cf bytes: the converter for cf on
      its n * cf bytes of rows and on the rest of its cf * 4096-byte cell. */
  function ReadCells(bdat: seq<byte>, hdr: nat, cf: nat, n: nat, short: bool): (r: Read)
    requires 1 <= cf <= 4
    ensures r.Got? ==> r.tile.cell == cf * 4096 && (r.tile.paletted <==> cf == 1)
    ensures r.Failed? ==> r.outcome == Raised(StructError)
  {
    ReadDepth(Slice(bdat, hdr, hdr + cf * n), Slice(bdat, hdr + cf * n, hdr + cf * 4096), short, cf)
  }

  /** The converters of an uncompressed tile of cf bytes per pixel, applied to
      its rows and, for a short tile, to the rest of its cell: 8-bit data is
      prefixed with the palette, 16-bit data must have an even length. */
  function ReadDepth(body: seq<byte>, rest: seq<byte>, short: bool, cf: nat): (r: Read)
    requires 1 <= cf <= 4
    ensures r.Got? ==> r.tile.cell == cf * 4096 && (r.tile.paletted <==> cf == 1)
    ensures r.Got? && !short ==> r.tile.prior == []
    ensures r.Failed? <==> cf == 2 && (|body| % 2 != 0 || (short && |rest| % 2 != 0))
    ensures r.Failed? ==> r.outcome == Raised(StructError)
  {
    if cf == 1 then
      Got(Tile(Bitmap.Palette() + body, if short then Bitmap.Palette() + rest else [], 4096, true))
    else if cf == 2 then
      if |body| % 2 != 0 || (short && |rest| % 2 != 0) then Failed(Raised(StructError))
      else Got(Tile(Colour.Rgb565(body), if short then Colour.Rgb565(rest) else [], 8192, false))
    else
      Got(Tile(Colour.TrueColour(body, cf, false), if short then Colour.TrueColour(rest, cf, false) else [], cf * 4096, false))
  }

  // ---------------------------------------------------------------------------
  // b_process

  /** The state b_process works on: the remaining stream, the kept tiles and
      their "old" companions, the palette flag, and the carried cell size. */
  datatype Walker = Walker(bdat: seq<byte>, bmps: seq<seq<byte>>, obmps: seq<seq<byte>>, pal: bool, bl: nat)

  /** The state after tile t: the cursor moves past the header and one cell
      (whatever the data length says), and a non-empty tile is kept together
      with its old pixels. */
  function Advance(k: Kind, w: Walker, t: Tile): (r: Walker)
    requires |w.bdat| > 0
    ensures |r.bdat| < |w.bdat|
  {
    var keep := |t.bmp| > 0;
    Walker(
      Drop(w.bdat, HeaderLength(k, w.bdat) + t.cell),
      if keep then w.bmps + [t.bmp] else w.bmps,
      if keep then w.obmps + [t.prior] else w.obmps,
      w.pal || t.paletted,
      t.cell)
  }

  /** The tile loop: until the stream is used up, a tile fails, or cnt tiles
      are kept (cnt == 0 means no limit). */
  function Walk(k: Kind, fname: string, cnt: int, w: Walker): (r: (Outcome, Walker))
    requires CellKnown(k, w.bl)
    decreases |w.bdat|
  {
    if |w.bdat| == 0 then (Returned(true), w)
    else
      match ReadTile(k, fname, w.bdat, w.bl)
      case Failed(o) => (o, w)
      case Got(t) =>
        var next := Advance(k, w, t);
        if cnt != 0 && |next.bmps| == cnt then (Returned(true), next)
        else Walk(k, fname, cnt, next)
  }

  /** One turn of the tile loop, given what reading the front tile gave. */
  lemma WalkStep(k: Kind, fname: string, cnt: int, w: Walker, rd: Read)
    requires CellKnown(k, w.bl) && |w.bdat| > 0 && rd == ReadTile(k, fname, w.bdat, w.bl)
    ensures rd.Failed? ==> Walk(k, fname, cnt, w) == (rd.outcome, w)
    ensures rd.Got? ==> CellKnown(k, rd.tile.cell)
    ensures rd.Got? ==>
      var next := Advance(k, w, rd.tile);
      Walk(k, fname, cnt, w) == if cnt != 0 && |next.bmps| == cnt then (Returned(true), next) else Walk(k, fname, cnt, next)
  {
  }

  /** b_process: nothing to process returns False; otherwise the walk starts
      with no cell size. */
  function Process(k: Kind, fname: string, cnt: int, bdat: seq<byte>, bmps: seq<seq<byte>>, obmps: seq<seq<byte>>, pal: bool): (r: (Outcome, Walker))
    ensures |bdat| == 0 ==> r == (Returned(false), Walker(bdat, bmps, obmps, pal, 0))
  {
    if |bdat| == 0 then (Returned(false), Walker(bdat, bmps, obmps, pal, 0))
    else Walk(k, fname, cnt, Walker(bdat, bmps, obmps, pal, 0))
  }

  // ---------------------------------------------------------------------------
  // Properties of b_process

  /** Tiles and their old pixels are appended together, so the two lists keep
      equal lengths; what was there stays, and only non-empty tiles are added. */
  lemma {:induction false} WalkLockstep(k: Kind, fname: string, cnt: int, w: Walker)
    requires CellKnown(k, w.bl) && |w.bmps| == |w.obmps|
    ensures var r := Walk(k, fname, cnt, w).1;
      && |r.bmps| == |r.obmps| && w.bmps <= r.bmps && w.obmps <= r.obmps
      && forall i :: |w.bmps| <= i < |r.bmps| ==> |r.bmps[i]| > 0
    decreases |w.bdat|
  {
    if |w.bdat| > 0 && ReadTile(k, fname, w.bdat, w.bl).Got? {
      var t := ReadTile(k, fname, w.bdat, w.bl).tile;
      var next := Advance(k, w, t);
      assert w.bmps <= next.bmps && w.obmps <= next.obmps;
      assert forall i :: |w.bmps| <= i < |next.bmps| ==> |next.bmps[i]| > 0;
      if !(cnt != 0 && |next.bmps| == cnt) {
        WalkLockstep(k, fname, cnt, next);
      }
    }
  }

  /** The walk returns True only with the stream used up or exactly cnt tiles
      kept; any other ending leaves the cursor at the tile that caused it. */
  lemma {:induction false} WalkStops(k: Kind, fname: string, cnt: int, w: Walker)
    requires CellKnown(k, w.bl)
    ensures var (o, r) := Walk(k, fname, cnt, w);
      && CellKnown(k, r.bl)
      && (o == Returned(true) ==> |r.bdat| == 0 || (cnt != 0 && |r.bmps| == cnt))
      && (o != Returned(true) ==> |r.bdat| > 0 && ReadTile(k, fname, r.bdat, r.bl) == Failed(o))
    decreases |w.bdat|
  {
    if |w.bdat| > 0 && ReadTile(k, fname, w.bdat, w.bl).Got? {
      var next := Advance(k, w, ReadTile(k, fname, w.bdat, w.bl).tile);
      if !(cnt != 0 && |next.bmps| == cnt) {
        WalkStops(k, fname, cnt, next);
      }
    }
  }

  /** With a limit of cnt tiles and fewer kept so far, the walk never keeps
      more than cnt: each tile adds at most one, and reaching cnt stops it. */
  lemma {:induction false} WalkCount(k: Kind, fname: string, cnt: int, w: Walker)
    requires CellKnown(k, w.bl) && cnt > 0 && |w.bmps| < cnt
    ensures |Walk(k, fname, cnt, w).1.bmps| <= cnt
    decreases |w.bdat|
  {
    if |w.bdat| > 0 && ReadTile(k, fname, w.bdat, w.bl).Got? {
      var next := Advance(k, w, ReadTile(k, fname, w.bdat, w.bl).tile);
      assert |next.bmps| <= |w.bmps| + 1;
      if |next.bmps| != cnt {
        WalkCount(k, fname, cnt, next);
      }
    }
  }

  /** An uncompressed .BMC tile whose data is all there: a paletted tile is the
      palette then one index per pixel, any other depth gives four BGRA bytes
      per pixel; a tile shorter than 64 rows also yields the rest of its cell. */
  lemma UncompressedSizes(bdat: seq<byte>, hdr: nat, tlen: nat, w: nat, h: nat, n: nat, cf: nat)
    requires n == w * h && n > 0 && cf == tlen / n && 1 <= cf <= 4
    requires hdr + cf * Max(n, 4096) <= |bdat|
    ensures var r := ReadUncompressed(bdat, hdr, tlen, w, h);
      && r.Got? && r.tile.cell == cf * 4096 && (r.tile.paletted <==> cf == 1)
      && |r.tile.bmp| == (if cf == 1 then 1024 + n else 4 * n)
      && (cf == 1 ==> r.tile.bmp == Bitmap.Palette() + bdat[hdr..hdr + n])
      && (h == 64 ==> r.tile.prior == [])
      && (h != 64 && n <= 4096 ==> |r.tile.prior| == (if cf == 1 then 1024 + 4096 - n else 4 * (4096 - n)))
  {
    assert ReadUncompressed(bdat, hdr, tlen, w, h) == ReadCells(bdat, hdr, cf, n, h != 64);
    MulLe(n, Max(n, 4096), cf);
    MulLe(4096, Max(n, 4096), cf);
    if n <= 4096 {
      MulLe(n, 4096, cf);
    }
    if cf == 1 {
      PalettedSizes(bdat, hdr, n, h != 64);
    } else if cf == 2 {
      HighColourSizes(bdat, hdr, n, h != 64, 2 * n);
    } else {
      TrueColourSizes(bdat, hdr, cf, n, h != 64, cf * n, cf * 4096);
    }
  }

  lemma PalettedSizes(bdat: seq<byte>, hdr: nat, n: nat, short: bool)
    requires hdr + Max(n, 4096) <= |bdat|
    ensures var r := ReadCells(bdat, hdr, 1, n, short);
      && r.Got? && r.tile.bmp == Bitmap.Palette() + bdat[hdr..hdr + n]
      && (!short ==> r.tile.prior == [])
      && (short && n <= 4096 ==> |r.tile.prior| == 1024 + 4096 - n)
  {
    assert Slice(bdat, hdr, hdr + 1 * n) == bdat[hdr..hdr + n];
  }

  lemma HighColourSizes(bdat: seq<byte>, hdr: nat, n: nat, short: bool, size: nat)
    requires size == 2 * n && hdr + size <= |bdat| && hdr + 8192 <= |bdat|
    ensures var r := ReadCells(bdat, hdr, 2, n, short);
      && r.Got? && |r.tile.bmp| == 4 * n
      && (!short ==> r.tile.prior == [])
      && (short && n <= 4096 ==> |r.tile.prior| == 4 * (4096 - n))
  {
    var body := Slice(bdat, hdr, hdr + size);
    var rest := Slice(bdat, hdr + size, hdr + 8192);
    assert |body| == size;
    assert |rest| == if n <= 4096 then 2 * (4096 - n) else 0;
  }

  lemma TrueColourSizes(bdat: seq<byte>, hdr: nat, cf: nat, n: nat, short: bool, size: nat, cell: nat)
    requires cf == 3 || cf == 4
    requires size == cf * n && cell == cf * 4096 && hdr + size <= |bdat| && hdr + cell <= |bdat|
    requires n <= 4096 ==> size <= cell && cell - size == cf * (4096 - n)
    ensures var r := ReadCells(bdat, hdr, cf, n, short);
      && r.Got? && |r.tile.bmp| == 4 * n
      && (!short ==> r.tile.prior == [])
      && (short && n <= 4096 ==> |r.tile.prior| == 4 * (4096 - n))
  {
    var body := Slice(bdat, hdr, hdr + size);
    var rest := Slice(bdat, hdr + size, hdr + cell);
    Colour.TrueColourLength(body, cf, n);
    if short && n <= 4096 {
      Colour.TrueColourLength(rest, cf, 4096 - n);
    }
  }

}
