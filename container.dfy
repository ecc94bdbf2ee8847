/** The BMCContainer object: the loaded stream and the extracted tiles are
    fields that `b_import`, `b_process`, the collage code of `b_export` and
    `b_flush` change in place. Each method is proved to leave the fields as the
    functions of modules Tiles and Collage say. */
module Container {
  import opened Bytes
  import opened Tiles
  import Colour
  import Decompress
  import Bitmap
  import Collage
  import Files

  /** The probe loop of b_process (`for b in [1, 2, 4]`). */
  method ProbeCellSize(bdat: seq<byte>, hdr: nat) returns (r: Probe)
    ensures r == ProbeFrom(bdat, hdr, Candidates)
  {
    var bs := Candidates;
    while bs != []
      invariant forall i :: 0 <= i < |bs| ==> bs[i] >= 1
      invariant ProbeFrom(bdat, hdr, bs) == ProbeFrom(bdat, hdr, Candidates)
      decreases |bs|
    {
      var pos := hdr + 4096 * bs[0] + 8;
      if |bdat| < pos {
        return Missing;
      } else if |bdat| < pos + 2 {
        return ProbeRaised;
      } else if U16(bdat, pos) == 64 {
        return Found(4096 * bs[0]);
      }
      bs := bs[1..];
    }
    return Missing;
  }

  /** The body of the b_process loop up to the point where the tile is kept:
      the tile at the front of bdat, converted, or the way the loop ends. */
  method DecodeTile(k: Kind, fname: string, bdat: seq<byte>, bl: nat) returns (r: Read)
    requires CellKnown(k, bl)
    ensures r == ReadTile(k, fname, bdat, bl)
  {
    var hdr := Min(TileHeaderSize(k), |bdat|);
    if hdr < 12 {
      return Failed(Raised(StructError));
    }
    var w, h := U16(bdat, 8), U16(bdat, 10);
    if k == Bin {
      r := DecodeBin(bdat, hdr, w, h);
    } else {
      r := DecodeBmc(fname, bdat, hdr, bl, w, h);
    }
  }

  /** A .BIN tile: w * h pixels of four bytes, alpha kept. */
  method DecodeBin(bdat: seq<byte>, hdr: nat, w: nat, h: nat) returns (r: Read)
    ensures r == ReadBin(bdat, hdr, w, h)
  {
    var cell := 4 * w * h;
    var t := Colour.ParseTrueColour(Slice(bdat, hdr, hdr + cell), 4, true);
    return Got(Tile(t, [], cell, false));
  }

  /** A .BMC tile: compressed or not, as its header's flags say. */
  method DecodeBmc(fname: string, bdat: seq<byte>, hdr: nat, bl: nat, w: nat, h: nat) returns (r: Read)
    requires 12 <= hdr <= |bdat| && (bl == 0 || bl >= 4096)
    ensures r == ReadBmc(fname, bdat, hdr, bl, w, h)
  {
    var tlen, params := U32(bdat, hdr - 8), U32(bdat, hdr - 4);
    if params / 8 % 2 == 1 {
      r := DecodeCompressed(fname, bdat, hdr, bl, tlen, w, h);
    } else {
      r := DecodeUncompressed(bdat, hdr, tlen, w, h);
    }
  }

  /** The cell size of a compressed .BMC tile: carried over, named by the
      file, or probed for the first such tile. */
  method FindCell(fname: string, bdat: seq<byte>, hdr: nat, bl: nat) returns (r: Probe)
    requires bl == 0 || bl >= 4096
    ensures r == CellProbe(fname, bdat, hdr, bl)
  {
    if bl != 0 {
      return Found(bl);
    }
    var named := CellSizeByName(fname);
    if named != 0 {
      return Found(named);
    }
    r := ProbeCellSize(bdat, hdr);
  }

  /** A compressed .BMC tile once its cell size is known: the decoder, then
      the 16-bit converter. */
  method DecodeRle(bdat: seq<byte>, hdr: nat, tlen: nat, w: nat, h: nat, cell: nat) returns (r: Read)
    requires cell >= 4096
    ensures r == ReadRle(bdat, hdr, tlen, w, h, cell)
  {
    var raw := Decompress.Uncompress(Slice(bdat, hdr, hdr + tlen), cell / (64 * 64));
    if |raw| > 0 {
      if |raw| != w * h * cell / (64 * 64) {
        raw := [];
      } else if |raw| % 2 != 0 {
        return Failed(Raised(StructError));
      } else {
        raw := Colour.ParseRgb565(raw);
      }
    }
    return Got(Tile(raw, [], cell, false));
  }

  /** A compressed .BMC tile: the cell size, then the tile read with it. */
  method DecodeCompressed(fname: string, bdat: seq<byte>, hdr: nat, bl: nat, tlen: nat, w: nat, h: nat) returns (r: Read)
    requires bl == 0 || bl >= 4096
    ensures r == ReadCompressed(fname, bdat, hdr, bl, tlen, w, h)
  {
    var probe := FindCell(fname, bdat, hdr, bl);
    match probe
    case Missing => return Failed(Returned(false));
    case ProbeRaised => return Failed(Raised(StructError));
    case Found(cell) => r := DecodeRle(bdat, hdr, tlen, w, h, cell);
  }

  /** An uncompressed .BMC tile: the depth from the data length, then the
      converter for that depth on the tile rows and on the rest of the cell. */
  method DecodeUncompressed(bdat: seq<byte>, hdr: nat, tlen: nat, w: nat, h: nat) returns (r: Read)
    ensures r == ReadUncompressed(bdat, hdr, tlen, w, h)
  {
    var n := w * h;
    if n == 0 {
      return Failed(Raised(ZeroDivisionError));
    }
    var cf := tlen / n;
    if cf < 1 || cf > 4 {
      return Failed(Returned(false));
    }
    r := DecodeCells(bdat, hdr, cf, n, h != 64);
  }

  /** The n pixels of cf bytes of an uncompressed tile, and the rest of its
      cell. */
  method DecodeCells(bdat: seq<byte>, hdr: nat, cf: nat, n: nat, short: bool) returns (r: Read)
    requires 1 <= cf <= 4
    ensures r == ReadCells(bdat, hdr, cf, n, short)
  {
    r := ConvertDepth(Slice(bdat, hdr, hdr + cf * n), Slice(bdat, hdr + cf * n, hdr + cf * 4096), short, cf);
  }

  /** The converter for cf bytes per pixel on the tile's rows and, for a
      short tile, on the rest of its cell. */
  method ConvertDepth(body: seq<byte>, rest: seq<byte>, short: bool, cf: nat) returns (r: Read)
    requires 1 <= cf <= 4
    ensures r == ReadDepth(body, rest, short, cf)
  {
    var t, o: seq<byte> := [], [];
    if cf == 4 || cf == 3 {
      t := Colour.ParseTrueColour(body, cf, false);
      if short {
        o := Colour.ParseTrueColour(rest, cf, false);
      }
    } else if cf == 2 {
      if |body| % 2 != 0 {
        return Failed(Raised(StructError));
      }
      t := Colour.ParseRgb565(body);
      if short {
        if |rest| % 2 != 0 {
          return Failed(Raised(StructError));
        }
        o := Colour.ParseRgb565(rest);
      }
    } else {
      t := Bitmap.Palette() + body;
      if short {
        o := Bitmap.Palette() + rest;
      }
    }
    return Got(Tile(t, o, cf * 4096, cf == 1));
  }

  /** One turn of the b_process loop: the tile at the front of the stream is
      read and kept, or the loop ends with the outcome it returns. */
  method Step(k: Kind, fname: string, cnt: int, w: Walker) returns (done: Option<Outcome>, next: Walker)
    requires CellKnown(k, w.bl) && |w.bdat| > 0
    ensures CellKnown(k, next.bl)
    ensures done.Some? ==> Walk(k, fname, cnt, w) == (done.value, next)
    ensures done.None? ==> |next.bdat| < |w.bdat| && Walk(k, fname, cnt, next) == Walk(k, fname, cnt, w)
  {
    var rd := DecodeTile(k, fname, w.bdat, w.bl);
    WalkStep(k, fname, cnt, w, rd);
    if rd.Failed? {
      return Some(rd.outcome), w;
    }
    var t := rd.tile;
    var bmps, obmps := w.bmps, w.obmps;
    if |t.bmp| > 0 {
      bmps := bmps + [t.bmp];
      obmps := obmps + [t.prior];
    }
    next := Walker(Drop(w.bdat, Min(TileHeaderSize(k), |w.bdat|) + t.cell), bmps, obmps, w.pal || t.paletted, t.cell);
    assert next == Advance(k, w, t);
    if cnt != 0 && |bmps| == cnt {
      return Some(Returned(true)), next;
    }
    return None, next;
  }

  /** The b_process loop: Step until the stream is used up or a step ends it. */
  method RunWalk(k: Kind, fname: string, cnt: int, start: Walker) returns (o: Outcome, w: Walker)
    requires CellKnown(k, start.bl)
    ensures (o, w) == Walk(k, fname, cnt, start)
  {
    w := start;
    var done: Option<Outcome> := None;
    while done.None? && |w.bdat| > 0
      invariant CellKnown(k, w.bl)
      invariant done.None? ==> Walk(k, fname, cnt, w) == Walk(k, fname, cnt, start)
      invariant done.Some? ==> (done.value, w) == Walk(k, fname, cnt, start)
      decreases done.None?, |w.bdat|
    {
      done, w := Step(k, fname, cnt, w);
    }
    o := if done.Some? then done.value else Returned(true);
  }

  /** The padding loop of one tile: a row of pad pixels at a time until the
      tile has 64 rows. */
  method PadRows(t: seq<byte>, unit: nat) returns (r: seq<byte>)
    requires unit >= 1
    ensures r == Collage.PadTile(t, unit)
  {
    r := t;
    Collage.WhiteRow(unit);
    while |r| < 64 * 64 * unit
      invariant Collage.PadTile(r, unit) == Collage.PadTile(t, unit)
      decreases 64 * 64 * unit - |r|
    {
      r := r + Repeat(Collage.Pad(unit), 64);
    }
  }

  /** The padding loop of b_export over all tiles: a paletted tile first
      loses its palette. */
  method PrepareTiles(tiles: seq<seq<byte>>, pal: bool) returns (r: seq<seq<byte>>)
    ensures r == Collage.PrepareAll(tiles, pal)
  {
    r := tiles;
    var i := 0;
    while i < |r|
      invariant 0 <= i <= |r| == |tiles|
      invariant forall j :: 0 <= j < i ==> r[j] == Collage.Prepare(tiles[j], pal)
      invariant forall j :: i <= j < |r| ==> r[j] == tiles[j]
    {
      var t := r[i];
      if pal {
        t := Drop(t, 1024);
      }
      t := PadRows(t, Collage.Unit(pal));
      r := r[i := t];
      i := i + 1;
    }
  }

  /** The filler loop of b_export: count white cells appended. */
  method AddFillers(tiles: seq<seq<byte>>, count: nat, unit: nat) returns (r: seq<seq<byte>>)
    ensures r == tiles + seq(count, _ => Collage.Filler(unit))
  {
    r := tiles;
    var i := 0;
    while i < count
      invariant 0 <= i <= count
      invariant r == tiles + seq(i, _ => Collage.Filler(unit))
    {
      r := r + [Repeat(Collage.Pad(unit), 64 * 64)];
      i := i + 1;
      assert seq(i, _ => Collage.Filler(unit)) == seq(i - 1, _ => Collage.Filler(unit)) + [Collage.Filler(unit)];
    }
  }

  /** The tile loop of b_export over the tiles' files and their old data's
      (None where the old data is not written). */
  method EmitFiles(tiles: seq<Option<seq<byte>>>, olds: seq<Option<Option<seq<byte>>>>) returns (b: Files.Batch)
    requires |olds| == |tiles|
    ensures b == Files.Emit(tiles, olds, 0)
  {
    var written: seq<Files.Written> := [];
    var i := 0;
    while i < |tiles|
      invariant 0 <= i <= |tiles|
      invariant var rest := Files.Emit(tiles, olds, i);
        Files.Batch(written + rest.files, rest.ok) == Files.Emit(tiles, olds, 0)
    {
      var e := Files.Entry(i, tiles[i], olds[i]);
      if !e.ok {
        return Files.Batch(written + e.files, false);
      }
      written := written + e.files;
      i := i + 1;
    }
    return Files.Batch(written, true);
  }

  /** The collage part of b_export on the tile list: padding, fillers, then
      the scanlines of every stripe after the palette, if any. */
  method BuildCollage(tiles: seq<seq<byte>>, pal: bool, sw: nat, bin: bool) returns (end: Collage.End, cells: seq<seq<byte>>)
    ensures Collage.Collaged(end, cells) == Collage.Built(tiles, pal, sw, bin)
  {
    var unit := Collage.Unit(pal);
    cells := PrepareTiles(tiles, pal);
    if sw == 0 {
      return Collage.NoStripe, cells;
    }
    var g := Collage.Layout(|cells|, sw);
    cells := AddFillers(cells, g.fillers, unit);
    assert cells == Collage.Cells(tiles, pal, sw);
    end := Compose(tiles, cells, pal, sw, bin);
  }

  /** The end of the collage part once the fillers are in: the lambda of
      b_export reads the cells stripe by stripe, row by row, and the result
      goes after the palette, if any, into b_export_bmp. */
  method Compose(tiles: seq<seq<byte>>, cells: seq<seq<byte>>, pal: bool, sw: nat, bin: bool) returns (end: Collage.End)
    requires sw > 0 && cells == Collage.Cells(tiles, pal, sw)
    ensures end == Collage.Ended(tiles, pal, sw, bin)
  {
    var g := Collage.Layout(|tiles|, sw);
    Collage.CellsFit(|tiles|, sw, bin);
    if bin && 0 < |tiles| < sw {
      return Collage.CellOutOfRange;
    }
    var data := (if pal then Bitmap.Palette() else []) + Collage.Pixels(cells, sw, bin, Collage.Unit(pal), g);
    assert data == Collage.Data(tiles, pal, sw, bin);
    var file := Bitmap.ExportBmp(pal, Collage.Width(g), Collage.Height(g), data);
    end := if file.Some? then Collage.Made(file.value) else Collage.TooLarge;
  }

  /** The outcome b_export reports for the way the collage part ends. */
  function Ending(e: Collage.End): (r: Outcome)
    ensures r == Returned(true) <==> e.Made?
  {
    match e
    case NoStripe => Raised(ZeroDivisionError)
    case CellOutOfRange => Raised(IndexError)
    case TooLarge => Raised(StructError)
    case Made(_) => Returned(true)
  }

  /** The kind a walk runs with: the one found by b_import. */
  function KindOf(btype: Option<Kind>): Kind
  {
    if btype.Some? then btype.value else Bmc
  }

  /** The file name a walk runs with. */
  function NameOf(fname: Option<string>): string
  {
    if fname.Some? then fname.value else ""
  }

  class BMCContainer {
    var bdat: seq<byte>
    var bmps: seq<seq<byte>>
    var obmps: seq<seq<byte>>
    var btype: Option<Kind>
    var cnt: int
    var fname: Option<string>
    var oldsave: bool
    var pal: bool
    var verb: bool
    var big: bool
    var stripeWidth: int

    /** Data is only ever loaded together with its kind and file name. */
    ghost predicate Valid()
      reads this
    {
      |bdat| > 0 ==> btype.Some? && fname.Some?
    }

    constructor (verbose: bool, count: int, keepOld: bool, big: bool, width: int)
      ensures Valid()
      ensures bdat == [] && bmps == [] && obmps == [] && btype == None && fname == None
      ensures cnt == count && oldsave == keepOld && !pal && verb == verbose && this.big == big && stripeWidth == width
    {
      bdat := [];
      obmps := [];
      bmps := [];
      btype := None;
      cnt := count;
      fname := None;
      oldsave := keepOld;
      pal := false;
      verb := verbose;
      this.big := big;
      stripeWidth := width;
    }

    /** b_import, given the bytes read from the file `name`: it refuses while
        data is loaded and when the file is empty, and otherwise loads the
        tile stream of the detected kind. */
    method Import(name: string, data: seq<byte>) returns (r: Outcome)
      requires Valid()
      modifies this
      ensures Valid()
      ensures bmps == old(bmps) && obmps == old(obmps) && pal == old(pal) && cnt == old(cnt)
      ensures big == old(big) && oldsave == old(oldsave) && stripeWidth == old(stripeWidth) && verb == old(verb)
      ensures old(|bdat|) > 0 || |data| == 0 ==>
        r == Returned(false) && bdat == old(bdat) && btype == old(btype) && fname == old(fname)
      ensures old(|bdat|) == 0 && |data| > 0 ==>
        fname == Some(name) &&
        match Detect(data)
        case None => r == Raised(StructError) && bdat == data && btype == Some(Bmc)
        case Some(l) => r == Returned(true) && bdat == l.stream && btype == Some(l.kind)
    {
      if |bdat| > 0 {
        return Returned(false);
      }
      bdat := data;
      if |bdat| == 0 {
        return Returned(false);
      }
      fname := Some(name);
      btype := Some(Bmc);
      if |bdat| >= |BinMagic| && bdat[..|BinMagic|] == BinMagic {
        if |bdat| < |BinMagic| + 4 {
          return Raised(StructError);
        }
        bdat := bdat[|BinMagic| + 4..];
        btype := Some(Bin);
      }
      return Returned(true);
    }

    /** b_process: the tile loop, proved to end as Tiles.Process says. */
    method Process() returns (r: Outcome)
      requires Valid()
      modifies this
      ensures Valid()
      ensures btype == old(btype) && fname == old(fname) && cnt == old(cnt)
      ensures big == old(big) && oldsave == old(oldsave) && stripeWidth == old(stripeWidth) && verb == old(verb)
      ensures var (o, w) := Tiles.Process(KindOf(btype), NameOf(fname), cnt, old(bdat), old(bmps), old(obmps), old(pal));
        r == o && bdat == w.bdat && bmps == w.bmps && obmps == w.obmps && pal == w.pal
    {
      if |bdat| == 0 {
        return Returned(false);
      }
      var o, w := RunWalk(btype.value, fname.value, cnt, Walker(bdat, bmps, obmps, pal, 0));
      bdat, bmps, obmps, pal := w.bdat, w.bmps, w.obmps, w.pal;
      return o;
    }

    /** Every field but the tiles, which b_export alone changes. */
    ghost function Others(): (seq<byte>, seq<seq<byte>>, Option<Kind>, int, Option<string>, bool, bool, bool, bool, int)
      reads this
    {
      (bdat, obmps, btype, cnt, fname, oldsave, pal, verb, big, stripeWidth)
    }

    /** The tile loop of b_export: each tile's file, then its old data's
        when kept, until b_export_bmp refuses one. */
    method WriteTiles() returns (b: Files.Batch)
      ensures b == Files.TileFiles(bmps, obmps, pal, oldsave)
    {
      b := EmitFiles(Files.TileFilesOf(bmps, pal), Files.OldFilesOf(bmps, obmps, pal, oldsave));
    }

    /** The collage part of b_export: the tile list is padded and completed
        with fillers in place, then laid out in one bitmap. */
    method MakeCollage() returns (r: Outcome, file: Option<seq<byte>>)
      requires stripeWidth >= 0
      modifies this
      ensures Others() == old(Others())
      ensures var c := Collage.Built(old(bmps), pal, stripeWidth, btype == Some(Bin));
        bmps == c.cells && r == Ending(c.end) && (file.Some? <==> c.end.Made?) && (file.Some? ==> file.value == c.end.file)
    {
      var end, cells := BuildCollage(bmps, pal, stripeWidth, btype == Some(Bin));
      bmps := cells;
      r := Ending(end);
      file := if end.Made? then Some(end.file) else None;
    }

    /** b_export into a directory (dirExists says whether it exists): the
        tile files, then, when asked for, the collage; the files come back in
        the order they are written. */
    method Export(dirExists: bool) returns (r: Outcome, files: seq<Files.Written>)
      requires big ==> stripeWidth >= 0
      modifies this
      ensures Others() == old(Others())
      ensures !dirExists ==> r == Returned(false) && files == [] && bmps == old(bmps)
      ensures dirExists && fname.None? ==> r == Raised(TypeError) && files == [] && bmps == old(bmps)
      ensures dirExists && fname.Some? ==>
        var b := Files.TileFiles(old(bmps), obmps, pal, oldsave);
        if !b.ok || !big then
          r == (if b.ok then Returned(true) else Raised(StructError)) && files == b.files && bmps == old(bmps)
        else
          var c := Collage.Built(old(bmps), pal, stripeWidth, btype == Some(Bin));
          && r == Ending(c.end) && bmps == c.cells
          && files == b.files + (if c.end.Made? then [Files.Written(Files.CollageName, c.end.file)] else [])
    {
      if !dirExists {
        return Returned(false), [];
      }
      if fname.None? {
        return Raised(TypeError), [];
      }
      var b := WriteTiles();
      files := b.files;
      if !b.ok {
        return Raised(StructError), files;
      }
      if !big {
        return Returned(true), files;
      }
      var c, file := MakeCollage();
      if file.Some? {
        files := files + [Files.Written(Files.CollageName, file.value)];
      }
      r := c;
    }

    /** b_flush: the stream and the tiles are dropped; the kind, the file name
        and the palette flag stay. */
    method Flush() returns (r: bool)
      modifies this
      ensures r && bdat == [] && bmps == [] && obmps == [] && Valid()
      ensures btype == old(btype) && fname == old(fname) && pal == old(pal) && cnt == old(cnt)
      ensures big == old(big) && oldsave == old(oldsave) && stripeWidth == old(stripeWidth) && verb == old(verb)
    {
      bdat := [];
      bmps := [];
      obmps := [];
      return true;
    }
  }
}
