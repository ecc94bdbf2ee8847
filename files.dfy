/** The files `b_export` writes for the tiles: one bitmap per tile, 64 pixels
    wide, and, when old data is kept, one more per tile that has old data.
    File names are reduced to what distinguishes them: the tile index and
    whether the file holds the tile, its old data or the collage. */
module Files {
  import opened Bytes
  import opened Bitmap
  import Collage

  datatype Name = TileName(index: nat) | OldName(index: nat) | CollageName

  datatype Written = Written(name: Name, file: seq<byte>)

  /** The files written so far, and whether writing went on to the end
      (false: b_export_bmp raised struct.error on the last one tried). */
  datatype Batch = Batch(files: seq<Written>, ok: bool)

  /** Bytes of a tile that are pixels: all of them, or those after the
      palette. */
  function PixelBytes(t: seq<byte>, pal: bool): nat
  {
    if pal then Max(|t| - 1024, 0) else |t|
  }

  /** The height b_export gives a tile file: its length over 256, which is
      the row count only for four bytes per pixel. */
  function RowsAsWritten(t: seq<byte>): nat
  {
    |t| / 256
  }

  /** The height of a tile file: its pixel bytes over the bytes of a 64-pixel
      row (one byte per pixel after the palette, or four). */
  function TileRows(t: seq<byte>, pal: bool): (h: nat)
    ensures h * (64 * Collage.Unit(pal)) <= PixelBytes(t, pal) < (h + 1) * (64 * Collage.Unit(pal))
  {
    var row := 64 * Collage.Unit(pal);
    DivModUnique(PixelBytes(t, pal), row, PixelBytes(t, pal) / row, PixelBytes(t, pal) % row);
    PixelBytes(t, pal) / row
  }

  /** The tile file as b_export writes it. */
  function TileFileAsWritten(t: seq<byte>, pal: bool): (r: Option<seq<byte>>)
    ensures r.Some? <==> IsU32(|t| + HeaderSize(pal)) && (pal ==> |t| >= 1024)
    ensures r.Some? ==> |r.value| == |t| + HeaderSize(pal) && U32(r.value, 22) == |t| / 256
  {
    HeightsBelow(t, pal);
    ExportBmp(pal, 64, RowsAsWritten(t), t)
  }

  /** The tile file with the height its pixels make. */
  function TileFile(t: seq<byte>, pal: bool): (r: Option<seq<byte>>)
    ensures r.Some? <==> IsU32(|t| + HeaderSize(pal)) && (pal ==> |t| >= 1024)
    ensures r.Some? ==> |r.value| == |t| + HeaderSize(pal) && U32(r.value, 22) == TileRows(t, pal)
  {
    HeightsBelow(t, pal);
    ExportBmp(pal, 64, TileRows(t, pal), t)
  }

  /** A paletted tile of 64 full rows (palette, then 4096 one-byte pixels)
      gets a file 20 rows high: the header promises 64 * 20 pixels while
      4096 follow the palette. */
  lemma PalettedTileAsWritten()
    ensures var t := Palette() + Repeat([0x00], 4096);
      && TileFileAsWritten(t, true).Some?
      && U32(TileFileAsWritten(t, true).value, 22) == 20
      && PixelBytes(t, true) == 4096 != 64 * 20
  {
    var t := Palette() + Repeat([0x00], 4096);
    assert |t| == 5120;
    assert RowsAsWritten(t) == 20;
  }

  /** For four bytes per pixel the two heights agree. */
  lemma AsWrittenUnpaletted(t: seq<byte>)
    ensures RowsAsWritten(t) == TileRows(t, false)
  {
    assert 64 * Collage.Unit(false) == 256;
  }

  /** The file b_export writes for a tile and the file with the corrected
      height exist together and differ only in the height field (bytes
      22-25): the first holds the length over 256, the second the row
      count. */
  lemma AsWrittenHeightOnly(t: seq<byte>, pal: bool)
    ensures TileFileAsWritten(t, pal).Some? <==> TileFile(t, pal).Some?
    ensures TileFile(t, pal).Some? ==> HeightOnly(TileFileAsWritten(t, pal).value, TileFile(t, pal).value)
  {
    if TileFile(t, pal).Some? {
      var h1, h2 := RowsAsWritten(t), TileRows(t, pal);
      assert TileFileAsWritten(t, pal) == ExportBmp(pal, 64, h1, t);
      assert TileFile(t, pal) == ExportBmp(pal, 64, h2, t);
      ExportHeight(pal, 64, h1, h2, t);
    }
  }

  /** Neither height exceeds the tile's length. */
  lemma HeightsBelow(t: seq<byte>, pal: bool)
    ensures RowsAsWritten(t) <= |t| && TileRows(t, pal) <= |t|
  {
    var h, row := TileRows(t, pal), 64 * Collage.Unit(pal);
    assert row >= 1;
    assert h <= h * row;
  }

  /** A tile of h rows, with the palette in front when paletted, becomes a
      file 64 pixels wide and h rows high whose pixel count is its pixel
      bytes over the bytes per pixel. */
  lemma {:induction false} TileFileRows(p: seq<byte>, pal: bool, h: nat)
    requires h <= 64 && |p| == 64 * Collage.Unit(pal) * h
    ensures var t := (if pal then Palette() else []) + p;
      && TileFile(t, pal).Some?
      && U32(TileFile(t, pal).value, 18) == 64 && U32(TileFile(t, pal).value, 22) == h
      && 64 * h * Collage.Unit(pal) == PixelBytes(t, pal)
      && TileFile(t, pal).value[HeaderSize(pal)..] == t
  {
    var t := (if pal then Palette() else []) + p;
    var row := 64 * Collage.Unit(pal);
    assert PixelBytes(t, pal) == |p|;
    assert |p| == h * row;
    DivModUnique(|p|, row, h, 0);
    MulLe(h, 64, row);
  }

  // ---------------------------------------------------------------------------
  // The tile loop of b_export

  /** Whether tile i's old data is written too. */
  predicate KeepsOld(obmps: seq<seq<byte>>, oldsave: bool, i: nat)
  {
    oldsave && i < |obmps| && |obmps[i]| > 0
  }

  /** The file of every tile, None where b_export_bmp refuses it. */
  function TileFilesOf(bmps: seq<seq<byte>>, pal: bool): (r: seq<Option<seq<byte>>>)
    ensures |r| == |bmps| && forall i :: 0 <= i < |bmps| ==> r[i] == TileFile(bmps[i], pal)
  {
    seq(|bmps|, i requires 0 <= i < |bmps| => TileFile(bmps[i], pal))
  }

  /** For every tile, None when its old data is not written, otherwise the
      old data's file (None inside where refused). */
  function OldFilesOf(bmps: seq<seq<byte>>, obmps: seq<seq<byte>>, pal: bool, oldsave: bool): (r: seq<Option<Option<seq<byte>>>>)
    ensures |r| == |bmps|
    ensures forall i :: 0 <= i < |bmps| ==> (r[i].Some? <==> KeepsOld(obmps, oldsave, i))
    ensures forall i :: 0 <= i < |bmps| && KeepsOld(obmps, oldsave, i) ==> r[i] == Some(TileFile(obmps[i], pal))
  {
    seq(|bmps|, i requires 0 <= i < |bmps| => if KeepsOld(obmps, oldsave, i) then Some(TileFile(obmps[i], pal)) else None)
  }

  /** The files of tile i, given its file and its old data's (None when not
      written): not ok when b_export_bmp refused one. */
  function Entry(i: nat, tile: Option<seq<byte>>, prior: Option<Option<seq<byte>>>): (r: Batch)
    ensures r.ok <==> tile.Some? && (prior.Some? ==> prior.value.Some?)
    ensures r.ok ==> |r.files| == (if prior.Some? then 2 else 1)
    ensures r.ok ==> r.files[0] == Written(TileName(i), tile.value)
    ensures r.ok && prior.Some? ==> r.files[1] == Written(OldName(i), prior.value.value)
    ensures forall k :: 0 <= k < |r.files| ==> r.files[k].name == TileName(i) || (prior.Some? && r.files[k].name == OldName(i))
  {
    match tile
    case None => Batch([], false)
    case Some(f) =>
      var head := [Written(TileName(i), f)];
      match prior
      case None => Batch(head, true)
      case Some(None) => Batch(head, false)
      case Some(Some(g)) => Batch(head + [Written(OldName(i), g)], true)
  }

  /** The files of tiles i onwards, in the order they are written; writing
      stops at the first file b_export_bmp refuses. */
  function {:induction false} Emit(tiles: seq<Option<seq<byte>>>, olds: seq<Option<Option<seq<byte>>>>, i: nat): (r: Batch)
    requires |olds| == |tiles|
    decreases |tiles| - i
  {
    if i >= |tiles| then Batch([], true)
    else
      var e := Entry(i, tiles[i], olds[i]);
      if !e.ok then e
      else
        var rest := Emit(tiles, olds, i + 1);
        Batch(e.files + rest.files, rest.ok)
  }

  /** The files the tile loop of b_export writes. */
  function TileFiles(bmps: seq<seq<byte>>, obmps: seq<seq<byte>>, pal: bool, oldsave: bool): Batch
  {
    Emit(TileFilesOf(bmps, pal), OldFilesOf(bmps, obmps, pal, oldsave), 0)
  }

  /** When every file is written, tile j's file (and its old data's, when
      written) is among them. */
  lemma {:induction false} EmitComplete(tiles: seq<Option<seq<byte>>>, olds: seq<Option<Option<seq<byte>>>>, i: nat, j: nat)
    requires |olds| == |tiles| && Emit(tiles, olds, i).ok && i <= j < |tiles|
    ensures tiles[j].Some? && Written(TileName(j), tiles[j].value) in Emit(tiles, olds, i).files
    ensures olds[j].Some? ==> olds[j].value.Some? && Written(OldName(j), olds[j].value.value) in Emit(tiles, olds, i).files
    decreases |tiles| - i
  {
    var r := Emit(tiles, olds, i);
    var e := Entry(i, tiles[i], olds[i]);
    var rest := Emit(tiles, olds, i + 1);
    assert e.ok && r.files == e.files + rest.files;
    if j > i {
      EmitComplete(tiles, olds, i + 1, j);
    } else {
      assert r.files[0] == e.files[0];
      if olds[j].Some? {
        assert r.files[1] == e.files[1];
      }
    }
  }

  /** Every file written for tiles i onwards names a tile from i on, and
      names old data only where it is written. */
  lemma {:induction false} EmitNames(tiles: seq<Option<seq<byte>>>, olds: seq<Option<Option<seq<byte>>>>, i: nat, k: nat)
    requires |olds| == |tiles| && k < |Emit(tiles, olds, i).files|
    ensures var n := Emit(tiles, olds, i).files[k].name;
      && !n.CollageName?
      && i <= n.index < |tiles|
      && (n.OldName? ==> olds[n.index].Some?)
    decreases |tiles| - i
  {
    var r := Emit(tiles, olds, i);
    var e := Entry(i, tiles[i], olds[i]);
    if !e.ok {
      assert r == e;
    } else {
      var rest := Emit(tiles, olds, i + 1);
      assert r.files == e.files + rest.files;
      if k >= |e.files| {
        assert r.files[k] == rest.files[k - |e.files|];
        EmitNames(tiles, olds, i + 1, k - |e.files|);
      } else {
        assert r.files[k] == e.files[k];
      }
    }
  }

  /** Writing stops short only at a file b_export_bmp refuses: a tile's, or
      the old data's of a tile whose old data is written. */
  lemma {:induction false} EmitStops(tiles: seq<Option<seq<byte>>>, olds: seq<Option<Option<seq<byte>>>>, i: nat)
    requires |olds| == |tiles| && !Emit(tiles, olds, i).ok
    ensures exists j :: i <= j < |tiles| && (tiles[j].None? || olds[j] == Some(None))
    decreases |tiles| - i
  {
    var e := Entry(i, tiles[i], olds[i]);
    if e.ok {
      EmitStops(tiles, olds, i + 1);
    }
  }

  /** The tile loop writes every tile's file, and the old data's file of
      every tile whose old data is kept, unless b_export_bmp refuses one. */
  lemma TileFilesWritten(bmps: seq<seq<byte>>, obmps: seq<seq<byte>>, pal: bool, oldsave: bool, j: nat)
    requires TileFiles(bmps, obmps, pal, oldsave).ok && j < |bmps|
    ensures TileFile(bmps[j], pal).Some?
    ensures Written(TileName(j), TileFile(bmps[j], pal).value) in TileFiles(bmps, obmps, pal, oldsave).files
    ensures KeepsOld(obmps, oldsave, j) ==> TileFile(obmps[j], pal).Some?
    ensures KeepsOld(obmps, oldsave, j) ==> Written(OldName(j), TileFile(obmps[j], pal).value) in TileFiles(bmps, obmps, pal, oldsave).files
  {
    EmitComplete(TileFilesOf(bmps, pal), OldFilesOf(bmps, obmps, pal, oldsave), 0, j);
  }
}
