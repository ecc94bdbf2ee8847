# RDP bitmap cache parser: a Dafny model of `BMCContainer`

The model covers `BMCContainer`, the part of the bitmap cache parser that does the work. An RDP client keeps a persistent bitmap cache on disk, in one of two formats:

- **`.BMC`**: older clients. The stream is a run of tiles, each with a 20-byte header.
- **`.BIN`**: newer clients. The file begins with the magic `RDP8bmp\0` and a 4-byte version, then a run of tiles with 12-byte headers.

The container does four things:

1. It detects the kind of cache (`b_import`).
2. It walks the tile stream (`b_process`). Each tile is decoded into 32-bit BGRA or 8-bit paletted pixels. For `.BMC` tiles that are compressed, it uses the Interleaved RLE bitmap codec of MS-RDPBCGR: section 2.2.9.1.1.3.1.2.4 (RLE_BITMAP_STREAM) gives the orders, section 3.1.9 the decoding rules.
3. It writes one BMP file per tile, and optionally a second "old" file holding the rest of a short tile's cell (`b_export`, `b_export_bmp`).
4. On request it writes a collage of all tiles, `STRIPE_WIDTH` cells wide (`b_export`).

`b_flush` empties the container.

The modules follow the source:

| module | file | what it holds |
|---|---|---|
| `Bytes` | `bytes.dfy` | bytes (`bv8`), little-endian u16/u32 reads and writes standing in for `struct.pack`/`unpack`, slicing with Python's clamping |
| `Orders` | `orders.dfy` | `b_unrle`: the header of one compression order |
| `Codec` | `codec.dfy` | `b_uncompress` as functions: decoder state, one order, the whole stream |
| `Decompress` | `decompress.dfy` | `b_uncompress` as loops, proved equal to `Codec` |
| `Colour` | `colour.dfy` | `b_parse_rgb565`, `b_parse_rgb32b`, `b_parse_rgb24b`, as functions and as loops |
| `Bitmap` | `bitmap.dfy` | `PALETTE` and `b_export_bmp` |
| `Tiles` | `tiles.dfy` | `b_import`'s detection and `b_process`'s tile walk, as functions |
| `Files` | `files.dfy` | the per-tile BMP files of `b_export` |
| `Collage` | `collage.dfy` | the collage part of `b_export` |
| `Container` | `container.dfy` | class `BMCContainer`: its fields and the methods that update them; the loops of `b_process` and `b_export` as methods proved equal to the functions above |

Python exceptions are results, not preconditions. Each operation that can raise one returns an `Outcome`, which is either `Returned(b)` or `Raised(e)`, where `e` is one of `StructError`, `ZeroDivisionError`, `TypeError` or `IndexError`. Some examples:

- A header shorter than 12 bytes raises `struct.error` in `unpack`.
- An uncompressed tile of width or height 0 raises `ZeroDivisionError` in `t_len // (w*h)`.
- Exporting with no file name raises `TypeError` in `os.path.basename(None)`.

## Model

| member | source | states |
|---|---|---|
| Bytes.Slice | bitmap_cache_parser_gui.py:262 | Python slicing `s[lo:hi]`: the result is `s[lo:min(hi, len(s))]`, empty when lo is past that end, and never raises. |
| Bytes.U16 | bitmap_cache_parser_gui.py:175 | `unpack("<H")`: a little-endian unsigned 16-bit value, always below 65536. |
| Bytes.U32 | bitmap_cache_parser_gui.py:103 | `unpack("<L")`: a little-endian unsigned 32-bit value. No contract of its own; `Bytes.UnpackPack` and `Bytes.PackU32` give its meaning. |
| Bytes.PackU32 | bitmap_cache_parser_gui.py:428-430 | `pack("<L", x)` for x in 32-bit range: four bytes that read back as x. |
| Bytes.UnpackPack | bitmap_cache_parser_gui.py:428-430 | The other direction of the round trip: every 32-bit field read fits in 32 bits, and packing it gives the same four bytes. |
| Orders.Unrle | bitmap_cache_parser_gui.py:213-253 | A parsed order header is 1 to 3 bytes long and no longer than the input. Its code is one of the handled order codes, so the "unhandled command" branch of the decoder cannot be reached. An unexpected lead is the first input byte. A truncated result only comes from fewer than 3 bytes. |
| Orders.UnrleMatchesTable | bitmap_cache_parser_gui.py:218-252 | For every lead byte that is not rejected, the result is either the order given by the MS-RDPBCGR order table (code, run length, header size) when the header fits, or "truncated" when it does not. |
| Orders.SpecialMatchesTable | bitmap_cache_parser_gui.py:218-229 | The same table agreement for the special orders 0xF0-0xFE: fixed runs for 0xF9/0xFA, no run for 0xFD/0xFE, a 16-bit little-endian run for the others. |
| Orders.RegularMatchesTable | bitmap_cache_parser_gui.py:230-252 | The table agreement for regular orders (lead below 0xA0): 5-bit run, with 8x scaling for the mask order and a one-byte extended run when the short run is 0. |
| Orders.LiteMatchesTable | bitmap_cache_parser_gui.py:230-252 | The table agreement for lite orders (0xC0-0xEF): 4-bit run, 8x for 0xD0, extended run when 0. |
| Orders.UnrleUnexpected | bitmap_cache_parser_gui.py:215-231 | Empty input is "truncated". Otherwise the result is "unexpected" exactly when the lead is 0xA0-0xBF, 0xF5, 0xFB, 0xFC or 0xFF. |
| Orders.UnrlePrefix | bitmap_cache_parser_gui.py:262 | A header that parses from some bytes parses to the same order when more bytes follow, so reading only `data[:3]` loses nothing. |
| Codec.StartValid | bitmap_cache_parser_gui.py:257-259 | The initial decoder state (empty output, white foreground, bro = -1) satisfies the decoder invariant. |
| Codec.XorPixel | bitmap_cache_parser_gui.py:283-284 | The XOR of a pixel with the foreground colour is channel-wise. |
| Codec.Chunks | bitmap_cache_parser_gui.py:309-316 | Cutting n pixels off the stream gives n pixels of bbp bytes whose join is exactly the first n*bbp bytes. |
| Codec.CopyRun | bitmap_cache_parser_gui.py:286-288 | A background run past the first row keeps the output as a prefix and makes every new pixel a copy of the pixel 64 places before it. |
| Codec.XorRun | bitmap_cache_parser_gui.py:300-304 | A foreground run past the first row keeps the output as a prefix and makes every new pixel the pixel above XOR the foreground. |
| Codec.MaskPixel | bitmap_cache_parser_gui.py:342-356 | A mask-driven pixel has the pixel size. When its mask bit (least significant first) is set, it is the foreground in the first row and the pixel above XOR the foreground after it. When the bit is clear, it is black in the first row and a copy of the pixel above after it. |
| Codec.MaskRun | bitmap_cache_parser_gui.py:340-358 | A mask run appends one pixel per mask bit, read LSB first. Each pixel is checked on its own against the first row: black or foreground there, the pixel above or the pixel above XOR the foreground after it. |
| Codec.MaskRunStep | bitmap_cache_parser_gui.py:341-358 | A mask run is one masked pixel followed by the rest of the run. |
| Codec.BgFill | bitmap_cache_parser_gui.py:274-289 | A background run writes one extra foreground pixel first exactly when the previous order was also a background run. In the first row that pixel is the foreground, later it is the pixel above XOR the foreground. Its other pixels are black in the first row and copies of the pixel above after it. The run length is max(run, 1) after a background run, run otherwise. |
| Codec.FgFill | bitmap_cache_parser_gui.py:297-304 | A foreground run appends run pixels: the foreground in the first row, the pixel above XOR the foreground after it. The check is made once per order. |
| Codec.MaskLength | bitmap_cache_parser_gui.py:331-334 | The mask is the fewest bytes holding run bits. |
| Codec.Fetch | bitmap_cache_parser_gui.py:290-371 | Reading an order's operands either gives operands of the shape the order paints with and consumes input, or fails. The only failures are the end of the stream and, for codes outside the handled set, "unhandled". |
| Codec.FetchMask | bitmap_cache_parser_gui.py:317-339 | Mask orders 0xD0 and 0xF7 reload the foreground from the next bbp bytes, and the others keep it. 0xF9 and 0xFA use the fixed masks 0x03 and 0x05. The other mask orders take their mask from the next ceil(run/8) bytes, after the foreground. The only failure is the end of the stream. |
| Codec.FetchLiteral | bitmap_cache_parser_gui.py:359-364 | Literal orders read run pixels, or fail at the end of the stream. |
| Codec.ApplyColour | bitmap_cache_parser_gui.py:311-316 | A colour run reads one colour and appends run copies of it after the existing output. |
| Codec.ApplyDithered | bitmap_cache_parser_gui.py:305-310 | A dithered run reads two colours and appends 2*run pixels after the existing output, alternating between the first and the second. |
| Codec.ApplyLiteral | bitmap_cache_parser_gui.py:359-364 | A literal run appends exactly the next run*bbp bytes of the stream to the output bytes. |
| Codec.ApplySolid | bitmap_cache_parser_gui.py:365-368 | 0xFD appends one white pixel and 0xFE one black pixel. Neither reads from the stream. |
| Codec.Paint | bitmap_cache_parser_gui.py:274-373 | Painting an order keeps the decoder invariant and the output as a prefix. It sets bro to a row count exactly for background runs and -1 otherwise. The foreground changes only to a colour that was read. |
| Codec.Apply | bitmap_cache_parser_gui.py:272-373 | One order either fails at the end of the stream or as unhandled, or keeps the invariant, extends the output and consumes input. The bro rule holds as above. |
| Codec.Next | bitmap_cache_parser_gui.py:261-373 | One pass of the loop keeps the invariant, extends the output and strictly shortens the input. This is the loop's termination argument. |
| Codec.Run | bitmap_cache_parser_gui.py:261-374 | The whole loop keeps the invariant and only ever extends the output. |
| Codec.Uncompress | bitmap_cache_parser_gui.py:255-374 | The result is b"" or whole pixels: its length is a multiple of bbp. A failing order gives b"", not the pixels so far (`Codec.UncompressFails`). |
| Codec.UncompressFails | bitmap_cache_parser_gui.py:261-371 | If the orders of a stream decode and the next order fails, the whole stream decompresses to b"", whatever was painted before. A partial buffer is never returned. |
| Codec.FetchReads | bitmap_cache_parser_gui.py:290-364 | For every handled order, reading its operands succeeds exactly when the order's whole payload is present, and then consumes exactly that payload. Otherwise it fails with end of stream and never yields part of a result. |
| Codec.FetchReadsMask | bitmap_cache_parser_gui.py:317-339 | The same for mask orders: the optional foreground plus ceil(run/8) mask bytes, or one fixed mask byte for 0xF9/0xFA. |
| Codec.FetchReadsLiteral | bitmap_cache_parser_gui.py:359-364 | The same for literal orders: run*bbp bytes. |
| Codec.FetchReadsOther | bitmap_cache_parser_gui.py:290-316 | The same for the other orders: 2*bbp for dithered runs, bbp for colour runs and foreground reloads, nothing otherwise. |
| Codec.ApplyReads | bitmap_cache_parser_gui.py:272-373 | Applying a handled order succeeds exactly when its payload is present. The rest of the stream is exactly what follows the payload. The only failure is end of stream. |
| Codec.FetchExtends | bitmap_cache_parser_gui.py:290-364 | Reading an order's operands depends only on the payload: bytes after it pass through untouched. |
| Codec.FetchExtendsMask | bitmap_cache_parser_gui.py:317-339 | The same for mask orders. |
| Codec.FetchExtendsLiteral | bitmap_cache_parser_gui.py:359-364 | The same for literal orders. |
| Codec.FetchExtendsOther | bitmap_cache_parser_gui.py:290-316 | The same for the other orders. |
| Codec.ApplyExtends | bitmap_cache_parser_gui.py:272-373 | An order that succeeds on some bytes gives the same state on those bytes followed by more, and leaves the extra bytes unread. |
| Codec.ChunksPrefix | bitmap_cache_parser_gui.py:309-363 | Cutting pixels off the stream ignores bytes beyond those pixels. |
| Codec.NextExtends | bitmap_cache_parser_gui.py:261-373 | One loop pass that succeeds gives the same state when more bytes follow, and leaves them unread. |
| Codec.RunAppend | bitmap_cache_parser_gui.py:261-374 | Decoding two concatenated streams, when the first decodes, equals decoding the first and then continuing with the second from its final state. The decoder is a left fold over orders. |
| Decompress.XorChannels | bitmap_cache_parser_gui.py:283-284 | The channel loop computes the pixel XOR the foreground. |
| Decompress.CopyRows | bitmap_cache_parser_gui.py:286-288 | The copy loop computes the background run past the first row. |
| Decompress.FillBackground | bitmap_cache_parser_gui.py:274-289 | The background branch computes `Codec.BgFill`, with all its guarantees. |
| Decompress.FillForeground | bitmap_cache_parser_gui.py:297-304 | The foreground branch computes `Codec.FgFill`. |
| Decompress.FillMasked | bitmap_cache_parser_gui.py:340-358 | The mask loop, which loads a new mask byte every 8 pixels, computes `Codec.MaskRun` from bit 0. |
| Decompress.MaskLoopStep | bitmap_cache_parser_gui.py:342-358 | One turn of the mask loop extends the mask run by one pixel. The mask byte it holds stays the right one until the next multiple of 8. |
| Decompress.MaskedPixel | bitmap_cache_parser_gui.py:344-356 | One mask-loop pixel is `Codec.MaskPixel` for the current bit of the current mask byte. |
| Decompress.DecodeOrder | bitmap_cache_parser_gui.py:272-373 | The body of the order loop computes `Codec.Apply`, including its end-of-stream exits. |
| Decompress.Uncompress | bitmap_cache_parser_gui.py:255-374 | The imperative decoder computes `Codec.Uncompress`, so the output is b"" or a whole number of pixels, the loop terminates, and a failing order gives b"" (`Codec.UncompressFails`). |
| Colour.Pixel565 | bitmap_cache_parser_gui.py:175-180 | A little-endian 565 pixel becomes four bytes: the low 5 bits, the middle 6 bits and the top 5 bits, each widened by repeating its top bits, then 255. |
| Colour.Pixel565Injective | bitmap_cache_parser_gui.py:175-180 | Different 565 pixels give different BGRA pixels: no colour information is lost. |
| Colour.Pixel565Extremes | bitmap_cache_parser_gui.py:175-180 | 0x0000 becomes 00 00 00 FF and 0xFFFF becomes FF FF FF FF. |
| Colour.Rgb565 | bitmap_cache_parser_gui.py:171-181 | Every two input bytes become four output bytes. |
| Colour.Rgb565At | bitmap_cache_parser_gui.py:171-181 | Output pixel j is the conversion of input pixel j, in order. |
| Colour.ParseRgb565 | bitmap_cache_parser_gui.py:171-181 | The conversion loop computes `Rgb565`. |
| Colour.Bgra | bitmap_cache_parser_gui.py:183-211 | The `.BMC` path of b_parse_rgb32b (stride 4) and b_parse_rgb24b (stride 3). No contract of its own; `Colour.BgraLength`, `Colour.BgraAt` and `Colour.ParseTrueColour` give its meaning. |
| Colour.BgraLength | bitmap_cache_parser_gui.py:183-211 | In `.BMC` mode each 3- or 4-byte input pixel becomes exactly 4 output bytes. |
| Colour.BgraAt | bitmap_cache_parser_gui.py:183-211 | Output pixel j is the first three bytes of input pixel j followed by 0xFF, in order. |
| Colour.FlipRows | bitmap_cache_parser_gui.py:188-192 | The `.BIN` regrouping keeps only complete 256-byte rows: a trailing partial row is dropped. |
| Colour.FlipRowsAppend | bitmap_cache_parser_gui.py:188-192 | Regrouping a sequence of complete rows followed by more bytes puts the later rows first. |
| Colour.FlipRowsAt | bitmap_cache_parser_gui.py:188-192 | Output row j is input row (rows - 1 - j): the complete rows in reverse order. |
| Colour.FullRow | bitmap_cache_parser_gui.py:190-192 | One complete row is left as it is. |
| Colour.TrueColour | bitmap_cache_parser_gui.py:183-211 | b_parse_rgb32b and b_parse_rgb24b: the BGRA pixels, with the complete 256-byte rows reversed for `.BIN`. No contract of its own; `Colour.TrueColourLength`, `Colour.BgraAt`, `Colour.FlipRowsAt` and the loop method `Colour.ParseTrueColour` give its meaning. |
| Colour.TrueColourLength | bitmap_cache_parser_gui.py:183-211 | m input pixels give 4*m output bytes in `.BMC` mode. |
| Colour.ParseTrueColour | bitmap_cache_parser_gui.py:183-211 | The 32-bit and 24-bit conversion loops, which use a row buffer in `.BIN` mode, compute `TrueColour`: BGRA pixels, with complete rows reversed in `.BIN` mode. |
| Bitmap.Palette | bitmap_cache_parser_gui.py:24 | `PALETTE` is 1024 bytes: 256 four-byte entries. |
| Bitmap.PaletteReserved | bitmap_cache_parser_gui.py:24 | The fourth byte of every palette entry is 0. |
| Bitmap.Fields | bitmap_cache_parser_gui.py:427-430 | The fixed 38 header bytes carry "BM", the file size, the pixel-data offset (122 or 1078), the info-header size (108 or 40), the width, the height, one plane, the bit depth (32 or 8), the compression (0 = BI_RGB or 3 = BI_BITFIELDS) and the image size, all at their BMP offsets. |
| Bitmap.FieldsHeight | bitmap_cache_parser_gui.py:427-430 | Two sets of header fields that differ only in the height agree everywhere outside bytes 22-25. |
| Bitmap.Layout | bitmap_cache_parser_gui.py:427-430 | Concatenating the header pieces puts each little-endian field at its BMP offset. |
| Bitmap.Assemble | bitmap_cache_parser_gui.py:427-430 | Appending the header tail and the data keeps every field and ends with the data. |
| Bitmap.ExportBmp | bitmap_cache_parser_gui.py:425-430 | A file is made exactly when every packed value fits in 32 bits and, when paletted, the data holds the palette. The file is the data plus 122 or 54 header bytes, with its own length at offset 2, width and height at 18 and 22, the pixel offset, the bit depth, the compression (0 paletted, 3 otherwise) and the image size in place, and the data after the header. A 32-bit file carries the BGRA channel masks and "Win " at bytes 54-73. |
| Bitmap.ExportParts | bitmap_cache_parser_gui.py:427-430 | A successful export is the header fields, then the rest of the info header (the palette or the channel masks), then the data. |
| Bitmap.ExportHeight | bitmap_cache_parser_gui.py:427-430 | Two exports of the same data with different heights have the same length and differ only in bytes 22-25. |
| Bitmap.ExportPaletted | bitmap_cache_parser_gui.py:429-430 | A paletted tile file holds `PALETTE` at bytes 54-1077 and the pixel indices from byte 1078. |
| Bitmap.ExportPrefixed | bitmap_cache_parser_gui.py:429-430 | For any 1024-byte colour table, the table sits at 54-1077 and the pixels follow at 1078. |
| Tiles.TileHeaderSize | bitmap_cache_parser_gui.py:19 | Tile headers are at least the 12 bytes `unpack("<LLHH")` reads. |
| Tiles.Detect | bitmap_cache_parser_gui.py:70-80 | A buffer that starts with the `.BIN` magic loses the magic and the version and is `.BIN`. Any other buffer is `.BMC`, as it is. A buffer with the magic but no complete version raises `struct.error`. |
| Tiles.DetectBin | bitmap_cache_parser_gui.py:77-80 | Magic, any version and any stream is read back as that stream, kind `.BIN`. |
| Tiles.CellSizeByName | bitmap_cache_parser_gui.py:106-111 | The file name fixes the cell size at 8192, 16384 or 4096 bytes, checking "22.bmc", then "24.bmc", then "2.bmc"; otherwise it is unknown (0). |
| Tiles.ProbeFrom | bitmap_cache_parser_gui.py:113-118 | A probed cell size is 4096 times a candidate, and the width field of the next header, at that distance, really reads 64. |
| Tiles.ProbeMissing | bitmap_cache_parser_gui.py:113-121 | When the probe finds nothing, no candidate whose header lies inside the data has width 64. |
| Tiles.CellSize | bitmap_cache_parser_gui.py:105-121 | A cell size found by name or probe is 4096, 8192 or 16384. |
| Tiles.CellProbe | bitmap_cache_parser_gui.py:105-121 | Once the cell size is known it is kept; a new one is at least 4096. |
| Tiles.ReadTile | bitmap_cache_parser_gui.py:95-156 | Reading a tile keeps the cell size known. A header shorter than 12 bytes raises `struct.error`. A failure never looks like success. |
| Tiles.ReadBin | bitmap_cache_parser_gui.py:98-100 | A `.BIN` tile always decodes, is never paletted, has no old part, and its cell is 4*w*h bytes. |
| Tiles.ReadBmc | bitmap_cache_parser_gui.py:101-156 | A decoded `.BMC` tile has a cell of at least 4096 bytes. |
| Tiles.ReadRle | bitmap_cache_parser_gui.py:122-129 | A compressed tile keeps the cell size, is not paletted and has no old part. Its pixel data is empty (failed or discarded) or exactly 4 bytes per expected 565 pixel. |
| Tiles.ReadCompressed | bitmap_cache_parser_gui.py:104-129 | A compressed tile either decodes with a cell of at least 4096 bytes, or returns False when no cell size can be found, or raises `struct.error`. |
| Tiles.ReadUncompressed | bitmap_cache_parser_gui.py:130-156 | A zero width or height raises `ZeroDivisionError`. A depth t_len // (w*h) outside 1..4 returns False. Otherwise the tile's cell is cf*4096 bytes. |
| Tiles.ReadCells | bitmap_cache_parser_gui.py:131-152 | For depth cf, the cell is cf*4096 bytes and the tile is paletted exactly when cf is 1. |
| Tiles.ReadDepth | bitmap_cache_parser_gui.py:131-152 | The converter chosen by depth fails, with `struct.error`, exactly when 16-bit data has an odd length. A 64-row tile has no old part. |
| Tiles.UncompressedSizes | bitmap_cache_parser_gui.py:130-156 | An uncompressed tile of n = w*h pixels whose cell is in the buffer yields 1024 + n bytes (palette and indices) or 4*n bytes. When short, it also yields an old part of the rest of the cell at the same depth. |
| Tiles.PalettedSizes | bitmap_cache_parser_gui.py:147-152 | An 8-bit tile is `PALETTE` followed by its n index bytes; a short one's old part is the palette plus the other 4096-n bytes. |
| Tiles.HighColourSizes | bitmap_cache_parser_gui.py:142-146 | A 16-bit tile gives 4 bytes per pixel; a short one's old part gives 4 bytes per remaining pixel. |
| Tiles.TrueColourSizes | bitmap_cache_parser_gui.py:132-141 | A 24- or 32-bit tile gives 4 bytes per pixel; a short one's old part gives 4 bytes per remaining pixel. |
| Tiles.Advance | bitmap_cache_parser_gui.py:158-164 | Moving past a tile always consumes input (the header at least). |
| Tiles.Walk | bitmap_cache_parser_gui.py:92-166 | The b_process tile loop. No contract of its own; `Tiles.WalkStep`, `Tiles.WalkStops`, `Tiles.WalkCount`, `Tiles.WalkLockstep` and the loop method `Container.RunWalk` give its meaning. |
| Tiles.WalkStep | bitmap_cache_parser_gui.py:92-166 | One step of the walk: a tile that fails to read ends the walk with that outcome and no change. A read tile advances, stopping with True once the count is reached. |
| Tiles.Process | bitmap_cache_parser_gui.py:85-169 | An empty buffer returns False and changes nothing. |
| Tiles.WalkLockstep | bitmap_cache_parser_gui.py:158-160 | The walk only appends to `bmps` and `o_bmps`, together, so their lengths stay equal. Every appended tile is non-empty. |
| Tiles.WalkStops | bitmap_cache_parser_gui.py:92-169 | The walk returns True only when the buffer is used up or the requested count is reached. Otherwise it stops at a tile whose read failed with that very outcome. |
| Tiles.WalkCount | bitmap_cache_parser_gui.py:165-166 | With a positive count, no more than that many tiles are kept. |
| Files.TileRows | bitmap_cache_parser_gui.py:385 | The tile height is the number of complete 64-pixel rows in the tile's pixel bytes, leaving out the palette. |
| Files.TileFileAsWritten | bitmap_cache_parser_gui.py:384-388 | The file the code writes for a tile is made exactly when the BMP size fits in 32 bits and a paletted tile holds its palette. It is the tile plus its header, and its height field holds the tile's length over 256. |
| Files.TileFile | bitmap_cache_parser_gui.py:384-388 | A tile file is made exactly when the BMP size fits in 32 bits and a paletted tile holds its palette. It is the tile plus its header, and its height field holds the number of 64-pixel rows. |
| Files.HeightsBelow | bitmap_cache_parser_gui.py:385 | Both heights are at most the tile's length, so both fit in the 32-bit height field whenever the file size does. |
| Files.PalettedTileAsWritten | bitmap_cache_parser_gui.py:385 | As written, a full 64-row paletted tile is declared 20 rows high, although it holds 4096 pixel bytes. |
| Files.AsWrittenUnpaletted | bitmap_cache_parser_gui.py:385 | For 32-bit tiles the height as written equals the corrected height. |
| Files.TileFileRows | bitmap_cache_parser_gui.py:384-388 | A tile of h complete 64-pixel rows gives a file declaring width 64 and height h that holds exactly the tile's bytes. |
| Files.AsWrittenHeightOnly | bitmap_cache_parser_gui.py:383-388 | The file the code writes for a tile and the file with the corrected height exist for the same tiles. They have the same length and agree everywhere except the height field (bytes 22-25). |
| Files.TileFilesOf | bitmap_cache_parser_gui.py:383-385 | There is one tile file per tile, in order. |
| Files.OldFilesOf | bitmap_cache_parser_gui.py:386-388 | An old file is written exactly when old data is kept, an old buffer exists for the index, and it is not empty. |
| Files.Emit | bitmap_cache_parser_gui.py:383-388 | The b_export tile-file loop from index i. No contract of its own; `Files.EmitComplete`, `Files.EmitNames`, `Files.EmitStops` and the loop method `Container.EmitFiles` give its meaning. |
| Files.TileFiles | bitmap_cache_parser_gui.py:383-388 | The tile files of the current tiles, and their old files when kept. No contract of its own; `Files.TileFilesWritten` and `Files.AsWrittenHeightOnly` give its meaning. |
| Files.Entry | bitmap_cache_parser_gui.py:384-388 | Index i writes `_i.bmp`, then `_old_i.bmp` when due, and fails exactly when one of them could not be packed. |
| Files.EmitComplete | bitmap_cache_parser_gui.py:383-388 | When the loop completes, every tile's file, and every due old file, is among the files written. |
| Files.EmitNames | bitmap_cache_parser_gui.py:383-388 | Only tile and old-tile names within range are written, and an old name only where an old file was due. |
| Files.EmitStops | bitmap_cache_parser_gui.py:383-388 | The loop stops early only at an index whose tile or old file could not be packed. |
| Files.TileFilesWritten | bitmap_cache_parser_gui.py:383-388 | After a complete loop, tile j's file is written under its name, and so is its old file when one is kept. |
| Collage.Unit | bitmap_cache_parser_gui.py:393-395 | A collage pixel is 1 byte (paletted) or 4 bytes. |
| Collage.Pad | bitmap_cache_parser_gui.py:393-395 | The pad is one white pixel. |
| Collage.PadTile | bitmap_cache_parser_gui.py:399-400 | Padding keeps the tile as a prefix, adds only white bytes, reaches at least a full 64x64 cell, and leaves a full tile alone. |
| Collage.WhiteRow | bitmap_cache_parser_gui.py:400 | `pad*64` is one white row. |
| Collage.PadTileExact | bitmap_cache_parser_gui.py:399-400 | A tile of whole rows is padded to exactly a 64x64 cell. |
| Collage.Prepare | bitmap_cache_parser_gui.py:396-400 | A prepared tile fills at least a whole cell. |
| Collage.PrepareAll | bitmap_cache_parser_gui.py:396-400 | Every tile is prepared (palette dropped, padded), in order and none lost. |
| Collage.Layout | bitmap_cache_parser_gui.py:402-410 | With at least a stripe of tiles the grid is a stripe wide and fillers complete the last row (fewer than a stripe). Otherwise it is one row of all the tiles, with no fillers. The cells exactly fill the grid. |
| Collage.StripeFill | bitmap_cache_parser_gui.py:404-410 | The filler count completes the last stripe. |
| Collage.LayoutFillers | bitmap_cache_parser_gui.py:404-410 | With n >= STRIPE_WIDTH tiles and n % STRIPE_WIDTH != 0, exactly STRIPE_WIDTH - n%STRIPE_WIDTH fillers are added. The image is 64*STRIPE_WIDTH wide and 64 * (padded n / STRIPE_WIDTH) high. |
| Collage.CellsFit | bitmap_cache_parser_gui.py:412-416 | Every cell index the collage reads is in range exactly when the cache is not `.BIN` or has no tiles or at least a stripe of them. Reversed `.BIN` rows index out of range below a stripe. |
| Collage.FullStripes | bitmap_cache_parser_gui.py:412-416 | A grid made of full stripes never indexes out of range. |
| Collage.StripeCell | bitmap_cache_parser_gui.py:413-416 | The cell at column k of grid row x lies in stripe x, forward or reversed. |
| Collage.Strip | bitmap_cache_parser_gui.py:414-416 | Scanline j of a cell is the 64 pixels at row j of that cell. |
| Collage.RowBound | bitmap_cache_parser_gui.py:414-416 | The 64 rows of a cell lie within the cell. |
| Collage.Stripe | bitmap_cache_parser_gui.py:412-416 | Grid row x is the cells of stripe x, reversed for `.BIN`, and every one of them is a padded cell. |
| Collage.Strips | bitmap_cache_parser_gui.py:414-416 | Row j is cut from every cell of a grid row, in order. |
| Collage.Lines | bitmap_cache_parser_gui.py:414-416 | A grid row yields 64 scanlines, in row order. |
| Collage.Bands | bitmap_cache_parser_gui.py:418 | There is one band of 64 scanlines per grid row, in order. |
| Collage.ScanlineLength | bitmap_cache_parser_gui.py:414-416 | A scanline spans every cell of the grid row. |
| Collage.BandLength | bitmap_cache_parser_gui.py:414-416 | A band is 64 scanlines long. |
| Collage.Pixels | bitmap_cache_parser_gui.py:414-418 | The `collage_builder` bands joined together. No contract of its own; `Collage.PixelsLength` and `Collage.PixelAt` give its meaning. |
| Collage.PixelsLength | bitmap_cache_parser_gui.py:418 | The pixel data is width * height * pixel-size bytes. |
| Collage.StripAt | bitmap_cache_parser_gui.py:414-416 | A scanline byte is the matching byte of the matching cell row. |
| Collage.ScanlineAt | bitmap_cache_parser_gui.py:414-416 | A band byte is the matching byte of its scanline. |
| Collage.BandPixel | bitmap_cache_parser_gui.py:414-416 | Band byte (j, k, i) is byte i of row j of cell k. |
| Collage.BandAt | bitmap_cache_parser_gui.py:418 | An image byte is the matching byte of its grid row's band. |
| Collage.PixelAt | bitmap_cache_parser_gui.py:412-418 | The collage byte at image row 64x+j, column k, channel byte i is byte i of row j of the cell the grid places at (x, k). |
| Collage.Filler | bitmap_cache_parser_gui.py:408 | A filler is a whole cell. |
| Collage.Cells | bitmap_cache_parser_gui.py:396-408 | The cells are the prepared tiles, in order, followed by the fillers, all padded. |
| Collage.Image | bitmap_cache_parser_gui.py:412-420 | The collage file exists exactly when its size fits in 32 bits. It declares the grid's width and height and carries the collage data after its header. |
| Collage.Built | bitmap_cache_parser_gui.py:392-408 | The tiles are always prepared. Fillers are added when the stripe width is positive, and a zero stripe width stops the export (`ZeroDivisionError`). |
| Collage.Ended | bitmap_cache_parser_gui.py:409-420 | The collage fails with `IndexError` exactly for `.BIN` with fewer tiles than a stripe. Otherwise it yields the image, or fails to pack when too large. |
| Collage.Data | bitmap_cache_parser_gui.py:412-418 | `c_bmp`: the palette when paletted, then the pixel bands. No contract of its own; `Collage.DataLength`, `Collage.DataSplit`, `Collage.CellPixel` and `Collage.CellAt` give its meaning. |
| Collage.DataLength | bitmap_cache_parser_gui.py:412-418 | The collage data is w*h*len(pad) bytes, plus 1024 when paletted. |
| Collage.CellPixel | bitmap_cache_parser_gui.py:412-418 | A collage pixel byte is the matching byte of the padded tile or filler the grid places there. |
| Collage.DataSplit | bitmap_cache_parser_gui.py:412-418 | The collage data is the palette, when paletted, followed by the pixel bands. |
| Collage.CellAt | bitmap_cache_parser_gui.py:396-408 | A cell byte is the tile byte after the palette, or white past the tile's end or in a filler. |
| Container.ProbeCellSize | bitmap_cache_parser_gui.py:113-118 | The probe loop over 1, 2, 4 computes `Tiles.ProbeFrom`. |
| Container.DecodeTile | bitmap_cache_parser_gui.py:95-156 | The tile decoding in the loop body computes `Tiles.ReadTile`. |
| Container.DecodeBin | bitmap_cache_parser_gui.py:98-100 | Decoding a `.BIN` tile computes `Tiles.ReadBin`. |
| Container.DecodeBmc | bitmap_cache_parser_gui.py:101-156 | Decoding a `.BMC` tile computes `Tiles.ReadBmc`. |
| Container.FindCell | bitmap_cache_parser_gui.py:105-121 | Finding the cell size computes `Tiles.CellProbe`. |
| Container.DecodeRle | bitmap_cache_parser_gui.py:122-129 | Decompressing a tile computes `Tiles.ReadRle`. |
| Container.DecodeCompressed | bitmap_cache_parser_gui.py:104-129 | The compressed branch computes `Tiles.ReadCompressed`. |
| Container.DecodeUncompressed | bitmap_cache_parser_gui.py:130-156 | The uncompressed branch computes `Tiles.ReadUncompressed`. |
| Container.DecodeCells | bitmap_cache_parser_gui.py:131-152 | Slicing the body and the rest of the cell computes `Tiles.ReadCells`. |
| Container.ConvertDepth | bitmap_cache_parser_gui.py:131-152 | The converter chosen by depth computes `Tiles.ReadDepth`. |
| Container.Step | bitmap_cache_parser_gui.py:92-166 | One loop pass either finishes the walk with its final outcome, or consumes input and leaves the rest of the walk unchanged. |
| Container.RunWalk | bitmap_cache_parser_gui.py:92-166 | The tile loop computes `Tiles.Walk`. |
| Container.PadRows | bitmap_cache_parser_gui.py:399-400 | The padding loop computes `Collage.PadTile`. |
| Container.PrepareTiles | bitmap_cache_parser_gui.py:396-400 | The preparation loop computes `Collage.PrepareAll`. |
| Container.AddFillers | bitmap_cache_parser_gui.py:407-408 | The filler loop appends exactly `count` filler cells. |
| Container.EmitFiles | bitmap_cache_parser_gui.py:383-388 | The file loop computes `Files.Emit`. |
| Container.BuildCollage | bitmap_cache_parser_gui.py:392-408 | Padding and filling compute `Collage.Built`. |
| Container.Compose | bitmap_cache_parser_gui.py:409-420 | Assembling the collage computes `Collage.Ended`. |
| Container.Ending | bitmap_cache_parser_gui.py:392-423 | The export returns True exactly when the collage was made. |
| Container.BMCContainer.constructor | bitmap_cache_parser_gui.py:29-46 | A new container is empty, with no kind and no name. It keeps the count, old-save, verbosity, collage flag and stripe width it is given. |
| Container.BMCContainer.Import | bitmap_cache_parser_gui.py:57-83 | Importing into a loaded container, or importing an empty buffer, returns False and changes nothing. Otherwise it records the name and loads the stream with its detected kind. The tiles are left alone. |
| Container.BMCContainer.Process | bitmap_cache_parser_gui.py:85-169 | Processing leaves the buffer, tiles, old tiles and palette flag as `Tiles.Process` computes and returns its outcome. Kind, name and settings are unchanged. |
| Container.BMCContainer.WriteTiles | bitmap_cache_parser_gui.py:382-388 | The per-tile files are `Files.TileFiles` of the current tiles. |
| Container.BMCContainer.MakeCollage | bitmap_cache_parser_gui.py:392-421 | Only the tile list changes, to the padded and filled cells. The outcome and the collage file are those of `Collage.Built`. |
| Container.BMCContainer.Export | bitmap_cache_parser_gui.py:376-423 | A missing folder returns False, and a missing file name raises `TypeError`; both write nothing. Otherwise the tile files are written in order, stopping with `struct.error` at the first one that cannot be packed. With the collage flag the collage is built and, when made, written last. Only the tile list may change. |
| Container.BMCContainer.Flush | bitmap_cache_parser_gui.py:438-443 | Flushing empties the buffer, the tiles and the old tiles, returns True, and keeps kind, name, palette flag and settings. |

## Left out

- The Tk user interface (`BMCacheParserGUI`, `main`) and its worker thread and log queue are not part of this model.
- `b_log` and the log callback are left out. They only print, and they decide no branch. One exception: the `.BIN` version read inside a log message can raise, and that is modelled in `Tiles.Detect`.
- File reading in `b_import` is left out, so a file that cannot be opened is not modelled. The bytes read become the `data` parameter of `Import`.
- `b_write` is left out. Files are returned as (name, bytes) values in the order they are written.
- `os.path.isdir` becomes the `dirExists` parameter of `Export`.
- `os.path.basename`, `os.path.join` and the `{i:04d}` file names are reduced to the `Files.Name` datatype: tile i, old tile i, collage.
- `memoryview` and `bytes` are both modelled as sequences of bytes.
- Container.BMCContainer.Export: requires a non-negative stripe width when the collage is requested. A negative `STRIPE_WIDTH` hits Python's floor division and negative indexing, and that is not modelled.
- Container.BMCContainer.MakeCollage: requires a non-negative stripe width, for the same reason.
- Container.BMCContainer.Export: the per-tile files are made with the corrected tile height (see Findings), not the height the code computes. `Files.TileFileAsWritten` models the code as written.
- Container.BMCContainer.WriteTiles: writes tile files with the corrected height, not len//256. `Files.AsWrittenHeightOnly` shows that each file differs from the one the code writes only in bytes 22-25.
- Files.TileFile: uses the corrected height. `Files.TileFileAsWritten` is the code's version, and `Files.AsWrittenHeightOnly` ties the two together.
- Files.TileFilesOf: builds its files with `Files.TileFile`, so the corrected height applies, as above.
- Files.OldFilesOf: builds its files with `Files.TileFile`, so the corrected height applies, as above.
- Files.TileFiles: builds its files with `Files.TileFile`, so the corrected height applies, as above.
- Files.TileFilesWritten: states the names and the order with the corrected files, as above.
- Codec.Paint: its own contract states the shape of the output (the invariant, the output prefix, bro and the foreground). What each order appends is stated in `Codec.BgFill`, `Codec.FgFill`, `Codec.MaskRun`, `Codec.ApplyColour`, `Codec.ApplyDithered`, `Codec.ApplyLiteral` and `Codec.ApplySolid`.
- Tiles.ReadRle: states only the length of the decoded pixel data. The pixel values follow from `Codec.Uncompress` and `Colour.Rgb565`, but no single lemma ties them together.
- Tiles.ReadDepth: says that a 64-row tile has no old part, but not the converse (a short tile whose remaining cell is empty also has an empty old part).
- Colour.Rgb565: requires an even length. `b_parse_rgb565` raises `struct.error` on an odd length, and its callers (`Tiles.ReadDepth`, `Tiles.ReadRle`) check for that and produce the error.

## Findings

| source | as written | input that shows it | evidently intended | confidence | as-written member | corrected member |
|---|---|---|---|---|---|---|
| bitmap_cache_parser_gui.py:385 | The height of each tile file is `len(bmp)//256`, which counts the 1024-byte palette and assumes 4 bytes per pixel. | A full 64x64 paletted tile: `PALETTE` followed by 4096 index bytes (5120 bytes) gets height 5120//256 = 20 instead of 64. The same applies to old files at line 388. | The height is the pixel bytes, without the palette, divided by the bytes in a 64-pixel row (64 paletted, 256 otherwise), which gives 64 for that tile. | not executed | Files.PalettedTileAsWritten | Files.TileFileRows |
