# gbnp multicart builder: a Dafny model of its binary formats

gbnp builds the two files that a Game Boy "Nintendo Power" flash cartridge needs from up
to seven game ROMs and the cartridge's menu firmware:

- the **mapping table**, 128 bytes. It holds one routing entry for the menu and one
  three-byte slot per ROM: MBC family, ROM-size class, RAM-size class, ROM offset and
  RAM offset. Then comes 0xFF fill up to a fixed 18-byte trailer.
- the **flash image**, 1 MiB. It holds the patched menu firmware, the ticker strip, the
  menu's ROM index (seven 512-byte records: number, first bank, bank count and a
  256-byte title bitmap) and the ROM payloads one after the other from 0x20000.

It also reads a flash image back into ROMs.

All of this lives in `script/gbnp.js`. The project models:

- the `ROM` class: header fields, size classes, the zero-padded payload and the checks that mark a ROM bad;
- the tile encoding of the menu title and of the ticker text: quantising, packing four pixels to a byte, and the column order with the 2bpp bit permutation;
- `Processor`: `romUsedKB`, `romOverflow`, `mapData`, `romData` and `parseMenuData`;
- the `FileSeeker` cursor they all write through;
- the `CARTRIDGE_TYPES` and `MAP_TRAILER_BYTES` tables.

The modules follow the program's classes:

| file | module | models |
|---|---|---|
| `bytes.dfy` | `Bytes` | bytes, `setUint8`'s byte conversion, and buffer writes and reads as values (`Write` fails where `DataView` throws) |
| `file_seeker.dfy` | `Seeking` | `FileSeeker` as a class over an `array<byte>` with a mutable cursor |
| `cartridge.dfy` | `Cartridge` | `CARTRIDGE_TYPES` and the `ROM` constructor with its size functions (`32 << romByte` with JS's 32-bit shift), `romUsedKB` |
| `tiles.dfy` | `Tiles` | `updateBitmap`'s and `TickerText.generate`'s encoders: the packing loop and the reordering loops as methods, each proved equal to a specification function |
| `map_table.dfy` | `MapTable` | the mapping table as a value: slot bit fields, running offsets, fill and trailer |
| `image.dfy` | `Image` | the flash image and the index/payload reading of `parseMenuData` as values |
| `layout.dfy` | `Layout` | where each stage of `romData` writes and what it leaves alone |
| `processor.dfy` | `Processing` | `Processor` as a class; `mapData`, `romData` and `parseMenuData` as methods writing through a `FileSeeker`, each proved equal to the value-level definition |
| `round_trip.dfy` | `RoundTrip` | `parseMenuData` on an image `romData` built gives back the ROMs, in order |

A JS exception becomes an explicit failure: `None`, `ok == false`, or the `MenuParse` outcomes.
For example, a `DataView` access outside the buffer, or dereferencing `this.menu` while it is `null`.
Integer widths are written out where the JS has them:

- `32 << romByte` shifts by `romByte % 32` and keeps a signed 32-bit result, so classes 26..31 give a negative size or 0, which `padded()` rounds to 128 KB.
- `setUint8` keeps the low eight bits of the number it is given (`AsByte`).

Where the cartridge format as commonly described and `script/gbnp.js` differ, the model follows the code:

- each mapping-table slot is three bytes (two bit-field bytes and the RAM offset), not four;
- the mapping table has room for 35 slots rather than being limited to seven;
- a type byte outside the four MBC ranges gets MBC code 0 instead of being refused;
- the RAM offset step (script/gbnp.js:287) calls `ramSizeKB()` and is correct as written; only the RAM-size field (lines 268-275) reads the method without calling it. The model keeps that field as written beside the corrected one: the table functions and `Processor.MapData` take the reading (`RamRead`) as a parameter, `AsWritten` being the code as it runs and `Intended` the corrected field (see Findings).

## Model

| member | source | states |
|---|---|---|
| Bytes.Write | script/gbnp.js:527-531 | writing bytes at a position succeeds exactly when every byte lands inside the buffer (or there are none); the buffer keeps its length and holds the bytes at pos.. |
| Bytes.WriteAt | script/gbnp.js:522-531 | after a successful write the written bytes are at [pos, pos+n) and every other byte is unchanged |
| Bytes.OverwriteClipped | script/gbnp.js:522-531 | bytes that would land past the end of the buffer have no effect, so a write cut short by the end leaves what a full write leaves |
| Bytes.Read | script/gbnp.js:508-520 | reading n bytes succeeds exactly when all n lie inside the buffer, and then yields the n bytes from pos in order |
| Bytes.ZeroPadded | script/gbnp.js:75-84 | a file copied into a zeroed buffer of the padded size: the file's bytes first, zeros after, the buffer's length |
| Seeking.FileSeeker.constructor | script/gbnp.js:491-494 | a cursor at position 0 over the given buffer |
| Seeking.FileSeeker.Seek | script/gbnp.js:496-498 | the cursor moves to the address, unchecked |
| Seeking.FileSeeker.Rewind | script/gbnp.js:500-502 | the cursor returns to 0 |
| Seeking.FileSeeker.Size | script/gbnp.js:504-506 | the buffer's length |
| Seeking.FileSeeker.ReadByte | script/gbnp.js:516-520 | inside the buffer: the byte at the cursor, cursor advanced by one; past the end: the RangeError, cursor unchanged |
| Seeking.FileSeeker.Read | script/gbnp.js:508-514 | the value-level Read at the old cursor; on success the cursor moves n on, on failure it stops at the end of the buffer |
| Seeking.FileSeeker.WriteByte | script/gbnp.js:522-525 | succeeds exactly when the cursor is inside; the byte is stored there and the cursor advances; the rest of the buffer is unchanged |
| Seeking.FileSeeker.WriteBytes | script/gbnp.js:527-531 | succeeds exactly when all bytes fit; either way the buffer is the old one overwritten from the cursor with the bytes that fit, and the cursor is after them |
| Seeking.FileSeeker.WriteByteUntil | script/gbnp.js:533-537 | fills from the cursor up to `stop` with the byte; fails exactly when `stop` lies past the end of a buffer the cursor has not yet passed |
| Cartridge.CartridgeType | script/gbnp.js:1-8 | the MBC family of each type byte, as an if-and-only-if per family; `null` entries and indices past the table are unknown |
| Cartridge.ToInt32 | script/gbnp.js:100-102 | the result of a JS bitwise operator lies in the signed 32-bit range and agrees with the exact value modulo 2^32 |
| Cartridge.RomSizeKBValues | script/gbnp.js:100-102 | `32 << romByte` is 32·2^n for shift n = romByte mod 32 up to 25, -2^31 for n = 26 and 0 for n ≥ 27 |
| Cartridge.PaddedRomSize | script/gbnp.js:104-110 | the padded size is a whole number of 128 KB banks between 128 KB and 2^30 KB (1 TiB), never below the ROM size, and is 128 exactly when the ROM size is at most 128 KB |
| Cartridge.RamSizeClasses | script/gbnp.js:112-114 | RAM classes 0..3 are 0, 2, 8 and 32 KB, and the size exceeds 32 KB exactly for classes above 3 |
| Cartridge.WithoutNulAppend | script/gbnp.js:59 | NUL removal works byte by byte: the title of two joined parts is the two parts' titles joined |
| Cartridge.WithoutNulWhole | script/gbnp.js:59 | a title without NUL bytes is kept whole |
| Cartridge.PayloadBytes | script/gbnp.js:75 | the payload buffer is at least 128 KB, a whole number of 128 KB banks, and never smaller than the ROM size |
| Cartridge.ParseRom | script/gbnp.js:55-89 | the constructor throws exactly when the file is shorter than the header it reads (up to 0x149) |
| Cartridge.ParsedShape | script/gbnp.js:55-75 | a constructed ROM has a payload of the padded size and a 256-byte bitmap; it carries the file's type, ROM-size and RAM-size bytes, the title bytes 0x134..0x142 without NULs, the CGB flag exactly when byte 0x143 is 0x80 or 0xC0, and the menu bitmap of its rendered title |
| Cartridge.ParsedPayload | script/gbnp.js:75-84 | a file that fits is copied to the start of the payload and the rest of the payload is zero |
| Cartridge.BadVerdict | script/gbnp.js:78-98 | a ROM is bad exactly when a check fails, and the reason is the first failing one, in order: file larger than the padded size, boot-logo bytes missing at 0x104, unknown cartridge type, more than 32 KB of RAM |
| Cartridge.ReparsePayload | script/gbnp.js:55-89 | constructing a ROM from a ROM's own payload gives back the same ROM |
| Cartridge.PaddedKBBefore | script/gbnp.js:208-212 | after i steps the sum is at least 128·i KB and a whole number of banks |
| Cartridge.RomUsedKB | script/gbnp.js:208-212 | the padded sizes added up: at least 128 KB per ROM, a whole number of 128 KB banks |
| Cartridge.PayloadBytesArePaddedKB | script/gbnp.js:75 | for constructed ROMs the payload bytes added up are exactly 1024 times the padded KB added up |
| Tiles.MenuCode | script/gbnp.js:140-149 | a menu pixel is black (11) exactly when its red value is below 127, and white (00) otherwise |
| Tiles.TickerCode | script/gbnp.js:454-467 | a ticker pixel is 11 below 128, 01 from 128 to 161, 10 from 162 to 191 and 00 from 192, each as an if-and-only-if |
| Tiles.PackPixels | script/gbnp.js:140-149 | the packing loop yields the packed buffer: one byte per four pixel codes, leftmost pixel in the top bits |
| Tiles.UnpackPacked | script/gbnp.js:140-149 | splitting each packed byte into its four 2-bit fields gives back the pixel codes: packing loses nothing |
| Tiles.PackedInjective | script/gbnp.js:140-149 | different pixel codes never pack to the same buffer |
| Tiles.SwizzleBits | script/gbnp.js:156-161 | the first output byte holds the odd bits of a then of b, the second the even bits of a then of b |
| Tiles.SwizzleBijective | script/gbnp.js:156-161 | the bit permutation on byte pairs has an inverse in both directions |
| Tiles.ReorderTiles | script/gbnp.js:151-166 | the reordering loops produce the tile layout: column pairs left to right, each from top to bottom, each pair permuted |
| Tiles.ReorderColumn | script/gbnp.js:152-165 | the inner loop appends the permuted pairs of one column, top to bottom, to the output |
| Tiles.TileLayoutLength | script/gbnp.js:151-166 | reordering a buffer of whole rows keeps its size |
| Tiles.TileLayoutPair | script/gbnp.js:151-166 | where every pair goes: the two bytes at row r, column pair c of a buffer of whole rows are permuted into output pair c·rows + r, so with the size kept no pair is lost or duplicated |
| Tiles.TilesPair | script/gbnp.js:151-166 | the columns are laid out one after another: when every column is `len` bytes long, bytes j and j + 1 of column pair c follow the columns to its left |
| Tiles.ColumnPair | script/gbnp.js:152-165 | row r of the column starting at byte i is the permuted pair r rows below i, at offset 2r |
| Tiles.MenuBitmapLength | script/gbnp.js:151-168 | a menu bitmap is 256 bytes |
| Tiles.WhiteMenuBitmap | script/gbnp.js:140-168 | a blank (all-white) title canvas encodes to 256 zero bytes |
| Tiles.EncodeMenuBitmap | script/gbnp.js:140-168 | quantising, packing and reordering the 128x8 canvas give the menu bitmap, 256 bytes |
| Tiles.TickerShape | script/gbnp.js:454-470 | a ticker canvas 16 pixels high, its width a multiple of 16 and at least 64, packs to whole rows of an even number of bytes |
| Tiles.EncodeTicker | script/gbnp.js:454-486 | the ticker loops give the ticker bitmap, 4 bytes per pixel column |
| Tiles.TickerWidth | script/gbnp.js:436-441 | the ticker width is a multiple of 16, at least 64, at least the text width plus 2, and less than 16 beyond it unless the 64 minimum applies |
| MapTable.MbcCode | script/gbnp.js:240-249 | the MBC field chosen by type-byte ranges is at most 4 and agrees with the family CARTRIDGE_TYPES names |
| MapTable.RomCodeClasses | script/gbnp.js:252-263 | the ROM-size field per size class: 2 up to 128 KB (and for the classes whose shift wraps), 3 for 256 KB, 4 for 512 KB, 5 above; the 64 KB branch never fires |
| MapTable.AsWrittenRamCode | script/gbnp.js:266-276 | as written the RAM-size field ignores the RAM size: 001 for type 0x06 and 010 for every other cartridge |
| MapTable.NoRamCartridgeGetsRam | script/gbnp.js:268-275 | an MBC1 cartridge without RAM gets the 8 KB code 010 as written, and 000 when the size is read by value |
| MapTable.AsWrittenTableDiffers | script/gbnp.js:224-295 | for an MBC1 cartridge without RAM, the table built as written differs from the one built with the RAM size read by value |
| MapTable.IntendedRamCode | script/gbnp.js:266-276 | read by value, the field follows the RAM class: 001 for type 0x06, else 000 without RAM, 010 for 2 and 8 KB, 011 from 32 KB |
| MapTable.RamStepKB | script/gbnp.js:287 | each ROM advances the RAM offset by at least 8 KB |
| MapTable.RamOffsetKB | script/gbnp.js:287-288 | before slot i the RAM offset is at least 8·i KB |
| MapTable.RomOffsetKB | script/gbnp.js:232-283 | before slot i the ROM offset is at least 128 + 128·i KB, a whole number of 128 KB banks |
| MapTable.DecodeSlotEntry | script/gbnp.js:279-288 | a slot's fields do not overlap: MBC, ROM-size and RAM-size codes and both offsets (ROM below 4 MB in 32 KB units, RAM below 512 KB in 2 KB units) decode back from its three bytes |
| MapTable.MapSize | script/gbnp.js:224-295 | mapData succeeds exactly for up to 35 ROMs and then yields 128 bytes |
| MapTable.MapLayout | script/gbnp.js:229-292 | the table is the menu entry A8 00 00, the slots, 0xFF up to byte 110, then the trailer in bytes 110..127 |
| MapTable.MapSlot | script/gbnp.js:235-288 | slot i sits at byte 3+3i and holds ROM i's entry with the running ROM and RAM offsets: slots keep input order |
| Image.LoadRoms | script/gbnp.js:400-411 | the try block loads at most one ROM per bank count |
| Image.LoadRomsStopped | script/gbnp.js:400-414 | once a read or a construction has failed, later records change nothing |
| Image.PayloadsStopped | script/gbnp.js:377-380 | a payload write that fails fails the whole image |
| Image.IndexSizesFound | script/gbnp.js:389-398 | on an image reaching past the records the index reads succeed, find at most one size per record, and find none exactly when no record starts with a ROM number 1..7 |
| Image.ParseMenuOutcome | script/gbnp.js:385-417 | on a full image parseMenuData never fails on the index, reports "no roms" exactly when no record is in use, and loads at most seven ROMs |
| Layout.PatchBytes | script/gbnp.js:304-318 | the CGB and DMG hacks never fail on an image and change only their own addresses, to their fixed values |
| Layout.TickerBytes | script/gbnp.js:320-325 | the ticker stage succeeds exactly when the ticker fits; then the ticker is at 0x18040, zeros follow it up to 0x19140 and nothing else changes |
| Layout.ClearRecordsBytes | script/gbnp.js:340-344 | clearing puts 0xFF at the first byte of each record and changes nothing else |
| Layout.RecordBytes | script/gbnp.js:348-371 | one record places the seven header bytes and, 63 bytes on, the bitmap, and changes nothing outside its 319 bytes |
| Layout.RecordsBytes | script/gbnp.js:346-374 | each ROM's record holds its header and bitmap; bytes outside the records in use are unchanged |
| Layout.RecordsFit | script/gbnp.js:346-374 | up to seven records with 256-byte bitmaps always fit in the image |
| Layout.PayloadsBytes | script/gbnp.js:377-380 | payload j lies at 0x20000 plus the payload lengths before it, and nothing below 0x20000 changes |
| Layout.PayloadsFit | script/gbnp.js:377-380 | the payload writes succeed exactly when the payloads end within the image |
| Layout.TickedFirmware | script/gbnp.js:302-325 | after loading, patching and the ticker: patched firmware below and above the strip, the ticker at its start, zeros after it |
| Layout.IndexedMenu | script/gbnp.js:337-374 | after clearing and writing the index: a record per ROM, 0xFF at the start of every free record, and nothing below the index changed |
| Layout.RomImageSucceeds | script/gbnp.js:297-383 | romData succeeds exactly when the firmware fits in 1 MiB, the ticker fits, and the ROMs take at most 896 KB |
| Layout.RomImageIndex | script/gbnp.js:336-383 | for a ticker of any length, a built image holds a record for each ROM, 0xFF at the start of each free record, and the payloads in order from 0x20000: everything written after the ticker |
| Layout.RomImageLayout | script/gbnp.js:297-325 | a built image whose ticker stays in its strip holds the patched firmware below and above the strip, the ticker at its start and zeros after it |
| Processing.Processor.constructor | script/gbnp.js:194-200 | the ROMs given, no menu, both hacks off, an empty ticker |
| Processing.Processor.RomOverflow | script/gbnp.js:220-222 | a cartridge that does not overflow has at most seven ROMs; for constructed ROMs, overflow is exactly the payloads running past 1 MiB |
| Processing.OverflowIsUnfit | script/gbnp.js:208-222 | for constructed ROMs, more than 896 KB used is exactly the payloads ending past the 1 MiB image |
| Processing.Processor.MapData | script/gbnp.js:224-295 | the method writing through a FileSeeker returns exactly the mapping table for the given reading of the RAM field: with `AsWritten` the table the code builds, with `Intended` the corrected one (see Findings) |
| Processing.Processor.RomData | script/gbnp.js:297-383 | the method returns exactly the flash image, or the failure when no menu is loaded or a write leaves the image |
| Processing.Processor.ParseMenuData | script/gbnp.js:385-417 | the method returns the parse outcome of the image and leaves `roms` holding the ROMs that outcome loaded |
| Processing.Processor.LoadPayloads | script/gbnp.js:400-411 | the try-block loop reads each payload from 0x20000 and pushes its ROM; it stops at the first failure, keeping the ROMs built so far |
| Processing.ReadIndex | script/gbnp.js:389-398 | the index loop yields the bank counts of the records whose first byte is 1..7, in record order, and fails when a read leaves the image |
| Processing.WritePatches | script/gbnp.js:304-318 | the in-place hacks leave the image the value-level patch defines |
| Processing.WriteTicker | script/gbnp.js:320-325 | the strip is cleared and the ticker written, as the value-level ticker stage defines, failing exactly when it does |
| Processing.ClearIndex | script/gbnp.js:340-344 | the clearing loop leaves 0xFF at each record start, as the value-level definition does |
| Processing.WriteRecords | script/gbnp.js:337-374 | the record loop, with its running first bank and record address, leaves the value-level index or fails exactly when it does |
| Processing.WriteRecord | script/gbnp.js:348-371 | one record's header and bitmap are written as the value-level record defines, failing exactly when it does |
| Processing.HeaderAt | script/gbnp.js:351-361 | the header built from the running `romBase` is record i's header, and `romBase` then advances by the ROM's bank count |
| Processing.WriteSlots | script/gbnp.js:231-289 | the slot loop succeeds exactly when all slots fit in 128 bytes, and then holds the slots (for the given reading of the RAM field) from byte 3 with the cursor after them |
| Processing.WriteSlot | script/gbnp.js:235-288 | one iteration writes ROM i's entry right after the first i slots, succeeding exactly when it fits, and moves both running offsets on |
| Processing.SlotsStep | script/gbnp.js:279-288 | each iteration appends the ROM's entry and advances the ROM offset by its padded size and the RAM offset by its RAM step |
| Processing.WriteEntry | script/gbnp.js:279-286 | a slot is the two bit-field bytes then the RAM-offset byte, written exactly when all three fit |
| Processing.WriteTrailer | script/gbnp.js:291-292 | 0xFF up to byte 110, then the trailer; it succeeds exactly when the cursor has not passed byte 110 |
| Processing.MapWritten | script/gbnp.js:229-292 | the menu entry, the slots, the fill and the trailer, written in turn into zeros, make the mapping table |
| Processing.WritePayloads | script/gbnp.js:377-380 | the payload loop leaves the value-level payload writes, failing exactly when they do |
| RoundTrip.IndexOfImage | script/gbnp.js:389-398 | the index of an image with records for the ROMs lists each ROM's bank count, in ROM order |
| RoundTrip.BankBytes | script/gbnp.js:361 | a ROM of at most 896 KB has a bank-count byte that, times 128 KB, is its payload length |
| RoundTrip.ShapedBanks | script/gbnp.js:361 | constructed ROMs that fit the cartridge all have bank counts matching their payloads |
| RoundTrip.SizeBytesAt | script/gbnp.js:400-406 | the offset and the length parseMenuData derives for payload i are where romData wrote it and how long it is |
| RoundTrip.LoadsAll | script/gbnp.js:400-411 | when every payload reads back and rebuilds its ROM, the try block loads all of them, in order, without failing |
| RoundTrip.ReadBack | script/gbnp.js:385-417 | an image whose index and payloads are laid out for the ROMs parses back to exactly those ROMs |
| RoundTrip.MenuRoundTrip | script/gbnp.js:297-417 | parseMenuData on an image romData built finds exactly the ROMs that went in, in order (or reports none when there were none), for a ticker of any length |
| RoundTrip.ParsedRomsReparse | script/gbnp.js:55-89 | ROMs constructed from files that fit their declared size are rebuilt unchanged from their payloads |
| RoundTrip.FilesRoundTrip | script/gbnp.js:297-417 | files loaded as ROMs (none oversized), written out by romData with any ticker and read back by parseMenuData come back as the same ROMs in the same order |

## Left out

- `Menu` (script/gbnp.js:23-52): loading the firmware from `localStorage` or a script tag is I/O. The firmware is the `menu` field of the processor, `None` for `null`.
- Canvas drawing and fonts (script/gbnp.js:124-138, 443-452): the pixels a title or a ticker text renders to come from a rendering function (`Rasteriser`) or a list of red values given as a parameter. The text's measured width is a parameter of `TickerWidth`.
- `updateBitmapPreview` and `BITMAP_PREVIEW_BYTES` (script/gbnp.js:10-15, 172-190): preview colours for the page, not part of any output file.
- `alert` and `console` calls: the reason a ROM is bad is kept as a `Problem` value instead, and parseMenuData's outcome as a `MenuParse` value.
- `romTotalKB` and `ramUsedKB` (script/gbnp.js:202-218): shown on the page only, not used by any output.
- `updateMenuText` (script/gbnp.js:116-119): the menu bitmap is modelled from the title the constructor draws.
- `valid()`'s memo field `_valid` is not modelled: it only caches the logo check.
- The title is kept as the header's bytes without NULs, not decoded to a JS string.
- Cartridge.ParseRom: ROM-size class n asks for a payload of 32·2^n KB, from 128 KB up to 2^30 KB (1 TiB) at class 25. The model gives every class a payload of that size; the allocation failure a JS engine raises for an `ArrayBuffer` beyond its own limit (which depends on the engine) is not modelled.
- Processing.WriteRecords: each record header is written as one seven-byte write rather than seven single-byte writes. For at most seven constructed ROMs the record writes never fail (`Layout.RecordsFit`), so the result is the same.
- The inner loops of the encoders and of the record, slot and payload writers are separate methods (`ReorderColumn`, `WriteRecord`, `WriteEntry`), called from the outer loops.
- RoundTrip.MenuRoundTrip: assumes each ROM is rebuilt unchanged from its own payload. `ParsedRomsReparse` proves this for every ROM built from a file that is not oversized.
- Image.ParseMenuOutcome: states the outcome for images at least as long as the index. A shorter buffer makes an index read throw, which is modelled (`IndexUnreadable`) but has no lemma of its own.
- The ticker canvas is fixed at 16 rows (`Tiles.TickerHeight`). `generate()` never sets the canvas height, which comes with the canvas it is given; its loop bound `canvas.width * 4` only covers the whole canvas when it is 16 rows high.
- MapTable.RamOffsetKB: JS numbers are doubles, and the model takes them as exact integers. That is exact for every value below 2^53. The only sum that can pass 2^53 is the running `ramOffset` (script/gbnp.js:287). Every step is a multiple of 8 KB and at most 2·4^(c-1) KB for RAM class c, so with at most 35 slots it stays below 2^53 unless some ROM has RAM class 25 or more. Past that, the double sum rounds (2^57 + 8 stays 2^57) and later RAM-offset bytes can differ from the model's. Any ROM with more than 32 KB of RAM (class 4 or more) is already flagged bad.
- Tiles.TickerWidth: the measured text width is taken as a whole number already rounded up (`Math.ceil`); floating point is not modelled.

## Findings

| source | as written | input that shows it | evidently intended | confidence | as-written member | corrected member |
|---|---|---|---|---|---|---|
| script/gbnp.js:268-275 | the RAM-size field compares `rom.ramSizeKB` — the method object, never called — with 0, 8 and 32. Every comparison is false, so every cartridge other than type 0x06 gets code 010 (8 KB) | a ROM with type byte 0x01 (MBC1) and RAM-size byte 0 (no RAM) gets RAM code 010 instead of 000; one with RAM-size byte 3 (32 KB) gets 010 instead of 011 | compare `rom.ramSizeKB()`: 000 without RAM, 010 for 2 and 8 KB, 011 from 32 KB, 001 for type 0x06 | not executed | MapTable.AsWrittenTableDiffers | MapTable.IntendedRamCode |
