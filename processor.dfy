/**
 * Processor (script/gbnp.js:192-418): the ROMs chosen for a cartridge, the menu firmware
 * and the options, and the three binary products built from them: the mapping table
 * (mapData), the 1 MiB flash image (romData) and, in the other direction, the ROMs read
 * back out of an image (parseMenuData). Each method works through a FileSeeker in the
 * order of the JS's writes and is proved equal to the value-level definition in MapTable
 * or Image; mapData takes the reading of the RAM-size field as a parameter (see MapData).
 */
module Processing {
  import opened Bytes
  import opened Tiles
  import opened Cartridge
  import opened MapTable
  import opened Image
  import opened Seeking

  class Processor {
    var roms: seq<Rom>
    /** The menu firmware (`this.menu.data`); None while no menu has been loaded. */
    var menu: Option<seq<byte>>
    var disableCGB: bool
    var forceDMG: bool
    var tickerBitmap: seq<byte>

    constructor (roms: seq<Rom>)
      ensures this.roms == roms && menu == None
      ensures !disableCGB && !forceDMG && tickerBitmap == []
    {
      this.roms := roms;
      menu := None;
      disableCGB := false;
      forceDMG := false;
      tickerBitmap := [];
    }

    /** romOverflow: more than 896 KB of padded ROMs; a cartridge that fits has at most 7. */
    function RomOverflow(): (overflow: bool)
      reads this
      ensures !overflow ==> |roms| <= RecordSlots
      ensures AllShaped(roms) ==> (overflow <==> PayloadStart + PayloadBytesBefore(roms, |roms|) > ImageBytes)
    {
      OverflowIsUnfit(roms);
      RomUsedKB(roms) > MaxRomKB
    }

    /**
     * mapData: the menu entry, one three-byte slot per ROM with the running ROM and RAM
     * offsets, 0xFF up to byte 110 and the trailer; None where a write would leave the
     * 128-byte buffer. With `read == AsWritten` this is mapData as the source runs it, whose
     * RAM field compares the method `rom.ramSizeKB` itself rather than its value; with
     * `read == Intended` it is the corrected table (MapTable.AsWrittenTableDiffers).
     */
    method MapData(read: RamRead) returns (table: Option<seq<byte>>)
      ensures table == Map(roms, read)
    {
      var buffer := new byte[MapBytes](_ => 0);
      var file := new FileSeeker(buffer);
      ghost var zeros := buffer[..];
      var ok := file.WriteBytes(MenuEntry);
      ok := WriteSlots(file, roms, read);
      if !ok {
        return None;
      }
      ghost var filled := buffer[..];
      ok := WriteTrailer(file);
      if !ok {
        return None;
      }
      MapWritten(zeros, Slots(roms, |roms|, read), filled, buffer[..]);
      table := Some(buffer[..]);
    }

    /**
     * romData: the firmware, its CGB and DMG patches, the ticker, the cleared index, one
     * record per ROM and the payloads from 0x20000, in one 1 MiB buffer; None where a
     * write would leave the buffer, or when no menu has been loaded.
     */
    method RomData() returns (image: Option<seq<byte>>)
      ensures image == if menu.None? then None else RomImage(menu.value, disableCGB, forceDMG, tickerBitmap, roms)
    {
      if menu.None? {
        return None;
      }
      var buffer := new byte[ImageBytes](_ => 0);
      assert buffer[..] == Zeros(ImageBytes);
      var file := new FileSeeker(buffer);
      var ok := file.WriteBytes(menu.value);
      if !ok {
        return None;
      }
      WritePatches(file, disableCGB, forceDMG);
      ok := WriteTicker(file, tickerBitmap);
      if !ok {
        return None;
      }
      ClearIndex(file);
      ok := WriteRecords(file, roms);
      if !ok {
        return None;
      }
      ok := WritePayloads(file, roms);
      if !ok {
        return None;
      }
      image := Some(buffer[..]);
    }

    /**
     * parseMenuData: the bank counts of the records in use, then each payload read from
     * 0x20000 and handed to the ROM constructor. `roms` keeps what was built before a
     * read or a construction failed; an index read outside the image is the error that
     * escapes (IndexUnreadable), leaving `roms` empty.
     */
    method ParseMenuData(menuBuffer: array<byte>, render: Rasteriser) returns (outcome: MenuParse)
      modifies this`roms
      ensures outcome == ParseMenu(menuBuffer[..], render) && roms == ParsedRoms(outcome)
    {
      roms := [];
      var file := new FileSeeker(menuBuffer);
      var sizes := ReadIndex(file);
      if sizes.None? {
        return IndexUnreadable;
      }
      if |sizes.value| == 0 {
        return NoRomsDetected;
      }
      var complete := LoadPayloads(file, sizes.value, Parser(render));
      outcome := Loaded(roms, complete);
    }

    /**
     * The try block of parseMenuData: from 0x20000 each payload is read and handed to the
     * ROM constructor `parse`, and the ROM pushed onto `roms`; the first failure ends it.
     */
    method LoadPayloads(file: FileSeeker, sizes: seq<byte>, parse: seq<byte> -> Option<Rom>) returns (complete: bool)
      requires roms == []
      modifies this`roms, file
      ensures LoadRoms(file.view[..], sizes, parse, |sizes|) == Loading(roms, complete)
    {
      ghost var image := file.view[..];
      file.Seek(PayloadStart);
      var j := 0;
      complete := true;
      while j < |sizes| && complete
        invariant j <= |sizes| && file.view[..] == image
        invariant complete ==> file.position == PayloadStart + SizeBytesBefore(sizes, j)
        invariant LoadRoms(image, sizes, parse, j) == Loading(roms, complete)
      {
        var data := file.Read((sizes[j] as nat) * 0x20000);
        if data.Some? {
          var rom := parse(data.value);
          if rom.Some? {
            roms := roms + [rom.value];
          } else {
            complete := false;
          }
        } else {
          complete := false;
        }
        j := j + 1;
      }
      if !complete {
        LoadRomsStopped(image, sizes, parse, j, |sizes|);
      }
    }
  }

  /**
   * The index loop of parseMenuData: for each of the seven records, its first byte and,
   * when that is a ROM index 1..7, its bank count at +3; None when a read leaves the image.
   */
  method ReadIndex(file: FileSeeker) returns (sizes: Option<seq<byte>>)
    modifies file
    ensures sizes == IndexSizes(file.view[..], RecordSlots)
  {
    ghost var image := file.view[..];
    var found: seq<byte> := [];
    var i := 0;
    while i < RecordSlots
      invariant i <= RecordSlots && file.view[..] == image
      invariant IndexSizes(image, i) == Some(found)
    {
      var at := RecordAt(i);
      file.Seek(at);
      var b := file.ReadByte();
      if b.None? {
        IndexSizesStopped(image, i + 1, RecordSlots);
        return None;
      }
      if 0 < b.value < 8 {
        file.Seek(at + 3);
        var size := file.ReadByte();
        if size.None? {
          IndexSizesStopped(image, i + 1, RecordSlots);
          return None;
        }
        found := found + [size.value];
      }
      i := i + 1;
    }
    sizes := Some(found);
  }

  /** With constructed ROMs, going over 896 KB is exactly the payloads running past 1 MiB. */
  lemma OverflowIsUnfit(roms: seq<Rom>)
    ensures AllShaped(roms) ==>
      (RomUsedKB(roms) > MaxRomKB <==> PayloadStart + PayloadBytesBefore(roms, |roms|) > ImageBytes)
  {
    if AllShaped(roms) {
      PayloadBytesArePaddedKB(roms, |roms|);
    }
  }

  /** One more slot: its entry follows the others, and the running offsets step past the ROM. */
  lemma SlotsStep(roms: seq<Rom>, i: nat, read: RamRead)
    requires i < |roms|
    ensures Slots(roms, i + 1, read) ==
      Slots(roms, i, read) + SlotEntry(roms[i], RomOffsetKB(roms, i), RamOffsetKB(roms, i), read)
    ensures RomOffsetKB(roms, i + 1) == RomOffsetKB(roms, i) + PaddedRomSizeKB(roms[i].romByte)
    ensures RamOffsetKB(roms, i + 1) == RamOffsetKB(roms, i) + RamStepKB(roms[i])
  {
    assert SlotOf(roms, read)(i) == SlotEntry(roms[i], RomOffsetKB(roms, i), RamOffsetKB(roms, i), read);
  }

  /** The menu entry, the slots, the 0xFF fill and the trailer, written in turn, make the framed table. */
  lemma MapWritten(zeros: seq<byte>, slots: seq<byte>, filled: seq<byte>, table: seq<byte>)
    requires |zeros| == MapBytes && 3 + |slots| <= TrailerStart
    requires filled == Overwrite(Overwrite(zeros, 0, MenuEntry), 3, slots)
    requires table == Overwrite(Overwrite(filled, 3 + |slots|, Repeat(0xFF, TrailerStart - 3 - |slots|)),
                                TrailerStart, MapTrailer)
    ensures Framed(MenuEntry + slots) == Some(table)
  {
    OverwriteAppend(zeros, 0, MenuEntry, slots);
    TableWritten(zeros, MenuEntry + slots);
  }

  lemma TableWritten(buf: seq<byte>, written: seq<byte>)
    requires |buf| == MapBytes && |written| <= TrailerStart
    ensures Framed(written) == Some(Overwrite(Overwrite(Overwrite(buf, 0, written), |written|,
                                                        Repeat(0xFF, TrailerStart - |written|)),
                                              TrailerStart, MapTrailer))
  {
    var fill := Repeat(0xFF, TrailerStart - |written|);
    OverwriteAppend(buf, 0, written, fill);
    OverwriteAppend(buf, 0, written + fill, MapTrailer);
    OverwriteWhole(buf, written + fill + MapTrailer);
  }

  /** The header of record i as the loop builds it from its running first bank. */
  lemma HeaderAt(roms: seq<Rom>, i: nat, romBase: int)
    requires i < |roms| && romBase == 1 + BanksBefore(roms, i)
    ensures Headers(roms)[i] == Header(i + 1, romBase, PaddedRomSizeKB(roms[i].romByte) / 128)
    ensures BanksBefore(roms, i + 1) == BanksBefore(roms, i) + PaddedRomSizeKB(roms[i].romByte) / 128
  {
  }

  /** Record i written before the records after it. */
  lemma EntriesStep(buf: seq<byte>, headers: seq<seq<byte>>, bitmaps: seq<seq<byte>>, i: nat)
    requires i < |headers| == |bitmaps|
    ensures Entries(buf, headers, bitmaps, i)
         == match Record(buf, RecordAt(i), headers[i], bitmaps[i])
            case None => None
            case Some(next) => Entries(next, headers, bitmaps, i + 1)
  {
  }

  /** The CGB hack (CGB flag and header checksum) and the DMG hack (boot patch), in place. */
  method WritePatches(file: FileSeeker, disableCGB: bool, forceDMG: bool)
    requires file.view.Length == ImageBytes
    modifies file, file.view
    ensures Patch(old(file.view[..]), disableCGB, forceDMG) == Some(file.view[..])
  {
    var ok;
    if disableCGB {
      file.Seek(CgbOffset);
      ok := file.WriteByte(0);
      file.Seek(0x14D);
      ok := file.WriteByte(83);
    }
    if forceDMG {
      file.Seek(0x100);
      ok := file.WriteByte(0xAF);
      file.Seek(0x150);
      ok := file.WriteBytes([0x3C, 0xE0, 0xFE, 0x3D]);
    }
  }

  /** The ticker strip zeroed, then the ticker bitmap written at its start. */
  method WriteTicker(file: FileSeeker, ticker: seq<byte>) returns (ok: bool)
    requires file.view.Length == ImageBytes
    modifies file, file.view
    ensures ok == Ticker(old(file.view[..]), ticker).Some?
    ensures ok ==> Ticker(old(file.view[..]), ticker) == Some(file.view[..])
  {
    file.Seek(TickerStart);
    ok := file.WriteByteUntil(0, TickerEnd);
    assert Repeat(0, TickerEnd - TickerStart) == Zeros(TickerEnd - TickerStart);
    file.Seek(TickerStart);
    ok := file.WriteBytes(ticker);
  }

  /** 0xFF at the start of each of the seven records. */
  method ClearIndex(file: FileSeeker)
    requires file.view.Length == ImageBytes
    modifies file, file.view
    ensures ClearRecords(old(file.view[..]), RecordSlots) == Some(file.view[..])
  {
    var i := 0;
    while i < RecordSlots
      invariant i <= RecordSlots && file.view.Length == ImageBytes
      invariant ClearRecords(old(file.view[..]), i) == Some(file.view[..])
    {
      file.Seek(IndexStart + i * 512);
      var ok := file.WriteByte(0xFF);
      i := i + 1;
    }
  }

  /**
   * One record per ROM from 0x1C200, 512 bytes apart: its index, first bank, bank count
   * and the title bitmap at +63.
   */
  method WriteRecords(file: FileSeeker, roms: seq<Rom>) returns (ok: bool)
    requires file.view.Length == ImageBytes
    modifies file, file.view
    ensures Records(old(file.view[..]), roms) == if ok then Some(file.view[..]) else None
  {
    ghost var start := file.view[..];
    var romBase: int := 1;
    var romFileIndex := IndexStart;
    var i := 0;
    ok := true;
    while i < |roms| && ok
      invariant i <= |roms| && file.view.Length == ImageBytes
      invariant romBase == 1 + BanksBefore(roms, i) && romFileIndex == RecordAt(i)
      invariant Records(start, roms) == if ok then Entries(file.view[..], Headers(roms), Bitmaps(roms), i) else None
    {
      var rom := roms[i];
      var banks := PaddedRomSizeKB(rom.romByte) / 128;
      var header := Header(i + 1, romBase, banks);
      HeaderAt(roms, i, romBase);
      EntriesStep(file.view[..], Headers(roms), Bitmaps(roms), i);
      ok := WriteRecord(file, romFileIndex, header, rom.bitmap);
      romBase := romBase + banks;
      romFileIndex := romFileIndex + 512;
      i := i + 1;
    }
  }

  /** One record: the seven header bytes at `at`, then the title bitmap 63 bytes further on. */
  method WriteRecord(file: FileSeeker, at: nat, header: seq<byte>, bitmap: seq<byte>) returns (ok: bool)
    modifies file, file.view
    ensures Record(old(file.view[..]), at, header, bitmap)
      == if ok then Some(file.view[..]) else None
  {
    file.Seek(at);
    ok := file.WriteBytes(header);
    if ok {
      file.Seek(at + BitmapOffset);
      ok := file.WriteBytes(bitmap);
    }
  }

  /**
   * The slots of mapData's loop, from byte 3, with the running ROM and RAM offsets; `read`
   * is the reading of the RAM-size field (AsWritten for the source as it runs).
   */
  method WriteSlots(file: FileSeeker, roms: seq<Rom>, read: RamRead) returns (ok: bool)
    requires file.view.Length == MapBytes && file.position == |MenuEntry|
    modifies file, file.view
    ensures ok == (3 + 3 * |roms| <= MapBytes)
    ensures ok ==> file.position == 3 + 3 * |roms|
    ensures ok ==> file.view[..] == Overwrite(old(file.view[..]), 3, Slots(roms, |roms|, read))
  {
    ghost var start := file.view[..];
    var romOffset: int := FirstRomOffsetKB;
    var ramOffset: nat := 0;
    var i := 0;
    ok := true;
    while i < |roms| && ok
      invariant i <= |roms| && file.view.Length == MapBytes
      invariant romOffset == RomOffsetKB(roms, i) && ramOffset == RamOffsetKB(roms, i)
      invariant ok ==> 3 + 3 * i <= MapBytes && file.position == 3 + 3 * i
      invariant ok ==> file.view[..] == Overwrite(start, 3, Slots(roms, i, read))
      invariant !ok ==> i < |roms| && MapBytes < 3 + 3 * i + 3
      decreases |roms| - i, ok
    {
      ok, romOffset, ramOffset := WriteSlot(file, roms, i, read, romOffset, ramOffset, start);
      if ok {
        i := i + 1;
      }
    }
    if ok {
      assert i == |roms|;
      assert Slots(roms, i, read) == Slots(roms, |roms|, read);
    }
  }

  /** Slot i of mapData's loop, written after the first i slots. */
  method WriteSlot(file: FileSeeker, roms: seq<Rom>, i: nat, read: RamRead, romOffset: int, ramOffset: nat,
                   ghost start: seq<byte>) returns (ok: bool, nextRom: int, nextRam: nat)
    requires i < |roms| && romOffset == RomOffsetKB(roms, i) && ramOffset == RamOffsetKB(roms, i)
    requires file.position == 3 + 3 * i && file.view[..] == Overwrite(start, 3, Slots(roms, i, read))
    modifies file, file.view
    ensures ok == (3 + 3 * i + 3 <= file.view.Length)
    ensures ok ==> file.position == 3 + 3 * (i + 1)
    ensures ok ==> file.view[..] == Overwrite(start, 3, Slots(roms, i + 1, read))
    ensures ok ==> nextRom == RomOffsetKB(roms, i + 1) && nextRam == RamOffsetKB(roms, i + 1)
    ensures !ok ==> nextRom == romOffset && nextRam == ramOffset
  {
    var entry := SlotEntry(roms[i], romOffset, ramOffset, read);
    ghost var before := file.view[..];
    ok := WriteEntry(file, entry);
    SlotsStep(roms, i, read);
    if ok {
      SlotWritten(start, roms, i, read, before, entry, file.view[..]);
      nextRom, nextRam := romOffset + PaddedRomSizeKB(roms[i].romByte), ramOffset + RamStepKB(roms[i]);
    } else {
      nextRom, nextRam := romOffset, ramOffset;
    }
  }

  /** Writing slot i after the first i slots gives the first i + 1. */
  lemma SlotWritten(start: seq<byte>, roms: seq<Rom>, i: nat, read: RamRead,
                    before: seq<byte>, entry: seq<byte>, after: seq<byte>)
    requires i < |roms|
    requires before == Overwrite(start, 3, Slots(roms, i, read))
    requires entry == SlotEntry(roms[i], RomOffsetKB(roms, i), RamOffsetKB(roms, i), read)
    requires after == Overwrite(before, 3 + 3 * i, entry)
    ensures after == Overwrite(start, 3, Slots(roms, i + 1, read))
  {
    OverwriteAppend(start, 3, Slots(roms, i, read), entry);
    SlotsStep(roms, i, read);
  }

  /** One slot: its first two bytes with writeBytes, then the RAM offset with writeByte. */
  method WriteEntry(file: FileSeeker, entry: seq<byte>) returns (ok: bool)
    requires |entry| == SlotBytes
    modifies file, file.view
    ensures ok == (old(file.position) + 3 <= file.view.Length)
    ensures ok ==> file.position == old(file.position) + 3
    ensures ok ==> file.view[..] == Overwrite(old(file.view[..]), old(file.position), entry)
  {
    ok := file.WriteBytes(entry[..2]);
    if ok {
      ok := file.WriteByte(entry[2]);
      OverwriteAppend(old(file.view[..]), old(file.position), entry[..2], [entry[2]]);
      assert entry[..2] + [entry[2]] == entry;
    }
  }

  /** 0xFF up to byte 110, then the trailer; the trailer overruns once the slots pass byte 110. */
  method WriteTrailer(file: FileSeeker) returns (ok: bool)
    requires file.view.Length == MapBytes
    modifies file, file.view
    ensures ok == (old(file.position) <= TrailerStart)
    ensures ok ==> file.view[..] == Overwrite(
      Overwrite(old(file.view[..]), old(file.position), Repeat(0xFF, TrailerStart - old(file.position))),
      TrailerStart, MapTrailer)
  {
    ok := file.WriteByteUntil(0xFF, TrailerStart);
    ok := file.WriteBytes(MapTrailer);
  }

  /** The payloads one after the other from 0x20000. */
  method WritePayloads(file: FileSeeker, roms: seq<Rom>) returns (ok: bool)
    requires file.view.Length == ImageBytes
    modifies file, file.view
    ensures ok == Payloads(old(file.view[..]), roms, |roms|).Some?
    ensures ok ==> Payloads(old(file.view[..]), roms, |roms|) == Some(file.view[..])
  {
    ghost var start := file.view[..];
    file.Seek(PayloadStart);
    var i := 0;
    while i < |roms|
      invariant i <= |roms| && file.view.Length == ImageBytes
      invariant file.position == PayloadStart + PayloadBytesBefore(roms, i)
      invariant Payloads(start, roms, i) == Some(file.view[..])
    {
      ok := file.WriteBytes(roms[i].payload);
      if !ok {
        PayloadsStopped(start, roms, i + 1, |roms|);
        return;
      }
      i := i + 1;
    }
    ok := true;
  }
}
