/**
 * Reading a built image back (Processor.parseMenuData, script/gbnp.js:385-417) recovers the
 * ROMs that Processor.romData (script/gbnp.js:297-383) wrote into it.
 */
module RoundTrip {
  import opened Bytes
  import opened Tiles
  import opened Cartridge
  import opened Image
  import opened Layout

  /** The bank counts romData writes at byte 3 of records 0..n-1. */
  function SizeCodes(roms: seq<Rom>, n: nat): (sizes: seq<byte>)
    requires n <= |roms|
    ensures |sizes| == n
  {
    if n == 0 then [] else SizeCodes(roms, n - 1) + [BankCode(roms[n - 1])]
  }

  /** Byte 3 of a ROM's record: its padded size in 128 KB banks. */
  function BankCode(rom: Rom): byte {
    AsByte(PaddedRomSizeKB(rom.romByte) / 128)
  }

  /** Bytes 0 and 3 of record i's header: its number and its bank count. */
  lemma HeaderFields(roms: seq<Rom>, i: nat)
    requires i < |roms|
    ensures RecordHeader(roms, i)[0] == AsByte(i + 1) && RecordHeader(roms, i)[3] == BankCode(roms[i])
  {
  }

  /** Entry i of the size codes is byte 3 of record i's header. */
  lemma {:induction false} SizeCodeAt(roms: seq<Rom>, n: nat, i: nat)
    requires i < n <= |roms|
    ensures SizeCodes(roms, n)[i] == BankCode(roms[i])
  {
    if i < n - 1 {
      SizeCodeAt(roms, n - 1, i);
    }
  }

  /** Every ROM is rebuilt unchanged from its own payload by `parse`. */
  predicate Reparses(roms: seq<Rom>, parse: seq<byte> -> Option<Rom>) {
    forall j :: 0 <= j < |roms| ==> ReparsesAt(roms, parse, j)
  }

  /** ROM j is rebuilt unchanged from its own payload. */
  predicate ReparsesAt(roms: seq<Rom>, parse: seq<byte> -> Option<Rom>, j: nat)
    requires j < |roms|
  {
    parse(roms[j].payload) == Some(roms[j])
  }

  /** What romData leaves in the index: filled records for the ROMs, 0xFF at the rest. */
  predicate IndexWritten(img: seq<byte>, roms: seq<Rom>) {
    && |img| == ImageBytes && |roms| <= RecordSlots
    && (forall j :: 0 <= j < |roms| ==> RecordPlaced(img, roms, j))
    && (forall j :: |roms| <= j < RecordSlots ==> img[RecordAt(j)] == 0xFF)
  }

  /** A record number 1..7 written as a byte is still 1..7. */
  lemma RecordNumber(i: nat)
    requires 0 < i < 8
    ensures AsByte(i) == i as byte && 0 < AsByte(i) < 8
  {
  }

  /** The index of a written image lists the bank count of each ROM, in order. */
  lemma {:induction false} IndexOfImage(img: seq<byte>, roms: seq<Rom>, k: nat)
    requires IndexWritten(img, roms) && k <= RecordSlots
    ensures k <= |roms| ==> IndexSizes(img, k) == Some(SizeCodes(roms, k))
    ensures k > |roms| ==> IndexSizes(img, k) == Some(SizeCodes(roms, |roms|))
  {
    if k > 0 {
      IndexOfImage(img, roms, k - 1);
      var at := RecordAt(k - 1);
      if k - 1 < |roms| {
        assert RecordPlaced(img, roms, k - 1);
        var header := RecordHeader(roms, k - 1);
        PlacedByte(img, at, header, 0);
        PlacedByte(img, at, header, 3);
        HeaderFields(roms, k - 1);
        RecordNumber(k);
      } else {
        assert img[at] == 0xFF;
      }
    }
  }

  /** A ROM of at most 896 KB: its bank count times 128 KB is its payload length. */
  lemma BankBytes(rom: Rom)
    requires Shaped(rom) && PaddedRomSizeKB(rom.romByte) <= MaxRomKB
    ensures (BankCode(rom) as nat) * 0x20000 == |rom.payload|
  {
    var paddedKB := PaddedRomSizeKB(rom.romByte);
    PaddedRomSize(rom.romByte);
    var q := paddedKB / 128;
    assert paddedKB == 128 * q;
    SmallByte(q);
  }

  /** No one ROM takes more than the ROMs together. */
  lemma {:induction false} PaddedKBBeforeMonotone(roms: seq<Rom>, i: nat, n: nat)
    requires i < n <= |roms|
    ensures PaddedRomSizeKB(roms[i].romByte) <= PaddedKBBefore(roms, n)
    decreases n
  {
    if i < n - 1 {
      PaddedKBBeforeMonotone(roms, i, n - 1);
      PaddedRomSize(roms[n - 1].romByte);
    }
  }

  /** Every ROM's bank count, times 128 KB, is its payload length. */
  predicate BanksMatch(roms: seq<Rom>) {
    forall j :: 0 <= j < |roms| ==> (BankCode(roms[j]) as nat) * 0x20000 == |roms[j].payload|
  }

  /** Constructed ROMs that fit the cartridge have bank counts that match their payloads. */
  lemma ShapedBanks(roms: seq<Rom>)
    requires AllShaped(roms) && RomUsedKB(roms) <= MaxRomKB
    ensures BanksMatch(roms)
  {
    forall j | 0 <= j < |roms|
      ensures (BankCode(roms[j]) as nat) * 0x20000 == |roms[j].payload|
    {
      assert roms[j] in roms;
      PaddedKBBeforeMonotone(roms, j, |roms|);
      BankBytes(roms[j]);
    }
  }

  /** Bank counts that match the payloads sum to the payload offsets. */
  lemma {:induction false} SizesSum(sizes: seq<byte>, roms: seq<Rom>, i: nat)
    requires |sizes| == |roms| && i <= |roms|
    requires forall j :: 0 <= j < |roms| ==> (sizes[j] as nat) * 0x20000 == |roms[j].payload|
    ensures SizeBytesBefore(sizes, i) == PayloadBytesBefore(roms, i)
  {
    if i > 0 {
      SizesSum(sizes, roms, i - 1);
    }
  }

  /** The offsets parseMenuData sums from the bank counts are the payload offsets romData used. */
  lemma SizeBytesMatch(roms: seq<Rom>, i: nat)
    requires BanksMatch(roms) && i <= |roms|
    ensures SizeBytesBefore(SizeCodes(roms, |roms|), i) == PayloadBytesBefore(roms, i)
  {
    var sizes := SizeCodes(roms, |roms|);
    forall j | 0 <= j < |roms| ensures (sizes[j] as nat) * 0x20000 == |roms[j].payload| {
      SizeCodeAt(roms, |roms|, j);
    }
    SizesSum(sizes, roms, i);
  }

  /** Payload i is read back whole from where the index says it starts. */
  lemma ReadPayload(img: seq<byte>, roms: seq<Rom>, i: nat)
    requires AllShaped(roms) && RomUsedKB(roms) <= MaxRomKB && i < |roms| && PayloadPlaced(img, roms, i)
    ensures var sizes := SizeCodes(roms, |roms|);
      Read(img, PayloadStart + SizeBytesBefore(sizes, i), (sizes[i] as nat) * 0x20000) == Some(roms[i].payload)
  {
    var sizes := SizeCodes(roms, |roms|);
    SizeBytesAt(roms, i);
    PlacedRead(img, PayloadStart + SizeBytesBefore(sizes, i), roms[i].payload, (sizes[i] as nat) * 0x20000);
  }

  /** The offset and the length the index gives for payload i are where and how long it was written. */
  lemma SizeBytesAt(roms: seq<Rom>, i: nat)
    requires AllShaped(roms) && RomUsedKB(roms) <= MaxRomKB && i < |roms|
    ensures var sizes := SizeCodes(roms, |roms|);
      && SizeBytesBefore(sizes, i) == PayloadBytesBefore(roms, i)
      && (sizes[i] as nat) * 0x20000 == |roms[i].payload|
  {
    ShapedBanks(roms);
    SizeBytesMatch(roms, i);
    SizeCodeAt(roms, |roms|, i);
  }

  /** One more record read and rebuilt. */
  lemma LoadStep(img: seq<byte>, sizes: seq<byte>, roms: seq<Rom>, parse: seq<byte> -> Option<Rom>, i: nat)
    requires i < |roms| && i < |sizes|
    requires LoadRoms(img, sizes, parse, i) == Loading(roms[..i], true)
    requires |sizes| == |roms| && ReadsAt(img, sizes, roms, i) && ReparsesAt(roms, parse, i)
    ensures LoadRoms(img, sizes, parse, i + 1) == Loading(roms[..i + 1], true)
  {
    assert roms[..i + 1] == roms[..i] + [roms[i]];
  }

  /** Each payload is read whole from the offset the bank counts give it. */
  predicate ReadsBack(img: seq<byte>, sizes: seq<byte>, roms: seq<Rom>)
    requires |sizes| == |roms|
  {
    forall j :: 0 <= j < |roms| ==> ReadsAt(img, sizes, roms, j)
  }

  /** Payload j is read whole from the offset the bank counts give it. */
  predicate ReadsAt(img: seq<byte>, sizes: seq<byte>, roms: seq<Rom>, j: nat)
    requires j < |sizes| == |roms|
  {
    Read(img, PayloadStart + SizeBytesBefore(sizes, j), (sizes[j] as nat) * 0x20000) == Some(roms[j].payload)
  }

  /** When every payload reads back and rebuilds its ROM, the try block loads all of them. */
  lemma {:induction false} LoadsAll(img: seq<byte>, sizes: seq<byte>, roms: seq<Rom>,
                                    parse: seq<byte> -> Option<Rom>, i: nat)
    requires |sizes| == |roms| && i <= |roms| && Reparses(roms, parse) && ReadsBack(img, sizes, roms)
    ensures LoadRoms(img, sizes, parse, i) == Loading(roms[..i], true)
  {
    if i > 0 {
      LoadsAll(img, sizes, roms, parse, i - 1);
      assert ReparsesAt(roms, parse, i - 1) && ReadsAt(img, sizes, roms, i - 1);
      LoadStep(img, sizes, roms, parse, i - 1);
    }
  }

  /**
   * parseMenuData on an image romData built finds exactly the ROMs that went in, in order,
   * when each of them is rebuilt unchanged from its payload, whatever the ticker's length.
   */
  lemma MenuRoundTrip(firmware: seq<byte>, disableCGB: bool, forceDMG: bool, ticker: seq<byte>,
                      roms: seq<Rom>, render: Rasteriser, img: seq<byte>)
    requires AllShaped(roms) && Reparses(roms, Parser(render))
    requires RomImage(firmware, disableCGB, forceDMG, ticker, roms) == Some(img)
    ensures ParseMenu(img, render) == if |roms| == 0 then NoRomsDetected else Loaded(roms, true)
  {
    RomImageSucceeds(firmware, disableCGB, forceDMG, ticker, roms);
    RomImageIndex(firmware, disableCGB, forceDMG, ticker, roms, img);
    ReadBack(img, roms, render);
  }

  /** An image whose index and payloads are laid out for `roms` parses back to them. */
  lemma ReadBack(img: seq<byte>, roms: seq<Rom>, render: Rasteriser)
    requires AllShaped(roms) && Reparses(roms, Parser(render)) && RomUsedKB(roms) <= MaxRomKB
    requires IndexWritten(img, roms)
    requires forall j :: 0 <= j < |roms| ==> PayloadPlaced(img, roms, j)
    ensures ParseMenu(img, render) == if |roms| == 0 then NoRomsDetected else Loaded(roms, true)
  {
    IndexOfImage(img, roms, RecordSlots);
    var sizes := SizeCodes(roms, |roms|);
    forall j | 0 <= j < |roms|
      ensures ReadsAt(img, sizes, roms, j)
    {
      ReadPayload(img, roms, j);
    }
    LoadsAll(img, sizes, roms, Parser(render), |roms|);
    assert roms[..|roms|] == roms;
  }

  /** ROMs built from files that fit their declared size are rebuilt unchanged from their payloads. */
  lemma ParsedRomsReparse(files: seq<seq<byte>>, roms: seq<Rom>, render: Rasteriser)
    requires |files| == |roms|
    requires forall j :: 0 <= j < |roms| ==> ParseRom(files[j], render) == Some(roms[j])
    requires forall j :: 0 <= j < |roms| ==> roms[j].bad != Some(OversizedFile)
    ensures AllShaped(roms) && Reparses(roms, Parser(render))
  {
    forall j | 0 <= j < |roms| ensures ReparsesAt(roms, Parser(render), j) && Shaped(roms[j]) {
      ReparsePayload(files[j], render, roms[j]);
      ParsedShape(files[j], render, roms[j]);
    }
  }

  /**
   * Files loaded as ROMs (none oversized), written out by romData and read back by
   * parseMenuData, come back as the same ROMs in the same order.
   */
  lemma FilesRoundTrip(files: seq<seq<byte>>, roms: seq<Rom>, render: Rasteriser, firmware: seq<byte>,
                       disableCGB: bool, forceDMG: bool, ticker: seq<byte>, img: seq<byte>)
    requires |files| == |roms| > 0
    requires forall j :: 0 <= j < |roms| ==> ParseRom(files[j], render) == Some(roms[j])
    requires forall j :: 0 <= j < |roms| ==> roms[j].bad != Some(OversizedFile)
    requires RomImage(firmware, disableCGB, forceDMG, ticker, roms) == Some(img)
    ensures ParseMenu(img, render) == Loaded(roms, true)
  {
    ParsedRomsReparse(files, roms, render);
    MenuRoundTrip(firmware, disableCGB, forceDMG, ticker, roms, render, img);
  }
}
