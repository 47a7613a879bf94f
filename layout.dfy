/**
 * Where each write of romData lands, stage by stage: what a stage writes and which bytes
 * it leaves alone (script/gbnp.js:297-383).
 */
module Layout {
  import opened Bytes
  import opened Tiles
  import opened Cartridge
  import opened Image

  /** The DMG hack's code bytes at 0x150. */
  const DmgCode: seq<byte> := [0x3C, 0xE0, 0xFE, 0x3D]

  /** The byte at k after the hacks: the patched value at a patch address, else the old one. */
  function PatchedByte(k: nat, disableCGB: bool, forceDMG: bool, before: byte): byte {
    if disableCGB && k == 0x143 then 0
    else if disableCGB && k == 0x14D then 83
    else if forceDMG && k == 0x100 then 0xAF
    else if forceDMG && 0x150 <= k < 0x154 then DmgCode[k - 0x150]
    else before
  }

  /** The hacks never fail on an image and touch only their own addresses. */
  lemma PatchBytes(img: seq<byte>, disableCGB: bool, forceDMG: bool)
    requires |img| == ImageBytes
    ensures Patch(img, disableCGB, forceDMG).Some?
    ensures var out := Patch(img, disableCGB, forceDMG).value;
      && |out| == |img|
      && forall k :: 0 <= k < |img| ==> out[k] == PatchedByte(k, disableCGB, forceDMG, img[k])
  {
  }

  /**
   * The ticker stage succeeds when the strip and the ticker fit; afterwards the ticker is
   * at 0x18040, zeros follow it up to 0x19140, and nothing else changes.
   */
  lemma TickerBytes(img: seq<byte>, ticker: seq<byte>)
    requires |img| == ImageBytes
    ensures Ticker(img, ticker).Some? <==> |ticker| == 0 || TickerStart + |ticker| <= ImageBytes
    ensures Ticker(img, ticker).Some? ==>
      var out := Ticker(img, ticker).value;
      && |out| == |img|
      && (forall k :: TickerStart <= k < TickerStart + |ticker| ==> out[k] == ticker[k - TickerStart])
      && (forall k :: TickerStart + |ticker| <= k < TickerEnd ==> out[k] == 0)
      && (forall k :: 0 <= k < |img| && !(TickerStart <= k < TickerEnd) && !(TickerStart <= k < TickerStart + |ticker|)
            ==> out[k] == img[k])
  {
    var cleared := Write(img, TickerStart, Zeros(TickerEnd - TickerStart)).value;
    WriteAt(img, TickerStart, Zeros(TickerEnd - TickerStart), cleared);
    if |ticker| == 0 || TickerStart + |ticker| <= ImageBytes {
      WriteAt(cleared, TickerStart, ticker, Ticker(img, ticker).value);
    }
  }

  /** Whether k is the first byte of one of records 0..n-1. */
  predicate IsRecordStart(k: int, n: nat) {
    IndexStart <= k && (k - IndexStart) % 512 == 0 && (k - IndexStart) / 512 < n
  }

  /** Clearing puts 0xFF at each record's first byte and changes nothing else. */
  lemma {:induction false} ClearRecordsBytes(img: seq<byte>, n: nat)
    requires RecordAt(n) <= |img|
    ensures ClearRecords(img, n).Some?
    ensures var out := ClearRecords(img, n).value;
      && |out| == |img|
      && (forall j :: 0 <= j < n ==> out[RecordAt(j)] == 0xFF)
      && (forall k :: 0 <= k < |img| && !IsRecordStart(k, n) ==> out[k] == img[k])
  {
    if n > 0 {
      ClearRecordsBytes(img, n - 1);
      var prev := ClearRecords(img, n - 1).value;
      WriteAt(prev, RecordAt(n - 1), [0xFF], ClearRecords(img, n).value);
    }
  }

  /** Whether every ROM among roms[..n] has a menu bitmap of the size updateBitmap makes. */
  predicate BitmapsSized(roms: seq<Rom>, n: nat)
    requires n <= |roms|
  {
    forall j :: 0 <= j < n ==> |roms[j].bitmap| == MenuBitmapBytes
  }

  /** Record j holds its seven-byte header and, 63 bytes in, the ROM's menu bitmap. */
  predicate RecordPlaced(buf: seq<byte>, roms: seq<Rom>, j: nat)
    requires j < |roms|
  {
    Placed(buf, RecordAt(j), RecordHeader(roms, j)) && Placed(buf, RecordAt(j) + BitmapOffset, roms[j].bitmap)
  }

  /** Whether there are as many headers as bitmaps, each of the size a record holds. */
  predicate EntriesSized(headers: seq<seq<byte>>, bitmaps: seq<seq<byte>>) {
    && |headers| == |bitmaps|
    && forall j :: 0 <= j < |headers| ==> |headers[j]| == HeaderBytes && |bitmaps[j]| == MenuBitmapBytes
  }

  /** Record j holds header j and, 63 bytes in, bitmap j. */
  predicate EntryPlaced(buf: seq<byte>, headers: seq<seq<byte>>, bitmaps: seq<seq<byte>>, j: nat)
    requires j < |headers| == |bitmaps|
  {
    Placed(buf, RecordAt(j), headers[j]) && Placed(buf, RecordAt(j) + BitmapOffset, bitmaps[j])
  }

  /** One record written at `at` places its header and bitmap and changes nothing outside its 319 bytes. */
  lemma RecordBytes(buf: seq<byte>, at: nat, header: seq<byte>, bitmap: seq<byte>, out: seq<byte>)
    requires |header| == HeaderBytes && |bitmap| == MenuBitmapBytes
    requires Record(buf, at, header, bitmap) == Some(out)
    ensures |out| == |buf| && at + BitmapOffset + MenuBitmapBytes <= |buf|
    ensures Placed(out, at, header) && Placed(out, at + BitmapOffset, bitmap)
    ensures forall k :: 0 <= k < |buf| && !(at <= k < at + BitmapOffset + MenuBitmapBytes) ==> out[k] == buf[k]
  {
    var headed := Write(buf, at, header).value;
    WriteAt(buf, at, header, headed);
    WriteAt(headed, at + BitmapOffset, bitmap, out);
    PlacedByWrite(buf, at, header, headed);
    PlacedKept(headed, at + BitmapOffset, bitmap, out, at, header);
    PlacedByWrite(headed, at + BitmapOffset, bitmap, out);
  }

  /**
   * Records i.. hold their headers and bitmaps; bytes below record i and from the last
   * record's slot on are untouched.
   */
  lemma {:induction false} EntriesBytes(buf: seq<byte>, headers: seq<seq<byte>>, bitmaps: seq<seq<byte>>,
                                        i: nat, out: seq<byte>)
    requires EntriesSized(headers, bitmaps) && Entries(buf, headers, bitmaps, i) == Some(out)
    ensures |out| == |buf|
    ensures i < |headers| ==> RecordAt(|headers| - 1) + BitmapOffset + MenuBitmapBytes <= |buf|
    ensures forall k :: 0 <= k < |buf| && (k < RecordAt(i) || k >= RecordAt(|headers|)) ==> out[k] == buf[k]
    ensures forall j :: i <= j < |headers| ==> EntryPlaced(out, headers, bitmaps, j)
    decreases |headers| - i
  {
    if i < |headers| {
      var at := RecordAt(i);
      var next := Record(buf, at, headers[i], bitmaps[i]).value;
      RecordBytes(buf, at, headers[i], bitmaps[i], next);
      EntriesBytes(next, headers, bitmaps, i + 1, out);
      var end := at + BitmapOffset + MenuBitmapBytes;
      forall j | i <= j < |headers|
        ensures EntryPlaced(out, headers, bitmaps, j)
      {
        if j == i {
          PlacedAgree(next, out, at, headers[i], end);
          PlacedAgree(next, out, at + BitmapOffset, bitmaps[i], end);
        }
      }
      forall k | 0 <= k < |buf| && (k < at || k >= RecordAt(|headers|))
        ensures out[k] == buf[k]
      {
        assert out[k] == next[k];
      }
    }
  }

  /** The records all fit in an image when there are at most seven of them. */
  lemma {:induction false} EntriesFit(buf: seq<byte>, headers: seq<seq<byte>>, bitmaps: seq<seq<byte>>, i: nat)
    requires EntriesSized(headers, bitmaps) && |buf| == ImageBytes && |headers| <= RecordSlots
    ensures Entries(buf, headers, bitmaps, i).Some?
    decreases |headers| - i
  {
    if i < |headers| {
      var at := RecordAt(i);
      var headed := Write(buf, at, headers[i]).value;
      var next := Write(headed, at + BitmapOffset, bitmaps[i]).value;
      EntriesFit(next, headers, bitmaps, i + 1);
    }
  }

  /** With sized bitmaps, the records of the ROMs are sized. */
  lemma SizedEntries(roms: seq<Rom>)
    requires BitmapsSized(roms, |roms|)
    ensures EntriesSized(Headers(roms), Bitmaps(roms))
  {
  }

  /** The records placed from the ROMs' headers and bitmaps are the ROMs' records. */
  lemma PlacedEntries(buf: seq<byte>, roms: seq<Rom>)
    requires forall j :: 0 <= j < |roms| ==> EntryPlaced(buf, Headers(roms), Bitmaps(roms), j)
    ensures forall j :: 0 <= j < |roms| ==> RecordPlaced(buf, roms, j)
  {
    forall j | 0 <= j < |roms| ensures RecordPlaced(buf, roms, j) {
      assert EntryPlaced(buf, Headers(roms), Bitmaps(roms), j);
    }
  }

  lemma {:induction false} PayloadBytesMonotone(roms: seq<Rom>, i: nat, n: nat)
    requires i <= n <= |roms|
    ensures PayloadBytesBefore(roms, i) <= PayloadBytesBefore(roms, n)
    decreases n
  {
    if i < n {
      PayloadBytesMonotone(roms, i, n - 1);
    }
  }

  /** Payload j sits at 0x20000 plus the payload bytes of the ROMs before it. */
  predicate PayloadPlaced(buf: seq<byte>, roms: seq<Rom>, j: nat)
    requires j < |roms|
  {
    Placed(buf, PayloadStart + PayloadBytesBefore(roms, j), roms[j].payload)
  }

  /** Writing payload n-1 after the others keeps them in place. */
  lemma PayloadStep(prev: seq<byte>, roms: seq<Rom>, n: nat, out: seq<byte>)
    requires 0 < n <= |roms|
    requires Write(prev, PayloadStart + PayloadBytesBefore(roms, n - 1), roms[n - 1].payload) == Some(out)
    requires forall j :: 0 <= j < n - 1 ==> PayloadPlaced(prev, roms, j)
    ensures forall j :: 0 <= j < n ==> PayloadPlaced(out, roms, j)
  {
    var at, last := PayloadStart + PayloadBytesBefore(roms, n - 1), roms[n - 1].payload;
    forall j | 0 <= j < n
      ensures PayloadPlaced(out, roms, j)
    {
      if j < n - 1 {
        assert PayloadPlaced(prev, roms, j);
        PayloadBytesMonotone(roms, j + 1, n - 1);
        PlacedKept(prev, at, last, out, PayloadStart + PayloadBytesBefore(roms, j), roms[j].payload);
      } else {
        PlacedByWrite(prev, at, last, out);
      }
    }
  }

  /** Payload j lies at 0x20000 plus the lengths before it; bytes below 0x20000 are untouched. */
  lemma {:induction false} PayloadsBytes(img: seq<byte>, roms: seq<Rom>, n: nat, out: seq<byte>)
    requires n <= |roms| && PayloadStart <= |img| && Payloads(img, roms, n) == Some(out)
    ensures |out| == |img|
    ensures PayloadStart + PayloadBytesBefore(roms, n) <= |img|
    ensures forall k :: 0 <= k < PayloadStart ==> out[k] == img[k]
    ensures forall j :: 0 <= j < n ==> PayloadPlaced(out, roms, j)
  {
    if n > 0 {
      var prev := Payloads(img, roms, n - 1).value;
      PayloadsBytes(img, roms, n - 1, prev);
      var at, last := PayloadStart + PayloadBytesBefore(roms, n - 1), roms[n - 1].payload;
      assert Write(prev, at, last) == Some(out);
      assert PayloadBytesBefore(roms, n) == at - PayloadStart + |last|;
      WriteAt(prev, at, last, out);
      PayloadStep(prev, roms, n, out);
    }
  }

  /** The payloads all fit exactly when they end within the image. */
  lemma {:induction false} PayloadsFit(img: seq<byte>, roms: seq<Rom>, n: nat)
    requires n <= |roms| && PayloadStart <= |img|
    ensures Payloads(img, roms, n).Some? <==> PayloadStart + PayloadBytesBefore(roms, n) <= |img|
  {
    if n > 0 {
      PayloadsFit(img, roms, n - 1);
      PayloadBytesMonotone(roms, n - 1, n);
      if Payloads(img, roms, n - 1).Some? {
        PayloadsBytes(img, roms, n - 1, Payloads(img, roms, n - 1).value);
      }
    }
  }

  // ---------------------------------------------------------------- the whole image

  /** The byte at k of the firmware loaded into a zeroed image. */
  function FirmwareByte(firmware: seq<byte>, k: nat): byte {
    if k < |firmware| then firmware[k] else 0
  }

  /** After loading, patching and the ticker: firmware below and above the strip, the ticker in it. */
  lemma TickedFirmware(firmware: seq<byte>, disableCGB: bool, forceDMG: bool, ticker: seq<byte>,
                       loaded: seq<byte>, patched: seq<byte>, withTicker: seq<byte>)
    requires TickerStart + |ticker| <= TickerEnd
    requires Write(Zeros(ImageBytes), 0, firmware) == Some(loaded)
    requires Patch(loaded, disableCGB, forceDMG) == Some(patched)
    requires Ticker(patched, ticker) == Some(withTicker)
    ensures |withTicker| == ImageBytes
    ensures forall k :: 0 <= k < TickerStart ==>
      withTicker[k] == PatchedByte(k, disableCGB, forceDMG, FirmwareByte(firmware, k))
    ensures forall k :: TickerEnd <= k < ImageBytes ==> withTicker[k] == FirmwareByte(firmware, k)
    ensures Placed(withTicker, TickerStart, ticker)
    ensures forall k :: TickerStart + |ticker| <= k < TickerEnd ==> withTicker[k] == 0
  {
    WriteAt(Zeros(ImageBytes), 0, firmware, loaded);
    PatchBytes(loaded, disableCGB, forceDMG);
    TickerBytes(patched, ticker);
    PlacedByWrite(Write(patched, TickerStart, Zeros(TickerEnd - TickerStart)).value, TickerStart, ticker, withTicker);
  }

  /** The index holds each ROM's header and bitmap in its record; bytes outside the records in use are untouched. */
  lemma RecordsBytes(img: seq<byte>, roms: seq<Rom>, out: seq<byte>)
    requires BitmapsSized(roms, |roms|) && Records(img, roms) == Some(out)
    ensures |out| == |img|
    ensures forall k :: 0 <= k < |img| && (k < IndexStart || k >= RecordAt(|roms|)) ==> out[k] == img[k]
    ensures forall j :: 0 <= j < |roms| ==> RecordPlaced(out, roms, j)
  {
    SizedEntries(roms);
    EntriesBytes(img, Headers(roms), Bitmaps(roms), 0, out);
    PlacedEntries(out, roms);
  }

  /** Up to seven records with their bitmaps always fit in an image. */
  lemma RecordsFit(img: seq<byte>, roms: seq<Rom>)
    requires BitmapsSized(roms, |roms|) && |img| == ImageBytes && |roms| <= RecordSlots
    ensures Records(img, roms).Some?
  {
    SizedEntries(roms);
    EntriesFit(img, Headers(roms), Bitmaps(roms), 0);
  }

  /** After the index is cleared and written: records 0..n-1 filled, the rest marked 0xFF. */
  lemma IndexedMenu(withTicker: seq<byte>, roms: seq<Rom>, cleared: seq<byte>, indexed: seq<byte>)
    requires |withTicker| == ImageBytes && |roms| <= RecordSlots && BitmapsSized(roms, |roms|)
    requires ClearRecords(withTicker, RecordSlots) == Some(cleared)
    requires Records(cleared, roms) == Some(indexed)
    ensures |indexed| == ImageBytes
    ensures forall k :: 0 <= k < IndexStart ==> indexed[k] == withTicker[k]
    ensures forall j :: 0 <= j < |roms| ==> RecordPlaced(indexed, roms, j)
    ensures forall j :: |roms| <= j < RecordSlots ==> indexed[RecordAt(j)] == 0xFF
  {
    ClearRecordsBytes(withTicker, RecordSlots);
    RecordsBytes(cleared, roms, indexed);
    forall j | |roms| <= j < RecordSlots ensures indexed[RecordAt(j)] == 0xFF {
      assert RecordAt(j) >= RecordAt(|roms|);
    }
  }

  /** A record lies below 0x20000, so writing the payloads keeps it. */
  lemma RecordSurvives(indexed: seq<byte>, img: seq<byte>, roms: seq<Rom>, j: nat)
    requires j < |roms| <= RecordSlots && BitmapsSized(roms, |roms|) && RecordPlaced(indexed, roms, j)
    requires |indexed| == |img| == ImageBytes
    requires forall k :: 0 <= k < PayloadStart ==> img[k] == indexed[k]
    ensures RecordPlaced(img, roms, j)
  {
    assert RecordAt(j) + BitmapOffset + MenuBitmapBytes <= PayloadStart;
    PlacedAgree(indexed, img, RecordAt(j), RecordHeader(roms, j), PayloadStart);
    PlacedAgree(indexed, img, RecordAt(j) + BitmapOffset, roms[j].bitmap, PayloadStart);
  }

  /** Constructed ROMs carry 256-byte bitmaps. */
  lemma ShapedBitmaps(roms: seq<Rom>)
    requires AllShaped(roms)
    ensures BitmapsSized(roms, |roms|)
  {
    forall j | 0 <= j < |roms| ensures |roms[j].bitmap| == MenuBitmapBytes {
      assert roms[j] in roms;
    }
  }

  /** romData succeeds exactly when the firmware, the ticker and the ROMs (at most 896 KB) fit. */
  lemma RomImageSucceeds(firmware: seq<byte>, disableCGB: bool, forceDMG: bool, ticker: seq<byte>, roms: seq<Rom>)
    requires AllShaped(roms)
    ensures RomImage(firmware, disableCGB, forceDMG, ticker, roms).Some? <==>
      && |firmware| <= ImageBytes
      && (|ticker| == 0 || TickerStart + |ticker| <= ImageBytes)
      && RomUsedKB(roms) <= MaxRomKB
  {
    var n := |roms|;
    ShapedBitmaps(roms);
    PayloadBytesArePaddedKB(roms, n);
    var l := Write(Zeros(ImageBytes), 0, firmware);
    if l.Some? {
      PatchBytes(l.value, disableCGB, forceDMG);
      var patched := Patch(l.value, disableCGB, forceDMG).value;
      TickerBytes(patched, ticker);
      var t := Ticker(patched, ticker);
      if t.Some? {
        ClearRecordsBytes(t.value, RecordSlots);
        var cleared := ClearRecords(t.value, RecordSlots).value;
        if RomUsedKB(roms) <= MaxRomKB {
          RecordsFit(cleared, roms);
        }
        var r := Records(cleared, roms);
        if r.Some? {
          RecordsBytes(cleared, roms, r.value);
          PayloadsFit(r.value, roms, n);
        }
      }
    }
  }

  /**
   * The index and the payloads of a built image, whatever the ticker's length: a record for
   * each ROM, 0xFF at the start of every free record, and the payloads one after the other
   * from 0x20000. All of them are written after the ticker, so a long ticker never reaches them.
   */
  lemma RomImageIndex(firmware: seq<byte>, disableCGB: bool, forceDMG: bool, ticker: seq<byte>,
                      roms: seq<Rom>, img: seq<byte>)
    requires AllShaped(roms)
    requires RomImage(firmware, disableCGB, forceDMG, ticker, roms) == Some(img)
    ensures |img| == ImageBytes && |roms| <= RecordSlots
    ensures forall j :: 0 <= j < |roms| ==> RecordPlaced(img, roms, j)
    ensures forall j :: |roms| <= j < RecordSlots ==> img[RecordAt(j)] == 0xFF
    ensures forall j :: 0 <= j < |roms| ==> PayloadPlaced(img, roms, j)
  {
    RomImageSucceeds(firmware, disableCGB, forceDMG, ticker, roms);
    ShapedBitmaps(roms);
    var loaded := Write(Zeros(ImageBytes), 0, firmware).value;
    var patched := Patch(loaded, disableCGB, forceDMG).value;
    var withTicker := Ticker(patched, ticker).value;
    PatchBytes(loaded, disableCGB, forceDMG);
    TickerBytes(patched, ticker);
    var cleared := ClearRecords(withTicker, RecordSlots).value;
    var indexed := Records(cleared, roms).value;
    IndexedMenu(withTicker, roms, cleared, indexed);
    PayloadsBytes(indexed, roms, |roms|, img);
    forall j | 0 <= j < |roms| ensures RecordPlaced(img, roms, j) {
      RecordSurvives(indexed, img, roms, j);
    }
  }

  /**
   * The rest of a built image whose ticker stays in its strip: the patched firmware around
   * the strip, the ticker, and zeros after it.
   */
  lemma RomImageLayout(firmware: seq<byte>, disableCGB: bool, forceDMG: bool, ticker: seq<byte>,
                       roms: seq<Rom>, img: seq<byte>)
    requires AllShaped(roms) && TickerStart + |ticker| <= TickerEnd
    requires RomImage(firmware, disableCGB, forceDMG, ticker, roms) == Some(img)
    ensures |img| == ImageBytes
    ensures forall k :: 0 <= k < TickerStart ==>
      img[k] == PatchedByte(k, disableCGB, forceDMG, FirmwareByte(firmware, k))
    ensures Placed(img, TickerStart, ticker)
    ensures forall k :: TickerStart + |ticker| <= k < TickerEnd ==> img[k] == 0
    ensures forall k :: TickerEnd <= k < IndexStart ==> img[k] == FirmwareByte(firmware, k)
  {
    RomImageSucceeds(firmware, disableCGB, forceDMG, ticker, roms);
    ShapedBitmaps(roms);
    var loaded := Write(Zeros(ImageBytes), 0, firmware).value;
    var patched := Patch(loaded, disableCGB, forceDMG).value;
    var withTicker := Ticker(patched, ticker).value;
    var cleared := ClearRecords(withTicker, RecordSlots).value;
    var indexed := Records(cleared, roms).value;
    TickedFirmware(firmware, disableCGB, forceDMG, ticker, loaded, patched, withTicker);
    IndexedMenu(withTicker, roms, cleared, indexed);
    PayloadsBytes(indexed, roms, |roms|, img);
    assert forall k :: 0 <= k < IndexStart ==> img[k] == withTicker[k];
    PlacedAgree(withTicker, img, TickerStart, ticker, IndexStart);
  }
}
