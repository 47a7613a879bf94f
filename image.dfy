/**
 * The 1 MiB multicart image (Processor.romData, script/gbnp.js:297-383) and the reading
 * of such an image back into ROMs (Processor.parseMenuData, script/gbnp.js:385-417).
 */
module Image {
  import opened Bytes
  import opened Tiles
  import opened Cartridge

  const ImageBytes: nat := 0x100000
  /** The ticker strip: zeroed, then overwritten with the ticker bitmap. */
  const TickerStart: nat := 0x18040
  const TickerEnd: nat := 0x19140
  /** The menu's ROM records: seven of 512 bytes from 0x1C200. */
  const IndexStart: nat := 0x1C200
  const RecordSlots: nat := 7
  const HeaderBytes: nat := 7
  const BitmapOffset: nat := 63
  /** Payloads follow the 128 KB menu. */
  const PayloadStart: nat := 0x20000
  /** romOverflow: more than 896 KB of ROMs do not fit beside the menu. */
  const MaxRomKB: nat := 896

  /** Where record i starts. */
  function RecordAt(i: nat): nat {
    IndexStart + 512 * i
  }

  // ---------------------------------------------------------------- romData

  /** The CGB and DMG hacks on the menu firmware; each is a one- or four-byte write. */
  function Patch(img: seq<byte>, disableCGB: bool, forceDMG: bool): Option<seq<byte>> {
    var cgb :- if disableCGB then (var a :- Write(img, 0x143, [0]); Write(a, 0x14D, [83])) else Some(img);
    if forceDMG then (var b :- Write(cgb, 0x100, [0xAF]); Write(b, 0x150, [0x3C, 0xE0, 0xFE, 0x3D]))
    else Some(cgb)
  }

  /** The ticker strip is cleared to zero, then the ticker bitmap is written at its start. */
  function Ticker(img: seq<byte>, ticker: seq<byte>): Option<seq<byte>> {
    var cleared :- Write(img, TickerStart, Zeros(TickerEnd - TickerStart));
    Write(cleared, TickerStart, ticker)
  }

  /** The first byte of records 0..n-1 set to 0xFF: entries the firmware will skip. */
  function ClearRecords(img: seq<byte>, n: nat): Option<seq<byte>> {
    if n == 0 then Some(img)
    else
      var prev :- ClearRecords(img, n - 1);
      Write(prev, RecordAt(n - 1), [0xFF])
  }

  /** `romBase - 1` when record i is written: the 128 KB banks of the ROMs before it. */
  function BanksBefore(roms: seq<Rom>, i: nat): (banks: int)
    requires i <= |roms|
  {
    if i == 0 then 0 else BanksBefore(roms, i - 1) + PaddedRomSizeKB(roms[i - 1].romByte) / 128
  }

  /** The seven header bytes of a record: its number, first bank, 0, bank count, 0, 0, 0. */
  function Header(number: int, firstBank: int, banks: int): (header: seq<byte>)
    ensures |header| == HeaderBytes
  {
    [AsByte(number), AsByte(firstBank), 0, AsByte(banks), 0, 0, 0]
  }

  /** The header of record i: numbered from 1, its banks following those of the ROMs before it. */
  function RecordHeader(roms: seq<Rom>, i: nat): (header: seq<byte>)
    requires i < |roms|
    ensures |header| == HeaderBytes
  {
    Header(i + 1, 1 + BanksBefore(roms, i), PaddedRomSizeKB(roms[i].romByte) / 128)
  }

  /** The headers of all records, in record order. */
  function Headers(roms: seq<Rom>): (headers: seq<seq<byte>>)
    ensures |headers| == |roms|
    ensures forall i :: 0 <= i < |roms| ==> headers[i] == RecordHeader(roms, i)
  {
    seq(|roms|, i requires 0 <= i < |roms| => RecordHeader(roms, i))
  }

  /** The menu bitmaps of all ROMs, in record order. */
  function Bitmaps(roms: seq<Rom>): (bitmaps: seq<seq<byte>>)
    ensures |bitmaps| == |roms|
    ensures forall i :: 0 <= i < |roms| ==> bitmaps[i] == roms[i].bitmap
  {
    seq(|roms|, i requires 0 <= i < |roms| => roms[i].bitmap)
  }

  /**
   * Records i, i+1, ... written in turn from `buf`: header i at its record, bitmap i 63
   * bytes on; None from the first write that leaves the buffer.
   */
  function Entries(buf: seq<byte>, headers: seq<seq<byte>>, bitmaps: seq<seq<byte>>, i: nat): Option<seq<byte>>
    requires |headers| == |bitmaps|
    decreases |headers| - i
  {
    if i >= |headers| then Some(buf)
    else
      var next :- Record(buf, RecordAt(i), headers[i], bitmaps[i]);
      Entries(next, headers, bitmaps, i + 1)
  }

  /** The index: one record per ROM, each header followed by the ROM's menu bitmap at +63. */
  function Records(img: seq<byte>, roms: seq<Rom>): Option<seq<byte>> {
    Entries(img, Headers(roms), Bitmaps(roms), 0)
  }

  /** One record written at `at`: the header, then the bitmap 63 bytes on; None if either leaves the buffer. */
  function Record(buf: seq<byte>, at: nat, header: seq<byte>, bitmap: seq<byte>): Option<seq<byte>> {
    var headed :- Write(buf, at, header);
    Write(headed, at + BitmapOffset, bitmap)
  }

  /** Payloads 0..n-1, one after the other from 0x20000. */
  function Payloads(img: seq<byte>, roms: seq<Rom>, n: nat): Option<seq<byte>>
    requires n <= |roms|
  {
    if n == 0 then Some(img)
    else
      var prev :- Payloads(img, roms, n - 1);
      Write(prev, PayloadStart + PayloadBytesBefore(roms, n - 1), roms[n - 1].payload)
  }

  /** romData: None when a write runs past the 1 MiB image (DataView throws). */
  function RomImage(firmware: seq<byte>, disableCGB: bool, forceDMG: bool, ticker: seq<byte>, roms: seq<Rom>)
    : Option<seq<byte>>
  {
    var loaded :- Write(Zeros(ImageBytes), 0, firmware);
    var patched :- Patch(loaded, disableCGB, forceDMG);
    var withTicker :- Ticker(patched, ticker);
    var cleared :- ClearRecords(withTicker, RecordSlots);
    var indexed :- Records(cleared, roms);
    Payloads(indexed, roms, |roms|)
  }

  /** A payload write that fails fails the whole image. */
  lemma {:induction false} PayloadsStopped(img: seq<byte>, roms: seq<Rom>, k: nat, n: nat)
    requires k <= n <= |roms| && Payloads(img, roms, k).None?
    ensures Payloads(img, roms, n).None?
  {
    if n > k {
      PayloadsStopped(img, roms, k, n - 1);
    }
  }

  // ---------------------------------------------------------------- parseMenuData

  /**
   * The bank counts of the occupied records among 0..n-1, in record order; None when a
   * read falls outside the image (outside the try block, so the error escapes).
   */
  function IndexSizes(menu: seq<byte>, n: nat): Option<seq<byte>> {
    if n == 0 then Some([])
    else
      var prev :- IndexSizes(menu, n - 1);
      var at := RecordAt(n - 1);
      if at >= |menu| then None
      else if 0 < menu[at] < 8 then
        (if at + 3 >= |menu| then None else Some(prev + [menu[at + 3]]))
      else Some(prev)
  }

  /** Where the payload of record i starts: the banks before it, from 0x20000. */
  function SizeBytesBefore(sizes: seq<byte>, i: nat): nat
    requires i <= |sizes|
  {
    if i == 0 then 0 else SizeBytesBefore(sizes, i - 1) + (sizes[i - 1] as nat) * 0x20000
  }

  /** The ROMs read so far, and whether every read and construction succeeded. */
  datatype Loading = Loading(roms: seq<Rom>, complete: bool)

  /** The ROM constructor as parseMenuData uses it: `new ROM(data)` on each payload read. */
  function Parser(render: Rasteriser): seq<byte> -> Option<Rom> {
    raw => ParseRom(raw, render)
  }

  /**
   * The try block for records 0..n-1: each payload is read and handed to the ROM
   * constructor `parse`; the first read past the end, or a payload too short for a header,
   * ends the loop (the catch), keeping the ROMs built so far.
   */
  function LoadRoms(menu: seq<byte>, sizes: seq<byte>, parse: seq<byte> -> Option<Rom>, n: nat): (l: Loading)
    requires n <= |sizes|
    ensures |l.roms| <= n
  {
    if n == 0 then Loading([], true)
    else
      var prev := LoadRoms(menu, sizes, parse, n - 1);
      if !prev.complete then prev
      else
        match Read(menu, PayloadStart + SizeBytesBefore(sizes, n - 1), (sizes[n - 1] as nat) * 0x20000)
        case None => Loading(prev.roms, false)
        case Some(data) =>
          match parse(data)
          case None => Loading(prev.roms, false)
          case Some(rom) => Loading(prev.roms + [rom], true)
  }

  /** How parseMenuData ends. */
  datatype MenuParse = IndexUnreadable | NoRomsDetected | Loaded(roms: seq<Rom>, complete: bool)

  function ParseMenu(menu: seq<byte>, render: Rasteriser): MenuParse {
    match IndexSizes(menu, RecordSlots)
    case None => IndexUnreadable
    case Some(sizes) =>
      if |sizes| == 0 then NoRomsDetected
      else
        var l := LoadRoms(menu, sizes, Parser(render), |sizes|);
        Loaded(l.roms, l.complete)
  }

  /** `this.roms` after parseMenuData. */
  function ParsedRoms(p: MenuParse): seq<Rom> {
    if p.Loaded? then p.roms else []
  }

  /** An index read that fails fails the whole index. */
  lemma {:induction false} IndexSizesStopped(menu: seq<byte>, k: nat, n: nat)
    requires k <= n && IndexSizes(menu, k).None?
    ensures IndexSizes(menu, n).None?
  {
    if n > k {
      IndexSizesStopped(menu, k, n - 1);
    }
  }

  /** Once the try block has been left, later records change nothing. */
  lemma {:induction false} LoadRomsStopped(menu: seq<byte>, sizes: seq<byte>, parse: seq<byte> -> Option<Rom>,
                                           k: nat, n: nat)
    requires k <= n <= |sizes| && !LoadRoms(menu, sizes, parse, k).complete
    ensures LoadRoms(menu, sizes, parse, n) == LoadRoms(menu, sizes, parse, k)
  {
    if n > k {
      LoadRomsStopped(menu, sizes, parse, k, n - 1);
    }
  }

  /** Record j is in use: its first byte is a ROM index 1..7. */
  predicate Occupied(menu: seq<byte>, j: nat)
    requires RecordAt(j) < |menu|
  {
    0 < menu[RecordAt(j)] < 8
  }

  /**
   * On a menu that reaches past record n-1, the index reads all succeed, and they find
   * nothing exactly when none of the records is in use.
   */
  lemma {:induction false} IndexSizesFound(menu: seq<byte>, n: nat)
    requires RecordAt(n) <= |menu|
    ensures IndexSizes(menu, n).Some?
    ensures |IndexSizes(menu, n).value| <= n
    ensures IndexSizes(menu, n).value == [] <==> forall j :: 0 <= j < n ==> !Occupied(menu, j)
  {
    if n > 0 {
      IndexSizesFound(menu, n - 1);
      assert RecordAt(n - 1) + 3 < RecordAt(n);
      if Occupied(menu, n - 1) {
        assert |IndexSizes(menu, n).value| == |IndexSizes(menu, n - 1).value| + 1;
      } else {
        assert IndexSizes(menu, n) == IndexSizes(menu, n - 1);
        assert (forall j :: 0 <= j < n ==> !Occupied(menu, j)) <==> (forall j :: 0 <= j < n - 1 ==> !Occupied(menu, j));
      }
    }
  }

  /**
   * parseMenuData on a full menu image never fails on the index, reports no ROMs exactly
   * when no record is in use, and otherwise loads at most one ROM per record.
   */
  lemma ParseMenuOutcome(menu: seq<byte>, render: Rasteriser)
    requires RecordAt(RecordSlots) <= |menu|
    ensures !ParseMenu(menu, render).IndexUnreadable?
    ensures ParseMenu(menu, render).NoRomsDetected? <==> forall j :: 0 <= j < RecordSlots ==> !Occupied(menu, j)
    ensures ParseMenu(menu, render).Loaded? ==> |ParseMenu(menu, render).roms| <= RecordSlots
  {
    IndexSizesFound(menu, RecordSlots);
  }
}
