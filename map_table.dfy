/**
 * The 128-byte routing table the multicart device reads (Processor.mapData,
 * script/gbnp.js:224-295): a fixed entry for the menu, three bytes per ROM, 0xFF fill
 * and a fixed trailer.
 */
module MapTable {
  import opened Bytes
  import opened Cartridge

  const MapBytes: nat := 128
  /** MBC, ROM size and RAM size of the menu itself. */
  const MenuEntry: seq<byte> := [0xA8, 0, 0]
  const SlotBytes: nat := 3
  /** MAP_TRAILER_BYTES. */
  const MapTrailer: seq<byte> :=
    [0x02, 0x00, 0x30, 0x12, 0x99, 0x11, 0x12, 0x20, 0x37, 0x57, 0xFF, 0xFF, 0xFF, 0xFF, 0xFF, 0xFF, 0x00, 0x00]
  /** `128 - MAP_TRAILER_BYTES.length`: where the 0xFF fill stops. */
  const TrailerStart: nat := 110
  /** The first ROM starts right after the 128 KB menu. */
  const FirstRomOffsetKB: nat := 128

  /** The number a mapper family gets in the MBC field. */
  function MapperCode(m: Option<Mapper>): byte {
    match m
    case Some(Mbc1) => 1
    case Some(Mbc2) => 2
    case Some(Mbc3) => 3
    case Some(Mbc5) => 4
    case _ => 0
  }

  /** The MBC field (bits 15..13): chosen by type-byte ranges, it agrees with CARTRIDGE_TYPES. */
  function MbcCode(typeByte: byte): (code: byte)
    ensures code <= 4
    ensures code == MapperCode(CartridgeType(typeByte))
  {
    if 0x01 <= typeByte <= 0x03 then 1
    else if 0x05 <= typeByte <= 0x06 then 2
    else if 0x0F <= typeByte <= 0x13 then 3
    else if 0x19 <= typeByte <= 0x1E then 4
    else 0
  }

  /** The ROM-size field (bits 12..10) for a padded size in KB. */
  function RomCode(paddedKB: int): (code: byte)
    ensures 2 <= code <= 5
  {
    if paddedKB == 64 then 2
    else if paddedKB == 128 then 2
    else if paddedKB == 256 then 3
    else if paddedKB == 512 then 4
    else 5
  }

  /**
   * The ROM-size field per ROM-size class: 128 KB and below (and the classes whose
   * shift wraps to zero or negative) are 2, then 256 KB, 512 KB, and 5 for the rest.
   * The 64 KB branch never fires, as a padded size is at least 128.
   */
  lemma RomCodeClasses(romByte: byte)
    ensures PaddedRomSizeKB(romByte) != 64
    ensures var n := romByte as int % 32;
      RomCode(PaddedRomSizeKB(romByte)) ==
        if n <= 2 || n >= 26 then 2 else if n == 3 then 3 else if n == 4 then 4 else 5
  {
    RomSizeKBValues(romByte);
    var n := romByte as int % 32;
    if n <= 2 {
      assert Pow2(2) == 4;
      Pow2Monotone(n, 2);
    } else if n == 3 {
      assert Pow2(3) == 8;
    } else if n == 4 {
      assert Pow2(4) == 16;
    } else if n <= 25 {
      assert Pow2(5) == 32;
      Pow2Monotone(5, n);
      assert PaddedRomSizeKB(romByte) >= 1024;
    }
  }

  /** A JS value a comparison can see: a number, or a function object (here, a method). */
  datatype JsValue = Number(n: int) | Function

  /** `v == n`: a function object converts to NaN, which equals nothing. */
  predicate LooseEquals(v: JsValue, n: int) {
    v.Number? && v.n == n
  }

  /** `v >= n`: false for NaN as well. */
  predicate AtLeast(v: JsValue, n: int) {
    v.Number? && v.n >= n
  }

  /** The RAM-size field (bits 9..7), from the type byte and the value compared as the RAM size. */
  function RamCode(typeByte: byte, ramSize: JsValue): (code: byte)
    ensures code <= 3
  {
    if typeByte == 0x06 then 1
    else if LooseEquals(ramSize, 0) then 0
    else if LooseEquals(ramSize, 8) then 2
    else if AtLeast(ramSize, 32) then 3
    else 2
  }

  /**
   * Which value the RAM comparisons see: as written they see `rom.ramSizeKB`, the
   * method itself; the intended reading is the method's result.
   */
  datatype RamRead = AsWritten | Intended

  function RamOperand(rom: Rom, read: RamRead): JsValue {
    match read
    case AsWritten => Function
    case Intended => Number(RamSizeKB(rom.ramByte))
  }

  /** As written, the RAM field ignores the RAM size: 001 for type 0x06, 010 for all else. */
  lemma {:induction false} AsWrittenRamCode(rom: Rom)
    ensures RamCode(rom.typeByte, RamOperand(rom, AsWritten)) == if rom.typeByte == 0x06 then 1 else 2
  {
    assert !LooseEquals(Function, 0) && !LooseEquals(Function, 8) && !AtLeast(Function, 32);
  }

  /** A cartridge without RAM (class 0) and not of type 0x06 still gets the 8 KB code as written. */
  lemma NoRamCartridgeGetsRam(rom: Rom)
    requires rom.typeByte == 0x01 && rom.ramByte == 0
    ensures RamCode(rom.typeByte, RamOperand(rom, AsWritten)) == 2
    ensures RamCode(rom.typeByte, RamOperand(rom, Intended)) == 0
  {
    assert RamSizeKB(rom.ramByte) == 0;
  }

  /** The defect reaches the table: for an MBC1 cartridge without RAM the two readings build different tables. */
  lemma AsWrittenTableDiffers(rom: Rom)
    requires rom.typeByte == 0x01 && rom.ramByte == 0
    ensures Map([rom], AsWritten).Some? && Map([rom], Intended).Some?
    ensures Map([rom], AsWritten) != Map([rom], Intended)
  {
    MapSize([rom], AsWritten);
    MapSize([rom], Intended);
    var written, intended := Map([rom], AsWritten).value, Map([rom], Intended).value;
    MapSlot([rom], AsWritten, written, 0);
    MapSlot([rom], Intended, intended, 0);
    DecodeSlotEntry(rom, FirstRomOffsetKB, 0, AsWritten);
    DecodeSlotEntry(rom, FirstRomOffsetKB, 0, Intended);
    NoRamCartridgeGetsRam(rom);
    assert DecodeSlot(written[3..6]).ramCode != DecodeSlot(intended[3..6]).ramCode;
  }

  /** Read by value, the field follows the RAM class: none 000, 2 and 8 KB 010, 32 KB and more 011. */
  lemma IntendedRamCode(rom: Rom)
    ensures RamCode(rom.typeByte, RamOperand(rom, Intended)) ==
      if rom.typeByte == 0x06 then 1
      else if rom.ramByte == 0 then 0
      else if rom.ramByte <= 2 then 2
      else 3
  {
    RamSizeClasses(rom.ramByte);
  }

  /** The RAM the device reserves for a ROM: 8 KB for MBC2+battery or under 8 KB, else its size. */
  function RamStepKB(rom: Rom): (kb: nat)
    ensures kb >= 8
  {
    if rom.typeByte == 0x06 || RamSizeKB(rom.ramByte) < 8 then 8 else RamSizeKB(rom.ramByte)
  }

  /** `ramOffset` when slot i is written: the RAM steps of the ROMs before it. */
  function RamOffsetKB(roms: seq<Rom>, i: nat): (kb: nat)
    requires i <= |roms|
    ensures kb >= 8 * i
  {
    if i == 0 then 0 else RamOffsetKB(roms, i - 1) + RamStepKB(roms[i - 1])
  }

  /** `romOffset` when slot i is written: the menu's 128 KB plus the padded sizes before it. */
  function RomOffsetKB(roms: seq<Rom>, i: nat): (kb: int)
    requires i <= |roms|
    ensures kb >= FirstRomOffsetKB + 128 * i && kb % 128 == 0
  {
    FirstRomOffsetKB + PaddedKBBefore(roms, i)
  }

  /**
   * One ROM's three bytes: the bit-field record (MBC, ROM size, RAM size, then the ROM
   * offset in 32 KB units OR-ed into the second byte) and the RAM offset in 2 KB units.
   */
  function SlotEntry(rom: Rom, romOffsetKB: int, ramOffsetKB: nat, read: RamRead): (entry: seq<byte>)
    ensures |entry| == SlotBytes
  {
    var mbc := MbcCode(rom.typeByte);
    var size := RomCode(PaddedRomSizeKB(rom.romByte));
    var ram := RamCode(rom.typeByte, RamOperand(rom, read));
    [(mbc << 5) | (size << 2) | (ram >> 1), ((ram & 1) << 7) | AsByte(romOffsetKB / 32), AsByte(ramOffsetKB / 2)]
  }

  /** The entry of slot k, from the ROM's header and the running offsets. */
  function SlotOf(roms: seq<Rom>, read: RamRead): (f: nat -> seq<byte>)
    ensures forall k :: 0 <= k < |roms| ==> |f(k)| == 3
  {
    (k: nat) => if k < |roms| then SlotEntry(roms[k], RomOffsetKB(roms, k), RamOffsetKB(roms, k), read) else []
  }

  /** The slots of roms[..n], in order. */
  function Slots(roms: seq<Rom>, n: nat, read: RamRead): (slots: seq<byte>)
    requires n <= |roms|
    ensures |slots| == 3 * n
  {
    ChunksLength(SlotOf(roms, read), n);
    Chunks(SlotOf(roms, read), n)
  }

  /** f(0) + f(1) + ... + f(n - 1). */
  function Chunks(f: nat -> seq<byte>, n: nat): seq<byte> {
    if n == 0 then [] else Chunks(f, n - 1) + f(n - 1)
  }

  lemma {:induction false} ChunksLength(f: nat -> seq<byte>, n: nat)
    requires forall k :: 0 <= k < n ==> |f(k)| == 3
    ensures |Chunks(f, n)| == 3 * n
  {
    if n > 0 {
      ChunksLength(f, n - 1);
    }
  }

  /** Chunk i of f(0) + ... + f(n - 1) is f(i); later chunks do not disturb it. */
  lemma {:induction false} ChunkAt(f: nat -> seq<byte>, n: nat, i: nat)
    requires i < n && forall k :: 0 <= k < n ==> |f(k)| == 3
    ensures |Chunks(f, n)| == 3 * n
    ensures Chunks(f, n)[3 * i..3 * i + 3] == f(i)
  {
    ChunksLength(f, n - 1);
    ChunksLength(f, n);
    var prev := Chunks(f, n - 1);
    if i < n - 1 {
      ChunkAt(f, n - 1, i);
      assert (prev + f(n - 1))[3 * i..3 * i + 3] == prev[3 * i..3 * i + 3];
    } else {
      assert (prev + f(n - 1))[3 * i..3 * i + 3] == f(n - 1);
    }
  }

  /** Slot i of Slots(roms, n) is the entry of roms[i]. */
  lemma SlotAt(roms: seq<Rom>, n: nat, read: RamRead, i: nat)
    requires i < n <= |roms|
    ensures Slots(roms, n, read)[3 * i..3 * i + 3] ==
      SlotEntry(roms[i], RomOffsetKB(roms, i), RamOffsetKB(roms, i), read)
  {
    ChunkAt(SlotOf(roms, read), n, i);
  }

  /**
   * The table mapData returns; None when a write runs past the 128 bytes (the fill
   * writes nothing once the slots reach the trailer, and the trailer then overruns).
   */
  function Map(roms: seq<Rom>, read: RamRead): Option<seq<byte>> {
    Framed(MenuEntry + Slots(roms, |roms|, read))
  }

  /** The entries written so far, 0xFF up to byte 110 and the trailer; None if they overrun byte 110. */
  function Framed(written: seq<byte>): Option<seq<byte>> {
    if |written| > TrailerStart then None
    else Some(written + Repeat(0xFF, TrailerStart - |written|) + MapTrailer)
  }

  /** mapData succeeds for up to 35 ROMs and then yields exactly 128 bytes. */
  lemma MapSize(roms: seq<Rom>, read: RamRead)
    ensures Map(roms, read).Some? <==> |roms| <= 35
    ensures Map(roms, read).Some? ==> |Map(roms, read).value| == MapBytes
  {
  }

  /**
   * The table's layout: the menu entry, the slots, 0xFF up to byte 110, and the trailer
   * in bytes 110..127.
   */
  lemma MapLayout(roms: seq<Rom>, read: RamRead, table: seq<byte>)
    requires Map(roms, read) == Some(table)
    ensures |table| == MapBytes && table[..3] == MenuEntry
    ensures table[3..3 + 3 * |roms|] == Slots(roms, |roms|, read)
    ensures forall k :: 3 + 3 * |roms| <= k < TrailerStart ==> table[k] == 0xFF
    ensures table[TrailerStart..] == MapTrailer
  {
    FramedLayout(MenuEntry, Slots(roms, |roms|, read), table);
  }

  /** A framed table holds the entries written, then 0xFF up to byte 110, then the trailer. */
  lemma FramedLayout(entry: seq<byte>, slots: seq<byte>, table: seq<byte>)
    requires Framed(entry + slots) == Some(table)
    ensures |table| == MapBytes && table[..|entry|] == entry
    ensures table[|entry|..|entry| + |slots|] == slots
    ensures forall k :: |entry| + |slots| <= k < TrailerStart ==> table[k] == 0xFF
    ensures table[TrailerStart..] == MapTrailer
  {
    var fill := Repeat(0xFF, TrailerStart - |entry| - |slots|);
    assert table == entry + slots + fill + MapTrailer;
    FourParts(entry, slots, fill, MapTrailer);
  }

  lemma FourParts(a: seq<byte>, b: seq<byte>, c: seq<byte>, d: seq<byte>)
    ensures var s := a + b + c + d;
      && s[..|a|] == a && s[|a|..|a| + |b|] == b
      && (forall k :: 0 <= k < |c| ==> s[|a| + |b| + k] == c[k])
      && s[|a| + |b| + |c|..] == d
  {
  }

  /** Slot i sits at 3 + 3i and holds roms[i]'s entry, in input order. */
  lemma MapSlot(roms: seq<Rom>, read: RamRead, table: seq<byte>, i: nat)
    requires Map(roms, read) == Some(table) && i < |roms|
    ensures table[3 + 3 * i..3 + 3 * i + 3] ==
      SlotEntry(roms[i], RomOffsetKB(roms, i), RamOffsetKB(roms, i), read)
  {
    SlotBytesAt(roms, read, table, i);
    SlotAt(roms, |roms|, read, i);
  }

  lemma SlotBytesAt(roms: seq<Rom>, read: RamRead, table: seq<byte>, i: nat)
    requires Map(roms, read) == Some(table) && i < |roms|
    ensures table[3 + 3 * i..3 + 3 * i + 3] == Slots(roms, |roms|, read)[3 * i..3 * i + 3]
  {
    MapLayout(roms, read, table);
    SubSlice(table, 3, Slots(roms, |roms|, read), 3 * i, 3);
  }

  /** A slice of bytes placed in s is found in s at the same offset. */
  lemma SubSlice(s: seq<byte>, lo: nat, part: seq<byte>, j: nat, len: nat)
    requires lo + |part| <= |s| && s[lo..lo + |part|] == part && j + len <= |part|
    ensures s[lo + j..lo + j + len] == part[j..j + len]
  {
    var window, wanted := s[lo + j..lo + j + len], part[j..j + len];
    forall k | 0 <= k < len
      ensures window[k] == wanted[k]
    {
      assert part[j + k] == s[lo..lo + |part|][j + k];
    }
    assert window == wanted;
  }

  /** The fields of one slot, as the device decodes them. */
  datatype SlotFields = SlotFields(mbc: byte, romCode: byte, ramCode: byte, romOffsetKB: int, ramOffsetKB: int)

  function DecodeSlot(entry: seq<byte>): SlotFields
    requires |entry| == SlotBytes
  {
    SlotFields(entry[0] >> 5, (entry[0] >> 2) & 7, ((entry[0] & 3) << 1) | (entry[1] >> 7),
               ((entry[1] & 0x7F) as int) * 32, (entry[2] as int) * 2)
  }

  /** The bit fields of a slot do not overlap: each one reads back, as do offsets in range. */
  lemma DecodeSlotEntry(rom: Rom, romOffsetKB: int, ramOffsetKB: nat, read: RamRead)
    requires 0 <= romOffsetKB < 4096 && romOffsetKB % 32 == 0
    requires ramOffsetKB < 512 && ramOffsetKB % 2 == 0
    ensures var f := DecodeSlot(SlotEntry(rom, romOffsetKB, ramOffsetKB, read));
      && f.mbc == MbcCode(rom.typeByte)
      && f.romCode == RomCode(PaddedRomSizeKB(rom.romByte))
      && f.ramCode == RamCode(rom.typeByte, RamOperand(rom, read))
      && f.romOffsetKB == romOffsetKB
      && f.ramOffsetKB == ramOffsetKB
  {
    var mbc := MbcCode(rom.typeByte);
    var size := RomCode(PaddedRomSizeKB(rom.romByte));
    var ram := RamCode(rom.typeByte, RamOperand(rom, read));
    UnitsByte(romOffsetKB, 32, 128);
    UnitsByte(ramOffsetKB, 2, 256);
    FieldsRoundTrip(mbc, size, ram, AsByte(romOffsetKB / 32));
  }

  /** An offset counted in units fits a byte and reads back when it is a whole number of units. */
  lemma UnitsByte(offset: int, unit: nat, limit: nat)
    requires 0 < unit && limit <= 256 && 0 <= offset < limit * unit && offset % unit == 0
    ensures (AsByte(offset / unit) as int) * unit == offset
    ensures limit <= 128 ==> AsByte(offset / unit) < 0x80
  {
    DivBound(offset, unit, limit);
    SmallByte(offset / unit);
  }

  lemma DivBound(offset: int, unit: nat, limit: nat)
    requires 0 < unit && 0 <= offset < limit * unit && offset % unit == 0
    ensures 0 <= offset / unit < limit && (offset / unit) * unit == offset
  {
  }

  lemma FieldsRoundTrip(mbc: byte, size: byte, ram: byte, off: byte)
    requires mbc < 8 && size < 8 && ram < 8 && off < 0x80
    ensures var b0 := (mbc << 5) | (size << 2) | (ram >> 1);
            var b1 := ((ram & 1) << 7) | off;
            && b0 >> 5 == mbc && (b0 >> 2) & 7 == size
            && ((b0 & 3) << 1) | (b1 >> 7) == ram && b1 & 0x7F == off
  {
  }
}
