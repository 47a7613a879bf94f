/**
 * The ROM class of script/gbnp.js (lines 54-114): the cartridge header fields it reads,
 * the size classes it derives from them, the zero-padded payload it builds, and the
 * checks that mark a ROM `bad`.
 */
module Cartridge {
  import opened Bytes
  import opened Tiles

  // Cartridge header offsets.
  const TitleOffset: nat := 0x134
  const TitleLength: nat := 0xF
  const CgbOffset: nat := 0x143
  const TypeOffset: nat := 0x147
  const RomSizeOffset: nat := 0x148
  const RamSizeOffset: nat := 0x149
  /** One past the last header byte read; a shorter file makes a read throw. */
  const HeaderEnd: nat := 0x14A
  const LogoOffset: nat := 260
  /** The first bytes of the boot logo, checked at 0x104..0x108. */
  const LogoCheck: seq<byte> := [0xCE, 0xED, 0x66, 0x66, 0xCC]

  /** The memory bank controller named in CARTRIDGE_TYPES. */
  datatype Mapper = NoMapper | Mbc1 | Mbc2 | Mbc3 | Mbc5

  /** CARTRIDGE_TYPES, indexed by the header's type byte; None stands for `null`. */
  const CartridgeTypes: seq<Option<Mapper>> := [
    Some(NoMapper),
    Some(Mbc1), Some(Mbc1), Some(Mbc1), None,
    Some(Mbc2), Some(Mbc2), None,
    Some(NoMapper), Some(NoMapper), None, None, None, None, None,
    Some(Mbc3), Some(Mbc3), Some(Mbc3), Some(Mbc3), Some(Mbc3), None, None, None, None, None,
    Some(Mbc5), Some(Mbc5), Some(Mbc5), Some(Mbc5), Some(Mbc5), Some(Mbc5)
  ]

  /** `CARTRIDGE_TYPES[typeByte]`; an index past the table is `undefined`, i.e. unknown. */
  function CartridgeType(typeByte: byte): (m: Option<Mapper>)
    ensures m == Some(NoMapper) <==> typeByte == 0x00 || typeByte == 0x08 || typeByte == 0x09
    ensures m == Some(Mbc1) <==> 0x01 <= typeByte <= 0x03
    ensures m == Some(Mbc2) <==> 0x05 <= typeByte <= 0x06
    ensures m == Some(Mbc3) <==> 0x0F <= typeByte <= 0x13
    ensures m == Some(Mbc5) <==> 0x19 <= typeByte <= 0x1E
  {
    if typeByte as int < |CartridgeTypes| then CartridgeTypes[typeByte] else None
  }

  // ---------------------------------------------------------------- size classes

  function Pow2(n: nat): (r: int)
    ensures r >= 1
  {
    if n == 0 then 1 else 2 * Pow2(n - 1)
  }

  function Pow4(n: nat): (r: int)
    ensures r >= 1
  {
    if n == 0 then 1 else 4 * Pow4(n - 1)
  }

  /** A JS number after a 32-bit bitwise operator: its two's-complement 32-bit value. */
  function ToInt32(x: int): (r: int)
    ensures -0x8000_0000 <= r < 0x8000_0000
    ensures (r - x) % 0x1_0000_0000 == 0
  {
    var m := x % 0x1_0000_0000;
    if m >= 0x8000_0000 then m - 0x1_0000_0000 else m
  }

  /** `32 << romByte`: JS shifts by the low five bits of the count and keeps 32 bits. */
  function RomSizeKB(romByte: byte): int {
    ToInt32(32 * Pow2(romByte as int % 32))
  }

  lemma {:induction false} Pow2Add(a: nat, b: nat)
    ensures Pow2(a + b) == Pow2(a) * Pow2(b)
    decreases a
  {
    if a > 0 {
      Pow2Add(a - 1, b);
    }
  }

  lemma {:induction false} Pow2Monotone(a: nat, b: nat)
    requires a <= b
    ensures Pow2(a) <= Pow2(b)
    decreases b
  {
    if a < b {
      Pow2Monotone(a, b - 1);
    }
  }

  lemma Pow2Landmarks()
    ensures Pow2(5) == 32 && Pow2(7) == 128
    ensures Pow2(30) == 0x4000_0000 && Pow2(31) == 0x8000_0000 && Pow2(32) == 0x1_0000_0000
  {
    assert Pow2(10) == 1024;
    Pow2Add(10, 10);
    Pow2Add(20, 10);
    Pow2Add(30, 1);
    Pow2Add(30, 2);
  }

  lemma WholeWordsWrap(k: nat)
    ensures ToInt32(0x1_0000_0000 * k) == 0
  {
    assert (0x1_0000_0000 * k) % 0x1_0000_0000 == 0 by {
      assert 0x1_0000_0000 * k == 0x1_0000_0000 * k + 0;
    }
  }

  lemma Int32Small(x: int)
    requires 0 <= x < 0x8000_0000
    ensures ToInt32(x) == x
  {
  }

  /** The three shapes `32 << romByte` takes: 32 * 2^n, the sign bit alone, or 0. */
  lemma RomSizeKBValues(romByte: byte)
    ensures romByte as int % 32 <= 25 ==> RomSizeKB(romByte) == 32 * Pow2(romByte as int % 32)
    ensures romByte as int % 32 == 26 ==> RomSizeKB(romByte) == -0x8000_0000
    ensures romByte as int % 32 >= 27 ==> RomSizeKB(romByte) == 0
  {
    var n := romByte as int % 32;
    Pow2Landmarks();
    Pow2Add(5, n);
    if n <= 25 {
      Pow2Monotone(n + 5, 30);
      Int32Small(32 * Pow2(n));
    } else if n == 26 {
      assert 32 * Pow2(n) == 0x8000_0000;
    } else {
      Pow2Add(32, n + 5 - 32);
      var k := Pow2(n + 5 - 32);
      assert 32 * Pow2(n) == 0x1_0000_0000 * k;
      WholeWordsWrap(k);
    }
  }

  /** `padded()`: the ROM is smaller than the 128 KB unit the device addresses in. */
  predicate Padded(romByte: byte) {
    RomSizeKB(romByte) < 128
  }

  function PaddedRomSizeKB(romByte: byte): int {
    if Padded(romByte) then 128 else RomSizeKB(romByte)
  }

  /** The padded size is a whole number of 128 KB banks, 128 KB to 2^30 KB (1 TiB), never below the ROM size. */
  lemma PaddedRomSize(romByte: byte)
    ensures PaddedRomSizeKB(romByte) >= 128 && PaddedRomSizeKB(romByte) >= RomSizeKB(romByte)
    ensures PaddedRomSizeKB(romByte) % 128 == 0 && PaddedRomSizeKB(romByte) <= 0x4000_0000
    ensures PaddedRomSizeKB(romByte) == 128 <==> RomSizeKB(romByte) <= 128
  {
    RomSizeKBValues(romByte);
    var n, size := romByte as int % 32, RomSizeKB(romByte);
    if 2 <= n <= 25 {
      WholeBanks(n);
      var banks := Pow2(n - 2);
      assert size == 128 * banks && size >= 128;
    } else if n < 2 {
      assert Pow2(n) <= 2;
      assert size <= 64;
    } else {
      assert size <= 0;
    }
  }

  /** From class 2 on, 32 << n is a whole number of 128 KB banks, at most 2^30 KB up to class 25. */
  lemma WholeBanks(n: nat)
    requires 2 <= n <= 25
    ensures 32 * Pow2(n) == 128 * Pow2(n - 2) && 128 <= 32 * Pow2(n) <= 0x4000_0000
  {
    Pow2Landmarks();
    Pow2Add(7, n - 2);
    Pow2Add(5, n);
    Pow2Monotone(n + 5, 30);
  }

  /** `Math.trunc(Math.pow(4, ramByte - 1)) * 2`: 4^-1 truncates to 0, so class 0 has no RAM. */
  function RamSizeKB(ramByte: byte): nat {
    if ramByte == 0 then 0 else 2 * Pow4(ramByte as int - 1)
  }

  lemma {:induction false} Pow4Monotone(a: nat, b: nat)
    requires a <= b
    ensures Pow4(a) <= Pow4(b)
    decreases b
  {
    if a < b {
      Pow4Monotone(a, b - 1);
    }
  }

  /** RAM classes 0..3 are 0, 2, 8 and 32 KB; every higher class is more than 32 KB. */
  lemma RamSizeClasses(ramByte: byte)
    ensures ramByte == 0 ==> RamSizeKB(ramByte) == 0
    ensures ramByte == 1 ==> RamSizeKB(ramByte) == 2
    ensures ramByte == 2 ==> RamSizeKB(ramByte) == 8
    ensures ramByte == 3 ==> RamSizeKB(ramByte) == 32
    ensures RamSizeKB(ramByte) <= 32 <==> ramByte <= 3
  {
    if ramByte >= 4 {
      Pow4Monotone(3, ramByte as int - 1);
    }
  }

  // ---------------------------------------------------------------- the ROM object

  /** Why the constructor marked a ROM `bad`, in the order it checks. */
  datatype Problem = OversizedFile | MissingLogo | UnknownCartridgeType | TooMuchRam

  /**
   * A ROM object: its header fields, its zero-padded image (`arrayBuffer`), its menu
   * bitmap (`bitmapBuffer`) and whether it is `bad`.
   */
  datatype Rom = Rom(
    title: seq<byte>,
    cgb: bool,
    typeByte: byte,
    romByte: byte,
    ramByte: byte,
    payload: seq<byte>,
    bitmap: seq<byte>,
    bad: Option<Problem>)

  /** The canvas drawing of a menu text (font rendering is outside the model). */
  type Rasteriser = seq<byte> -> MenuGrid

  /** The title bytes with every NUL removed. */
  function WithoutNul(s: seq<byte>): (r: seq<byte>)
    ensures |r| <= |s|
    ensures forall k :: 0 <= k < |r| ==> r[k] != 0
  {
    if s == [] then [] else (if s[0] == 0 then [] else [s[0]]) + WithoutNul(s[1..])
  }

  /**
   * Removing the NULs works byte by byte: the title of two parts is the two parts'
   * titles joined (and a lone byte is dropped exactly when it is NUL, by definition).
   */
  lemma {:induction false} WithoutNulAppend(x: seq<byte>, y: seq<byte>)
    ensures WithoutNul(x + y) == WithoutNul(x) + WithoutNul(y)
    decreases |x|
  {
    if x != [] {
      WithoutNulAppend(x[1..], y);
      var xy := x + y;
      assert xy[0] == x[0] && xy[1..] == x[1..] + y;
      assert WithoutNul(xy) == (if x[0] == 0 then [] else [x[0]]) + WithoutNul(x[1..] + y);
    } else {
      assert x + y == y;
    }
  }

  /** A title without NULs is kept whole. */
  lemma {:induction false} WithoutNulWhole(s: seq<byte>)
    requires forall k :: 0 <= k < |s| ==> s[k] != 0
    ensures WithoutNul(s) == s
  {
    if s != [] {
      WithoutNulWhole(s[1..]);
      assert s == [s[0]] + s[1..];
    }
  }

  /** The checks after copying, in order: logo, cartridge type, RAM size. */
  function HeaderProblem(payload: seq<byte>, typeByte: byte, ramByte: byte): Option<Problem>
    requires |payload| >= LogoOffset + |LogoCheck|
  {
    if !HasLogo(payload) then Some(MissingLogo)
    else if CartridgeType(typeByte).None? then Some(UnknownCartridgeType)
    else if RamSizeKB(ramByte) > 32 then Some(TooMuchRam)
    else None
  }

  /** `paddedRomSizeKB() * 1024`: the length of the payload buffer. */
  function PayloadBytes(romByte: byte): (n: nat)
    ensures n >= 0x20000 && n % 0x20000 == 0 && n >= RomSizeKB(romByte) * 1024
  {
    PaddedRomSize(romByte);
    PaddedRomSizeKB(romByte) * 1024
  }

  /**
   * `new ROM(arrayBuffer)`: None when a header read throws (the file is shorter than
   * the header), otherwise the ROM, possibly marked bad. An oversized file is left
   * uncopied (its payload stays zero) and is not checked further.
   */
  function ParseRom(raw: seq<byte>, render: Rasteriser): (r: Option<Rom>)
    ensures r.None? <==> |raw| < HeaderEnd
  {
    if |raw| < HeaderEnd then None
    else Some(Assemble(raw, render, PayloadBytes(raw[RomSizeOffset])))
  }

  /** The ROM built from a file of at least HeaderEnd bytes, given its payload length. */
  function Assemble(raw: seq<byte>, render: Rasteriser, size: nat): (rom: Rom)
    requires |raw| >= HeaderEnd && size >= LogoOffset + |LogoCheck|
    ensures |rom.payload| == size
  {
    var title := WithoutNul(raw[TitleOffset..TitleOffset + TitleLength]);
    var cgbByte := raw[CgbOffset];
    var typeByte := raw[TypeOffset];
    var ramByte := raw[RamSizeOffset];
    var bitmap := MenuBitmap(render(title));
    var payload := if |raw| > size then Zeros(size) else ZeroPadded(raw, size);
    var bad := if |raw| > size then Some(OversizedFile) else HeaderProblem(payload, typeByte, ramByte);
    Rom(title, cgbByte == 0x80 || cgbByte == 0xC0, typeByte, raw[RomSizeOffset], ramByte,
        payload, bitmap, bad)
  }

  /** The size facts every constructed ROM has: a padded payload and a 256-byte bitmap. */
  predicate Shaped(rom: Rom) {
    && |rom.payload| == PayloadBytes(rom.romByte)
    && |rom.bitmap| == MenuBitmapBytes
  }

  /** Every ROM of the list was constructed. */
  predicate AllShaped(roms: seq<Rom>) {
    forall r :: r in roms ==> Shaped(r)
  }

  lemma ParsedShape(raw: seq<byte>, render: Rasteriser, rom: Rom)
    requires ParseRom(raw, render) == Some(rom)
    ensures Shaped(rom)
    ensures rom.typeByte == raw[TypeOffset] && rom.romByte == raw[RomSizeOffset]
    ensures rom.ramByte == raw[RamSizeOffset]
    ensures rom.title == WithoutNul(raw[TitleOffset..TitleOffset + TitleLength])
    ensures rom.cgb == (raw[CgbOffset] == 0x80 || raw[CgbOffset] == 0xC0)
    ensures rom.bitmap == MenuBitmap(render(rom.title))
  {
    MenuBitmapLength(render(rom.title));
  }

  /** The payload is the file left-aligned and zero-filled to the padded size. */
  lemma ParsedPayload(raw: seq<byte>, render: Rasteriser, rom: Rom)
    requires ParseRom(raw, render) == Some(rom) && rom.bad != Some(OversizedFile)
    ensures |raw| <= |rom.payload| == PayloadBytes(rom.romByte)
    ensures rom.payload[..|raw|] == raw
    ensures forall k :: |raw| <= k < |rom.payload| ==> rom.payload[k] == 0
  {
    var size := PayloadBytes(raw[RomSizeOffset]);
    AssembledVerdict(raw, render, size);
    ZeroPaddedPrefix(raw, size);
  }

  /** Whether the boot-logo bytes are present at 0x104. */
  predicate HasLogo(s: seq<byte>)
    requires |s| >= LogoOffset + |LogoCheck|
  {
    s[LogoOffset..LogoOffset + |LogoCheck|] == LogoCheck
  }

  /**
   * The ROM is bad exactly when one of the checks fails, and the reason recorded is the
   * first failing one: size, then logo, then type, then RAM.
   */
  lemma BadVerdict(raw: seq<byte>, render: Rasteriser, rom: Rom)
    requires ParseRom(raw, render) == Some(rom)
    ensures rom.bad == Some(OversizedFile) <==> |raw| > PayloadBytes(rom.romByte)
    ensures rom.bad == Some(MissingLogo) <==> |raw| <= PayloadBytes(rom.romByte) && !HasLogo(raw)
    ensures rom.bad == Some(UnknownCartridgeType) <==>
      |raw| <= PayloadBytes(rom.romByte) && HasLogo(raw) && CartridgeType(rom.typeByte).None?
    ensures rom.bad == Some(TooMuchRam) <==>
      |raw| <= PayloadBytes(rom.romByte) && HasLogo(raw) && CartridgeType(rom.typeByte).Some? &&
      RamSizeKB(rom.ramByte) > 32
    ensures rom.bad == None <==>
      |raw| <= PayloadBytes(rom.romByte) && HasLogo(raw) && CartridgeType(rom.typeByte).Some? &&
      RamSizeKB(rom.ramByte) <= 32
  {
    AssembledVerdict(raw, render, PayloadBytes(raw[RomSizeOffset]));
  }

  lemma AssembledVerdict(raw: seq<byte>, render: Rasteriser, size: nat)
    requires |raw| >= HeaderEnd && size >= LogoOffset + |LogoCheck|
    ensures var rom := Assemble(raw, render, size);
      && rom.typeByte == raw[TypeOffset] && rom.ramByte == raw[RamSizeOffset]
      && (|raw| > size ==> rom.bad == Some(OversizedFile))
      && (|raw| <= size ==> rom.bad == HeaderProblem(rom.payload, rom.typeByte, rom.ramByte))
      && (|raw| <= size ==> (HasLogo(rom.payload) <==> HasLogo(raw)))
  {
    if |raw| <= size {
      var payload := ZeroPadded(raw, size);
      assert payload[LogoOffset..LogoOffset + |LogoCheck|] == raw[LogoOffset..LogoOffset + |LogoCheck|];
    }
  }

  /**
   * Re-reading a ROM's own payload gives back the same ROM: the header bytes are where
   * they were, and the payload is already padded. (An oversized file's payload is blank.)
   */
  lemma ReparsePayload(raw: seq<byte>, render: Rasteriser, rom: Rom)
    requires ParseRom(raw, render) == Some(rom) && rom.bad != Some(OversizedFile)
    ensures ParseRom(rom.payload, render) == Some(rom)
  {
    var size := PayloadBytes(raw[RomSizeOffset]);
    ReassembleFitting(raw, render, size);
  }

  lemma ReassembleFitting(raw: seq<byte>, render: Rasteriser, size: nat)
    requires |raw| >= HeaderEnd && size >= LogoOffset + |LogoCheck| && |raw| <= size
    ensures var rom := Assemble(raw, render, size);
      && rom.payload[RomSizeOffset] == raw[RomSizeOffset]
      && Assemble(rom.payload, render, size) == rom
  {
    var p := ZeroPadded(raw, size);
    assert p[..HeaderEnd] == raw[..HeaderEnd];
    assert p[TitleOffset..TitleOffset + TitleLength] == raw[TitleOffset..TitleOffset + TitleLength];
  }

  // ---------------------------------------------------------------- running sums

  /** The padded sizes of roms[..i] added up: what `reduce` in romUsedKB has after i steps. */
  function PaddedKBBefore(roms: seq<Rom>, i: nat): (total: int)
    requires i <= |roms|
    ensures total >= 128 * i && total % 128 == 0
  {
    if i == 0 then 0
    else
      PaddedRomSize(roms[i - 1].romByte);
      BanksAdd(PaddedKBBefore(roms, i - 1), PaddedRomSizeKB(roms[i - 1].romByte));
      PaddedKBBefore(roms, i - 1) + PaddedRomSizeKB(roms[i - 1].romByte)
  }

  lemma BanksAdd(a: int, b: int)
    requires a % 128 == 0 && b % 128 == 0
    ensures (a + b) % 128 == 0
  {
  }

  /** `romUsedKB()`: the KB the ROMs take in the multicart, each rounded up to 128 KB. */
  function RomUsedKB(roms: seq<Rom>): (kb: int)
    ensures kb >= 128 * |roms| && kb % 128 == 0
  {
    PaddedKBBefore(roms, |roms|)
  }

  /** Each ROM's payload length: the bytes it occupies in the image. */
  function PayloadBytesBefore(roms: seq<Rom>, i: nat): (total: nat)
    requires i <= |roms|
  {
    if i == 0 then 0 else PayloadBytesBefore(roms, i - 1) + |roms[i - 1].payload|
  }

  /** For constructed ROMs the image bytes are exactly the padded KB. */
  lemma {:induction false} PayloadBytesArePaddedKB(roms: seq<Rom>, i: nat)
    requires i <= |roms| && AllShaped(roms)
    ensures PayloadBytesBefore(roms, i) == 1024 * PaddedKBBefore(roms, i)
  {
    if i > 0 {
      PayloadBytesArePaddedKB(roms, i - 1);
      assert Shaped(roms[i - 1]);
    }
  }
}
