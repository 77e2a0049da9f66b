/** The modchip's flash as a row of 4096-byte sectors, split into partitions as
    fruitchip-fw-board/board_configuration.cmake does for a 2 MiB board. Erasing sets a sector to 0xFF,
    programming can only clear bits; a power cut leaves a prefix of the intended sector operations done. */
module SectorFlash {
  import opened Bits
  import Crc

  const SECTOR_SIZE := 4096
  const FW_FIRST := 8          // after 32 KiB of bootloader
  const FW_COUNT := 162        // 648 KiB
  const UPDATE_FIRST := 170
  const SETTINGS_FIRST := 332
  const APPS_FIRST := 334
  const APPS_COUNT := 178      // 712 KiB
  const FLASH_SECTORS := 512

  function Filled(n: nat, b: byte): (r: seq<byte>)
    ensures |r| == n
  {
    seq(n, i => b)
  }

  type Sector = s: seq<byte> | |s| == SECTOR_SIZE witness Filled(SECTOR_SIZE, 0xFF)

  const ERASED: Sector := Filled(SECTOR_SIZE, 0xFF)

  function Blank(n: nat): (f: seq<Sector>)
    ensures |f| == n
  {
    seq(n, i => ERASED)
  }

  type Flash = f: seq<Sector> | |f| == FLASH_SECTORS witness Blank(FLASH_SECTORS)

  datatype SectorOp = Erase(sector: nat) | Program(sector: nat, data: Sector)

  function AndByte(a: byte, b: byte): byte
  {
    Widths();
    AndAtMost(a, b);
    And(a, b)
  }

  lemma {:induction false} AndOnes(b: nat, k: nat)
    requires b < Pow2(k)
    ensures And(Pow2(k) - 1, b) == b
  {
    if k != 0 && b != 0 {
      AndOnes(b / 2, k - 1);
      assert (Pow2(k) - 1) / 2 == Pow2(k - 1) - 1 && (Pow2(k) - 1) % 2 == 1;
    }
  }

  function ProgramOver(before: Sector, data: Sector): Sector
  {
    seq(SECTOR_SIZE, i requires 0 <= i < SECTOR_SIZE => AndByte(before[i], data[i]))
  }

  lemma ProgramErased(data: Sector)
    ensures ProgramOver(ERASED, data) == data
  {
    forall i | 0 <= i < SECTOR_SIZE
      ensures AndByte(0xFF, data[i]) == data[i]
    {
      Widths();
      AndOnes(data[i], 8);
    }
  }

  /** Programming can only clear bits: afterwards a bit is set if and only if it was and the data has it set. */
  lemma ProgrammingClears(before: Sector, data: Sector, i: nat, k: nat)
    requires i < SECTOR_SIZE
    ensures BitSet(ProgramOver(before, data)[i], k) <==> BitSet(before[i], k) && BitSet(data[i], k)
  {
    AndBits(before[i], data[i], k);
  }

  function Apply(f: Flash, op: SectorOp): Flash
  {
    if op.sector >= FLASH_SECTORS then f
    else f[op.sector := if op.Erase? then ERASED else ProgramOver(f[op.sector], op.data)]
  }

  function ApplyAll(f: Flash, ops: seq<SectorOp>): Flash
    decreases |ops|
  {
    if |ops| == 0 then f else ApplyAll(Apply(f, ops[0]), ops[1..])
  }

  lemma NoOps(f: Flash)
    ensures ApplyAll(f, []) == f && Disciplined(f, [])
  {
  }

  /** Every program operation hits a sector that is erased at that moment. */
  predicate Disciplined(f: Flash, ops: seq<SectorOp>)
    decreases |ops|
  {
    |ops| == 0
    || (&& ops[0].sector < FLASH_SECTORS
        && (ops[0].Program? ==> f[ops[0].sector] == ERASED)
        && Disciplined(Apply(f, ops[0]), ops[1..]))
  }

  lemma {:induction false} Concatenation(f: Flash, a: seq<SectorOp>, b: seq<SectorOp>)
    ensures ApplyAll(f, a + b) == ApplyAll(ApplyAll(f, a), b)
    ensures Disciplined(f, a + b) <==> Disciplined(f, a) && Disciplined(ApplyAll(f, a), b)
    decreases |a|
  {
    hide Apply;
    if |a| == 0 {
      assert a + b == b;
    } else {
      assert (a + b)[1..] == a[1..] + b;
      Concatenation(Apply(f, a[0]), a[1..], b);
    }
  }

  /** What a sector write does: nothing if the contents are there already, else erase and program. */
  function Replace(f: Flash, sector: nat, data: Sector): seq<SectorOp>
    requires sector < FLASH_SECTORS
  {
    if f[sector] == data then [] else [Erase(sector), Program(sector, data)]
  }

  lemma ReplaceStores(f: Flash, sector: nat, data: Sector)
    requires sector < FLASH_SECTORS
    ensures Disciplined(f, Replace(f, sector, data))
    ensures ApplyAll(f, Replace(f, sector, data)) == f[sector := data]
  {
    hide ProgramOver;
    var ops := Replace(f, sector, data);
    if f[sector] != data {
      ProgramErased(data);
      var g := Apply(f, ops[0]);
      assert g[sector] == ERASED;
      assert ops[1..] == [Program(sector, data)] && ops[1..][1..] == [];
      var h := Apply(g, ops[1]);
      assert h == f[sector := data];
      assert ApplyAll(g, ops[1..]) == ApplyAll(h, []) == h;
      assert Disciplined(h, []) && Disciplined(g, ops[1..]);
    } else {
      assert f[sector := data] == f;
    }
  }

  /** A cut inside a sector write leaves the old contents, an erased sector or the new contents. */
  lemma CutReplace(f: Flash, sector: nat, data: Sector, k: nat)
    requires sector < FLASH_SECTORS && k <= |Replace(f, sector, data)|
    ensures var g := ApplyAll(f, Replace(f, sector, data)[..k]);
            && (k == |Replace(f, sector, data)| ==> g == f[sector := data])
            && (k == 0 ==> g == f)
            && (0 < k < |Replace(f, sector, data)| ==> f[sector] != data && g == f[sector := ERASED])
  {
    hide ProgramOver;
    var ops := Replace(f, sector, data);
    ReplaceStores(f, sector, data);
    if k == |ops| {
      assert ops[..k] == ops;
    } else if k == 1 {
      assert ops[..1] == [Erase(sector)] && ops[..1][1..] == [];
    } else {
      assert ops[..0] == [];
    }
  }

  // ----- Erasing and writing sectors of a partition (fruitchip-fw/src/boot_rom/write/flash.c)

  const PARTITION_FW := 0
  const PARTITION_FW_UPDATE := 1
  const PARTITION_APPS := 2
  const PARTITIONS_TOTAL := 3

  /** 2^32 bytes of address space, in sectors. */
  const SECTOR_SPACE := 0x10_0000

  /** First sector and number of sectors of the partitions that may be written. */
  function WritableFirst(partition: nat): (first: nat)
    ensures FW_FIRST + FW_COUNT <= first < FLASH_SECTORS
  {
    if partition == PARTITION_FW_UPDATE then UPDATE_FIRST else APPS_FIRST
  }

  function WritableCount(partition: nat): (count: nat)
    ensures 1 < count && WritableFirst(partition) + count <= FLASH_SECTORS
  {
    if partition == PARTITION_FW_UPDATE then FW_COUNT else APPS_COUNT
  }

  predicate Writable(partition: nat)
  {
    partition == PARTITION_FW_UPDATE || partition == PARTITION_APPS
  }

  /** The sector addressed, with the wrap-around of 32-bit offsets. */
  function Target(partition: nat, sector: nat): nat
  {
    (WritableFirst(partition) + sector) % SECTOR_SPACE
  }

  /** The bounds check: one past the addressed sector must lie strictly below the end of the partition. */
  predicate SectorAccepted(partition: nat, sector: nat)
  {
    && Writable(partition)
    && (Target(partition, sector) + 1) % SECTOR_SPACE < WritableFirst(partition) + WritableCount(partition)
  }

  /** Erasing `n` sectors from `first` on. */
  function EraseRange(first: nat, n: nat): (ops: seq<SectorOp>)
    ensures |ops| == n
  {
    seq(n, i requires 0 <= i < n => Erase(first + i))
  }

  predicate SectorErased(f: Flash, sector: nat)
  {
    sector < FLASH_SECTORS && f[sector] == ERASED
  }

  /** Only the first sector is looked at: if it is empty, nothing is erased. */
  function EraseOps(f: Flash, first: nat, count: nat): seq<SectorOp>
  {
    if SectorErased(f, first) then [] else EraseRange(first, count % SECTOR_SPACE)
  }

  function WriteOps(f: Flash, sector: nat, data: Sector): seq<SectorOp>
  {
    if sector < FLASH_SECTORS then Replace(f, sector, data) else [Erase(sector), Program(sector, data)]
  }

  lemma {:induction false} EraseRangeErases(f: Flash, first: nat, n: nat)
    ensures var g := ApplyAll(f, EraseRange(first, n));
            forall j :: 0 <= j < FLASH_SECTORS ==> g[j] == if first <= j < first + n then ERASED else f[j]
    decreases n
  {
    hide ProgramOver, Filled;
    var ops := EraseRange(first, n);
    if n == 0 {
      NoOps(f);
    } else {
      assert ops[0] == Erase(first) && ops[1..] == EraseRange(first + 1, n - 1);
      var h := Apply(f, ops[0]);
      EraseRangeErases(h, first + 1, n - 1);
      assert ApplyAll(f, ops) == ApplyAll(h, EraseRange(first + 1, n - 1));
      assert forall j :: 0 <= j < FLASH_SECTORS ==> h[j] == if j == first then ERASED else f[j];
    }
  }

  lemma OutOfFlash(f: Flash, sector: nat, data: Sector)
    requires sector >= FLASH_SECTORS
    ensures ApplyAll(f, [Erase(sector), Program(sector, data)]) == f
  {
    hide ProgramOver;
    var ops := [Erase(sector), Program(sector, data)];
    assert Apply(f, ops[0]) == f;
    assert ops[1..] == [Program(sector, data)] && ops[1..][1..] == [];
    assert Apply(f, ops[1..][0]) == f;
    NoOps(f);
  }

  lemma TargetOf(partition: nat, sector: u32)
    ensures var i, first := sector % SECTOR_SPACE, WritableFirst(partition);
            && Target(partition, sector) == (if first + i < SECTOR_SPACE then first + i else first + i - SECTOR_SPACE)
            && (Target(partition, sector) + 1) % SECTOR_SPACE
               == (if first + i + 1 < SECTOR_SPACE then first + i + 1 else first + i + 1 - SECTOR_SPACE)
  {
    var i, first, q := sector % SECTOR_SPACE, WritableFirst(partition), sector / SECTOR_SPACE;
    assert first + sector == SECTOR_SPACE * q + (first + i);
    if first + i < SECTOR_SPACE {
      DivModUnique(first + sector, SECTOR_SPACE, q, first + i);
    } else {
      DivModUnique(first + sector, SECTOR_SPACE, q + 1, first + i - SECTOR_SPACE);
    }
  }

  /** Exactly which sector numbers pass the bounds check: all but the last of the partition, and those for which
      the 32-bit offset wraps to below the partition. */
  lemma AcceptedExactly(partition: nat, sector: u32)
    requires Writable(partition)
    ensures var i := sector % SECTOR_SPACE;
            SectorAccepted(partition, sector)
            <==> i + 1 < WritableCount(partition) || i + 1 >= SECTOR_SPACE - WritableFirst(partition)
  {
    TargetOf(partition, sector);
  }

  // ----- 32-bit flash offsets

  lemma ScaledMod(a: nat)
    ensures a * SECTOR_SIZE % TWO_32 == a % SECTOR_SPACE * SECTOR_SIZE
  {
    DivModUnique(a * SECTOR_SIZE, TWO_32, a / SECTOR_SPACE, a % SECTOR_SPACE * SECTOR_SIZE);
  }

  lemma SumMod(a: nat, b: nat)
    ensures (a + b % SECTOR_SPACE) % SECTOR_SPACE == (a + b) % SECTOR_SPACE
  {
    var x := a + b % SECTOR_SPACE;
    DivModUnique(a + b, SECTOR_SPACE, b / SECTOR_SPACE + x / SECTOR_SPACE, x % SECTOR_SPACE);
  }

  lemma OffsetIsTarget(partition: nat, sector: u32)
    ensures var first, offset := WritableFirst(partition) * SECTOR_SIZE, sector * SECTOR_SIZE % TWO_32;
            var flashOffset := (first + offset) % TWO_32;
            && flashOffset / SECTOR_SIZE == Target(partition, sector)
            && ((flashOffset + SECTOR_SIZE) % TWO_32 < first + WritableCount(partition) * SECTOR_SIZE
                <==> (Target(partition, sector) + 1) % SECTOR_SPACE < WritableFirst(partition) + WritableCount(partition))
  {
    var first, t := WritableFirst(partition), Target(partition, sector);
    ScaledMod(sector);
    ScaledMod(first + sector % SECTOR_SPACE);
    SumMod(first, sector);
    ScaledMod(t + 1);
    assert first * SECTOR_SIZE + sector % SECTOR_SPACE * SECTOR_SIZE == (first + sector % SECTOR_SPACE) * SECTOR_SIZE;
    assert t * SECTOR_SIZE + SECTOR_SIZE == (t + 1) * SECTOR_SIZE;
  }

  // ----- Boot blocks

  /** A partition is taken for a firmware if the CRC-32 of the first 252 bytes of its first sector is stored,
      little-endian, in the next four. */
  predicate BootBlockValid(s: Sector)
  {
    Crc.Crc32(s[..252]) == LeU32(s[252], s[253], s[254], s[255])
  }

  /** Exactly the blocks whose bytes 252 to 255 are the checksum of the bytes before them, low byte first. */
  lemma BootBlockExactly(s: Sector)
    ensures var crc := Crc.Crc32(s[..252]);
            BootBlockValid(s)
            <==> && s[252] == crc % 0x100 && s[253] == crc / 0x100 % 0x100
                 && s[254] == crc / 0x1_0000 % 0x100 && s[255] == crc / 0x100_0000
  {
    hide Crc.Crc32;
    var crc := Crc.Crc32(s[..252]);
    LeU32Digits(s[252], s[253], s[254], s[255], crc);
  }

  /** Any 252 bytes with their checksum behind them and anything behind that. */
  lemma ChecksummedIsValid(head: seq<byte>, tail: seq<byte>)
    requires |head| == 252 && |tail| == SECTOR_SIZE - 256
    ensures var crc := Crc.Crc32(head);
            BootBlockValid(head + [crc % 0x100, crc / 0x100 % 0x100, crc / 0x1_0000 % 0x100, crc / 0x100_0000] + tail)
  {
    hide Crc.Crc32, BootBlockValid;
    var crc := Crc.Crc32(head);
    var s: Sector := head + [crc % 0x100, crc / 0x100 % 0x100, crc / 0x1_0000 % 0x100, crc / 0x100_0000] + tail;
    assert s[..252] == head;
    BootBlockExactly(s);
  }

  /** A valid block is not valid any more once one of its first 256 bytes is another. */
  lemma BlockDamageIsNoticed(s: Sector, i: nat, b: byte)
    requires BootBlockValid(s) && i < 256 && s[i] != b
    ensures !BootBlockValid(s[i := b])
  {
    hide Crc.Crc32, BootBlockValid;
    var t: Sector := s[i := b];
    BootBlockExactly(s);
    BootBlockExactly(t);
    if i < 252 {
      assert t[..252] == s[..252][i := b];
      Crc.ByteChangeDetected(s[..252], i, b);
      LeU32Digits(s[252], s[253], s[254], s[255], Crc.Crc32(s[..252]));
      LeU32Digits(s[252], s[253], s[254], s[255], Crc.Crc32(t[..252]));
    } else {
      assert t[..252] == s[..252];
    }
  }
}
