/** The programs that carry out a firmware update: the bootloader (fruitchip-fw-bootloader/src/main.c) and the
    menu's update writer (fruitchip-menu/src/scene/settings/update/writing.c) with the flash effects of the two
    commands it sends (fruitchip-fw/src/boot_rom/write/flash.c). */
module Bootloader {
  import opened Bits
  import opened SectorFlash
  import opened Update
  import Crc

  /** The flash chip. `ops` records every sector operation since `origin`. */
  class FlashChip {
    const sectors: array<Sector>
    ghost const origin: Flash
    ghost var ops: seq<SectorOp>

    ghost predicate Valid()
      reads this, sectors
    {
      sectors.Length == FLASH_SECTORS && View() == ApplyAll(origin, ops)
    }

    ghost function View(): Flash
      requires sectors.Length == FLASH_SECTORS
      reads this, sectors
    {
      sectors[..]
    }

    constructor (sectors: array<Sector>)
      requires sectors.Length == FLASH_SECTORS
      ensures Valid() && this.sectors == sectors && ops == []
    {
      this.sectors, origin, ops := sectors, sectors[..], [];
    }

    /** `flash_range_erase` of one sector; offsets behind the chip's end have no effect. */
    method EraseOne(sector: nat)
      requires Valid()
      modifies this`ops, sectors
      ensures Valid() && ops == old(ops) + [Erase(sector)]
      ensures View() == if sector < FLASH_SECTORS then old(View())[sector := ERASED] else old(View())
    {
      hide ApplyAll;
      ghost var f := View();
      if sector < FLASH_SECTORS {
        sectors[sector] := ERASED;
      }
      Concatenation(origin, ops, [Erase(sector)]);
      ApplyOne(f, Erase(sector));
      ops := ops + [Erase(sector)];
    }

    /** `flash_range_program` of one sector: it can only clear bits. */
    method ProgramOne(sector: nat, data: Sector)
      requires Valid()
      modifies this`ops, sectors
      ensures Valid() && ops == old(ops) + [Program(sector, data)]
      ensures View() == if sector < FLASH_SECTORS then old(View())[sector := ProgramOver(old(View())[sector], data)] else old(View())
    {
      hide ApplyAll, ProgramOver;
      ghost var f := View();
      if sector < FLASH_SECTORS {
        sectors[sector] := ProgramOver(sectors[sector], data);
      }
      Concatenation(origin, ops, [Program(sector, data)]);
      ApplyOne(f, Program(sector, data));
      ops := ops + [Program(sector, data)];
    }

    /** Erase and program, unless the sector holds the data already. */
    method ReplaceSector(sector: nat, data: Sector) returns (wrote: bool)
      requires Valid() && sector < FLASH_SECTORS
      modifies this`ops, sectors
      ensures Valid() && ops == old(ops) + Replace(old(View()), sector, data)
      ensures View() == old(View())[sector := data]
      ensures wrote <==> old(View())[sector] != data
    {
      hide ApplyAll, ProgramOver;
      wrote := sectors[sector] != data;
      if wrote {
        EraseOne(sector);
        ProgramErased(data);
        ProgramOne(sector, data);
      }
    }
  }

  /** What has happened since `f` accounts for the flash as it is now. */
  lemma HistorySplits(origin: Flash, before: seq<SectorOp>, f: Flash, more: seq<SectorOp>, ops: seq<SectorOp>, g: Flash)
    requires f == ApplyAll(origin, before) && g == ApplyAll(origin, ops) && ops == before + more
    ensures g == ApplyAll(f, more)
  {
    hide ApplyAll;
    Concatenation(origin, before, more);
  }

  lemma ApplyOne(f: Flash, op: SectorOp)
    ensures ApplyAll(f, [op]) == Apply(f, op)
  {
    assert [op][1..] == [];
  }

  class Bootloader {
    const chip: FlashChip
    var copiedSectors: nat
    var skippedSectors: nat

    constructor (chip: FlashChip)
      ensures this.chip == chip
    {
      this.chip, copiedSectors, skippedSectors := chip, 0, 0;
    }

    /** The checksum of the first 252 bytes against the word behind them. The table-driven program stands for the
        checksum unit of the DMA controller, which divides by the same polynomial from the same start value. */
    method IsBlockValid(first: nat) returns (valid: bool)
      requires chip.Valid() && first < FLASH_SECTORS
      ensures valid <==> BootBlockValid(chip.View()[first])
      ensures var s := chip.View()[first];
              var crc := Crc.Crc32(s[..252]);
              valid <==> && s[252] == crc % 0x100 && s[253] == crc / 0x100 % 0x100
                         && s[254] == crc / 0x1_0000 % 0x100 && s[255] == crc / 0x100_0000
    {
      hide Crc.Crc32, ApplyAll, LeU32;
      var block := chip.sectors[first];
      var data := new byte[252](i requires 0 <= i < 252 => block[i]);
      assert data[..252] == block[..252];
      var crc := Crc.Crc32Table(data, 252);
      var stored := LeU32(block[0xfc], block[0xfd], block[0xfe], block[0xff]);
      valid := crc.bits as nat == stored;
      BootBlockExactly(block);
    }

    method IsFwValid() returns (valid: bool)
      requires chip.Valid()
      ensures valid <==> FwValid(chip.View())
      ensures valid <==> BootBlockValid(chip.View()[FW_FIRST])
    {
      hide BootBlockValid, ApplyAll;
      valid := IsBlockValid(FW_FIRST);
    }

    method IsUpdateValid() returns (valid: bool)
      requires chip.Valid()
      ensures valid <==> UpdValid(chip.View())
      ensures valid <==> BootBlockValid(chip.View()[UPDATE_FIRST])
    {
      hide BootBlockValid, ApplyAll;
      valid := IsBlockValid(UPDATE_FIRST);
    }

    method TryUpdateFirmware()
      requires chip.Valid()
      modifies this`copiedSectors, this`skippedSectors, chip`ops, chip.sectors
      ensures chip.Valid()
      ensures chip.ops == old(chip.ops) + if UpdValid(old(chip.View())) then UpdateOps(old(chip.View())) else []
      ensures UpdValid(old(chip.View())) ==>
                && Fw(chip.View()) == Upd(old(chip.View()))
                && copiedSectors == 1 + Differing(old(chip.View()), FW_COUNT) && copiedSectors + skippedSectors == FW_COUNT
      ensures !UpdValid(old(chip.View())) ==> chip.View() == old(chip.View())
    {
      hide ApplyAll, ProgramOver, BootBlockValid, Replace, CopyOps, Copying, Fw, Upd;
      ghost var f, ops := chip.View(), chip.ops;
      var isUpdateOk := IsUpdateValid();
      if !isUpdateOk {
        return;
      }
      chip.EraseOne(FW_FIRST);
      CopyingStarts(f);
      copiedSectors, skippedSectors := 0, 0;
      var i := 1;
      ghost var done: seq<SectorOp> := [];
      while i < FW_COUNT
        invariant 1 <= i <= FW_COUNT && chip.Valid()
        invariant chip.ops == ops + [Erase(FW_FIRST)] + done && CopyOps(f, 1) == done + CopyOps(f, i)
        invariant Copying(f, chip.View(), i)
        invariant copiedSectors == Differing(f, i) && copiedSectors + skippedSectors == i - 1
      {
        CopyingStep(f, chip.View(), i);
        NextCopyOps(f, done, i);
        NextDiffering(f, chip.View(), i);
        var wrote := chip.ReplaceSector(FW_FIRST + i, chip.sectors[UPDATE_FIRST + i]);
        done := done + Replace(f, FW_FIRST + i, f[UPDATE_FIRST + i]);
        if wrote {
          copiedSectors := copiedSectors + 1;
        } else {
          skippedSectors := skippedSectors + 1;
        }
        i := i + 1;
      }
      CopyingEnds(f, chip.View());
      ProgramErased(chip.sectors[UPDATE_FIRST]);
      chip.ProgramOne(FW_FIRST, chip.sectors[UPDATE_FIRST]);
      AllCopyOps(f, ops, done, chip.ops);
      copiedSectors := copiedSectors + 1;
    }

    /** Power-on: update if asked to or if the firmware is broken, then start the firmware if it is valid.
        `updateRequested` is whether the watchdog scratch register holds the update magic. */
    method Run(updateRequested: bool) returns (started: bool)
      requires chip.Valid()
      modifies this`copiedSectors, this`skippedSectors, chip`ops, chip.sectors
      ensures chip.Valid()
      ensures chip.ops == old(chip.ops) + BootOps(old(chip.View()), updateRequested)
      ensures chip.View() == ApplyAll(old(chip.View()), BootOps(old(chip.View()), updateRequested))
      ensures (FwValid(old(chip.View())) && !updateRequested) || !UpdValid(old(chip.View())) ==>
                chip.ops == old(chip.ops) && chip.View() == old(chip.View())
      ensures UpdValid(old(chip.View())) && (updateRequested || !FwValid(old(chip.View()))) ==>
                && Fw(chip.View()) == Upd(old(chip.View()))
                && forall j :: 0 <= j < FLASH_SECTORS && !(FW_FIRST <= j < FW_FIRST + FW_COUNT) ==>
                     chip.View()[j] == old(chip.View())[j]
      ensures started <==> FwValid(chip.View())
      ensures forall images :: Safe(old(chip.View()), images) ==> started && Holds(Fw(chip.View()), images)
    {
      hide UpdateOps, ApplyAll, BootBlockValid, Holds, Safe;
      ghost var f, ops := chip.View(), chip.ops;
      var isFwOk := IsFwValid();
      if updateRequested || !isFwOk {
        TryUpdateFirmware();
      }
      assert chip.ops == ops + BootOps(f, updateRequested);
      started := IsFwValid();
      HistorySplits(chip.origin, ops, f, BootOps(f, updateRequested), chip.ops, chip.View());
      BootDecision(f, updateRequested);
      forall images | Safe(f, images)
        ensures started && Holds(Fw(chip.View()), images)
      {
        OneFullBootStarts(f, updateRequested, images);
      }
    }
  }

  /** How many of the sectors 1 to `n` - 1 differ between firmware and update. */
  function Differing(f: Flash, n: nat): nat
    requires n <= FW_COUNT
  {
    if n <= 1 then 0 else Differing(f, n - 1) + if Fw(f)[n - 1] != Upd(f)[n - 1] then 1 else 0
  }

  lemma NextDiffering(f: Flash, g: Flash, i: nat)
    requires 1 <= i < FW_COUNT && Copying(f, g, i)
    ensures Differing(f, i + 1) == Differing(f, i) + if g[FW_FIRST + i] != g[UPDATE_FIRST + i] then 1 else 0
  {
    assert g[FW_FIRST + i] == Fw(g)[i] == Fw(f)[i] && g[UPDATE_FIRST + i] == Upd(g)[i] == Upd(f)[i];
  }

  /** The state of the copy before sector `i`, having started from `f`. */
  predicate Copying(f: Flash, g: Flash, i: nat)
  {
    && g[FW_FIRST] == ERASED && Upd(g) == Upd(f)
    && (forall j :: i <= j < FW_COUNT ==> Fw(g)[j] == Fw(f)[j])
    && (forall j :: 1 <= j < i && j < FW_COUNT ==> Fw(g)[j] == Upd(f)[j])
  }

  lemma NextCopyOps(f: Flash, done: seq<SectorOp>, i: nat)
    requires i < FW_COUNT && CopyOps(f, 1) == done + CopyOps(f, i)
    ensures CopyOps(f, 1) == (done + Replace(f, FW_FIRST + i, f[UPDATE_FIRST + i])) + CopyOps(f, i + 1)
  {
    hide Replace;
  }

  lemma AllCopyOps(f: Flash, ops: seq<SectorOp>, done: seq<SectorOp>, all: seq<SectorOp>)
    requires CopyOps(f, 1) == done + CopyOps(f, FW_COUNT)
    requires all == ops + [Erase(FW_FIRST)] + done + [Program(FW_FIRST, f[UPDATE_FIRST])]
    ensures all == ops + UpdateOps(f)
  {
    hide CopyOps, Replace;
    NoMoreCopyOps(f, FW_COUNT);
    assert done + [] == done;
  }

  lemma NoMoreCopyOps(f: Flash, i: nat)
    requires i >= FW_COUNT
    ensures CopyOps(f, i) == []
  {
  }

  lemma CopyingStarts(f: Flash)
    ensures Copying(f, f[FW_FIRST := ERASED], 1)
  {
    var g := f[FW_FIRST := ERASED];
    assert forall j :: 1 <= j < FW_COUNT ==> Fw(g)[j] == Fw(f)[j];
  }

  lemma CopyingStep(f: Flash, g: Flash, i: nat)
    requires 1 <= i < FW_COUNT && Copying(f, g, i)
    ensures Replace(g, FW_FIRST + i, g[UPDATE_FIRST + i]) == Replace(f, FW_FIRST + i, f[UPDATE_FIRST + i])
    ensures Copying(f, g[FW_FIRST + i := g[UPDATE_FIRST + i]], i + 1)
  {
    assert g[FW_FIRST + i] == Fw(g)[i] == Fw(f)[i] == f[FW_FIRST + i];
    assert g[UPDATE_FIRST + i] == Upd(g)[i] == Upd(f)[i] == f[UPDATE_FIRST + i];
    OtherSectors(g, g[FW_FIRST + i := g[UPDATE_FIRST + i]], i);
  }

  lemma CopyingEnds(f: Flash, g: Flash)
    requires Copying(f, g, FW_COUNT)
    ensures g[UPDATE_FIRST] == f[UPDATE_FIRST] && g[FW_FIRST] == ERASED
    ensures Fw(g[FW_FIRST := g[UPDATE_FIRST]]) == Upd(f)
  {
    var h := g[FW_FIRST := g[UPDATE_FIRST]];
    assert g[UPDATE_FIRST] == Upd(g)[0] == Upd(f)[0] == f[UPDATE_FIRST];
    forall j | 0 <= j < FW_COUNT
      ensures Fw(h)[j] == Upd(f)[j]
    {
      if j > 0 {
        assert Fw(h)[j] == Fw(g)[j];
      }
    }
  }

  /** The state of a menu session before sector `i`. */
  predicate MenuCopying(f: Flash, g: Flash, p: nat, image: seq<Sector>, i: nat)
  {
    && g[WritableFirst(p)] == ERASED
    && (forall j :: i <= j < WritableCount(p) ==> Part(g, p)[j] == Part(f, p)[j])
    && (forall j :: 1 <= j < i && j < WritableCount(p) && j < |image| ==> Part(g, p)[j] == image[j])
  }

  lemma MenuCopyingStarts(f: Flash, p: nat, image: seq<Sector>)
    ensures MenuCopying(f, f[WritableFirst(p) := ERASED], p, image, 1)
  {
    PartSector(f, f[WritableFirst(p) := ERASED], p, 0);
  }

  lemma MenuCopyingStep(f: Flash, g: Flash, p: nat, image: seq<Sector>, i: nat)
    requires 1 <= i < |image| && i < WritableCount(p) && MenuCopying(f, g, p, image, i)
    ensures Replace(g, WritableFirst(p) + i, image[i]) == Replace(f, WritableFirst(p) + i, image[i])
    ensures MenuCopying(f, g[WritableFirst(p) + i := image[i]], p, image, i + 1)
  {
    var h := g[WritableFirst(p) + i := image[i]];
    assert g[WritableFirst(p) + i] == Part(g, p)[i] == Part(f, p)[i] == f[WritableFirst(p) + i];
    PartSector(g, h, p, i);
  }

  lemma MenuCopyingEnds(f: Flash, g: Flash, p: nat, image: seq<Sector>)
    requires 0 < |image| < WritableCount(p) && MenuCopying(f, g, p, image, |image|)
    ensures Replace(g, WritableFirst(p), image[0]) == Replace(f[WritableFirst(p) := ERASED], WritableFirst(p), image[0])
    ensures image <= Part(g[WritableFirst(p) := image[0]], p)
  {
    PartSector(g, g[WritableFirst(p) := image[0]], p, 0);
  }

  lemma NextMenuCopyOps(f: Flash, p: nat, image: seq<Sector>, done: seq<SectorOp>, i: nat)
    requires i < |image| && Accepted(p, i) && MenuCopyOps(f, p, image, 1) == done + MenuCopyOps(f, p, image, i)
    ensures MenuCopyOps(f, p, image, 1)
         == (done + Replace(f, WritableFirst(p) + i, image[i])) + MenuCopyOps(f, p, image, i + 1)
  {
    hide Replace;
  }

  lemma NoMoreMenuCopyOps(f: Flash, p: nat, image: seq<Sector>, i: nat)
    requires i >= |image| || !Accepted(p, i)
    ensures MenuCopyOps(f, p, image, i) == []
  {
  }

  lemma MenuGaveUp(f: Flash, p: nat, image: seq<Sector>, ops: seq<SectorOp>, done: seq<SectorOp>, all: seq<SectorOp>)
    requires |image| >= WritableCount(p) && MenuCopyOps(f, p, image, 1) == done + []
    requires all == ops + MenuEraseOps(f, p) + done
    ensures all == ops + MenuOps(f, p, image)
  {
    hide MenuCopyOps;
  }

  lemma MenuFinished(f: Flash, p: nat, image: seq<Sector>, ops: seq<SectorOp>, done: seq<SectorOp>, all: seq<SectorOp>)
    requires 0 < |image| < WritableCount(p) && MenuCopyOps(f, p, image, 1) == done + []
    requires all == ops + MenuEraseOps(f, p) + done + Replace(f[WritableFirst(p) := ERASED], WritableFirst(p), image[0])
    ensures all == ops + MenuOps(f, p, image)
  {
    hide MenuCopyOps, Replace;
  }

  // ----- The menu

  /** Sector `i` of the memory that holds the update image. */
  function ImageSector(memory: seq<byte>, i: nat): Sector
    requires (i + 1) * SECTOR_SIZE <= |memory|
  {
    memory[i * SECTOR_SIZE..(i + 1) * SECTOR_SIZE]
  }

  /** How many sectors an image of `size` bytes takes; the first one is always written. */
  function SectorsFor(size: nat): (n: nat)
    ensures n >= 1 && n * SECTOR_SIZE >= size && (n > 1 ==> (n - 1) * SECTOR_SIZE < size)
  {
    if size <= SECTOR_SIZE then 1 else (size + SECTOR_SIZE - 1) / SECTOR_SIZE
  }

  /** The image as it will be written. The last sector is copied whole, so what follows `size` in memory is
      written too: the 0xFF padding does not survive the copy. */
  function ImageSectors(memory: seq<byte>, count: nat): (image: seq<Sector>)
    requires count * SECTOR_SIZE <= |memory|
    ensures |image| == count
  {
    seq(count, i requires 0 <= i < count => ImageSector(memory, i))
  }

  /** In the partition that the menu writes, the commands address sector `i` as the power-fail argument assumes. */
  lemma MenuSector(f: Flash, p: nat, i: nat, data: Sector)
    requires Writable(p) && i < WritableCount(p)
    ensures SectorAccepted(p, i) <==> Accepted(p, i)
    ensures Target(p, i) == WritableFirst(p) + i
    ensures WriteOps(f, WritableFirst(p) + i, data) == Replace(f, WritableFirst(p) + i, data)
    ensures EraseOps(f, WritableFirst(p), 1) == MenuEraseOps(f, p)
  {
    hide Replace;
    TargetOf(p, i);
    assert EraseRange(WritableFirst(p), 1) == [Erase(WritableFirst(p))];
  }

  class UpdateWriter {
    const chip: FlashChip

    constructor (chip: FlashChip)
      ensures this.chip == chip
    {
      this.chip := chip;
    }

    /** The bounds check and the sector addressed, in the 32-bit arithmetic of the commands. */
    method Locate(partition: nat, sectorIdx: u32) returns (ok: bool, target: nat)
      ensures ok == SectorAccepted(partition, sectorIdx)
      ensures ok ==> target == Target(partition, sectorIdx)
    {
      hide Target;
      var flashOffset := 0;
      ok, target := false, 0;
      var offset := sectorIdx * SECTOR_SIZE % TWO_32;
      OffsetIsTarget(partition, sectorIdx);
      match partition {
        case 1 =>
          flashOffset := (UPDATE_FIRST * SECTOR_SIZE + offset) % TWO_32;
          ok := (flashOffset + SECTOR_SIZE) % TWO_32 < UPDATE_FIRST * SECTOR_SIZE + FW_COUNT * SECTOR_SIZE;
        case 2 =>
          flashOffset := (APPS_FIRST * SECTOR_SIZE + offset) % TWO_32;
          ok := (flashOffset + SECTOR_SIZE) % TWO_32 < APPS_FIRST * SECTOR_SIZE + APPS_COUNT * SECTOR_SIZE;
        case _ =>
      }
      target := flashOffset / SECTOR_SIZE;
    }

    /** The erase command for one sector. */
    method EraseCommand(partition: nat, sectorIdx: u32) returns (ok: bool)
      requires chip.Valid()
      modifies chip`ops, chip.sectors
      ensures chip.Valid() && ok == SectorAccepted(partition, sectorIdx)
      ensures !ok ==> chip.ops == old(chip.ops) && chip.View() == old(chip.View())
      ensures var t := Target(partition, sectorIdx);
              ok ==>
                && chip.ops == old(chip.ops) + EraseOps(old(chip.View()), t, 1)
                && chip.View() == if t < FLASH_SECTORS then old(chip.View())[t := ERASED] else old(chip.View())
    {
      hide Target, SectorAccepted, ApplyAll;
      var target;
      ok, target := Locate(partition, sectorIdx);
      if ok && (target >= FLASH_SECTORS || chip.sectors[target] != ERASED) {
        assert EraseRange(target, 1) == [Erase(target)];
        chip.EraseOne(target);
      }
    }

    /** The write command for one sector. */
    method WriteCommand(partition: nat, sectorIdx: u32, data: Sector) returns (ok: bool)
      requires chip.Valid()
      modifies chip`ops, chip.sectors
      ensures chip.Valid() && ok == SectorAccepted(partition, sectorIdx)
      ensures !ok ==> chip.ops == old(chip.ops) && chip.View() == old(chip.View())
      ensures var t := Target(partition, sectorIdx);
              ok ==>
                && chip.ops == old(chip.ops) + WriteOps(old(chip.View()), t, data)
                && chip.View() == if t < FLASH_SECTORS then old(chip.View())[t := data] else old(chip.View())
    {
      hide Target, SectorAccepted, ApplyAll, ProgramOver;
      var target;
      ok, target := Locate(partition, sectorIdx);
      if ok && target < FLASH_SECTORS {
        var _ := chip.ReplaceSector(target, data);
      } else if ok {
        chip.EraseOne(target);
        chip.ProgramOne(target, data);
      }
    }

    method WriteUpdateSector(partition: nat, memory: seq<byte>, offset: u32, size: nat) returns (ok: bool)
      requires chip.Valid()
      requires offset % SECTOR_SIZE == 0 && (offset / SECTOR_SIZE + 1) * SECTOR_SIZE <= |memory|
      modifies chip`ops, chip.sectors
      ensures chip.Valid() && ok == SectorAccepted(partition, offset / SECTOR_SIZE)
      ensures !ok ==> chip.ops == old(chip.ops) && chip.View() == old(chip.View())
      ensures var t, data := Target(partition, offset / SECTOR_SIZE), ImageSector(memory, offset / SECTOR_SIZE);
              ok ==>
                && chip.ops == old(chip.ops) + WriteOps(old(chip.View()), t, data)
                && chip.View() == if t < FLASH_SECTORS then old(chip.View())[t := data] else old(chip.View())
    {
      hide Target, SectorAccepted, ApplyAll, ProgramOver, WriteOps;
      var sector := new byte[SECTOR_SIZE](_ => 0);
      if size < offset + SECTOR_SIZE {
        forall i | 0 <= i < SECTOR_SIZE {
          sector[i] := 0xFF;
        }
      }
      forall i | 0 <= i < SECTOR_SIZE {
        sector[i] := memory[offset + i];
      }
      assert sector[..] == ImageSector(memory, offset / SECTOR_SIZE);
      ok := WriteCommand(partition, offset / SECTOR_SIZE, sector[..]);
    }

    /** Erase the first sector, write the others in order, write the first one last; stop at the first refusal. */
    method Write(p: nat, memory: seq<byte>, size: nat) returns (ok: bool)
      requires chip.Valid() && Writable(p) && SectorsFor(size) * SECTOR_SIZE <= |memory|
      modifies chip`ops, chip.sectors
      ensures chip.Valid()
      ensures chip.ops == old(chip.ops) + MenuOps(old(chip.View()), p, ImageSectors(memory, SectorsFor(size)))
      ensures ok <==> SectorsFor(size) < WritableCount(p)
      ensures ok ==> ImageSectors(memory, SectorsFor(size)) <= Part(chip.View(), p)
    {
      hide Replace, ApplyAll, MenuCopying, MenuCopyOps, Part, WritableFirst, WritableCount, ImageSector, Target, SectorAccepted, WriteOps, EraseOps, MenuEraseOps;
      var image := ImageSectors(memory, SectorsFor(size));
      ghost var f, ops := chip.View(), chip.ops;
      MenuSector(f, p, 0, ERASED);
      ok := EraseCommand(p, 0);
      MenuCopyingStarts(f, p, image);
      ghost var done: seq<SectorOp> := [];
      var i, currentOffset := 1, SECTOR_SIZE;
      while currentOffset < size
        invariant 1 <= i <= |image| && currentOffset == i * SECTOR_SIZE && i < WritableCount(p)
        invariant chip.Valid() && ok
        invariant chip.ops == ops + MenuEraseOps(f, p) + done && MenuCopyOps(f, p, image, 1) == done + MenuCopyOps(f, p, image, i)
        invariant MenuCopying(f, chip.View(), p, image, i)
        decreases size - currentOffset
      {
        MenuCopyingStep(f, chip.View(), p, image, i);
        MenuSector(chip.View(), p, i, image[i]);
        ok := WriteUpdateSector(p, memory, currentOffset, size);
        if !ok {
          NoMoreMenuCopyOps(f, p, image, i);
          MenuGaveUp(f, p, image, ops, done, chip.ops);
          return;
        }
        NextMenuCopyOps(f, p, image, done, i);
        done := done + Replace(f, WritableFirst(p) + i, image[i]);
        i, currentOffset := i + 1, currentOffset + SECTOR_SIZE;
      }
      assert i == |image|;
      NoMoreMenuCopyOps(f, p, image, i);
      MenuCopyingEnds(f, chip.View(), p, image);
      MenuSector(chip.View(), p, 0, image[0]);
      ok := WriteUpdateSector(p, memory, 0, size);
      MenuFinished(f, p, image, ops, done, chip.ops);
    }
  }

  /** Byte `k` of a partition. */
  function PartitionByte(p: seq<Sector>, k: nat): byte
    requires k < |p| * SECTOR_SIZE
  {
    p[k / SECTOR_SIZE][k % SECTOR_SIZE]
  }

  /** A written image is the image, byte for byte, below its size. */
  lemma WrittenBytes(memory: seq<byte>, size: nat, p: seq<Sector>, k: nat)
    requires SectorsFor(size) * SECTOR_SIZE <= |memory| && k < size
    requires ImageSectors(memory, SectorsFor(size)) <= p
    ensures k < |p| * SECTOR_SIZE && PartitionByte(p, k) == memory[k]
  {
    var i := k / SECTOR_SIZE;
    assert i < SectorsFor(size);
    assert p[i] == ImageSectors(memory, SectorsFor(size))[i] == ImageSector(memory, i);
  }
}
