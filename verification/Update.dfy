/** The power-fail-safe firmware update: the menu writes the image to the update partition, first sector last
    (fruitchip-menu/src/scene/settings/update/writing.c), and the bootloader copies that partition over the
    firmware in the same order (fruitchip-fw-bootloader/src/main.c). */
module Update {
  import opened SectorFlash
  import opened ErasedBlock

  function Fw(f: Flash): (p: seq<Sector>)
    ensures |p| == FW_COUNT
  {
    f[FW_FIRST..FW_FIRST + FW_COUNT]
  }

  /** A partition that the menu can write. */
  function Part(f: Flash, p: nat): (sectors: seq<Sector>)
    ensures |sectors| == WritableCount(p)
  {
    f[WritableFirst(p)..WritableFirst(p) + WritableCount(p)]
  }

  function Upd(f: Flash): (p: seq<Sector>)
    ensures |p| == FW_COUNT
  {
    Part(f, PARTITION_FW_UPDATE)
  }

  predicate FwValid(f: Flash)
  {
    BootBlockValid(f[FW_FIRST])
  }

  predicate UpdValid(f: Flash)
  {
    BootBlockValid(f[UPDATE_FIRST])
  }

  // ----- The bootloader's sector operations

  /** Copying from sector `i` of the partition on; sectors that are equal already are skipped. */
  function CopyOps(f: Flash, i: nat): seq<SectorOp>
    decreases FW_COUNT - i
  {
    if i >= FW_COUNT then []
    else Replace(f, FW_FIRST + i, f[UPDATE_FIRST + i]) + CopyOps(f, i + 1)
  }

  /** `try_update_firmware` with a valid update: break the firmware, copy the rest, restore the first sector. */
  function UpdateOps(f: Flash): seq<SectorOp>
  {
    [Erase(FW_FIRST)] + CopyOps(f, 1) + [Program(FW_FIRST, f[UPDATE_FIRST])]
  }

  function BootOps(f: Flash, requested: bool): seq<SectorOp>
  {
    if (requested || !FwValid(f)) && UpdValid(f) then UpdateOps(f) else []
  }

  lemma {:induction false} CopyOpsFrame(f: Flash, g: Flash, i: nat)
    requires forall j :: i <= j < FW_COUNT ==> Fw(g)[j] == Fw(f)[j] && Upd(g)[j] == Upd(f)[j]
    ensures CopyOps(g, i) == CopyOps(f, i)
    decreases FW_COUNT - i
  {
    if i < FW_COUNT {
      assert Fw(g)[i] == Fw(f)[i] && Upd(g)[i] == Upd(f)[i];
      CopyOpsFrame(f, g, i + 1);
    }
  }

  /** `g` lies between `f` and the finished copy: nothing outside the firmware from sector `from` on has changed,
      and no sector that was equal to the update has been disturbed. */
  predicate Between(f: Flash, g: Flash, from: nat)
  {
    && (forall j :: 0 <= j < FLASH_SECTORS && !(FW_FIRST + from <= j < FW_FIRST + FW_COUNT) ==> g[j] == f[j])
    && (forall j :: from <= j < FW_COUNT && Fw(f)[j] == Upd(f)[j] ==> Fw(g)[j] == Fw(f)[j])
  }

  lemma {:induction false} CutCopy(f: Flash, i: nat, k: nat)
    requires 1 <= i <= FW_COUNT && k <= |CopyOps(f, i)|
    ensures Disciplined(f, CopyOps(f, i))
    ensures var g := ApplyAll(f, CopyOps(f, i)[..k]);
            && Between(f, g, i)
            && (k == |CopyOps(f, i)| ==> forall j :: i <= j < FW_COUNT ==> Fw(g)[j] == Upd(f)[j])
    decreases FW_COUNT - i
  {
    hide Replace, ApplyAll, Disciplined, Between;
    var ops := CopyOps(f, i);
    if i == FW_COUNT {
      NoOps(f);
      assert ops[..k] == [];
      BetweenSame(f, i);
    } else {
      var first, rest := Replace(f, FW_FIRST + i, f[UPDATE_FIRST + i]), CopyOps(f, i + 1);
      ReplaceStores(f, FW_FIRST + i, f[UPDATE_FIRST + i]);
      var h := f[FW_FIRST + i := f[UPDATE_FIRST + i]];
      OtherSectors(f, h, i);
      CopyOpsFrame(f, h, i + 1);
      Concatenation(f, first, rest);
      CutCopy(h, i + 1, 0);
      if k < |first| {
        assert ops[..k] == first[..k];
        CutReplace(f, FW_FIRST + i, f[UPDATE_FIRST + i], k);
        BetweenBroken(f, ApplyAll(f, ops[..k]), i);
      } else {
        assert ops[..k] == first + rest[..k - |first|];
        Concatenation(f, first, rest[..k - |first|]);
        CutCopy(h, i + 1, k - |first|);
        BetweenNext(f, h, ApplyAll(h, rest[..k - |first|]), i);
      }
    }
  }

  lemma OtherSectors(f: Flash, h: Flash, i: nat)
    requires i < FW_COUNT && h == f[FW_FIRST + i := f[UPDATE_FIRST + i]]
    ensures Upd(h) == Upd(f)
    ensures forall j :: 0 <= j < FW_COUNT && j != i ==> Fw(h)[j] == Fw(f)[j]
    ensures Fw(h)[i] == Upd(f)[i]
  {
  }

  lemma BetweenSame(f: Flash, i: nat)
    ensures Between(f, f, i)
  {
  }

  lemma BetweenBroken(f: Flash, g: Flash, i: nat)
    requires i < FW_COUNT && (g == f || (g == f[FW_FIRST + i := ERASED] && f[FW_FIRST + i] != f[UPDATE_FIRST + i]))
    ensures Between(f, g, i)
  {
  }

  lemma BetweenNext(f: Flash, h: Flash, g: Flash, i: nat)
    requires i < FW_COUNT && h == f[FW_FIRST + i := f[UPDATE_FIRST + i]] && Between(h, g, i + 1)
    ensures Between(f, g, i) && Fw(g)[i] == Upd(f)[i]
  {
    OtherSectors(f, h, i);
    assert g[FW_FIRST + i] == h[FW_FIRST + i];
    forall j | i <= j < FW_COUNT && Fw(f)[j] == Upd(f)[j]
      ensures Fw(g)[j] == Fw(f)[j]
    {
      if j != i {
        assert Fw(h)[j] == Upd(h)[j];
      }
    }
  }

  /** Main result on the bootloader: cut after any number of sector operations, an update leaves everything
      outside the firmware alone and keeps every sector that was already copied; while it is unfinished the first
      firmware sector is erased, and when it is finished the firmware equals the update in every sector. Every
      program hits an erased sector. */
  lemma CutUpdate(f: Flash, k: nat)
    requires k <= |UpdateOps(f)|
    ensures Disciplined(f, UpdateOps(f))
    ensures var g := ApplyAll(f, UpdateOps(f)[..k]);
            && (forall j :: 0 <= j < FLASH_SECTORS && !(FW_FIRST <= j < FW_FIRST + FW_COUNT) ==> g[j] == f[j])
            && (forall j :: 1 <= j < FW_COUNT && Fw(f)[j] == Upd(f)[j] ==> Fw(g)[j] == Upd(g)[j])
            && (k == 0 ==> g == f)
            && (0 < k < |UpdateOps(f)| ==> g[FW_FIRST] == ERASED)
            && (k == |UpdateOps(f)| ==> Fw(g) == Upd(f) == Upd(g))
  {
    hide Replace, ApplyAll, Disciplined, CopyOps;
    var copy, last := CopyOps(f, 1), [Program(FW_FIRST, f[UPDATE_FIRST])];
    var h := f[FW_FIRST := ERASED];
    FirstErase(f);
    assert Upd(h) == Upd(f) && forall j :: 1 <= j < FW_COUNT ==> Fw(h)[j] == Fw(f)[j];
    CopyOpsFrame(f, h, 1);
    Concatenation(f, [Erase(FW_FIRST)], copy);
    Concatenation(f, [Erase(FW_FIRST)] + copy, last);
    CutCopy(h, 1, |copy|);
    assert copy[..|copy|] == copy;
    var done := ApplyAll(h, copy);
    LastProgram(done, f[UPDATE_FIRST]);
    if k == 0 {
      NoOps(f);
      assert UpdateOps(f)[..0] == [];
    } else if k < |UpdateOps(f)| {
      assert UpdateOps(f)[..k] == [Erase(FW_FIRST)] + copy[..k - 1];
      Concatenation(f, [Erase(FW_FIRST)], copy[..k - 1]);
      CutCopy(h, 1, k - 1);
      KeptSectors(f, h, ApplyAll(h, copy[..k - 1]));
    } else {
      assert UpdateOps(f)[..k] == [Erase(FW_FIRST)] + copy + last;
      FinishedCopy(f, h, done);
    }
  }

  lemma KeptSectors(f: Flash, h: Flash, g: Flash)
    requires h == f[FW_FIRST := ERASED] && Between(h, g, 1)
    ensures g[FW_FIRST] == ERASED
    ensures forall j :: 0 <= j < FLASH_SECTORS && !(FW_FIRST <= j < FW_FIRST + FW_COUNT) ==> g[j] == f[j]
    ensures forall j :: 1 <= j < FW_COUNT && Fw(f)[j] == Upd(f)[j] ==> Fw(g)[j] == Upd(g)[j]
  {
    assert Upd(h) == Upd(f) && forall j :: 1 <= j < FW_COUNT ==> Fw(h)[j] == Fw(f)[j];
    assert forall j :: 0 <= j < FW_COUNT ==> Upd(g)[j] == g[UPDATE_FIRST + j] == Upd(h)[j];
    assert Upd(g) == Upd(f);
  }

  lemma FinishedCopy(f: Flash, h: Flash, done: Flash)
    requires h == f[FW_FIRST := ERASED] && Between(h, done, 1)
    requires forall j :: 1 <= j < FW_COUNT ==> Fw(done)[j] == Upd(h)[j]
    ensures var g := done[FW_FIRST := f[UPDATE_FIRST]];
            && Fw(g) == Upd(f) == Upd(g)
            && forall j :: 0 <= j < FLASH_SECTORS && !(FW_FIRST <= j < FW_FIRST + FW_COUNT) ==> g[j] == f[j]
  {
    var g := done[FW_FIRST := f[UPDATE_FIRST]];
    assert Upd(h) == Upd(f);
    assert Upd(g) == Upd(f);
    forall j | 0 <= j < FW_COUNT
      ensures Fw(g)[j] == Upd(f)[j]
    {
      if j > 0 {
        assert Fw(g)[j] == Fw(done)[j];
      }
    }
  }

  /** The flash after several interrupted attempts, each cut after some number of operations. */
  function Attempts(f: Flash, cuts: seq<nat>): Flash
    decreases |cuts|
  {
    if |cuts| == 0 then f else Attempts(ApplyAll(f, Truncate(UpdateOps(f), cuts[0])), cuts[1..])
  }

  /** Interrupted attempts add up: the sectors already equal to the update never become fewer, and the first
      attempt that is left to finish makes the firmware equal to the update everywhere. */
  lemma {:induction false} AttemptsConverge(f: Flash, cuts: seq<nat>)
    ensures var g := Attempts(f, cuts);
            && Upd(g) == Upd(f)
            && (forall j :: 1 <= j < FW_COUNT && Fw(f)[j] == Upd(f)[j] ==> Fw(g)[j] == Upd(g)[j])
            && Fw(ApplyAll(g, UpdateOps(g))) == Upd(f)
    decreases |cuts|
  {
    hide ApplyAll, UpdateOps;
    if |cuts| == 0 {
      CutUpdate(f, |UpdateOps(f)|);
      assert UpdateOps(f)[..|UpdateOps(f)|] == UpdateOps(f);
    } else {
      var ops := UpdateOps(f);
      TruncateIsPrefix(ops, cuts[0]);
      CutUpdate(f, if cuts[0] <= |ops| then cuts[0] else |ops|);
      var h := ApplyAll(f, Truncate(ops, cuts[0]));
      assert Upd(h) == Upd(f);
      AttemptsConverge(h, cuts[1..]);
    }
  }

  lemma FirstErase(f: Flash)
    ensures ApplyAll(f, [Erase(FW_FIRST)]) == f[FW_FIRST := ERASED] && Disciplined(f, [Erase(FW_FIRST)])
  {
    var ops := [Erase(FW_FIRST)];
    assert ops[1..] == [];
    NoOps(f[FW_FIRST := ERASED]);
  }

  lemma LastProgram(f: Flash, data: Sector)
    requires f[FW_FIRST] == ERASED
    ensures ApplyAll(f, [Program(FW_FIRST, data)]) == f[FW_FIRST := data] && Disciplined(f, [Program(FW_FIRST, data)])
  {
    hide ProgramOver;
    ProgramErased(data);
    var ops := [Program(FW_FIRST, data)];
    assert ops[1..] == [];
    NoOps(f[FW_FIRST := data]);
  }

  // ----- The menu's sector operations on the partition it writes

  /** The write and erase commands refuse a partition's last sector: their bound is strict. */
  predicate Accepted(p: nat, i: nat)
  {
    i + 1 < WritableCount(p)
  }

  function MenuCopyOps(f: Flash, p: nat, image: seq<Sector>, i: nat): seq<SectorOp>
    decreases |image| - i
  {
    if i >= |image| || !Accepted(p, i) then []
    else Replace(f, WritableFirst(p) + i, image[i]) + MenuCopyOps(f, p, image, i + 1)
  }

  /** Erasing the first sector is skipped when it is erased already. */
  function MenuEraseOps(f: Flash, p: nat): seq<SectorOp>
  {
    if f[WritableFirst(p)] == ERASED then [] else [Erase(WritableFirst(p))]
  }

  /** The whole session; if a sector was refused, the menu gives up before writing the first one. */
  function MenuOps(f: Flash, p: nat, image: seq<Sector>): seq<SectorOp>
    requires |image| > 0
  {
    MenuEraseOps(f, p) + MenuCopyOps(f, p, image, 1)
    + if |image| < WritableCount(p) then Replace(f[WritableFirst(p) := ERASED], WritableFirst(p), image[0]) else []
  }

  /** Only the partition from its sector `from` on may differ. */
  predicate OnlyPart(f: Flash, g: Flash, p: nat, from: nat)
  {
    forall j :: 0 <= j < FLASH_SECTORS && !(WritableFirst(p) + from <= j < WritableFirst(p) + WritableCount(p)) ==>
      g[j] == f[j]
  }

  lemma {:induction false} MenuCopyOpsFrame(f: Flash, g: Flash, p: nat, image: seq<Sector>, i: nat)
    requires forall j :: i <= j < WritableCount(p) ==> Part(g, p)[j] == Part(f, p)[j]
    ensures MenuCopyOps(g, p, image, i) == MenuCopyOps(f, p, image, i)
    decreases |image| - i
  {
    if i < |image| && Accepted(p, i) {
      assert Part(g, p)[i] == Part(f, p)[i];
      MenuCopyOpsFrame(f, g, p, image, i + 1);
    }
  }

  lemma {:induction false} CutMenuCopy(f: Flash, p: nat, image: seq<Sector>, i: nat, k: nat)
    requires i <= |image| && k <= |MenuCopyOps(f, p, image, i)|
    ensures Disciplined(f, MenuCopyOps(f, p, image, i))
    ensures var g := ApplyAll(f, MenuCopyOps(f, p, image, i)[..k]);
            && OnlyPart(f, g, p, i)
            && (k == |MenuCopyOps(f, p, image, i)| ==>
                  forall j :: i <= j < |image| && Accepted(p, j) ==> Part(g, p)[j] == image[j])
    decreases |image| - i
  {
    hide Replace, ApplyAll, Disciplined, OnlyPart, Part;
    var ops := MenuCopyOps(f, p, image, i);
    if i >= |image| || !Accepted(p, i) {
      NoOps(f);
      OnlyPartStep(f, f, f, p, i);
      assert ops[..k] == [];
    } else {
      var first, rest := Replace(f, WritableFirst(p) + i, image[i]), MenuCopyOps(f, p, image, i + 1);
      ReplaceStores(f, WritableFirst(p) + i, image[i]);
      var h := f[WritableFirst(p) + i := image[i]];
      PartSector(f, h, p, i);
      MenuCopyOpsFrame(f, h, p, image, i + 1);
      Concatenation(f, first, rest);
      CutMenuCopy(h, p, image, i + 1, |rest|);
      assert rest[..|rest|] == rest;
      if k < |first| {
        assert ops[..k] == first[..k];
        CutReplace(f, WritableFirst(p) + i, image[i], k);
        OnlyPartStep(f, ApplyAll(f, ops[..k]), f, p, i);
      } else {
        assert ops[..k] == first + rest[..k - |first|];
        Concatenation(f, first, rest[..k - |first|]);
        CutMenuCopy(h, p, image, i + 1, k - |first|);
        OnlyPartStep(f, h, ApplyAll(h, rest[..k - |first|]), p, i);
      }
    }
  }

  lemma PartSector(f: Flash, h: Flash, p: nat, i: nat)
    requires i < WritableCount(p) && forall j :: 0 <= j < FLASH_SECTORS && j != WritableFirst(p) + i ==> h[j] == f[j]
    ensures Part(h, p)[i] == h[WritableFirst(p) + i]
    ensures forall j :: 0 <= j < WritableCount(p) && j != i ==> Part(h, p)[j] == Part(f, p)[j]
  {
    forall j | 0 <= j < WritableCount(p) && j != i
      ensures Part(h, p)[j] == Part(f, p)[j]
    {
      assert Part(h, p)[j] == h[WritableFirst(p) + j] == f[WritableFirst(p) + j];
    }
  }

  /** A change of sector `i` followed by changes behind it. */
  lemma OnlyPartStep(f: Flash, h: Flash, g: Flash, p: nat, i: nat)
    requires forall j :: 0 <= j < FLASH_SECTORS && j != WritableFirst(p) + i ==> h[j] == f[j]
    ensures h == f || i < WritableCount(p) ==> OnlyPart(f, h, p, i)
    ensures i < WritableCount(p) && OnlyPart(h, g, p, i + 1) ==> OnlyPart(f, g, p, i) && Part(g, p)[i] == h[WritableFirst(p) + i]
  {
    if i < WritableCount(p) && OnlyPart(h, g, p, i + 1) {
      assert Part(g, p)[i] == g[WritableFirst(p) + i] == h[WritableFirst(p) + i];
    }
  }

  /** Main result on the menu writer: cut anywhere, it has touched only its partition, and that
      is either as it was, or invalid because its first sector is erased, or holds the whole image. */
  lemma CutMenu(f: Flash, p: nat, image: seq<Sector>, k: nat)
    requires |image| > 0 && k <= |MenuOps(f, p, image)|
    ensures Disciplined(f, MenuOps(f, p, image))
    ensures var g := ApplyAll(f, MenuOps(f, p, image)[..k]);
            && OnlyPart(f, g, p, 0)
            && (|| Part(g, p) == Part(f, p)
                || g[WritableFirst(p)] == ERASED
                || (|image| < WritableCount(p) && image <= Part(g, p)))
            && (k == |MenuOps(f, p, image)| && |image| < WritableCount(p) ==> image <= Part(g, p))
  {
    hide Replace, ApplyAll, Disciplined, MenuCopyOps;
    var erase, copy := MenuEraseOps(f, p), MenuCopyOps(f, p, image, 1);
    var h := f[WritableFirst(p) := ERASED];
    var last := if |image| < WritableCount(p) then Replace(h, WritableFirst(p), image[0]) else [];
    MenuErase(f, p);
    PartSector(f, h, p, 0);
    MenuCopyOpsFrame(f, h, p, image, 1);
    Concatenation(f, erase, copy);
    Concatenation(f, erase + copy, last);
    CutMenuCopy(h, p, image, 1, |copy|);
    assert copy[..|copy|] == copy;
    var done := ApplyAll(h, copy);
    var ops := MenuOps(f, p, image);
    assert ops == erase + copy + last;
    MenuLast(h, done, p, image);
    if k < |erase| {
      NoOps(f);
      assert ops[..k] == [];
    } else if k < |erase| + |copy| {
      assert ops[..k] == erase + copy[..k - |erase|];
      Concatenation(f, erase, copy[..k - |erase|]);
      CutMenuCopy(h, p, image, 1, k - |erase|);
    } else {
      var n := k - |erase| - |copy|;
      assert ops[..k] == (erase + copy) + last[..n];
      Concatenation(f, erase + copy, last[..n]);
      if |image| < WritableCount(p) {
        CutReplace(done, WritableFirst(p), image[0], n);
        assert forall j :: 1 <= j < |image| ==> Accepted(p, j);
      } else {
        NoOps(done);
        assert last[..n] == [];
      }
    }
  }

  lemma MenuErase(f: Flash, p: nat)
    ensures ApplyAll(f, MenuEraseOps(f, p)) == f[WritableFirst(p) := ERASED] && Disciplined(f, MenuEraseOps(f, p))
  {
    if f[WritableFirst(p)] == ERASED {
      NoOps(f);
      assert f[WritableFirst(p) := ERASED] == f;
    } else {
      var ops := MenuEraseOps(f, p);
      assert ops[1..] == [];
      NoOps(f[WritableFirst(p) := ERASED]);
    }
  }

  lemma MenuLast(h: Flash, done: Flash, p: nat, image: seq<Sector>)
    requires |image| > 0 && done[WritableFirst(p)] == h[WritableFirst(p)] == ERASED
    ensures Replace(h, WritableFirst(p), image[0]) == Replace(done, WritableFirst(p), image[0])
    ensures Disciplined(done, Replace(done, WritableFirst(p), image[0])) && Disciplined(done, [])
  {
    ReplaceStores(done, WritableFirst(p), image[0]);
  }

  // ----- Whole histories

  /** A bootloader run, a menu session on the update or the apps partition, and the sector operations of any command
      that leaves firmware and update alone, none included; each stopped after at most `steps` sector operations by a
      power cut, a lost connection or its own end. All but the boot need a firmware that is running. */
  datatype Session =
    | Boot(requested: bool, steps: nat)
    | Menu(partition: nat, image: seq<Sector>, steps: nat)
    | Elsewhere(ops: seq<SectorOp>, steps: nat)

  /** No operation hits the firmware or the update. */
  predicate Outside(ops: seq<SectorOp>)
  {
    forall op :: op in ops ==>
      !(FW_FIRST <= op.sector < FW_FIRST + FW_COUNT) && !(UPDATE_FIRST <= op.sector < UPDATE_FIRST + FW_COUNT)
  }

  function Truncate(ops: seq<SectorOp>, k: nat): seq<SectorOp>
  {
    if k <= |ops| then ops[..k] else ops
  }

  function After(f: Flash, s: Session): Flash
  {
    match s
    case Boot(requested, steps) => ApplyAll(f, Truncate(BootOps(f, requested), steps))
    case Menu(partition, image, steps) =>
      if FwValid(f) && |image| > 0 then ApplyAll(f, Truncate(MenuOps(f, partition, image), steps)) else f
    case Elsewhere(ops, steps) =>
      if FwValid(f) && Outside(ops) then ApplyAll(f, Truncate(ops, steps)) else f
  }

  function History(f: Flash, sessions: seq<Session>): Flash
    decreases |sessions|
  {
    if |sessions| == 0 then f else History(After(f, sessions[0]), sessions[1..])
  }

  /** The partition begins with one of the known images, complete. */
  predicate Holds(p: seq<Sector>, images: set<seq<Sector>>)
  {
    exists image :: image in images && |image| > 0 && image <= p
  }

  function Images(sessions: seq<Session>): set<seq<Sector>>
  {
    set s | s in sessions && s.Menu? && s.partition == PARTITION_FW_UPDATE :: s.image
  }

  /** A valid partition is complete, and at least one partition is valid. */
  predicate Safe(f: Flash, images: set<seq<Sector>>)
  {
    && (FwValid(f) ==> Holds(Fw(f), images))
    && (UpdValid(f) ==> Holds(Upd(f), images))
    && (FwValid(f) || UpdValid(f))
  }

  lemma HoldsMore(p: seq<Sector>, images: set<seq<Sector>>, more: set<seq<Sector>>)
    requires Holds(p, images) && images <= more
    ensures Holds(p, more)
  {
  }

  lemma TruncateIsPrefix(ops: seq<SectorOp>, k: nat)
    ensures Truncate(ops, k) == ops[..if k <= |ops| then k else |ops|]
  {
  }

  lemma SafeDuringUpdate(f: Flash, g: Flash, images: set<seq<Sector>>)
    requires Safe(f, images) && UpdValid(f) && Upd(g) == Upd(f)
    requires g == f || g[FW_FIRST] == ERASED || Fw(g) == Upd(f)
    ensures Safe(g, images)
  {
    hide BootBlockValid, Holds;
    assert g[UPDATE_FIRST] == Upd(g)[0] == Upd(f)[0] == f[UPDATE_FIRST];
    ErasedSectorIsInvalid();
    assert g[FW_FIRST] == Fw(g)[0];
  }

  lemma BootIsSafe(f: Flash, requested: bool, steps: nat, images: set<seq<Sector>>)
    requires Safe(f, images)
    ensures Safe(After(f, Boot(requested, steps)), images)
    ensures Upd(After(f, Boot(requested, steps))) == Upd(f)
  {
    hide ApplyAll, UpdateOps, BootBlockValid, Holds, Safe;
    var ops := BootOps(f, requested);
    TruncateIsPrefix(ops, steps);
    var k := if steps <= |ops| then steps else |ops|;
    var g := After(f, Boot(requested, steps));
    if (requested || !FwValid(f)) && UpdValid(f) {
      CutUpdate(f, k);
      assert Upd(g) == Upd(f);
      SafeDuringUpdate(f, g, images);
    } else {
      NoOps(f);
      assert ops[..k] == [];
    }
  }

  lemma MenuIsSafe(f: Flash, image: seq<Sector>, steps: nat, images: set<seq<Sector>>)
    requires Safe(f, images)
    ensures Safe(After(f, Menu(PARTITION_FW_UPDATE, image, steps)), images + {image})
  {
    hide ApplyAll, MenuOps, BootBlockValid, Safe;
    SafeMore(f, images, images + {image});
    if FwValid(f) && |image| > 0 {
      var ops := MenuOps(f, PARTITION_FW_UPDATE, image);
      TruncateIsPrefix(ops, steps);
      CutMenuIsSafe(f, image, if steps <= |ops| then steps else |ops|, images);
    }
  }

  /** What a session on the update partition leaves is safe as long as the firmware is valid. */
  lemma CutMenuIsSafe(f: Flash, image: seq<Sector>, k: nat, images: set<seq<Sector>>)
    requires Safe(f, images) && FwValid(f) && |image| > 0 && k <= |MenuOps(f, PARTITION_FW_UPDATE, image)|
    ensures Safe(ApplyAll(f, MenuOps(f, PARTITION_FW_UPDATE, image)[..k]), images + {image})
  {
    hide ApplyAll, MenuOps, BootBlockValid, Holds;
    SafeMore(f, images, images + {image});
    var g := ApplyAll(f, MenuOps(f, PARTITION_FW_UPDATE, image)[..k]);
    CutMenu(f, PARTITION_FW_UPDATE, image, k);
    assert Fw(g) == Fw(f);
    assert g[FW_FIRST] == f[FW_FIRST];
    if Upd(g) == Upd(f) {
      assert g[UPDATE_FIRST] == Upd(g)[0] == Upd(f)[0];
    } else if g[UPDATE_FIRST] == ERASED {
      ErasedSectorIsInvalid();
    } else {
      HoldsImage(Upd(g), image, images + {image});
    }
  }

  lemma {:induction false} OutsideLeavesBoth(f: Flash, ops: seq<SectorOp>)
    requires Outside(ops)
    ensures Fw(ApplyAll(f, ops)) == Fw(f) && Upd(ApplyAll(f, ops)) == Upd(f)
    decreases |ops|
  {
    hide ProgramOver;
    if |ops| != 0 {
      assert ops[0] in ops;
      var g := Apply(f, ops[0]);
      assert Fw(g) == Fw(f) && Upd(g) == Upd(f);
      OutsideLeavesBoth(g, ops[1..]);
    }
  }

  lemma SameIsSafe(f: Flash, g: Flash, images: set<seq<Sector>>)
    requires Safe(f, images) && Fw(g) == Fw(f) && Upd(g) == Upd(f)
    ensures Safe(g, images)
  {
    hide BootBlockValid, Holds;
    assert g[FW_FIRST] == Fw(g)[0] == Fw(f)[0] && g[UPDATE_FIRST] == Upd(g)[0] == Upd(f)[0];
  }

  lemma ElsewhereIsSafe(f: Flash, ops: seq<SectorOp>, steps: nat, images: set<seq<Sector>>)
    requires Safe(f, images)
    ensures Safe(After(f, Elsewhere(ops, steps)), images)
  {
    hide ApplyAll, Safe, BootBlockValid;
    if FwValid(f) && Outside(ops) {
      OutsideLeavesBoth(f, Truncate(ops, steps));
      SameIsSafe(f, ApplyAll(f, Truncate(ops, steps)), images);
    }
  }

  lemma AppsMenuIsSafe(f: Flash, partition: nat, image: seq<Sector>, steps: nat, images: set<seq<Sector>>)
    requires Safe(f, images) && partition != PARTITION_FW_UPDATE
    ensures Safe(After(f, Menu(partition, image, steps)), images)
  {
    hide ApplyAll, Safe, BootBlockValid, MenuOps, OnlyPart, Fw, Upd;
    if FwValid(f) && |image| > 0 {
      var ops := MenuOps(f, partition, image);
      TruncateIsPrefix(ops, steps);
      var k := if steps <= |ops| then steps else |ops|;
      CutMenu(f, partition, image, k);
      AppsOnly(f, ApplyAll(f, ops[..k]), partition);
      SameIsSafe(f, ApplyAll(f, ops[..k]), images);
    }
  }

  lemma AppsOnly(f: Flash, g: Flash, partition: nat)
    requires OnlyPart(f, g, partition, 0) && partition != PARTITION_FW_UPDATE
    ensures Fw(g) == Fw(f) && Upd(g) == Upd(f)
  {
  }

  lemma HoldsImage(p: seq<Sector>, image: seq<Sector>, images: set<seq<Sector>>)
    requires |image| > 0 && image <= p && image in images
    ensures Holds(p, images)
  {
  }

  lemma SafeMore(f: Flash, images: set<seq<Sector>>, more: set<seq<Sector>>)
    requires Safe(f, images) && images <= more
    ensures Safe(f, more)
  {
    hide Holds;
    if FwValid(f) {
      HoldsMore(Fw(f), images, more);
    }
    if UpdValid(f) {
      HoldsMore(Upd(f), images, more);
    }
  }

  /** Main result, no brick: whatever boots, menu sessions and commands elsewhere happen, each cut anywhere, a valid
      first sector always means a complete image, and the firmware or the update is always valid. */
  lemma {:induction false} NeverBricked(f: Flash, sessions: seq<Session>, images: set<seq<Sector>>)
    requires Safe(f, images)
    ensures Safe(History(f, sessions), images + Images(sessions))
    decreases |sessions|
  {
    hide After, Safe;
    if |sessions| == 0 {
      assert images + Images(sessions) == images;
    } else {
      var s, rest := sessions[0], sessions[1..];
      var now := images + if s.Menu? && s.partition == PARTITION_FW_UPDATE then {s.image} else {};
      match s {
        case Boot(requested, steps) =>
          BootIsSafe(f, requested, steps, images);
          assert now == images;
        case Menu(partition, image, steps) =>
          if partition == PARTITION_FW_UPDATE {
            MenuIsSafe(f, image, steps, images);
          } else {
            AppsMenuIsSafe(f, partition, image, steps, images);
            assert now == images;
          }
        case Elsewhere(ops, steps) =>
          ElsewhereIsSafe(f, ops, steps, images);
          assert now == images;
      }
      NeverBricked(After(f, s), rest, now);
      SplitImages(sessions);
      assert now + Images(rest) <= images + Images(sessions);
      SafeMore(History(After(f, s), rest), now + Images(rest), images + Images(sessions));
    }
  }

  lemma SplitImages(sessions: seq<Session>)
    requires |sessions| > 0
    ensures Images(sessions[1..]) <= Images(sessions)
    ensures sessions[0].Menu? && sessions[0].partition == PARTITION_FW_UPDATE ==> sessions[0].image in Images(sessions)
  {
  }

  /** And one boot that is left to finish always ends with a valid, complete firmware. */
  lemma OneFullBootStarts(f: Flash, requested: bool, images: set<seq<Sector>>)
    requires Safe(f, images)
    ensures var g := ApplyAll(f, BootOps(f, requested));
            FwValid(g) && Holds(Fw(g), images)
  {
    hide ApplyAll, UpdateOps, BootBlockValid, Holds;
    var ops := BootOps(f, requested);
    BootIsSafe(f, requested, |ops|, images);
    assert ops[..|ops|] == ops;
    var g := ApplyAll(f, ops);
    if (requested || !FwValid(f)) && UpdValid(f) {
      CutUpdate(f, |ops|);
      assert g[FW_FIRST] == Fw(g)[0] == Upd(f)[0] == f[UPDATE_FIRST];
    } else {
      NoOps(f);
    }
  }

  /** What a power-on does to the flash: nothing if the firmware is valid and no update was asked for, or if there is no
      valid update; otherwise the firmware becomes the update, and nothing else changes. */
  lemma BootDecision(f: Flash, requested: bool)
    ensures (FwValid(f) && !requested) || !UpdValid(f) ==> BootOps(f, requested) == []
    ensures UpdValid(f) && (requested || !FwValid(f)) ==>
              var g := ApplyAll(f, BootOps(f, requested));
              && Fw(g) == Upd(f)
              && forall j :: 0 <= j < FLASH_SECTORS && !(FW_FIRST <= j < FW_FIRST + FW_COUNT) ==> g[j] == f[j]
  {
    hide ApplyAll, UpdateOps, BootBlockValid;
    var ops := UpdateOps(f);
    CutUpdate(f, |ops|);
    assert ops[..|ops|] == ops;
  }
}
