/** The command protocol between the console and the modchip. The console writes single bytes to one address;
    the modchip collects them into frames (fruitchip-fw/src/boot_rom/write/), executes a frame when its last byte
    arrives and answers with a status code, some data and, for most commands, a CRC.

    This module is the specification: a frame is a row of bytes, decoded by position and executed as a whole. */
module Protocol {
  import opened Bits
  import opened SectorFlash
  import Crc
  import Settings

  datatype Option<T> = None | Some(value: T)

  // ----- Command codes (fruitchip-include/modchip/cmd.h)

  const PREFIX: byte := 0xcf
  const GROUP0: byte := 0x0c
  const GROUP1: byte := 0x1c

  const RESULT_OK := 0x56276fb7

  const REBOOT_MODE_UPDATE := 1
  const REBOOT_MODES_TOTAL := 2

  const PINS_TOTAL := 4

  /** Commands without arguments. */
  datatype Plain =
    | DisableNextOsdsysHook | GetStage1Size | GetStage2Size | GetStage2 | FwGitRev | BootloaderGitRev
    | TestStatusOnly | TestDataNoCrc | TestDataWithCrc | TestNoStatusWithCrc | TestNoStatusNoCrc | TestBusy

  datatype Kind =
    | Stage3Frame | AppFrame | KvGetFrame | KvSetFrame | PartitionSizeFrame | SectorSizeFrame
    | LockFrame | EraseFrame | WriteFrame | RebootFrame | PinFrame | PlainFrame(plain: Plain)

  /** The 16 bits of the command code above prefix and group. */
  function Code(k: Kind): word
  {
    match k
    case Stage3Frame => 0x7338
    case AppFrame => 0x33b8
    case KvGetFrame => 0x1d27
    case KvSetFrame => 0x40b1
    case PartitionSizeFrame => 0x503a
    case SectorSizeFrame => 0x675d
    case LockFrame => 0x0797
    case EraseFrame => 0x289a
    case WriteFrame => 0x3477
    case RebootFrame => 0x6d06
    case PinFrame => 0x0431
    case PlainFrame(DisableNextOsdsysHook) => 0x1c61
    case PlainFrame(GetStage1Size) => 0xd008
    case PlainFrame(GetStage2Size) => 0xc46e
    case PlainFrame(GetStage2) => 0x882c
    case PlainFrame(FwGitRev) => 0x1e6a
    case PlainFrame(BootloaderGitRev) => 0x1b57
    case PlainFrame(TestStatusOnly) => 0x18cd
    case PlainFrame(TestDataNoCrc) => 0x2a0b
    case PlainFrame(TestDataWithCrc) => 0x7864
    case PlainFrame(TestNoStatusWithCrc) => 0x241d
    case PlainFrame(TestNoStatusNoCrc) => 0x111f
    case PlainFrame(TestBusy) => 0x5ca7
  }

  function Group(k: Kind): byte
  {
    if k.PlainFrame? && k.plain in {TestStatusOnly, TestDataNoCrc, TestDataWithCrc, TestNoStatusWithCrc, TestNoStatusNoCrc, TestBusy}
    then GROUP1 else GROUP0
  }

  /** Length of a frame, command code included. */
  function Length(k: Kind): (n: nat)
    ensures 4 <= n <= 22 + SECTOR_SIZE
  {
    match k
    case Stage3Frame => 22
    case AppFrame => 24
    case KvGetFrame => 8
    case KvSetFrame => 16
    case PartitionSizeFrame | LockFrame | RebootFrame | PinFrame => 6
    case EraseFrame => 22
    case WriteFrame => 22 + SECTOR_SIZE
    case SectorSizeFrame | PlainFrame(_) => 4
  }

  /** What the second and third byte of a frame announce. */
  function KindOf(group: byte, low: byte): Option<Kind>
  {
    if group == GROUP0 then
      match low
      case 0x61 => Some(PlainFrame(DisableNextOsdsysHook))
      case 0x08 => Some(PlainFrame(GetStage1Size))
      case 0x6e => Some(PlainFrame(GetStage2Size))
      case 0x2c => Some(PlainFrame(GetStage2))
      case 0x38 => Some(Stage3Frame)
      case 0xb8 => Some(AppFrame)
      case 0x27 => Some(KvGetFrame)
      case 0xb1 => Some(KvSetFrame)
      case 0x6a => Some(PlainFrame(FwGitRev))
      case 0x57 => Some(PlainFrame(BootloaderGitRev))
      case 0x3a => Some(PartitionSizeFrame)
      case 0x5d => Some(SectorSizeFrame)
      case 0x97 => Some(LockFrame)
      case 0x9a => Some(EraseFrame)
      case 0x77 => Some(WriteFrame)
      case 0x06 => Some(RebootFrame)
      case 0x31 => Some(PinFrame)
      case _ => None
    else if group == GROUP1 then
      match low
      case 0xcd => Some(PlainFrame(TestStatusOnly))
      case 0x0b => Some(PlainFrame(TestDataNoCrc))
      case 0x64 => Some(PlainFrame(TestDataWithCrc))
      case 0x1d => Some(PlainFrame(TestNoStatusWithCrc))
      case 0x1f => Some(PlainFrame(TestNoStatusNoCrc))
      case 0xa7 => Some(PlainFrame(TestBusy))
      case _ => None
    else None
  }

  /** The dispatch on group and third byte recognises exactly the declared codes. */
  lemma CodesAreDistinct(k: Kind)
    ensures KindOf(Group(k), Code(k) % 0x100) == Some(k)
  {
  }

  lemma OnlyDeclaredCodes(group: byte, low: byte)
    requires KindOf(group, low).Some?
    ensures var k := KindOf(group, low).value; Group(k) == group && Code(k) % 0x100 == low
  {
  }

  // ----- Frames

  /** `r` may still become a frame, or is one. */
  predicate Started(r: seq<byte>)
  {
    && (|r| >= 1 ==> r[0] == PREFIX)
    && (|r| >= 2 ==> r[1] == GROUP0 || r[1] == GROUP1)
    && (|r| >= 3 ==> KindOf(r[1], r[2]).Some? && |r| <= Length(KindOf(r[1], r[2]).value))
    && (|r| >= 4 ==> r[3] == Code(KindOf(r[1], r[2]).value) / 0x100)
  }

  predicate Complete(r: seq<byte>)
  {
    Started(r) && |r| >= 4 && |r| == Length(KindOf(r[1], r[2]).value)
  }

  /** Byte `i`, or 0 if it has not arrived yet. */
  function At(r: seq<byte>, i: nat): byte
  {
    if i < |r| then r[i] else 0
  }

  function U16At(r: seq<byte>, i: nat): word
  {
    At(r, i) + 0x100 * At(r, i + 1)
  }

  function U32At(r: seq<byte>, i: nat): u32
  {
    LeU32(At(r, i), At(r, i + 1), At(r, i + 2), At(r, i + 3))
  }

  /** An argument and the complement sent after it. */
  predicate Complemented8(r: seq<byte>, i: nat)
  {
    At(r, i) + At(r, i + 1) == 0xFF
  }

  predicate Complemented16(r: seq<byte>, i: nat)
  {
    U16At(r, i) + U16At(r, i + 2) == 0xFFFF
  }

  predicate Complemented32(r: seq<byte>, i: nat)
  {
    U32At(r, i) + U32At(r, i + 4) == 0xFFFF_FFFF
  }

  /** The CRC flag is stored as a boolean before its complement is checked: any non-zero byte counts as 1. */
  predicate ComplementedFlag(r: seq<byte>, i: nat)
  {
    (if At(r, i) != 0 then 1 else 0) + At(r, i + 1) == 0xFF
  }

  datatype Command =
    | ReadStage3(offset: u32, size: u32, withCrc: bool)
    | ReadApp(app: byte, offset: u32, size: u32, withCrc: bool)
    | KvGet(key: word)
    | KvSet(key: word, value: u32)
    | GetPartitionSize(partition: byte)
    | GetSectorSize
    | WriteLock(locked: bool)
    | EraseSectors(partition: byte, sector: u32, count: u32)
    | WriteSector(partition: byte, sector: u32, data: Sector)
    | Reboot(mode: byte)
    | PinConfig(pin: byte)
    | Argumentless(plain: Plain)

  function Payload(r: seq<byte>): Sector
    requires |r| == 22 + SECTOR_SIZE
  {
    r[22..]
  }

  /** The command in a frame, if its complements and its checksum are right. */
  function Decode(r: seq<byte>): Option<Command>
    requires Complete(r)
  {
    match KindOf(r[1], r[2]).value
    case Stage3Frame =>
      if Complemented32(r, 4) && Complemented32(r, 12) && ComplementedFlag(r, 20)
      then Some(ReadStage3(U32At(r, 4), U32At(r, 12), At(r, 20) != 0)) else None
    case AppFrame =>
      if Complemented8(r, 4) && Complemented32(r, 6) && Complemented32(r, 14) && ComplementedFlag(r, 22)
      then Some(ReadApp(At(r, 4), U32At(r, 6), U32At(r, 14), At(r, 22) != 0)) else None
    case KvGetFrame =>
      if Complemented16(r, 4) then Some(KvGet(U16At(r, 4))) else None
    case KvSetFrame =>
      if Complemented16(r, 4) && Complemented32(r, 8) then Some(KvSet(U16At(r, 4), U32At(r, 8))) else None
    case PartitionSizeFrame =>
      if Complemented8(r, 4) then Some(GetPartitionSize(At(r, 4))) else None
    case SectorSizeFrame => Some(GetSectorSize)
    case LockFrame =>
      if Complemented8(r, 4) then Some(WriteLock(At(r, 4) != 0)) else None
    case EraseFrame =>
      if Complemented8(r, 4) && Complemented32(r, 6) && Complemented32(r, 14)
      then Some(EraseSectors(At(r, 4), U32At(r, 6), U32At(r, 14))) else None
    case WriteFrame =>
      if Complemented8(r, 4) && Complemented32(r, 6) && Complemented32(r, 14) && Crc.Crc32(Payload(r)) == U32At(r, 14)
      then Some(WriteSector(At(r, 4), U32At(r, 6), Payload(r))) else None
    case RebootFrame =>
      if Complemented8(r, 4) then Some(Reboot(At(r, 4))) else None
    case PinFrame =>
      if Complemented8(r, 4) then Some(PinConfig(At(r, 4))) else None
    case PlainFrame(plain) => Some(Argumentless(plain))
  }

  // ----- Execution

  /** Everything a command can depend on or change. */
  datatype Env = Env(
    flash: Flash,
    settings: Settings.Image,
    locked: bool,
    updateMagic: bool,
    rebooting: bool,
    osdsysHookDisabled: bool)

  /** What the data of an answer is read from. */
  datatype Source =
    | Word(value: u32)                       // a variable of four bytes
    | Stage2(size: u32)
    | Stage3(offset: u32, size: u32)
    | FlashAt(address: u32, size: u32)       // flash, by its address on the bus
    | FwRevision | BootloaderRevision        // eight characters each
    | Placeholder                            // the fifteen test bytes

  /** An answer: a status code, then possibly data and a CRC of the data, or data without a status code. Busy codes
      sent while a command is at work are left out. */
  datatype Reply =
    | Err
    | Ok
    | OkData(source: Source, withCrc: bool)
    | DataOnly(source: Source, withCrc: bool)

  function OkValue(value: u32): Reply
  {
    OkData(Word(value), true)
  }

  /** A GPIO number; the first of eight consecutive ones. */
  type Pin = p: int | 0 <= p < 32

  type DataPin = p: int | 0 <= p <= 24

  /** What is fixed when the firmware is built. */
  datatype Board = Board(
    stage1Size: u32,
    stage2Size: u32,
    stage3Size: u32,
    dataPin: DataPin,
    cePin: Pin,
    oePin: Pin,
    resetPin: Pin)

  /** The pins behind a name, as a bit mask: eight from the first data pin on, or one. */
  function PinMask(board: Board, pin: nat): (mask: u32)
    requires pin < PINS_TOTAL
  {
    PinsFit(board.dataPin, board.cePin);
    PinsFit(board.dataPin, board.oePin);
    PinsFit(board.dataPin, board.resetPin);
    match pin
    case 0 => 0xFF * Pow2(board.dataPin)
    case 1 => Pow2(board.cePin)
    case 2 => Pow2(board.oePin)
    case _ => Pow2(board.resetPin)
  }

  lemma {:induction false} Pow2Grows(a: nat, b: nat)
    requires a <= b
    ensures Pow2(a) <= Pow2(b)
  {
    if a < b {
      Pow2Grows(a, b - 1);
    }
  }

  lemma Doubles(k: nat)
    ensures Pow2(k) < Pow2(k + 1)
  {
  }

  lemma PinsFit(data: DataPin, pin: Pin)
    ensures 0xFF * Pow2(data) < TWO_32 && Pow2(pin) < TWO_32
  {
    hide Pow2;
    Widths();
    Pow2Grows(data, 24);
    Pow2Grows(pin + 1, 32);
    Doubles(pin);
  }

  /** The answers to the commands without arguments. */
  function PlainReply(board: Board, plain: Plain): Reply
  {
    match plain
    case DisableNextOsdsysHook => Ok
    case GetStage1Size => OkData(Word(board.stage1Size), false)
    case GetStage2Size => OkData(Word(board.stage2Size), false)
    case GetStage2 => OkData(Stage2(board.stage2Size), true)
    case FwGitRev => OkData(FwRevision, true)
    case BootloaderGitRev => OkData(BootloaderRevision, true)
    case TestStatusOnly => Ok
    case TestDataNoCrc => OkData(Placeholder, false)
    case TestDataWithCrc => OkData(Placeholder, true)
    case TestNoStatusWithCrc => DataOnly(Placeholder, true)
    case TestNoStatusNoCrc => DataOnly(Placeholder, false)
    case TestBusy => Ok
  }

  // The apps partition's header, as far as the read command looks at it (fruitchip-fw/include/apps.h)

  const APPS_OFFSET := APPS_FIRST * SECTOR_SIZE
  const XIP_BASE := 0x1000_0000
  const APPS_ADDRESS := XIP_BASE + APPS_OFFSET
  const APPS_MAGIC1: seq<byte> := [0x41, 0x50, 0x50, 0x53]
  const APPS_MAGIC2 := 0x4FB80AB4
  const APPS_VERSION := 2

  function AppsWord(f: Flash, k: nat): u32
    requires k + 4 <= SECTOR_SIZE
  {
    LeU32(f[APPS_FIRST][k], f[APPS_FIRST][k + 1], f[APPS_FIRST][k + 2], f[APPS_FIRST][k + 3])
  }

  predicate AppsPresent(f: Flash)
  {
    f[APPS_FIRST][0..4] == APPS_MAGIC1 && AppsWord(f, 4) == APPS_MAGIC2 && AppsWord(f, 8) == APPS_VERSION
  }

  function AppsCount(f: Flash): u32
  {
    AppsWord(f, 0xC)
  }

  function AppOffset(f: Flash, app: byte): u32
  {
    AppsWord(f, 0x10 + 8 * app)
  }

  function AppLength(f: Flash, app: byte): u32
  {
    AppsWord(f, 0x14 + 8 * app)
  }

  /** A read from an app is accepted if the app exists and the offset lies inside its entry; the size is not checked. */
  function AppReply(f: Flash, app: byte, offset: u32, size: u32, withCrc: bool): Reply
  {
    if AppsCount(f) > app && AppsPresent(f) && AppLength(f, app) > offset
    then OkData(FlashAt((APPS_ADDRESS + AppOffset(f, app) + offset) % TWO_32, size), withCrc) else Err
  }

  lemma AppsWordBytes(f: Flash, k: nat, value: u32)
    requires k + 4 <= SECTOR_SIZE
    ensures AppsWord(f, k) == value <==> f[APPS_FIRST][k..k + 4] == Le32(value)
  {
    hide LeU32;
    var s := f[APPS_FIRST];
    assert s[k..k + 4] == [s[k], s[k + 1], s[k + 2], s[k + 3]];
    LeU32Digits(s[k], s[k + 1], s[k + 2], s[k + 3], value);
  }

  /** The first twelve bytes that a present apps partition has. */
  lemma PresentExactly(f: Flash)
    ensures AppsPresent(f)
            <==> f[APPS_FIRST][..12] == [0x41, 0x50, 0x50, 0x53, 0xB4, 0x0A, 0xB8, 0x4F, 0x02, 0x00, 0x00, 0x00]
  {
    hide AppsWord;
    var s := f[APPS_FIRST];
    AppsWordBytes(f, 4, APPS_MAGIC2);
    AppsWordBytes(f, 8, APPS_VERSION);
    assert s[..12] == s[0..4] + s[4..8] + s[8..12];
  }

  /** What reading from an app answers, told by the bytes in flash: the header, the number of entries at 12, and the
      offset and length of entry `app` behind it. */
  lemma AppAnsweredExactly(e: Env, app: byte, offset: u32, size: u32, withCrc: bool, board: Board, count: u32, start: u32, length: u32)
    requires var s := e.flash[APPS_FIRST];
             && s[12..16] == Le32(count) && s[16 + 8 * app..20 + 8 * app] == Le32(start)
             && s[20 + 8 * app..24 + 8 * app] == Le32(length)
    ensures Execute(e, ReadApp(app, offset, size, withCrc), board)
         == (e, if && e.flash[APPS_FIRST][..12] == [0x41, 0x50, 0x50, 0x53, 0xB4, 0x0A, 0xB8, 0x4F, 0x02, 0x00, 0x00, 0x00]
                   && app < count && offset < length
                then OkData(FlashAt((0x1014_E000 + start + offset) % TWO_32, size), withCrc) else Err)
  {
    hide AppsWord, AppsPresent;
    PresentExactly(e.flash);
    AppsWordBytes(e.flash, 12, count);
    AppsWordBytes(e.flash, 16 + 8 * app, start);
    AppsWordBytes(e.flash, 20 + 8 * app, length);
  }

  /** Without that header every read is answered with an error and changes nothing. */
  lemma NoAppsNoAnswer(e: Env, app: byte, offset: u32, size: u32, withCrc: bool, board: Board)
    requires e.flash[APPS_FIRST][..12] != [0x41, 0x50, 0x50, 0x53, 0xB4, 0x0A, 0xB8, 0x4F, 0x02, 0x00, 0x00, 0x00]
    ensures Execute(e, ReadApp(app, offset, size, withCrc), board) == (e, Err)
  {
    hide AppsWord, AppsPresent;
    PresentExactly(e.flash);
  }

  /** So it is on a board without apps, where the sector is still erased. */
  lemma ErasedAppsNoAnswer(e: Env, app: byte, offset: u32, size: u32, withCrc: bool, board: Board)
    requires forall k :: 0 <= k < SECTOR_SIZE ==> e.flash[APPS_FIRST][k] == 0xFF
    ensures Execute(e, ReadApp(app, offset, size, withCrc), board) == (e, Err)
  {
    hide Execute;
    assert e.flash[APPS_FIRST][..12][0] == 0xFF;
    NoAppsNoAnswer(e, app, offset, size, withCrc, board);
  }

  /** What the sector operations of a command are; no other command touches the flash. */
  function FlashOps(e: Env, c: Command): seq<SectorOp>
  {
    match c
    case EraseSectors(partition, sector, count) =>
      if !e.locked && SectorAccepted(partition, sector) then EraseOps(e.flash, Target(partition, sector), count) else []
    case WriteSector(partition, sector, data) =>
      if !e.locked && SectorAccepted(partition, sector) then WriteOps(e.flash, Target(partition, sector), data) else []
    case _ => []
  }

  function PartitionSize(partition: nat): u32
    requires partition < PARTITIONS_TOTAL
  {
    if partition == PARTITION_APPS then APPS_COUNT * SECTOR_SIZE else FW_COUNT * SECTOR_SIZE
  }

  function Execute(e: Env, c: Command, board: Board): (r: (Env, Reply))
  {
    match c
    case ReadStage3(offset, size, withCrc) =>
      (e, if board.stage3Size > offset then OkData(Stage3(offset, size), withCrc) else Err)
    case ReadApp(app, offset, size, withCrc) =>
      (e, AppReply(e.flash, app, offset, size, withCrc))
    case KvGet(key) =>
      (e, if key < Settings.KEYS_TOTAL then OkValue(Settings.KeyValue(e.settings, key)) else Err)
    case KvSet(key, value) =>
      (e.(settings := Settings.AfterCommand(e.settings, Settings.Command.KvSet(key, value))),
       if key < Settings.KEYS_TOTAL then Ok else Err)
    case GetPartitionSize(partition) =>
      (e, if partition < PARTITIONS_TOTAL then OkValue(PartitionSize(partition)) else Err)
    case GetSectorSize => (e, OkValue(SECTOR_SIZE))
    case WriteLock(locked) => (e.(locked := locked), Ok)
    case EraseSectors(partition, sector, _) =>
      (e.(flash := ApplyAll(e.flash, FlashOps(e, c))), if !e.locked && SectorAccepted(partition, sector) then Ok else Err)
    case WriteSector(partition, sector, _) =>
      (e.(flash := ApplyAll(e.flash, FlashOps(e, c))), if !e.locked && SectorAccepted(partition, sector) then Ok else Err)
    case Reboot(mode) =>
      if mode < REBOOT_MODES_TOTAL
      then (e.(updateMagic := e.updateMagic || mode == REBOOT_MODE_UPDATE, rebooting := true), Ok) else (e, Err)
    case PinConfig(pin) => (e, if pin < PINS_TOTAL then OkValue(PinMask(board, pin)) else Err)
    case Argumentless(plain) =>
      (if plain == DisableNextOsdsysHook then e.(osdsysHookDisabled := true) else e, PlainReply(board, plain))
  }

  /** A frame that does not decode is answered with an error and changes nothing. */
  function Answer(e: Env, c: Option<Command>, board: Board): (Env, Reply)
  {
    if c.Some? then Execute(e, c.value, board) else (e, Err)
  }

  // ----- The receiving machine

  /** `received` is the frame collected so far; idle means empty. */
  datatype Machine = Machine(received: seq<byte>, env: Env, replies: seq<Reply>, board: Board)

  function Receive(m: Machine, w: byte): Machine
  {
    var r := m.received + [w];
    if !Started(r) then m.(received := [])
    else if Complete(r) then Executed(m, r)
    else m.(received := r)
  }

  function Executed(m: Machine, r: seq<byte>): Machine
    requires Complete(r)
  {
    var answer := Answer(m.env, Decode(r), m.board);
    m.(received := [], env := answer.0, replies := m.replies + [answer.1])
  }

  function ReceiveAll(m: Machine, bytes: seq<byte>): Machine
    decreases |bytes|
  {
    if |bytes| == 0 then m else ReceiveAll(Receive(m, bytes[0]), bytes[1..])
  }

  lemma {:induction false} Concatenation(m: Machine, a: seq<byte>, b: seq<byte>)
    ensures ReceiveAll(m, a + b) == ReceiveAll(ReceiveAll(m, a), b)
    decreases |a|
  {
    hide Receive;
    if |a| == 0 {
      assert a + b == b;
    } else {
      assert (a + b)[1..] == a[1..] + b;
      Concatenation(Receive(m, a[0]), a[1..], b);
    }
  }

  // ----- A frame is executed once, when its last byte arrives

  lemma PrefixIsStarted(f: seq<byte>, k: nat)
    requires Complete(f) && k <= |f|
    ensures Started(f[..k])
    ensures Complete(f[..k]) <==> k == |f|
  {
    hide KindOf, Code;
    var r := f[..k];
    assert forall i :: 0 <= i < k ==> r[i] == f[i];
  }

  lemma {:induction false} RestOfFrame(m: Machine, f: seq<byte>, k: nat)
    requires Complete(f) && k < |f| && m.received == f[..k]
    ensures ReceiveAll(m, f[k..]) == Executed(m, f)
    decreases |f| - k
  {
    hide Started, Complete, Answer, Decode;
    var next := m.received + [f[k]];
    assert next == f[..k + 1];
    PrefixIsStarted(f, k + 1);
    assert f[k..][0] == f[k] && f[k..][1..] == f[k + 1..];
    if k + 1 == |f| {
      assert next == f && f[k + 1..] == [];
    } else {
      RestOfFrame(Receive(m, f[k]), f, k + 1);
    }
  }

  /** Frame isolation: from idle, a frame is executed exactly once and leaves the machine idle. */
  lemma FrameIsExecuted(m: Machine, f: seq<byte>)
    requires m.received == [] && Complete(f)
    ensures ReceiveAll(m, f) == Executed(m, f)
  {
    hide Started, Complete, Executed, ReceiveAll;
    FrameIsLong(f);
    assert f[..0] == [] && f[0..] == f;
    RestOfFrame(m, f, 0);
  }

  lemma FrameIsLong(f: seq<byte>)
    requires Complete(f)
    ensures |f| >= 4
  {
  }

  // ----- Resynchronisation

  const LONGEST := 22 + SECTOR_SIZE

  lemma StartedIsShort(r: seq<byte>)
    requires Started(r)
    ensures |r| <= LONGEST && (|r| == LONGEST ==> Complete(r))
  {
  }

  /** From any state the machine is idle again after at most `FLASH_SECTOR_SIZE` + 21 more bytes. */
  lemma {:induction false} Resynchronises(m: Machine, bytes: seq<byte>) returns (k: nat)
    requires Started(m.received) && !Complete(m.received)
    requires |m.received| + |bytes| >= LONGEST
    ensures k <= LONGEST - |m.received| && k <= |bytes| && ReceiveAll(m, bytes[..k]).received == []
    decreases LONGEST - |m.received|
  {
    hide Started, Complete, Answer, Decode, KindOf;
    StartedIsShort(m.received);
    if m.received == [] {
      k := 0;
    } else {
      var n := Receive(m, bytes[0]);
      if n.received == [] {
        k := 1;
        assert bytes[..1][1..] == [];
        assert ReceiveAll(n, []) == n;
      } else {
        k := Resynchronises(n, bytes[1..]);
        k := k + 1;
        assert bytes[..k][1..] == bytes[1..][..k - 1];
      }
    }
  }
}
