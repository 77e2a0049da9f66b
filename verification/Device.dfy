/** The modchip's side of the protocol as the firmware runs it: one handler per byte, selected by a function
    pointer, with the arguments assembled in static variables (fruitchip-fw/src/boot_rom/write/). The statics
    survive aborted frames and some are shared between commands; the class is shown to behave like the frame-based
    specification all the same. */
module Device {
  import opened Bits
  import opened SectorFlash
  import opened Protocol
  import Crc
  import Settings

  /** `write_handler`. Two-part handlers have a second constructor for their last part. */
  datatype Handler =
    | Idle | Cmd | Group0 | Group1
    | Header(kind: Kind)
    | Stage3Last | AppLast | EraseLast | WriteData

  /** The handler that must be installed after the bytes `r`. */
  function HandlerFor(r: seq<byte>): Handler
    requires Started(r) && !Complete(r)
  {
    if |r| == 0 then Idle
    else if |r| == 1 then Cmd
    else if |r| == 2 then (if r[1] == GROUP0 then Group0 else Group1)
    else
      match KindOf(r[1], r[2]).value
      case Stage3Frame => if |r| == 21 then Stage3Last else Header(Stage3Frame)
      case AppFrame => if |r| == 23 then AppLast else Header(AppFrame)
      case EraseFrame => if |r| == 21 then EraseLast else Header(EraseFrame)
      case WriteFrame => if |r| >= 22 then WriteData else Header(WriteFrame)
      case k => Header(k)
  }

  // ----- What one byte does to the specification

  lemma FirstByte(m: Machine, w: byte)
    requires m.received == []
    ensures Receive(m, w) == m.(received := if w == PREFIX then [w] else [])
    ensures w == PREFIX ==> Started([w]) && !Complete([w])
  {
  }

  lemma SecondByte(m: Machine, w: byte)
    requires |m.received| == 1 && Started(m.received)
    ensures var r := m.received + [w];
            && (w == GROUP0 || w == GROUP1 ==> Receive(m, w) == m.(received := r) && Started(r) && !Complete(r))
            && (w != GROUP0 && w != GROUP1 ==> Receive(m, w) == m.(received := []))
  {
  }

  lemma ThirdByte(m: Machine, w: byte)
    requires |m.received| == 2 && Started(m.received)
    ensures var r, k := m.received + [w], KindOf(m.received[1], w);
            && (k.Some? ==> Receive(m, w) == m.(received := r) && Started(r) && !Complete(r))
            && (k.None? ==> Receive(m, w) == m.(received := []))
  {
    hide KindOf, Code;
  }

  lemma FourthByte(m: Machine, w: byte, k: Kind)
    requires |m.received| == 3 && Started(m.received) && KindOf(m.received[1], m.received[2]) == Some(k)
    ensures var r := m.received + [w];
            && KindOf(r[1], r[2]) == Some(k)
            && (w != Code(k) / 0x100 ==> Receive(m, w) == m.(received := []))
            && (w == Code(k) / 0x100 && Length(k) == 4 ==> Complete(r) && Receive(m, w) == Executed(m.(received := r), r))
            && (w == Code(k) / 0x100 && Length(k) > 4 ==> Receive(m, w) == m.(received := r) && Started(r) && !Complete(r))
  {
    hide KindOf, Code, Answer, Decode;
  }

  lemma ArgumentByte(m: Machine, w: byte, k: Kind)
    requires |m.received| >= 4 && Started(m.received) && !Complete(m.received)
    requires KindOf(m.received[1], m.received[2]) == Some(k)
    ensures var r := m.received + [w];
            && KindOf(r[1], r[2]) == Some(k) && |m.received| < Length(k)
            && (|r| < Length(k) ==> Receive(m, w) == m.(received := r) && Started(r) && !Complete(r))
            && (|r| == Length(k) ==> Complete(r) && Receive(m, w) == Executed(m.(received := r), r))
  {
    hide KindOf, Code, Answer, Decode, Length;
  }

  // ----- Assembling arguments byte by byte

  lemma OrSecond(a: nat, w: byte)
    requires a < 0x100
    ensures Or(a, w * 0x100) == a + w * 0x100
  {
    Widths();
    OrAbove(a, w, 8);
  }

  lemma OrThird(a: nat, w: byte)
    requires a < 0x1_0000
    ensures Or(a, w * 0x1_0000) == a + w * 0x1_0000
  {
    Widths();
    OrAbove(a, w, 16);
  }

  lemma OrFourth(a: nat, w: byte)
    requires a < 0x100_0000
    ensures Or(a, w * 0x100_0000) == a + w * 0x100_0000
  {
    Widths();
    OrAbove(a, w, 24);
  }

  lemma U32Grows(r: seq<byte>, w: byte, at: nat)
    ensures var now, next := U32At(r, at), U32At(r + [w], at);
            && (|r| == at ==> next == w)
            && (|r| == at + 1 ==> next == Or(now, w * 0x100))
            && (|r| == at + 2 ==> next == Or(now, w * 0x1_0000))
            && (|r| == at + 3 ==> next == Or(now, w * 0x100_0000))
            && (|r| < at || |r| >= at + 4 ==> next == now)
  {
    hide Or;
    AtGrows(r, w, at);
    AtGrows(r, w, at + 1);
    AtGrows(r, w, at + 2);
    AtGrows(r, w, at + 3);
    hide At;
    if |r| == at + 1 {
      AtMissing(r);
      OrSecond(U32At(r, at), w);
    } else if |r| == at + 2 {
      AtMissing(r);
      OrThird(U32At(r, at), w);
    } else if |r| == at + 3 {
      AtMissing(r);
      OrFourth(U32At(r, at), w);
    } else if |r| == at {
      AtMissing(r);
    }
  }

  lemma AtMissing(r: seq<byte>)
    ensures forall i :: i >= |r| ==> At(r, i) == 0
  {
  }

  lemma U16Grows(r: seq<byte>, w: byte, at: nat)
    ensures var now, next := U16At(r, at), U16At(r + [w], at);
            && (|r| == at ==> next == w)
            && (|r| == at + 1 ==> next == Or(now, w * 0x100))
            && (|r| < at || |r| >= at + 2 ==> next == now)
  {
    hide Or;
    AtGrows(r, w, at);
    AtGrows(r, w, at + 1);
    if |r| == at + 1 {
      OrSecond(U16At(r, at), w);
    }
  }

  lemma AtGrows(r: seq<byte>, w: byte, at: nat)
    ensures At(r + [w], at) == if |r| == at then w else At(r, at)
  {
  }

  lemma Complement8(a: byte, b: byte)
    ensures Xor(a, b) == 0xFF <==> a + b == 0xFF
  {
    Widths();
    XorComplement(a, b, 8);
  }

  lemma Complement16(a: word, b: word)
    ensures Xor(a, b) == 0xFFFF <==> a + b == 0xFFFF
  {
    Widths();
    XorComplement(a, b, 16);
  }

  lemma Complement32(a: u32, b: u32)
    ensures Xor(a, b) == 0xFFFF_FFFF <==> a + b == 0xFFFF_FFFF
  {
    Widths();
    XorComplement(a, b, 32);
  }

  // ----- Pin masks

  /** `n` pins from `q` on, and one more. */
  lemma NextPin(q: nat, n: nat, ones: nat, mask: nat)
    requires ones == Pow2(n) - 1 && mask == ones * Pow2(q)
    ensures Or(mask, Pow2(q + n)) == (2 * ones + 1) * Pow2(q)
  {
    hide Or, Pow2;
    Pow2Sum(q, n);
    var p, s := Pow2(q), Pow2(q + n);
    assert mask == s - p;
    OrAbove(mask, 1, q + n);
  }

  lemma Pow2Zero()
    ensures Pow2(0) == 1
  {
  }

  lemma Pow2Doubles(k: nat)
    ensures Pow2(k + 1) == 2 * Pow2(k)
  {
  }

  lemma {:induction false} Pow2Sum(a: nat, b: nat)
    ensures Pow2(a + b) == Pow2(b) * Pow2(a)
  {
    hide Pow2;
    if b == 0 {
      Pow2Zero();
    } else {
      Pow2Sum(a, b - 1);
      Pow2Doubles(b - 1);
      Pow2Doubles(a + b - 1);
      var p, q := Pow2(a), Pow2(b - 1);
      assert 2 * q * p == 2 * (q * p);
    }
  }

  function EightBits(q: nat): nat
  {
    Or(Or(Or(Or(Or(Or(Or(Pow2(q), Pow2(q + 1)), Pow2(q + 2)), Pow2(q + 3)), Pow2(q + 4)), Pow2(q + 5)), Pow2(q + 6)), Pow2(q + 7))
  }

  lemma SmallPowers()
    ensures Pow2(1) == 2 && Pow2(2) == 4 && Pow2(3) == 8 && Pow2(4) == 16 && Pow2(5) == 32 && Pow2(6) == 64 && Pow2(7) == 128
  {
  }

  lemma EightPins(q: nat)
    ensures EightBits(q) == 0xFF * Pow2(q)
  {
    hide Or, Pow2;
    SmallPowers();
    var m := Pow2(q);
    NextPin(q, 1, 1, m);
    NextPin(q, 2, 3, 3 * m);
    NextPin(q, 3, 7, 7 * m);
    NextPin(q, 4, 15, 15 * m);
    NextPin(q, 5, 31, 31 * m);
    NextPin(q, 6, 63, 63 * m);
    NextPin(q, 7, 127, 127 * m);
  }

  // ----- What executing each frame means, spelled out

  /** The machine after a frame has been answered. */
  function Answered(m: Machine, env: Env, reply: Reply): Machine
  {
    m.(received := [], env := env, replies := m.replies + [reply])
  }

  predicate CompleteFrame(r: seq<byte>, k: Kind)
  {
    Complete(r) && KindOf(r[1], r[2]) == Some(k)
  }

  lemma Stage3Executed(m: Machine, r: seq<byte>)
    requires CompleteFrame(r, Stage3Frame)
    ensures var offset, size, withCrc := U32At(r, 4), U32At(r, 12), At(r, 20) != 0;
            var valid := Complemented32(r, 4) && m.board.stage3Size > offset && Complemented32(r, 12) && ComplementedFlag(r, 20);
            Executed(m, r) == Answered(m, m.env, if valid then OkData(Stage3(offset, size), withCrc) else Err)
  {
    hide Complete, KindOf, U32At, At;
  }

  lemma AppExecuted(m: Machine, r: seq<byte>)
    requires CompleteFrame(r, AppFrame)
    ensures var app, offset, size, withCrc := At(r, 4), U32At(r, 6), U32At(r, 14), At(r, 22) != 0;
            var f := m.env.flash;
            var valid := AppsPresent(f) && (Complemented32(r, 6) && AppLength(f, app) > offset) && Complemented32(r, 14)
              && (Complemented8(r, 4) && AppsCount(f) > app) && ComplementedFlag(r, 22);
            Executed(m, r) == Answered(m, m.env,
              if valid then OkData(FlashAt((APPS_ADDRESS + AppOffset(f, app) + offset) % TWO_32, size), withCrc) else Err)
  {
    hide Complete, KindOf, U32At, At, AppsWord;
  }

  lemma KvGetExecuted(m: Machine, r: seq<byte>)
    requires CompleteFrame(r, KvGetFrame)
    ensures var key := U16At(r, 4);
            Executed(m, r) == Answered(m, m.env,
              if Complemented16(r, 4) && key < Settings.KEYS_TOTAL then OkValue(Settings.KeyValue(m.env.settings, key)) else Err)
  {
    hide Complete, KindOf, U16At;
  }

  lemma KvSetExecuted(m: Machine, r: seq<byte>)
    requires CompleteFrame(r, KvSetFrame)
    ensures var key, value := U16At(r, 4), U32At(r, 8);
            if Complemented16(r, 4) && key < Settings.KEYS_TOTAL && Complemented32(r, 8)
            then Executed(m, r) == Answered(m, m.env.(settings := Settings.SetKey(m.env.settings, key, value)), Ok)
            else Executed(m, r) == Answered(m, m.env, Err)
  {
    hide Complete, KindOf, U16At, U32At, Settings.SetKey;
  }

  lemma PartitionSizeExecuted(m: Machine, r: seq<byte>)
    requires CompleteFrame(r, PartitionSizeFrame)
    ensures Executed(m, r) == Answered(m, m.env,
              if Complemented8(r, 4) && At(r, 4) < PARTITIONS_TOTAL then OkValue(PartitionSize(At(r, 4))) else Err)
  {
    hide Complete, KindOf, At;
  }

  lemma SectorSizeExecuted(m: Machine, r: seq<byte>)
    requires CompleteFrame(r, SectorSizeFrame)
    ensures Executed(m, r) == Answered(m, m.env, OkValue(SECTOR_SIZE))
  {
    hide Complete, KindOf;
  }

  lemma LockExecuted(m: Machine, r: seq<byte>)
    requires CompleteFrame(r, LockFrame)
    ensures if Complemented8(r, 4) then Executed(m, r) == Answered(m, m.env.(locked := At(r, 4) != 0), Ok)
            else Executed(m, r) == Answered(m, m.env, Err)
  {
    hide Complete, KindOf, At;
  }

  lemma EraseExecuted(m: Machine, r: seq<byte>)
    requires CompleteFrame(r, EraseFrame)
    ensures var partition, sector, count := At(r, 4), U32At(r, 6), U32At(r, 14);
            var valid := Complemented8(r, 4) && Complemented32(r, 6) && SectorAccepted(partition, sector) && Complemented32(r, 14);
            if !m.env.locked && valid
            then Executed(m, r) == Answered(m,
              m.env.(flash := ApplyAll(m.env.flash, EraseOps(m.env.flash, Target(partition, sector), count))), Ok)
            else Executed(m, r) == Answered(m, m.env, Err)
  {
    hide Complete, KindOf, U32At, At, SectorAccepted, EraseOps, Target;
    assert ApplyAll(m.env.flash, []) == m.env.flash;
    hide ApplyAll;
  }

  lemma WriteExecuted(m: Machine, r: seq<byte>)
    requires CompleteFrame(r, WriteFrame) && |r| == 22 + SECTOR_SIZE
    ensures var partition, sector, data := At(r, 4), U32At(r, 6), Payload(r);
            var valid := Complemented8(r, 4) && Complemented32(r, 6) && SectorAccepted(partition, sector)
              && Complemented32(r, 14) && Crc.Crc32(data) == U32At(r, 14);
            if !m.env.locked && valid
            then Executed(m, r) == Answered(m,
              m.env.(flash := ApplyAll(m.env.flash, WriteOps(m.env.flash, Target(partition, sector), data))), Ok)
            else Executed(m, r) == Answered(m, m.env, Err)
  {
    hide Complete, KindOf, U32At, At, SectorAccepted, WriteOps, Target, Crc.Crc32;
    assert ApplyAll(m.env.flash, []) == m.env.flash;
    hide ApplyAll;
  }

  lemma RebootExecuted(m: Machine, r: seq<byte>)
    requires CompleteFrame(r, RebootFrame)
    ensures var mode := At(r, 4);
            if Complemented8(r, 4) && mode < REBOOT_MODES_TOTAL
            then Executed(m, r) == Answered(m,
              m.env.(updateMagic := m.env.updateMagic || mode == REBOOT_MODE_UPDATE, rebooting := true), Ok)
            else Executed(m, r) == Answered(m, m.env, Err)
  {
    hide Complete, KindOf, At;
  }

  lemma PinExecuted(m: Machine, r: seq<byte>)
    requires CompleteFrame(r, PinFrame)
    ensures Executed(m, r) == Answered(m, m.env,
              if Complemented8(r, 4) && At(r, 4) < PINS_TOTAL then OkValue(PinMask(m.board, At(r, 4))) else Err)
  {
    hide Complete, KindOf, At;
  }

  lemma PlainExecuted(m: Machine, r: seq<byte>, plain: Plain)
    requires CompleteFrame(r, PlainFrame(plain))
    ensures Executed(m, r) == Answered(m,
              if plain == DisableNextOsdsysHook then m.env.(osdsysHookDisabled := true) else m.env, PlainReply(m.board, plain))
  {
    hide Complete, KindOf;
  }

  class Modchip {
    const board: Board
    var replies: seq<Reply>

    // What commands act on
    var flash: Flash
    var settings: Settings.Image
    var flashWriteLock: bool
    var updateMagic: bool
    var rebooting: bool
    var disableNextOsdsysHook: bool

    // handler.c
    var writeHandler: Handler
    var cmdByteCounter: nat

    // get_payload.c
    var stage3ReadOffset: nat
    var stage3ReadOffsetXor: nat
    var stage3ReadSize: nat
    var stage3ReadSizeXor: nat
    var stage3WithCrc: bool

    // read_app.c
    var appIdx: byte
    var appIdxXor: byte
    var readOffset: nat
    var readOffsetXor: nat
    var readSize: nat
    var readSizeXor: nat
    var withCrc: bool
    var isValidAppsPartition: bool
    var isValidReadOffset: bool
    var isValidReadSize: bool
    var isValidAppIdx: bool
    var readAddr: nat

    // kv.c
    var getIdx: nat
    var getIdxXor: nat
    var setIdx: nat
    var setIdxXor: nat
    var setValue: nat
    var setValueXor: nat

    // flash.c
    var partitionIdx: byte
    var partitionIdxXor: byte
    var sectorIdx: nat
    var sectorIdxXor: nat
    var sectorCrc: nat
    var sectorCrcXor: nat
    var sectorCount: nat
    var sectorCountXor: nat
    var lockValue: byte
    var lockValueXor: byte
    var rebootMode: byte
    var rebootModeXor: byte
    const sector: array<byte>

    // configuration.c
    var pinIdx: byte
    var pinIdxXor: byte

    /** The bytes of the frame being received. */
    ghost var received: seq<byte>

    function EnvNow(): Env
      reads `flash, `settings, `flashWriteLock, `updateMagic, `rebooting, `disableNextOsdsysHook
    {
      Env(flash, settings, flashWriteLock, updateMagic, rebooting, disableNextOsdsysHook)
    }

    ghost function State(): Machine
      reads `received, `replies, `flash, `settings, `flashWriteLock, `updateMagic, `rebooting, `disableNextOsdsysHook
    {
      Machine(received, EnvNow(), replies, board)
    }

    ghost predicate Valid()
      reads this, sector
    {
      InFrame() && Statics()
    }

    /** Handler and counter agree with the bytes received. */
    ghost predicate InFrame()
      reads `received, `writeHandler, `cmdByteCounter
    {
      && sector.Length == SECTOR_SIZE
      && Started(received) && !Complete(received)
      && writeHandler == HandlerFor(received)
      && (received != [] ==> cmdByteCounter == |received| - 1)
    }

    /** Up to the command code no static has been written. */
    lemma NothingAssembled()
      requires InFrame() && |received| <= 4
      ensures Valid()
    {
      hide Started, Complete;
    }

    /** The statics that the running frame has written so far hold its bytes; all others are arbitrary. */
    ghost predicate Statics()
      reads this, sector
    {
      match writeHandler
      case Header(Stage3Frame) | Stage3Last => Stage3Statics(received)
      case Header(AppFrame) | AppLast => AppStatics(received)
      case Header(KvGetFrame) => KvGetStatics(received)
      case Header(KvSetFrame) => KvSetStatics(received)
      case Header(PartitionSizeFrame) => |received| > 4 ==> partitionIdx == At(received, 4)
      case Header(LockFrame) => |received| > 4 ==> lockValue == At(received, 4)
      case Header(EraseFrame) | EraseLast => PlaceStatics(received) && EraseStatics(received)
      case Header(WriteFrame) => PlaceStatics(received) && WriteStatics(received)
      case WriteData => PlaceStatics(received) && WriteStatics(received) && DataStatics(received)
      case Header(RebootFrame) => |received| > 4 ==> rebootMode == At(received, 4)
      case Header(PinFrame) => |received| > 4 ==> pinIdx == At(received, 4)
      case _ => true
    }

    ghost predicate Stage3Statics(r: seq<byte>)
      reads `stage3ReadOffset, `stage3ReadOffsetXor, `stage3ReadSize, `stage3ReadSizeXor, `stage3WithCrc
      ensures |r| <= 4 ==> Stage3Statics(r)
    {
      && (|r| > 4 ==> stage3ReadOffset == U32At(r, 4))
      && (|r| > 8 ==> stage3ReadOffsetXor == U32At(r, 8))
      && (|r| > 12 ==> stage3ReadSize == U32At(r, 12))
      && (|r| > 16 ==> stage3ReadSizeXor == U32At(r, 16))
      && (|r| > 20 ==> stage3WithCrc == (At(r, 20) != 0))
    }

    ghost predicate AppStatics(r: seq<byte>)
      reads `flash, `appIdx, `isValidAppIdx, `readOffset, `isValidAppsPartition, `readOffsetXor
      reads `isValidReadOffset, `readSize, `readAddr, `readSizeXor, `isValidReadSize, `withCrc
      ensures |r| <= 4 ==> AppStatics(r)
    {
      && (|r| > 4 ==> appIdx == At(r, 4))
      && (|r| > 5 ==> isValidAppIdx == (Complemented8(r, 4) && AppsCount(flash) > At(r, 4)))
      && (|r| > 6 ==> readOffset == U32At(r, 6))
      && (|r| > 9 ==> isValidAppsPartition == AppsPresent(flash))
      && (|r| > 10 ==> readOffsetXor == U32At(r, 10))
      && (|r| > 13 ==> isValidReadOffset == (Complemented32(r, 6) && AppLength(flash, At(r, 4)) > U32At(r, 6)))
      && (|r| > 14 ==> readSize == U32At(r, 14))
      && (|r| > 17 ==> readAddr == (APPS_ADDRESS + AppOffset(flash, At(r, 4)) + U32At(r, 6)) % TWO_32)
      && (|r| > 18 ==> readSizeXor == U32At(r, 18))
      && (|r| > 21 ==> isValidReadSize == Complemented32(r, 14))
      && (|r| > 22 ==> withCrc == (At(r, 22) != 0))
    }

    ghost predicate KvGetStatics(r: seq<byte>)
      reads `getIdx, `getIdxXor
      ensures |r| <= 4 ==> KvGetStatics(r)
    {
      && (|r| > 4 ==> getIdx == U16At(r, 4))
      && (|r| > 6 ==> getIdxXor == U16At(r, 6))
    }

    ghost predicate KvSetStatics(r: seq<byte>)
      reads `setIdx, `setIdxXor, `setValue, `setValueXor
      ensures |r| <= 4 ==> KvSetStatics(r)
    {
      && (|r| > 4 ==> setIdx == U16At(r, 4))
      && (|r| > 6 ==> setIdxXor == U16At(r, 6))
      && (|r| > 8 ==> setValue == U32At(r, 8))
      && (|r| > 12 ==> setValueXor == U32At(r, 12))
    }

    ghost predicate PlaceStatics(r: seq<byte>)
      reads `partitionIdx, `partitionIdxXor, `sectorIdx, `sectorIdxXor
      ensures |r| <= 4 ==> PlaceStatics(r)
    {
      && (|r| > 4 ==> partitionIdx == At(r, 4))
      && (|r| > 5 ==> partitionIdxXor == At(r, 5))
      && (|r| > 6 ==> sectorIdx == U32At(r, 6))
      && (|r| > 10 ==> sectorIdxXor == U32At(r, 10))
    }

    ghost predicate EraseStatics(r: seq<byte>)
      reads `sectorCount, `sectorCountXor
      ensures |r| <= 4 ==> EraseStatics(r)
    {
      && (|r| > 14 ==> sectorCount == U32At(r, 14))
      && (|r| > 18 ==> sectorCountXor == U32At(r, 18))
    }

    ghost predicate WriteStatics(r: seq<byte>)
      reads `sectorCrc, `sectorCrcXor
      ensures |r| <= 4 ==> WriteStatics(r)
    {
      && (|r| > 14 ==> sectorCrc == U32At(r, 14))
      && (|r| > 18 ==> sectorCrcXor == U32At(r, 18))
    }

    ghost predicate DataStatics(r: seq<byte>)
      reads this, sector
    {
      && sector.Length == SECTOR_SIZE
      && 22 <= |r| <= 22 + SECTOR_SIZE && sector[..|r| - 22] == r[22..]
    }

    /** The byte just counted is the last of `received`, and the statics held the bytes before it. */
    ghost predicate Counted(w: byte)
      reads this
    {
      |received| > 4 && received[|received| - 1] == w && cmdByteCounter == |received| - 1
    }

    ghost function Before(): seq<byte>
      requires |received| > 0
      reads this
    {
      received[..|received| - 1]
    }

    lemma Appended(w: byte)
      requires Counted(w)
      ensures received == Before() + [w]
    {
    }

    /** Power-on: idle and locked; all other statics are zero in the firmware but could be anything. */
    constructor (flash: Flash, settings: Settings.Image, board: Board)
      ensures Valid() && received == [] && replies == [] && flashWriteLock
      ensures this.flash == flash && this.settings == settings && this.board == board && fresh(sector)
    {
      this.flash, this.settings, this.board := flash, settings, board;
      flashWriteLock := true;
      writeHandler, received, replies := Idle, [], [];
      sector := new byte[SECTOR_SIZE](_ => 0);
    }

    // ----- idle.c

    method HandleIdle(w: byte)
      requires InFrame() && writeHandler == Idle
      modifies this
      ensures InFrame() && |received| <= 4 && State() == Receive(old(State()), w)
    {
      hide Receive, Complete, Started, KindOf;
      StartedLength(received);
      FirstByte(State(), w);
      cmdByteCounter := 0;
      if w == 0xcf {
        writeHandler := Cmd;
        received := [w];
      }
    }

    method HandleCmd(w: byte)
      requires InFrame() && writeHandler == Cmd
      modifies this
      ensures InFrame() && |received| <= 4 && State() == Receive(old(State()), w)
    {
      hide Receive, Complete, Started, KindOf;
      StartedLength(received);
      SecondByte(State(), w);
      EmptyIsStarted();
      cmdByteCounter := cmdByteCounter + 1;
      if w == 0x0c {
        writeHandler := Group0;
        received := received + [w];
      } else if w == 0x1c {
        writeHandler := Group1;
        received := received + [w];
      } else {
        writeHandler := Idle;
        received := [];
      }
    }

    method SelectGroup0(w: byte) returns (h: Handler)
      ensures h == if KindOf(GROUP0, w).Some? then Header(KindOf(GROUP0, w).value) else Idle
    {
      match w {
        case 0x61 => h := Header(PlainFrame(DisableNextOsdsysHook));
        case 0x08 => h := Header(PlainFrame(GetStage1Size));
        case 0x6e => h := Header(PlainFrame(GetStage2Size));
        case 0x2c => h := Header(PlainFrame(GetStage2));
        case 0x38 => h := Header(Stage3Frame);
        case 0xb8 => h := Header(AppFrame);
        case 0x27 => h := Header(KvGetFrame);
        case 0xb1 => h := Header(KvSetFrame);
        case 0x6a => h := Header(PlainFrame(FwGitRev));
        case 0x57 => h := Header(PlainFrame(BootloaderGitRev));
        case 0x3a => h := Header(PartitionSizeFrame);
        case 0x5d => h := Header(SectorSizeFrame);
        case 0x97 => h := Header(LockFrame);
        case 0x9a => h := Header(EraseFrame);
        case 0x77 => h := Header(WriteFrame);
        case 0x06 => h := Header(RebootFrame);
        case 0x31 => h := Header(PinFrame);
        case _ => h := Idle;
      }
    }

    method SelectGroup1(w: byte) returns (h: Handler)
      ensures h == if KindOf(GROUP1, w).Some? then Header(KindOf(GROUP1, w).value) else Idle
    {
      match w {
        case 0xcd => h := Header(PlainFrame(TestStatusOnly));
        case 0x0b => h := Header(PlainFrame(TestDataNoCrc));
        case 0x64 => h := Header(PlainFrame(TestDataWithCrc));
        case 0x1d => h := Header(PlainFrame(TestNoStatusWithCrc));
        case 0x1f => h := Header(PlainFrame(TestNoStatusNoCrc));
        case 0xa7 => h := Header(PlainFrame(TestBusy));
        case _ => h := Idle;
      }
    }

    method HandleGroup0(w: byte)
      requires InFrame() && writeHandler == Group0
      modifies this
      ensures InFrame() && |received| <= 4 && State() == Receive(old(State()), w)
    {
      hide Receive, Complete, Started, KindOf;
      StartedLength(received);
      ThirdByte(State(), w);
      EmptyIsStarted();
      cmdByteCounter := cmdByteCounter + 1;
      writeHandler := SelectGroup0(w);
      received := if writeHandler == Idle then [] else received + [w];
    }

    method HandleGroup1(w: byte)
      requires InFrame() && writeHandler == Group1
      modifies this
      ensures InFrame() && |received| <= 4 && State() == Receive(old(State()), w)
    {
      hide Receive, Complete, Started, KindOf;
      StartedLength(received);
      ThirdByte(State(), w);
      EmptyIsStarted();
      cmdByteCounter := cmdByteCounter + 1;
      writeHandler := SelectGroup1(w);
      received := if writeHandler == Idle then [] else received + [w];
    }

    // ----- The common part of all handlers

    /** `cmd_byte_counter++` and, for the fourth byte, the comparison with the command code. */
    method Count(w: byte, k: Kind, high: byte) returns (go: bool)
      requires InFrame() && writeHandler == Header(k) && high == Code(k) / 0x100
      modifies `cmdByteCounter, `writeHandler, `received
      ensures !go ==> InFrame() && received == [] && writeHandler == Idle && State() == Receive(old(State()), w)
      ensures go ==> Taken(old(State()), w, k) && cmdByteCounter == |received| - 1 && writeHandler == Header(k)
      ensures go ==> received == old(received) + [w] && 4 <= |received| <= Length(k)
    {
      hide Receive, Executed, Complete, Started, HandlerFor, KindOf, Code;
      HeaderHandler(received, k);
      FrameByte(State(), w, k);
      cmdByteCounter := cmdByteCounter + 1;
      if cmdByteCounter == 3 && w != high {
        writeHandler := Idle;
        received := [];
        EmptyIsStarted();
        return false;
      }
      received := received + [w];
      return true;
    }

    method CountLast(w: byte, k: Kind)
      requires InFrame() && |received| >= 4 && KindOf(received[1], received[2]) == Some(k)
      modifies `cmdByteCounter, `received
      ensures Taken(old(State()), w, k) && cmdByteCounter == |received| - 1
      ensures received == old(received) + [w] && |received| <= Length(k)
    {
      hide Receive, Executed, Complete, Started, HandlerFor, KindOf, Code;
      FrameByte(State(), w, k);
      cmdByteCounter := cmdByteCounter + 1;
      received := received + [w];
    }

    /** `received` has taken the byte; the frame is still to be executed if it is complete now. */
    ghost predicate Taken(before: Machine, w: byte, k: Kind)
      reads `received, `replies, `flash, `settings, `flashWriteLock, `updateMagic, `rebooting, `disableNextOsdsysHook
    {
      && State() == before.(received := before.received + [w])
      && 4 <= |received| <= Length(k) && KindOf(received[1], received[2]) == Some(k)
      && (if |received| == Length(k) then CompleteFrame(received, k) && Receive(before, w) == Executed(State(), received)
          else Started(received) && !Complete(received) && Receive(before, w) == State())
    }

    /** What is known of a byte inside a frame. */
    lemma Continues(before: Machine, w: byte, k: Kind)
      requires Taken(before, w, k) && |received| < Length(k)
      ensures State() == Receive(before, w)
      ensures Started(received) && !Complete(received) && KindOf(received[1], received[2]) == Some(k) && |received| >= 4
      ensures received == before.received + [w] && EnvNow() == before.env
    {
      hide Receive, Executed, Complete, Started, KindOf;
    }

    lemma Ends(before: Machine, w: byte, k: Kind)
      requires Taken(before, w, k) && |received| == Length(k)
      ensures CompleteFrame(received, k) && Receive(before, w) == Executed(State(), received)
      ensures State().env == EnvNow()
    {
      hide Receive, Executed, Complete, Started, KindOf;
    }

    /** Sends the reply and goes back to idle. */
    method Finish(reply: Reply)
      requires sector.Length == SECTOR_SIZE
      modifies `writeHandler, `received, `replies
      ensures InFrame() && received == [] && State() == Answered(old(State()), old(EnvNow()), reply)
    {
      hide Started, Complete;
      EmptyIsStarted();
      replies := replies + [reply];
      writeHandler := Idle;
      received := [];
    }

    // ----- kv.c

    method HandleKvGet(w: byte)
      requires InFrame() && writeHandler == Header(KvGetFrame) && KvGetStatics(received)
      modifies this
      ensures InFrame() && State() == Receive(old(State()), w)
      ensures received == [] || (writeHandler == Header(KvGetFrame) && KvGetStatics(received))
    {
      hide Receive, Executed, Complete, Started, HandlerFor, KindOf, Modchip.KvGetStatics, Modchip.Taken, Modchip.State;
      ghost var m := State();
      var go := Count(w, KvGetFrame, 0x1d);
      if !go {
        return;
      }
      if cmdByteCounter >= 4 {
        CollectKvGet(w);
      }
      if cmdByteCounter == 7 {
        Ends(m, w, KvGetFrame);
        AnswerKvGet();
      } else {
        Continues(m, w, KvGetFrame);
        InsideFrame(received, KvGetFrame);
      }
    }

    method CollectKvGet(w: byte)
      requires Counted(w) && KvGetStatics(Before())
      modifies `getIdx, `getIdxXor
      ensures KvGetStatics(received)
    {
      hide U16At, Or;
      Appended(w);
      U16Grows(Before(), w, 4);
      U16Grows(Before(), w, 6);
      match cmdByteCounter {
        case 4 => getIdx := w;
        case 5 => getIdx := Or(getIdx, w * 0x100);
        case 6 => getIdxXor := w;
        case 7 => getIdxXor := Or(getIdxXor, w * 0x100);
        case _ =>
      }
    }

    method AnswerKvGet()
      requires CompleteFrame(received, KvGetFrame) && KvGetStatics(received) && sector.Length == SECTOR_SIZE
      modifies this
      ensures InFrame() && received == [] && State() == Executed(old(State()), old(received))
    {
      hide Executed, Complete, Started, KindOf, U16At, Xor, Settings.KeyValue;
      FrameLength(received, KvGetFrame);
      KvGetExecuted(State(), received);
      Complement16(getIdx, getIdxXor);
      Settings.KeyValueIsSmall(settings);
      var isValid := Xor(getIdx, getIdxXor) == 0xFFFF && getIdx < Settings.KEYS_TOTAL;
      if isValid {
        Finish(OkValue(Settings.KeyValue(settings, getIdx)));
      } else {
        Finish(Err);
      }
    }

    method HandleKvSet(w: byte)
      requires InFrame() && writeHandler == Header(KvSetFrame) && KvSetStatics(received)
      modifies this
      ensures InFrame() && State() == Receive(old(State()), w)
      ensures received == [] || (writeHandler == Header(KvSetFrame) && KvSetStatics(received))
    {
      hide Receive, Executed, Complete, Started, HandlerFor, KindOf, Modchip.KvSetStatics, Modchip.Taken, Modchip.State;
      ghost var m := State();
      var go := Count(w, KvSetFrame, 0x40);
      if !go {
        return;
      }
      if cmdByteCounter >= 4 {
        CollectKvSet(w);
      }
      if cmdByteCounter == 15 {
        Ends(m, w, KvSetFrame);
        AnswerKvSet();
      } else {
        Continues(m, w, KvSetFrame);
        InsideFrame(received, KvSetFrame);
      }
    }

    method CollectKvSet(w: byte)
      requires Counted(w) && KvSetStatics(Before())
      modifies `setIdx, `setIdxXor, `setValue, `setValueXor
      ensures KvSetStatics(received)
    {
      hide U16At, U32At, Or;
      Appended(w);
      U16Grows(Before(), w, 4);
      U16Grows(Before(), w, 6);
      U32Grows(Before(), w, 8);
      U32Grows(Before(), w, 12);
      match cmdByteCounter {
        case 4 => setIdx := w;
        case 5 => setIdx := Or(setIdx, w * 0x100);
        case 6 => setIdxXor := w;
        case 7 => setIdxXor := Or(setIdxXor, w * 0x100);
        case 8 => setValue := w;
        case 9 => setValue := Or(setValue, w * 0x100);
        case 10 => setValue := Or(setValue, w * 0x1_0000);
        case 11 => setValue := Or(setValue, w * 0x100_0000);
        case 12 => setValueXor := w;
        case 13 => setValueXor := Or(setValueXor, w * 0x100);
        case 14 => setValueXor := Or(setValueXor, w * 0x1_0000);
        case 15 => setValueXor := Or(setValueXor, w * 0x100_0000);
        case _ =>
      }
    }

    method AnswerKvSet()
      requires CompleteFrame(received, KvSetFrame) && KvSetStatics(received) && sector.Length == SECTOR_SIZE
      modifies this
      ensures InFrame() && received == [] && State() == Executed(old(State()), old(received))
    {
      hide Executed, Complete, Started, KindOf, U16At, U32At, Xor, Settings.SetKey;
      FrameLength(received, KvSetFrame);
      KvSetExecuted(State(), received);
      Complement16(setIdx, setIdxXor);
      Complement32(setValue, setValueXor);
      var isValidIdx := Xor(setIdx, setIdxXor) == 0xFFFF && setIdx < Settings.KEYS_TOTAL;
      var isValidValue := Xor(setValue, setValueXor) == 0xFFFF_FFFF;
      if isValidIdx && isValidValue {
        settings := Settings.SetKey(settings, setIdx, setValue);
        Finish(Ok);
      } else {
        Finish(Err);
      }
    }

    // ----- get_payload.c

    method HandleStage3(w: byte)
      requires InFrame() && writeHandler == Header(Stage3Frame) && Stage3Statics(received)
      modifies this
      ensures InFrame() && State() == Receive(old(State()), w)
      ensures received == [] || (writeHandler in {Header(Stage3Frame), Stage3Last} && Stage3Statics(received))
    {
      hide Receive, Executed, Complete, Started, HandlerFor, KindOf, Modchip.Stage3Statics, Modchip.Taken;
      hide Modchip.State;
      ghost var m := State();
      InsideFrameLength(received, Stage3Frame);
      var go := Count(w, Stage3Frame, 0x73);
      if !go {
        return;
      }
      Continues(m, w, Stage3Frame);
      if cmdByteCounter >= 4 {
        CollectStage3(w);
      }
      if cmdByteCounter == 20 {
        writeHandler := Stage3Last;
      }
      InsideFrame(received, Stage3Frame);
    }

    method CollectStage3(w: byte)
      requires Counted(w) && Stage3Statics(Before())
      modifies `stage3ReadOffset, `stage3ReadOffsetXor, `stage3ReadSize, `stage3ReadSizeXor, `stage3WithCrc
      ensures |received| <= 21 ==> Stage3Statics(received)
    {
      hide U32At, At, Or;
      Appended(w);
      U32Grows(Before(), w, 4);
      U32Grows(Before(), w, 8);
      U32Grows(Before(), w, 12);
      U32Grows(Before(), w, 16);
      AtGrows(Before(), w, 20);
      match cmdByteCounter {
        case 4 => stage3ReadOffset := w;
        case 5 => stage3ReadOffset := Or(stage3ReadOffset, w * 0x100);
        case 6 => stage3ReadOffset := Or(stage3ReadOffset, w * 0x1_0000);
        case 7 => stage3ReadOffset := Or(stage3ReadOffset, w * 0x100_0000);
        case 8 => stage3ReadOffsetXor := w;
        case 9 => stage3ReadOffsetXor := Or(stage3ReadOffsetXor, w * 0x100);
        case 10 => stage3ReadOffsetXor := Or(stage3ReadOffsetXor, w * 0x1_0000);
        case 11 => stage3ReadOffsetXor := Or(stage3ReadOffsetXor, w * 0x100_0000);
        case 12 => stage3ReadSize := w;
        case 13 => stage3ReadSize := Or(stage3ReadSize, w * 0x100);
        case 14 => stage3ReadSize := Or(stage3ReadSize, w * 0x1_0000);
        case 15 => stage3ReadSize := Or(stage3ReadSize, w * 0x100_0000);
        case 16 => stage3ReadSizeXor := w;
        case 17 => stage3ReadSizeXor := Or(stage3ReadSizeXor, w * 0x100);
        case 18 => stage3ReadSizeXor := Or(stage3ReadSizeXor, w * 0x1_0000);
        case 19 => stage3ReadSizeXor := Or(stage3ReadSizeXor, w * 0x100_0000);
        case 20 => stage3WithCrc := w != 0;
        case _ =>
      }
    }

    /** `read_ee_stage3`: the last byte. */
    method HandleStage3Last(w: byte)
      requires InFrame() && writeHandler == Stage3Last && Stage3Statics(received)
      modifies this
      ensures InFrame() && received == [] && State() == Receive(old(State()), w)
    {
      hide Receive, Executed, Complete, Started, HandlerFor, KindOf, U32At, At, Xor;
      LastHandler(received);
      KeptLast(received, w);
      CountLast(w, Stage3Frame);
      AtLast(received, 21);
      Stage3Executed(State(), received);
      Complement32(stage3ReadOffset, stage3ReadOffsetXor);
      Complement32(stage3ReadSize, stage3ReadSizeXor);
      Complement8(if stage3WithCrc then 1 else 0, w);
      var isValidReadOffset := Xor(stage3ReadOffset, stage3ReadOffsetXor) == 0xFFFF_FFFF && board.stage3Size > stage3ReadOffset;
      var isValidReadSize := Xor(stage3ReadSize, stage3ReadSizeXor) == 0xFFFF_FFFF;
      var isValidWithCrc := Xor(if stage3WithCrc then 1 else 0, w) == 0xFF;
      if isValidReadOffset && isValidReadSize && isValidWithCrc {
        Finish(OkData(Stage3(stage3ReadOffset, stage3ReadSize), stage3WithCrc));
      } else {
        Finish(Err);
      }
    }

    // ----- read_app.c

    method HandleApp(w: byte)
      requires InFrame() && writeHandler == Header(AppFrame) && AppStatics(received)
      modifies this
      ensures InFrame() && State() == Receive(old(State()), w)
      ensures received == [] || (writeHandler in {Header(AppFrame), AppLast} && AppStatics(received))
    {
      hide Receive, Executed, Complete, Started, HandlerFor, KindOf, Modchip.AppStatics, Modchip.Taken, Modchip.State;
      ghost var m := State();
      InsideFrameLength(received, AppFrame);
      var go := Count(w, AppFrame, 0x33);
      if !go {
        return;
      }
      Continues(m, w, AppFrame);
      if cmdByteCounter >= 4 {
        CollectApp(w);
      }
      if cmdByteCounter == 22 {
        writeHandler := AppLast;
      }
      InsideFrame(received, AppFrame);
    }

    method CollectApp(w: byte)
      requires Counted(w) && AppStatics(Before())
      modifies `appIdx, `appIdxXor, `isValidAppIdx, `readOffset, `isValidAppsPartition
      modifies `readOffsetXor, `isValidReadOffset, `readSize, `readAddr, `readSizeXor, `isValidReadSize, `withCrc
      ensures |received| <= 23 ==> AppStatics(received)
    {
      hide Modchip.AppStatics;
      if cmdByteCounter <= 9 {
        CollectAppIdxOffset(w);
      } else if cmdByteCounter <= 13 {
        CollectAppOffsetXor(w);
      } else if cmdByteCounter <= 17 {
        CollectAppSize(w);
      } else {
        CollectAppSizeXor(w);
      }
    }

    method CollectAppIdxOffset(w: byte)
      requires Counted(w) && 4 <= cmdByteCounter <= 9 && AppStatics(Before())
      modifies `appIdx, `appIdxXor, `isValidAppIdx, `readOffset, `isValidAppsPartition
      ensures AppStatics(received)
    {
      hide U32At, At, Or, Xor, AppsWord, AppsPresent;
      Appended(w);
      AtGrows(Before(), w, 4);
      AtGrows(Before(), w, 5);
      U32Grows(Before(), w, 6);
      match cmdByteCounter {
        case 4 => appIdx := w;
        case 5 =>
          appIdxXor := w;
          Complement8(appIdx, appIdxXor);
          isValidAppIdx := Xor(appIdx, appIdxXor) == 0xFF && AppsCount(flash) > appIdx;
        case 6 => readOffset := w;
        case 7 => readOffset := Or(readOffset, w * 0x100);
        case 8 => readOffset := Or(readOffset, w * 0x1_0000);
        case 9 =>
          readOffset := Or(readOffset, w * 0x100_0000);
          isValidAppsPartition := AppsPresent(flash);
      }
    }

    method CollectAppOffsetXor(w: byte)
      requires Counted(w) && 10 <= cmdByteCounter <= 13 && AppStatics(Before())
      modifies `readOffsetXor, `isValidReadOffset
      ensures AppStatics(received)
    {
      hide U32At, At, Or, Xor, AppsWord, AppsPresent;
      Appended(w);
      AtGrows(Before(), w, 4);
      AtGrows(Before(), w, 5);
      U32Grows(Before(), w, 6);
      U32Grows(Before(), w, 10);
      match cmdByteCounter {
        case 10 => readOffsetXor := w;
        case 11 => readOffsetXor := Or(readOffsetXor, w * 0x100);
        case 12 => readOffsetXor := Or(readOffsetXor, w * 0x1_0000);
        case 13 =>
          readOffsetXor := Or(readOffsetXor, w * 0x100_0000);
          Complement32(readOffset, readOffsetXor);
          isValidReadOffset := Xor(readOffset, readOffsetXor) == 0xFFFF_FFFF && AppLength(flash, appIdx) > readOffset;
      }
    }

    method CollectAppSize(w: byte)
      requires Counted(w) && 14 <= cmdByteCounter <= 17 && AppStatics(Before())
      modifies `readSize, `readAddr
      ensures AppStatics(received)
    {
      hide U32At, At, Or, AppsWord, AppsPresent;
      Appended(w);
      KeptLast(Before(), w);
      hide Complemented8, Complemented32;
      U32Grows(Before(), w, 14);
      match cmdByteCounter {
        case 14 => readSize := w;
        case 15 => readSize := Or(readSize, w * 0x100);
        case 16 => readSize := Or(readSize, w * 0x1_0000);
        case 17 =>
          readSize := Or(readSize, w * 0x100_0000);
          readAddr := ((APPS_ADDRESS + AppOffset(flash, appIdx)) % TWO_32 + readOffset) % TWO_32;
          SumOfMod(APPS_ADDRESS + AppOffset(flash, appIdx), readOffset);
      }
    }

    method CollectAppSizeXor(w: byte)
      requires Counted(w) && 18 <= cmdByteCounter && AppStatics(Before())
      modifies `readSizeXor, `isValidReadSize, `withCrc
      ensures |received| <= 23 ==> AppStatics(received)
    {
      hide U32At, At, Or, Xor, AppsWord, AppsPresent;
      Appended(w);
      KeptLast(Before(), w);
      hide Complemented8;
      U32Grows(Before(), w, 18);
      AtGrows(Before(), w, 22);
      match cmdByteCounter {
        case 18 => readSizeXor := w;
        case 19 => readSizeXor := Or(readSizeXor, w * 0x100);
        case 20 => readSizeXor := Or(readSizeXor, w * 0x1_0000);
        case 21 =>
          readSizeXor := Or(readSizeXor, w * 0x100_0000);
          Complement32(readSize, readSizeXor);
          isValidReadSize := Xor(readSize, readSizeXor) == 0xFFFF_FFFF;
        case 22 => withCrc := w != 0;
        case _ =>
      }
    }

    /** `read_apps_partition`: the last byte. */
    method HandleAppLast(w: byte)
      requires InFrame() && writeHandler == AppLast && AppStatics(received)
      modifies this
      ensures InFrame() && received == [] && State() == Receive(old(State()), w)
      ensures flash[APPS_FIRST][..12] != [0x41, 0x50, 0x50, 0x53, 0xB4, 0x0A, 0xB8, 0x4F, 0x02, 0x00, 0x00, 0x00] ==>
                replies == old(replies) + [Err]
    {
      hide Receive, Executed, Complete, Started, HandlerFor, KindOf, U32At, At, Xor, AppsWord, AppsPresent;
      hide Complemented8, Complemented32;
      PresentExactly(flash);
      LastHandler(received);
      KeptLast(received, w);
      CountLast(w, AppFrame);
      AtLast(received, 23);
      AppExecuted(State(), received);
      Complement8(if withCrc then 1 else 0, w);
      var isValidWithCrc := Xor(if withCrc then 1 else 0, w) == 0xFF;
      if isValidAppsPartition && isValidReadOffset && isValidReadSize && isValidAppIdx && isValidWithCrc {
        Finish(OkData(FlashAt(readAddr, readSize), withCrc));
      } else {
        Finish(Err);
      }
    }

    // ----- flash.c

    method HandlePartitionSize(w: byte)
      requires InFrame() && writeHandler == Header(PartitionSizeFrame) && (|received| > 4 ==> partitionIdx == At(received, 4))
      modifies this
      ensures InFrame() && State() == Receive(old(State()), w)
      ensures received == [] || (writeHandler == Header(PartitionSizeFrame) && (|received| > 4 ==> partitionIdx == At(received, 4)))
    {
      hide Receive, Executed, Complete, Started, HandlerFor, KindOf, Modchip.Taken, Modchip.State, Xor;
      ghost var m := State();
      var go := Count(w, PartitionSizeFrame, 0x50);
      if !go {
        return;
      }
      if cmdByteCounter == 4 {
        partitionIdx := w;
      } else if cmdByteCounter == 5 {
        partitionIdxXor := w;
        Ends(m, w, PartitionSizeFrame);
        PartitionSizeExecuted(State(), received);
        Complement8(partitionIdx, partitionIdxXor);
        if Xor(partitionIdx, partitionIdxXor) == 0xFF && partitionIdx < PARTITIONS_TOTAL {
          var response :=
            if partitionIdx == PARTITION_FW then FW_COUNT * SECTOR_SIZE
            else if partitionIdx == PARTITION_FW_UPDATE then FW_COUNT * SECTOR_SIZE
            else if partitionIdx == PARTITION_APPS then APPS_COUNT * SECTOR_SIZE else 0;
          Finish(OkValue(response));
        } else {
          Finish(Err);
        }
        return;
      }
      Continues(m, w, PartitionSizeFrame);
      InsideFrame(received, PartitionSizeFrame);
    }

    method HandleSectorSize(w: byte)
      requires InFrame() && writeHandler == Header(SectorSizeFrame)
      modifies this
      ensures InFrame() && received == [] && State() == Receive(old(State()), w)
    {
      hide Receive, Executed, Complete, Started, HandlerFor, KindOf, Modchip.Taken, Modchip.State;
      ghost var m := State();
      var go := Count(w, SectorSizeFrame, 0x67);
      if go {
        Ends(m, w, SectorSizeFrame);
        SectorSizeExecuted(State(), received);
        Finish(OkValue(SECTOR_SIZE));
      }
    }

    method HandleWriteLock(w: byte)
      requires InFrame() && writeHandler == Header(LockFrame) && (|received| > 4 ==> lockValue == At(received, 4))
      modifies this
      ensures InFrame() && State() == Receive(old(State()), w)
      ensures received == [] || (writeHandler == Header(LockFrame) && (|received| > 4 ==> lockValue == At(received, 4)))
    {
      hide Receive, Executed, Complete, Started, HandlerFor, KindOf, Modchip.Taken, Modchip.State;
      ghost var m := State();
      var go := Count(w, LockFrame, 0x07);
      if !go {
        return;
      }
      if cmdByteCounter == 4 {
        lockValue := w;
      } else if cmdByteCounter == 5 {
        lockValueXor := w;
        Ends(m, w, LockFrame);
        AnswerWriteLock();
        return;
      }
      Continues(m, w, LockFrame);
      InsideFrame(received, LockFrame);
    }

    method AnswerWriteLock()
      requires CompleteFrame(received, LockFrame) && sector.Length == SECTOR_SIZE
      requires lockValue == At(received, 4) && lockValueXor == At(received, 5)
      modifies this
      ensures InFrame() && received == [] && State() == Executed(old(State()), old(received))
    {
      hide Executed, Complete, Started, HandlerFor, KindOf, Xor;
      LockExecuted(State(), received);
      Complement8(lockValue, lockValueXor);
      if Xor(lockValue, lockValueXor) == 0xFF {
        flashWriteLock := lockValue != 0;
        Finish(Ok);
      } else {
        Finish(Err);
      }
    }

    /** Bytes 4 to 13 of erase and write frames: partition and sector, in statics that both commands share. */
    method CollectPlace(w: byte)
      requires Counted(w) && PlaceStatics(Before())
      modifies `partitionIdx, `partitionIdxXor, `sectorIdx, `sectorIdxXor
      ensures PlaceStatics(received)
    {
      hide U32At, At, Or;
      Appended(w);
      AtGrows(Before(), w, 4);
      AtGrows(Before(), w, 5);
      U32Grows(Before(), w, 6);
      U32Grows(Before(), w, 10);
      match cmdByteCounter {
        case 4 => partitionIdx := w;
        case 5 => partitionIdxXor := w;
        case 6 => sectorIdx := w;
        case 7 => sectorIdx := Or(sectorIdx, w * 0x100);
        case 8 => sectorIdx := Or(sectorIdx, w * 0x1_0000);
        case 9 => sectorIdx := Or(sectorIdx, w * 0x100_0000);
        case 10 => sectorIdxXor := w;
        case 11 => sectorIdxXor := Or(sectorIdxXor, w * 0x100);
        case 12 => sectorIdxXor := Or(sectorIdxXor, w * 0x1_0000);
        case 13 => sectorIdxXor := Or(sectorIdxXor, w * 0x100_0000);
        case _ =>
      }
    }

    /** The checks on partition and sector that erase and write have in common, in 32-bit arithmetic. */
    method CheckPlace() returns (isValidAddr: bool, flashOffset: nat)
      requires PlaceStatics(received) && |received| > 13
      ensures var partition, sector := At(received, 4), U32At(received, 6);
              && (isValidAddr <==> Complemented8(received, 4) && Complemented32(received, 6) && SectorAccepted(partition, sector))
              && (isValidAddr ==> flashOffset / SECTOR_SIZE == Target(partition, sector))
    {
      hide U32At, Xor, Target;
      Complement8(partitionIdx, partitionIdxXor);
      Complement32(sectorIdx, sectorIdxXor);
      OffsetIsTarget(partitionIdx, sectorIdx);
      assert PlaceComplements();
      var isValidPartitionIdx := Xor(partitionIdx, partitionIdxXor) == 0xFF;
      var isValidSectorIdx := Xor(sectorIdx, sectorIdxXor) == 0xFFFF_FFFF;
      flashOffset := 0;
      isValidAddr := false;
      if isValidPartitionIdx && isValidSectorIdx {
        var offset := sectorIdx * SECTOR_SIZE % TWO_32;
        if partitionIdx == PARTITION_FW_UPDATE {
          flashOffset := (UPDATE_FIRST * SECTOR_SIZE + offset) % TWO_32;
          isValidAddr := (flashOffset + SECTOR_SIZE) % TWO_32 < UPDATE_FIRST * SECTOR_SIZE + FW_COUNT * SECTOR_SIZE;
        } else if partitionIdx == PARTITION_APPS {
          flashOffset := (APPS_FIRST * SECTOR_SIZE + offset) % TWO_32;
          isValidAddr := (flashOffset + SECTOR_SIZE) % TWO_32 < APPS_FIRST * SECTOR_SIZE + APPS_COUNT * SECTOR_SIZE;
        }
      }
    }

    ghost predicate PlaceComplements()
      reads this
    {
      && (Complemented8(received, 4) <==> partitionIdx + partitionIdxXor == 0xFF)
      && (Complemented32(received, 6) <==> sectorIdx + sectorIdxXor == 0xFFFF_FFFF)
    }

    method HandleErase(w: byte)
      requires InFrame() && writeHandler == Header(EraseFrame) && PlaceStatics(received) && EraseStatics(received)
      modifies this
      ensures InFrame() && State() == Receive(old(State()), w)
      ensures received == [] || (writeHandler in {Header(EraseFrame), EraseLast} && PlaceStatics(received) && EraseStatics(received))
    {
      hide Receive, Executed, Complete, Started, HandlerFor, KindOf, Modchip.PlaceStatics, Modchip.EraseStatics;
      hide Modchip.Taken, Modchip.State;
      ghost var m := State();
      InsideFrameLength(received, EraseFrame);
      var go := Count(w, EraseFrame, 0x28);
      if !go {
        return;
      }
      Continues(m, w, EraseFrame);
      if cmdByteCounter >= 4 {
        CollectPlace(w);
        CollectCount(w);
      }
      if cmdByteCounter == 20 {
        writeHandler := EraseLast;
      }
      InsideFrame(received, EraseFrame);
    }

    method CollectCount(w: byte)
      requires Counted(w) && EraseStatics(Before())
      modifies `sectorCount, `sectorCountXor
      ensures EraseStatics(received)
    {
      hide U32At, Or;
      Appended(w);
      U32Grows(Before(), w, 14);
      U32Grows(Before(), w, 18);
      match cmdByteCounter {
        case 14 => sectorCount := w;
        case 15 => sectorCount := Or(sectorCount, w * 0x100);
        case 16 => sectorCount := Or(sectorCount, w * 0x1_0000);
        case 17 => sectorCount := Or(sectorCount, w * 0x100_0000);
        case 18 => sectorCountXor := w;
        case 19 => sectorCountXor := Or(sectorCountXor, w * 0x100);
        case 20 => sectorCountXor := Or(sectorCountXor, w * 0x1_0000);
        case 21 => sectorCountXor := Or(sectorCountXor, w * 0x100_0000);
        case _ =>
      }
    }

    /** `erase_flash_sector`: the last byte. */
    method HandleEraseLast(w: byte)
      requires InFrame() && writeHandler == EraseLast && PlaceStatics(received) && EraseStatics(received)
      modifies this
      ensures InFrame() && received == [] && State() == Receive(old(State()), w)
    {
      hide Receive, Executed, Complete, Started, HandlerFor, KindOf, Modchip.PlaceStatics, Modchip.EraseStatics;
      hide Modchip.Taken;
      ghost var m := State();
      LastHandler(received);
      CountLast(w, EraseFrame);
      Ends(m, w, EraseFrame);
      CollectPlace(w);
      CollectCount(w);
      AnswerErase();
    }

    method AnswerErase()
      requires CompleteFrame(received, EraseFrame) && PlaceStatics(received) && EraseStatics(received)
      requires sector.Length == SECTOR_SIZE
      modifies this
      ensures InFrame() && received == [] && State() == Executed(old(State()), old(received))
    {
      hide Executed, Complete, Started, KindOf, U32At, At, Xor, SectorAccepted, Target, ApplyAll, EraseOps;
      FrameLength(received, EraseFrame);
      EraseExecuted(State(), received);
      var isValidAddr, flashOffset := CheckPlace();
      Complement32(sectorCount, sectorCountXor);
      var isValidSectorCount := Xor(sectorCount, sectorCountXor) == 0xFFFF_FFFF;
      if !flashWriteLock && isValidAddr && isValidSectorCount {
        EraseSectors(flashOffset / SECTOR_SIZE, sectorCount);
        Finish(Ok);
      } else {
        Finish(Err);
      }
    }

    /** Erases `count` sectors unless the first of them is empty; the byte count is 32 bits wide. */
    method EraseSectors(first: nat, count: nat)
      modifies `flash
      ensures flash == ApplyAll(old(flash), EraseOps(old(flash), first, count))
    {
      hide ApplyAll;
      var isSectorEmpty := IsSectorEmpty(first);
      if !isSectorEmpty {
        var sectorsSize := count * SECTOR_SIZE % TWO_32;
        ScaledMod(count);
        flash := ApplyAll(flash, EraseRange(first, sectorsSize / SECTOR_SIZE));
      } else {
        NoOps(flash);
      }
    }

    method IsSectorEmpty(first: nat) returns (empty: bool)
      ensures empty <==> SectorErased(flash, first)
    {
      if first >= FLASH_SECTORS {
        return false;
      }
      for i := 0 to SECTOR_SIZE
        invariant flash[first][..i] == ERASED[..i]
      {
        if flash[first][i] != 0xFF {
          assert ERASED[i] == 0xFF;
          return false;
        }
        assert flash[first][..i + 1] == flash[first][..i] + [flash[first][i]];
        assert ERASED[..i + 1] == ERASED[..i] + [ERASED[i]];
      }
      assert flash[first][..SECTOR_SIZE] == flash[first] && ERASED[..SECTOR_SIZE] == ERASED;
      return true;
    }

    method HandleWriteSector(w: byte)
      requires InFrame() && writeHandler == Header(WriteFrame) && PlaceStatics(received) && WriteStatics(received)
      modifies this
      ensures InFrame() && State() == Receive(old(State()), w)
      ensures received == [] || (writeHandler in {Header(WriteFrame), WriteData} && PlaceStatics(received) && WriteStatics(received))
      ensures writeHandler == WriteData ==> DataStatics(received)
    {
      hide Receive, Executed, Complete, Started, HandlerFor, KindOf, Modchip.PlaceStatics, Modchip.WriteStatics;
      hide Modchip.Taken, Modchip.State;
      ghost var m := State();
      InsideFrameLength(received, WriteFrame);
      var go := Count(w, WriteFrame, 0x34);
      if !go {
        return;
      }
      Continues(m, w, WriteFrame);
      if cmdByteCounter >= 4 {
        CollectPlace(w);
        CollectCrc(w);
      }
      if cmdByteCounter == 21 {
        writeHandler := WriteData;
      }
      InsideFrame(received, WriteFrame);
    }

    method CollectCrc(w: byte)
      requires Counted(w) && WriteStatics(Before())
      modifies `sectorCrc, `sectorCrcXor
      ensures WriteStatics(received)
    {
      hide U32At, Or;
      Appended(w);
      U32Grows(Before(), w, 14);
      U32Grows(Before(), w, 18);
      match cmdByteCounter {
        case 14 => sectorCrc := w;
        case 15 => sectorCrc := Or(sectorCrc, w * 0x100);
        case 16 => sectorCrc := Or(sectorCrc, w * 0x1_0000);
        case 17 => sectorCrc := Or(sectorCrc, w * 0x100_0000);
        case 18 => sectorCrcXor := w;
        case 19 => sectorCrcXor := Or(sectorCrcXor, w * 0x100);
        case 20 => sectorCrcXor := Or(sectorCrcXor, w * 0x1_0000);
        case 21 => sectorCrcXor := Or(sectorCrcXor, w * 0x100_0000);
        case _ =>
      }
    }

    /** `write_flash_sector`: the payload. */
    method HandleWriteData(w: byte)
      requires InFrame() && writeHandler == WriteData
      requires PlaceStatics(received) && WriteStatics(received) && DataStatics(received)
      modifies this, sector
      ensures InFrame() && State() == Receive(old(State()), w)
      ensures received == [] || (writeHandler == WriteData && PlaceStatics(received) && WriteStatics(received) && DataStatics(received))
    {
      hide Receive, Executed, Complete, Started, HandlerFor, KindOf, Modchip.PlaceStatics, Modchip.WriteStatics;
      hide Modchip.Taken;
      ghost var m := State();
      LastHandler(received);
      PlaceKept(received, w);
      CountLast(w, WriteFrame);
      sector[cmdByteCounter - 22] := w;
      assert sector[..|received| - 22] == received[22..];
      if cmdByteCounter == 22 + SECTOR_SIZE - 1 {
        Ends(m, w, WriteFrame);
        AnswerWrite();
      } else {
        Continues(m, w, WriteFrame);
        InsideFrame(received, WriteFrame);
      }
    }

    lemma PlaceKept(r: seq<byte>, w: byte)
      requires |r| >= 22
      ensures PlaceStatics(r) ==> PlaceStatics(r + [w])
      ensures WriteStatics(r) ==> WriteStatics(r + [w])
    {
      KeptLast(r, w);
      hide U32At, At;
    }

    method AnswerWrite()
      requires CompleteFrame(received, WriteFrame) && |received| == 22 + SECTOR_SIZE
      requires PlaceStatics(received) && WriteStatics(received) && DataStatics(received)
      modifies this
      ensures InFrame() && received == [] && State() == Executed(old(State()), old(received))
    {
      hide Executed, Complete, Started, KindOf, U32At, At, Xor, SectorAccepted, Target, ApplyAll, WriteOps, Crc.CrcFrom;
      WriteExecuted(State(), received);
      var isValidAddr, flashOffset := CheckPlace();
      Complement32(sectorCrc, sectorCrcXor);
      assert sector[..] == sector[..SECTOR_SIZE] == Payload(received);
      var crc := Crc.Crc32Table(sector, SECTOR_SIZE);
      var isValidBlockCrc := Xor(sectorCrc, sectorCrcXor) == 0xFFFF_FFFF && crc.bits as nat == sectorCrc;
      if !flashWriteLock && isValidAddr && isValidBlockCrc {
        WriteSector(flashOffset / SECTOR_SIZE);
        Finish(Ok);
      } else {
        Finish(Err);
      }
    }

    /** Erases and programs the sector unless it holds the buffer's contents already. */
    method WriteSector(target: nat)
      requires sector.Length == SECTOR_SIZE
      modifies `flash
      ensures flash == ApplyAll(old(flash), WriteOps(old(flash), target, sector[..]))
    {
      hide ApplyAll;
      ghost var f := flash;
      var isEq := target < FLASH_SECTORS && flash[target] == sector[..];
      if !isEq {
        flash := ApplyAll(flash, [Erase(target)]);
        flash := ApplyAll(flash, [Program(target, sector[..])]);
        SectorFlash.Concatenation(f, [Erase(target)], [Program(target, sector[..])]);
        assert [Erase(target)] + [Program(target, sector[..])] == [Erase(target), Program(target, sector[..])];
      } else {
        NoOps(f);
      }
    }

    method HandleReboot(w: byte)
      requires InFrame() && writeHandler == Header(RebootFrame) && (|received| > 4 ==> rebootMode == At(received, 4))
      modifies this
      ensures InFrame() && State() == Receive(old(State()), w)
      ensures received == [] || (writeHandler == Header(RebootFrame) && (|received| > 4 ==> rebootMode == At(received, 4)))
    {
      hide Receive, Executed, Complete, Started, HandlerFor, KindOf, Modchip.Taken, Modchip.State;
      ghost var m := State();
      var go := Count(w, RebootFrame, 0x6d);
      if !go {
        return;
      }
      if cmdByteCounter == 4 {
        rebootMode := w;
      } else if cmdByteCounter == 5 {
        rebootModeXor := w;
        Ends(m, w, RebootFrame);
        AnswerReboot();
        return;
      }
      Continues(m, w, RebootFrame);
      InsideFrame(received, RebootFrame);
    }

    method AnswerReboot()
      requires CompleteFrame(received, RebootFrame) && sector.Length == SECTOR_SIZE
      requires rebootMode == At(received, 4) && rebootModeXor == At(received, 5)
      modifies this
      ensures InFrame() && received == [] && State() == Executed(old(State()), old(received))
    {
      hide Executed, Complete, Started, HandlerFor, KindOf, Xor;
      RebootExecuted(State(), received);
      Complement8(rebootMode, rebootModeXor);
      if Xor(rebootMode, rebootModeXor) == 0xFF && rebootMode < REBOOT_MODES_TOTAL {
        if rebootMode == REBOOT_MODE_UPDATE {
          updateMagic := true;
        }
        rebooting := true;
        Finish(Ok);
      } else {
        Finish(Err);
      }
    }

    // ----- configuration.c

    method HandlePinConfig(w: byte)
      requires InFrame() && writeHandler == Header(PinFrame) && (|received| > 4 ==> pinIdx == At(received, 4))
      modifies this
      ensures InFrame() && State() == Receive(old(State()), w)
      ensures received == [] || (writeHandler == Header(PinFrame) && (|received| > 4 ==> pinIdx == At(received, 4)))
    {
      hide Receive, Executed, Complete, Started, HandlerFor, KindOf, Modchip.Taken, Modchip.State, Xor, PinMask;
      ghost var m := State();
      var go := Count(w, PinFrame, 0x04);
      if !go {
        return;
      }
      if cmdByteCounter == 4 {
        pinIdx := w;
      } else if cmdByteCounter == 5 {
        pinIdxXor := w;
        var mask: u32 := 0;
        if pinIdx < PINS_TOTAL {
          mask := PinMaskOf(pinIdx);
        }
        Ends(m, w, PinFrame);
        Complement8(pinIdx, pinIdxXor);
        PinExecuted(State(), received);
        StateBoard();
        if Xor(pinIdx, pinIdxXor) == 0xFF && pinIdx < PINS_TOTAL {
          Finish(OkValue(mask));
        } else {
          Finish(Err);
        }
        return;
      }
      Continues(m, w, PinFrame);
      InsideFrame(received, PinFrame);
    }

    lemma StateBoard()
      ensures State().board == board
    {
    }

    /** The mask as the bits are ORed together, pin by pin. */
    method PinMaskOf(idx: byte) returns (mask: u32)
      requires idx < PINS_TOTAL
      ensures mask == PinMask(board, idx)
    {
      hide EightBits, Pow2;
      PinsFit(board.dataPin, board.cePin);
      PinsFit(board.dataPin, board.oePin);
      PinsFit(board.dataPin, board.resetPin);
      match idx {
        case 0 =>
          EightPins(board.dataPin);
          return EightBits(board.dataPin);
        case 1 => return Pow2(board.cePin);
        case 2 => return Pow2(board.oePin);
        case _ => return Pow2(board.resetPin);
      }
    }

    // ----- The commands without arguments (get_payload.c, patch_control.c, version.c, test.c)

    method HandlePlain(w: byte, plain: Plain)
      requires InFrame() && writeHandler == Header(PlainFrame(plain))
      modifies this
      ensures InFrame() && received == [] && State() == Receive(old(State()), w)
    {
      hide Receive, Executed, Complete, Started, HandlerFor, KindOf, Code, Modchip.Taken;
      ghost var m := State();
      var go := Count(w, PlainFrame(plain), Code(PlainFrame(plain)) / 0x100);
      if go {
        Ends(m, w, PlainFrame(plain));
        PlainExecuted(State(), received, plain);
        match plain {
          case DisableNextOsdsysHook =>
            disableNextOsdsysHook := true;
            Finish(Ok);
          case GetStage1Size => Finish(OkData(Word(board.stage1Size), false));
          case GetStage2Size => Finish(OkData(Word(board.stage2Size), false));
          case GetStage2 => Finish(OkData(Stage2(board.stage2Size), true));
          case FwGitRev => Finish(OkData(FwRevision, true));
          case BootloaderGitRev => Finish(OkData(BootloaderRevision, true));
          case TestStatusOnly => Finish(Ok);
          case TestDataNoCrc => Finish(OkData(Placeholder, false));
          case TestDataWithCrc => Finish(OkData(Placeholder, true));
          case TestNoStatusWithCrc => Finish(DataOnly(Placeholder, true));
          case TestNoStatusNoCrc => Finish(DataOnly(Placeholder, false));
          case TestBusy => Finish(Ok);
        }
      }
    }

    // ----- The function pointer call

    /** One byte from the bus: the handler-based firmware does what the frame-based specification does. */
    method Write(w: byte)
      requires Valid()
      modifies this, sector
      ensures Valid() && State() == Receive(old(State()), w)
    {
      hide Receive, Complete, Started, HandlerFor, KindOf, Modchip.State, Modchip.Stage3Statics, Modchip.AppStatics;
      hide Modchip.KvGetStatics, Modchip.KvSetStatics, Modchip.PlaceStatics, Modchip.EraseStatics, Modchip.WriteStatics;
      match writeHandler {
        case Idle => HandleIdle(w);
        case Cmd => HandleCmd(w);
        case Group0 => HandleGroup0(w);
        case Group1 => HandleGroup1(w);
        case Stage3Last => HandleStage3Last(w);
        case AppLast => HandleAppLast(w);
        case EraseLast => HandleEraseLast(w);
        case WriteData => HandleWriteData(w);
        case Header(Stage3Frame) => HandleStage3(w);
        case Header(AppFrame) => HandleApp(w);
        case Header(KvGetFrame) => HandleKvGet(w);
        case Header(KvSetFrame) => HandleKvSet(w);
        case Header(PartitionSizeFrame) => HandlePartitionSize(w);
        case Header(SectorSizeFrame) => HandleSectorSize(w);
        case Header(LockFrame) => HandleWriteLock(w);
        case Header(EraseFrame) => HandleErase(w);
        case Header(WriteFrame) => HandleWriteSector(w);
        case Header(RebootFrame) => HandleReboot(w);
        case Header(PinFrame) => HandlePinConfig(w);
        case Header(PlainFrame(plain)) => HandlePlain(w, plain);
      }
      if |received| <= 4 {
        NothingAssembled();
      }
    }

    /** Any bytes at all, one handler call each. */
    method WriteAll(bytes: seq<byte>)
      requires Valid()
      modifies this, sector
      ensures Valid() && State() == ReceiveAll(old(State()), bytes)
    {
      hide Receive, Modchip.Valid, Modchip.State;
      ghost var m := State();
      for i := 0 to |bytes|
        invariant Valid() && State() == ReceiveAll(m, bytes[..i])
      {
        assert bytes[..i + 1] == bytes[..i] + [bytes[i]];
        Protocol.Concatenation(m, bytes[..i], [bytes[i]]);
        OneByte(ReceiveAll(m, bytes[..i]), bytes[i]);
        Write(bytes[i]);
      }
      assert bytes[..|bytes|] == bytes;
    }
  }

  lemma OneByte(m: Machine, w: byte)
    ensures ReceiveAll(m, [w]) == Receive(m, w)
  {
    hide Receive;
    assert [w][1..] == [];
  }

  lemma FrameLength(r: seq<byte>, k: Kind)
    requires CompleteFrame(r, k)
    ensures |r| == Length(k)
  {
    hide KindOf, Code;
  }

  lemma HeaderHandler(r: seq<byte>, k: Kind)
    requires Started(r) && !Complete(r) && HandlerFor(r) == Header(k)
    ensures |r| >= 3 && KindOf(r[1], r[2]) == Some(k)
  {
    hide KindOf, Code;
    StartedLength(r);
  }

  lemma InsideFrameLength(r: seq<byte>, k: Kind)
    requires Started(r) && !Complete(r) && HandlerFor(r) == Header(k)
    ensures k == Stage3Frame || k == EraseFrame ==> |r| < 21
    ensures k == AppFrame ==> |r| < 23
    ensures k == WriteFrame ==> |r| < 22
  {
    hide KindOf, Code;
    StartedLength(r);
  }

  lemma LastHandler(r: seq<byte>)
    requires Started(r) && !Complete(r)
    ensures HandlerFor(r) == Stage3Last ==> |r| == 21 && KindOf(r[1], r[2]) == Some(Stage3Frame)
    ensures HandlerFor(r) == AppLast ==> |r| == 23 && KindOf(r[1], r[2]) == Some(AppFrame)
    ensures HandlerFor(r) == EraseLast ==> |r| == 21 && KindOf(r[1], r[2]) == Some(EraseFrame)
    ensures HandlerFor(r) == WriteData ==> 22 <= |r| < 22 + SECTOR_SIZE && KindOf(r[1], r[2]) == Some(WriteFrame)
  {
    hide KindOf, Code;
    StartedLength(r);
  }

  /** Arguments that have arrived completely stay as they are. */
  lemma KeptLast(r: seq<byte>, w: byte)
    ensures forall i: nat :: i + 4 <= |r| ==> U32At(r + [w], i) == U32At(r, i)
    ensures forall i: nat :: i < |r| ==> At(r + [w], i) == At(r, i)
    ensures forall i: nat :: i + 2 <= |r| ==> Complemented8(r + [w], i) == Complemented8(r, i)
    ensures forall i: nat :: i + 8 <= |r| ==> Complemented32(r + [w], i) == Complemented32(r, i)
  {
  }

  lemma AtLast(r: seq<byte>, i: nat)
    requires i < |r|
    ensures At(r, i) == r[i]
  {
  }

  lemma SumOfMod(a: nat, b: nat)
    ensures (a % TWO_32 + b) % TWO_32 == (a + b) % TWO_32
  {
    var x := a % TWO_32 + b;
    DivModUnique(a + b, TWO_32, a / TWO_32 + x / TWO_32, x % TWO_32);
  }

  lemma InsideFrame(r: seq<byte>, k: Kind)
    requires Started(r) && !Complete(r) && |r| >= 3 && KindOf(r[1], r[2]) == Some(k)
    ensures k !in {Stage3Frame, AppFrame, EraseFrame, WriteFrame} ==> HandlerFor(r) == Header(k)
    ensures k == Stage3Frame || k == EraseFrame ==> (|r| < 21 ==> HandlerFor(r) == Header(k))
    ensures |r| == 21 ==> (k == Stage3Frame ==> HandlerFor(r) == Stage3Last) && (k == EraseFrame ==> HandlerFor(r) == EraseLast)
    ensures k == AppFrame ==> HandlerFor(r) == if |r| == 23 then AppLast else Header(k)
    ensures k == WriteFrame ==> HandlerFor(r) == if |r| >= 22 then WriteData else Header(k)
  {
    hide KindOf, Code;
    StartedLength(r);
  }

  lemma EmptyIsStarted()
    ensures Started([]) && !Complete([]) && HandlerFor([]) == Idle
  {
  }

  lemma StartedLength(r: seq<byte>)
    requires Started(r) && !Complete(r)
    ensures |r| >= 3 ==> KindOf(r[1], r[2]).Some? && |r| < Length(KindOf(r[1], r[2]).value)
    ensures |r| >= 1 ==> r[0] == PREFIX
    ensures |r| >= 2 ==> r[1] == GROUP0 || r[1] == GROUP1
  {
  }

  /** `FourthByte` and `ArgumentByte` together. */
  lemma FrameByte(m: Machine, w: byte, k: Kind)
    requires |m.received| >= 3 && Started(m.received) && !Complete(m.received)
    requires KindOf(m.received[1], m.received[2]).Some? ==> KindOf(m.received[1], m.received[2]) == Some(k)
    ensures var r := m.received + [w];
            && KindOf(r[1], r[2]) == Some(k) && |m.received| < Length(k)
            && (|r| == 4 && w != Code(k) / 0x100 ==> Receive(m, w) == m.(received := []))
            && ((|r| == 4 && w == Code(k) / 0x100) || |r| > 4 ==>
                  if |r| == Length(k) then Complete(r) && Receive(m, w) == Executed(m.(received := r), r)
                  else Receive(m, w) == m.(received := r) && Started(r) && !Complete(r))
  {
    hide KindOf, Code, Executed, Receive, Complete, Started;
    StartedLength(m.received);
    if |m.received| == 3 {
      FourthByte(m, w, k);
    } else {
      ArgumentByte(m, w, k);
    }
  }
}
