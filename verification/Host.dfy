/** The console's side of the protocol: the frames it writes (fruitchip-include/modchip/flash.h, apps.h,
    settings.h, io.h), shown to be the inverse of the modchip's decoding, and what transmission errors do. */
module Host {
  import opened Bits
  import opened SectorFlash
  import opened Protocol
  import Crc
  import Settings

  // ----- Encoding

  function Le16(x: word): (r: seq<byte>)
    ensures |r| == 2
  {
    [x % 0x100, x / 0x100]
  }

  function Pair8(x: byte): (r: seq<byte>)
    ensures |r| == 2
  {
    [x, 0xFF - x]
  }

  function Pair16(x: word): (r: seq<byte>)
    ensures |r| == 4
  {
    Le16(x) + Le16(0xFFFF - x)
  }

  function Pair32(x: u32): (r: seq<byte>)
    ensures |r| == 8
  {
    Le32(x) + Le32(0xFFFF_FFFF - x)
  }

  function Header(k: Kind): (r: seq<byte>)
    ensures |r| == 4
  {
    [PREFIX, Group(k), Code(k) % 0x100, Code(k) / 0x100]
  }

  function Flag(b: bool): byte
  {
    if b then 1 else 0
  }

  function KindOfCommand(c: Command): Kind
  {
    match c
    case ReadStage3(_, _, _) => Stage3Frame
    case ReadApp(_, _, _, _) => AppFrame
    case KvGet(_) => KvGetFrame
    case KvSet(_, _) => KvSetFrame
    case GetPartitionSize(_) => PartitionSizeFrame
    case GetSectorSize => SectorSizeFrame
    case WriteLock(_) => LockFrame
    case EraseSectors(_, _, _) => EraseFrame
    case WriteSector(_, _, _) => WriteFrame
    case Reboot(_) => RebootFrame
    case PinConfig(_) => PinFrame
    case Argumentless(plain) => PlainFrame(plain)
  }

  function Arguments(c: Command): seq<byte>
  {
    match c
    case ReadStage3(offset, size, withCrc) => Pair32(offset) + Pair32(size) + Pair8(Flag(withCrc))
    case ReadApp(app, offset, size, withCrc) => Pair8(app) + Pair32(offset) + Pair32(size) + Pair8(Flag(withCrc))
    case KvGet(key) => Pair16(key)
    case KvSet(key, value) => Pair16(key) + Pair32(value)
    case GetPartitionSize(partition) => Pair8(partition)
    case GetSectorSize => []
    case WriteLock(locked) => Pair8(Flag(locked))
    case EraseSectors(partition, sector, count) => Pair8(partition) + Pair32(sector) + Pair32(count)
    case WriteSector(partition, sector, data) => Pair8(partition) + Pair32(sector) + Pair32(Crc.Crc32(data)) + data
    case Reboot(mode) => Pair8(mode)
    case PinConfig(pin) => Pair8(pin)
    case Argumentless(_) => []
  }

  function Encode(c: Command): seq<byte>
  {
    Header(KindOfCommand(c)) + Arguments(c)
  }

  // ----- Decoding what was encoded

  lemma Read32(r: seq<byte>, i: nat, x: u32)
    requires i + 4 <= |r| && r[i..i + 4] == Le32(x)
    ensures U32At(r, i) == x
  {
    hide LeU32;
    var w := r[i..i + 4];
    assert w[0] == At(r, i) && w[1] == At(r, i + 1) && w[2] == At(r, i + 2) && w[3] == At(r, i + 3);
    LeU32Digits(w[0], w[1], w[2], w[3], x);
  }

  lemma Placed32(a: seq<byte>, x: u32, b: seq<byte>, r: seq<byte>)
    requires r == a + Pair32(x) + b
    ensures U32At(r, |a|) == x && Complemented32(r, |a|)
  {
    hide U32At, Le32;
    assert r[|a|..|a| + 4] == Le32(x) && r[|a| + 4..|a| + 8] == Le32(0xFFFF_FFFF - x);
    Read32(r, |a|, x);
    Read32(r, |a| + 4, 0xFFFF_FFFF - x);
  }

  lemma Placed16(a: seq<byte>, x: word, b: seq<byte>, r: seq<byte>)
    requires r == a + Pair16(x) + b
    ensures U16At(r, |a|) == x && Complemented16(r, |a|)
  {
    assert forall i :: 0 <= i < 4 ==> r[|a| + i] == Pair16(x)[i];
  }

  lemma Placed8(a: seq<byte>, x: byte, b: seq<byte>, r: seq<byte>)
    requires r == a + Pair8(x) + b
    ensures At(r, |a|) == x && Complemented8(r, |a|)
    ensures x <= 1 ==> ComplementedFlag(r, |a|)
  {
    assert r[|a|] == x && r[|a| + 1] == 0xFF - x;
  }

  lemma EncodedIsComplete(c: Command)
    ensures Complete(Encode(c)) && KindOf(Encode(c)[1], Encode(c)[2]) == Some(KindOfCommand(c))
  {
    hide Header, Arguments;
    EncodedLength(c);
    HeaderAnnounces(Encode(c), KindOfCommand(c));
  }

  lemma EncodedLength(c: Command)
    ensures |Encode(c)| == Length(KindOfCommand(c))
  {
    hide Header, Pair8, Pair16, Pair32, Crc.Crc32;
  }

  lemma HeaderAnnounces(r: seq<byte>, k: Kind)
    requires |r| == Length(k) && Header(k) <= r
    ensures Complete(r) && KindOf(r[1], r[2]) == Some(k)
  {
    hide KindOf, Code, Length;
    CodesAreDistinct(k);
    assert r[0] == Header(k)[0] && r[1] == Header(k)[1] && r[2] == Header(k)[2] && r[3] == Header(k)[3];
  }

  /** Decoding undoes encoding, for every command. */
  lemma RoundTrip(c: Command)
    ensures Complete(Encode(c)) && Decode(Encode(c)) == Some(c)
  {
    hide Complete, Encode, KindOf, Decode;
    EncodedIsComplete(c);
    match c {
      case ReadStage3(offset, size, withCrc) => Stage3RoundTrip(offset, size, withCrc);
      case ReadApp(app, offset, size, withCrc) => AppRoundTrip(app, offset, size, withCrc);
      case KvSet(key, value) => KvSetRoundTrip(key, value);
      case EraseSectors(partition, sector, count) => EraseRoundTrip(partition, sector, count);
      case WriteSector(partition, sector, data) => WriteRoundTrip(partition, sector, data);
      case _ => ShortRoundTrip(c);
    }
  }

  predicate Announces(r: seq<byte>, k: Kind)
  {
    Complete(r) && KindOf(r[1], r[2]) == Some(k)
  }

  lemma Stage3RoundTrip(offset: u32, size: u32, withCrc: bool)
    requires Announces(Encode(ReadStage3(offset, size, withCrc)), Stage3Frame)
    ensures Decode(Encode(ReadStage3(offset, size, withCrc))) == Some(ReadStage3(offset, size, withCrc))
  {
    hide Complete, Header, KindOf, Pair8, Pair32, U32At, At, Complemented8, Complemented32, ComplementedFlag;
    var h, r := Header(Stage3Frame), Encode(ReadStage3(offset, size, withCrc));
    var p, q, f := Pair32(offset), Pair32(size), Pair8(Flag(withCrc));
    Joined3(h, p, q, f, [], r);
    Placed32(h, offset, q + f, r);
    Placed32(h + p, size, f, r);
    Placed8(h + p + q, Flag(withCrc), [], r);
  }

  lemma AppRoundTrip(app: byte, offset: u32, size: u32, withCrc: bool)
    requires Announces(Encode(ReadApp(app, offset, size, withCrc)), AppFrame)
    ensures Decode(Encode(ReadApp(app, offset, size, withCrc))) == Some(ReadApp(app, offset, size, withCrc))
  {
    hide Complete, Header, KindOf, Pair8, Pair32, U32At, At, Complemented8, Complemented32, ComplementedFlag;
    var h, r := Header(AppFrame), Encode(ReadApp(app, offset, size, withCrc));
    var a, p, q, f := Pair8(app), Pair32(offset), Pair32(size), Pair8(Flag(withCrc));
    Joined3(h, a, p, q, f, r);
    Placed8(h, app, p + q + f, r);
    Placed32(h + a, offset, q + f, r);
    Placed32(h + a + p, size, f, r);
    Placed8(h + a + p + q, Flag(withCrc), [], r);
  }

  lemma KvSetRoundTrip(key: word, value: u32)
    requires Announces(Encode(KvSet(key, value)), KvSetFrame)
    ensures Decode(Encode(KvSet(key, value))) == Some(KvSet(key, value))
  {
    hide Complete, Header, KindOf, Pair16, Pair32, U16At, U32At, Complemented16, Complemented32;
    var h, r := Header(KvSetFrame), Encode(KvSet(key, value));
    Joined3(h, Pair16(key), Pair32(value), [], [], r);
    Placed16(h, key, Pair32(value), r);
    Placed32(h + Pair16(key), value, [], r);
  }

  lemma EraseRoundTrip(partition: byte, sector: u32, count: u32)
    requires Announces(Encode(EraseSectors(partition, sector, count)), EraseFrame)
    ensures Decode(Encode(EraseSectors(partition, sector, count))) == Some(EraseSectors(partition, sector, count))
  {
    hide Complete, Header, KindOf, Pair8, Pair32, U32At, At, Complemented8, Complemented32;
    var h, r := Header(EraseFrame), Encode(EraseSectors(partition, sector, count));
    var a, p, q := Pair8(partition), Pair32(sector), Pair32(count);
    Joined3(h, a, p, q, [], r);
    Placed8(h, partition, p + q, r);
    Placed32(h + a, sector, q, r);
    Placed32(h + a + p, count, [], r);
  }

  lemma WriteRoundTrip(partition: byte, sector: u32, data: Sector)
    requires Announces(Encode(WriteSector(partition, sector, data)), WriteFrame)
    ensures Decode(Encode(WriteSector(partition, sector, data))) == Some(WriteSector(partition, sector, data))
  {
    hide Complete, Header, KindOf, Pair8, Pair32, U32At, At, Complemented8, Complemented32, Crc.CrcFrom;
    var h, r, crc := Header(WriteFrame), Encode(WriteSector(partition, sector, data)), Crc.Crc32(data);
    var a, p, q := Pair8(partition), Pair32(sector), Pair32(crc);
    Joined3(h, a, p, q, data, r);
    Placed8(h, partition, p + q + data, r);
    Placed32(h + a, sector, q + data, r);
    Placed32(h + a + p, crc, data, r);
    TailIs(h + a + p + q, data, r);
  }

  lemma TailIs(x: seq<byte>, data: seq<byte>, r: seq<byte>)
    requires r == x + data
    ensures r[|x|..] == data
  {
  }

  /** Commands with one argument or none. */
  lemma ShortRoundTrip(c: Command)
    requires !c.ReadStage3? && !c.ReadApp? && !c.KvSet? && !c.EraseSectors? && !c.WriteSector?
    requires Announces(Encode(c), KindOfCommand(c))
    ensures Decode(Encode(c)) == Some(c)
  {
    hide Complete, Header, KindOf, Pair8, Pair16, U16At, At, Complemented8, Complemented16;
    var h, r := Header(KindOfCommand(c)), Encode(c);
    assert r == h + Arguments(c) + [];
    match c {
      case KvGet(key) => Placed16(h, key, [], r);
      case GetPartitionSize(partition) => Placed8(h, partition, [], r);
      case WriteLock(locked) => Placed8(h, Flag(locked), [], r);
      case Reboot(mode) => Placed8(h, mode, [], r);
      case PinConfig(pin) => Placed8(h, pin, [], r);
      case _ =>
    }
  }

  lemma Joined3(h: seq<byte>, a: seq<byte>, b: seq<byte>, c: seq<byte>, d: seq<byte>, r: seq<byte>)
    requires r == h + (a + b + c + d) || (d == [] && r == h + (a + b + c)) || (c == d == [] && r == h + (a + b))
    ensures r == h + a + (b + c + d) == h + a + b + (c + d) == h + a + b + c + d
  {
  }

  // ----- Whole conversations

  function EncodeAll(commands: seq<Command>): seq<byte>
  {
    if |commands| == 0 then [] else Encode(commands[0]) + EncodeAll(commands[1..])
  }

  /** Executing one command and answering it. */
  function Step(m: Machine, c: Command): Machine
  {
    var answer := Execute(m.env, c, m.board);
    m.(env := answer.0, replies := m.replies + [answer.1])
  }

  function ExecuteAll(m: Machine, commands: seq<Command>): Machine
    decreases |commands|
  {
    if |commands| == 0 then m else ExecuteAll(Step(m, commands[0]), commands[1..])
  }

  lemma EncodedCommandIsExecuted(m: Machine, c: Command)
    requires m.received == []
    ensures ReceiveAll(m, Encode(c)) == Step(m, c)
  {
    hide Encode, Decode, Execute, Complete, ReceiveAll;
    RoundTrip(c);
    FrameIsExecuted(m, Encode(c));
  }

  /** Host and modchip agree: whatever commands the host sends, the modchip executes exactly those with exactly
      those arguments, answers each once, and is idle afterwards. */
  lemma {:induction false} Conversation(m: Machine, commands: seq<Command>)
    requires m.received == []
    ensures ReceiveAll(m, EncodeAll(commands)) == ExecuteAll(m, commands)
    ensures ExecuteAll(m, commands).received == []
    decreases |commands|
  {
    hide Encode, Execute, Receive;
    if |commands| != 0 {
      EncodedCommandIsExecuted(m, commands[0]);
      Protocol.Concatenation(m, Encode(commands[0]), EncodeAll(commands[1..]));
      Conversation(Step(m, commands[0]), commands[1..]);
    }
  }

  lemma {:induction false} ExecuteConcatenation(m: Machine, a: seq<Command>, b: seq<Command>)
    ensures ExecuteAll(m, a + b) == ExecuteAll(ExecuteAll(m, a), b)
    decreases |a|
  {
    hide Step;
    if |a| == 0 {
      assert a + b == b;
    } else {
      assert (a + b)[1..] == a[1..] + b;
      ExecuteConcatenation(Step(m, a[0]), a[1..], b);
    }
  }

  lemma NothingExecuted(m: Machine)
    ensures ExecuteAll(m, []) == m
  {
  }

  // ----- Connections lost in the middle

  lemma {:induction false} PartialFrame(m: Machine, f: seq<byte>, k: nat)
    requires m.received == [] && Complete(f) && k < |f|
    ensures ReceiveAll(m, f[..k]) == m.(received := f[..k])
  {
    hide Started, Complete, Answer, Decode;
    if k == 0 {
      assert f[..0] == [];
    } else {
      PartialFrame(m, f, k - 1);
      assert f[..k] == f[..k - 1] + [f[k - 1]];
      Protocol.Concatenation(m, f[..k - 1], [f[k - 1]]);
      assert [f[k - 1]][1..] == [];
      PrefixIsStarted(f, k);
    }
  }

  /** However many bytes of a conversation arrive, what has been executed is some first commands of it. */
  lemma {:induction false} CutConversation(m: Machine, commands: seq<Command>, k: nat) returns (n: nat)
    requires m.received == [] && k <= |EncodeAll(commands)|
    ensures n <= |commands| && ReceiveAll(m, EncodeAll(commands)[..k]).env == ExecuteAll(m, commands[..n]).env
    decreases |commands|
  {
    hide Encode, Step, Receive, Complete;
    if |commands| == 0 {
      n := 0;
    } else {
      var f, rest := Encode(commands[0]), EncodeAll(commands[1..]);
      RoundTrip(commands[0]);
      if k < |f| {
        n := 0;
        assert EncodeAll(commands)[..k] == f[..k];
        PartialFrame(m, f, k);
        assert commands[..0] == [];
      } else {
        EncodedCommandIsExecuted(m, commands[0]);
        assert EncodeAll(commands)[..k] == f + rest[..k - |f|];
        Protocol.Concatenation(m, f, rest[..k - |f|]);
        StepStaysIdle(m, commands[0]);
        n := CutConversation(Step(m, commands[0]), commands[1..], k - |f|);
        n := n + 1;
        assert commands[..n][0] == commands[0] && commands[..n][1..] == commands[1..][..n - 1];
      }
    }
  }

  lemma StepStaysIdle(m: Machine, c: Command)
    ensures Step(m, c).received == m.received
  {
    hide Execute;
  }

  // ----- Transmission errors

  lemma Changed32(f: seq<byte>, i: nat, b: byte, at: nat)
    requires i < |f| && b != f[i] && at + 8 <= |f|
    ensures !(at <= i < at + 8) ==>
              U32At(f[i := b], at) == U32At(f, at) && (Complemented32(f[i := b], at) <==> Complemented32(f, at))
    ensures at <= i < at + 8 && Complemented32(f, at) ==> !Complemented32(f[i := b], at)
  {
    var g := f[i := b];
    assert forall j :: 0 <= j < |f| && j != i ==> At(g, j) == At(f, j);
    assert At(g, i) == b && At(f, i) == f[i];
  }

  lemma Changed16(f: seq<byte>, i: nat, b: byte, at: nat)
    requires i < |f| && b != f[i] && at + 4 <= |f|
    ensures !(at <= i < at + 4) ==>
              U16At(f[i := b], at) == U16At(f, at) && (Complemented16(f[i := b], at) <==> Complemented16(f, at))
    ensures at <= i < at + 4 && Complemented16(f, at) ==> !Complemented16(f[i := b], at)
  {
    var g := f[i := b];
    assert forall j :: 0 <= j < |f| && j != i ==> At(g, j) == At(f, j);
    assert At(g, i) == b && At(f, i) == f[i];
  }

  lemma Changed8(f: seq<byte>, i: nat, b: byte, at: nat)
    requires i < |f| && b != f[i] && at + 2 <= |f|
    ensures !(at <= i < at + 2) ==>
              At(f[i := b], at) == At(f, at) && (Complemented8(f[i := b], at) <==> Complemented8(f, at))
    ensures at <= i < at + 2 && Complemented8(f, at) ==> !Complemented8(f[i := b], at)
  {
  }

  lemma ChangedFlag(f: seq<byte>, i: nat, b: byte, at: nat)
    requires i < |f| && b != f[i] && at + 2 <= |f|
    ensures !(at <= i < at + 2) ==>
              At(f[i := b], at) == At(f, at) && (ComplementedFlag(f[i := b], at) <==> ComplementedFlag(f, at))
    ensures at <= i < at + 2 && ComplementedFlag(f, at) ==>
              (ComplementedFlag(f[i := b], at) <==> i == at && b != 0 && f[at] != 0)
  {
  }

  lemma ChangedArgument(f: seq<byte>, i: nat, b: byte)
    requires Complete(f) && 4 <= i < |f|
    ensures Complete(f[i := b]) && KindOf(f[i := b][1], f[i := b][2]) == KindOf(f[1], f[2])
  {
    hide KindOf, Code;
  }

  /** Where the frame carries a CRC flag, a non-zero flag byte changed to another non-zero byte means the same. */
  predicate SameFlag(f: seq<byte>, i: nat, b: byte)
    requires Complete(f)
  {
    || (KindOf(f[1], f[2]) == Some(Stage3Frame) && i == 20 && At(f, i) != 0 && b != 0)
    || (KindOf(f[1], f[2]) == Some(AppFrame) && i == 22 && At(f, i) != 0 && b != 0)
  }

  /** Any single changed byte after the command code of a frame that decodes makes it undecodable, except a CRC flag byte
      replaced by one that means the same, which changes nothing. */
  lemma ByteErrorDetected(f: seq<byte>, i: nat, b: byte)
    requires Complete(f) && Decode(f).Some? && 4 <= i < |f| && b != f[i]
    ensures Complete(f[i := b])
    ensures Decode(f[i := b]) == if SameFlag(f, i, b) then Decode(f) else None
  {
    hide KindOf, U16At, U32At, At, Complemented8, Complemented16, Complemented32, ComplementedFlag, Complete;
    ChangedArgument(f, i, b);
    AtIs(f, i);
    FrameLength(f);
    match KindOf(f[1], f[2]).value {
      case Stage3Frame =>
        Changed32(f, i, b, 4);
        Changed32(f, i, b, 12);
        ChangedFlag(f, i, b, 20);
        AtIs(f[i := b], i);
      case AppFrame =>
        Changed8(f, i, b, 4);
        Changed32(f, i, b, 6);
        Changed32(f, i, b, 14);
        ChangedFlag(f, i, b, 22);
        AtIs(f[i := b], i);
      case KvGetFrame =>
        Changed16(f, i, b, 4);
      case KvSetFrame =>
        Changed16(f, i, b, 4);
        Changed32(f, i, b, 8);
      case EraseFrame =>
        Changed8(f, i, b, 4);
        Changed32(f, i, b, 6);
        Changed32(f, i, b, 14);
      case WriteFrame =>
        WriteErrorDetected(f, i, b);
      case PartitionSizeFrame | LockFrame | RebootFrame | PinFrame =>
        Changed8(f, i, b, 4);
      case SectorSizeFrame | PlainFrame(_) =>
        assert false;
    }
  }

  lemma AtIs(f: seq<byte>, i: nat)
    requires i < |f|
    ensures At(f, i) == f[i]
  {
  }

  lemma FrameLength(f: seq<byte>)
    requires Complete(f)
    ensures KindOf(f[1], f[2]).Some? && |f| == Length(KindOf(f[1], f[2]).value)
  {
  }

  lemma WriteErrorDetected(f: seq<byte>, i: nat, b: byte)
    requires Complete(f) && KindOf(f[1], f[2]) == Some(WriteFrame)
    requires Decode(f).Some? && 4 <= i < |f| && b != f[i]
    requires Complete(f[i := b]) && KindOf(f[i := b][1], f[i := b][2]) == Some(WriteFrame)
    ensures Decode(f[i := b]) == None
  {
    hide KindOf, U32At, At, Complemented8, Complemented32;
    Changed8(f, i, b, 4);
    Changed32(f, i, b, 6);
    Changed32(f, i, b, 14);
    if i >= 22 {
      Crc.ByteChangeDetected(Payload(f), i - 22, b);
      assert Payload(f[i := b]) == Payload(f)[i - 22 := b];
    }
  }

  /** On the wire: a frame damaged in one byte is answered with an error and leaves flash, settings and lock alone. */
  lemma DamagedFrameHasNoEffect(m: Machine, c: Command, i: nat, b: byte)
    requires m.received == [] && 4 <= i < |Encode(c)| && b != Encode(c)[i]
    ensures Complete(Encode(c))
    ensures !SameFlag(Encode(c), i, b) ==> ReceiveAll(m, Encode(c)[i := b]) == m.(replies := m.replies + [Err])
    ensures SameFlag(Encode(c), i, b) ==> ReceiveAll(m, Encode(c)[i := b]) == ReceiveAll(m, Encode(c))
  {
    hide Encode, Decode, Execute, Complete, ReceiveAll, SameFlag;
    RoundTrip(c);
    ByteErrorDetected(Encode(c), i, b);
    FrameIsExecuted(m, Encode(c)[i := b]);
    FrameIsExecuted(m, Encode(c));
  }

  // ----- Bounds of the write and erase commands

  predicate InPartition(partition: nat, j: nat)
  {
    WritableFirst(partition) <= j < WritableFirst(partition) + WritableCount(partition)
  }

  /** Every sector operation hits a sector of the partition. */
  predicate Inside(ops: seq<SectorOp>, partition: nat)
  {
    forall op :: op in ops ==> InPartition(partition, op.sector)
  }

  lemma {:induction false} InsideLeavesTheRest(f: Flash, ops: seq<SectorOp>, partition: nat, j: nat)
    requires Inside(ops, partition) && j < FLASH_SECTORS && !InPartition(partition, j)
    ensures ApplyAll(f, ops)[j] == f[j]
    decreases |ops|
  {
    hide InPartition, ProgramOver;
    if |ops| != 0 {
      assert ops[0] in ops;
      InsideLeavesTheRest(Apply(f, ops[0]), ops[1..], partition, j);
    }
  }

  /** The 32-bit offset of the addressed sector, and that of the one after it, do not wrap. */
  predicate NoWrap(partition: nat, sector: nat)
  {
    sector % SECTOR_SPACE + 1 < SECTOR_SPACE - WritableFirst(partition)
  }

  lemma TargetInside(partition: nat, sector: u32)
    requires SectorAccepted(partition, sector)
    ensures InPartition(partition, Target(partition, sector)) <==> NoWrap(partition, sector)
    ensures NoWrap(partition, sector) ==> Target(partition, sector) == WritableFirst(partition) + sector % SECTOR_SPACE
  {
    TargetOf(partition, sector);
  }

  /** An accepted write stays inside its partition exactly if the offset does not wrap, or there is nothing to do. */
  lemma WriteStaysInside(e: Env, partition: byte, sector: u32, data: Sector)
    requires !e.locked && SectorAccepted(partition, sector)
    ensures Inside(FlashOps(e, WriteSector(partition, sector, data)), partition)
            <==> || NoWrap(partition, sector)
                 || (Target(partition, sector) < FLASH_SECTORS && e.flash[Target(partition, sector)] == data)
  {
    hide Target, InPartition, NoWrap, SectorAccepted;
    TargetInside(partition, sector);
    var ops, t := FlashOps(e, WriteSector(partition, sector, data)), Target(partition, sector);
    assert forall op :: op in ops ==> op.sector == t;
    assert ops != [] ==> ops[0] in ops;
  }

  /** An accepted erase stays inside its partition exactly if its first sector is empty, its count is 0 modulo 2^20,
      or the offset does not wrap and the last sector requested still belongs to the partition: the count itself is
      never checked. */
  lemma EraseStaysInside(e: Env, partition: byte, sector: u32, count: u32)
    requires !e.locked && SectorAccepted(partition, sector)
    ensures Inside(FlashOps(e, EraseSectors(partition, sector, count)), partition)
            <==> || SectorErased(e.flash, Target(partition, sector))
                 || count % SECTOR_SPACE == 0
                 || (NoWrap(partition, sector) && sector % SECTOR_SPACE + count % SECTOR_SPACE <= WritableCount(partition))
  {
    hide Target, NoWrap, SectorAccepted, SectorErased;
    TargetInside(partition, sector);
    var ops, t, n := FlashOps(e, EraseSectors(partition, sector, count)), Target(partition, sector), count % SECTOR_SPACE;
    if !SectorErased(e.flash, t) && n != 0 {
      assert ops == EraseRange(t, n);
      assert ops[0] == Erase(t) && ops[n - 1] == Erase(t + n - 1);
      assert ops[0] in ops && ops[n - 1] in ops;
    }
  }

  /** One command can erase its way out of the update partition, over the settings and into the apps. */
  lemma EraseLeavesPartition(e: Env, board: Board)
    requires !e.locked && e.flash[UPDATE_FIRST] != ERASED
    ensures var c := EraseSectors(PARTITION_FW_UPDATE, 0, 300);
            var done := Execute(e, c, board);
            && NoWrap(PARTITION_FW_UPDATE, 0) && !Inside(FlashOps(e, c), PARTITION_FW_UPDATE) && done.1 == Ok
            && done.0.flash[SETTINGS_FIRST] == done.0.flash[APPS_FIRST] == ERASED
  {
    hide ApplyAll, EraseRange, Inside;
    EraseStaysInside(e, PARTITION_FW_UPDATE, 0, 300);
    EraseRangeErases(e.flash, UPDATE_FIRST, 300);
  }

  /** The sectors that an erase asks for and the chip has. */
  predicate AllErased(f: Flash, first: nat, n: nat)
  {
    forall j :: first <= j < first + n && j < FLASH_SECTORS ==> f[j] == ERASED
  }

  /** An accepted erase leaves what it asked for erased exactly if the first sector was not empty or everything
      was empty before. */
  lemma EraseErasesExactly(e: Env, partition: byte, sector: u32, count: u32, board: Board)
    requires !e.locked && SectorAccepted(partition, sector)
    ensures var t, n := Target(partition, sector), count % SECTOR_SPACE;
            AllErased(Execute(e, EraseSectors(partition, sector, count), board).0.flash, t, n)
            <==> !SectorErased(e.flash, t) || AllErased(e.flash, t, n)
  {
    hide ApplyAll, EraseRange, Target, SectorAccepted;
    NoOps(e.flash);
    EraseRangeErases(e.flash, Target(partition, sector), count % SECTOR_SPACE);
  }

  // ----- Retries

  lemma EraseTwice(f: Flash, first: nat, count: nat)
    ensures var g := ApplyAll(f, EraseOps(f, first, count));
            ApplyAll(g, EraseOps(g, first, count)) == g
  {
    var n := count % SECTOR_SPACE;
    var g := ApplyAll(f, EraseOps(f, first, count));
    EraseRangeErases(f, first, n);
    EraseRangeErases(g, first, n);
    hide ApplyAll, EraseRange;
    NoOps(f);
    NoOps(g);
    if !SectorErased(f, first) && !SectorErased(g, first) {
      assert g == ApplyAll(f, EraseRange(first, n));
      assert ApplyAll(g, EraseRange(first, n)) == g;
    }
  }

  lemma WriteTwice(f: Flash, sector: nat, data: Sector)
    ensures var g := ApplyAll(f, WriteOps(f, sector, data));
            ApplyAll(g, WriteOps(g, sector, data)) == g
  {
    var g := ApplyAll(f, WriteOps(f, sector, data));
    if sector < FLASH_SECTORS {
      ReplaceStores(f, sector, data);
      NoOps(g);
    } else {
      OutOfFlash(f, sector, data);
    }
  }

  /** The retry loops are harmless: executing a command again, after an answer was lost, changes nothing more and
      gives the same answer. */
  lemma RetryIsHarmless(e: Env, c: Command, board: Board)
    ensures Execute(Execute(e, c, board).0, c, board) == Execute(e, c, board)
  {
    hide Execute;
    match c {
      case EraseSectors(partition, sector, count) => RetriedErase(e, partition, sector, count, board);
      case WriteSector(partition, sector, data) => RetriedWrite(e, partition, sector, data, board);
      case KvSet(key, value) => RetriedKvSet(e, key, value, board);
      case _ => RetriedOther(e, c, board);
    }
  }

  lemma RetriedErase(e: Env, partition: byte, sector: u32, count: u32, board: Board)
    ensures var c := EraseSectors(partition, sector, count);
            Execute(Execute(e, c, board).0, c, board) == Execute(e, c, board)
  {
    hide ApplyAll, EraseOps, SectorAccepted, Target;
    EraseTwice(e.flash, Target(partition, sector), count);
    NoOps(e.flash);
  }

  lemma RetriedWrite(e: Env, partition: byte, sector: u32, data: Sector, board: Board)
    ensures var c := WriteSector(partition, sector, data);
            Execute(Execute(e, c, board).0, c, board) == Execute(e, c, board)
  {
    hide ApplyAll, WriteOps, SectorAccepted, Target;
    WriteTwice(e.flash, Target(partition, sector), data);
    NoOps(e.flash);
  }

  lemma RetriedKvSet(e: Env, key: word, value: u32, board: Board)
    ensures var c := KvSet(key, value);
            Execute(Execute(e, c, board).0, c, board) == Execute(e, c, board)
  {
    hide Settings.SetKey;
    SetTwice(e.settings, key, value);
  }

  lemma RetriedOther(e: Env, c: Command, board: Board)
    requires !c.EraseSectors? && !c.WriteSector? && !c.KvSet?
    ensures Execute(Execute(e, c, board).0, c, board) == Execute(e, c, board)
  {
    hide Settings.KeyValue, AppsWord, PartitionSize;
    assert c.Reboot? || c.WriteLock? || c.Argumentless? || Execute(e, c, board).0 == e;
  }

  lemma SetTwice(s: Settings.Image, key: nat, value: nat)
    ensures key < Settings.KEYS_TOTAL ==> Settings.SetKey(Settings.SetKey(s, key, value), key, value) == Settings.SetKey(s, key, value)
  {
    if key < Settings.KEYS_TOTAL {
      Settings.SetKeyReadsBack(s, key, value, key);
      hide Settings.KeyValue, Settings.Reduced;
    }
  }

  // ----- From the wire to the firmware and to the settings

  /** What a conversation means for the settings: its settings writes; everything else leaves them alone. */
  function SettingsEvents(commands: seq<Command>): (events: seq<Settings.Command>)
    ensures |events| == |commands|
  {
    seq(|commands|, i requires 0 <= i < |commands| =>
      match commands[i]
      case KvSet(key, value) => Settings.Command.KvSet(key, value)
      case KvGet(key) => Settings.Command.KvGet(key)
      case Reboot(_) => Settings.Command.Reboot
      case _ => Settings.Command.Other)
  }

  lemma {:induction false} SettingsFollow(m: Machine, commands: seq<Command>)
    ensures ExecuteAll(m, commands).env.settings == Settings.Run(m.env.settings, SettingsEvents(commands))
    ensures ExecuteAll(m, commands).board == m.board
    decreases |commands|
  {
    hide Settings.SetKey, Settings.KeyValue, ApplyAll, FlashOps, SectorAccepted, AppsWord, PartitionSize;
    if |commands| == 0 {
      NothingExecuted(m);
    } else {
      var before, c := commands[..|commands| - 1], commands[|commands| - 1];
      SettingsFollow(m, before);
      assert commands == before + [c];
      ExecuteConcatenation(m, before, [c]);
      var n := ExecuteAll(m, before);
      assert [c][0] == c && [c][1..] == [];
      assert ExecuteAll(n, [c]) == Step(n, c);
      var events := SettingsEvents(commands);
      assert events[..|events| - 1] == SettingsEvents(before);
    }
  }

  /** Asking for a key at the end of any conversation answers with the last value that was accepted for it. */
  lemma LastValueIsAnswered(m: Machine, commands: seq<Command>, key: word)
    requires m.received == [] && key < Settings.KEYS_TOTAL
    ensures var done := ReceiveAll(m, EncodeAll(commands) + Encode(KvGet(key)));
            var last := Settings.LastAccepted(SettingsEvents(commands), key, Settings.KeyValue(m.env.settings, key));
            && |done.replies| > 0
            && last < TWO_32 && done.replies[|done.replies| - 1] == OkValue(last)
  {
    hide ReceiveAll, EncodeAll, Encode, ExecuteAll, Settings.KeyValue, Settings.LastAccepted, Settings.Run, SettingsEvents;
    var bytes := EncodeAll(commands);
    var n := ReceiveAll(m, bytes);
    Conversation(m, commands);
    SettingsFollow(m, commands);
    Protocol.Concatenation(m, bytes, Encode(KvGet(key)));
    EncodedCommandIsExecuted(n, KvGet(key));
    Settings.LastValueWins(m.env.settings, SettingsEvents(commands), key);
    Settings.KeyValueIsSmall(n.env.settings);
  }
}
