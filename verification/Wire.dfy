/** The protocol byte by byte: which bytes on the bus ask an idle modchip for what, and what it answers
    (fruitchip-include/modchip/cmd.h, fruitchip-fw/src/boot_rom/write/). */
module Wire {
  import opened Bits
  import opened SectorFlash
  import opened Protocol
  import opened Host
  import Crc
  import Settings

  /** The first four bytes of each frame. */
  lemma CommandBytes()
    ensures Header(Stage3Frame) == [0xCF, 0x0C, 0x38, 0x73] && Header(AppFrame) == [0xCF, 0x0C, 0xB8, 0x33]
    ensures Header(KvGetFrame) == [0xCF, 0x0C, 0x27, 0x1D] && Header(KvSetFrame) == [0xCF, 0x0C, 0xB1, 0x40]
    ensures Header(PartitionSizeFrame) == [0xCF, 0x0C, 0x3A, 0x50] && Header(SectorSizeFrame) == [0xCF, 0x0C, 0x5D, 0x67]
    ensures Header(LockFrame) == [0xCF, 0x0C, 0x97, 0x07] && Header(EraseFrame) == [0xCF, 0x0C, 0x9A, 0x28]
    ensures Header(WriteFrame) == [0xCF, 0x0C, 0x77, 0x34] && Header(RebootFrame) == [0xCF, 0x0C, 0x06, 0x6D]
    ensures Header(PinFrame) == [0xCF, 0x0C, 0x31, 0x04]
  {
  }

  lemma Answered(m: Machine, c: Command, frame: seq<byte>, e: Env, reply: Reply)
    requires m.received == [] && Encode(c) == frame && Execute(m.env, c, m.board) == (e, reply)
    ensures ReceiveAll(m, frame) == m.(env := e, replies := m.replies + [reply])
  {
    hide Encode, Execute, ReceiveAll;
    EncodedCommandIsExecuted(m, c);
  }

  /** The frame is answered and changes nothing else. */
  predicate Answers(m: Machine, frame: seq<byte>, reply: Reply)
  {
    ReceiveAll(m, frame) == m.(replies := m.replies + [reply])
  }

  // ----- Commands without arguments

  lemma PlainBytes()
    ensures Header(PlainFrame(DisableNextOsdsysHook)) == [0xCF, 0x0C, 0x61, 0x1C]
    ensures Header(PlainFrame(GetStage1Size)) == [0xCF, 0x0C, 0x08, 0xD0]
    ensures Header(PlainFrame(GetStage2Size)) == [0xCF, 0x0C, 0x6E, 0xC4]
    ensures Header(PlainFrame(GetStage2)) == [0xCF, 0x0C, 0x2C, 0x88]
    ensures Header(PlainFrame(FwGitRev)) == [0xCF, 0x0C, 0x6A, 0x1E]
    ensures Header(PlainFrame(BootloaderGitRev)) == [0xCF, 0x0C, 0x57, 0x1B]
    ensures Header(PlainFrame(TestStatusOnly)) == [0xCF, 0x1C, 0xCD, 0x18]
    ensures Header(PlainFrame(TestDataNoCrc)) == [0xCF, 0x1C, 0x0B, 0x2A]
    ensures Header(PlainFrame(TestDataWithCrc)) == [0xCF, 0x1C, 0x64, 0x78]
    ensures Header(PlainFrame(TestNoStatusWithCrc)) == [0xCF, 0x1C, 0x1D, 0x24]
    ensures Header(PlainFrame(TestNoStatusNoCrc)) == [0xCF, 0x1C, 0x1F, 0x11]
    ensures Header(PlainFrame(TestBusy)) == [0xCF, 0x1C, 0xA7, 0x5C]
  {
  }

  lemma AnsweredPlain(m: Machine, plain: Plain, frame: seq<byte>, reply: Reply)
    requires m.received == [] && Header(PlainFrame(plain)) == frame
    requires plain != DisableNextOsdsysHook && PlainReply(m.board, plain) == reply
    ensures Answers(m, frame, reply)
  {
    hide Header, ReceiveAll, PlainReply;
    Answered(m, Argumentless(plain), frame, m.env, reply);
  }

  /** What each command without arguments is answered with. */
  lemma PlainAnswers(m: Machine)
    requires m.received == []
    ensures Answers(m, [0xCF, 0x0C, 0x08, 0xD0], OkData(Word(m.board.stage1Size), false))
    ensures Answers(m, [0xCF, 0x0C, 0x6E, 0xC4], OkData(Word(m.board.stage2Size), false))
    ensures Answers(m, [0xCF, 0x0C, 0x2C, 0x88], OkData(Stage2(m.board.stage2Size), true))
    ensures Answers(m, [0xCF, 0x0C, 0x6A, 0x1E], OkData(FwRevision, true))
    ensures Answers(m, [0xCF, 0x0C, 0x57, 0x1B], OkData(BootloaderRevision, true))
    ensures Answers(m, [0xCF, 0x0C, 0x5D, 0x67], OkData(Word(4096), true))
  {
    hide ReceiveAll, Header, Answers, Execute;
    PlainBytes();
    AnsweredPlain(m, GetStage1Size, [0xCF, 0x0C, 0x08, 0xD0], OkData(Word(m.board.stage1Size), false));
    AnsweredPlain(m, GetStage2Size, [0xCF, 0x0C, 0x6E, 0xC4], OkData(Word(m.board.stage2Size), false));
    AnsweredPlain(m, GetStage2, [0xCF, 0x0C, 0x2C, 0x88], OkData(Stage2(m.board.stage2Size), true));
    AnsweredPlain(m, FwGitRev, [0xCF, 0x0C, 0x6A, 0x1E], OkData(FwRevision, true));
    AnsweredPlain(m, BootloaderGitRev, [0xCF, 0x0C, 0x57, 0x1B], OkData(BootloaderRevision, true));
    SectorSizeAnswer(m);
  }

  lemma TestAnswers(m: Machine)
    requires m.received == []
    ensures Answers(m, [0xCF, 0x1C, 0xCD, 0x18], Ok)
    ensures Answers(m, [0xCF, 0x1C, 0x0B, 0x2A], OkData(Placeholder, false))
    ensures Answers(m, [0xCF, 0x1C, 0x64, 0x78], OkData(Placeholder, true))
    ensures Answers(m, [0xCF, 0x1C, 0x1D, 0x24], DataOnly(Placeholder, true))
    ensures Answers(m, [0xCF, 0x1C, 0x1F, 0x11], DataOnly(Placeholder, false))
    ensures Answers(m, [0xCF, 0x1C, 0xA7, 0x5C], Ok)
  {
    hide ReceiveAll, Header, Answers, Execute;
    PlainBytes();
    AnsweredPlain(m, TestStatusOnly, [0xCF, 0x1C, 0xCD, 0x18], Ok);
    AnsweredPlain(m, TestDataNoCrc, [0xCF, 0x1C, 0x0B, 0x2A], OkData(Placeholder, false));
    AnsweredPlain(m, TestDataWithCrc, [0xCF, 0x1C, 0x64, 0x78], OkData(Placeholder, true));
    AnsweredPlain(m, TestNoStatusWithCrc, [0xCF, 0x1C, 0x1D, 0x24], DataOnly(Placeholder, true));
    AnsweredPlain(m, TestNoStatusNoCrc, [0xCF, 0x1C, 0x1F, 0x11], DataOnly(Placeholder, false));
    AnsweredPlain(m, TestBusy, [0xCF, 0x1C, 0xA7, 0x5C], Ok);
  }

  lemma SectorSizeAnswer(m: Machine)
    requires m.received == []
    ensures Answers(m, [0xCF, 0x0C, 0x5D, 0x67], OkData(Word(4096), true))
  {
    hide ReceiveAll;
    Answered(m, GetSectorSize, [0xCF, 0x0C, 0x5D, 0x67], m.env, OkData(Word(4096), true));
  }

  /** The one that also changes something. */
  lemma DisableHookAnswer(m: Machine)
    requires m.received == []
    ensures ReceiveAll(m, [0xCF, 0x0C, 0x61, 0x1C]) == m.(env := m.env.(osdsysHookDisabled := true), replies := m.replies + [Ok])
  {
    hide ReceiveAll;
    Answered(m, Argumentless(DisableNextOsdsysHook), [0xCF, 0x0C, 0x61, 0x1C], m.env.(osdsysHookDisabled := true), Ok);
  }

  // ----- Commands with one byte of arguments

  /** The sizes of the three partitions; any other number is refused. */
  lemma PartitionSizeAnswer(m: Machine, x: byte)
    requires m.received == []
    ensures Answers(m, [0xCF, 0x0C, 0x3A, 0x50, x, 0xFF - x],
                    if x < 2 then OkData(Word(648 * 1024), true) else if x == 2 then OkData(Word(712 * 1024), true) else Err)
  {
    hide ReceiveAll;
    Answered(m, GetPartitionSize(x), [0xCF, 0x0C, 0x3A, 0x50, x, 0xFF - x], m.env,
             if x < 2 then OkData(Word(648 * 1024), true) else if x == 2 then OkData(Word(712 * 1024), true) else Err);
  }

  lemma LockAnswer(m: Machine, lock: bool)
    requires m.received == []
    ensures ReceiveAll(m, [0xCF, 0x0C, 0x97, 0x07] + if lock then [1, 0xFE] else [0, 0xFF])
         == m.(env := m.env.(locked := lock), replies := m.replies + [Ok])
  {
    hide ReceiveAll;
    Answered(m, WriteLock(lock), [0xCF, 0x0C, 0x97, 0x07] + if lock then [1, 0xFE] else [0, 0xFF], m.env.(locked := lock), Ok);
  }

  /** 0 is a plain reboot, 1 one that asks for the update; any other mode is refused. */
  lemma RebootAnswer(m: Machine, x: byte)
    requires m.received == []
    ensures ReceiveAll(m, [0xCF, 0x0C, 0x06, 0x6D, x, 0xFF - x])
         == if x == 0 then m.(env := m.env.(rebooting := true), replies := m.replies + [Ok])
            else if x == 1 then m.(env := m.env.(rebooting := true, updateMagic := true), replies := m.replies + [Ok])
            else m.(replies := m.replies + [Err])
  {
    hide ReceiveAll;
    Answered(m, Reboot(x), [0xCF, 0x0C, 0x06, 0x6D, x, 0xFF - x],
             if x == 0 then m.env.(rebooting := true)
             else if x == 1 then m.env.(rebooting := true, updateMagic := true) else m.env,
             if x < 2 then Ok else Err);
  }

  /** Eight data pins from the first one on, then chip enable, output enable and reset. */
  lemma PinAnswer(m: Machine, x: byte)
    requires m.received == []
    ensures 0xFF * Pow2(m.board.dataPin) < TWO_32 && Pow2(m.board.cePin) < TWO_32
    ensures Pow2(m.board.oePin) < TWO_32 && Pow2(m.board.resetPin) < TWO_32
    ensures Answers(m, [0xCF, 0x0C, 0x31, 0x04, x, 0xFF - x],
                    if x == 0 then OkData(Word(0xFF * Pow2(m.board.dataPin)), true)
                    else if x == 1 then OkData(Word(Pow2(m.board.cePin)), true)
                    else if x == 2 then OkData(Word(Pow2(m.board.oePin)), true)
                    else if x == 3 then OkData(Word(Pow2(m.board.resetPin)), true) else Err)
  {
    hide ReceiveAll, Pow2;
    PinsFit(m.board.dataPin, m.board.cePin);
    PinsFit(m.board.dataPin, m.board.oePin);
    PinsFit(m.board.dataPin, m.board.resetPin);
    Answered(m, PinConfig(x), [0xCF, 0x0C, 0x31, 0x04, x, 0xFF - x], m.env,
             if x == 0 then OkData(Word(0xFF * Pow2(m.board.dataPin)), true)
             else if x == 1 then OkData(Word(Pow2(m.board.cePin)), true)
             else if x == 2 then OkData(Word(Pow2(m.board.oePin)), true)
             else if x == 3 then OkData(Word(Pow2(m.board.resetPin)), true) else Err);
  }

  // ----- Settings

  /** Asking for a setting, by the bytes of the stored struct. */
  lemma KvGetAnswer(m: Machine, key: word)
    requires m.received == []
    ensures var s := m.env.settings;
            Answers(m, [0xCF, 0x0C, 0x27, 0x1D, key % 0x100, key / 0x100, 0xFF - key % 0x100, 0xFF - key / 0x100],
                    if key == 0 then OkData(Word(if s[4] == 0 then 0 else 1), true)
                    else if key == 1 then OkData(Word(s[6] as int + 0x100 * s[7] as int), true)
                    else if key == 2 then OkData(Word(s[8]), true)
                    else if key == 3 then OkData(Word(s[9]), true) else Err)
  {
    hide ReceiveAll;
    var s := m.env.settings;
    var frame := [0xCF, 0x0C, 0x27, 0x1D, key % 0x100, key / 0x100, 0xFF - key % 0x100, 0xFF - key / 0x100];
    assert Pair16(key) == frame[4..];
    assert Encode(KvGet(key)) == frame;
    Answered(m, KvGet(key), frame, m.env,
             if key == 0 then OkData(Word(if s[4] == 0 then 0 else 1), true)
             else if key == 1 then OkData(Word(s[6] as int + 0x100 * s[7] as int), true)
             else if key == 2 then OkData(Word(s[8]), true)
             else if key == 3 then OkData(Word(s[9]), true) else Err);
  }

  /** Storing a setting keeps 1 for anything but 0, the low sixteen or the low eight bits, and leaves the others alone. */
  lemma KvSetAnswer(m: Machine, key: word, value: u32, other: word)
    requires m.received == [] && key < 4 && other < 4
    ensures var n := ReceiveAll(m, Encode(KvSet(key, value)));
            && n == m.(env := m.env.(settings := n.env.settings), replies := m.replies + [Ok])
            && Settings.KeyValue(n.env.settings, other)
               == if other != key then Settings.KeyValue(m.env.settings, other)
                  else if key == 0 then (if value == 0 then 0 else 1)
                  else if key == 1 then value % 0x1_0000 else value % 0x100
  {
    hide ReceiveAll, Encode, Settings.KeyValue, Settings.SetKey;
    Settings.SetKeyReadsBack(m.env.settings, key, value, other);
    Answered(m, KvSet(key, value), Encode(KvSet(key, value)),
             m.env.(settings := Settings.SetKey(m.env.settings, key, value)), Ok);
  }

  // ----- Commands with several arguments

  lemma SampleArguments()
    ensures Pair8(9) == [9, 0xF6] && Pair8(Flag(true)) == [1, 0xFE] && Pair8(Flag(false)) == [0, 0xFF]
    ensures Pair16(0x0201) == [1, 2, 0xFE, 0xFD]
    ensures Pair32(0x04030201) == [1, 2, 3, 4, 0xFE, 0xFD, 0xFC, 0xFB]
    ensures Pair32(0x08070605) == [5, 6, 7, 8, 0xFA, 0xF9, 0xF8, 0xF7]
  {
  }

  /** The frames of the longer commands, by example: every argument low byte first, followed by its complement; a sector
      write carries the checksum of its data like an argument. */
  lemma SampleFrames(data: Sector)
    ensures Encode(ReadStage3(0x04030201, 0x08070605, true))
         == [0xCF, 0x0C, 0x38, 0x73] + ([1, 2, 3, 4, 0xFE, 0xFD, 0xFC, 0xFB] + [5, 6, 7, 8, 0xFA, 0xF9, 0xF8, 0xF7] + [1, 0xFE])
    ensures Encode(ReadApp(9, 0x04030201, 0x08070605, false))
         == [0xCF, 0x0C, 0xB8, 0x33]
            + ([9, 0xF6] + [1, 2, 3, 4, 0xFE, 0xFD, 0xFC, 0xFB] + [5, 6, 7, 8, 0xFA, 0xF9, 0xF8, 0xF7] + [0, 0xFF])
    ensures Encode(KvSet(0x0201, 0x08070605))
         == [0xCF, 0x0C, 0xB1, 0x40] + ([1, 2, 0xFE, 0xFD] + [5, 6, 7, 8, 0xFA, 0xF9, 0xF8, 0xF7])
    ensures Encode(EraseSectors(9, 0x04030201, 0x08070605))
         == [0xCF, 0x0C, 0x9A, 0x28] + ([9, 0xF6] + [1, 2, 3, 4, 0xFE, 0xFD, 0xFC, 0xFB] + [5, 6, 7, 8, 0xFA, 0xF9, 0xF8, 0xF7])
    ensures Crc.Crc32(data) == 0x08070605 ==>
              Encode(WriteSector(9, 0x04030201, data))
              == [0xCF, 0x0C, 0x77, 0x34]
                 + ([9, 0xF6] + [1, 2, 3, 4, 0xFE, 0xFD, 0xFC, 0xFB] + [5, 6, 7, 8, 0xFA, 0xF9, 0xF8, 0xF7] + data)
  {
    hide Header, Pair8, Pair16, Pair32, Flag, Crc.Crc32;
    CommandBytes();
    SampleArguments();
  }

  /** Erasing and writing are refused while the modchip is locked and in any partition but the update's and the apps'. */
  lemma WriteRefused(m: Machine, partition: byte, sector: u32, count: u32, data: Sector)
    requires m.received == [] && (m.env.locked || (partition != 1 && partition != 2))
    ensures Answers(m, Encode(EraseSectors(partition, sector, count)), Err)
    ensures Answers(m, Encode(WriteSector(partition, sector, data)), Err)
  {
    hide ReceiveAll, Encode;
    NoOps(m.env.flash);
    Answered(m, EraseSectors(partition, sector, count), Encode(EraseSectors(partition, sector, count)), m.env, Err);
    Answered(m, WriteSector(partition, sector, data), Encode(WriteSector(partition, sector, data)), m.env, Err);
  }

  /** There are four settings; storing any other is refused. */
  lemma UnknownKeyRefused(m: Machine, key: word, value: u32)
    requires m.received == [] && key >= 4
    ensures Answers(m, Encode(KvSet(key, value)), Err)
  {
    hide ReceiveAll, Encode;
    Answered(m, KvSet(key, value), Encode(KvSet(key, value)), m.env, Err);
  }

  /** Stage 3 is read from inside its size only. */
  lemma Stage3Answer(m: Machine, offset: u32, size: u32, withCrc: bool)
    requires m.received == []
    ensures Answers(m, Encode(ReadStage3(offset, size, withCrc)),
                    if offset < m.board.stage3Size then OkData(Stage3(offset, size), withCrc) else Err)
  {
    hide ReceiveAll, Encode;
    Answered(m, ReadStage3(offset, size, withCrc), Encode(ReadStage3(offset, size, withCrc)), m.env,
             if offset < m.board.stage3Size then OkData(Stage3(offset, size), withCrc) else Err);
  }

  // ----- Bytes that fit no frame

  /** A byte that cannot continue a frame makes the modchip idle again and is itself forgotten, even if it is the first
      byte of a frame. */
  lemma WrongByteIsForgotten(m: Machine, x: byte)
    requires m.received == []
    ensures x != 0xCF ==> ReceiveAll(m, [x]) == m
    ensures x != 0x0C && x != 0x1C ==> ReceiveAll(m, [0xCF, x]) == m
    ensures x != 0x07 ==> ReceiveAll(m, [0xCF, 0x0C, 0x97, x]) == m
  {
    hide KindOf, Executed, ReceiveAll, Length;
    OneMore(m, [], x);
    OneMore(m, [], 0xCF);
    OneMore(m, [0xCF], x);
    assert [] + [x] == [x] && [] + [0xCF] == [0xCF] && [0xCF] + [x] == [0xCF, x];
    if x != 0x07 {
      WrongCodeIsForgotten(m, x);
    }
  }

  lemma WrongCodeIsForgotten(m: Machine, x: byte)
    requires m.received == [] && x != 0x07
    ensures ReceiveAll(m, [0xCF, 0x0C, 0x97, x]) == m
  {
    hide KindOf, Executed, ReceiveAll, Length;
    LockKind();
    OneMore(m, [], 0xCF);
    OneMore(m, [0xCF], 0x0C);
    OneMore(m, [0xCF, 0x0C], 0x97);
    OneMore(m, [0xCF, 0x0C, 0x97], x);
    assert [] + [0xCF] == [0xCF] && [0xCF] + [0x0C] == [0xCF, 0x0C];
    assert [0xCF, 0x0C] + [0x97] == [0xCF, 0x0C, 0x97] && [0xCF, 0x0C, 0x97] + [x] == [0xCF, 0x0C, 0x97, x];
  }

  lemma LockKind()
    ensures KindOf(0x0C, 0x97) == Some(LockFrame) && Code(LockFrame) == 0x0797
  {
  }

  lemma OneMore(m: Machine, bytes: seq<byte>, w: byte)
    ensures ReceiveAll(m, []) == m && ReceiveAll(m, bytes + [w]) == Receive(ReceiveAll(m, bytes), w)
  {
    hide Receive;
    Protocol.Concatenation(m, bytes, [w]);
    assert [w][1..] == [];
  }
}
