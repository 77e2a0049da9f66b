/** The console's programs that talk to the modchip (fruitchip-include/modchip/): every access is a byte written to
    or read from one address. `poked` is what has been written, `bus` what reading will return. */
module Console {
  import opened Bits
  import opened SectorFlash
  import opened Protocol
  import opened Host
  import Crc
  import Settings

  const RESULT_ERR := 0x0b4f7d09
  const ENODEV := 19
  const EINVAL := 22
  const EIO := 5
  const BOOT_ROM_ADDR_VALUE := 0

  function StatusAt(bus: seq<byte>, i: nat): u32
    requires i + 4 <= |bus|
  {
    LeU32(bus[i], bus[i + 1], bus[i + 2], bus[i + 3])
  }

  /** What a read returns: 0 for success, given the bytes on the bus. */
  function ReadResult(bus: seq<byte>, size: nat, withCrc: bool): int
    requires |bus| >= size + 8
  {
    if StatusAt(bus, 0) == BOOT_ROM_ADDR_VALUE then -ENODEV
    else if StatusAt(bus, 0) != RESULT_OK then -EINVAL
    else if withCrc && StatusAt(bus, 4 + size) != Crc.Crc32(bus[4..4 + size]) then -EIO
    else 0
  }

  /** A read with CRC is never fooled by errors in at most four consecutive bytes of the data. */
  lemma ReadDetectsBursts(before: seq<byte>, u: seq<byte>, v: seq<byte>, after: seq<byte>, rest: seq<byte>)
    requires |u| == |v| <= 4
    ensures var sent, got := before + u + after, before + v + after;
            ReadResult(Le32(RESULT_OK) + got + Le32(Crc.Crc32(sent)) + rest, |got|, true) == (if u == v then 0 else -EIO)
  {
    hide Crc.Crc32;
    var sent, got := before + u + after, before + v + after;
    var crc := Crc.Crc32(sent);
    var bus := Le32(RESULT_OK) + got + Le32(crc) + rest;
    Le32Decodes(RESULT_OK);
    Le32Decodes(crc);
    assert bus[0..4] == Le32(RESULT_OK) && bus[4..4 + |got|] == got;
    assert bus[4 + |got|..8 + |got|] == Le32(crc);
    if u != v {
      Crc.BurstDetected(before, u, v, after);
    }
  }

  // ----- From the modchip's answer to the console's result

  /** The bytes of an answer, given the data it is sent from. */
  function Sent(reply: Reply, data: seq<byte>): seq<byte>
  {
    match reply
    case Err => Le32(RESULT_ERR)
    case Ok => Le32(RESULT_OK)
    case OkData(_, withCrc) => Le32(RESULT_OK) + Checked(data, withCrc)
    case DataOnly(_, withCrc) => Checked(data, withCrc)
  }

  function Checked(data: seq<byte>, withCrc: bool): seq<byte>
  {
    if withCrc then data + Le32(Crc.Crc32(data)) else data
  }

  /** What asking for a setting returns, given the bytes on the bus. */
  function SettingsResult(bus: seq<byte>): Option<u32>
    requires |bus| >= 12
  {
    if StatusAt(bus, 0) == RESULT_OK && StatusAt(bus, 8) == Crc.Crc32(bus[4..8]) then Some(StatusAt(bus, 4)) else None
  }

  /** A value sent is the value received, whatever follows. */
  lemma ValueIsReceived(value: u32, rest: seq<byte>)
    ensures var bus := Sent(OkValue(value), Le32(value)) + rest;
            |bus| >= 12 && SettingsResult(bus) == Some(value)
  {
    hide Crc.Crc32, Le32, LeU32;
    var data := Le32(value);
    var crc: u32 := Crc.Crc32(data);
    var bus := Sent(OkValue(value), data) + rest;
    assert bus == Le32(RESULT_OK) + data + Le32(crc) + rest;
    assert bus[0..4] == Le32(RESULT_OK) && bus[4..8] == data && bus[8..12] == Le32(crc);
    StatusBytes(bus, 0, RESULT_OK);
    StatusBytes(bus, 4, value);
    StatusBytes(bus, 8, crc);
  }

  // ----- The answers byte by byte

  lemma StatusBytes(bus: seq<byte>, i: nat, value: u32)
    requires i + 4 <= |bus|
    ensures StatusAt(bus, i) == value <==> bus[i..i + 4] == Le32(value)
  {
    hide LeU32;
    assert bus[i..i + 4] == [bus[i], bus[i + 1], bus[i + 2], bus[i + 3]];
    LeU32Digits(bus[i], bus[i + 1], bus[i + 2], bus[i + 3], value);
  }

  lemma StatusCodes()
    ensures Le32(RESULT_OK) == [0xB7, 0x6F, 0x27, 0x56] && Le32(RESULT_ERR) == [0x09, 0x7D, 0x4F, 0x0B]
    ensures Le32(BOOT_ROM_ADDR_VALUE) == [0, 0, 0, 0]
  {
  }

  /** When a read succeeds, finds no modchip, is refused or is damaged. */
  lemma ReadResultExactly(bus: seq<byte>, size: nat, withCrc: bool)
    requires |bus| >= size + 8
    ensures var ok, intact := bus[..4] == [0xB7, 0x6F, 0x27, 0x56], bus[4 + size..8 + size] == Le32(Crc.Crc32(bus[4..4 + size]));
            ReadResult(bus, size, withCrc)
            == if bus[..4] == [0, 0, 0, 0] then -19 else if !ok then -22 else if withCrc && !intact then -5 else 0
  {
    hide Crc.Crc32, Le32, StatusAt;
    StatusCodes();
    assert bus[0..4] == bus[..4];
    StatusBytes(bus, 0, BOOT_ROM_ADDR_VALUE);
    StatusBytes(bus, 0, RESULT_OK);
    StatusBytes(bus, 4 + size, Crc.Crc32(bus[4..4 + size]));
  }

  /** A setting is taken from the bus exactly if the status, the value and the checksum of the value are there. */
  lemma SettingsResultExactly(bus: seq<byte>, value: u32)
    requires |bus| >= 12
    ensures SettingsResult(bus) == Some(value)
            <==> && bus[..4] == [0xB7, 0x6F, 0x27, 0x56] && bus[4..8] == Le32(value)
                 && bus[8..12] == Le32(Crc.Crc32(bus[4..8]))
  {
    hide Crc.Crc32, Le32, StatusAt;
    StatusCodes();
    assert bus[0..4] == bus[..4];
    StatusBytes(bus, 0, RESULT_OK);
    StatusBytes(bus, 4, value);
    StatusBytes(bus, 8, Crc.Crc32(bus[4..8]));
  }

  /** A value that is damaged on its way, in however many of its four bytes, is not taken. */
  lemma SettingsDetectDamage(sent: u32, got: u32, rest: seq<byte>)
    ensures var bus := Le32(RESULT_OK) + Le32(got) + Le32(Crc.Crc32(Le32(sent))) + rest;
            SettingsResult(bus) == if got == sent then Some(sent) else None
  {
    hide Crc.Crc32, Le32, SettingsResult;
    var u, v := Le32(sent), Le32(got);
    var crc := Crc.Crc32(u);
    var bus := Le32(RESULT_OK) + v + Le32(crc) + rest;
    assert bus[..4] == Le32(RESULT_OK) && bus[4..8] == v && bus[8..12] == Le32(crc);
    StatusCodes();
    if got != sent {
      DifferentBytes(sent, got);
      Crc.BurstDetected([], u, v, []);
      assert [] + u + [] == u && [] + v + [] == v;
      DifferentBytes(crc, Crc.Crc32(v));
      NothingElseTaken(bus);
    } else {
      SettingsResultExactly(bus, sent);
    }
  }

  lemma DifferentBytes(x: u32, y: u32)
    ensures Le32(x) == Le32(y) ==> x == y
  {
    Le32Decodes(x);
    Le32Decodes(y);
  }

  lemma NothingElseTaken(bus: seq<byte>)
    requires |bus| >= 12 && bus[8..12] != Le32(Crc.Crc32(bus[4..8]))
    ensures SettingsResult(bus) == None
  {
    hide Crc.Crc32, Le32, SettingsResult;
    if SettingsResult(bus).Some? {
      SettingsResultExactly(bus, SettingsResult(bus).value);
    }
  }

  /** A refusal is reported as one, whatever follows it. */
  lemma RefusalIsReported(data: seq<byte>, rest: seq<byte>, size: nat, withCrc: bool)
    requires |rest| >= size + 4 && |rest| >= 8
    ensures ReadResult(Sent(Err, data) + rest, size, withCrc) == -EINVAL
    ensures SettingsResult(Sent(Err, data) + rest) == None
  {
    hide Crc.Crc32, Le32, SettingsResult, ReadResult;
    StatusCodes();
    var bus := Sent(Err, data) + rest;
    assert bus[..4] == Le32(RESULT_ERR);
    ReadResultExactly(bus, size, withCrc);
    if SettingsResult(bus).Some? {
      SettingsResultExactly(bus, SettingsResult(bus).value);
    }
  }

  /** The whole way: after any conversation, asking for a key gives the console the last value accepted for it. */
  lemma LastValueReachesConsole(m: Machine, commands: seq<Command>, key: word, rest: seq<byte>)
    requires m.received == [] && key < Settings.KEYS_TOTAL
    ensures var replies := ReceiveAll(m, EncodeAll(commands) + Encode(KvGet(key))).replies;
            && |replies| > 0 && replies[|replies| - 1].OkData? && replies[|replies| - 1].source.Word?
            && var reply := replies[|replies| - 1];
            && var bus := Sent(reply, Le32(reply.source.value)) + rest;
            && |bus| >= 12
            && SettingsResult(bus)
               == Some(Settings.LastAccepted(SettingsEvents(commands), key, Settings.KeyValue(m.env.settings, key)))
  {
    hide ReceiveAll, EncodeAll, Encode, Sent, SettingsResult, Le32, Settings.LastAccepted, Settings.KeyValue, SettingsEvents;
    LastValueIsAnswered(m, commands, key);
    ValueIsReceived(Settings.LastAccepted(SettingsEvents(commands), key, Settings.KeyValue(m.env.settings, key)), rest);
  }

  class Link {
    var poked: seq<byte>
    const bus: seq<byte>
    var position: nat

    constructor (bus: seq<byte>)
      ensures this.bus == bus && poked == [] && position == 0
    {
      this.bus, poked, position := bus, [], 0;
    }

    // ----- io.h

    method PokeU8(b: byte)
      modifies `poked
      ensures poked == old(poked) + [b]
    {
      poked := poked + [b];
    }

    method PokeU16(v: word)
      modifies `poked
      ensures poked == old(poked) + Le16(v)
    {
      PokeU8(v % 0x100);
      PokeU8(v / 0x100);
    }

    method PokeU32(v: u32)
      modifies `poked
      ensures poked == old(poked) + Le32(v)
    {
      PokeU8(v % 0x100);
      PokeU8(v / 0x100 % 0x100);
      PokeU8(v / 0x1_0000 % 0x100);
      PokeU8(v / 0x100_0000);
    }

    method PeekU8() returns (b: byte)
      requires position < |bus|
      modifies `position
      ensures b == bus[old(position)] && position == old(position) + 1
    {
      b := bus[position];
      position := position + 1;
    }

    method PeekU32() returns (v: u32)
      requires position + 4 <= |bus|
      modifies `position
      ensures v == StatusAt(bus, old(position)) && position == old(position) + 4
    {
      v := LeU32(bus[position], bus[position + 1], bus[position + 2], bus[position + 3]);
      position := position + 4;
    }

    /** Whole words first, then the tail byte by byte. */
    method PeekN(dst: array<byte>, size: nat)
      requires size <= dst.Length && position + size <= |bus|
      modifies `position, dst
      ensures dst[..size] == bus[old(position)..old(position) + size] && position == old(position) + size
      ensures forall k :: size <= k < dst.Length ==> dst[k] == old(dst[k])
    {
      ghost var start, words := position, 0;
      var i := 0;
      while i < size - size % 4
        invariant i == 4 * words && i <= size - size % 4 && position == start + i
        invariant forall k :: 0 <= k < i ==> dst[k] == bus[start + k]
        invariant forall k :: i <= k < dst.Length ==> dst[k] == old(dst[k])
      {
        WordFits(size, words);
        var word := PeekU32();
        StoreWord(dst, i, word, bus[start + i..start + i + 4]);
        i, words := i + 4, words + 1;
      }
      i := size - size % 4;
      while i < size
        invariant i <= size && position == start + i
        invariant forall k :: 0 <= k < i ==> dst[k] == bus[start + k]
        invariant forall k :: size <= k < dst.Length ==> dst[k] == old(dst[k])
      {
        var b := PeekU8();
        dst[i] := b;
        i := i + 1;
      }
    }

    /** `*(u32 *)(dst + i) = word` on a little-endian machine. */
    static method StoreWord(dst: array<byte>, i: nat, word: u32, ghost bytes: seq<byte>)
      requires i + 4 <= dst.Length && |bytes| == 4 && word == LeU32(bytes[0], bytes[1], bytes[2], bytes[3])
      modifies dst
      ensures forall k :: 0 <= k < 4 ==> dst[i + k] == bytes[k]
      ensures forall k :: 0 <= k < dst.Length && !(i <= k < i + 4) ==> dst[k] == old(dst[k])
    {
      hide LeU32;
      StoredWord(bytes[0], bytes[1], bytes[2], bytes[3]);
      dst[i] := word % 0x100;
      dst[i + 1] := word / 0x100 % 0x100;
      dst[i + 2] := word / 0x1_0000 % 0x100;
      dst[i + 3] := word / 0x100_0000;
    }

    /** The part common to the two read commands: status, data, CRC. */
    method Receive(dst: array<byte>, size: nat, withCrc: bool) returns (r: int)
      requires size <= dst.Length && position + size + 8 <= |bus|
      modifies `position, dst
      ensures r == ReadResult(bus[old(position)..], size, withCrc)
      ensures r == 0 ==> dst[..size] == bus[old(position) + 4..old(position) + 4 + size]
    {
      hide Crc.Crc32;
      ghost var answer := bus[position..];
      var status := PeekU32();
      if status == BOOT_ROM_ADDR_VALUE {
        return -ENODEV;
      } else if status != RESULT_OK {
        return -EINVAL;
      }
      PeekN(dst, size);
      assert dst[..size] == answer[4..4 + size];
      if withCrc {
        var crcExpected := PeekU32();
        assert crcExpected == StatusAt(answer, 4 + size);
        var crcActual := Crc.Crc32Table(dst, size);
        r := if crcExpected == crcActual.bits as nat then 0 else -EIO;
        return;
      }
      return 0;
    }

    // ----- apps.h

    method Stage3Read(offset: u32, size: u32, dst: array<byte>, withCrc: bool) returns (r: int)
      requires size <= dst.Length && position + size + 8 <= |bus|
      modifies this, dst
      ensures poked == old(poked) + Encode(ReadStage3(offset, size, withCrc))
      ensures r == ReadResult(bus[old(position)..], size, withCrc)
      ensures r == 0 ==> dst[..size] == bus[old(position) + 4..old(position) + 4 + size]
    {
      hide ReadResult, Header, Pair8, Pair32;
      Parts(poked, Header(Stage3Frame), Pair32(offset), Pair32(size), Pair8(Flag(withCrc)), []);
      PokeHeader(Stage3Frame);
      PokePair32(offset);
      PokePair32(size);
      PokePair8(if withCrc then 1 else 0);
      r := Receive(dst, size, withCrc);
    }

    method AppsRead(offset: u32, size: u32, appIdx: byte, dst: array<byte>, withCrc: bool) returns (r: int)
      requires size <= dst.Length && position + size + 8 <= |bus|
      modifies this, dst
      ensures poked == old(poked) + Encode(ReadApp(appIdx, offset, size, withCrc))
      ensures r == ReadResult(bus[old(position)..], size, withCrc)
      ensures r == 0 ==> dst[..size] == bus[old(position) + 4..old(position) + 4 + size]
    {
      hide ReadResult, Header, Pair8, Pair32;
      Parts(poked, Header(AppFrame), Pair8(appIdx), Pair32(offset), Pair32(size), Pair8(Flag(withCrc)));
      PokeHeader(AppFrame);
      PokePair8(appIdx);
      PokePair32(offset);
      PokePair32(size);
      PokePair8(if withCrc then 1 else 0);
      r := Receive(dst, size, withCrc);
    }

    method PokeHeader(k: Kind)
      modifies `poked
      ensures poked == old(poked) + Header(k)
    {
      hide Code, Group;
      HeaderIsCode(k);
      PokeU32(Code(k) * 0x1_0000 + Group(k) * 0x100 + PREFIX);
    }

    method PokePair8(x: byte)
      modifies `poked
      ensures poked == old(poked) + Pair8(x)
    {
      hide Xor;
      Widths();
      XorOnes(x, 8);
      PokeU8(x);
      PokeU8(Xor(x, 0xFF));
    }

    method PokePair16(x: word)
      modifies `poked
      ensures poked == old(poked) + Pair16(x)
    {
      hide Xor;
      Widths();
      XorOnes(x, 16);
      PokeU16(x);
      PokeU16(Xor(x, 0xFFFF));
    }

    method PokePair32(x: u32)
      modifies `poked
      ensures poked == old(poked) + Pair32(x)
    {
      hide Xor, Le32;
      Widths();
      XorOnes(x, 32);
      PokeU32(x);
      PokeU32(Xor(x, 0xFFFF_FFFF));
    }

    // ----- settings.h

    /** Pokes the frame, then takes the value if status and checksum are right. */
    method SettingsGet(key: word) returns (value: Option<u32>)
      requires position + 12 <= |bus|
      modifies this
      ensures poked == old(poked) + Encode(KvGet(key))
      ensures value == SettingsResult(bus[old(position)..])
    {
      hide Crc.Crc32, LeU32, Encode;
      ghost var answer := bus[position..];
      SettingsGetRequest(key);
      var status := PeekU32();
      if status != RESULT_OK {
        return None;
      }
      var data := new byte[4];
      var v := PeekU32();
      assert v == StatusAt(answer, 4);
      StoreWord(data, 0, v, answer[4..8]);
      assert data[..4] == answer[4..8];
      var crcExpected := PeekU32();
      assert crcExpected == StatusAt(answer, 8);
      var crcActual := Crc.Crc32Table(data, 4);
      value := if crcExpected == crcActual.bits as nat then Some(v) else None;
    }

    method SettingsGetRequest(key: word)
      modifies `poked
      ensures poked == old(poked) + Encode(KvGet(key))
    {
      PokeHeader(KvGetFrame);
      PokePair16(key);
    }

    method SettingsSetRequest(key: word, value: u32)
      modifies `poked
      ensures poked == old(poked) + Encode(KvSet(key, value))
    {
      hide Header, Pair16, Pair32;
      Parts(poked, Header(KvSetFrame), Pair16(key), Pair32(value), [], []);
      PokeHeader(KvSetFrame);
      PokePair16(key);
      PokePair32(value);
    }

    // ----- flash.h

    method SetWriteLockRequest(lock: bool)
      modifies `poked
      ensures poked == old(poked) + Encode(WriteLock(lock))
    {
      PokeHeader(LockFrame);
      PokePair8(if lock then 1 else 0);
    }

    method EraseFlashSectorRequest(partition: byte, sectorIdx: u32, sectorCount: u32)
      modifies `poked
      ensures poked == old(poked) + Encode(EraseSectors(partition, sectorIdx, sectorCount))
    {
      hide Header, Pair8, Pair32;
      Parts(poked, Header(EraseFrame), Pair8(partition), Pair32(sectorIdx), Pair32(sectorCount), []);
      PokeHeader(EraseFrame);
      PokePair8(partition);
      PokePair32(sectorIdx);
      PokePair32(sectorCount);
    }

    method WriteFlashSectorRequest(partition: byte, sectorIdx: u32, sector: array<byte>)
      requires sector.Length == SECTOR_SIZE
      modifies `poked
      ensures poked == old(poked) + Encode(WriteSector(partition, sectorIdx, sector[..]))
    {
      hide Header, Pair8, Pair32, Crc.CrcFrom;
      var sectorCrc := Crc.Crc32Table(sector, SECTOR_SIZE);
      assert sector[..SECTOR_SIZE] == sector[..];
      hide Crc.Crc32;
      Parts(poked, Header(WriteFrame), Pair8(partition), Pair32(sectorIdx), Pair32(Crc.Crc32(sector[..])), sector[..]);
      PokeHeader(WriteFrame);
      PokePair8(partition);
      PokePair32(sectorIdx);
      PokePair32(sectorCrc.bits as nat);
      PokeAll(sector);
    }

    method PokeAll(sector: array<byte>)
      modifies `poked
      ensures poked == old(poked) + sector[..]
    {
      ghost var before := poked;
      for i := 0 to sector.Length
        invariant poked == before + sector[..i]
      {
        PokeU8(sector[i]);
        assert sector[..i + 1] == sector[..i] + [sector[i]];
      }
      assert sector[..sector.Length] == sector[..];
    }

    method RebootRequest(mode: byte)
      modifies `poked
      ensures poked == old(poked) + Encode(Reboot(mode))
    {
      PokeHeader(RebootFrame);
      PokePair8(mode);
    }
  }

  lemma Parts(o: seq<byte>, h: seq<byte>, a: seq<byte>, b: seq<byte>, c: seq<byte>, d: seq<byte>)
    ensures o + h + a + b + c + d == o + (h + (a + b + c + d))
    ensures d == [] ==> o + h + a + b + c == o + (h + (a + b + c))
    ensures c == d == [] ==> o + h + a + b == o + (h + (a + b))
  {
  }

  lemma WordFits(size: nat, words: nat)
    requires 4 * words < size - size % 4
    ensures 4 * words + 4 <= size - size % 4
  {
  }

  /** The command code poked as one 32-bit number. */
  lemma HeaderIsCode(k: Kind)
    ensures Le32(Code(k) * 0x1_0000 + Group(k) * 0x100 + PREFIX) == Header(k)
  {
    hide Code, Group;
    StoredWord(PREFIX, Group(k), Code(k) % 0x100, Code(k) / 0x100);
    assert Code(k) == Code(k) / 0x100 * 0x100 + Code(k) % 0x100;
  }
}
