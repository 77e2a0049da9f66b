/** What a restart finds when a write is cut while its log entries are being appended: the whole entries before the
    cut, and the torn one as its programmed slots decode. From that, exactly which writes always leave a prefix of
    their bytes. */
module Tears {
  import opened Bits
  import opened FlashOps
  import opened WriteLog
  import opened Store

  /** The logical bytes served after restarting on `flash`. */
  function Recovered(c: Config, flash: seq<word>, beyond: seq<word>): (cache: seq<byte>)
    requires ValidConfig(c) && |flash| == c.Slots() && |beyond| >= 3
    ensures |cache| == c.logical
  {
    AfterInit(c, flash, beyond).cache
  }

  // ----- The torn entry

  /** An entry of which only the first `j` slots were programmed: erased up to the end of the area, which lies `room`
      slots from the entry's start, and whatever follows the area from there on. */
  function TornSlots(chunk: seq<word>, j: nat, room: nat, beyond: seq<word>): (w: seq<word>)
    requires |chunk| <= room + |beyond|
    ensures |w| == |chunk|
  {
    seq(|chunk|, i requires 0 <= i < |chunk| => if i < j then chunk[i] else if i < room then 0 else beyond[i - room])
  }

  function TornEntry(c: Config, cache: seq<byte>, chunk: seq<word>, j: nat, room: nat, beyond: seq<word>): (r: seq<byte>)
    requires c.Valid() && |cache| == c.logical && 0 < j < |chunk| <= room + |beyond|
    requires |chunk| == SlotCount(chunk[0])
    ensures |r| == |cache|
  {
    var w := TornSlots(chunk, j, room, beyond);
    var d := Decode(c, w);
    if d.Rejected? then cache
    else
      DecodeInBounds(c, w);
      Blit(cache, d.address, d.value)
  }

  /** The bytes found after the first `j` slots of a write were programmed, starting `room` slots before the end of
      the area, on top of `cache`. */
  function AppendOutcome(c: Config, cache: seq<byte>, address: nat, data: seq<byte>, j: nat, room: nat, beyond: seq<word>): (r: seq<byte>)
    requires c.Valid() && |cache| == c.logical && Fits(c, address, data)
    requires j <= |EntrySlots(address, data)| && j <= room && |beyond| >= 3
    ensures |r| == |cache|
    decreases |data|
  {
    if j == 0 then cache
    else
      var n, chunk := ChunkLength(address, data), ChunkSlots(address, data);
      ChunkRoundTrip(c, address, data, []);
      if j < |chunk| then TornEntry(c, cache, chunk, j, room, beyond)
      else AppendOutcome(c, Blit(cache, address, data[..n]), address + n, data[n..], j - |chunk|, room - |chunk|, beyond)
  }

  /** Playback of a cut append. */
  lemma {:induction false} CutAppendPlays(c: Config, mem: seq<word>, pos: nat, address: nat, data: seq<byte>, j: nat, cache: seq<byte>)
    requires c.Valid() && |mem| >= c.Slots() + 3 && |cache| == c.logical && Fits(c, address, data)
    requires j <= |EntrySlots(address, data)| && pos + j <= c.Slots()
    requires mem[pos..pos + j] == EntrySlots(address, data)[..j]
    requires forall i :: pos + j <= i < c.Slots() ==> mem[i] == 0
    ensures Playback(c, mem, pos, cache).cache
         == AppendOutcome(c, cache, address, data, j, c.Slots() - pos, mem[c.Slots()..])
    decreases |data|
  {
    hide Decode, SlotCount, Blit, ChunkLength, ChunkSlots, EntryType, TornEntry;
    if j > 0 {
      var n, chunk := ChunkLength(address, data), ChunkSlots(address, data);
      var rest := EntrySlots(address + n, data[n..]);
      var k := |chunk|;
      assert EntrySlots(address, data) == chunk + rest;
      ChunkRoundTrip(c, address, data, []);
      assert chunk + [] == chunk;
      CutSlices(mem, pos, chunk, rest, j);
      if j < k {
        TornPlays(c, mem, pos, chunk, j, cache);
      } else {
        DecodeLocal(c, chunk, mem[pos..]);
        CutAppendPlays(c, mem, pos + k, address + n, data[n..], j - k, Blit(cache, address, data[..n]));
      }
    }
  }

  /** `j` slots of an entry and what follows it, in memory. */
  lemma CutSlices(mem: seq<word>, pos: nat, chunk: seq<word>, rest: seq<word>, j: nat)
    requires 0 < j <= |chunk + rest| && pos + j <= |mem| && |chunk| > 0
    requires mem[pos..pos + j] == (chunk + rest)[..j]
    ensures mem[pos] == chunk[0]
    ensures j <= |chunk| ==> mem[pos..pos + j] == chunk[..j]
    ensures j >= |chunk| ==> mem[pos..][..|chunk|] == chunk && mem[pos + |chunk|..pos + j] == rest[..j - |chunk|]
  {
    var cut, k := mem[pos..pos + j], |chunk|;
    assert mem[pos] == cut[0];
    if j <= k {
      assert cut == chunk[..j];
    }
    if j >= k {
      assert mem[pos..][..k] == cut[..k] == chunk;
      assert mem[pos + k..pos + j] == cut[k..] == rest[..j - k];
    }
  }

  lemma TornPlays(c: Config, mem: seq<word>, pos: nat, chunk: seq<word>, j: nat, cache: seq<byte>)
    requires c.Valid() && |mem| >= c.Slots() + 3 && pos + j <= c.Slots() && |cache| == c.logical
    requires 0 < j < |chunk| && |chunk| == SlotCount(chunk[0]) && chunk[0] != 0
    requires mem[pos..pos + j] == chunk[..j]
    requires forall i :: pos + j <= i < c.Slots() ==> mem[i] == 0
    ensures |chunk| <= c.Slots() - pos + |mem[c.Slots()..]|
    ensures Playback(c, mem, pos, cache).cache == TornEntry(c, cache, chunk, j, c.Slots() - pos, mem[c.Slots()..])
  {
    hide Decode, SlotCount, Blit, EntryType, TornSlots;
    assert mem[pos] == mem[pos..pos + j][0] == chunk[0];
    TornIsRead(c, mem, pos, chunk, j);
  }

  lemma TornIsRead(c: Config, mem: seq<word>, pos: nat, chunk: seq<word>, j: nat)
    requires c.Valid() && |mem| >= c.Slots() + 3 && pos + j <= c.Slots()
    requires 0 < j < |chunk| && |chunk| == SlotCount(chunk[0])
    requires mem[pos..pos + j] == chunk[..j]
    requires forall i :: pos + j <= i < c.Slots() ==> mem[i] == 0
    ensures |chunk| <= c.Slots() - pos + |mem[c.Slots()..]|
    ensures Decode(c, mem[pos..]) == Decode(c, TornSlots(chunk, j, c.Slots() - pos, mem[c.Slots()..]))
  {
    hide Decode, SlotCount;
    SlotCountIsSmall(chunk[0]);
    var w := TornSlots(chunk, j, c.Slots() - pos, mem[c.Slots()..]);
    forall i | 0 <= i < |chunk|
      ensures mem[pos + i] == w[i]
    {
      if i < j {
        assert mem[pos..pos + j][i] == chunk[..j][i];
      }
    }
    assert mem[pos..][..|chunk|] == w;
    DecodeLocal(c, w, mem[pos..]);
  }

  lemma SlotCountIsSmall(first: word)
    ensures 1 <= SlotCount(first) <= 4
  {
  }

  /** A cut append restarts to its outcome on top of what the store held. */
  lemma CutAppendOutcome(c: Config, s: Store, address: nat, data: seq<byte>, j: nat, beyond: seq<word>)
    requires Inv(c, s) && Fits(c, address, data) && |beyond| >= 3
    requires j <= |EntrySlots(address, data)| && s.end + j <= c.Slots()
    ensures Recovered(c, Overwrite(s.flash, s.end, EntrySlots(address, data)[..j]), beyond)
         == AppendOutcome(c, s.cache, address, data, j, c.Slots() - s.end, beyond)
  {
    hide Complete, Replay, EntrySlots, AppendOutcome, Playback, Consolidated, ConsolidateOps, ApplyAll;
    var cut := EntrySlots(address, data)[..j];
    var f := Overwrite(s.flash, s.end, cut);
    var mem := f + beyond;
    assert mem[..c.Slots()] == f && mem[c.Slots()..] == beyond;
    assert f[..c.LogStart()] == s.flash[..c.LogStart()];
    SameConsolidated(c, s.flash, f);
    assert mem[c.LogStart()..s.end] == Log(c, s);
    PlaybackOfLog(c, mem, c.LogStart(), Log(c, s), Consolidated(c, s.flash));
    assert mem[s.end..s.end + j] == cut;
    CutAppendPlays(c, mem, s.end, address, data, j, s.cache);
  }

  // ----- A torn entry inside the area, in closed form

  /** An address with its low byte, which the second slot of an entry holds, still erased. */
  function PageOf(address: nat): (page: nat)
    ensures page <= address
  {
    address / 0x100 * 0x100
  }

  function TornAddress(address: nat, j: nat): (a: nat)
    ensures a <= address
  {
    if j == 1 then PageOf(address) else address
  }

  /** The bytes whose slots were programmed, zeros for the others: no byte after one slot, one after two, three
      after three. */
  function TornValue(value: seq<byte>, j: nat): (v: seq<byte>)
    ensures |v| == |value|
  {
    seq(|value|, i requires 0 <= i < |value| => if i + 3 < 2 * j then value[i] else 0)
  }

  lemma PageParts(address: nat)
    ensures PageOf(address) / 0x1_0000 == address / 0x1_0000
    ensures PageOf(address) / 0x100 == address / 0x100 && PageOf(address) % 0x100 == 0
  {
    var q := address / 0x100;
    DivModUnique(PageOf(address), 0x100, q, 0);
    DivModUnique(PageOf(address), 0x1_0000, q / 0x100, q % 0x100 * 0x100);
    DivModUnique(address, 0x1_0000, q / 0x100, q % 0x100 * 0x100 + address % 0x100);
  }

  /** A torn multi-byte entry is the encoding of an entry with the torn address and value. */
  lemma TornIsEncoding(address: nat, value: seq<byte>, j: nat, room: nat, beyond: seq<word>)
    requires 1 <= |value| <= MULTIBYTE_MAX_BYTES && |MakeMultibyte(address, value)| <= room
    requires 0 < j < |MakeMultibyte(address, value)|
    ensures TornSlots(MakeMultibyte(address, value), j, room, beyond)
         == MakeMultibyte(TornAddress(address, j), TornValue(value, j))
  {
    PageParts(address);
    hide PageOf;
    var torn := TornSlots(MakeMultibyte(address, value), j, room, beyond);
    var made := MakeMultibyte(TornAddress(address, j), TornValue(value, j));
    assert |torn| == |made| && torn[0] == made[0] && torn[1] == made[1];
    assert |made| > 2 ==> torn[2] == made[2];
    assert |made| > 3 ==> torn[3] == made[3];
  }

  lemma TornInside(c: Config, cache: seq<byte>, address: nat, value: seq<byte>, j: nat, room: nat, beyond: seq<word>)
    requires c.Valid() && |cache| == c.logical
    requires 1 <= |value| <= MULTIBYTE_MAX_BYTES && address + |value| <= c.logical
    requires 0 < j < |MakeMultibyte(address, value)| <= room
    ensures var chunk := MakeMultibyte(address, value);
            && |chunk| == SlotCount(chunk[0])
            && TornEntry(c, cache, chunk, j, room, beyond) == Blit(cache, TornAddress(address, j), TornValue(value, j))
  {
    hide MakeMultibyte, Decode, SlotCount, TornSlots, Blit, TornAddress, TornValue;
    MultibyteRoundTrip(c, address, value, []);
    TornIsEncoding(address, value, j, room, beyond);
    var made := MakeMultibyte(TornAddress(address, j), TornValue(value, j));
    MultibyteRoundTrip(c, TornAddress(address, j), TornValue(value, j), []);
    assert made + [] == made;
  }

  /** The shortest case: a one-byte write from address 64 up takes two slots; cut between them, it clears the byte at
      its address rounded down to a multiple of 256 and changes nothing else. */
  lemma TornByteWrite(c: Config, s: Store, address: nat, value: byte, beyond: seq<word>)
    requires Inv(c, s) && |beyond| >= 3 && 0x40 <= address < c.logical && s.end + 2 <= c.Slots()
    ensures |EntrySlots(address, [value])| == 2
    ensures Recovered(c, Overwrite(s.flash, s.end, EntrySlots(address, [value])[..1]), beyond)
         == Blit(s.cache, PageOf(address), [0])
  {
    hide Complete, Replay, Blit, Recovered, Consolidated, TornEntry, MakeMultibyte, PageOf;
    TwoSlots(address, value);
    CutAppendOutcome(c, s, address, [value], 1, beyond);
    assert [value][..1] == [value];
    TornInside(c, s.cache, address, [value], 1, c.Slots() - s.end, beyond);
    assert TornValue([value], 1) == [0];
  }

  lemma TwoSlots(address: nat, value: byte)
    requires address >= 0x40
    ensures EntrySlots(address, [value]) == ChunkSlots(address, [value]) == MakeMultibyte(address, [value])
    ensures |MakeMultibyte(address, [value])| == 2
  {
    assert [value][..1] == [value] && [value][1..] == [];
    assert EntrySlots(address + 1, []) == [];
  }

  // ----- Exactly which writes always leave a prefix of their bytes

  /** The old contents with some prefix of the written bytes replaced. */
  predicate PrefixWritten(cache: seq<byte>, address: nat, data: seq<byte>, r: seq<byte>)
    requires address + |data| <= |cache|
  {
    exists p: nat :: p <= |data| && r == Blit(cache, address, data[..p])
  }

  predicate ZerosAt(data: seq<byte>, from: nat, n: int)
  {
    forall x :: from <= x < from + n && x < |data| ==> data[x] == 0
  }

  /** The entry that covers bytes `d` to `d` + `n` of a write is harmless when torn: its page starts inside the write
      and on bytes to be written as zeros, and so are all of its bytes but the first. */
  predicate TearSafeEntry(address: nat, data: seq<byte>, d: nat, n: nat)
  {
    && PageOf(address + d) >= address && ZerosAt(data, PageOf(address + d) - address, n)
    && ZerosAt(data, d + 1, n - 1)
  }

  /** Every entry from byte `d` and slot `i` of the write on is a single slot, harmless, or too far out to fit any
      log. */
  predicate TearSafe(c: Config, address: nat, data: seq<byte>, d: nat, i: nat)
    requires d <= |data|
    decreases |data| - d
  {
    d == |data|
    || var n, k := ChunkLength(address + d, data[d..]), |ChunkSlots(address + d, data[d..])|;
      && (k > 1 && c.LogStart() + i + k <= c.Slots() ==> TearSafeEntry(address, data, d, n))
      && TearSafe(c, address, data, d + n, i + k)
  }

  /** Where the entry that a cut after `j` slots falls into ends. */
  function EntryEnd(address: nat, data: seq<byte>, j: nat): (e: nat)
    requires j <= |EntrySlots(address, data)|
    ensures e >= j
    decreases |data|
  {
    if j == 0 then 0
    else
      var n, k := ChunkLength(address, data), |ChunkSlots(address, data)|;
      if j <= k then k else k + EntryEnd(address + n, data[n..], j - k)
  }

  /** A store in the middle of appending a write, cut after `j` slots in an entry that lies inside the area. */
  predicate CutInside(c: Config, s: Store, address: nat, data: seq<byte>, j: nat)
  {
    && Inv(c, s) && Fits(c, address, data)
    && j <= |EntrySlots(address, data)| && s.end + EntryEnd(address, data, j) <= c.Slots()
  }

  lemma MultiSlotChunk(address: nat, data: seq<byte>)
    requires |data| > 0 && |ChunkSlots(address, data)| > 1
    ensures var value := data[..ChunkLength(address, data)];
            && 1 <= |value| <= MULTIBYTE_MAX_BYTES && address >= 0x40
            && ChunkSlots(address, data) == MakeMultibyte(address, value)
  {
    hide MakeMultibyte;
  }

  lemma BlitInside(cache: seq<byte>, address: nat, data: seq<byte>, d: nat, q: nat, n: nat)
    requires address + |data| <= |cache| && q <= d <= |data| && q + n <= |data|
    ensures Blit(Blit(cache, address, data[..d]), address + q, data[q..q + n])
         == Blit(cache, address, data[..if q + n > d then q + n else d])
  {
  }

  lemma TornIsZeros(value: seq<byte>)
    ensures TornValue(value, 1) == seq(|value|, i => 0)
  {
  }

  lemma TornKeepsFirst(value: seq<byte>, j: nat)
    requires j >= 2 && ZerosAt(value, 1, |value| - 1)
    ensures TornValue(value, j) == value
  {
  }

  lemma SafeBlit(cache: seq<byte>, address: nat, data: seq<byte>, d: nat, n: nat, j: nat) returns (p: nat)
    requires address + |data| <= |cache| && 0 < n && d + n <= |data| && 0 < j < 4
    requires TearSafeEntry(address, data, d, n)
    ensures d <= p <= |data|
    ensures Blit(Blit(cache, address, data[..d]), TornAddress(address + d, j), TornValue(data[d..d + n], j))
         == Blit(cache, address, data[..p])
  {
    hide Blit, PageOf, TornValue;
    var q := PageOf(address + d) - address;
    var value := data[d..d + n];
    if j == 1 {
      TornIsZeros(value);
      assert TornValue(value, 1) == data[q..q + n];
      BlitInside(cache, address, data, d, q, n);
      p := if q + n > d then q + n else d;
    } else {
      TornKeepsFirst(value, j);
      BlitTwice(cache, address, data[..d], value);
      assert data[..d] + value == data[..d + n];
      p := d + n;
    }
  }

  /** The entry that the cut falls into. */
  lemma SafeTornEntry(c: Config, cache: seq<byte>, address: nat, data: seq<byte>, d: nat, i: nat, j: nat,
                      room: nat, beyond: seq<word>) returns (p: nat)
    requires c.Valid() && |cache| == c.logical && Fits(c, address, data) && d <= |data| && |beyond| >= 3
    requires 0 < j <= |EntrySlots(address + d, data[d..])| && EntryEnd(address + d, data[d..], j) <= room
    requires c.LogStart() + i + room <= c.Slots() && TearSafe(c, address, data, d, i)
    requires j < |ChunkSlots(address + d, data[d..])|
    ensures d <= p <= |data|
    ensures AppendOutcome(c, Blit(cache, address, data[..d]), address + d, data[d..], j, room, beyond)
         == Blit(cache, address, data[..p])
  {
    hide Decode, SlotCount, Blit, ChunkLength, ChunkSlots, TornEntry, TearSafeEntry, MakeMultibyte, TornAddress, TornValue;
    var a, rest := address + d, data[d..];
    var n := ChunkLength(a, rest);
    ChunkRoundTrip(c, a, rest, []);
    assert rest[..n] == data[d..d + n];
    MultiSlotChunk(a, rest);
    TornInside(c, Blit(cache, address, data[..d]), a, rest[..n], j, room, beyond);
    p := SafeBlit(cache, address, data, d, n, j);
  }

  lemma {:induction false} SafeTear(c: Config, cache: seq<byte>, address: nat, data: seq<byte>, d: nat, i: nat, j: nat,
                                    room: nat, beyond: seq<word>) returns (p: nat)
    requires c.Valid() && |cache| == c.logical && Fits(c, address, data) && d <= |data| && |beyond| >= 3
    requires j <= |EntrySlots(address + d, data[d..])| && EntryEnd(address + d, data[d..], j) <= room
    requires c.LogStart() + i + room <= c.Slots() && TearSafe(c, address, data, d, i)
    ensures d <= p <= |data|
    ensures AppendOutcome(c, Blit(cache, address, data[..d]), address + d, data[d..], j, room, beyond)
         == Blit(cache, address, data[..p])
    decreases |data| - d
  {
    hide Decode, SlotCount, Blit, ChunkLength, ChunkSlots, TornEntry, TearSafeEntry, MakeMultibyte, TornAddress, TornValue;
    if j == 0 {
      p := d;
    } else {
      var a, rest := address + d, data[d..];
      var n, chunk := ChunkLength(a, rest), ChunkSlots(a, rest);
      ChunkRoundTrip(c, a, rest, []);
      assert rest[..n] == data[d..d + n];
      if j < |chunk| {
        p := SafeTornEntry(c, cache, address, data, d, i, j, room, beyond);
      } else {
        assert rest[n..] == data[d + n..];
        BlitTwice(cache, address, data[..d], rest[..n]);
        assert data[..d] + rest[..n] == data[..d + n];
        p := SafeTear(c, cache, address, data, d + n, i + |chunk|, j - |chunk|, room - |chunk|, beyond);
      }
    }
  }

  // ----- A state in which an unsafe tear shows

  /** Contents without zeros that differ from what is about to be written. */
  function Nonzero(c: Config, data: seq<byte>): (cache: seq<byte>)
    ensures |cache| == c.logical && forall i :: 0 <= i < |cache| ==> cache[i] != 0
    ensures |data| > 0 ==> forall i :: 0 <= i < |cache| ==> cache[i] != data[0]
  {
    seq(c.logical, i => if |data| > 0 && data[0] == 1 then 2 else 1)
  }

  lemma BlitAt(cache: seq<byte>, address: nat, value: seq<byte>, k: nat)
    requires address + |value| <= |cache| && k < |cache|
    ensures Blit(cache, address, value)[k] == if address <= k < address + |value| then value[k - address] else cache[k]
  {
  }

  /** A byte that is neither the old one nor the new one betrays a result. */
  lemma Betrayed(cache: seq<byte>, address: nat, data: seq<byte>, r: seq<byte>, x: nat)
    requires address + |data| <= |cache| == |r| && x < |r| && r[x] != cache[x]
    requires address <= x < address + |data| ==> r[x] != data[x - address]
    ensures !PrefixWritten(cache, address, data, r)
  {
    hide Blit;
    forall p: nat | p <= |data|
      ensures r != Blit(cache, address, data[..p])
    {
      BlitAt(cache, address, data[..p], x);
    }
  }

  lemma UnsafeBlit(cache: seq<byte>, address: nat, data: seq<byte>, d: nat, n: nat, k: nat) returns (j: nat)
    requires address + |data| <= |cache| && 0 < n && d + n <= |data|
    requires k > 1 && (n > 1 ==> k > 2)
    requires forall i :: 0 <= i < |cache| ==> cache[i] != 0
    requires !TearSafeEntry(address, data, d, n)
    ensures 0 < j < k
    ensures !PrefixWritten(cache, address, data,
              Blit(Blit(cache, address, data[..d]), TornAddress(address + d, j), TornValue(data[d..d + n], j)))
  {
    hide Blit, PageOf, PrefixWritten;
    var page, value := PageOf(address + d), data[d..d + n];
    var c0 := Blit(cache, address, data[..d]);
    var x: nat;
    j := 1;
    if page < address {
      x := page;
    } else if !ZerosAt(data, page - address, n) {
      var y :| page - address <= y < page - address + n && y < |data| && data[y] != 0;
      x := address + y;
    } else {
      var y :| d + 1 <= y < d + 1 + (n - 1) && y < |data| && data[y] != 0;
      x := address + y;
      j := 2;
    }
    var torn := TornValue(value, j);
    BlitAt(c0, TornAddress(address + d, j), torn, x);
    Betrayed(cache, address, data, Blit(c0, TornAddress(address + d, j), torn), x);
  }

  /** Entries that start past the end of every log cannot be torn. */
  lemma {:induction false} FartherOut(c: Config, address: nat, data: seq<byte>, d: nat, i: nat)
    requires d <= |data| && c.LogStart() + i >= c.Slots()
    ensures TearSafe(c, address, data, d, i)
    decreases |data| - d
  {
    hide ChunkLength, ChunkSlots, TearSafeEntry;
    if d < |data| {
      var n, k := ChunkLength(address + d, data[d..]), |ChunkSlots(address + d, data[d..])|;
      FartherOut(c, address, data, d + n, i + k);
    }
  }

  lemma LongEntries(address: nat, value: seq<byte>)
    requires 1 <= |value| <= MULTIBYTE_MAX_BYTES
    ensures |value| > 1 ==> |MakeMultibyte(address, value)| > 2
  {
  }

  /** The first unsafe entry of a write, cut at its worst slot. */
  lemma {:induction false} UnsafeTear(c: Config, cache: seq<byte>, address: nat, data: seq<byte>, d: nat, i: nat,
                                      room: nat, beyond: seq<word>) returns (j: nat)
    requires c.Valid() && |cache| == c.logical && Fits(c, address, data) && d <= |data| && |beyond| >= 3
    requires forall x :: 0 <= x < |cache| ==> cache[x] != 0
    requires c.LogStart() + i + room == c.Slots() && !TearSafe(c, address, data, d, i)
    ensures j <= |EntrySlots(address + d, data[d..])| && EntryEnd(address + d, data[d..], j) <= room
    ensures !PrefixWritten(cache, address, data,
              AppendOutcome(c, Blit(cache, address, data[..d]), address + d, data[d..], j, room, beyond))
    decreases |data| - d
  {
    hide Decode, SlotCount, Blit, ChunkLength, ChunkSlots, TornEntry, TearSafeEntry, MakeMultibyte, TornAddress, TornValue, PrefixWritten;
    var a, rest := address + d, data[d..];
    var n, chunk := ChunkLength(a, rest), ChunkSlots(a, rest);
    ChunkRoundTrip(c, a, rest, []);
    var c0 := Blit(cache, address, data[..d]);
    assert rest[..n] == data[d..d + n];
    if |chunk| > 1 && |chunk| <= room && !TearSafeEntry(address, data, d, n) {
      MultiSlotChunk(a, rest);
      LongEntries(a, rest[..n]);
      j := UnsafeBlit(cache, address, data, d, n, |chunk|);
      TornInside(c, c0, a, rest[..n], j, room, beyond);
    } else {
      if |chunk| > room {
        FartherOut(c, address, data, d + n, i + |chunk|);
      }
      assert rest[n..] == data[d + n..];
      BlitTwice(cache, address, data[..d], rest[..n]);
      assert data[..d] + rest[..n] == data[..d + n];
      j := UnsafeTear(c, cache, address, data, d + n, i + |chunk|, room - |chunk|, beyond);
      j := j + |chunk|;
    }
  }

  /** The result of a cut is a prefix of the write over what the store held. */
  predicate LeavesPrefix(c: Config, s: Store, address: nat, data: seq<byte>, j: nat, beyond: seq<word>)
    requires Inv(c, s) && Fits(c, address, data) && |beyond| >= 3
    requires j <= |EntrySlots(address, data)| && s.end + j <= c.Slots()
  {
    PrefixWritten(s.cache, address, data, Recovered(c, Overwrite(s.flash, s.end, EntrySlots(address, data)[..j]), beyond))
  }

  /** Whenever the torn entry lies inside the area, a cut write leaves a prefix. */
  ghost predicate AlwaysPrefixInside(c: Config, address: nat, data: seq<byte>)
  {
    forall s: Store, j: nat, beyond: seq<word> {:trigger LeavesPrefix(c, s, address, data, j, beyond)} ::
      CutInside(c, s, address, data, j) && |beyond| >= 3 ==> LeavesPrefix(c, s, address, data, j, beyond)
  }

  /** Main result on torn entries: over all stores and cuts whose torn entry lies inside the area, a write leaves a
      prefix of its bytes if and only if each of its entries is a single slot or harmless when torn. */
  lemma TearsExactly(c: Config, address: nat, data: seq<byte>)
    requires ValidConfig(c) && Fits(c, address, data)
    ensures AlwaysPrefixInside(c, address, data) <==> TearSafe(c, address, data, 0, 0)
  {
    hide Inv, TearSafe, PrefixWritten;
    assert data[..0] == [] && data[0..] == data;
    if TearSafe(c, address, data, 0, 0) {
      forall s: Store, j: nat, beyond: seq<word> | CutInside(c, s, address, data, j) && |beyond| >= 3
        ensures LeavesPrefix(c, s, address, data, j, beyond)
      {
        SafeCut(c, s, address, data, j, beyond);
      }
    } else {
      var s, j, beyond := UnsafeState(c, address, data);
      assert !LeavesPrefix(c, s, address, data, j, beyond);
    }
  }

  lemma SafeCut(c: Config, s: Store, address: nat, data: seq<byte>, j: nat, beyond: seq<word>)
    requires CutInside(c, s, address, data, j) && TearSafe(c, address, data, 0, 0) && |beyond| >= 3
    ensures LeavesPrefix(c, s, address, data, j, beyond)
  {
    hide TearSafe, Blit, AppendOutcome, EntryEnd, EntrySlots, Complete, Replay, Recovered, Consolidated;
    assert data[..0] == [] && data[0..] == data;
    CutAppendOutcome(c, s, address, data, j, beyond);
    BlitNothing(s.cache, address);
    var p := SafeTear(c, s.cache, address, data, 0, 0, j, c.Slots() - s.end, beyond);
  }

  /** A store in which an unsafe write, cut at slot `j`, does not leave a prefix. */
  lemma UnsafeState(c: Config, address: nat, data: seq<byte>) returns (s: Store, j: nat, beyond: seq<word>)
    requires ValidConfig(c) && Fits(c, address, data) && !TearSafe(c, address, data, 0, 0)
    ensures CutInside(c, s, address, data, j) && |beyond| >= 3
    ensures s.cache[address..address + |data|] != data
    ensures !LeavesPrefix(c, s, address, data, j, beyond)
  {
    hide Inv, TearSafe, Blit, AppendOutcome, EntrySlots, PrefixWritten, EntryEnd, Fresh, Recovered;
    assert data[..0] == [] && data[0..] == data;
    if data == [] {
      NothingIsSafe(c, address);
      assert false;
    }
    var cache := Nonzero(c, data);
    s, beyond := Store(Fresh(c, cache), cache, c.LogStart()), Zeros(3);
    FreshInv(c, cache);
    InvShape(c, s);
    BlitNothing(cache, address);
    j := UnsafeTear(c, cache, address, data, 0, 0, c.Slots() - c.LogStart(), beyond);
    CutAppendOutcome(c, s, address, data, j, beyond);
    assert cache[address..address + |data|][0] != data[0];
  }

  lemma NothingIsSafe(c: Config, address: nat)
    ensures TearSafe(c, address, [], 0, 0)
  {
  }

  /** For one byte: below address 64, or a zero at the start of a page. */
  lemma OneByteTears(c: Config, address: nat, value: byte)
    requires c.Valid() && address < c.logical
    ensures TearSafe(c, address, [value], 0, 0)
       <==> address < 0x40 || (address % 0x100 == 0 && value == 0) || c.LogStart() + 2 > c.Slots()
  {
    PageParts(address);
    assert [value][0..] == [value] && [value][..1] == [value];
    assert TearSafe(c, address, [value], 1, |ChunkSlots(address, [value])|);
  }

  // ----- Torn at the end of the area

  /** A store whose log is filled up to slot `end` with entries that store what is there already. */
  function FilledLog(cache: seq<byte>, n: nat): (log: seq<word>)
    requires |cache| > 0
    ensures |log| == n
  {
    seq(n, i => MakeOptimized64(0, cache[0]))
  }

  function FilledStore(c: Config, cache: seq<byte>, end: nat): (s: Store)
    requires c.Valid() && |cache| == c.logical && c.LogStart() <= end <= c.Slots()
    ensures |s.flash| == c.Slots()
  {
    Store(ToWords(cache) + HashOf(cache) + FilledLog(cache, end - c.LogStart()) + Zeros(c.Slots() - end), cache, end)
  }

  lemma {:induction false} FilledReplays(c: Config, cache: seq<byte>, n: nat)
    requires c.Valid() && |cache| == c.logical
    ensures Complete(c, FilledLog(cache, n)) && Replay(c, FilledLog(cache, n), cache) == cache
  {
    hide Decode, SlotCount, Blit, MakeOptimized64;
    if n > 0 {
      var log := FilledLog(cache, n);
      assert log == [MakeOptimized64(0, cache[0])] + log[1..];
      Optimized64RoundTrip(c, 0, cache[0], log[1..]);
      assert log[1..] == FilledLog(cache, n - 1);
      FilledReplays(c, cache, n - 1);
      BlitSame(cache);
    }
  }

  lemma BlitSame(cache: seq<byte>)
    requires |cache| > 0
    ensures Blit(cache, 0, [cache[0]]) == cache
  {
  }

  lemma FilledStoreInv(c: Config, cache: seq<byte>, end: nat)
    requires ValidConfig(c) && |cache| == c.logical && c.LogStart() <= end < c.Slots()
    ensures Inv(c, FilledStore(c, cache, end)) && Log(c, FilledStore(c, cache, end)) == FilledLog(cache, end - c.LogStart())
  {
    hide ToWords, HashOf, FilledLog, Complete, Replay, Consolidated;
    var s := FilledStore(c, cache, end);
    FreshConsolidated(c, cache);
    assert s.flash[..c.LogStart()] == ToWords(cache) + HashOf(cache) == Fresh(c, cache)[..c.LogStart()];
    SameConsolidated(c, Fresh(c, cache), s.flash);
    assert s.flash[c.LogStart()..end] == FilledLog(cache, end - c.LogStart());
    FilledReplays(c, cache, end - c.LogStart());
  }

  /** Every entry that can start inside some log is a single slot. */
  predicate SingleSlots(c: Config, address: nat, data: seq<byte>, i: nat)
    decreases |data|
  {
    || |data| == 0 || c.LogStart() + i >= c.Slots()
    || (|ChunkSlots(address, data)| == 1
        && SingleSlots(c, address + ChunkLength(address, data), data[ChunkLength(address, data)..], i + 1))
  }

  /** Whatever the write position, a write cut while appending leaves a prefix. */
  ghost predicate AlwaysPrefix(c: Config, address: nat, data: seq<byte>)
    requires Fits(c, address, data)
  {
    forall s: Store, j: nat, beyond: seq<word> {:trigger LeavesPrefix(c, s, address, data, j, beyond)} ::
      Inv(c, s) && j <= |EntrySlots(address, data)| && s.end + j <= c.Slots() && |beyond| >= 3 ==>
        LeavesPrefix(c, s, address, data, j, beyond)
  }

  lemma {:induction false} SinglePrefix(c: Config, cache: seq<byte>, address: nat, data: seq<byte>, i: nat, j: nat,
                                        room: nat, beyond: seq<word>) returns (p: nat)
    requires c.Valid() && |cache| == c.logical && Fits(c, address, data) && |beyond| >= 3
    requires j <= |EntrySlots(address, data)| && j <= room && c.LogStart() + i + room <= c.Slots()
    requires SingleSlots(c, address, data, i)
    ensures p <= |data| && (j == |EntrySlots(address, data)| ==> p == |data|)
    ensures AppendOutcome(c, cache, address, data, j, room, beyond) == Blit(cache, address, data[..p])
    decreases |data|
  {
    hide Decode, SlotCount, Blit, ChunkLength, ChunkSlots, TornEntry;
    if j == 0 {
      p := 0;
      BlitNothing(cache, address);
    } else {
      var n, chunk := ChunkLength(address, data), ChunkSlots(address, data);
      ChunkRoundTrip(c, address, data, []);
      var q := SinglePrefix(c, Blit(cache, address, data[..n]), address + n, data[n..], i + 1, j - 1, room - 1, beyond);
      p := n + q;
      BlitTwice(cache, address, data[..n], data[n..][..q]);
      PrefixInTwo(data, n, q);
    }
  }

  lemma PrefixInTwo(data: seq<byte>, n: nat, q: nat)
    requires n + q <= |data|
    ensures data[..n] + data[n..][..q] == data[..n + q]
  {
  }

  /** A byte that is neither `a` nor `b`. */
  function Other(a: byte, b: byte): (x: byte)
    ensures x != a && x != b
  {
    if a != 0 && b != 0 then 0 else if a != 1 && b != 1 then 1 else 2
  }

  function Stray(address: nat, x: byte): (beyond: seq<word>)
    ensures |beyond| == 3
  {
    [WordOf(address % 0x100, x), 0, 0]
  }

  /** An entry that starts in the last slot of the area is completed by what follows the area. */
  lemma StrayIsEncoding(address: nat, value: seq<byte>, x: byte)
    requires 1 <= |value| <= MULTIBYTE_MAX_BYTES
    ensures TornSlots(MakeMultibyte(address, value), 1, 1, Stray(address, x))
         == MakeMultibyte(address, [x] + seq(|value| - 1, i => 0))
  {
    var torn := TornSlots(MakeMultibyte(address, value), 1, 1, Stray(address, x));
    var made := MakeMultibyte(address, [x] + seq(|value| - 1, i => 0));
    assert |torn| == |made| && torn[0] == made[0] && torn[1] == made[1];
    assert |made| > 2 ==> torn[2] == made[2];
    assert |made| > 3 ==> torn[3] == made[3];
  }

  lemma StrayOutcome(c: Config, cache: seq<byte>, address: nat, value: seq<byte>, x: byte)
    requires c.Valid() && |cache| == c.logical
    requires 1 <= |value| <= MULTIBYTE_MAX_BYTES && address + |value| <= c.logical
    ensures var chunk := MakeMultibyte(address, value);
            && 1 < |chunk| <= 4 && |chunk| == SlotCount(chunk[0])
            && TornEntry(c, cache, chunk, 1, 1, Stray(address, x))
            == Blit(cache, address, [x] + seq(|value| - 1, i => 0))
  {
    hide Decode, SlotCount, TornSlots, Blit, Stray;
    MultibyteRoundTrip(c, address, value, []);
    StrayIsEncoding(address, value, x);
    var v: seq<byte> := [x] + seq(|value| - 1, i => 0);
    MultibyteRoundTrip(c, address, v, []);
    hide MakeMultibyte;
    assert MakeMultibyte(address, v) + [] == MakeMultibyte(address, v);
  }

  /** The first multi-slot entry of a write, begun in the last slot. */
  lemma {:induction false} LongEntryAtEnd(c: Config, cache: seq<byte>, address: nat, data: seq<byte>, d: nat, i: nat)
    returns (j: nat, beyond: seq<word>)
    requires c.Valid() && |cache| == c.logical && Fits(c, address, data) && d <= |data|
    requires !SingleSlots(c, address + d, data[d..], i)
    ensures 1 <= j <= |EntrySlots(address + d, data[d..])| && c.LogStart() + i + j <= c.Slots() && |beyond| == 3
    ensures !PrefixWritten(cache, address, data,
              AppendOutcome(c, Blit(cache, address, data[..d]), address + d, data[d..], j, j, beyond))
    decreases |data| - d
  {
    hide Decode, SlotCount, Blit, ChunkLength, ChunkSlots, TornEntry, MakeMultibyte, PrefixWritten;
    var a, rest := address + d, data[d..];
    var n, chunk := ChunkLength(a, rest), ChunkSlots(a, rest);
    var c0 := Blit(cache, address, data[..d]);
    ChunkRoundTrip(c, a, rest, []);
    if |chunk| > 1 {
      MultiSlotChunk(a, rest);
      var x := Other(data[d], cache[a]);
      j, beyond := 1, Stray(a, x);
      StrayOutcome(c, c0, a, rest[..n], x);
      var v: seq<byte> := [x] + seq(n - 1, k => 0);
      assert |v| == n;
      BlitAt(c0, a, v, a);
      Betrayed(cache, address, data, Blit(c0, a, v), a);
    } else {
      assert rest[..n] == data[d..d + n] && rest[n..] == data[d + n..];
      BlitTwice(cache, address, data[..d], rest[..n]);
      assert data[..d] + rest[..n] == data[..d + n];
      j, beyond := LongEntryAtEnd(c, cache, address, data, d + n, i + 1);
      j := j + 1;
    }
  }

  /** Over all stores, write positions near the end of the log included, and over whatever follows the area, a write
      leaves a prefix of its bytes if and only if every entry that can start in a log is a single slot. */
  lemma PrefixesExactly(c: Config, address: nat, data: seq<byte>)
    requires ValidConfig(c) && Fits(c, address, data)
    ensures AlwaysPrefix(c, address, data) <==> SingleSlots(c, address, data, 0)
  {
    hide Inv, SingleSlots, PrefixWritten;
    if SingleSlots(c, address, data, 0) {
      forall s: Store, j: nat, beyond: seq<word> |
          Inv(c, s) && j <= |EntrySlots(address, data)| && s.end + j <= c.Slots() && |beyond| >= 3
        ensures LeavesPrefix(c, s, address, data, j, beyond)
      {
        SingleSlotCut(c, s, address, data, j, beyond);
      }
    } else {
      var s, j, beyond := StrayState(c, address, data);
      assert !LeavesPrefix(c, s, address, data, j, beyond);
    }
  }

  lemma SingleSlotCut(c: Config, s: Store, address: nat, data: seq<byte>, j: nat, beyond: seq<word>)
    requires Inv(c, s) && Fits(c, address, data) && SingleSlots(c, address, data, 0) && |beyond| >= 3
    requires j <= |EntrySlots(address, data)| && s.end + j <= c.Slots()
    ensures LeavesPrefix(c, s, address, data, j, beyond)
  {
    hide SingleSlots, Blit, AppendOutcome, EntrySlots, Complete, Replay, Recovered, Consolidated;
    CutAppendOutcome(c, s, address, data, j, beyond);
    var p := SinglePrefix(c, s.cache, address, data, 0, j, c.Slots() - s.end, beyond);
  }

  /** A store at the end of its log in which a write with a multi-slot entry does not leave a prefix. */
  lemma StrayState(c: Config, address: nat, data: seq<byte>) returns (s: Store, j: nat, beyond: seq<word>)
    requires ValidConfig(c) && Fits(c, address, data) && !SingleSlots(c, address, data, 0)
    ensures Inv(c, s) && j <= |EntrySlots(address, data)| && s.end + j == c.Slots() && |beyond| == 3
    ensures s.cache[address..address + |data|] != data
    ensures !LeavesPrefix(c, s, address, data, j, beyond)
  {
    hide Inv, SingleSlots, Blit, AppendOutcome, EntrySlots, PrefixWritten, FilledStore, Recovered;
    assert data[..0] == [] && data[0..] == data;
    if data == [] {
      NothingIsSingle(c, address);
      assert false;
    }
    var cache := Nonzero(c, data);
    BlitNothing(cache, address);
    j, beyond := LongEntryAtEnd(c, cache, address, data, 0, 0);
    s := FilledStore(c, cache, c.Slots() - j);
    FilledStoreInv(c, cache, c.Slots() - j);
    FilledStoreParts(c, cache, c.Slots() - j);
    InvShape(c, s);
    CutAppendOutcome(c, s, address, data, j, beyond);
    assert cache[address..address + |data|][0] != data[0];
  }

  lemma NothingIsSingle(c: Config, address: nat)
    ensures SingleSlots(c, address, [], 0)
  {
  }

  lemma FilledStoreParts(c: Config, cache: seq<byte>, end: nat)
    requires c.Valid() && |cache| == c.logical && c.LogStart() <= end <= c.Slots()
    ensures FilledStore(c, cache, end).cache == cache && FilledStore(c, cache, end).end == end
  {
  }

  /** Writes below address 64, where all settings live, and of words 0 and 1 are of this kind. */
  lemma {:induction false} LowAddressesAreSingleSlots(c: Config, address: nat, data: seq<byte>, i: nat)
    requires address + |data| <= 0x40
    ensures SingleSlots(c, address, data, i)
    decreases |data|
  {
    hide MakeMultibyte;
    if |data| != 0 {
      var n := ChunkLength(address, data);
      LowAddressesAreSingleSlots(c, address + n, data[n..], i + 1);
    }
  }
}
