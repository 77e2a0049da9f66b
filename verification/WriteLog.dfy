/** The write log of the wear-levelling store: the three entry encodings for 16-bit slots
    (fruitchip-fw/lib/wear_leveling/wear_leveling_internal.h), the stream of slots that one logical write
    becomes, and the replay of a log into the logical bytes. */
module WriteLog {
  import opened Bits

  /** `WEAR_LEVELING_LOGICAL_SIZE`, `WEAR_LEVELING_BACKING_SIZE` and the flash sector size, in bytes. */
  datatype Config = Config(logical: nat, backing: nat, sector: nat) {

    /** The compile-time checks, and what the 19-bit addresses and the 8-byte hash require of the sizes. */
    predicate Valid() {
      && logical % 2 == 0 && backing % 2 == 0
      && 2 * logical <= backing
      && 8 < logical <= 0x8_0000
    }

    /** 16-bit slots in the backing area. */
    function Slots(): nat {
      backing / 2
    }

    /** Slots of consolidated data. */
    function DataSlots(): nat {
      logical / 2
    }

    /** First slot of the log: the consolidated data and a 64-bit hash come before it. */
    function LogStart(): nat {
      logical / 2 + 4
    }
  }

  function WordOf(low: byte, high: byte): word {
    low + 0x100 * high
  }

  function Low(w: word): byte {
    w % 0x100
  }

  function High(w: word): byte {
    w / 0x100
  }

  // ----- Entry encodings

  const MULTIBYTE_MAX_BYTES := 5

  /** The entry type lives in the top two bits of the first byte. */
  function EntryType(first: word): nat
  {
    Low(first) / 64
  }

  function MultibyteLength(first: word): nat
  {
    Low(first) / 8 % 8
  }

  /** How many slots the entry starting with `first` occupies. */
  function SlotCount(first: word): (n: nat)
    ensures 1 <= n <= 4
  {
    if EntryType(first) != 0 then 1
    else 2 + (if MultibyteLength(first) > 1 then 1 else 0) + (if MultibyteLength(first) > 3 then 1 else 0)
  }

  function MakeMultibyte(address: nat, value: seq<byte>): (slots: seq<word>)
    requires 1 <= |value| <= MULTIBYTE_MAX_BYTES
  {
    var b0: byte := |value| * 8 + address / 0x1_0000 % 8;
    var w0 := WordOf(b0, address / 0x100 % 0x100);
    var w1 := WordOf(address % 0x100, value[0]);
    if |value| == 1 then [w0, w1]
    else
      var w2 := WordOf(value[1], if |value| > 2 then value[2] else 0);
      if |value| <= 3 then [w0, w1, w2]
      else [w0, w1, w2, WordOf(value[3], if |value| > 4 then value[4] else 0)]
  }

  function MakeOptimized64(address: nat, value: byte): word
  {
    WordOf(0x40 + address % 0x40, value)
  }

  function MakeWord01(address: nat, value: word): word
  {
    WordOf(0x80 + (if value != 0 then 0x20 else 0) + address / 0x200 % 0x20, address / 2 % 0x100)
  }

  /** The three layouts by example: three bytes at 0x54321, a byte at 0x15 and the word 1 at 0x1234. */
  lemma SampleEntries()
    ensures MakeMultibyte(0x54321, [0xAA, 0xBB, 0xCC])
         == [WordOf(0x1D, 0x43), WordOf(0x21, 0xAA), WordOf(0xBB, 0xCC)] == [0x431D, 0xAA21, 0xCCBB]
    ensures MakeOptimized64(0x15, 0x99) == 0x9955 && MakeWord01(0x1234, 1) == 0x1AA9 && MakeWord01(0x1234, 0) == 0x1A89
  {
  }

  // ----- Decoding

  /** Every kind of entry stores some bytes at an address. `Rejected` entries stop playback. */
  datatype Decoded = Stored(address: nat, value: seq<byte>) | Rejected

  /** The value bytes of a multi-byte entry. Lengths 6 and 7 fit the length field but are never written;
      the bytes they would take from beyond the entry are given as 0 here. */
  function MultibyteValue(w: seq<word>): (value: seq<byte>)
    requires |w| >= 1 && EntryType(w[0]) == 0 && |w| >= SlotCount(w[0])
    ensures |value| == MultibyteLength(w[0])
  {
    var length := MultibyteLength(w[0]);
    var raw := [High(w[1])]
      + (if length > 1 then [Low(w[2]), High(w[2])] else [0, 0])
      + (if length > 3 then [Low(w[3]), High(w[3])] else [0, 0])
      + [0, 0];
    raw[..length]
  }

  function Decode(c: Config, w: seq<word>): Decoded
    requires |w| >= 1 && |w| >= SlotCount(w[0])
  {
    var b0, b1 := Low(w[0]), High(w[0]);
    match EntryType(w[0])
    case 0 =>
      var address := b0 % 8 * 0x1_0000 + b1 * 0x100 + Low(w[1]);
      if address + MultibyteLength(w[0]) > c.logical then Rejected else Stored(address, MultibyteValue(w))
    case 1 =>
      if b0 % 0x40 >= c.logical then Rejected else Stored(b0 % 0x40, [b1])
    case 2 =>
      var address := b0 % 0x20 * 0x200 + b1 * 2;
      if address + 1 >= c.logical then Rejected else Stored(address, [b0 / 0x20 % 2, 0])
    case _ => Rejected
  }

  lemma WordParts(low: byte, high: byte)
    ensures Low(WordOf(low, high)) == low && High(WordOf(low, high)) == high
  {
  }

  lemma MultibyteHeader(address: nat, length: nat)
    requires address < 0x8_0000 && 1 <= length <= 7
    ensures var b0 := length * 8 + address / 0x1_0000 % 8;
            && 0 < b0 < 0x40 && b0 / 8 % 8 == length
            && b0 % 8 * 0x1_0000 + address / 0x100 % 0x100 * 0x100 + address % 0x100 == address
  {
    var high := address / 0x1_0000;
    assert high < 8;
    assert address / 0x100 == high * 0x100 + address / 0x100 % 0x100;
  }

  lemma MultibyteRoundTrip(c: Config, address: nat, value: seq<byte>, rest: seq<word>)
    requires c.Valid()
    requires 1 <= |value| <= MULTIBYTE_MAX_BYTES && address + |value| <= c.logical
    ensures var slots := MakeMultibyte(address, value);
            && slots[0] != 0 && EntryType(slots[0]) == 0 && SlotCount(slots[0]) == |slots|
            && Decode(c, slots + rest) == Stored(address, value)
  {
    var slots := MakeMultibyte(address, value);
    MultibyteHeader(address, |value|);
    var b0: byte := |value| * 8 + address / 0x1_0000 % 8;
    WordParts(b0, address / 0x100 % 0x100);
    WordParts(address % 0x100, value[0]);
    hide WordOf;
    assert slots[0] == WordOf(b0, address / 0x100 % 0x100);
    assert slots[1] == WordOf(address % 0x100, value[0]);
    assert MultibyteLength(slots[0]) == |value|;
    var w := slots + rest;
    assert w[0] == slots[0] && w[1] == slots[1];
    MultibyteValueRoundTrip(address, value, rest);
  }

  lemma MultibyteValueRoundTrip(address: nat, value: seq<byte>, rest: seq<word>)
    requires 1 <= |value| <= MULTIBYTE_MAX_BYTES
    requires var first := MakeMultibyte(address, value)[0];
             EntryType(first) == 0 && MultibyteLength(first) == |value|
    ensures |MakeMultibyte(address, value)| == SlotCount(MakeMultibyte(address, value)[0])
    ensures MultibyteValue(MakeMultibyte(address, value) + rest) == value
  {
    hide WordOf, Low, High, EntryType, MultibyteLength;
    var slots := MakeMultibyte(address, value);
    WordParts(address % 0x100, value[0]);
    assert slots[1] == WordOf(address % 0x100, value[0]);
    if |value| > 1 {
      WordParts(value[1], if |value| > 2 then value[2] else 0);
      assert slots[2] == WordOf(value[1], if |value| > 2 then value[2] else 0);
    }
    if |value| > 3 {
      WordParts(value[3], if |value| > 4 then value[4] else 0);
      assert slots[3] == WordOf(value[3], if |value| > 4 then value[4] else 0);
    }
  }

  lemma Optimized64RoundTrip(c: Config, address: nat, value: byte, rest: seq<word>)
    requires address < 0x40 && address < c.logical
    ensures var slot := MakeOptimized64(address, value);
            && slot != 0 && EntryType(slot) == 1 && SlotCount(slot) == 1
            && Decode(c, [slot] + rest) == Stored(address, [value])
  {
    WordParts(0x40 + address, value);
  }

  lemma Word01Header(address: nat, bit: nat)
    requires address % 2 == 0 && address < 0x4000 && bit <= 1
    ensures var b0 := 0x80 + bit * 0x20 + address / 0x200 % 0x20;
            && b0 < 0x100 && b0 / 0x40 == 2 && b0 / 0x20 % 2 == bit
            && b0 % 0x20 * 0x200 + address / 2 % 0x100 * 2 == address
  {
    var high := address / 0x200;
    assert high < 0x20;
    assert address / 2 == high * 0x100 + address / 2 % 0x100;
  }

  lemma Word01RoundTrip(c: Config, address: nat, value: nat, rest: seq<word>)
    requires address % 2 == 0 && address < 0x4000 && address + 2 <= c.logical && value <= 1
    ensures var slot := MakeWord01(address, value);
            && slot != 0 && EntryType(slot) == 2 && SlotCount(slot) == 1
            && Decode(c, [slot] + rest) == Stored(address, [value, 0])
  {
    Word01Header(address, value);
    WordParts(0x80 + value * 0x20 + address / 0x200 % 0x20, address / 2 % 0x100);
    hide WordOf;
    assert MakeWord01(address, value) == WordOf(0x80 + value * 0x20 + address / 0x200 % 0x20, address / 2 % 0x100);
  }

  // ----- One logical write as a stream of slots

  function Blit(cache: seq<byte>, address: nat, value: seq<byte>): (r: seq<byte>)
    requires address + |value| <= |cache|
    ensures |r| == |cache|
  {
    cache[..address] + value + cache[address + |value|..]
  }

  /** Two bytes at an even address below 16384 that form the little-endian word 0 or 1. */
  predicate IsWord01(address: nat, data: seq<byte>)
  {
    |data| >= 2 && address % 2 == 0 && address < 0x4000 && data[1] == 0 && data[0] <= 1
  }

  /** The bytes that the next entry of a write covers. */
  function ChunkLength(address: nat, data: seq<byte>): (n: nat)
    requires |data| > 0
    ensures 1 <= n <= |data|
  {
    if IsWord01(address, data) then 2
    else if address < 0x40 then 1
    else if |data| >= MULTIBYTE_MAX_BYTES then MULTIBYTE_MAX_BYTES
    else |data|
  }

  function ChunkSlots(address: nat, data: seq<byte>): (slots: seq<word>)
    requires |data| > 0
    ensures 1 <= |slots| <= 4
  {
    if IsWord01(address, data) then [MakeWord01(address, data[0])]
    else if address < 0x40 then [MakeOptimized64(address, data[0])]
    else MakeMultibyte(address, data[..ChunkLength(address, data)])
  }

  /** How much an entry covers and what it costs: two bytes in one slot for 0 and 1 at even addresses below 16384, one
      byte in one slot below address 64, else up to five bytes in two to four slots. */
  lemma EntryCost(address: nat, data: seq<byte>)
    requires |data| > 0
    ensures var small := |data| >= 2 && address % 2 == 0 && address < 16384 && data[0] <= 1 && data[1] == 0;
            var n := if small then 2 else if address < 64 then 1 else if |data| > 5 then 5 else |data|;
            && ChunkLength(address, data) == n
            && |ChunkSlots(address, data)| == if small || address < 64 then 1 else 2 + n / 2
  {
  }

  function EntrySlots(address: nat, data: seq<byte>): seq<word>
    decreases |data|
  {
    if |data| == 0 then []
    else
      var n := ChunkLength(address, data);
      ChunkSlots(address, data) + EntrySlots(address + n, data[n..])
  }

  lemma ChunkRoundTrip(c: Config, address: nat, data: seq<byte>, rest: seq<word>)
    requires c.Valid() && |data| > 0 && address + |data| <= c.logical
    ensures var slots := ChunkSlots(address, data);
            && slots[0] != 0 && SlotCount(slots[0]) == |slots|
            && Decode(c, slots + rest) == Stored(address, data[..ChunkLength(address, data)])
  {
    if IsWord01(address, data) {
      Word01RoundTrip(c, address, data[0], rest);
      assert data[..2] == [data[0], 0];
    } else if address < 0x40 {
      Optimized64RoundTrip(c, address, data[0], rest);
      assert data[..1] == [data[0]];
    } else {
      MultibyteRoundTrip(c, address, data[..ChunkLength(address, data)], rest);
    }
  }

  // ----- Logs made of whole entries

  /** `log` splits into entries that playback accepts. */
  predicate Complete(c: Config, log: seq<word>)
    decreases |log|
  {
    |log| == 0
    || (&& log[0] != 0
        && SlotCount(log[0]) <= |log|
        && Decode(c, log).Stored?
        && Complete(c, log[SlotCount(log[0])..]))
  }

  lemma DecodeInBounds(c: Config, w: seq<word>)
    requires |w| >= 1 && |w| >= SlotCount(w[0]) && Decode(c, w).Stored?
    ensures Decode(c, w).address + |Decode(c, w).value| <= c.logical
  {
  }

  /** Only the entry's own slots matter. */
  lemma DecodeLocal(c: Config, w: seq<word>, v: seq<word>)
    requires |w| >= 1 && |w| >= SlotCount(w[0])
    requires |v| >= SlotCount(w[0]) && v[..SlotCount(w[0])] == w[..SlotCount(w[0])]
    ensures v[0] == w[0] && Decode(c, v) == Decode(c, w)
  {
    assert forall i :: 0 <= i < SlotCount(w[0]) ==> v[i] == v[..SlotCount(w[0])][i] == w[i];
  }

  function Replay(c: Config, log: seq<word>, cache: seq<byte>): (r: seq<byte>)
    requires Complete(c, log) && |cache| == c.logical
    ensures |r| == |cache|
    decreases |log|
  {
    if |log| == 0 then cache
    else
      var d := Decode(c, log);
      DecodeInBounds(c, log);
      Replay(c, log[SlotCount(log[0])..], Blit(cache, d.address, d.value))
  }

  lemma {:induction false} Append(c: Config, x: seq<word>, y: seq<word>, cache: seq<byte>)
    requires Complete(c, x) && Complete(c, y) && |cache| == c.logical
    ensures Complete(c, x + y)
    ensures Replay(c, x + y, cache) == Replay(c, y, Replay(c, x, cache))
    decreases |x|
  {
    hide Decode, SlotCount, Blit;
    if |x| == 0 {
      assert x + y == y;
    } else {
      var n, d := SlotCount(x[0]), Decode(c, x);
      DecodeLocal(c, x, x + y);
      assert (x + y)[n..] == x[n..] + y;
      DecodeInBounds(c, x);
      Append(c, x[n..], y, Blit(cache, d.address, d.value));
    }
  }

  lemma BlitTwice(cache: seq<byte>, address: nat, x: seq<byte>, y: seq<byte>)
    requires address + |x| + |y| <= |cache|
    ensures Blit(Blit(cache, address, x), address + |x|, y) == Blit(cache, address, x + y)
  {
  }

  lemma BlitNothing(cache: seq<byte>, address: nat)
    requires address <= |cache|
    ensures Blit(cache, address, []) == cache
  {
  }

  /** The slots of one write replay to one copy of its bytes. */
  lemma {:induction false} StreamReplays(c: Config, address: nat, data: seq<byte>, cache: seq<byte>)
    requires c.Valid() && address + |data| <= c.logical && |cache| == c.logical
    ensures Complete(c, EntrySlots(address, data))
    ensures Replay(c, EntrySlots(address, data), cache) == Blit(cache, address, data)
    decreases |data|
  {
    hide Decode, SlotCount, ChunkLength, ChunkSlots, Blit;
    if |data| == 0 {
      BlitNothing(cache, address);
    } else {
      var n, slots := ChunkLength(address, data), ChunkSlots(address, data);
      var rest := EntrySlots(address + n, data[n..]);
      ChunkRoundTrip(c, address, data, rest);
      assert EntrySlots(address, data) == slots + rest;
      assert (slots + rest)[|slots|..] == rest;
      var cache' := Blit(cache, address, data[..n]);
      StreamReplays(c, address + n, data[n..], cache');
      BlitTwice(cache, address, data[..n], data[n..]);
      assert data[..n] + data[n..] == data;
    }
  }
}
