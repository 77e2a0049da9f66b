/** What each call of the wear-levelling store does, as functions of the RAM state and the flash
    (fruitchip-fw/lib/wear_leveling/wear_leveling.c), and the invariant that every call keeps:
    the cache is what a restart would rebuild from flash. */
module Store {
  import opened Bits
  import opened FlashOps
  import opened WriteLog
  import Fnv

  /** RAM state plus backing area: the cached logical bytes and the next free log slot. */
  datatype Store = Store(flash: seq<word>, cache: seq<byte>, end: nat)

  predicate ValidConfig(c: Config)
  {
    c.Valid() && c.sector >= 2
  }

  // ----- Consolidated area

  function ToWords(bytes: seq<byte>): (words: seq<word>)
    ensures |words| == |bytes| / 2
  {
    seq(|bytes| / 2, i requires 0 <= i < |bytes| / 2 => WordOf(bytes[2 * i], bytes[2 * i + 1]))
  }

  function ToBytes(words: seq<word>): (bytes: seq<byte>)
    ensures |bytes| == 2 * |words|
  {
    seq(2 * |words|, i requires 0 <= i < 2 * |words| =>
      if i % 2 == 0 then Low(words[i / 2]) else High(words[i / 2]))
  }

  lemma WordsRoundTrip(bytes: seq<byte>)
    requires |bytes| % 2 == 0
    ensures ToBytes(ToWords(bytes)) == bytes
  {
    forall i | 0 <= i < |bytes|
      ensures ToBytes(ToWords(bytes))[i] == bytes[i]
    {
      WordParts(bytes[2 * (i / 2)], bytes[2 * (i / 2) + 1]);
    }
  }

  /** A 64-bit hash as four little-endian slots. */
  function HashWords(hash: Fnv.u64): (words: seq<word>)
    ensures |words| == 4
  {
    [hash % TWO_16, hash / TWO_16 % TWO_16, hash / TWO_32 % TWO_16, hash / (TWO_32 * TWO_16)]
  }

  function HashOf(cache: seq<byte>): (words: seq<word>)
    ensures |words| == 4
  {
    HashWords(Fnv.Fnv1a(Fnv.FNV1A_64_INIT, cache))
  }

  function Blank(c: Config): (cache: seq<byte>)
    ensures |cache| == c.logical
  {
    seq(c.logical, i => 0)
  }

  /** `wear_leveling_read_consolidated`: the data area if its hash matches, else zeros. */
  function Consolidated(c: Config, flash: seq<word>): (cache: seq<byte>)
    requires c.Valid() && |flash| >= c.Slots()
    ensures |cache| == c.logical
  {
    var data := ToBytes(flash[..c.DataSlots()]);
    if HashOf(data) == flash[c.DataSlots()..c.LogStart()] then data else Blank(c)
  }

  /** `wear_leveling_consolidate_force`: erase everything, then write the data and its hash. */
  function ConsolidateOps(c: Config, cache: seq<byte>): seq<Op>
    requires ValidConfig(c)
  {
    EraseOps(c.Slots(), c.sector / 2, 0) + Programs(0, ToWords(cache)) + Programs(c.DataSlots(), HashOf(cache))
  }

  function Fresh(c: Config, cache: seq<byte>): (flash: seq<word>)
    requires c.Valid() && |cache| == c.logical
    ensures |flash| == c.Slots()
  {
    ToWords(cache) + HashOf(cache) + Zeros(c.Slots() - c.LogStart())
  }

  // ----- Playback

  /** `ok` is false when an entry was rejected; `end` is where the scan stopped. */
  datatype Played = Played(cache: seq<byte>, end: nat, ok: bool)

  /** `wear_leveling_playback_log` from slot `pos`. `mem` is the backing area followed by at least three
      more words: an entry that begins in the last slots is read past the end of the area. */
  function Playback(c: Config, mem: seq<word>, pos: nat, cache: seq<byte>): (p: Played)
    requires c.Valid() && |mem| >= c.Slots() + 3 && |cache| == c.logical
    ensures |p.cache| == c.logical
    decreases c.Slots() + 4 - pos
  {
    if pos >= c.Slots() || mem[pos] == 0 then Played(cache, pos, true)
    else
      var d := Decode(c, mem[pos..]);
      if d.Rejected? then Played(cache, pos + (if EntryType(mem[pos]) == 0 then 2 else 1), false)
      else
        DecodeInBounds(c, mem[pos..]);
        Playback(c, mem, pos + SlotCount(mem[pos]), Blit(cache, d.address, d.value))
  }

  lemma {:induction false} PlaybackAdvances(c: Config, mem: seq<word>, pos: nat, cache: seq<byte>)
    requires c.Valid() && |mem| >= c.Slots() + 3 && |cache| == c.logical
    ensures Playback(c, mem, pos, cache).end >= pos
    decreases c.Slots() + 4 - pos
  {
    hide Decode, SlotCount, Blit;
    if pos < c.Slots() && mem[pos] != 0 {
      var d := Decode(c, mem[pos..]);
      if d.Stored? {
        DecodeInBounds(c, mem[pos..]);
        PlaybackAdvances(c, mem, pos + SlotCount(mem[pos]), Blit(cache, d.address, d.value));
      }
    }
  }

  function Mount(c: Config, mem: seq<word>): (p: Played)
    requires c.Valid() && |mem| >= c.Slots() + 3
    ensures |p.cache| == c.logical && p.end >= c.LogStart()
  {
    PlaybackAdvances(c, mem, c.LogStart(), Consolidated(c, mem[..c.Slots()]));
    Playback(c, mem, c.LogStart(), Consolidated(c, mem[..c.Slots()]))
  }

  // ----- The calls

  /** `wear_leveling_init` writes flash only to consolidate: after a rejected entry or with a full log. */
  function InitOps(c: Config, flash: seq<word>, beyond: seq<word>): seq<Op>
    requires ValidConfig(c) && |flash| == c.Slots() && |beyond| >= 3
  {
    var p := Mount(c, flash + beyond);
    if p.ok && p.end < c.Slots() then [] else ConsolidateOps(c, p.cache)
  }

  function AfterInit(c: Config, flash: seq<word>, beyond: seq<word>): Store
    requires ValidConfig(c) && |flash| == c.Slots() && |beyond| >= 3
  {
    var p := Mount(c, flash + beyond);
    Store(ApplyAll(flash, InitOps(c, flash, beyond)), p.cache,
          if p.ok && p.end < c.Slots() then p.end else c.LogStart())
  }

  predicate Fits(c: Config, address: nat, data: seq<byte>)
  {
    address + |data| <= c.logical
  }

  /** Appending slots one by one from `end`; as soon as the log is full, a consolidation of the cache, which already
      holds the whole write, makes the remaining slots unnecessary. */
  function AppendOps(c: Config, cache: seq<byte>, end: nat, slots: seq<word>): seq<Op>
    requires ValidConfig(c) && end < c.Slots()
  {
    var room := c.Slots() - end;
    if |slots| < room then Programs(end, slots) else Programs(end, slots[..room]) + ConsolidateOps(c, cache)
  }

  /** `wear_leveling_write` on flash: nothing if the bytes are already cached. */
  function WriteOps(c: Config, s: Store, address: nat, data: seq<byte>): seq<Op>
    requires ValidConfig(c) && |s.cache| == c.logical && s.end < c.Slots() && Fits(c, address, data)
  {
    if s.cache[address..address + |data|] == data then []
    else AppendOps(c, Blit(s.cache, address, data), s.end, EntrySlots(address, data))
  }

  function AfterWrite(c: Config, s: Store, address: nat, data: seq<byte>): Store
    requires ValidConfig(c) && |s.cache| == c.logical && s.end < c.Slots() && Fits(c, address, data)
  {
    if s.cache[address..address + |data|] == data then s
    else
      var slots := EntrySlots(address, data);
      Store(ApplyAll(s.flash, WriteOps(c, s, address, data)), Blit(s.cache, address, data),
            if |slots| < c.Slots() - s.end then s.end + |slots| else c.LogStart())
  }

  function AfterErase(c: Config, s: Store): Store
    requires ValidConfig(c)
  {
    Store(ApplyAll(s.flash, EraseOps(c.Slots(), c.sector / 2, 0)), Blank(c), c.LogStart())
  }

  // ----- The invariant

  predicate Shape(c: Config, s: Store)
  {
    && ValidConfig(c)
    && |s.flash| == c.Slots() && |s.cache| == c.logical
    && c.LogStart() <= s.end < c.Slots()
  }

  function Log(c: Config, s: Store): seq<word>
    requires Shape(c, s)
  {
    s.flash[c.LogStart()..s.end]
  }

  /** The cache is the replay of the flash, and everything from the write position up is erased. */
  predicate Inv(c: Config, s: Store)
  {
    && Shape(c, s)
    && Complete(c, Log(c, s))
    && s.cache == Replay(c, Log(c, s), Consolidated(c, s.flash))
    && ErasedRange(s.flash, s.end, c.Slots())
  }

  lemma InvShape(c: Config, s: Store)
    requires Inv(c, s)
    ensures Shape(c, s)
  {
  }

  lemma {:induction false} PlaybackOfLog(c: Config, mem: seq<word>, pos: nat, log: seq<word>, cache: seq<byte>)
    requires c.Valid() && |mem| >= c.Slots() + 3 && |cache| == c.logical
    requires pos + |log| <= c.Slots() && mem[pos..pos + |log|] == log && Complete(c, log)
    ensures Playback(c, mem, pos, cache) == Playback(c, mem, pos + |log|, Replay(c, log, cache))
    decreases |log|
  {
    hide Decode, SlotCount, Blit;
    if |log| != 0 {
      assert mem[pos] == log[0];
      var n, d := SlotCount(log[0]), Decode(c, log);
      assert mem[pos..][..n] == log[..n];
      DecodeLocal(c, log, mem[pos..]);
      DecodeInBounds(c, log);
      assert mem[pos + n..pos + |log|] == log[n..];
      PlaybackOfLog(c, mem, pos + n, log[n..], Blit(cache, d.address, d.value));
    }
  }

  /** Restarting rebuilds exactly the cache and the write position, whatever lies beyond the area. */
  lemma InvMounts(c: Config, s: Store, beyond: seq<word>)
    requires Inv(c, s) && |beyond| >= 3
    ensures Mount(c, s.flash + beyond) == Played(s.cache, s.end, true)
  {
    hide Complete, Replay, Consolidated;
    var mem := s.flash + beyond;
    assert mem[..c.Slots()] == s.flash;
    assert mem[c.LogStart()..s.end] == Log(c, s);
    PlaybackOfLog(c, mem, c.LogStart(), Log(c, s), Consolidated(c, s.flash));
    assert mem[s.end] == s.flash[s.end] == 0;
  }

  lemma InitAgain(c: Config, s: Store, beyond: seq<word>)
    requires Inv(c, s) && |beyond| >= 3
    ensures InitOps(c, s.flash, beyond) == [] && AfterInit(c, s.flash, beyond) == s
  {
    InvMounts(c, s, beyond);
  }

  // ----- Consolidation

  lemma ConsolidateRun(c: Config, flash: seq<word>, cache: seq<byte>)
    requires ValidConfig(c) && |flash| == c.Slots() && |cache| == c.logical
    ensures Disciplined(flash, ConsolidateOps(c, cache))
    ensures ApplyAll(flash, ConsolidateOps(c, cache)) == Fresh(c, cache)
  {
    hide Disciplined, ApplyAll, EraseOps, Programs, HashOf, ToWords;
    var erase, data, hash := EraseOps(c.Slots(), c.sector / 2, 0), Programs(0, ToWords(cache)), Programs(c.DataSlots(), HashOf(cache));
    EraseRun(flash, c.sector / 2, 0);
    var f0 := Zeros(c.Slots());
    assert flash[..0] + f0 == f0;
    var f1 := ToWords(cache) + Zeros(c.Slots() - c.DataSlots());
    ProgramRun(f0, 0, ToWords(cache));
    assert Overwrite(f0, 0, ToWords(cache)) == f1;
    Concatenation(flash, erase, data);
    ProgramRun(f1, c.DataSlots(), HashOf(cache));
    assert Overwrite(f1, c.DataSlots(), HashOf(cache)) == Fresh(c, cache);
    Concatenation(flash, erase + data, hash);
  }

  lemma FreshConsolidated(c: Config, cache: seq<byte>)
    requires c.Valid() && |cache| == c.logical
    ensures Consolidated(c, Fresh(c, cache)) == cache
  {
    hide HashOf, ToWords, ToBytes;
    var f := Fresh(c, cache);
    assert f[..c.DataSlots()] == ToWords(cache);
    assert f[c.DataSlots()..c.LogStart()] == HashOf(cache);
    WordsRoundTrip(cache);
  }

  // ----- The consolidated area in numbers

  lemma HashWordsValue(hash: Fnv.u64)
    ensures var w := HashWords(hash);
            w[0] as int + 0x1_0000 * w[1] as int + 0x1_0000_0000 * w[2] as int + 0x1_0000_0000_0000 * w[3] as int == hash
  {
    var q := hash / TWO_16;
    var r := q / TWO_16;
    var t := r / TWO_16;
    var low := hash % TWO_16 + TWO_16 * (q % TWO_16);
    DivModUnique(hash, TWO_32, r, low);
    DivModUnique(hash, TWO_32 * TWO_16, t, low + TWO_32 * (r % TWO_16));
  }

  /** Four slots are determined by the number that they stand for. */
  lemma SlotsAreDigits(v: seq<word>, w: seq<word>)
    requires |v| == |w| == 4
    requires v[0] as int + 0x1_0000 * v[1] as int + 0x1_0000_0000 * v[2] as int + 0x1_0000_0000_0000 * v[3] as int
          == w[0] as int + 0x1_0000 * w[1] as int + 0x1_0000_0000 * w[2] as int + 0x1_0000_0000_0000 * w[3] as int
    ensures v == w
  {
    var x := v[1] as int + 0x1_0000 * v[2] as int + 0x1_0000_0000 * v[3] as int;
    var y := w[1] as int + 0x1_0000 * w[2] as int + 0x1_0000_0000 * w[3] as int;
    assert v[0] == w[0] && x == y;
    assert v[1] == w[1];
  }

  /** Data with its hash, in front of anything: the bytes in pairs, low byte first, and the 64-bit FNV-1a hash of all of
      them in the next four slots, least significant first. */
  lemma AreaInNumbers(c: Config, cache: seq<byte>, rest: seq<word>)
    requires c.Valid() && |cache| == c.logical
    ensures var f, d := ToWords(cache) + HashOf(cache) + rest, c.DataSlots();
            && |f| == d + 4 + |rest|
            && (forall k :: 0 <= k < d ==> f[k] == cache[2 * k] as int + 0x100 * cache[2 * k + 1] as int)
            && f[d] as int + 0x1_0000 * f[d + 1] as int + 0x1_0000_0000 * f[d + 2] as int + 0x1_0000_0000_0000 * f[d + 3] as int
               == Fnv.Fnv1a(Fnv.FNV1A_64_INIT, cache)
            && f[d + 4..] == rest
  {
    hide HashWords, Fnv.Fnv1a;
    var d, w := c.logical / 2, HashOf(cache);
    var f := ToWords(cache) + w + rest;
    HashWordsValue(Fnv.Fnv1a(Fnv.FNV1A_64_INIT, cache));
    assert f[d] == w[0] && f[d + 1] == w[1] && f[d + 2] == w[2] && f[d + 3] == w[3];
  }

  /** What a consolidation leaves. */
  lemma FreshInNumbers(c: Config, cache: seq<byte>)
    requires c.Valid() && |cache| == c.logical
    ensures var f, d := Fresh(c, cache), c.DataSlots();
            && (forall k :: 0 <= k < d ==> f[k] == cache[2 * k] as int + 0x100 * cache[2 * k + 1] as int)
            && f[d] as int + 0x1_0000 * f[d + 1] as int + 0x1_0000_0000 * f[d + 2] as int + 0x1_0000_0000_0000 * f[d + 3] as int
               == Fnv.Fnv1a(Fnv.FNV1A_64_INIT, cache)
            && (forall k :: d + 4 <= k < |f| ==> f[k] == 0)
  {
    hide ToWords, HashOf, Fnv.Fnv1a;
    AreaInNumbers(c, cache, Zeros(c.Slots() - c.LogStart()));
    assert forall k :: c.DataSlots() + 4 <= k < c.Slots() ==> Fresh(c, cache)[k] == Fresh(c, cache)[c.DataSlots() + 4..][k - c.DataSlots() - 4];
  }

  /** A restart loads an area that holds `data` exactly if the four slots behind it are the hash of `data`; otherwise it
      starts from zeros. */
  lemma LoadedExactly(c: Config, flash: seq<word>, data: seq<byte>)
    requires c.Valid() && |flash| >= c.Slots() && |data| == c.logical
    requires forall k :: 0 <= k < c.DataSlots() ==> flash[k] == data[2 * k] as int + 0x100 * data[2 * k + 1] as int
    ensures var d := c.DataSlots();
            Consolidated(c, flash)
            == if flash[d] as int + 0x1_0000 * flash[d + 1] as int + 0x1_0000_0000 * flash[d + 2] as int + 0x1_0000_0000_0000 * flash[d + 3] as int
                  == Fnv.Fnv1a(Fnv.FNV1A_64_INIT, data)
               then data else seq(c.logical, i => 0)
  {
    hide HashWords, Fnv.Fnv1a;
    var d, v, w := c.DataSlots(), HashOf(data), flash[c.DataSlots()..c.LogStart()];
    assert flash[..d] == ToWords(data);
    WordsRoundTrip(data);
    HashWordsValue(Fnv.Fnv1a(Fnv.FNV1A_64_INIT, data));
    assert w[0] == flash[d] && w[1] == flash[d + 1] && w[2] == flash[d + 2] && w[3] == flash[d + 3];
    if flash[d] as int + 0x1_0000 * flash[d + 1] as int + 0x1_0000_0000 * flash[d + 2] as int + 0x1_0000_0000_0000 * flash[d + 3] as int
       == Fnv.Fnv1a(Fnv.FNV1A_64_INIT, data) {
      SlotsAreDigits(v, w);
    }
  }

  /** What a restart takes from the consolidated area: zeros, or bytes that the area holds together with their hash. */
  lemma ConsolidatedInNumbers(c: Config, flash: seq<word>, cache: seq<byte>)
    requires c.Valid() && |flash| >= c.Slots() && cache == Consolidated(c, flash)
    ensures var d := c.DataSlots();
            || (forall i :: 0 <= i < c.logical ==> cache[i] == 0)
            || (&& (forall k :: 0 <= k < d ==> flash[k] == cache[2 * k] as int + 0x100 * cache[2 * k + 1] as int)
                && flash[d] as int + 0x1_0000 * flash[d + 1] as int + 0x1_0000_0000 * flash[d + 2] as int + 0x1_0000_0000_0000 * flash[d + 3] as int
                   == Fnv.Fnv1a(Fnv.FNV1A_64_INIT, cache))
  {
    hide Consolidated, Fnv.Fnv1a;
    var data := ToBytes(flash[..c.DataSlots()]);
    forall k | 0 <= k < c.DataSlots()
      ensures flash[k] == data[2 * k] as int + 0x100 * data[2 * k + 1] as int
    {
      assert data[2 * k] == Low(flash[k]) && data[2 * k + 1] == High(flash[k]);
    }
    LoadedExactly(c, flash, data);
  }

  /** A consolidated area with one data byte changed is noticed: the next restart starts from zeros. */
  lemma DataDamageIsNoticed(c: Config, cache: seq<byte>, i: nat, b: byte)
    requires c.Valid() && |cache| == c.logical && i < c.logical && cache[i] != b
    ensures var slot := if i % 2 == 0 then b as int + 0x100 * cache[i + 1] as int else cache[i - 1] as int + 0x100 * b as int;
            Consolidated(c, Fresh(c, cache)[i / 2 := slot]) == seq(c.logical, j => 0)
  {
    hide Consolidated, Fresh, Fnv.Fnv1a;
    var f, slot := Fresh(c, cache), if i % 2 == 0 then b as int + 0x100 * cache[i + 1] as int else cache[i - 1] as int + 0x100 * b as int;
    FreshInNumbers(c, cache);
    var data, g := cache[i := b], f[i / 2 := slot];
    assert data[i] == b && forall j :: 0 <= j < c.logical && j != i ==> data[j] == cache[j];
    forall k | 0 <= k < c.DataSlots()
      ensures g[k] == data[2 * k] as int + 0x100 * data[2 * k + 1] as int
    {
      if k == i / 2 {
        assert i == 2 * k || i == 2 * k + 1;
      }
    }
    LoadedExactly(c, g, data);
    Fnv.SingleOctetChange(Fnv.FNV1A_64_INIT, cache, i, b);
  }

  /** And so is one with a slot of the hash changed. */
  lemma HashDamageIsNoticed(c: Config, cache: seq<byte>, k: nat, w: word)
    requires c.Valid() && |cache| == c.logical && c.DataSlots() <= k < c.LogStart() && Fresh(c, cache)[k] != w
    ensures Consolidated(c, Fresh(c, cache)[k := w]) == seq(c.logical, j => 0)
  {
    hide Consolidated, Fresh, Fnv.Fnv1a;
    var f, g, d := Fresh(c, cache), Fresh(c, cache)[k := w], c.DataSlots();
    FreshInNumbers(c, cache);
    LoadedExactly(c, g, cache);
    SlotsDiffer(f, g, d, k);
  }

  lemma SlotsDiffer(f: seq<word>, g: seq<word>, d: nat, k: nat)
    requires |f| == |g| && d <= k < d + 4 <= |f| && f[k] != g[k]
    ensures f[d] as int + 0x1_0000 * f[d + 1] as int + 0x1_0000_0000 * f[d + 2] as int + 0x1_0000_0000_0000 * f[d + 3] as int
         != g[d] as int + 0x1_0000 * g[d + 1] as int + 0x1_0000_0000 * g[d + 2] as int + 0x1_0000_0000_0000 * g[d + 3] as int
  {
    if f[d] as int + 0x1_0000 * f[d + 1] as int + 0x1_0000_0000 * f[d + 2] as int + 0x1_0000_0000_0000 * f[d + 3] as int
       == g[d] as int + 0x1_0000 * g[d + 1] as int + 0x1_0000_0000 * g[d + 2] as int + 0x1_0000_0000_0000 * g[d + 3] as int {
      var v, w := [f[d], f[d + 1], f[d + 2], f[d + 3]], [g[d], g[d + 1], g[d + 2], g[d + 3]];
      assert v[k - d] == f[k] && w[k - d] == g[k];
      SlotsAreDigits(v, w);
    }
  }

  /** Writing the consolidated area onto erased slots leaves those numbers, and whatever lies behind them. */
  lemma WrittenInNumbers(c: Config, flash: seq<word>, cache: seq<byte>)
    requires ValidConfig(c) && |flash| == c.Slots() && |cache| == c.logical && ErasedRange(flash, 0, c.LogStart())
    ensures var f, d := ApplyAll(flash, Programs(0, ToWords(cache)) + Programs(c.DataSlots(), HashOf(cache))), c.DataSlots();
            && (forall k :: 0 <= k < d ==> f[k] == cache[2 * k] as int + 0x100 * cache[2 * k + 1] as int)
            && f[d] as int + 0x1_0000 * f[d + 1] as int + 0x1_0000_0000 * f[d + 2] as int + 0x1_0000_0000_0000 * f[d + 3] as int
               == Fnv.Fnv1a(Fnv.FNV1A_64_INIT, cache)
            && f[d + 4..] == flash[d + 4..]
  {
    hide ApplyAll, Programs, HashOf, ToWords, Fnv.Fnv1a;
    ProgramBoth(flash, ToWords(cache), HashOf(cache));
    AreaInNumbers(c, cache, flash[c.LogStart()..]);
  }

  lemma ProgramBoth(flash: seq<word>, x: seq<word>, y: seq<word>)
    requires |x| + |y| <= |flash| && ErasedRange(flash, 0, |x| + |y|)
    ensures ApplyAll(flash, Programs(0, x) + Programs(|x|, y)) == x + y + flash[|x| + |y|..]
  {
    hide ApplyAll, Programs, Overwrite, Disciplined;
    assert ErasedRange(flash, 0, |x|);
    ProgramRun(flash, 0, x);
    var g := Overwrite(flash, 0, x);
    FrontWritten(flash, x, y);
    ProgramRun(g, |x|, y);
    Concatenation(flash, Programs(0, x), Programs(|x|, y));
  }

  lemma FrontWritten(flash: seq<word>, x: seq<word>, y: seq<word>)
    requires |x| + |y| <= |flash| && ErasedRange(flash, 0, |x| + |y|)
    ensures ErasedRange(Overwrite(flash, 0, x), |x|, |x| + |y|)
    ensures Overwrite(Overwrite(flash, 0, x), |x|, y) == x + y + flash[|x| + |y|..]
  {
    var g := Overwrite(flash, 0, x);
    assert g == x + flash[|x|..];
    assert g[..|x|] == x && g[|x| + |y|..] == flash[|x| + |y|..];
  }

  /** A restart with an empty log takes what is consolidated, if the hash is right, and leaves the flash alone. */
  lemma RestartLoads(c: Config, flash: seq<word>, beyond: seq<word>, data: seq<byte>)
    requires ValidConfig(c) && |flash| == c.Slots() && |beyond| >= 3 && |data| == c.logical && flash[c.LogStart()] == 0
    requires forall k :: 0 <= k < c.DataSlots() ==> flash[k] == data[2 * k] as int + 0x100 * data[2 * k + 1] as int
    ensures var d := c.DataSlots();
            AfterInit(c, flash, beyond)
            == Store(flash,
                     if flash[d] as int + 0x1_0000 * flash[d + 1] as int + 0x1_0000_0000 * flash[d + 2] as int + 0x1_0000_0000_0000 * flash[d + 3] as int
                        == Fnv.Fnv1a(Fnv.FNV1A_64_INIT, data)
                     then data else seq(c.logical, i => 0),
                     c.LogStart())
  {
    hide Consolidated, ConsolidateOps, Decode, Fnv.Fnv1a;
    var mem := flash + beyond;
    assert mem[..c.Slots()] == flash && mem[c.LogStart()] == 0;
    LoadedExactly(c, flash, data);
    assert Mount(c, mem) == Played(Consolidated(c, flash), c.LogStart(), true);
    assert InitOps(c, flash, beyond) == [];
  }

  lemma BadEntryStops(c: Config, s: Store, w: word, beyond: seq<word>)
    requires Inv(c, s) && |beyond| >= 3 && w % 0x100 >= 0xC0
    ensures Mount(c, s.flash[s.end := w] + beyond) == Played(s.cache, s.end + 1, false)
  {
    hide Complete, Replay, Consolidated, Playback;
    var f := s.flash[s.end := w];
    var mem := f + beyond;
    assert mem[..c.Slots()] == f && mem[c.LogStart()..s.end] == Log(c, s) && f[..c.LogStart()] == s.flash[..c.LogStart()];
    SameConsolidated(c, s.flash, f);
    PlaybackOfLog(c, mem, c.LogStart(), Log(c, s), Consolidated(c, f));
    RejectedAt(c, mem, s.end, s.cache);
  }

  lemma RejectedAt(c: Config, mem: seq<word>, pos: nat, cache: seq<byte>)
    requires c.Valid() && |mem| >= c.Slots() + 3 && |cache| == c.logical && pos < c.Slots() && mem[pos] % 0x100 >= 0xC0
    ensures Playback(c, mem, pos, cache) == Played(cache, pos + 1, false)
  {
    assert EntryType(mem[pos]) == 3 && mem[pos..][0] == mem[pos];
  }

  /** An entry of the unused type behind the log makes a restart consolidate what it has replayed so far. */
  lemma BadEntryConsolidates(c: Config, s: Store, w: word, beyond: seq<word>)
    requires Inv(c, s) && |beyond| >= 3 && w % 0x100 >= 0xC0
    ensures AfterInit(c, s.flash[s.end := w], beyond) == Store(Fresh(c, s.cache), s.cache, c.LogStart())
  {
    hide Complete, Replay, Consolidated, ConsolidateOps, ApplyAll, Fresh, Mount;
    BadEntryStops(c, s, w, beyond);
    ConsolidateRun(c, s.flash[s.end := w], s.cache);
  }

  lemma SameConsolidated(c: Config, flash: seq<word>, flash': seq<word>)
    requires c.Valid() && |flash| == |flash'| == c.Slots()
    requires flash'[..c.LogStart()] == flash[..c.LogStart()]
    ensures Consolidated(c, flash') == Consolidated(c, flash)
  {
    hide HashOf, ToBytes;
    var x, y := flash[..c.LogStart()], flash'[..c.LogStart()];
    assert flash'[..c.DataSlots()] == y[..c.DataSlots()] == x[..c.DataSlots()] == flash[..c.DataSlots()];
    assert flash'[c.DataSlots()..c.LogStart()] == y[c.DataSlots()..] == x[c.DataSlots()..] == flash[c.DataSlots()..c.LogStart()];
  }

  lemma FreshInv(c: Config, cache: seq<byte>)
    requires ValidConfig(c) && |cache| == c.logical
    ensures Inv(c, Store(Fresh(c, cache), cache, c.LogStart()))
  {
    hide Consolidated;
    FreshConsolidated(c, cache);
    var s := Store(Fresh(c, cache), cache, c.LogStart());
    assert Log(c, s) == [];
  }

  // ----- Each call keeps the invariant and acts on the cache as on a plain byte array

  lemma ErasedIsBlank(c: Config)
    requires c.Valid()
    ensures Consolidated(c, Zeros(c.Slots())) == Blank(c)
  {
    hide HashOf;
    assert ToBytes(Zeros(c.Slots())[..c.DataSlots()]) == Blank(c);
  }

  lemma EraseKeepsInv(c: Config, s: Store)
    requires ValidConfig(c) && |s.flash| == c.Slots()
    ensures Inv(c, AfterErase(c, s)) && AfterErase(c, s).cache == Blank(c)
  {
    hide ApplyAll, EraseOps, Consolidated, Disciplined, Blank;
    EraseRun(s.flash, c.sector / 2, 0);
    var s' := AfterErase(c, s);
    assert s'.flash == Zeros(c.Slots());
    ErasedIsBlank(c);
    assert Log(c, s') == [];
  }

  lemma WriteKeepsInv(c: Config, s: Store, address: nat, data: seq<byte>)
    requires Inv(c, s) && Fits(c, address, data)
    ensures Inv(c, AfterWrite(c, s, address, data))
    ensures AfterWrite(c, s, address, data).cache == Blit(s.cache, address, data)
    ensures Disciplined(s.flash, WriteOps(c, s, address, data))
  {
    hide Complete, Replay, Consolidated, EntrySlots, ApplyAll, Programs, ConsolidateOps, Disciplined;
    if s.cache[address..address + |data|] == data {
      assert Blit(s.cache, address, data) == s.cache;
      NothingDisciplined(s.flash);
    } else {
      var slots, room := EntrySlots(address, data), c.Slots() - s.end;
      var cache' := Blit(s.cache, address, data);
      if |slots| < room {
        ProgramRun(s.flash, s.end, slots);
        AppendKeepsInv(c, s, address, data);
      } else {
        ProgramRun(s.flash, s.end, slots[..room]);
        var f := Overwrite(s.flash, s.end, slots[..room]);
        Concatenation(s.flash, Programs(s.end, slots[..room]), ConsolidateOps(c, cache'));
        ConsolidateRun(c, f, cache');
        FreshInv(c, cache');
      }
    }
  }

  lemma NothingDisciplined(f: seq<word>)
    ensures Disciplined(f, [])
  {
  }

  /** Appending the whole entry stream below the end of the area. */
  lemma AppendKeepsInv(c: Config, s: Store, address: nat, data: seq<byte>)
    requires Inv(c, s) && Fits(c, address, data)
    requires s.end + |EntrySlots(address, data)| < c.Slots()
    ensures var slots := EntrySlots(address, data);
            Inv(c, Store(Overwrite(s.flash, s.end, slots), Blit(s.cache, address, data), s.end + |slots|))
  {
    hide Complete, Replay, EntrySlots, Blit, ToBytes, HashOf;
    var slots := EntrySlots(address, data);
    var s' := Store(Overwrite(s.flash, s.end, slots), Blit(s.cache, address, data), s.end + |slots|);
    var base := Consolidated(c, s.flash);
    assert s'.flash[..c.DataSlots()] == s.flash[..c.DataSlots()];
    assert s'.flash[c.DataSlots()..c.LogStart()] == s.flash[c.DataSlots()..c.LogStart()];
    assert Log(c, s') == Log(c, s) + slots;
    StreamReplays(c, address, data, s.cache);
    Append(c, Log(c, s), slots, base);
  }
}
