/** The wear-levelling store itself (fruitchip-fw/lib/wear_leveling/wear_leveling.c): the static cache, write
    address and lock flag as the fields of an object, and its routines as methods that are proved to do
    exactly what the functions of module Store say. */
module WearLeveling {
  import opened Bits
  import opened FlashOps
  import opened WriteLog
  import opened Store
  import opened Rp2040Flash
  import Fnv

  /** `wear_leveling_status_t`. */
  datatype Status = FAILED | SUCCESS | CONSOLIDATED
  datatype LockStatus = LOCK_SUCCESS | LOCK_UNCHANGED

  /** What appending `slots` returns and where it leaves the write position. */
  function AppendEnd(c: Config, end: nat, slots: seq<word>): nat
  {
    if end + |slots| < c.Slots() then end + |slots| else c.LogStart()
  }

  function AppendStatus(c: Config, end: nat, slots: seq<word>): Status
  {
    if end + |slots| < c.Slots() then SUCCESS else CONSOLIDATED
  }

  lemma ConsolidateParts(c: Config, cache: seq<byte>)
    requires ValidConfig(c)
    ensures ConsolidateOps(c, cache)
         == EraseOps(c.Slots(), c.sector / 2, 0) + Programs(0, ToWords(cache)) + Programs(c.DataSlots(), HashOf(cache))
  {
  }

  lemma AppendOne(c: Config, cache: seq<byte>, end: nat, value: word)
    requires ValidConfig(c) && end < c.Slots()
    ensures AppendOps(c, cache, end, [value])
         == [Program(end, value)] + (if end + 1 < c.Slots() then [] else ConsolidateOps(c, cache))
  {
    hide ConsolidateOps;
    assert Programs(end, [value]) == [Program(end, value)];
    assert [value][..1] == [value];
  }

  lemma AppendSplit(c: Config, cache: seq<byte>, end: nat, x: seq<word>, y: seq<word>)
    requires ValidConfig(c) && end < c.Slots()
    ensures end + |x| < c.Slots() ==> AppendOps(c, cache, end, x + y) == AppendOps(c, cache, end, x) + AppendOps(c, cache, end + |x|, y)
    ensures end + |x| >= c.Slots() ==> AppendOps(c, cache, end, x + y) == AppendOps(c, cache, end, x)
  {
    hide ConsolidateOps;
    var room := c.Slots() - end;
    if |x| < room {
      if |x| + |y| < room {
        assert Programs(end, x + y) == Programs(end, x) + Programs(end + |x|, y);
      } else {
        assert (x + y)[..room] == x + y[..room - |x|];
        assert Programs(end, x + y[..room - |x|]) == Programs(end, x) + Programs(end + |x|, y[..room - |x|]);
      }
    } else {
      assert (x + y)[..room] == x[..room];
    }
  }

  /** One more chunk of the stream `all == done + chunk + tail`, appended after `done`. */
  lemma AppendChunk(c: Config, cache: seq<byte>, end: nat, done: seq<word>, chunk: seq<word>, tail: seq<word>, all: seq<word>)
    requires ValidConfig(c) && end + |done| < c.Slots() && all == done + chunk + tail
    ensures var status := AppendStatus(c, end + |done|, chunk);
            var ops := AppendOps(c, cache, end, done) + AppendOps(c, cache, end + |done|, chunk);
            && (status == SUCCESS ==>
                  && end + |done + chunk| < c.Slots()
                  && AppendEnd(c, end + |done|, chunk) == end + |done + chunk|
                  && ops == AppendOps(c, cache, end, done + chunk))
            && (status != SUCCESS ==>
                  && status == AppendStatus(c, end, all)
                  && AppendEnd(c, end + |done|, chunk) == AppendEnd(c, end, all)
                  && ops == AppendOps(c, cache, end, all))
  {
    hide AppendOps;
    AppendSplit(c, cache, end, done, chunk);
    AppendSplit(c, cache, end, done + chunk, tail);
  }

  lemma AppendAll(c: Config, end: nat, all: seq<word>)
    requires end + |all| < c.Slots()
    ensures AppendStatus(c, end, all) == SUCCESS && AppendEnd(c, end, all) == end + |all|
  {
  }

  class WearLeveler {
    const c: Config
    const store: BackingStore
    const cache: array<byte>
    var writeAddress: nat
    var unlocked: bool

    ghost predicate Shape()
      reads this, store
    {
      && ValidConfig(c) && HashFitsPage(c.logical)
      && store.Shape() && store.slots == c.Slots() && store.sectorSlots == c.sector / 2
      && cache.Length == c.logical
      && cache as object != store.chip && cache as object != store.bulkWriteBuffer
    }

    ghost predicate Valid()
      reads this, store, store.chip
      ensures Valid() ==> Shape()
    {
      Shape() && store.Valid()
    }

    /** The abstract state. */
    ghost function State(): Store
      requires Shape()
      reads this, store, store.chip, cache
    {
      Store(store.View(), cache[..], writeAddress / 2)
    }

    /** What has to hold between calls. */
    ghost predicate Ready()
      reads this, store, store.chip, cache
    {
      Valid() && writeAddress % 2 == 0 && !unlocked && Inv(c, State())
    }

    constructor (c: Config, store: BackingStore)
      requires ValidConfig(c) && HashFitsPage(c.logical)
      requires store.Valid() && store.slots == c.Slots() && store.sectorSlots == c.sector / 2
      ensures Valid() && !unlocked && fresh(cache) && this.c == c && this.store == store
    {
      this.c, this.store := c, store;
      cache := new byte[c.logical](_ => 0);
      writeAddress, unlocked := 0, false;
    }

    // ----- Locking (the RP2040 driver's lock and unlock always succeed)

    method Unlock() returns (status: LockStatus)
      modifies this`unlocked
      ensures unlocked && (status == LOCK_UNCHANGED <==> old(unlocked))
    {
      if unlocked {
        return LOCK_UNCHANGED;
      }
      unlocked := true;
      return LOCK_SUCCESS;
    }

    method Lock() returns (status: LockStatus)
      modifies this`unlocked
      ensures !unlocked && (status == LOCK_UNCHANGED <==> !old(unlocked))
    {
      if !unlocked {
        return LOCK_UNCHANGED;
      }
      unlocked := false;
      return LOCK_SUCCESS;
    }

    // ----- Consolidated area

    method ClearCache()
      requires Shape()
      modifies this`writeAddress, cache
      ensures cache[..] == Blank(c) && writeAddress == 2 * c.LogStart()
    {
      forall i | 0 <= i < cache.Length {
        cache[i] := 0;
      }
      writeAddress := c.logical + 8;
    }

    method ReadConsolidated()
      requires Valid() && writeAddress == 2 * c.LogStart()
      modifies this`writeAddress, cache
      ensures cache[..] == Consolidated(c, store.View()) && writeAddress == 2 * c.LogStart()
      ensures var f, s, d := store.View(), cache[..], c.DataSlots();
              || (forall i :: 0 <= i < c.logical ==> s[i] == 0)
              || (&& (forall k :: 0 <= k < d ==> f[k] == s[2 * k] as int + 0x100 * s[2 * k + 1] as int)
                  && f[d] as int + 0x1_0000 * f[d + 1] as int + 0x1_0000_0000 * f[d + 2] as int + 0x1_0000_0000_0000 * f[d + 3] as int
                     == Fnv.Fnv1a(Fnv.FNV1A_64_INIT, s))
    {
      hide BackingStore.Valid, BackingStore.View, BackingStore.Beyond, HashWords, Fnv.Fnv1a, ToBytes;
      ghost var mem := store.View() + store.Beyond();
      var words := store.ReadBulk(0, c.logical / 2);
      assert words == store.View()[..c.DataSlots()];
      forall i | 0 <= i < cache.Length {
        cache[i] := ToBytes(words)[i];
      }
      assert cache[..] == ToBytes(words);
      var expected := Fnv.Fnv64aBuf(cache, c.logical, Fnv.FNV1A_64_INIT);
      assert cache[..c.logical] == cache[..];
      var entry := store.ReadBulk(c.logical, 4);
      assert entry == store.View()[c.DataSlots()..c.LogStart()];
      if entry != HashWords(expected) {
        ClearCache();
      }
      ConsolidatedInNumbers(c, store.View(), cache[..]);
    }

    method WriteConsolidated() returns (status: Status)
      requires Valid()
      modifies this`unlocked, store`ops, store.chip, store.bulkWriteBuffer
      ensures Valid() && unlocked == old(unlocked) && status == CONSOLIDATED
      ensures store.ops == old(store.ops) + Programs(0, ToWords(cache[..])) + Programs(c.DataSlots(), HashOf(cache[..]))
      ensures store.Beyond() == old(store.Beyond())
      ensures ErasedRange(old(store.View()), 0, c.LogStart()) ==>
                var f, s, d := store.View(), cache[..], c.DataSlots();
                && (forall k :: 0 <= k < d ==> f[k] == s[2 * k] as int + 0x100 * s[2 * k + 1] as int)
                && f[d] as int + 0x1_0000 * f[d + 1] as int + 0x1_0000_0000 * f[d + 2] as int + 0x1_0000_0000_0000 * f[d + 3] as int
                   == Fnv.Fnv1a(Fnv.FNV1A_64_INIT, s)
                && f[d + 4..] == old(store.View())[d + 4..]
    {
      hide BackingStore.Valid, BackingStore.View, BackingStore.Beyond, ApplyAll, ConsolidateOps, Programs;
      hide ToWords, HashWords, Fnv.Fnv1a, PageSafe;
      ghost var before, flash := store.ops, store.View();
      store.ViewIsHistory();
      var lockStatus := Unlock();
      ConsolidatedFitsPages(store.base, c.logical, |ToWords(cache[..])|);
      store.WriteBulk(0, ToWords(cache[..]));
      var hash := Fnv.Fnv64aBuf(cache, c.logical, Fnv.FNV1A_64_INIT);
      assert cache[..c.logical] == cache[..];
      store.WriteBulk(c.logical, HashWords(hash));
      if lockStatus == LOCK_SUCCESS {
        var _ := Lock();
      }
      store.ViewIsHistory();
      StoreAdvanced(store.origin, before, Programs(0, ToWords(cache[..])) + Programs(c.DataSlots(), HashOf(cache[..])), store.ops);
      if ErasedRange(flash, 0, c.LogStart()) {
        WrittenInNumbers(c, flash, cache[..]);
      }
      return CONSOLIDATED;
    }

    method ConsolidateForce() returns (status: Status)
      requires Valid()
      modifies this`writeAddress, this`unlocked, store`ops, store.chip, store.bulkWriteBuffer
      ensures Valid() && unlocked == old(unlocked) && status == CONSOLIDATED
      ensures store.ops == old(store.ops) + ConsolidateOps(c, cache[..])
      ensures writeAddress == 2 * c.LogStart()
      ensures store.Beyond() == old(store.Beyond())
    {
      hide BackingStore.Valid, BackingStore.View, BackingStore.Beyond, ApplyAll, ConsolidateOps, Programs;
      hide EraseOps, ToWords, HashOf;
      ghost var before := store.ops;
      store.Erase();
      status := WriteConsolidated();
      writeAddress := c.logical + 8;
      ConsolidateParts(c, cache[..]);
      assert store.ops == before + ConsolidateOps(c, cache[..]);
    }

    method ConsolidateIfNeeded() returns (status: Status)
      requires Valid()
      modifies this`writeAddress, this`unlocked, store`ops, store.chip, store.bulkWriteBuffer
      ensures Valid() && unlocked == old(unlocked)
      ensures store.Beyond() == old(store.Beyond())
      ensures old(writeAddress) < c.backing ==>
                status == SUCCESS && writeAddress == old(writeAddress) && store.ops == old(store.ops)
      ensures old(writeAddress) >= c.backing ==>
                && status == CONSOLIDATED && writeAddress == 2 * c.LogStart()
                && store.ops == old(store.ops) + ConsolidateOps(c, cache[..])
    {
      if writeAddress >= c.backing {
        status := ConsolidateForce();
        return;
      }
      return SUCCESS;
    }

    // ----- Appending

    /** Room to append: the write position is inside the area. */
    ghost predicate Appending()
      reads this, store, store.chip
    {
      Valid() && writeAddress % 2 == 0 && writeAddress / 2 < c.Slots()
    }

    method AppendRaw(value: word) returns (status: Status)
      requires Appending()
      modifies this`writeAddress, this`unlocked, store`ops, store.chip, store.bulkWriteBuffer
      ensures Appending() && unlocked == old(unlocked)
      ensures store.ops == old(store.ops) + AppendOps(c, cache[..], old(writeAddress) / 2, [value])
      ensures writeAddress / 2 == AppendEnd(c, old(writeAddress) / 2, [value])
      ensures status == AppendStatus(c, old(writeAddress) / 2, [value])
    {
      hide BackingStore.Valid, BackingStore.View, BackingStore.Beyond, ApplyAll, ConsolidateOps, Programs, AppendOps;
      ghost var ops, end := store.ops, writeAddress / 2;
      AppendOne(c, cache[..], end, value);
      store.Write(writeAddress, value);
      writeAddress := writeAddress + 2;
      status := ConsolidateIfNeeded();
    }

    method WriteRawMultibyte(address: nat, value: seq<byte>) returns (status: Status)
      requires Appending() && 1 <= |value| <= MULTIBYTE_MAX_BYTES
      modifies this`writeAddress, this`unlocked, store`ops, store.chip, store.bulkWriteBuffer
      ensures Appending() && unlocked == old(unlocked)
      ensures store.ops == old(store.ops) + AppendOps(c, cache[..], old(writeAddress) / 2, MakeMultibyte(address, value))
      ensures writeAddress / 2 == AppendEnd(c, old(writeAddress) / 2, MakeMultibyte(address, value))
      ensures status == AppendStatus(c, old(writeAddress) / 2, MakeMultibyte(address, value))
    {
      hide BackingStore.Valid, BackingStore.View, BackingStore.Beyond, ApplyAll, ConsolidateOps, Programs;
      hide AppendOps, WordOf, AppendEnd, AppendStatus;
      var log := MakeMultibyte(address, value);
      ghost var end := writeAddress / 2;
      AppendNothing(c, cache[..], end);
      NextSlot(c, cache[..], end, log, 0);
      status := AppendRaw(log[0]);
      if status != SUCCESS {
        return;
      }
      NextSlot(c, cache[..], end, log, 1);
      status := AppendRaw(log[1]);
      if status != SUCCESS {
        return;
      }
      if |value| > 1 {
        NextSlot(c, cache[..], end, log, 2);
        status := AppendRaw(log[2]);
        if status != SUCCESS {
          return;
        }
      }
      if |value| > 3 {
        NextSlot(c, cache[..], end, log, 3);
        status := AppendRaw(log[3]);
        if status != SUCCESS {
          return;
        }
      }
      AppendAll(c, end, log);
    }

    /** One round of the loop of `wear_leveling_write_raw`: the next entry covers `length` bytes. */
    method WriteEntry(address: nat, value: seq<byte>) returns (status: Status, length: nat)
      requires Appending() && |value| > 0
      modifies this`writeAddress, this`unlocked, store`ops, store.chip, store.bulkWriteBuffer
      ensures Appending() && unlocked == old(unlocked) && length == ChunkLength(address, value)
      ensures store.ops == old(store.ops) + AppendOps(c, cache[..], old(writeAddress) / 2, ChunkSlots(address, value))
      ensures writeAddress / 2 == AppendEnd(c, old(writeAddress) / 2, ChunkSlots(address, value))
      ensures status == AppendStatus(c, old(writeAddress) / 2, ChunkSlots(address, value))
    {
      hide BackingStore.Valid, BackingStore.View, BackingStore.Beyond, ApplyAll, ConsolidateOps, Programs;
      hide AppendOps, MakeMultibyte, MakeWord01, MakeOptimized64, AppendEnd, AppendStatus;
      if |value| >= 2 && address % 2 == 0 && address < 16384 {
        var v: int := (value[1] as int) * 0x100 + value[0];
        if v == 0 || v == 1 {
          status := AppendRaw(MakeWord01(address, v));
          return status, 2;
        }
      }
      if address < 64 {
        status := AppendRaw(MakeOptimized64(address, value[0]));
        return status, 1;
      }
      length := if |value| >= MULTIBYTE_MAX_BYTES then MULTIBYTE_MAX_BYTES else |value|;
      status := WriteRawMultibyte(address, value[..length]);
    }

    /** Splits the write into log entries; stops early once a consolidation has stored the whole cache. */
    method WriteRaw(address: nat, value: seq<byte>) returns (status: Status)
      requires Appending()
      modifies this`writeAddress, this`unlocked, store`ops, store.chip, store.bulkWriteBuffer
      ensures Appending() && unlocked == old(unlocked)
      ensures store.ops == old(store.ops) + AppendOps(c, cache[..], old(writeAddress) / 2, EntrySlots(address, value))
      ensures writeAddress / 2 == AppendEnd(c, old(writeAddress) / 2, EntrySlots(address, value))
      ensures status == AppendStatus(c, old(writeAddress) / 2, EntrySlots(address, value))
    {
      hide BackingStore.Valid, BackingStore.View, BackingStore.Beyond, ApplyAll, ConsolidateOps, Programs;
      hide AppendOps, ChunkSlots, ChunkLength, AppendEnd, AppendStatus;
      ghost var end, all := writeAddress / 2, EntrySlots(address, value);
      ghost var done: seq<word> := [];
      var remaining, a := value, address;
      status := SUCCESS;
      AppendNothing(c, cache[..], end);
      while |remaining| > 0
        invariant Appending() && unlocked == old(unlocked) && status == SUCCESS
        invariant all == done + EntrySlots(a, remaining)
        invariant end + |done| < c.Slots() && writeAddress / 2 == end + |done|
        invariant store.ops == old(store.ops) + AppendOps(c, cache[..], end, done)
        decreases |remaining|
      {
        ghost var (chunk, tail) := NextChunk(a, remaining);
        assert all == done + chunk + tail;
        AppendChunk(c, cache[..], end, done, chunk, tail, all);
        var length;
        status, length := WriteEntry(a, remaining);
        if status != SUCCESS {
          return;
        }
        a, remaining := a + length, remaining[length..];
        done := done + chunk;
      }
      assert done == all;
      AppendAll(c, end, all);
    }

    // ----- Playback and initialisation

    /** What is readable from the start of the area on. */
    ghost function Memory(): seq<word>
      requires Shape()
      reads this, store, store.chip
    {
      store.View() + store.Beyond()
    }

    method PlaybackLog() returns (status: Status)
      requires Valid() && writeAddress == 2 * c.LogStart()
      modifies this`writeAddress, this`unlocked, cache, store`ops, store.chip, store.bulkWriteBuffer
      ensures Valid() && unlocked == old(unlocked)
      ensures store.Beyond() == old(store.Beyond())
      ensures var p := Playback(c, old(Memory()), c.LogStart(), old(cache[..]));
              && cache[..] == p.cache
              && (p.ok && p.end < c.Slots() ==>
                    status == SUCCESS && writeAddress == 2 * p.end && store.ops == old(store.ops))
              && (!p.ok || p.end >= c.Slots() ==>
                    && status == CONSOLIDATED && writeAddress == 2 * c.LogStart()
                    && store.ops == old(store.ops) + ConsolidateOps(c, p.cache))
    {
      hide BackingStore.Valid, BackingStore.View, BackingStore.Beyond, ApplyAll, ConsolidateOps, Programs;
      hide Decode, Blit, SlotCount, EntryType, Memory;
      MemorySize();
      ghost var mem := Memory();
      ghost var p := Playback(c, mem, c.LogStart(), cache[..]);
      var cancelled, failed := false, false;
      var address: nat := c.logical + 8;
      while !cancelled && address < c.backing
        invariant Valid() && unlocked == old(unlocked) && store.ops == old(store.ops)
        invariant store.Beyond() == old(store.Beyond()) && mem == Memory()
        invariant address % 2 == 0 && address / 2 <= c.Slots() + 3
        invariant failed ==> cancelled
        invariant !cancelled ==> Playback(c, mem, address / 2, cache[..]) == p
        invariant cancelled ==> p == Played(cache[..], address / 2, !failed)
        decreases !cancelled, c.backing + 8 - address
      {
        var value := ReadSlot(address);
        if value == 0 {
          cancelled := true;
        } else {
          ghost var before := address / 2;
          var stored, d;
          stored, address, d := ReadEntry(address, value);
          if stored {
            CopyIn(d.address, d.value);
          } else {
            cancelled, failed := true, true;
          }
        }
      }
      writeAddress := address;
      if failed {
        status := ConsolidateForce();
      } else {
        status := ConsolidateIfNeeded();
      }
    }

    lemma MemorySize()
      requires Shape()
      ensures |Memory()| >= c.Slots() + 3
    {
    }

    method ReadSlot(address: nat) returns (value: word)
      requires Valid() && address % 2 == 0 && address / 2 < |Memory()|
      ensures value == Memory()[address / 2]
    {
      value := store.Read(address);
    }

    /** Reads the rest of the entry that starts with `first`, one slot at a time; `next` is where playback goes on. */
    method ReadEntry(address: nat, first: word) returns (stored: bool, next: nat, d: Decoded)
      requires Valid() && address % 2 == 0 && address / 2 < c.Slots() && |Memory()| >= c.Slots() + 3
      requires first == Memory()[address / 2]
      ensures next % 2 == 0 && d == Decode(c, Memory()[address / 2..]) && stored == d.Stored?
      ensures next / 2 == address / 2 + if stored then SlotCount(first) else if EntryType(first) == 0 then 2 else 1
      ensures stored ==> d.address + |d.value| <= c.logical
    {
      hide Memory, Valid, MultibyteValue;
      ghost var rest := Memory()[address / 2..];
      assert rest[0] == first;
      next := address + 2;
      match EntryType(first)
      case 0 =>
        stored, next, d := ReadMultibyte(address, first);
      case 1 =>
        var a := Low(first) % 0x40;
        if a >= c.logical {
          return false, next, Rejected;
        }
        return true, next, Stored(a, [High(first)]);
      case 2 =>
        var a := Low(first) % 0x20 * 0x200 + High(first) * 2;
        if a + 1 >= c.logical {
          return false, next, Rejected;
        }
        return true, next, Stored(a, [Low(first) / 0x20 % 2, 0]);
      case _ =>
        return false, next, Rejected;
    }

    method ReadMultibyte(address: nat, first: word) returns (stored: bool, next: nat, d: Decoded)
      requires Valid() && address % 2 == 0 && address / 2 < c.Slots() && |Memory()| >= c.Slots() + 3
      requires first == Memory()[address / 2] && EntryType(first) == 0
      ensures next % 2 == 0 && d == Decode(c, Memory()[address / 2..]) && stored == d.Stored?
      ensures next / 2 == address / 2 + if stored then SlotCount(first) else 2
      ensures stored ==> d.address + |d.value| <= c.logical
    {
      hide Memory, Valid, MultibyteValue, Low, High;
      ghost var mem, pos := Memory(), address / 2;
      assert mem[pos..][0] == first && mem[pos..][1] == mem[pos + 1];
      var w := [first];
      next := address + 2;
      var second := ReadSlot(next);
      w := w + [second];
      next := next + 2;
      var a := Low(first) % 8 * 0x1_0000 + High(first) * 0x100 + Low(second);
      var l := MultibyteLength(first);
      if a + l > c.logical {
        return false, next, Rejected;
      }
      if l > 1 {
        var third := ReadSlot(next);
        w := w + [third];
        next := next + 2;
      }
      if l > 3 {
        var fourth := ReadSlot(next);
        w := w + [fourth];
        next := next + 2;
      }
      SameValue(w, mem[pos..]);
      return true, next, Stored(a, MultibyteValue(w));
    }

    /** `memcpy` into the cache. */
    method CopyIn(address: nat, value: seq<byte>)
      requires Shape() && address + |value| <= c.logical
      modifies cache
      ensures cache[..] == Blit(old(cache[..]), address, value)
    {
      forall i | 0 <= i < |value| {
        cache[address + i] := value[i];
      }
    }

    method Init() returns (status: Status)
      requires Valid()
      modifies this`writeAddress, this`unlocked, cache, store`ops, store.chip, store.bulkWriteBuffer
      ensures Valid() && unlocked == old(unlocked) && writeAddress % 2 == 0 && status != FAILED
      ensures store.ops == old(store.ops) + InitOps(c, old(store.View()), old(store.Beyond()))
      ensures State() == AfterInit(c, old(store.View()), old(store.Beyond()))
      ensures status == CONSOLIDATED <==> InitOps(c, old(store.View()), old(store.Beyond())) != []
    {
      hide BackingStore.Valid, BackingStore.View, BackingStore.Beyond, ApplyAll, ConsolidateOps, Programs;
      hide Playback, Consolidated;
      ghost var ops, view, beyond := store.ops, store.View(), store.Beyond();
      store.ViewIsHistory();
      ClearCache();
      ReadConsolidated();
      assert Memory() == view + beyond;
      assert (view + beyond)[..c.Slots()] == view;
      status := PlaybackLog();
      EvenEnd(writeAddress, if status == SUCCESS then Mount(c, view + beyond).end else c.LogStart());
      store.ViewIsHistory();
      StoreAdvanced(store.origin, ops, InitOps(c, view, beyond), store.ops);
      ConsolidatesSomething(c, Mount(c, view + beyond).cache);
    }

    // ----- The interface

    method Erase() returns (status: Status)
      requires Ready()
      modifies this`writeAddress, this`unlocked, cache, store`ops, store.chip, store.bulkWriteBuffer
      ensures Ready() && status == SUCCESS
      ensures store.ops == old(store.ops) + EraseOps(c.Slots(), c.sector / 2, 0)
      ensures State() == AfterErase(c, old(State()))
    {
      hide BackingStore.Valid, BackingStore.View, BackingStore.Beyond, ApplyAll, ConsolidateOps, Programs, Inv;
      hide EraseOps;
      ghost var s, ops := State(), store.ops;
      InvShape(c, s);
      store.ViewIsHistory();
      var lockStatus := Unlock();
      store.Erase();
      ClearCache();
      if lockStatus == LOCK_SUCCESS {
        var _ := Lock();
      }
      store.ViewIsHistory();
      StoreAdvanced(store.origin, ops, EraseOps(c.Slots(), c.sector / 2, 0), store.ops);
      EraseKeepsInv(c, s);
      return SUCCESS;
    }

    /** `address + length` must not wrap around 32 bits. */
    method Write(address: nat, value: seq<byte>) returns (status: Status)
      requires Ready() && address + |value| < TWO_32
      modifies this`writeAddress, this`unlocked, cache, store`ops, store.chip, store.bulkWriteBuffer
      ensures Ready()
      ensures address + |value| > c.logical ==>
                status == FAILED && State() == old(State()) && store.ops == old(store.ops)
      ensures address + |value| <= c.logical && old(cache[address..address + |value|]) == value ==>
                status == SUCCESS && State() == old(State()) && store.ops == old(store.ops)
      ensures address + |value| <= c.logical ==>
                && status != FAILED
                && store.ops == old(store.ops) + WriteOps(c, old(State()), address, value)
                && State() == AfterWrite(c, old(State()), address, value)
    {
      hide BackingStore.Valid, BackingStore.View, BackingStore.Beyond, ApplyAll, ConsolidateOps, Programs, Inv;
      hide AppendOps, EntrySlots, Blit, WriteOps, AfterWrite, AppendEnd;
      if address + |value| > c.logical {
        return FAILED;
      }
      ghost var s, ops := State(), store.ops;
      InvShape(c, s);
      if cache[address..address + |value|] == value {
        NothingWritten(c, s, address, value);
        return SUCCESS;
      }
      store.ViewIsHistory();
      CopyIn(address, value);
      var lockStatus := Unlock();
      status := WriteRaw(address, value);
      if status == SUCCESS {
        status := ConsolidateIfNeeded();
      }
      if lockStatus == LOCK_SUCCESS {
        var _ := Lock();
      }
      store.ViewIsHistory();
      WriteEnds(c, s, address, value, writeAddress / 2);
      StoreAdvanced(store.origin, ops, WriteOps(c, s, address, value), store.ops);
      WriteKeepsInv(c, s, address, value);
    }

    method Read(address: nat, length: nat) returns (status: Status, value: seq<byte>)
      requires Ready() && address + length < TWO_32
      ensures address + length > c.logical ==> status == FAILED && value == []
      ensures address + length <= c.logical ==> status == SUCCESS && value == State().cache[address..address + length]
    {
      if address + length > c.logical {
        return FAILED, [];
      }
      return SUCCESS, cache[address..address + length];
    }
  }

  lemma SameValue(w: seq<word>, rest: seq<word>)
    requires |w| >= 1 && |w| == SlotCount(w[0]) && EntryType(w[0]) == 0
    requires |rest| >= |w| && rest[..|w|] == w
    ensures rest[0] == w[0] && MultibyteValue(rest) == MultibyteValue(w)
  {
    assert forall i :: 0 <= i < |w| ==> rest[i] == rest[..|w|][i] == w[i];
  }

  ghost function NextChunk(a: nat, rest: seq<byte>): (r: (seq<word>, seq<word>))
    requires |rest| > 0
    ensures EntrySlots(a, rest) == r.0 + r.1
  {
    (ChunkSlots(a, rest), EntrySlots(a + ChunkLength(a, rest), rest[ChunkLength(a, rest)..]))
  }

  lemma NothingWritten(c: Config, s: Store, address: nat, value: seq<byte>)
    requires Shape(c, s) && Fits(c, address, value) && s.cache[address..address + |value|] == value
    ensures WriteOps(c, s, address, value) == [] && AfterWrite(c, s, address, value) == s
  {
  }

  /** A write that has appended its slots is the write of the specification. */
  lemma WriteEnds(c: Config, s: Store, address: nat, value: seq<byte>, end: nat)
    requires Shape(c, s) && Fits(c, address, value) && s.cache[address..address + |value|] != value
    requires end == AppendEnd(c, s.end, EntrySlots(address, value))
    ensures WriteOps(c, s, address, value) == AppendOps(c, Blit(s.cache, address, value), s.end, EntrySlots(address, value))
    ensures AfterWrite(c, s, address, value)
         == Store(ApplyAll(s.flash, WriteOps(c, s, address, value)), Blit(s.cache, address, value), end)
  {
    hide AppendOps, EntrySlots, Blit, ApplyAll;
  }

  lemma StoreAdvanced(origin: seq<word>, ops: seq<Op>, more: seq<Op>, ops': seq<Op>)
    requires ops' == ops + more
    ensures ApplyAll(origin, ops') == ApplyAll(ApplyAll(origin, ops), more)
  {
    Concatenation(origin, ops, more);
  }

  lemma EvenEnd(writeAddress: nat, slot: nat)
    requires writeAddress == 2 * slot
    ensures writeAddress % 2 == 0 && writeAddress / 2 == slot
  {
  }

  lemma ConsolidatesSomething(c: Config, cache: seq<byte>)
    requires ValidConfig(c)
    ensures ConsolidateOps(c, cache) != []
  {
    assert |HashOf(cache)| == 4;
  }

  lemma AppendNothing(c: Config, cache: seq<byte>, end: nat)
    requires ValidConfig(c) && end < c.Slots()
    ensures AppendOps(c, cache, end, []) == []
  {
  }

  /** The 8 bytes of hash behind the data do not straddle two 256-byte pages. */
  predicate HashFitsPage(logical: nat)
  {
    logical % 0x100 <= 0xF8
  }

  /** Exactly for such sizes, with the area starting on a page, is the hash one that bulk writing can store. */
  lemma HashFitsExactly(base: nat, logical: nat)
    requires base % PAGE == 0 && logical % 2 == 0
    ensures PageSafe(base + logical / 2, 4) <==> HashFitsPage(logical)
  {
    var b, q, h := base / PAGE, logical / 0x100, logical % 0x100 / 2;
    assert logical == 0x100 * q + 2 * h;
    DivModUnique(logical, 2, PAGE * q + h, 0);
    DivModUnique(base + logical / 2, PAGE, b + q, h);
    if h < BATCH {
      DivModUnique(base + logical / 2, BATCH, 2 * (b + q), h);
    } else {
      DivModUnique(base + logical / 2, BATCH, 2 * (b + q) + 1, h - BATCH);
    }
  }

  /** The compile-time checks do not ask for it: 250 logical and 500 backing bytes pass them, but on some chip the hash
      is not stored. */
  lemma HashCanStraddle(size: nat)
    requires size >= 0x100
    ensures Config(250, 500, 4096).Valid() && 500 % 250 == 0 && !HashFitsPage(250)
    ensures exists chip: seq<word>, hash: seq<word> :: |chip| == size && |hash| == 4
              && BulkProgram(chip, 125, hash) != StraightProgram(chip, 125, hash)
  {
    HashFitsExactly(0, 250);
    BulkCorrectExactly(125, 4, size);
  }

  lemma ConsolidatedFitsPages(base: nat, logical: nat, count: nat)
    requires base % PAGE == 0 && logical % 2 == 0 && HashFitsPage(logical)
    ensures PageSafe(base, count) && PageSafe(base + logical / 2, 4)
  {
    HashFitsExactly(base, logical);
    DivModUnique(base, BATCH, 2 * (base / PAGE), 0);
  }

  lemma NextSlot(c: Config, cache: seq<byte>, end: nat, log: seq<word>, k: nat)
    requires ValidConfig(c) && k < |log| && end + k < c.Slots()
    ensures var status := AppendStatus(c, end + k, [log[k]]);
            var ops := AppendOps(c, cache, end, log[..k]) + AppendOps(c, cache, end + k, [log[k]]);
            && (status == SUCCESS ==>
                  && end + k + 1 < c.Slots()
                  && AppendEnd(c, end + k, [log[k]]) == end + k + 1
                  && ops == AppendOps(c, cache, end, log[..k + 1]))
            && (status != SUCCESS ==>
                  && status == AppendStatus(c, end, log)
                  && AppendEnd(c, end + k, [log[k]]) == AppendEnd(c, end, log)
                  && ops == AppendOps(c, cache, end, log))
    ensures log[..0] == [] && log[..|log|] == log
  {
    hide AppendOps, AppendEnd, AppendStatus;
    assert log[..k + 1] == log[..k] + [log[k]];
    assert log == log[..k] + [log[k]] + log[k + 1..];
    AppendChunk(c, cache, end, log[..k], [log[k]], log[k + 1..], log);
  }
}
