/** Whole runs of the store, with and without power cuts. */
module Runs {
  import opened Bits
  import opened FlashOps
  import opened WriteLog
  import opened Store

  // ----- What a cut can leave in flash

  /** The entry at slot `k` would extend past the end of the area. */
  predicate Straddles(c: Config, flash: seq<word>, k: nat)
    requires |flash| == c.Slots()
  {
    k < c.Slots() && flash[k] != 0 && k + SlotCount(flash[k]) > c.Slots()
  }

  predicate CleanAt(c: Config, flash: seq<word>, k: nat)
    requires c.Valid() && |flash| == c.Slots()
  {
    && c.LogStart() <= k <= c.Slots()
    && Complete(c, flash[c.LogStart()..k])
    && (ErasedRange(flash, k, c.Slots()) || Straddles(c, flash, k))
  }

  /** The log is made of whole entries followed by erased slots, except that its last entry may be cut
      short by the end of the area. */
  ghost predicate Clean(c: Config, flash: seq<word>)
    requires c.Valid() && |flash| == c.Slots()
  {
    exists k: nat :: CleanAt(c, flash, k)
  }

  /** The log lies in the last sector, so an erase in progress never leaves half a log behind. That is exactly what it
      takes for every cut to leave a flash that can be restarted (`CutsAreCleanExactly`, `RunsAreSoundExactly`). */
  predicate LogInLastSector(c: Config)
  {
    ValidConfig(c) && LastSector(c.Slots(), c.sector / 2, 0) <= c.LogStart()
  }

  /** Moreover, erasing the first sector clears all of the consolidated data. The built sizes (4096 logical, 8192
      backing, 4096-byte sectors) have both. */
  predicate PowerSafe(c: Config)
  {
    LogInLastSector(c) && c.DataSlots() <= c.sector / 2
  }

  const BUILT := Config(4096, 8192, 4096)

  lemma BuiltIsPowerSafe()
    ensures PowerSafe(BUILT)
  {
    assert LastSector(4096, 2048, 0) == LastSector(4096, 2048, 2048) == 2048;
  }

  // ----- Restarting

  /** From any flash a cut can leave, a completed initialisation re-establishes the invariant. */
  lemma InitFromClean(c: Config, flash: seq<word>, beyond: seq<word>)
    requires ValidConfig(c) && |flash| == c.Slots() && |beyond| >= 3
    requires Clean(c, flash)
    ensures Inv(c, AfterInit(c, flash, beyond))
    ensures Disciplined(flash, InitOps(c, flash, beyond))
  {
    hide Complete, Replay, Consolidated, Decode, ConsolidateOps, ApplyAll, Disciplined, SlotCount, Blit, Fresh;
    var k: nat :| CleanAt(c, flash, k);
    var mem, log := flash + beyond, flash[c.LogStart()..k];
    var r := Replay(c, log, Consolidated(c, flash));
    assert mem[..c.Slots()] == flash && mem[c.LogStart()..k] == log;
    PlaybackOfLog(c, mem, c.LogStart(), log, Consolidated(c, flash));
    var p := Mount(c, mem);
    assert p == Playback(c, mem, k, r);
    if k < c.Slots() && flash[k] == 0 {
      assert mem[k] == 0;
      NothingToDo(flash);
      assert AfterInit(c, flash, beyond) == Store(flash, r, k);
    } else {
      assert k < c.Slots() ==> mem[k] == flash[k];
      StopsPastEnd(c, mem, k, r);
      ConsolidateRun(c, flash, p.cache);
      FreshInv(c, p.cache);
    }
  }

  lemma NothingToDo(f: seq<word>)
    ensures ApplyAll(f, []) == f && Disciplined(f, [])
  {
  }

  lemma StopsPastEnd(c: Config, mem: seq<word>, k: nat, r: seq<byte>)
    requires c.Valid() && |mem| >= c.Slots() + 3 && |r| == c.logical
    requires k <= c.Slots()
    requires k < c.Slots() ==> mem[k] != 0 && k + SlotCount(mem[k]) > c.Slots()
    ensures var p := Playback(c, mem, k, r); !p.ok || p.end >= c.Slots()
  {
  }

  // ----- Cuts while appending

  /** Any prefix of an entry stream is whole entries plus at most one torn entry, which reads as a whole
      entry once its missing slots are taken as erased. */
  lemma {:induction false} TornPrefix(c: Config, address: nat, data: seq<byte>, j: nat) returns (m: nat)
    requires c.Valid() && address + |data| <= c.logical && j <= |EntrySlots(address, data)|
    ensures var slots := EntrySlots(address, data);
            && m <= j && Complete(c, slots[..m])
            && (m < j ==>
                  && slots[m] != 0 && j - m < SlotCount(slots[m])
                  && Complete(c, slots[m..j] + Zeros(SlotCount(slots[m]) - (j - m))))
    decreases |data|
  {
    hide Decode, SlotCount, ChunkLength, ChunkSlots, Replay;
    var slots := EntrySlots(address, data);
    if j == 0 {
      m := 0;
    } else {
      var n, chunk := ChunkLength(address, data), ChunkSlots(address, data);
      var rest := EntrySlots(address + n, data[n..]);
      assert slots == chunk + rest;
      ChunkRoundTrip(c, address, data, []);
      assert chunk + [] == chunk;
      if j < |chunk| {
        m := 0;
        assert slots[0..j] == chunk[..j] && slots[0] == chunk[0];
        TornChunk(c, address, data, j);
      } else {
        var m' := TornPrefix(c, address + n, data[n..], j - |chunk|);
        m := m' + |chunk|;
        ShiftSlices(chunk, rest, m', j - |chunk|);
        SingleEntryComplete(c, chunk);
        Append(c, chunk, rest[..m'], Blank(c));
      }
    }
  }

  lemma ShiftSlices(chunk: seq<word>, rest: seq<word>, m: nat, j: nat)
    requires m <= j <= |rest|
    ensures (chunk + rest)[..|chunk| + m] == chunk + rest[..m]
    ensures (chunk + rest)[|chunk| + m..|chunk| + j] == rest[m..j]
    ensures m < j ==> (chunk + rest)[|chunk| + m] == rest[m]
  {
  }

  lemma SingleEntryComplete(c: Config, entry: seq<word>)
    requires |entry| >= 1 && entry[0] != 0 && |entry| == SlotCount(entry[0]) && Decode(c, entry).Stored?
    ensures Complete(c, entry)
  {
    assert entry[|entry|..] == [];
    assert Complete(c, entry[|entry|..]);
  }

  /** A torn multi-byte entry stores its bytes at the address truncated to what was programmed. */
  lemma TornChunk(c: Config, address: nat, data: seq<byte>, j: nat)
    requires c.Valid() && |data| > 0 && address + |data| <= c.logical
    requires 0 < j < |ChunkSlots(address, data)|
    ensures var chunk := ChunkSlots(address, data);
            && SlotCount(chunk[0]) == |chunk|
            && Complete(c, chunk[..j] + Zeros(|chunk| - j))
  {
    hide MakeMultibyte, MakeWord01, MakeOptimized64, Decode, SlotCount, EntryType;
    var chunk := ChunkSlots(address, data);
    var value := data[..ChunkLength(address, data)];
    ChunkRoundTrip(c, address, data, []);
    MultibyteRoundTrip(c, address, value, []);
    assert chunk + [] == chunk;
    var torn := chunk[..j] + Zeros(|chunk| - j);
    assert torn[0] == chunk[0];
    TornDecodes(c, chunk, torn);
    SingleEntryComplete(c, torn);
  }

  lemma TornDecodes(c: Config, chunk: seq<word>, torn: seq<word>)
    requires |chunk| == |torn| >= 2 && |chunk| == SlotCount(chunk[0])
    requires torn[0] == chunk[0] && (torn[1] == chunk[1] || torn[1] == 0)
    requires EntryType(chunk[0]) == 0 && Decode(c, chunk).Stored?
    ensures Decode(c, torn).Stored?
  {
  }

  /** The flash after the first `j` slots of a write were programmed is clean. */
  lemma CutAppendClean(c: Config, s: Store, address: nat, data: seq<byte>, j: nat)
    requires Inv(c, s) && Fits(c, address, data)
    requires j <= |EntrySlots(address, data)| && s.end + j <= c.Slots()
    ensures Clean(c, Overwrite(s.flash, s.end, EntrySlots(address, data)[..j]))
  {
    hide Complete, Replay, Consolidated, EntrySlots, SlotCount;
    var slots := EntrySlots(address, data);
    var f := Overwrite(s.flash, s.end, slots[..j]);
    var m := TornPrefix(c, address, data, j);
    var k := s.end + m;
    assert f[c.LogStart()..k] == Log(c, s) + slots[..m];
    Append(c, Log(c, s), slots[..m], Consolidated(c, s.flash));
    if m == j {
      assert CleanAt(c, f, k);
    } else {
      assert f[k] == slots[m];
      var n := SlotCount(slots[m]);
      if k + n <= c.Slots() {
        var torn := slots[m..j] + Zeros(n - (j - m));
        assert f[c.LogStart()..k + n] == (Log(c, s) + slots[..m]) + torn;
        Append(c, Log(c, s) + slots[..m], torn, Consolidated(c, s.flash));
        assert CleanAt(c, f, k + n);
      } else {
        assert CleanAt(c, f, k);
      }
    }
  }

  // ----- Cuts while consolidating

  function EraseCount(c: Config): nat
    requires ValidConfig(c)
  {
    |EraseOps(c.Slots(), c.sector / 2, 0)|
  }

  /** The built area is two sectors. */
  lemma BuiltErasesTwice()
    ensures EraseCount(BUILT) == 2
  {
    assert EraseOps(4096, 2048, 4096) == [];
    assert EraseOps(4096, 2048, 2048) == [Erase(2048, 4096)];
  }

  /** The flash after `i` of the programming steps that follow the erase. */
  function PartlyConsolidated(c: Config, cache: seq<byte>, i: nat): (flash: seq<word>)
    requires c.Valid() && |cache| == c.logical && i <= c.LogStart()
    ensures |flash| == c.Slots()
  {
    (ToWords(cache) + HashOf(cache))[..i] + Zeros(c.Slots() - i)
  }

  lemma ProgramPrefix(c: Config, cache: seq<byte>, i: nat)
    requires c.Valid() && |cache| == c.logical && i <= c.LogStart()
    ensures var ops := Programs(0, ToWords(cache)) + Programs(c.DataSlots(), HashOf(cache));
            ApplyAll(Zeros(c.Slots()), ops[..i]) == PartlyConsolidated(c, cache, i)
  {
    hide ApplyAll, Programs, HashOf, ToWords;
    var words := ToWords(cache) + HashOf(cache);
    var ops := Programs(0, ToWords(cache)) + Programs(c.DataSlots(), HashOf(cache));
    JoinPrograms(0, ToWords(cache), HashOf(cache));
    ProgramsPrefix(0, words, i);
    ProgramRun(Zeros(c.Slots()), 0, words[..i]);
    assert Overwrite(Zeros(c.Slots()), 0, words[..i]) == PartlyConsolidated(c, cache, i);
  }

  lemma JoinPrograms(at: nat, x: seq<word>, y: seq<word>)
    ensures Programs(at, x) + Programs(at + |x|, y) == Programs(at, x + y)
  {
  }

  /** Cut while erasing: from the first erased sector on the data is gone, but the log is still whole. */
  lemma CutDuringErase(c: Config, flash: seq<word>, cache: seq<byte>, j: nat)
    requires LogInLastSector(c) && |flash| == c.Slots() && |cache| == c.logical
    requires j < EraseCount(c)
    ensures var g := ApplyAll(flash, ConsolidateOps(c, cache)[..j]);
            && (j == 0 ==> g == flash)
            && g[c.LogStart()..] == flash[c.LogStart()..]
            && (0 < j && PowerSafe(c) ==> ErasedRange(g, 0, c.DataSlots()))
  {
    hide ApplyAll, Programs, HashOf, ToWords, LastSector;
    var erase := EraseOps(c.Slots(), c.sector / 2, 0);
    assert ConsolidateOps(c, cache)[..j] == erase[..j];
    PartialErase(flash, c.sector / 2, 0, j);
    NothingToDo(flash);
    assert j == 0 ==> erase[..j] == [];
    var g := ApplyAll(flash, ConsolidateOps(c, cache)[..j]);
    assert forall i :: c.LogStart() <= i < c.Slots() ==> g[i] == flash[i];
    assert g[c.LogStart()..] == flash[c.LogStart()..];
  }

  lemma CutAfterErase(c: Config, flash: seq<word>, cache: seq<byte>, j: nat)
    requires ValidConfig(c) && |flash| == c.Slots() && |cache| == c.logical
    requires EraseCount(c) <= j <= |ConsolidateOps(c, cache)|
    ensures j - EraseCount(c) <= c.LogStart()
    ensures ApplyAll(flash, ConsolidateOps(c, cache)[..j]) == PartlyConsolidated(c, cache, j - EraseCount(c))
  {
    hide ApplyAll, Programs, HashOf, ToWords, PartlyConsolidated, EraseOps, Disciplined;
    var erase := EraseOps(c.Slots(), c.sector / 2, 0);
    var data, hash := Programs(0, ToWords(cache)), Programs(c.DataSlots(), HashOf(cache));
    var i := j - |erase|;
    TakeConcatenation(erase, data, hash, i);
    EraseRun(flash, c.sector / 2, 0);
    assert flash[..0] + Zeros(c.Slots()) == Zeros(c.Slots());
    Concatenation(flash, erase, (data + hash)[..i]);
    ProgramPrefix(c, cache, i);
  }

  lemma TakeConcatenation(a: seq<Op>, b: seq<Op>, d: seq<Op>, i: nat)
    requires i <= |b| + |d|
    ensures (a + b + d)[..|a| + i] == a + (b + d)[..i]
  {
  }

  lemma ErasedLogIsClean(c: Config, flash: seq<word>)
    requires c.Valid() && |flash| == c.Slots() && ErasedRange(flash, c.LogStart(), c.Slots())
    ensures Clean(c, flash)
  {
    assert flash[c.LogStart()..c.LogStart()] == [];
    assert CleanAt(c, flash, c.LogStart());
  }

  lemma SameLogIsClean(c: Config, flash: seq<word>, flash': seq<word>)
    requires c.Valid() && |flash| == |flash'| == c.Slots() && Clean(c, flash)
    requires flash'[c.LogStart()..] == flash[c.LogStart()..]
    ensures Clean(c, flash')
  {
    hide Complete;
    var k: nat :| CleanAt(c, flash, k);
    assert forall i :: c.LogStart() <= i < c.Slots() ==> flash'[i] == flash'[c.LogStart()..][i - c.LogStart()] == flash[i];
    assert flash'[c.LogStart()..k] == flash[c.LogStart()..k];
    assert CleanAt(c, flash', k);
  }

  lemma CutConsolidationClean(c: Config, flash: seq<word>, cache: seq<byte>, j: nat)
    requires LogInLastSector(c) && |flash| == c.Slots() && |cache| == c.logical && Clean(c, flash)
    requires j <= |ConsolidateOps(c, cache)|
    ensures Clean(c, ApplyAll(flash, ConsolidateOps(c, cache)[..j]))
  {
    hide ApplyAll, ConsolidateOps, Clean, LastSector, EraseCount;
    var g := ApplyAll(flash, ConsolidateOps(c, cache)[..j]);
    if j < EraseCount(c) {
      CutDuringErase(c, flash, cache, j);
      SameLogIsClean(c, flash, g);
    } else {
      CutAfterErase(c, flash, cache, j);
      ErasedLogIsClean(c, g);
    }
  }

  /** Whatever consolidation is cut, of whatever clean flash, what is left is clean. */
  ghost predicate CutsAreClean(c: Config)
    requires ValidConfig(c)
  {
    forall flash: seq<word>, cache: seq<byte>, j: nat ::
      |flash| == c.Slots() && |cache| == c.logical && Clean(c, flash) && j <= |ConsolidateOps(c, cache)| ==>
        Clean(c, ApplyAll(flash, ConsolidateOps(c, cache)[..j]))
  }

  /** Exactly the geometries with the log in the last sector have that property. */
  lemma CutsAreCleanExactly(c: Config)
    requires ValidConfig(c)
    ensures CutsAreClean(c) <==> LogInLastSector(c)
  {
    hide ApplyAll, ConsolidateOps, Clean, LastSector, EraseCount;
    if LogInLastSector(c) {
      forall flash: seq<word>, cache: seq<byte>, j: nat |
          |flash| == c.Slots() && |cache| == c.logical && Clean(c, flash) && j <= |ConsolidateOps(c, cache)|
        ensures Clean(c, ApplyAll(flash, ConsolidateOps(c, cache)[..j]))
      {
        CutConsolidationClean(c, flash, cache, j);
      }
    } else {
      var flash := FullFlash(c);
      FullFlashIsClean(c);
      HalfErasedLog(c, flash, Blank(c), Zeros(3));
    }
  }

  /** Flash with a one-slot entry, byte 1 at address 0, in every slot. */
  function FullFlash(c: Config): (flash: seq<word>)
    ensures |flash| == c.Slots()
  {
    Repeated(c.Slots())
  }

  function Repeated(n: nat): (log: seq<word>)
    ensures |log| == n
  {
    seq(n, i => MakeOptimized64(0, 1))
  }

  lemma {:induction false} RepeatedIsComplete(c: Config, n: nat)
    requires c.Valid()
    ensures Complete(c, Repeated(n))
  {
    hide Decode, SlotCount, MakeOptimized64;
    if n > 0 {
      var log := Repeated(n);
      assert log == [MakeOptimized64(0, 1)] + log[1..];
      Optimized64RoundTrip(c, 0, 1, log[1..]);
      assert log[1..] == Repeated(n - 1);
      RepeatedIsComplete(c, n - 1);
    }
  }

  lemma FullFlashIsClean(c: Config)
    requires ValidConfig(c)
    ensures Clean(c, FullFlash(c))
    ensures forall i :: 0 <= i < c.Slots() ==> FullFlash(c)[i] != 0
  {
    hide Complete;
    RepeatedIsComplete(c, c.Slots() - c.LogStart());
    assert FullFlash(c)[c.LogStart()..c.Slots()] == Repeated(c.Slots() - c.LogStart());
    assert CleanAt(c, FullFlash(c), c.Slots());
  }

  /** The failing state: where the log begins before the last sector, cutting before the last erase leaves the front
      of the log erased and old entries behind it. A restart takes the log for empty and would append in front of
      those entries. */
  lemma HalfErasedLog(c: Config, flash: seq<word>, cache: seq<byte>, beyond: seq<word>)
    requires ValidConfig(c) && !LogInLastSector(c) && |flash| == c.Slots() && |cache| == c.logical && |beyond| >= 3
    requires forall i :: c.LogStart() <= i < c.Slots() ==> flash[i] != 0
    ensures 1 < EraseCount(c) <= |ConsolidateOps(c, cache)|
    ensures var g := ApplyAll(flash, ConsolidateOps(c, cache)[..EraseCount(c) - 1]);
            && !Clean(c, g)
            && AfterInit(c, g, beyond).flash == g && AfterInit(c, g, beyond).end == c.LogStart()
            && !Inv(c, AfterInit(c, g, beyond))
  {
    hide ApplyAll, Programs, HashOf, ToWords, LastSector, EraseOps, Consolidated, Complete;
    var erase, last, n := EraseOps(c.Slots(), c.sector / 2, 0), LastSector(c.Slots(), c.sector / 2, 0), EraseCount(c);
    AllButLastErased(flash, c.sector / 2, 0);
    PartialErase(flash, c.sector / 2, 0, n - 1);
    assert ConsolidateOps(c, cache)[..n - 1] == erase[..n - 1];
    var g := ApplyAll(flash, erase[..n - 1]);
    assert g[c.LogStart()] == 0 && g[last] == flash[last] != 0;
    GapIsNotClean(c, g, last);
    var mem := g + beyond;
    assert mem[c.LogStart()] == 0;
    NothingToDo(g);
  }

  lemma GapIsNotClean(c: Config, g: seq<word>, last: nat)
    requires c.Valid() && |g| == c.Slots() && c.LogStart() <= last < c.Slots() && g[c.LogStart()] == 0 && g[last] != 0
    ensures !Clean(c, g)
  {
    forall k: nat
      ensures !CleanAt(c, g, k)
    {
      if c.LogStart() < k <= c.Slots() {
        assert g[c.LogStart()..k][0] == 0;
      }
    }
  }

  // ----- A cut anywhere in any call leaves a clean flash

  lemma InvIsClean(c: Config, s: Store)
    requires Inv(c, s)
    ensures Clean(c, s.flash)
  {
    assert CleanAt(c, s.flash, s.end);
  }

  lemma CutWriteClean(c: Config, s: Store, address: nat, data: seq<byte>, j: nat)
    requires LogInLastSector(c) && Inv(c, s) && Fits(c, address, data)
    requires j <= |WriteOps(c, s, address, data)|
    ensures Clean(c, ApplyAll(s.flash, WriteOps(c, s, address, data)[..j]))
  {
    hide Complete, Replay, Consolidated, EntrySlots, ApplyAll, Programs, ConsolidateOps, Clean, LastSector, Disciplined;
    var ops := WriteOps(c, s, address, data);
    InvIsClean(c, s);
    if s.cache[address..address + |data|] == data {
      NothingToDo(s.flash);
      assert ops[..j] == [];
    } else {
      var slots, room := EntrySlots(address, data), c.Slots() - s.end;
      var kept := if |slots| < room then slots else slots[..room];
      var append := Programs(s.end, kept);
      if j <= |kept| {
        assert ops[..j] == append[..j];
        ProgramsPrefix(s.end, kept, j);
        assert kept[..j] == slots[..j];
        ProgramRun(s.flash, s.end, slots[..j]);
        CutAppendClean(c, s, address, data, j);
      } else {
        var cache' := Blit(s.cache, address, data);
        var i := j - room;
        assert ops[..j] == append + ConsolidateOps(c, cache')[..i];
        ProgramRun(s.flash, s.end, slots[..room]);
        CutAppendClean(c, s, address, data, room);
        Concatenation(s.flash, append, ConsolidateOps(c, cache')[..i]);
        CutConsolidationClean(c, Overwrite(s.flash, s.end, slots[..room]), cache', i);
      }
    }
  }

  lemma CutEraseClean(c: Config, flash: seq<word>, j: nat)
    requires LogInLastSector(c) && |flash| == c.Slots() && Clean(c, flash)
    requires j <= EraseCount(c)
    ensures Clean(c, ApplyAll(flash, EraseOps(c.Slots(), c.sector / 2, 0)[..j]))
  {
    hide ApplyAll, Clean, LastSector, Programs;
    var erase := EraseOps(c.Slots(), c.sector / 2, 0);
    assert ConsolidateOps(c, Blank(c))[..j] == erase[..j];
    CutConsolidationClean(c, flash, Blank(c), j);
  }

  lemma CutInitClean(c: Config, flash: seq<word>, beyond: seq<word>, j: nat)
    requires LogInLastSector(c) && |flash| == c.Slots() && |beyond| >= 3 && Clean(c, flash)
    requires j <= |InitOps(c, flash, beyond)|
    ensures Clean(c, ApplyAll(flash, InitOps(c, flash, beyond)[..j]))
  {
    hide ApplyAll, Clean, LastSector, Mount, ConsolidateOps;
    var p := Mount(c, flash + beyond);
    if p.ok && p.end < c.Slots() {
      NothingToDo(flash);
      assert InitOps(c, flash, beyond)[..j] == [];
    } else {
      CutConsolidationClean(c, flash, p.cache, j);
    }
  }

  // ----- Runs

  /** Running, or powered off with only the flash left. */
  datatype Machine = On(s: Store) | Off(flash: seq<word>)

  /** Completed calls, and calls cut after `j` flash operations. `beyond` is what lies past the area. */
  datatype Event =
    | Write(address: nat, data: seq<byte>)
    | EraseAll
    | Restart(beyond: seq<word>)
    | CutWrite(address: nat, data: seq<byte>, j: nat)
    | CutErase(j: nat)
    | CutRestart(beyond: seq<word>, j: nat)

  function FlashOf(m: Machine): seq<word>
  {
    match m
    case On(s) => s.flash
    case Off(flash) => flash
  }

  function Truncate(ops: seq<Op>, j: nat): (r: seq<Op>)
  {
    if j <= |ops| then ops[..j] else ops
  }

  /** Every reachable machine is fit for use: the invariant holds while it runs, and whenever it is
      off its flash is one that initialisation can mount. */
  ghost predicate Sound(c: Config, m: Machine)
  {
    match m
    case On(s) => Inv(c, s)
    case Off(flash) => ValidConfig(c) && |flash| == c.Slots() && Clean(c, flash)
  }

  predicate Shaped(c: Config, m: Machine)
  {
    match m
    case On(s) => Shape(c, s)
    case Off(flash) => ValidConfig(c) && |flash| == c.Slots()
  }

  /** Writes that do not fit are refused, and a machine that is off only reacts to a restart. */
  function Next(c: Config, m: Machine, e: Event): (m': Machine)
    requires Shaped(c, m)
    ensures Shaped(c, m')
  {
    match e
    case Write(address, data) =>
      if m.On? && Fits(c, address, data) then On(AfterWrite(c, m.s, address, data)) else m
    case EraseAll =>
      if m.On? then On(AfterErase(c, m.s)) else m
    case Restart(beyond) =>
      if |beyond| >= 3 then On(AfterInit(c, FlashOf(m), beyond)) else m
    case CutWrite(address, data, j) =>
      if m.On? && Fits(c, address, data)
      then Off(ApplyAll(m.s.flash, Truncate(WriteOps(c, m.s, address, data), j))) else m
    case CutErase(j) =>
      if m.On? then Off(ApplyAll(m.s.flash, Truncate(EraseOps(c.Slots(), c.sector / 2, 0), j))) else m
    case CutRestart(beyond, j) =>
      if |beyond| >= 3 then Off(ApplyAll(FlashOf(m), Truncate(InitOps(c, FlashOf(m), beyond), j))) else m
  }

  function RunFrom(c: Config, m: Machine, events: seq<Event>): (m': Machine)
    requires Shaped(c, m)
    ensures Shaped(c, m')
    decreases |events|
  {
    if |events| == 0 then m else RunFrom(c, Next(c, m, events[0]), events[1..])
  }

  lemma NextIsSound(c: Config, m: Machine, e: Event)
    requires LogInLastSector(c) && Sound(c, m)
    ensures Shaped(c, m) && Sound(c, Next(c, m, e))
  {
    hide Inv, Clean, ApplyAll, LastSector, WriteOps, InitOps, EraseOps, AfterWrite, AfterInit, AfterErase;
    UnfoldSound(c, m);
    match e {
      case Write(address, data) =>
        if m.On? && Fits(c, address, data) {
          WriteKeepsInv(c, m.s, address, data);
        }
      case EraseAll =>
        if m.On? {
          EraseKeepsInv(c, m.s);
        }
      case Restart(beyond) =>
        if |beyond| >= 3 {
          InitFromClean(c, FlashOf(m), beyond);
        }
      case CutWrite(address, data, j) =>
        if m.On? && Fits(c, address, data) {
          var ops := WriteOps(c, m.s, address, data);
          TruncateIsPrefix(ops, j);
          CutWriteClean(c, m.s, address, data, if j <= |ops| then j else |ops|);
        }
      case CutErase(j) =>
        if m.On? {
          var ops := EraseOps(c.Slots(), c.sector / 2, 0);
          TruncateIsPrefix(ops, j);
          CutEraseClean(c, m.s.flash, if j <= |ops| then j else |ops|);
        }
      case CutRestart(beyond, j) =>
        if |beyond| >= 3 {
          var ops := InitOps(c, FlashOf(m), beyond);
          TruncateIsPrefix(ops, j);
          CutInitClean(c, FlashOf(m), beyond, if j <= |ops| then j else |ops|);
        }
    }
  }

  lemma UnfoldSound(c: Config, m: Machine)
    requires Sound(c, m)
    ensures Shaped(c, m) && ValidConfig(c) && |FlashOf(m)| == c.Slots() && Clean(c, FlashOf(m))
    ensures m.On? ==> Inv(c, m.s) && Shape(c, m.s)
  {
    if m.On? {
      InvIsClean(c, m.s);
    }
  }

  lemma TruncateIsPrefix(ops: seq<Op>, j: nat)
    ensures Truncate(ops, j) == ops[..if j <= |ops| then j else |ops|]
  {
  }

  /** Main result on power cuts: from any sound machine, whatever is written, erased, restarted or cut, in any
      order, a running store satisfies the invariant and a dead one can always be restarted into it. */
  lemma {:induction false} EveryRunIsSound(c: Config, m: Machine, events: seq<Event>)
    requires LogInLastSector(c) && Sound(c, m)
    ensures Shaped(c, m) && Sound(c, RunFrom(c, m, events))
    decreases |events|
  {
    hide Sound, Next, Shaped;
    UnfoldSound(c, m);
    if |events| != 0 {
      NextIsSound(c, m, events[0]);
      EveryRunIsSound(c, Next(c, m, events[0]), events[1..]);
    }
  }

  lemma ErasedFlashIsSound(c: Config)
    requires ValidConfig(c)
    ensures Sound(c, Off(Zeros(c.Slots())))
  {
    ErasedLogIsClean(c, Zeros(c.Slots()));
  }

  /** Exactly the geometries with the log in the last sector keep every run from erased flash sound. */
  lemma RunsAreSoundExactly(c: Config)
    requires ValidConfig(c)
    ensures (forall events: seq<Event> :: Sound(c, RunFrom(c, Off(Zeros(c.Slots())), events))) <==> LogInLastSector(c)
  {
    hide Sound, RunFrom, LastSector;
    var m := Off(Zeros(c.Slots()));
    ErasedFlashIsSound(c);
    if LogInLastSector(c) {
      forall events: seq<Event>
        ensures Sound(c, RunFrom(c, m, events))
      {
        EveryRunIsSound(c, m, events);
      }
    } else {
      var events := BreakingRun(c);
      assert !Sound(c, RunFrom(c, m, events));
    }
  }

  /** Filling the log and losing power before the last sector is erased. */
  lemma BreakingRun(c: Config) returns (events: seq<Event>)
    requires ValidConfig(c) && !LogInLastSector(c)
    ensures !Sound(c, RunFrom(c, Off(Zeros(c.Slots())), events))
  {
    hide Inv, Clean, ApplyAll, LastSector, Consolidated, EraseCount, AfterInit, Next, RunFrom;
    var m := Off(Zeros(c.Slots()));
    var s := Store(Zeros(c.Slots()), Blank(c), c.LogStart());
    var start := [Restart(Zeros(3))];
    StartsErased(c);
    OneEvent(c, m, start[0]);
    var fill, full := FillingRun(c, s, c.Slots() - 1 - c.LogStart());
    var e := LastWriteBreaks(c, full);
    RunConcatenation(c, m, start, fill);
    RunConcatenation(c, m, start + fill, [e]);
    OneEvent(c, On(full), e);
    events := start + fill + [e];
  }

  lemma OneEvent(c: Config, m: Machine, e: Event)
    requires Shaped(c, m)
    ensures RunFrom(c, m, [e]) == Next(c, m, e)
  {
    hide Next;
    assert [e][1..] == [];
  }

  lemma {:induction false} RunConcatenation(c: Config, m: Machine, a: seq<Event>, b: seq<Event>)
    requires Shaped(c, m)
    ensures RunFrom(c, m, a + b) == RunFrom(c, RunFrom(c, m, a), b)
    decreases |a|
  {
    hide Next, Shaped;
    if |a| == 0 {
      assert a + b == b;
    } else {
      assert (a + b)[1..] == a[1..] + b;
      RunConcatenation(c, Next(c, m, a[0]), a[1..], b);
    }
  }

  lemma StartsErased(c: Config)
    requires ValidConfig(c)
    ensures var s := Store(Zeros(c.Slots()), Blank(c), c.LogStart());
            Inv(c, s) && Next(c, Off(Zeros(c.Slots())), Restart(Zeros(3))) == On(s)
  {
    hide ApplyAll, EraseOps, ToBytes, HashOf;
    var s := Store(Zeros(c.Slots()), Blank(c), c.LogStart());
    EraseKeepsInv(c, s);
    EraseRun(s.flash, c.sector / 2, 0);
    assert s.flash[..0] + Zeros(c.Slots()) == s.flash;
    assert AfterErase(c, s) == s;
    InitAgain(c, s, Zeros(3));
  }

  /** The log is programmed without gaps up to the write position. */
  predicate Filled(c: Config, s: Store)
    requires Shape(c, s)
  {
    forall i :: c.LogStart() <= i < s.end ==> s.flash[i] != 0
  }

  /** `n` one-slot writes. */
  lemma {:induction false} FillingRun(c: Config, s: Store, n: nat) returns (events: seq<Event>, full: Store)
    requires Inv(c, s) && s.end + n < c.Slots() && Filled(c, s)
    ensures Inv(c, full) && full.end == s.end + n && Filled(c, full)
    ensures RunFrom(c, On(s), events) == On(full)
    decreases n
  {
    hide Inv, Filled, Next;
    InvShape(c, s);
    if n == 0 {
      events, full := [], s;
    } else {
      var e, s' := FillingStep(c, s);
      var rest;
      rest, full := FillingRun(c, s', n - 1);
      events := [e] + rest;
      assert events[1..] == rest;
    }
  }

  lemma FillingStep(c: Config, s: Store) returns (e: Event, s': Store)
    requires Inv(c, s) && s.end + 1 < c.Slots() && Filled(c, s)
    ensures Inv(c, s') && s'.end == s.end + 1 && Filled(c, s')
    ensures Next(c, On(s), e) == On(s')
  {
    hide Inv, AfterWrite, MakeOptimized64, EntrySlots;
    InvShape(c, s);
    var v: byte := Different(s.cache[0]);
    WriteKeepsInv(c, s, 0, [v]);
    OneSlotWrite(c, s, v);
    e, s' := Write(0, [v]), AfterWrite(c, s, 0, [v]);
  }

  function Different(b: byte): (v: byte)
    ensures v != b && v != 0
  {
    if b == 1 then 2 else 1
  }

  lemma OneSlotWrite(c: Config, s: Store, v: byte)
    requires Inv(c, s) && s.cache[0] != v && v != 0
    ensures EntrySlots(0, [v]) == [MakeOptimized64(0, v)] && MakeOptimized64(0, v) != 0
    ensures s.cache[0..1] != [v]
    ensures s.end + 1 < c.Slots() ==>
              && AfterWrite(c, s, 0, [v]).flash == Overwrite(s.flash, s.end, [MakeOptimized64(0, v)])
              && AfterWrite(c, s, 0, [v]).end == s.end + 1
  {
    hide Complete, Replay, Consolidated, ApplyAll, Programs, Blit, MakeOptimized64, Overwrite;
    OneByteEntry(v);
    assert s.cache[0..1][0] == s.cache[0];
    var slots := EntrySlots(0, [v]);
    ProgramRun(s.flash, s.end, slots);
  }

  lemma OneByteEntry(v: byte)
    ensures EntrySlots(0, [v]) == [MakeOptimized64(0, v)] && MakeOptimized64(0, v) != 0
  {
    assert [v][1..] == [] && EntrySlots(1, []) == [];
  }

  /** With one slot left, a one-slot write fills the log and consolidates; that is cut before its last erase. */
  lemma LastWriteBreaks(c: Config, s: Store) returns (e: Event)
    requires Inv(c, s) && Filled(c, s) && s.end == c.Slots() - 1 && !LogInLastSector(c)
    ensures !Sound(c, Next(c, On(s), e))
  {
    hide Clean, ApplyAll, LastSector, Consolidated, Complete, Replay, EraseCount, ConsolidateOps, Blit, MakeOptimized64, Programs;
    hide HashOf;
    var v := Different(s.cache[0]);
    OneSlotWrite(c, s, v);
    var slots, cache', n := EntrySlots(0, [v]), Blit(s.cache, 0, [v]), EraseCount(c);
    var f := Overwrite(s.flash, s.end, slots);
    HalfErasedLog(c, f, cache', Zeros(3));
    e := CutWrite(0, [v], n);
    assert slots[..1] == slots;
    var ops := WriteOps(c, s, 0, [v]);
    assert ops == Programs(s.end, slots) + ConsolidateOps(c, cache');
    assert Truncate(ops, n) == Programs(s.end, slots) + ConsolidateOps(c, cache')[..n - 1];
    ProgramRun(s.flash, s.end, slots);
    Concatenation(s.flash, Programs(s.end, slots), ConsolidateOps(c, cache')[..n - 1]);
  }

  // ----- Runs without power cuts refine a plain byte array

  predicate NoCut(e: Event)
  {
    e.Write? || e.EraseAll? || (e.Restart? && |e.beyond| >= 3)
  }

  function PlainNext(c: Config, contents: seq<byte>, e: Event): (r: seq<byte>)
    requires |contents| == c.logical
    ensures |r| == c.logical
  {
    match e
    case Write(address, data) => if Fits(c, address, data) then Blit(contents, address, data) else contents
    case EraseAll => Blank(c)
    case _ => contents
  }

  function PlainRun(c: Config, contents: seq<byte>, events: seq<Event>): (r: seq<byte>)
    requires |contents| == c.logical
    ensures |r| == c.logical
    decreases |events|
  {
    if |events| == 0 then contents else PlainRun(c, PlainNext(c, contents, events[0]), events[1..])
  }

  ghost function StoreNext(c: Config, s: Store, e: Event): Store
    requires Inv(c, s) && NoCut(e)
  {
    match e
    case Write(address, data) => if Fits(c, address, data) then AfterWrite(c, s, address, data) else s
    case EraseAll => AfterErase(c, s)
    case Restart(beyond) => AfterInit(c, s.flash, beyond)
  }

  lemma StoreNextRefines(c: Config, s: Store, e: Event)
    requires Inv(c, s) && NoCut(e)
    ensures Inv(c, StoreNext(c, s, e))
    ensures StoreNext(c, s, e).cache == PlainNext(c, s.cache, e)
    ensures e.Restart? ==> StoreNext(c, s, e) == s
  {
    hide Inv, AfterWrite, AfterInit, AfterErase;
    UnfoldSound(c, On(s));
    match e {
      case Write(address, data) =>
        if Fits(c, address, data) {
          WriteKeepsInv(c, s, address, data);
        }
      case EraseAll =>
        EraseKeepsInv(c, s);
      case Restart(beyond) =>
        InitAgain(c, s, beyond);
    }
  }

  ghost function StoreRun(c: Config, s: Store, events: seq<Event>): Store
    requires Inv(c, s) && forall e | e in events :: NoCut(e)
    decreases |events|
  {
    if |events| == 0 then s
    else
      StoreNextRefines(c, s, events[0]);
      StoreRun(c, StoreNext(c, s, events[0]), events[1..])
  }

  /** Main result without cuts: after any writes, erases and restarts, consolidations included, the cache that
      reads are served from is the byte array that the same writes and erases produce. */
  lemma {:induction false} StoreRefinesByteArray(c: Config, s: Store, events: seq<Event>)
    requires Inv(c, s) && forall e | e in events :: NoCut(e)
    ensures Inv(c, StoreRun(c, s, events))
    ensures StoreRun(c, s, events).cache == PlainRun(c, s.cache, events)
    decreases |events|
  {
    hide Inv, StoreNext, PlainNext;
    UnfoldSound(c, On(s));
    if |events| != 0 {
      StoreNextRefines(c, s, events[0]);
      StoreRefinesByteArray(c, StoreNext(c, s, events[0]), events[1..]);
    }
  }
}
