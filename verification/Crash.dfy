/** What a restart finds after a power cut, for every call and every position of the cut. */
module Crash {
  import opened Bits
  import opened FlashOps
  import opened WriteLog
  import opened Store
  import opened Runs
  import opened Tears

  // ----- Cuts during a consolidation

  /** The first `i` slots' worth of `cache`, then zeros: a data area whose programming was cut. */
  function PartialArea(c: Config, cache: seq<byte>, i: nat): (area: seq<byte>)
    requires c.Valid() && |cache| == c.logical && i <= c.DataSlots()
    ensures |area| == c.logical
  {
    cache[..2 * i] + seq(c.logical - 2 * i, k => 0)
  }

  /** The flash `log` replayed on top of zeros. */
  function OverZeros(c: Config, flash: seq<word>, beyond: seq<word>): (r: seq<byte>)
    requires ValidConfig(c) && |flash| == c.Slots() && |beyond| >= 3
    ensures |r| == c.logical
  {
    Playback(c, flash + beyond, c.LogStart(), Blank(c)).cache
  }

  /** What is found after `i` operations of a consolidation of `cache`, by the phase the cut falls into: nothing done
      yet; some but not all sectors erased, which leaves the log but not the data under it; some of the data
      programmed, which counts only if its hash is zero; some of the hash programmed, which counts only if the rest of
      it is zero. */
  function ConsolidationCut(c: Config, flash: seq<word>, cache: seq<byte>, i: nat, beyond: seq<word>): (r: seq<byte>)
    requires ValidConfig(c) && |flash| == c.Slots() && |cache| == c.logical && |beyond| >= 3
    requires i <= EraseCount(c) + c.LogStart()
    ensures |r| == c.logical
  {
    if i == 0 then Recovered(c, flash, beyond)
    else if i < EraseCount(c) then OverZeros(c, flash, beyond)
    else ProgrammingCut(c, cache, i - EraseCount(c))
  }

  function ProgrammingCut(c: Config, cache: seq<byte>, i: nat): (r: seq<byte>)
    requires c.Valid() && |cache| == c.logical && i <= c.LogStart()
    ensures |r| == c.logical
  {
    if i < c.DataSlots() then
      var area := PartialArea(c, cache, i);
      if HashOf(area) == Zeros(4) then area else Blank(c)
    else
      var h := i - c.DataSlots();
      if HashOf(cache)[..h] + Zeros(4 - h) == HashOf(cache) then cache else Blank(c)
  }

  lemma NothingProgrammed(c: Config, cache: seq<byte>, i: nat)
    requires c.Valid() && |cache| == c.logical && i == 0
    ensures ProgrammingCut(c, cache, i) == Blank(c)
  {
    hide HashOf;
    assert PartialArea(c, cache, i) == Blank(c);
  }

  lemma RecoverEmptyLog(c: Config, flash: seq<word>, beyond: seq<word>)
    requires ValidConfig(c) && |flash| == c.Slots() && |beyond| >= 3
    requires ErasedRange(flash, c.LogStart(), c.Slots())
    ensures Recovered(c, flash, beyond) == Consolidated(c, flash)
  {
    hide Consolidated, ConsolidateOps, ApplyAll;
    var mem := flash + beyond;
    assert mem[..c.Slots()] == flash && mem[c.LogStart()] == flash[c.LogStart()] == 0;
  }

  lemma PartialData(c: Config, cache: seq<byte>, i: nat)
    requires c.Valid() && |cache| == c.logical && i <= c.LogStart()
    ensures var f := PartlyConsolidated(c, cache, i);
            var n := if i <= c.DataSlots() then i else c.DataSlots();
            && ToBytes(f[..c.DataSlots()]) == PartialArea(c, cache, n)
            && f[c.DataSlots()..c.LogStart()] == HashOf(cache)[..i - n] + Zeros(4 - (i - n))
  {
    hide HashOf, ToWords, ToBytes;
    var f := PartlyConsolidated(c, cache, i);
    var n := if i <= c.DataSlots() then i else c.DataSlots();
    assert f[..c.DataSlots()] == ToWords(cache)[..n] + Zeros(c.DataSlots() - n);
    PartialBytes(c, cache, n);
  }

  lemma PartialBytes(c: Config, cache: seq<byte>, n: nat)
    requires c.Valid() && |cache| == c.logical && n <= c.DataSlots()
    ensures ToBytes(ToWords(cache)[..n] + Zeros(c.DataSlots() - n)) == PartialArea(c, cache, n)
  {
    var words := ToWords(cache)[..n] + Zeros(c.DataSlots() - n);
    forall k | 0 <= k < c.logical
      ensures ToBytes(words)[k] == PartialArea(c, cache, n)[k]
    {
      if k < 2 * n {
        assert words[k / 2] == ToWords(cache)[k / 2];
        WordParts(cache[2 * (k / 2)], cache[2 * (k / 2) + 1]);
      }
    }
  }

  lemma CutProgrammingOutcome(c: Config, cache: seq<byte>, i: nat, beyond: seq<word>)
    requires ValidConfig(c) && |cache| == c.logical && i <= c.LogStart() && |beyond| >= 3
    ensures Recovered(c, PartlyConsolidated(c, cache, i), beyond) == ProgrammingCut(c, cache, i)
  {
    hide HashOf, ToWords, ToBytes, PartlyConsolidated, Recovered;
    var f := PartlyConsolidated(c, cache, i);
    ErasedTail(c, cache, i);
    RecoverEmptyLog(c, f, beyond);
    PartialData(c, cache, i);
    if i >= c.DataSlots() {
      assert PartialArea(c, cache, c.DataSlots()) == cache;
    } else {
      assert HashOf(cache)[..0] + Zeros(4) == Zeros(4);
    }
  }

  lemma ErasedTail(c: Config, cache: seq<byte>, i: nat)
    requires c.Valid() && |cache| == c.logical && i <= c.LogStart()
    ensures ErasedRange(PartlyConsolidated(c, cache, i), c.LogStart(), c.Slots())
  {
  }

  lemma ErasedDataIsBlank(c: Config, flash: seq<word>)
    requires c.Valid() && |flash| == c.Slots() && ErasedRange(flash, 0, c.DataSlots())
    ensures Consolidated(c, flash) == Blank(c)
  {
    hide HashOf;
    assert ToBytes(flash[..c.DataSlots()]) == Blank(c);
  }

  /** Playback only looks at the log. */
  lemma {:induction false} PlaybackLocal(c: Config, mem: seq<word>, mem': seq<word>, pos: nat, cache: seq<byte>)
    requires c.Valid() && |mem| == |mem'| >= c.Slots() + 3 && |cache| == c.logical
    requires forall i :: pos <= i < |mem| ==> mem'[i] == mem[i]
    ensures Playback(c, mem', pos, cache) == Playback(c, mem, pos, cache)
    decreases c.Slots() + 4 - pos
  {
    hide Decode, SlotCount, Blit, EntryType;
    if pos < c.Slots() && mem[pos] != 0 {
      assert mem'[pos..] == mem[pos..];
      SlotCountIsSmall(mem[pos]);
      var d := Decode(c, mem[pos..]);
      if d.Stored? {
        DecodeInBounds(c, mem[pos..]);
        PlaybackLocal(c, mem, mem', pos + SlotCount(mem[pos]), Blit(cache, d.address, d.value));
      }
    }
  }

  /** With the data area erased and the log still there, the log is replayed on top of zeros. */
  lemma RecoverOverZeros(c: Config, flash: seq<word>, g: seq<word>, beyond: seq<word>)
    requires ValidConfig(c) && |flash| == |g| == c.Slots() && |beyond| >= 3
    requires g[c.LogStart()..] == flash[c.LogStart()..] && ErasedRange(g, 0, c.DataSlots())
    ensures Recovered(c, g, beyond) == OverZeros(c, flash, beyond)
  {
    hide Playback, Consolidated, ConsolidateOps, ApplyAll, Blank;
    ErasedDataIsBlank(c, g);
    var mem, mem' := flash + beyond, g + beyond;
    assert mem'[..c.Slots()] == g;
    forall i | c.LogStart() <= i < |mem|
      ensures mem'[i] == mem[i]
    {
      assert i < c.Slots() ==> g[i] == g[c.LogStart()..][i - c.LogStart()] == flash[i];
    }
    PlaybackLocal(c, mem, mem', c.LogStart(), Blank(c));
  }

  /** Main result on cut consolidations: what a restart finds, for every flash and every position of the cut. */
  lemma CutConsolidationOutcome(c: Config, flash: seq<word>, cache: seq<byte>, i: nat, beyond: seq<word>)
    requires PowerSafe(c) && |flash| == c.Slots() && |cache| == c.logical && |beyond| >= 3
    requires i <= |ConsolidateOps(c, cache)|
    ensures |ConsolidateOps(c, cache)| == EraseCount(c) + c.LogStart()
    ensures Recovered(c, ApplyAll(flash, ConsolidateOps(c, cache)[..i]), beyond)
         == ConsolidationCut(c, flash, cache, i, beyond)
  {
    hide ApplyAll, ConsolidateOps, Recovered, OverZeros, ProgrammingCut, LastSector, EraseCount, PartlyConsolidated;
    ConsolidateLength(c, cache);
    var g := ApplyAll(flash, ConsolidateOps(c, cache)[..i]);
    if i < EraseCount(c) {
      CutDuringErase(c, flash, cache, i);
      if i > 0 {
        RecoverOverZeros(c, flash, g, beyond);
      }
    } else {
      CutAfterErase(c, flash, cache, i);
      CutProgrammingOutcome(c, cache, i - EraseCount(c), beyond);
    }
  }

  lemma ConsolidateLength(c: Config, cache: seq<byte>)
    requires ValidConfig(c) && |cache| == c.logical
    ensures |ConsolidateOps(c, cache)| == EraseCount(c) + c.LogStart()
    ensures EraseCount(c) > 0
  {
  }

  /** Between two sector erases a restart always finds the log over zeros. */
  ghost predicate AlwaysOverZeros(c: Config)
    requires ValidConfig(c)
  {
    forall flash: seq<word>, cache: seq<byte>, i: nat, beyond: seq<word> ::
      |flash| == c.Slots() && |cache| == c.logical && |beyond| >= 3 && 0 < i < EraseCount(c) && i <= |ConsolidateOps(c, cache)| ==>
        Recovered(c, ApplyAll(flash, ConsolidateOps(c, cache)[..i]), beyond) == OverZeros(c, flash, beyond)
  }

  /** That is so exactly for the sizes that these results ask for. */
  lemma OverZerosExactly(c: Config)
    requires ValidConfig(c)
    ensures AlwaysOverZeros(c) <==> PowerSafe(c)
  {
    hide ApplyAll, ConsolidateOps, Recovered, OverZeros, LastSector, EraseCount;
    if PowerSafe(c) {
      forall flash: seq<word>, cache: seq<byte>, i: nat, beyond: seq<word> |
          |flash| == c.Slots() && |cache| == c.logical && |beyond| >= 3 && 0 < i < EraseCount(c) && i <= |ConsolidateOps(c, cache)|
        ensures Recovered(c, ApplyAll(flash, ConsolidateOps(c, cache)[..i]), beyond) == OverZeros(c, flash, beyond)
      {
        CutConsolidationOutcome(c, flash, cache, i, beyond);
      }
    } else if !LogInLastSector(c) {
      FullFlashIsClean(c);
      HalfErasedLog(c, FullFlash(c), Blank(c), Zeros(3));
      HalfErasedOutcome(c);
      FullFlashOverZeros(c);
    } else {
      SecondSectorOutcome(c);
    }
  }

  /** With the front of the log erased, nothing is replayed. */
  lemma HalfErasedOutcome(c: Config)
    requires ValidConfig(c) && !LogInLastSector(c) && 1 < EraseCount(c) <= |ConsolidateOps(c, Blank(c))|
    ensures Recovered(c, ApplyAll(FullFlash(c), ConsolidateOps(c, Blank(c))[..EraseCount(c) - 1]), Zeros(3)) == Blank(c)
  {
    hide ApplyAll, Programs, HashOf, ToWords, LastSector, EraseOps, Consolidated, Blank, FullFlash;
    var erase, n := EraseOps(c.Slots(), c.sector / 2, 0), EraseCount(c);
    AllButLastErased(FullFlash(c), c.sector / 2, 0);
    assert ConsolidateOps(c, Blank(c))[..n - 1] == erase[..n - 1];
    var g := ApplyAll(FullFlash(c), erase[..n - 1]);
    assert g[c.LogStart()] == 0;
    var mem := g + Zeros(3);
    assert mem[..c.Slots()] == g && mem[c.LogStart()] == 0;
    ErasedDataIsBlank(c, g);
  }

  lemma FullFlashOverZeros(c: Config)
    requires ValidConfig(c)
    ensures OverZeros(c, FullFlash(c), Zeros(3)) != Blank(c)
  {
    hide Complete, Replay, Playback, Blank;
    var n := c.Slots() - c.LogStart();
    var mem := FullFlash(c) + Zeros(3);
    RepeatedIsComplete(c, n);
    assert mem[c.LogStart()..c.LogStart() + n] == Repeated(n);
    PlaybackOfLog(c, mem, c.LogStart(), Repeated(n), Blank(c));
    PastTheEnd(c, mem, Replay(c, Repeated(n), Blank(c)));
    RepeatedReplays(c, n, Blank(c));
    assert Blank(c)[0] == 0 by { BlankAt(c, 0); }
  }

  lemma BlankAt(c: Config, i: nat)
    requires i < c.logical
    ensures Blank(c)[i] == 0
  {
  }

  lemma PastTheEnd(c: Config, mem: seq<word>, cache: seq<byte>)
    requires c.Valid() && |mem| >= c.Slots() + 3 && |cache| == c.logical
    ensures Playback(c, mem, c.Slots(), cache).cache == cache
  {
  }

  lemma {:induction false} RepeatedReplays(c: Config, n: nat, base: seq<byte>)
    requires c.Valid() && |base| == c.logical && n > 0
    ensures Complete(c, Repeated(n)) && Replay(c, Repeated(n), base)[0] == 1
    decreases n
  {
    hide Decode, SlotCount, Blit, MakeOptimized64;
    RepeatedIsComplete(c, n);
    var log := Repeated(n);
    assert log == [MakeOptimized64(0, 1)] + log[1..];
    Optimized64RoundTrip(c, 0, 1, log[1..]);
    assert log[1..] == Repeated(n - 1);
    BlitAt(base, 0, [1], 0);
    if n > 1 {
      RepeatedReplays(c, n - 1, Blit(base, 0, [1]));
    }
  }

  /** Data that reaches into the second sector and is zero in the first survives the first erase whole. */
  lemma SecondSectorOutcome(c: Config)
    requires LogInLastSector(c) && !PowerSafe(c)
    ensures !AlwaysOverZeros(c)
  {
    hide ApplyAll, ConsolidateOps, Recovered, OverZeros, LastSector, EraseCount, Fresh;
    var data: seq<byte> := seq(c.logical, k => if k < 2 * (c.sector / 2) then 0 else 1);
    var flash := Fresh(c, data);
    FirstEraseDoesNothing(c, data);
    FreshRecovers(c, data);
    assert data[c.logical - 1] == 1;
    BlankAt(c, c.logical - 1);
    assert Recovered(c, ApplyAll(flash, ConsolidateOps(c, data)[..1]), Zeros(3)) != OverZeros(c, flash, Zeros(3));
  }

  lemma FirstEraseDoesNothing(c: Config, data: seq<byte>)
    requires ValidConfig(c) && |data| == c.logical && c.DataSlots() > c.sector / 2
    requires forall k :: 0 <= k < 2 * (c.sector / 2) ==> data[k] == 0
    ensures 1 < EraseCount(c) && 1 <= |ConsolidateOps(c, data)|
    ensures ApplyAll(Fresh(c, data), ConsolidateOps(c, data)[..1]) == Fresh(c, data)
  {
    hide Programs, HashOf;
    var first, rest := Erase(0, c.sector / 2), EraseOps(c.Slots(), c.sector / 2, c.sector / 2);
    assert EraseOps(c.Slots(), c.sector / 2, 0) == [first] + rest && |rest| > 0;
    assert EraseOps(c.Slots(), c.sector / 2, 0)[..1] == [first] && [first][1..] == [];
    assert ConsolidateOps(c, data)[..1] == [first];
    var f := Fresh(c, data);
    forall i | 0 <= i < c.sector / 2
      ensures f[i] == 0
    {
      assert f[i] == ToWords(data)[i] == WordOf(data[2 * i], data[2 * i + 1]);
    }
    assert Apply(f, first) == f;
  }

  /** A consolidated flash holds its data; its empty log over zeros gives zeros. */
  lemma FreshRecovers(c: Config, data: seq<byte>)
    requires ValidConfig(c) && |data| == c.logical
    ensures Recovered(c, Fresh(c, data), Zeros(3)) == data && OverZeros(c, Fresh(c, data), Zeros(3)) == Blank(c)
  {
    hide Consolidated, HashOf, ToWords, Inv;
    var s := Store(Fresh(c, data), data, c.LogStart());
    FreshInv(c, data);
    InitAgain(c, s, Zeros(3));
    assert (Fresh(c, data) + Zeros(3))[c.LogStart()] == 0;
  }

  // ----- Cuts during an erase

  lemma CutEraseOutcome(c: Config, flash: seq<word>, i: nat, beyond: seq<word>)
    requires PowerSafe(c) && |flash| == c.Slots() && |beyond| >= 3 && i <= EraseCount(c)
    ensures Recovered(c, ApplyAll(flash, EraseOps(c.Slots(), c.sector / 2, 0)[..i]), beyond)
         == if i == 0 then Recovered(c, flash, beyond)
            else if i < EraseCount(c) then OverZeros(c, flash, beyond) else Blank(c)
  {
    hide ApplyAll, Recovered, OverZeros, LastSector, Programs, HashOf, PartialArea, Blank, EraseOps;
    var ops := EraseOps(c.Slots(), c.sector / 2, 0);
    assert ConsolidateOps(c, Blank(c))[..i] == ops[..i];
    ConsolidateLength(c, Blank(c));
    CutConsolidationOutcome(c, flash, Blank(c), i, beyond);
    if i == EraseCount(c) {
      NothingProgrammed(c, Blank(c), 0);
    }
  }

  // ----- Cuts during a write

  /** How many slots a write appends before it is done or the log is full. */
  function Appended(c: Config, s: Store, address: nat, data: seq<byte>): (n: nat)
    requires Shape(c, s) && Fits(c, address, data)
    ensures n <= |EntrySlots(address, data)| && s.end + n <= c.Slots()
  {
    if s.cache[address..address + |data|] == data then 0
    else if |EntrySlots(address, data)| < c.Slots() - s.end then |EntrySlots(address, data)|
    else c.Slots() - s.end
  }

  /** What is found after `j` operations of a write: while it appends, the outcome of the append; once the log is full,
      that of cutting the consolidation of the new contents. */
  function WriteCut(c: Config, s: Store, address: nat, data: seq<byte>, j: nat, beyond: seq<word>): (r: seq<byte>)
    requires Shape(c, s) && Fits(c, address, data) && |beyond| >= 3
    requires j <= Appended(c, s, address, data) + EraseCount(c) + c.LogStart()
    ensures |r| == c.logical
  {
    var n := Appended(c, s, address, data);
    if j <= n then AppendOutcome(c, s.cache, address, data, j, c.Slots() - s.end, beyond)
    else
      var full := Overwrite(s.flash, s.end, EntrySlots(address, data)[..n]);
      ConsolidationCut(c, full, Blit(s.cache, address, data), j - n, beyond)
  }

  /** Main result on crashes: what a restart finds after cutting any write at any of its flash operations. */
  lemma CutWriteOutcome(c: Config, s: Store, address: nat, data: seq<byte>, j: nat, beyond: seq<word>)
    requires PowerSafe(c) && Inv(c, s) && Fits(c, address, data) && |beyond| >= 3
    requires j <= |WriteOps(c, s, address, data)|
    ensures j <= Appended(c, s, address, data) + EraseCount(c) + c.LogStart()
    ensures Recovered(c, ApplyAll(s.flash, WriteOps(c, s, address, data)[..j]), beyond)
         == WriteCut(c, s, address, data, j, beyond)
  {
    hide Complete, Replay, EntrySlots, Recovered, ApplyAll, ConsolidateOps, LastSector, Programs, Disciplined;
    hide Consolidated, AppendOutcome, ConsolidationCut, Blit, EraseCount;
    var ops, slots, n := WriteOps(c, s, address, data), EntrySlots(address, data), Appended(c, s, address, data);
    if s.cache[address..address + |data|] == data {
      NothingToDo(s.flash);
      assert ops[..j] == [];
      assert Overwrite(s.flash, s.end, slots[..0]) == s.flash;
      CutAppendOutcome(c, s, address, data, 0, beyond);
    } else {
      AppendedOps(c, s, address, data);
      var append := Programs(s.end, slots[..n]);
      if j <= n {
        assert ops[..j] == append[..j];
        ProgramsPrefix(s.end, slots[..n], j);
        assert slots[..n][..j] == slots[..j];
        ProgramRun(s.flash, s.end, slots[..j]);
        CutAppendOutcome(c, s, address, data, j, beyond);
      } else {
        var cache' := Blit(s.cache, address, data);
        assert ops[..j] == append + ConsolidateOps(c, cache')[..j - n];
        ProgramRun(s.flash, s.end, slots[..n]);
        Concatenation(s.flash, append, ConsolidateOps(c, cache')[..j - n]);
        CutConsolidationOutcome(c, Overwrite(s.flash, s.end, slots[..n]), cache', j - n, beyond);
      }
    }
  }

  lemma AppendedOps(c: Config, s: Store, address: nat, data: seq<byte>)
    requires Inv(c, s) && Fits(c, address, data) && s.cache[address..address + |data|] != data
    ensures var slots, n := EntrySlots(address, data), Appended(c, s, address, data);
            && (|slots| < c.Slots() - s.end ==> WriteOps(c, s, address, data) == Programs(s.end, slots[..n]))
            && (|slots| >= c.Slots() - s.end ==>
                  && n == c.Slots() - s.end
                  && WriteOps(c, s, address, data)
                     == Programs(s.end, slots[..n]) + ConsolidateOps(c, Blit(s.cache, address, data)))
  {
    hide EntrySlots, Programs, ConsolidateOps, Blit;
    var slots := EntrySlots(address, data);
    assert slots[..|slots|] == slots;
  }

  /** Between two sector erases: the log, with what was appended to it, on top of zeros. */
  lemma WriteCutOverZeros(c: Config, s: Store, address: nat, data: seq<byte>, beyond: seq<word>)
    requires Inv(c, s) && Fits(c, address, data) && |beyond| >= 3
    ensures var n := Appended(c, s, address, data);
            && Complete(c, Log(c, s))
            && OverZeros(c, Overwrite(s.flash, s.end, EntrySlots(address, data)[..n]), beyond)
            == AppendOutcome(c, Replay(c, Log(c, s), Blank(c)), address, data, n, c.Slots() - s.end, beyond)
  {
    hide Complete, Replay, EntrySlots, AppendOutcome, Playback, Consolidated, Blank, Appended, Overwrite;
    var n := Appended(c, s, address, data);
    var f := Overwrite(s.flash, s.end, EntrySlots(address, data)[..n]);
    AppendedLog(c, s, EntrySlots(address, data)[..n], beyond);
    PlaybackOfLog(c, f + beyond, c.LogStart(), Log(c, s), Blank(c));
    CutAppendPlays(c, f + beyond, s.end, address, data, n, Replay(c, Log(c, s), Blank(c)));
  }

  lemma AppendedLog(c: Config, s: Store, slots: seq<word>, beyond: seq<word>)
    requires Inv(c, s) && s.end + |slots| <= c.Slots()
    ensures var mem := Overwrite(s.flash, s.end, slots) + beyond;
            && mem[c.Slots()..] == beyond
            && mem[c.LogStart()..s.end] == Log(c, s)
            && mem[s.end..s.end + |slots|] == slots
            && forall i :: s.end + |slots| <= i < c.Slots() ==> mem[i] == 0
  {
    hide Complete, Replay, Consolidated;
  }

  // ----- Writes made of single-slot entries

  /** A write of single-slot entries, cut after any of its operations. While it appends, a prefix of its bytes is
      there; between two sector erases, the log with all of them on top of zeros; while the data is programmed, zeros
      or a partial area whose hash is zero; while the hash is programmed, zeros or the new contents; at the end, the
      new contents. Only a write that fills the log gets past the first case. */
  lemma SingleSlotWriteCrash(c: Config, s: Store, address: nat, data: seq<byte>, j: nat, beyond: seq<word>)
    requires PowerSafe(c) && Inv(c, s) && Fits(c, address, data) && SingleSlots(c, address, data, 0) && |beyond| >= 3
    requires j <= |WriteOps(c, s, address, data)|
    ensures var r := Recovered(c, ApplyAll(s.flash, WriteOps(c, s, address, data)[..j]), beyond);
            var n, e, new' := Appended(c, s, address, data), EraseCount(c), Blit(s.cache, address, data);
            && (j <= n ==> PrefixWritten(s.cache, address, data, r))
            && (j > n ==> s.end + |EntrySlots(address, data)| >= c.Slots())
            && (n < j < n + e ==>
                  exists p: nat :: p <= |data| && Complete(c, Log(c, s)) &&
                    r == Blit(Replay(c, Log(c, s), Blank(c)), address, data[..p]))
            && (j == n + e ==> r == Blank(c))
            && (n + e < j < n + e + c.DataSlots() ==>
                  || r == Blank(c)
                  || (r == PartialArea(c, new', j - n - e) && HashOf(r) == Zeros(4)))
            && (n + e + c.DataSlots() <= j ==> r == Blank(c) || r == new')
            && (j > n && j == |WriteOps(c, s, address, data)| ==> r == new')
  {
    hide Complete, Replay, EntrySlots, Recovered, ApplyAll, ConsolidateOps, WriteOps, AppendOutcome, Blit, SingleSlots;
    hide OverZeros, HashOf, PartialArea, LastSector, Programs, EraseCount, Blank, Consolidated;
    CutWriteOutcome(c, s, address, data, j, beyond);
    ConsolidateLength(c, s.cache);
    var n := Appended(c, s, address, data);
    if j <= n {
      var p := SinglePrefix(c, s.cache, address, data, 0, j, c.Slots() - s.end, beyond);
    } else {
      CutPastAppend(c, s, address, data, j);
      WriteCutOverZeros(c, s, address, data, beyond);
      var p := SinglePrefix(c, Replay(c, Log(c, s), Blank(c)), address, data, 0, n, c.Slots() - s.end, beyond);
      if j == n + EraseCount(c) {
        NothingProgrammed(c, Blit(s.cache, address, data), j - n - EraseCount(c));
      }
      WholeHash(c, Blit(s.cache, address, data));
    }
  }

  lemma CutPastAppend(c: Config, s: Store, address: nat, data: seq<byte>, j: nat)
    requires Inv(c, s) && Fits(c, address, data)
    requires Appended(c, s, address, data) < j <= |WriteOps(c, s, address, data)|
    ensures s.end + |EntrySlots(address, data)| >= c.Slots()
    ensures |WriteOps(c, s, address, data)| == Appended(c, s, address, data) + EraseCount(c) + c.LogStart()
    ensures EraseCount(c) > 0
  {
    hide Complete, Replay, Consolidated, EntrySlots, ConsolidateOps, Blit, EraseCount;
    if s.cache[address..address + |data|] != data {
      AppendedOps(c, s, address, data);
      ConsolidateLength(c, Blit(s.cache, address, data));
    }
  }

  lemma WholeHash(c: Config, cache: seq<byte>)
    requires c.Valid() && |cache| == c.logical
    ensures HashOf(cache)[..4] + Zeros(0) == HashOf(cache)
  {
    hide HashOf;
  }

  /** The case between two sector erases is a real one: with more than one sector, some single-slot write cut there
      leaves neither a prefix of its bytes, nor all of them, nor zeros. */
  lemma ErasingLosesData(c: Config, beyond: seq<word>) returns (s: Store, address: nat, data: seq<byte>, j: nat)
    requires PowerSafe(c) && EraseCount(c) > 1 && |beyond| >= 3
    ensures Inv(c, s) && Fits(c, address, data) && SingleSlots(c, address, data, 0)
    ensures j == Appended(c, s, address, data) + 1 <= |WriteOps(c, s, address, data)|
    ensures var r := Recovered(c, ApplyAll(s.flash, WriteOps(c, s, address, data)[..j]), beyond);
            !PrefixWritten(s.cache, address, data, r) && r != Blit(s.cache, address, data) && r != Blank(c)
  {
    hide Complete, Replay, Recovered, ApplyAll, ConsolidateOps, WriteOps, AppendOutcome, Blit, EntrySlots, LastSector;
    hide Log, EraseCount, Consolidated, PrefixWritten, FilledLog, OverZeros, FilledStore, Programs, SingleSlots, Blank;
    var cache := Nonzero(c, [1]);
    var end := c.Slots() - 1;
    s, address, data, j := FilledStore(c, cache, end), 1, [1], 2;
    FilledStoreInv(c, cache, end);
    FilledStoreParts(c, cache, end);
    InvShape(c, s);
    LowAddressesAreSingleSlots(c, 1, [1], 0);
    OneSlot();
    assert s.cache[1..2] == [2];
    AppendedOps(c, s, address, data);
    ConsolidateLength(c, Blit(s.cache, address, data));
    CutWriteOutcome(c, s, address, data, j, beyond);
    WriteCutOverZeros(c, s, address, data, beyond);
    OverZerosShows(c, cache, end - c.LogStart(), beyond);
  }

  lemma OverZerosShows(c: Config, cache: seq<byte>, n: nat, beyond: seq<word>)
    requires c.Valid() && cache == Nonzero(c, [1]) && |beyond| >= 3
    ensures |EntrySlots(1, [1])| == 1 && Complete(c, FilledLog(cache, n))
    ensures var r := AppendOutcome(c, Replay(c, FilledLog(cache, n), Blank(c)), 1, [1], 1, 1, beyond);
            !PrefixWritten(cache, 1, [1], r) && r != Blit(cache, 1, [1]) && r != Blank(c)
  {
    hide Complete, Replay, AppendOutcome, Blit, PrefixWritten, FilledLog;
    OneSlot();
    ReplayFilled(c, cache, n);
    var base := Replay(c, FilledLog(cache, n), Blank(c));
    assert base[2] == Blank(c)[2] == 0;
    OneByteAppended(c, base, beyond);
    BlitAt(base, 1, [1], 1);
    BlitAt(base, 1, [1], 2);
    BlitAt(cache, 1, [1], 2);
    Betrayed(cache, 1, [1], Blit(base, 1, [1]), 2);
  }

  lemma OneByteAppended(c: Config, base: seq<byte>, beyond: seq<word>)
    requires c.Valid() && |base| == c.logical && |beyond| >= 3
    ensures |EntrySlots(1, [1])| == 1
    ensures AppendOutcome(c, base, 1, [1], 1, 1, beyond) == Blit(base, 1, [1])
  {
    hide Decode, SlotCount, Blit, TornEntry, MakeOptimized64;
    OneSlot();
    assert [1][..1] == [1] && [1][1..] == [];
    assert EntrySlots(2, []) == [];
  }

  lemma OneSlot()
    ensures |EntrySlots(1, [1])| == 1
  {
    assert [1][1..] == [];
    assert EntrySlots(2, []) == [];
  }

  /** A filled log only ever stores byte 0. */
  lemma {:induction false} ReplayFilled(c: Config, cache: seq<byte>, n: nat)
    requires c.Valid() && |cache| == c.logical
    ensures Complete(c, FilledLog(cache, n))
    ensures forall base: seq<byte> :: |base| == c.logical ==>
              forall i :: 0 < i < c.logical ==> Replay(c, FilledLog(cache, n), base)[i] == base[i]
  {
    hide Decode, SlotCount, Blit, MakeOptimized64;
    FilledReplays(c, cache, n);
    if n > 0 {
      var log := FilledLog(cache, n);
      assert log == [MakeOptimized64(0, cache[0])] + log[1..];
      Optimized64RoundTrip(c, 0, cache[0], log[1..]);
      assert log[1..] == FilledLog(cache, n - 1);
      ReplayFilled(c, cache, n - 1);
      forall base: seq<byte>, i | |base| == c.logical && 0 < i < c.logical
        ensures Replay(c, log, base)[i] == base[i]
      {
        BlitAt(base, 0, [cache[0]], i);
      }
    }
  }

  // ----- Cuts during a restart

  /** A restart that is itself cut, on any flash at all: what the next one finds. */
  lemma CutRestartOutcome(c: Config, flash: seq<word>, j: nat, beyond: seq<word>)
    requires PowerSafe(c) && |flash| == c.Slots() && |beyond| >= 3
    requires j <= |InitOps(c, flash, beyond)|
    ensures InitOps(c, flash, beyond) != [] ==> j <= EraseCount(c) + c.LogStart()
    ensures Recovered(c, ApplyAll(flash, InitOps(c, flash, beyond)[..j]), beyond)
         == if InitOps(c, flash, beyond) == [] then Recovered(c, flash, beyond)
            else ConsolidationCut(c, flash, Recovered(c, flash, beyond), j, beyond)
  {
    hide ApplyAll, ConsolidateOps, LastSector, Mount, ConsolidationCut, EraseCount;
    var p := Mount(c, flash + beyond);
    if p.ok && p.end < c.Slots() {
      NothingToDo(flash);
      assert InitOps(c, flash, beyond)[..j] == [];
    } else {
      CutConsolidationOutcome(c, flash, p.cache, j, beyond);
    }
  }
}
