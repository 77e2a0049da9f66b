/** The backing-store driver over RP2040 NOR flash (fruitchip-fw/lib/wear_leveling/wear_leveling_rp2040_flash.c).
    The chip is a row of 16-bit words that erase to 0xFFFF; a page-program command can only clear bits and
    wraps around inside its 256-byte page. The driver complements words in both directions. */
module Rp2040Flash {
  import opened Bits
  import opened FlashOps

  const ERASED_WORD: word := 0xFFFF
  const PAGE := 128   // words in a 256-byte page
  const BATCH := 64   // WEAR_LEVELING_RP2040_FLASH_BULK_COUNT

  function Flip(w: word): word
  {
    0xFFFF - w
  }

  function Flipped(s: seq<word>): (r: seq<word>)
    ensures |r| == |s|
  {
    seq(|s|, i requires 0 <= i < |s| => Flip(s[i]))
  }

  function AndWord(a: word, b: word): word
  {
    AndAtMost(a, b);
    And(a, b)
  }

  // ----- Page-program commands

  /** Where the `k`-th word of a page program at `address` goes. */
  function PageSlot(address: nat, k: nat): nat
  {
    address / PAGE * PAGE + (address % PAGE + k) % PAGE
  }

  /** How far `i` lies behind `address` when counting around the page. */
  function PageDistance(address: nat, i: nat): nat
  {
    (i % PAGE + PAGE - address % PAGE) % PAGE
  }

  function PageProgram(chip: seq<word>, address: nat, data: seq<word>): (r: seq<word>)
    ensures |r| == |chip|
  {
    seq(|chip|, i requires 0 <= i < |chip| =>
      if i / PAGE == address / PAGE && PageDistance(address, i) < |data|
      then AndWord(chip[i], data[PageDistance(address, i)]) else chip[i])
  }

  /** `pico_program_bulk`: page programs of at most 64 words, one after the other. */
  function BulkProgram(chip: seq<word>, address: nat, values: seq<word>): (r: seq<word>)
    ensures |r| == |chip|
    decreases |values|
  {
    if |values| == 0 then chip
    else
      var n := if |values| < BATCH then |values| else BATCH;
      BulkProgram(PageProgram(chip, address, Flipped(values[..n])), address + n, values[n..])
  }

  /** What the callers mean: each word lands at its own address, in order. */
  function StraightProgram(chip: seq<word>, address: nat, values: seq<word>): (r: seq<word>)
    ensures |r| == |chip|
  {
    seq(|chip|, i requires 0 <= i < |chip| =>
      if address <= i < address + |values| then AndWord(chip[i], Flip(values[i - address])) else chip[i])
  }

  /** Exactly when no batch crosses a page boundary: a start on a half page, or a write inside one page. */
  predicate PageSafe(address: nat, count: nat)
  {
    address % BATCH == 0 || address % PAGE + count <= PAGE
  }

  lemma PageProgramInside(chip: seq<word>, address: nat, values: seq<word>)
    requires address % PAGE + |values| <= PAGE
    ensures PageProgram(chip, address, Flipped(values)) == StraightProgram(chip, address, values)
  {
    hide AndWord;
    forall i | 0 <= i < |chip|
      ensures PageProgram(chip, address, Flipped(values))[i] == StraightProgram(chip, address, values)[i]
    {
      DistanceInside(address, |values|, i);
    }
  }

  lemma DistanceInside(address: nat, count: nat, i: nat)
    requires address % PAGE + count <= PAGE
    ensures i / PAGE == address / PAGE && PageDistance(address, i) < count <==> address <= i < address + count
    ensures address <= i < address + count ==> PageDistance(address, i) == i - address
  {
    var p, q := i / PAGE, address / PAGE;
    if p == q {
    } else if p < q {
      assert PAGE * p + PAGE <= PAGE * q;
    } else {
      assert PAGE * q + PAGE <= PAGE * p;
    }
  }

  lemma StraightTwice(chip: seq<word>, address: nat, x: seq<word>, y: seq<word>)
    ensures StraightProgram(StraightProgram(chip, address, x), address + |x|, y) == StraightProgram(chip, address, x + y)
  {
    hide AndWord;
  }

  lemma NextBatch(address: nat, count: nat)
    requires PageSafe(address, count)
    ensures var n := if count < BATCH then count else BATCH;
            && address % PAGE + n <= PAGE
            && PageSafe(address + n, count - n)
  {
    var q, h := address / PAGE, address % PAGE;
    if address % BATCH == 0 {
      DivModUnique(address, BATCH, 2 * q + h / BATCH, h % BATCH);
      DivModUnique(address + BATCH, BATCH, address / BATCH + 1, 0);
    } else if count > BATCH {
      DivModUnique(address + BATCH, PAGE, q, h + BATCH);
    }
  }

  /** `pico_program_bulk` writes exactly the requested words, for any number of them. */
  lemma {:induction false} BulkIsStraight(chip: seq<word>, address: nat, values: seq<word>)
    requires PageSafe(address, |values|)
    ensures BulkProgram(chip, address, values) == StraightProgram(chip, address, values)
    decreases |values|
  {
    hide PageProgram, StraightProgram, Flipped, PageSafe;
    if |values| == 0 {
      StraightNothing(chip, address, values);
    } else {
      var n := if |values| < BATCH then |values| else BATCH;
      NextBatch(address, |values|);
      PageProgramInside(chip, address, values[..n]);
      var chip' := StraightProgram(chip, address, values[..n]);
      BulkIsStraight(chip', address + n, values[n..]);
      StraightTwice(chip, address, values[..n], values[n..]);
      assert values[..n] + values[n..] == values;
    }
  }

  lemma StraightNothing(chip: seq<word>, address: nat, values: seq<word>)
    requires |values| == 0
    ensures StraightProgram(chip, address, values) == chip
  {
  }

  // ----- Outside that condition some write goes wrong

  function Constant(n: nat, w: word): (r: seq<word>)
    ensures |r| == n
  {
    seq(n, i => w)
  }

  lemma {:induction false} ClearedStaysCleared(chip: seq<word>, address: nat, values: seq<word>, i: nat)
    requires i < |chip| && chip[i] == 0
    ensures BulkProgram(chip, address, values)[i] == 0
    decreases |values|
  {
    hide Flipped;
    if |values| != 0 {
      var n := if |values| < BATCH then |values| else BATCH;
      var chip' := PageProgram(chip, address, Flipped(values[..n]));
      forall b: word
        ensures AndWord(0, b) == 0
      {
      }
      assert chip'[i] == 0;
      ClearedStaysCleared(chip', address + n, values[n..], i);
    }
  }

  lemma PageStart(address: nat)
    requires address % PAGE > 0
    ensures address / PAGE * PAGE / PAGE == address / PAGE
    ensures PageDistance(address, address / PAGE * PAGE) == PAGE - address % PAGE
  {
  }

  /** A batch that crosses a page boundary clears the first word of the page it starts in. */
  lemma CrossingClears(chip: seq<word>, address: nat, values: seq<word>)
    requires |values| > 0 && address + |values| <= |chip|
    requires forall k :: 0 <= k < |values| ==> values[k] == 0xFFFF
    requires address % PAGE + (if |values| < BATCH then |values| else BATCH) > PAGE
    ensures BulkProgram(chip, address, values)[address / PAGE * PAGE] == 0
  {
    var n := if |values| < BATCH then |values| else BATCH;
    var i := address / PAGE * PAGE;
    var data := Flipped(values[..n]);
    var chip' := PageProgram(chip, address, data);
    PageStart(address);
    assert data[PageDistance(address, i)] == 0;
    assert chip'[i] == 0;
    hide PageProgram, Flipped;
    ClearedStaysCleared(chip', address + n, values[n..], i);
  }

  /** The condition is exact: a bulk write stores what was asked on every chip if and only if it holds. */
  lemma BulkCorrectExactly(address: nat, count: nat, size: nat)
    requires address + count <= size
    ensures PageSafe(address, count) <==>
            (forall chip: seq<word>, values: seq<word> :: |chip| == size && |values| == count ==>
               BulkProgram(chip, address, values) == StraightProgram(chip, address, values))
  {
    if PageSafe(address, count) {
      forall chip: seq<word>, values: seq<word> | |chip| == size && |values| == count
        ensures BulkProgram(chip, address, values) == StraightProgram(chip, address, values)
      {
        BulkIsStraight(chip, address, values);
      }
    } else {
      var chip, values := Constant(size, ERASED_WORD), Constant(count, 0xFFFF);
      UnsafeClobbers(address, count, size, chip, values);
      assert BulkProgram(chip, address, values) != StraightProgram(chip, address, values);
    }
  }

  lemma UnsafeClobbers(address: nat, count: nat, size: nat, chip: seq<word>, values: seq<word>)
    requires address + count <= size && !PageSafe(address, count)
    requires chip == Constant(size, ERASED_WORD) && values == Constant(count, 0xFFFF)
    ensures BulkProgram(chip, address, values) != StraightProgram(chip, address, values)
  {
    hide PageProgram, Flipped;
    var n := if count < BATCH then count else BATCH;
    var i := address / PAGE * PAGE;
    assert i < address;
    assert StraightProgram(chip, address, values)[i] == chip[i] == 0xFFFF;
    if address % PAGE + n > PAGE {
      CrossingClears(chip, address, values);
    } else {
      assert count > BATCH && 0 < address % PAGE < BATCH;
      var address' := address + BATCH;
      assert address' / PAGE == address / PAGE && address' % PAGE == address % PAGE + BATCH;
      CrossingClears(PageProgram(chip, address, Flipped(values[..n])), address', values[n..]);
    }
  }

  // ----- The complemented view

  lemma ProgramInView(p: word, value: word)
    ensures Flip(AndWord(p, Flip(value))) == NorProgram(Flip(p), value)
  {
    Widths();
    AndOfComplements(Flip(p), value, 16);
  }

  /** The words of the area, complemented, so that erased slots read 0. */
  function ViewOf(chip: seq<word>, base: nat, slots: nat): (v: seq<word>)
    requires base + slots <= |chip|
    ensures |v| == slots
  {
    Flipped(chip[base..base + slots])
  }

  function BeyondOf(chip: seq<word>, base: nat, slots: nat): (v: seq<word>)
    requires base + slots <= |chip|
    ensures |v| == |chip| - base - slots
  {
    Flipped(chip[base + slots..])
  }

  /** Physical programming is NOR programming of the complemented words, and it stays inside the area. */
  lemma StraightInView(chip: seq<word>, base: nat, slots: nat, slot: nat, values: seq<word>)
    requires base + slots <= |chip| && slot + |values| <= slots
    ensures var chip' := StraightProgram(chip, base + slot, values);
            && ViewOf(chip', base, slots) == ApplyAll(ViewOf(chip, base, slots), Programs(slot, values))
            && BeyondOf(chip', base, slots) == BeyondOf(chip, base, slots)
  {
    hide AndWord, NorProgram, Flip, ApplyAll;
    var chip' := StraightProgram(chip, base + slot, values);
    var before, after := ViewOf(chip, base, slots), ViewOf(chip', base, slots);
    forall i | 0 <= i < slots
      ensures ApplyAll(before, Programs(slot, values))[i] == after[i]
    {
      ProgramsAt(before, slot, values, i);
      if slot <= i < slot + |values| {
        ProgramInView(chip[base + i], values[i - slot]);
      }
    }
    assert ApplyAll(before, Programs(slot, values)) == after;
    BeyondStraight(chip, base, slots, slot, values);
  }

  lemma BeyondStraight(chip: seq<word>, base: nat, slots: nat, slot: nat, values: seq<word>)
    requires base + slots <= |chip| && slot + |values| <= slots
    ensures BeyondOf(StraightProgram(chip, base + slot, values), base, slots) == BeyondOf(chip, base, slots)
  {
    hide AndWord, Flip;
    var chip' := StraightProgram(chip, base + slot, values);
    assert chip'[base + slots..] == chip[base + slots..];
  }

  lemma {:induction false} ProgramsAt(f: seq<word>, slot: nat, values: seq<word>, i: nat)
    requires slot + |values| <= |f| && i < |f|
    ensures ApplyAll(f, Programs(slot, values))[i]
         == if slot <= i < slot + |values| then NorProgram(f[i], values[i - slot]) else f[i]
    decreases |values|
  {
    hide NorProgram;
    if |values| != 0 {
      var ops := Programs(slot, values);
      assert ops[1..] == Programs(slot + 1, values[1..]);
      ProgramsAt(Apply(f, ops[0]), slot + 1, values[1..], i);
    }
  }

  /** The driver. `ops` records, in order, every operation done to the area since `origin`. */
  class BackingStore {
    const chip: array<word>
    const base: nat          // WEAR_LEVELING_RP2040_FLASH_BASE, in words
    const slots: nat         // WEAR_LEVELING_BACKING_SIZE, in words
    const sectorSlots: nat   // FLASH_SECTOR_SIZE, in words
    const bulkWriteBuffer: array<word>
    ghost const origin: seq<word>
    ghost var ops: seq<Op>

    ghost predicate Shape()
      reads this
    {
      && chip != bulkWriteBuffer && bulkWriteBuffer.Length == BATCH
      && chip.Length % PAGE == 0 && base % PAGE == 0 && sectorSlots > 0
      && base + slots + 3 <= chip.Length
    }

    /** The area with erased slots reading 0. */
    ghost function View(): (v: seq<word>)
      requires Shape()
      reads this, chip
      ensures |v| == slots
    {
      ViewOf(chip[..], base, slots)
    }

    /** The words after the area, as the driver would read them. */
    ghost function Beyond(): (v: seq<word>)
      requires Shape()
      reads this, chip
      ensures |v| == chip.Length - base - slots
      ensures |v| >= 3
    {
      BeyondOf(chip[..], base, slots)
    }

    ghost predicate Valid()
      reads this, chip
      ensures Valid() ==> Shape()
    {
      Shape() && |origin| == slots && View() == ApplyAll(origin, ops)
    }

    lemma ViewIsHistory()
      requires Valid()
      ensures View() == ApplyAll(origin, ops)
    {
    }

    constructor (chip: array<word>, base: nat, slots: nat, sectorSlots: nat)
      requires chip.Length % PAGE == 0 && base % PAGE == 0 && sectorSlots > 0 && base + slots + 3 <= chip.Length
      ensures Valid() && fresh(bulkWriteBuffer) && ops == []
      ensures this.chip == chip && this.base == base && this.slots == slots && this.sectorSlots == sectorSlots
    {
      this.chip, this.base, this.slots, this.sectorSlots := chip, base, slots, sectorSlots;
      bulkWriteBuffer := new word[BATCH];
      origin := ViewOf(chip[..], base, slots);
      ops := [];
    }

    /** The flash chip's response to one page-program command with the first `n` buffered words. */
    method SendPageProgram(address: nat, n: nat)
      requires Shape() && n <= BATCH && address + n <= chip.Length
      modifies chip
      ensures chip[..] == PageProgram(old(chip[..]), address, bulkWriteBuffer[..n])
    {
      NoPageWords(chip[..], address, bulkWriteBuffer[..0]);
      for k := 0 to n
        invariant chip[..] == PageProgram(old(chip[..]), address, bulkWriteBuffer[..k])
      {
        NextPageWord(old(chip[..]), address, bulkWriteBuffer[..], k);
        var i := PageSlot(address, k);
        ghost var before := chip[..];
        chip[i] := AndWord(chip[i], bulkWriteBuffer[k]);
        assert chip[..] == before[i := AndWord(before[i], bulkWriteBuffer[k])];
        assert bulkWriteBuffer[..][..k] == bulkWriteBuffer[..k] && bulkWriteBuffer[..][..k + 1] == bulkWriteBuffer[..k + 1];
      }
    }

    /** Programs `values` from `flashAddress` on, through the 64-word bounce buffer. */
    method PicoProgramBulk(flashAddress: nat, values: seq<word>)
      requires Shape() && flashAddress + |values| <= chip.Length
      modifies chip, bulkWriteBuffer
      ensures chip[..] == BulkProgram(old(chip[..]), flashAddress, values)
    {
      hide BulkProgram, PageProgram, Flipped;
      var address, rest := flashAddress, values;
      while |rest| > 0
        invariant address + |rest| == flashAddress + |values|
        invariant BulkProgram(chip[..], address, rest) == BulkProgram(old(chip[..]), flashAddress, values)
        decreases |rest|
      {
        var batch := if |rest| < BATCH then |rest| else BATCH;
        FillBuffer(rest, batch);
        BulkStep(chip[..], address, rest);
        SendPageProgram(address, batch);
        address := address + batch;
        rest := rest[batch..];
      }
      BulkDone(chip[..], address, rest);
    }

    method FillBuffer(values: seq<word>, batch: nat)
      requires Shape() && batch <= |values| && batch <= BATCH
      modifies bulkWriteBuffer
      ensures bulkWriteBuffer[..batch] == Flipped(values[..batch])
    {
      for i := 0 to batch
        invariant forall k :: 0 <= k < i ==> bulkWriteBuffer[k] == Flip(values[k])
      {
        bulkWriteBuffer[i] := Flip(values[i]);
      }
    }

    /** `flash_range_erase` over the whole area. */
    method Erase()
      requires Valid()
      modifies this`ops, chip
      ensures Valid() && ops == old(ops) + EraseOps(slots, sectorSlots, 0)
      ensures Beyond() == old(Beyond())
    {
      hide Flip, Disciplined, ApplyAll, EraseOps;
      ghost var view := View();
      forall i | base <= i < base + slots {
        chip[i] := ERASED_WORD;
      }
      assert BeyondOf(chip[..], base, slots) == BeyondOf(old(chip[..]), base, slots);
      ErasedWordReadsZero();
      EraseRun(view, sectorSlots, 0);
      assert View() == Zeros(slots) == view[..0] + Zeros(slots);
      Concatenation(origin, ops, EraseOps(slots, sectorSlots, 0));
      ops := ops + EraseOps(slots, sectorSlots, 0);
    }

    /** `address` is a byte offset into the area. */
    method WriteBulk(address: nat, values: seq<word>)
      requires Valid() && address % 2 == 0 && address / 2 + |values| <= slots
      requires PageSafe(base + address / 2, |values|)
      modifies this`ops, chip, bulkWriteBuffer
      ensures Valid() && ops == old(ops) + Programs(address / 2, values)
      ensures Beyond() == old(Beyond())
    {
      hide ApplyAll, Programs, PageProgram, BulkProgram, StraightProgram, ViewOf, BeyondOf;
      ghost var before := chip[..];
      PicoProgramBulk(base + address / 2, values);
      BulkIsStraight(before, base + address / 2, values);
      StraightInView(before, base, slots, address / 2, values);
      Concatenation(origin, ops, Programs(address / 2, values));
      ops := ops + Programs(address / 2, values);
    }

    method Write(address: nat, value: word)
      requires Valid() && address % 2 == 0 && address / 2 < slots
      modifies this`ops, chip, bulkWriteBuffer
      ensures Valid() && ops == old(ops) + [Program(address / 2, value)]
      ensures Beyond() == old(Beyond())
    {
      WriteBulk(address, [value]);
      assert Programs(address / 2, [value]) == [Program(address / 2, value)];
    }

    /** Words read back, complemented; reads past the area return whatever the chip holds there. */
    method ReadBulk(address: nat, count: nat) returns (values: seq<word>)
      requires Valid() && address % 2 == 0 && address / 2 + count <= slots + |Beyond()|
      ensures |values| == count
      ensures values == (View() + Beyond())[address / 2..address / 2 + count]
    {
      values := [];
      for i := 0 to count
        invariant values == (View() + Beyond())[address / 2..address / 2 + i]
      {
        values := values + [Flip(chip[base + address / 2 + i])];
      }
    }

    method Read(address: nat) returns (value: word)
      requires Valid() && address % 2 == 0 && address / 2 < slots + |Beyond()|
      ensures value == (View() + Beyond())[address / 2]
    {
      var values := ReadBulk(address, 1);
      value := values[0];
    }
  }

  lemma NoPageWords(chip: seq<word>, address: nat, data: seq<word>)
    requires |data| == 0
    ensures PageProgram(chip, address, data) == chip
  {
  }

  lemma NextPageWord(chip: seq<word>, address: nat, data: seq<word>, k: nat)
    requires k < |data| && k < PAGE && |chip| % PAGE == 0 && address < |chip|
    ensures PageSlot(address, k) < |chip|
    ensures var before, i := PageProgram(chip, address, data[..k]), PageSlot(address, k);
            PageProgram(chip, address, data[..k + 1]) == before[i := AndWord(before[i], data[k])]
  {
    hide AndWord;
    var i := PageSlot(address, k);
    PageSlotInside(address, k, |chip|);
    var before, after := PageProgram(chip, address, data[..k]), PageProgram(chip, address, data[..k + 1]);
    var updated := before[i := AndWord(before[i], data[k])];
    forall j | 0 <= j < |chip|
      ensures after[j] == updated[j]
    {
      DistanceOfSlot(address, k, j);
    }
  }

  lemma PageSlotInside(address: nat, k: nat, size: nat)
    requires size % PAGE == 0 && address < size
    ensures PageSlot(address, k) < size
  {
    var q, n := address / PAGE, size / PAGE;
    assert q < n;
    assert q * PAGE + PAGE <= n * PAGE;
  }

  lemma DistanceOfSlot(address: nat, k: nat, j: nat)
    requires k < PAGE
    ensures j == PageSlot(address, k) <==> j / PAGE == address / PAGE && PageDistance(address, j) == k
  {
    var a, r := address % PAGE, j % PAGE;
    assert j == j / PAGE * PAGE + r;
  }

  lemma BulkStep(chip: seq<word>, address: nat, values: seq<word>)
    requires |values| > 0
    ensures var n := if |values| < BATCH then |values| else BATCH;
            && BulkProgram(chip, address, values)
            == BulkProgram(PageProgram(chip, address, Flipped(values[..n])), address + n, values[n..])
  {
  }

  lemma BulkDone(chip: seq<word>, address: nat, values: seq<word>)
    requires |values| == 0
    ensures BulkProgram(chip, address, values) == chip
  {
  }

  lemma ErasedWordReadsZero()
    ensures Flip(ERASED_WORD) == 0
  {
  }
}
