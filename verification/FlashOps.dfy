/** The backing area as the wear-levelling code sees it: 16-bit slots in complemented form, so that an
    erased slot reads 0 and programming can only set further bits. An operation list is what a call
    does to the area; a power cut leaves some prefix of it done. */
module FlashOps {
  import opened Bits

  datatype Op =
    | Erase(first: nat, end: nat)  // one flash sector, as a range of slots
    | Program(slot: nat, value: word)

  function NorProgram(before: word, value: word): word
  {
    Widths();
    OrBound(before, value, 16);
    Or(before, value)
  }

  function Apply(f: seq<word>, op: Op): (r: seq<word>)
    ensures |r| == |f|
  {
    match op
    case Erase(first, end) => seq(|f|, i requires 0 <= i < |f| => if first <= i < end then 0 else f[i])
    case Program(slot, value) => if slot < |f| then f[slot := NorProgram(f[slot], value)] else f
  }

  function ApplyAll(f: seq<word>, ops: seq<Op>): (r: seq<word>)
    ensures |r| == |f|
    decreases |ops|
  {
    if |ops| == 0 then f else ApplyAll(Apply(f, ops[0]), ops[1..])
  }

  /** Every program operation of the list hits a slot inside the area that is erased at that moment. */
  predicate Disciplined(f: seq<word>, ops: seq<Op>)
    decreases |ops|
  {
    |ops| == 0
    || (&& (ops[0].Program? ==> ops[0].slot < |f| && f[ops[0].slot] == 0)
        && Disciplined(Apply(f, ops[0]), ops[1..]))
  }

  function Zeros(n: nat): (r: seq<word>)
    ensures |r| == n
  {
    seq(n, i => 0)
  }

  function Programs(at: nat, values: seq<word>): (ops: seq<Op>)
    ensures |ops| == |values|
  {
    seq(|values|, i requires 0 <= i < |values| => Program(at + i, values[i]))
  }

  function Overwrite(f: seq<word>, at: nat, values: seq<word>): (r: seq<word>)
    requires at + |values| <= |f|
    ensures |r| == |f|
  {
    f[..at] + values + f[at + |values|..]
  }

  predicate ErasedRange(f: seq<word>, from: nat, to: nat)
  {
    forall i :: from <= i < to && i < |f| ==> f[i] == 0
  }

  lemma {:induction false} Concatenation(f: seq<word>, a: seq<Op>, b: seq<Op>)
    ensures ApplyAll(f, a + b) == ApplyAll(ApplyAll(f, a), b)
    ensures Disciplined(f, a + b) <==> Disciplined(f, a) && Disciplined(ApplyAll(f, a), b)
    decreases |a|
  {
    hide Apply;
    if |a| == 0 {
      assert a + b == b;
    } else {
      assert (a + b)[1..] == a[1..] + b;
      Concatenation(Apply(f, a[0]), a[1..], b);
    }
  }

  /** Programming an erased slot reads back as written. */
  lemma ProgramErased(value: word)
    ensures NorProgram(0, value) == value
  {
    OrZero(value);
  }

  /** Programming consecutive erased slots stores exactly the given words and nothing else. */
  lemma {:induction false} ProgramRun(f: seq<word>, at: nat, values: seq<word>)
    requires at + |values| <= |f| && ErasedRange(f, at, at + |values|)
    ensures Disciplined(f, Programs(at, values))
    ensures ApplyAll(f, Programs(at, values)) == Overwrite(f, at, values)
    decreases |values|
  {
    if |values| == 0 {
      assert Overwrite(f, at, values) == f;
    } else {
      var ops := Programs(at, values);
      assert ops[0] == Program(at, values[0]) && ops[1..] == Programs(at + 1, values[1..]);
      ProgramErased(values[0]);
      hide NorProgram;
      var g := f[at := values[0]];
      assert Apply(f, ops[0]) == g;
      ProgramRun(g, at + 1, values[1..]);
      assert Overwrite(g, at + 1, values[1..]) == Overwrite(f, at, values);
    }
  }

  lemma ProgramsPrefix(at: nat, values: seq<word>, k: nat)
    requires k <= |values|
    ensures Programs(at, values)[..k] == Programs(at, values[..k])
  {
  }

  /** Erasing the area from slot `first` on, sector by sector. */
  function EraseOps(slots: nat, sectorSlots: nat, first: nat): seq<Op>
    requires sectorSlots > 0
    decreases slots - first
  {
    if first >= slots then []
    else
      var end := if first + sectorSlots <= slots then first + sectorSlots else slots;
      [Erase(first, end)] + EraseOps(slots, sectorSlots, end)
  }

  lemma {:induction false} EraseRun(f: seq<word>, sectorSlots: nat, first: nat)
    requires sectorSlots > 0 && first <= |f|
    ensures Disciplined(f, EraseOps(|f|, sectorSlots, first))
    ensures ApplyAll(f, EraseOps(|f|, sectorSlots, first)) == f[..first] + Zeros(|f| - first)
    decreases |f| - first
  {
    var ops := EraseOps(|f|, sectorSlots, first);
    if first < |f| {
      var end := if first + sectorSlots <= |f| then first + sectorSlots else |f|;
      assert ops[0] == Erase(first, end) && ops[1..] == EraseOps(|f|, sectorSlots, end);
      var g := Apply(f, ops[0]);
      EraseRun(g, sectorSlots, end);
      assert g[..end] + Zeros(|f| - end) == f[..first] + Zeros(|f| - first);
    } else {
      assert f == f[..first] + Zeros(0);
    }
  }

  /** Where the last sector begins. */
  function LastSector(slots: nat, sectorSlots: nat, first: nat): (last: nat)
    requires sectorSlots > 0
    ensures first <= last
    decreases slots - first
  {
    if first + sectorSlots >= slots then first else LastSector(slots, sectorSlots, first + sectorSlots)
  }

  /** After some but not all of the sectors are erased, the last sector is still untouched;
      once one is erased, the first sector is clear. */
  lemma {:induction false} PartialErase(f: seq<word>, sectorSlots: nat, first: nat, k: nat)
    requires sectorSlots > 0 && first < |f|
    requires k < |EraseOps(|f|, sectorSlots, first)|
    ensures var g := ApplyAll(f, EraseOps(|f|, sectorSlots, first)[..k]);
            && (forall i :: 0 <= i < |f| && (i < first || i >= LastSector(|f|, sectorSlots, first)) ==> g[i] == f[i])
            && (k > 0 ==> ErasedRange(g, first, first + sectorSlots))
    decreases |f| - first
  {
    var ops := EraseOps(|f|, sectorSlots, first);
    if k > 0 {
      var end := if first + sectorSlots <= |f| then first + sectorSlots else |f|;
      assert ops[..k][0] == Erase(first, end) && ops[..k][1..] == EraseOps(|f|, sectorSlots, end)[..k - 1];
      var g := Apply(f, ops[0]);
      assert end < |f|;
      PartialErase(g, sectorSlots, end, k - 1);
      var h := ApplyAll(g, EraseOps(|f|, sectorSlots, end)[..k - 1]);
      assert ApplyAll(f, ops[..k]) == h;
      assert forall i :: first <= i < end ==> h[i] == g[i] == 0;
    } else {
      assert ops[..0] == [];
    }
  }

  /** Before the last erase, everything below the last sector is clear. */
  lemma {:induction false} AllButLastErased(f: seq<word>, sectorSlots: nat, first: nat)
    requires sectorSlots > 0 && first < |f|
    ensures var ops, last := EraseOps(|f|, sectorSlots, first), LastSector(|f|, sectorSlots, first);
            && |ops| > 0 && last < |f| && (last > first ==> |ops| > 1)
            && ErasedRange(ApplyAll(f, ops[..|ops| - 1]), first, last)
    decreases |f| - first
  {
    var ops := EraseOps(|f|, sectorSlots, first);
    if first + sectorSlots >= |f| {
      assert EraseOps(|f|, sectorSlots, |f|) == [];
      assert ops[..|ops| - 1] == [];
    } else {
      var end := first + sectorSlots;
      var rest := EraseOps(|f|, sectorSlots, end);
      var g := Apply(f, ops[0]);
      AllButLastErased(g, sectorSlots, end);
      PartialErase(g, sectorSlots, end, |rest| - 1);
      var done := ops[..|ops| - 1];
      assert done[0] == ops[0] && done[1..] == rest[..|rest| - 1];
      assert ApplyAll(f, done) == ApplyAll(g, rest[..|rest| - 1]);
    }
  }
}
