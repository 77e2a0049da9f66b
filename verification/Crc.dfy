/** CRC-32 as the modchip and its host compute it (fruitchip-include/crc32.h): polynomial 0x04C11DB7
    (section 3.2.9 of IEEE 802.3), most significant bit first, initial value 0xFFFFFFFF and no final
    complement. The nibble-table loop is checked against bit-by-bit division.

    Bit-vector terms are expensive for the verifier, so every lemma about bits is small and the lemmas
    built on them hide the bit-level definitions. */
module Crc {
  import opened Bits

  /** A 32-bit register. */
  datatype U32 = U32(bits: bv32)

  const POLYNOMIAL: bv32 := 0x04C11DB7
  const ZERO := U32(0)
  const INITIAL := U32(0xFFFF_FFFF)

  const LUT: seq<bv32> := [
    0x00000000, 0x04C11DB7, 0x09823B6E, 0x0D4326D9,
    0x130476DC, 0x17C56B6B, 0x1A864DB2, 0x1E475005,
    0x2608EDB8, 0x22C9F00F, 0x2F8AD6D6, 0x2B4BCB61,
    0x350C9B64, 0x31CD86D3, 0x3C8EA00A, 0x384FBDBD
  ]

  // ----- Reference definition: polynomial division, one message bit at a time

  predicate TopSet(c: U32)
  {
    c.bits >> 31 == 1
  }

  /** One division step: shift the next message bit into the remainder. */
  function FeedBit(c: U32, one: bool): U32
  {
    if TopSet(c) == one then U32(c.bits << 1) else U32((c.bits << 1) ^ POLYNOMIAL)
  }

  /** The top `k` bits of `b`, most significant first. */
  function FeedBits(c: U32, b: bv8, k: nat): U32
    decreases k
  {
    if k == 0 then c else FeedBits(FeedBit(c, b >> 7 == 1), b << 1, k - 1)
  }

  function CrcFrom(c: U32, data: seq<byte>): U32
  {
    if |data| == 0 then c
    else FeedBits(CrcFrom(c, data[..|data| - 1]), data[|data| - 1] as bv8, 8)
  }

  function Crc32(data: seq<byte>): u32
  {
    CrcFrom(INITIAL, data).bits as nat
  }

  // ----- The register under XOR

  function XorU32(a: U32, b: U32): U32
  {
    U32(a.bits ^ b.bits)
  }

  lemma XorAssociates(a: U32, b: U32, c: U32)
    ensures XorU32(XorU32(a, b), c) == XorU32(a, XorU32(b, c))
  {
  }

  lemma XorCommutes(a: U32, b: U32)
    ensures XorU32(a, b) == XorU32(b, a)
  {
  }

  lemma XorWithZero(a: U32)
    ensures XorU32(a, ZERO) == a
  {
  }

  lemma XorSelf(a: U32)
    ensures XorU32(a, a) == ZERO
  {
  }

  lemma XorEqual(a: U32, b: U32)
    requires XorU32(a, b) == ZERO
    ensures a == b
  {
  }

  lemma XorInjective(c: U32, a: U32, b: U32)
    requires XorU32(c, a) == XorU32(c, b)
    ensures a == b
  {
  }

  // ----- Division steps with zero message bits

  function Step(c: U32): U32
  {
    if TopSet(c) then U32((c.bits << 1) ^ POLYNOMIAL) else U32(c.bits << 1)
  }

  function Steps(n: nat, c: U32): U32
  {
    if n == 0 then c else Steps(n - 1, Step(c))
  }

  lemma StepLinear(a: U32, b: U32)
    ensures Step(XorU32(a, b)) == XorU32(Step(a), Step(b))
  {
    hide Step, XorU32, TopSet;
    if TopSet(a) {
      if TopSet(b) {
        StepLinearSetSet(a, b);
      } else {
        StepLinearSetClear(a, b);
      }
    } else if TopSet(b) {
      StepLinearSetClear(b, a);
      XorCommutes(a, b);
      XorCommutes(Step(a), Step(b));
    } else {
      StepLinearClearClear(a, b);
    }
  }

  lemma StepLinearSetSet(a: U32, b: U32)
    requires TopSet(a) && TopSet(b)
    ensures Step(XorU32(a, b)) == XorU32(Step(a), Step(b))
  {
  }

  lemma StepLinearSetClear(a: U32, b: U32)
    requires TopSet(a) && !TopSet(b)
    ensures Step(XorU32(a, b)) == XorU32(Step(a), Step(b))
  {
  }

  lemma StepLinearClearClear(a: U32, b: U32)
    requires !TopSet(a) && !TopSet(b)
    ensures Step(XorU32(a, b)) == XorU32(Step(a), Step(b))
  {
  }

  /** The polynomial is odd, so no state other than zero steps to zero. */
  lemma StepKernel(a: U32)
    requires Step(a) == ZERO
    ensures a == ZERO
  {
  }

  lemma {:induction false} StepsLinear(n: nat, a: U32, b: U32)
    ensures Steps(n, XorU32(a, b)) == XorU32(Steps(n, a), Steps(n, b))
  {
    hide Step, XorU32;
    if n != 0 {
      StepLinear(a, b);
      StepsLinear(n - 1, Step(a), Step(b));
    }
  }

  lemma {:induction false} StepsKernel(n: nat, a: U32)
    requires Steps(n, a) == ZERO
    ensures a == ZERO
  {
    hide Step;
    if n != 0 {
      StepsKernel(n - 1, Step(a));
      StepKernel(a);
    }
  }

  /** Division steps lose nothing. */
  lemma StepsInjective(n: nat, a: U32, b: U32)
    requires Steps(n, a) == Steps(n, b)
    ensures a == b
  {
    hide *;
    StepsLinear(n, a, b);
    XorSelf(Steps(n, a));
    StepsKernel(n, XorU32(a, b));
    XorEqual(a, b);
  }

  lemma {:induction false} StepsAdd(m: nat, n: nat, c: U32)
    ensures Steps(m + n, c) == Steps(n, Steps(m, c))
  {
    hide Step;
    if m != 0 {
      StepsAdd(m - 1, n, Step(c));
    }
  }

  // ----- Feeding a byte is XOR at the top, then eight zero steps

  /** `b` at the top of a register. */
  function Top(b: bv8): U32
  {
    U32((b as bv32) << 24)
  }

  /** `b` shifted left `k` times. */
  function Shifted(b: bv8, k: nat): bv8
    decreases k
  {
    if k == 0 then b else Shifted(b << 1, k - 1)
  }

  function TopBit(one: bool): U32
  {
    if one then U32(0x8000_0000) else ZERO
  }

  function Half(c: U32): U32
  {
    U32(c.bits >> 1)
  }

  /** One step with the message bit XORed in beforehand: the rest of the byte moves up. */
  lemma FeedBitAgainst(c: U32, b: bv8)
    ensures Step(XorU32(c, Top(b))) == XorU32(FeedBit(c, b >> 7 == 1), Top(b << 1))
  {
    hide *;
    var one, r := b >> 7 == 1, Top(b << 1);
    TopSplits(b);
    StepOfHalf(b << 1);
    XorAssociates(c, TopBit(one), Half(r));
    StepLinear(XorU32(c, TopBit(one)), Half(r));
    FlipTop(c, one);
  }

  lemma TopSplits(b: bv8)
    ensures Top(b) == XorU32(TopBit(b >> 7 == 1), Half(Top(b << 1)))
  {
  }

  lemma StepOfHalf(b: bv8)
    ensures Step(Half(Top(b))) == Top(b)
  {
  }

  lemma FlipTop(c: U32, one: bool)
    ensures Step(XorU32(c, TopBit(one))) == FeedBit(c, one)
  {
    hide Step, XorU32, TopSet, FeedBit;
    if one {
      if TopSet(c) {
        FlipTopSet(c);
      } else {
        FlipTopClear(c);
      }
    } else {
      XorWithZero(c);
      StepIsFeedZero(c);
    }
  }

  lemma FlipTopSet(c: U32)
    requires TopSet(c)
    ensures Step(XorU32(c, U32(0x8000_0000))) == FeedBit(c, true)
  {
  }

  lemma FlipTopClear(c: U32)
    requires !TopSet(c)
    ensures Step(XorU32(c, U32(0x8000_0000))) == FeedBit(c, true)
  {
  }

  lemma StepIsFeedZero(c: U32)
    ensures Step(c) == FeedBit(c, false)
  {
    hide TopSet;
  }

  lemma {:induction false} FeedBitsAgainst(c: U32, b: bv8, k: nat)
    ensures Steps(k, XorU32(c, Top(b))) == XorU32(FeedBits(c, b, k), Top(Shifted(b, k)))
    decreases k
  {
    hide Step, XorU32, FeedBit, Top;
    if k != 0 {
      FeedBitAgainst(c, b);
      FeedBitsAgainst(FeedBit(c, b >> 7 == 1), b << 1, k - 1);
    }
  }

  lemma FeedByte(c: U32, b: bv8)
    ensures Steps(8, XorU32(c, Top(b))) == FeedBits(c, b, 8)
  {
    hide *;
    FeedBitsAgainst(c, b, 8);
    NothingLeft(b);
    XorWithZero(FeedBits(c, b, 8));
  }

  lemma NothingLeft(b: bv8)
    ensures Top(Shifted(b, 8)) == ZERO
  {
    var b1 := b << 1;
    var b2 := b1 << 1;
    var b3 := b2 << 1;
    var b4 := b3 << 1;
    var b5 := b4 << 1;
    var b6 := b5 << 1;
    var b7 := b6 << 1;
    var b8 := b7 << 1;
    assert Shifted(b, 8) == Shifted(b1, 7) == Shifted(b2, 6) == Shifted(b3, 5) == Shifted(b4, 4);
    assert Shifted(b4, 4) == Shifted(b5, 3) == Shifted(b6, 2) == Shifted(b7, 1) == Shifted(b8, 0);
    assert b8 == 0;
  }

  // ----- The nibble table

  function Lookup(n: bv32): bv32
    requires n <= 15
  {
    LUT[n as int]
  }

  function Up4(c: U32): U32
  {
    U32(c.bits << 4)
  }

  function Entry(c: U32): U32
  {
    U32(Lookup(c.bits >> 28))
  }

  function NibbleStep(c: U32): U32
  {
    XorU32(Up4(c), Entry(c))
  }

  lemma StepsFour(c: U32)
    ensures Steps(4, c) == Step(Step(Step(Step(c))))
  {
    hide Step;
    var c1 := Step(c);
    var c2 := Step(c1);
    var c3 := Step(c2);
    assert Steps(3, c1) == Steps(2, c2) == Steps(1, c3) == Step(c3);
  }

  function High(c: U32): U32
  {
    U32((c.bits >> 28) << 28)
  }

  function Low(c: U32): U32
  {
    U32(c.bits & 0x0FFF_FFFF)
  }

  lemma HighAndLow(c: U32)
    ensures XorU32(High(c), Low(c)) == c
  {
  }

  /** Every table entry is what four division steps leave of its index. */
  lemma TableEntry(n: bv32)
    requires n <= 15
    ensures Step(Step(Step(Step(U32(n << 28))))) == U32(Lookup(n))
  {
    if n == 0 {} else if n == 1 {} else if n == 2 {} else if n == 3 {}
    else if n == 4 {} else if n == 5 {} else if n == 6 {} else if n == 7 {}
    else if n == 8 {} else if n == 9 {} else if n == 10 {} else if n == 11 {}
    else if n == 12 {} else if n == 13 {} else if n == 14 {} else { assert n == 15; }
  }

  lemma HighBecomesEntry(c: U32)
    ensures Step(Step(Step(Step(High(c))))) == Entry(c)
  {
    hide Step, Lookup;
    assert c.bits >> 28 <= 15;
    TableEntry(c.bits >> 28);
  }

  lemma LowMovesUp(c: U32)
    ensures Step(Step(Step(Step(Low(c))))) == Up4(c)
  {
  }

  /** Four division steps at once by table lookup. */
  lemma TableIsFourSteps(c: U32)
    ensures NibbleStep(c) == Steps(4, c)
  {
    hide *;
    HighAndLow(c);
    StepsLinear(4, High(c), Low(c));
    StepsFour(High(c));
    StepsFour(Low(c));
    HighBecomesEntry(c);
    LowMovesUp(c);
    XorCommutes(Up4(c), Entry(c));
    UnfoldNibbleStep(c);
  }

  lemma UnfoldNibbleStep(c: U32)
    ensures NibbleStep(c) == XorU32(Up4(c), Entry(c))
  {
    hide Up4, Entry, XorU32;
  }

  /** What the body of the loop does with one byte. */
  lemma TwoNibbles(c: U32, b: bv8)
    ensures NibbleStep(NibbleStep(XorU32(c, Top(b)))) == FeedBits(c, b, 8)
  {
    hide *;
    var x := XorU32(c, Top(b));
    FeedByte(c, b);
    TableIsFourSteps(x);
    TableIsFourSteps(NibbleStep(x));
    StepsAdd(4, 4, x);
  }

  lemma CrcExtend(c: U32, data: seq<byte>, i: nat)
    requires i < |data|
    ensures CrcFrom(c, data[..i + 1]) == FeedBits(CrcFrom(c, data[..i]), data[i] as bv8, 8)
  {
    hide FeedBits;
    assert data[..i + 1][..i] == data[..i];
  }

  /** The table-driven loop computes the bit-by-bit remainder. */
  method Crc32Table(data: array<byte>, len: nat) returns (crc: U32)
    requires len <= data.Length
    ensures crc.bits as nat == Crc32(data[..len])
  {
    hide FeedBits, XorU32, Up4, Entry, Top, Step, Steps;
    crc := U32(0xFFFFFFFF);
    for i := 0 to len
      invariant crc == CrcFrom(INITIAL, data[..i])
    {
      CrcExtend(INITIAL, data[..], i);
      assert data[..i] == data[..][..i] && data[..i + 1] == data[..][..i + 1];
      TwoNibbles(crc, data[i] as bv8);
      crc := XorU32(crc, Top(data[i] as bv8));
      crc := XorU32(Up4(crc), Entry(crc));
      crc := XorU32(Up4(crc), Entry(crc));
    }
  }

  // ----- The partition builder's version (fruitchip-fw-apps/build_apps_partition.py)

  /** A register held in a wider integer, as in Python, where integers do not overflow. */
  function Wide(c: U32): bv64
  {
    Widened(c.bits)
  }

  function Widened(bits: bv32): bv64
  {
    bits as bv64
  }

  lemma WideNibbleStep(c: U32)
    ensures Wide(c) >> 28 <= 15 && (Wide(c) >> 28) as bv32 == c.bits >> 28 && c.bits >> 28 <= 15
    ensures ((Wide(c) << 4) ^ Wide(Entry(c))) & 0xFFFF_FFFF == Wide(NibbleStep(c))
  {
    WideShift(c);
    WideStep(c, Entry(c));
    UnfoldNibbleStep(c);
  }

  lemma WideShift(c: U32)
    ensures Wide(c) >> 28 <= 15 && (Wide(c) >> 28) as bv32 == c.bits >> 28 && c.bits >> 28 <= 15
  {
  }

  lemma WideStep(c: U32, e: U32)
    ensures ((Wide(c) << 4) ^ Wide(e)) & 0xFFFF_FFFF == Wide(XorU32(Up4(c), e))
  {
  }

  lemma WideTop(c: U32, b: bv8)
    ensures Wide(c) ^ ((b as bv64) << 24) == Wide(XorU32(c, Top(b)))
  {
  }

  lemma WideNarrow(c: U32)
    ensures U32((Wide(c) & 0xFFFF_FFFF) as bv32) == c
  {
  }

  /** The builder masks after each shift instead of relying on 32-bit registers; the result is the same. */
  method BuilderCrc32(data: seq<byte>) returns (crc: U32)
    ensures crc.bits as nat == Crc32(data)
  {
    hide FeedBits, XorU32, Up4, Entry, Top, Step, Steps, NibbleStep, Wide;
    ghost var state := INITIAL;
    var wide: bv64 := 0xFFFF_FFFF;
    WideInitial();
    for i := 0 to |data|
      invariant state == CrcFrom(INITIAL, data[..i]) && wide == Wide(state)
    {
      CrcExtend(INITIAL, data, i);
      TwoNibbles(state, data[i] as bv8);
      WideTop(state, data[i] as bv8);
      wide := wide ^ (((data[i] as bv8) as bv64) << 24);
      state := XorU32(state, Top(data[i] as bv8));
      wide := WideNibble(wide, state);
      state := NibbleStep(state);
      wide := WideNibble(wide, state);
      state := NibbleStep(state);
    }
    assert data[..|data|] == data;
    WideNarrow(state);
    crc := U32((wide & 0xFFFF_FFFF) as bv32);
  }

  lemma WideInitial()
    ensures Wide(INITIAL) == 0xFFFF_FFFF
  {
  }

  method WideNibble(wide: bv64, ghost state: U32) returns (next: bv64)
    requires wide == Wide(state)
    ensures next == Wide(NibbleStep(state))
  {
    hide Wide, Lookup, NibbleStep, Entry;
    WideNibbleStep(state);
    var entry := Lookup((wide >> 28) as bv32);
    WideEntry(state, entry);
    next := ((wide << 4) ^ Widened(entry)) & 0xFFFF_FFFF;
  }

  lemma WideEntry(c: U32, entry: bv32)
    requires c.bits >> 28 <= 15 && entry == Lookup(c.bits >> 28)
    ensures Widened(entry) == Wide(Entry(c))
  {
    hide *;
    EntryIs(c);
    WideIs(Entry(c));
  }

  lemma EntryIs(c: U32)
    requires c.bits >> 28 <= 15
    ensures Entry(c).bits == Lookup(c.bits >> 28)
  {
    hide Lookup;
  }

  lemma WideIs(c: U32)
    ensures Wide(c) == Widened(c.bits)
  {
  }

  // ----- Composition and error detection

  lemma {:induction false} Concatenation(c: U32, a: seq<byte>, b: seq<byte>)
    ensures CrcFrom(c, a + b) == CrcFrom(CrcFrom(c, a), b)
  {
    hide FeedBits;
    if |b| == 0 {
      assert a + b == a;
    } else {
      Concatenation(c, a, b[..|b| - 1]);
      assert (a + b)[..|a + b| - 1] == a + b[..|b| - 1];
    }
  }

  lemma CrcFromFront(c: U32, data: seq<byte>)
    requires |data| != 0
    ensures CrcFrom(c, data) == CrcFrom(FeedBits(c, data[0] as bv8, 8), data[1..])
  {
    hide FeedBits;
    var first := [data[0]];
    assert data == first + data[1..];
    Concatenation(c, first, data[1..]);
    assert first[..0] == [];
    assert CrcFrom(c, []) == c;
  }

  lemma {:induction false} StateInjective(c: U32, d: U32, data: seq<byte>)
    requires CrcFrom(c, data) == CrcFrom(d, data)
    ensures c == d
  {
    hide FeedBits;
    if |data| != 0 {
      var prefix, b := data[..|data| - 1], data[|data| - 1] as bv8;
      FeedByteInjectiveInState(CrcFrom(c, prefix), CrcFrom(d, prefix), b);
      StateInjective(c, d, prefix);
    }
  }

  lemma FeedByteInjectiveInState(c: U32, d: U32, b: bv8)
    requires FeedBits(c, b, 8) == FeedBits(d, b, 8)
    ensures c == d
  {
    hide *;
    FeedByte(c, b);
    FeedByte(d, b);
    StepsInjective(8, XorU32(c, Top(b)), XorU32(d, Top(b)));
    XorCommutes(c, Top(b));
    XorCommutes(d, Top(b));
    XorInjective(Top(b), c, d);
  }

  /** Up to four bytes, left-aligned in a register. */
  function Window(u: seq<byte>): U32
    requires |u| <= 4
  {
    if |u| == 0 then ZERO else XorU32(Top(u[0] as bv8), Down8(Window(u[1..])))
  }

  function Down8(c: U32): U32
  {
    U32(c.bits >> 8)
  }

  /** Fewer than four bytes in a window leave its last byte free. */
  predicate LastByteFree(c: U32)
  {
    (c.bits >> 8) << 8 == c.bits
  }

  predicate LastTwoBytesFree(c: U32)
  {
    (c.bits >> 16) << 16 == c.bits
  }

  lemma WindowRoom(u: seq<byte>)
    requires |u| <= 3
    ensures LastByteFree(Window(u))
    ensures |u| <= 2 ==> LastTwoBytesFree(Window(u))
  {
    hide XorU32, Top, Down8, LastByteFree, LastTwoBytesFree;
    if |u| == 0 {
      EmptyHasRoom();
    } else if |u| == 3 {
      WindowRoom(u[1..]);
      RoomLeft(u[0] as bv8, Window(u[1..]));
    } else if |u| == 2 {
      assert Window(u[2..]) == ZERO;
      EmptyHasRoom();
      OneByteRoom(u[1] as bv8);
      RoomLeftTwo(u[0] as bv8, u[1] as bv8);
    } else {
      assert Window(u[1..]) == ZERO;
      OneByteRoom(u[0] as bv8);
    }
  }

  lemma EmptyHasRoom()
    ensures LastByteFree(ZERO) && LastTwoBytesFree(ZERO)
  {
  }

  lemma OneByteRoom(b: bv8)
    ensures LastByteFree(XorU32(Top(b), Down8(ZERO))) && LastTwoBytesFree(XorU32(Top(b), Down8(ZERO)))
  {
  }

  lemma RoomLeft(b: bv8, w: U32)
    requires LastTwoBytesFree(w)
    ensures LastByteFree(XorU32(Top(b), Down8(w)))
  {
  }

  lemma RoomLeftTwo(a: bv8, b: bv8)
    ensures LastByteFree(XorU32(Top(a), Down8(XorU32(Top(b), Down8(ZERO)))))
    ensures LastTwoBytesFree(XorU32(Top(a), Down8(XorU32(Top(b), Down8(ZERO)))))
  {
  }

  /** With the top byte clear, eight steps only shift. */
  lemma EightStepsShift(w: U32)
    requires LastByteFree(w)
    ensures Steps(8, Down8(w)) == w
  {
    hide *;
    StepsAdd(4, 4, Down8(w));
    StepsFour(Down8(w));
    FourStepsShift(w);
    StepsFour(Down4(w));
    FourStepsShiftAgain(w);
  }

  function Down4(c: U32): U32
  {
    U32(c.bits >> 4)
  }

  lemma FourStepsShift(w: U32)
    requires LastByteFree(w)
    ensures Step(Step(Step(Step(Down8(w))))) == Down4(w)
  {
  }

  lemma FourStepsShiftAgain(w: U32)
    requires LastByteFree(w)
    ensures Step(Step(Step(Step(Down4(w))))) == w
  {
  }

  /** A message of at most four bytes acts as if it were XORed into the state at once. */
  lemma {:induction false} FeedWindow(c: U32, u: seq<byte>)
    requires |u| <= 4
    ensures CrcFrom(c, u) == Steps(8 * |u|, XorU32(c, Window(u)))
    decreases |u|
  {
    hide FeedBits, XorU32, Top, Down8, Step, Steps, LastByteFree, LastTwoBytesFree;
    if |u| == 0 {
      XorWithZero(c);
      NoSteps(c);
    } else {
      var b, rest := u[0] as bv8, u[1..];
      var w := Window(rest);
      CrcFromFront(c, u);
      FeedWindow(FeedBits(c, b, 8), rest);
      FeedByte(c, b);
      WindowRoom(rest);
      EightStepsShift(w);
      StepsLinear(8, XorU32(c, Top(b)), Down8(w));
      XorAssociates(c, Top(b), Down8(w));
      StepsAdd(8, 8 * |rest|, XorU32(c, Window(u)));
    }
  }

  lemma NoSteps(c: U32)
    ensures Steps(0, c) == c
  {
  }

  lemma TopByteDetermined(a: bv8, b: bv8, x: U32, y: U32)
    requires LastByteFree(x) && LastByteFree(y)
    requires XorU32(Top(a), Down8(x)) == XorU32(Top(b), Down8(y))
    ensures a == b && x == y
  {
  }

  lemma Successor(v: bv8)
    requires v as int < 0xFF
    ensures (v + 1) as int == v as int + 1
  {
  }

  lemma BitsThroughByte(v: bv8)
    ensures (v as int) as bv8 == v
  {
  }

  lemma {:induction false} BitsOfByte(a: nat) returns (v: bv8)
    requires a < 0x100
    ensures v as int == a
  {
    if a == 0 {
      v := 0;
    } else {
      v := BitsOfByte(a - 1);
      Successor(v);
      v := v + 1;
    }
  }

  lemma ByteThroughBits(a: byte)
    ensures (a as bv8) as int == a
  {
    var v := BitsOfByte(a);
    BitsThroughByte(v);
  }

  lemma ByteConversionInjective(a: byte, b: byte)
    requires a as bv8 == b as bv8
    ensures a == b
  {
    ByteThroughBits(a);
    ByteThroughBits(b);
  }

  lemma {:induction false} WindowInjective(u: seq<byte>, v: seq<byte>)
    requires |u| == |v| <= 4
    requires Window(u) == Window(v)
    ensures u == v
  {
    hide XorU32, Top, Down8, LastByteFree, LastTwoBytesFree;
    if |u| != 0 {
      WindowRoom(u[1..]);
      WindowRoom(v[1..]);
      TopByteDetermined(u[0] as bv8, v[0] as bv8, Window(u[1..]), Window(v[1..]));
      ByteConversionInjective(u[0], v[0]);
      WindowInjective(u[1..], v[1..]);
      assert u == [u[0]] + u[1..] && v == [v[0]] + v[1..];
    }
  }

  /** Messages that differ only inside a window of at most four bytes never collide. */
  lemma BurstDetected(before: seq<byte>, u: seq<byte>, v: seq<byte>, after: seq<byte>)
    requires |u| == |v| <= 4 && u != v
    ensures Crc32(before + u + after) != Crc32(before + v + after)
  {
    hide CrcFrom, XorU32, Window, Steps;
    var c := CrcFrom(INITIAL, before);
    Concatenation(INITIAL, before + u, after);
    Concatenation(INITIAL, before, u);
    Concatenation(INITIAL, before + v, after);
    Concatenation(INITIAL, before, v);
    if Crc32(before + u + after) == Crc32(before + v + after) {
      RegisterConversionInjective(CrcFrom(INITIAL, before + u + after), CrcFrom(INITIAL, before + v + after));
      StateInjective(CrcFrom(c, u), CrcFrom(c, v), after);
      FeedWindow(c, u);
      FeedWindow(c, v);
      StepsInjective(8 * |u|, XorU32(c, Window(u)), XorU32(c, Window(v)));
      XorInjective(c, Window(u), Window(v));
      WindowInjective(u, v);
    }
  }

  lemma RegisterThroughNat(c: bv32)
    ensures (c as nat) as bv32 == c
  {
  }

  lemma RegisterConversionInjective(c: U32, d: U32)
    requires c.bits as nat == d.bits as nat
    ensures c == d
  {
    RegisterThroughNat(c.bits);
    RegisterThroughNat(d.bits);
  }

  /** The case the flash commands rely on: one changed byte. */
  lemma ByteChangeDetected(data: seq<byte>, i: nat, b: byte)
    requires i < |data| && data[i] != b
    ensures Crc32(data[i := b]) != Crc32(data)
  {
    hide Crc32;
    BurstDetected(data[..i], [b], [data[i]], data[i + 1..]);
    assert data == data[..i] + [data[i]] + data[i + 1..];
    assert data[i := b] == data[..i] + [b] + data[i + 1..];
  }
}
