/** Fixed-width integers as subset types of `int`, and the bitwise operators the firmware
    uses on them, defined bit by bit. */
module Bits {

  type byte = x: int | 0 <= x < 0x100

  type word = x: int | 0 <= x < 0x1_0000

  type u32 = x: int | 0 <= x < 0x1_0000_0000

  /** A little-endian 32-bit integer. */
  function LeU32(b0: byte, b1: byte, b2: byte, b3: byte): (n: nat)
    ensures n < TWO_32
  {
    (b0 as int) + 0x100 * b1 + 0x1_0000 * b2 + 0x100_0000 * b3
  }

  const TWO_16 := 0x1_0000
  const TWO_32 := 0x1_0000_0000
  const TWO_64 := 0x1_0000_0000_0000_0000

  function Or(a: nat, b: nat): nat
  {
    if a == 0 && b == 0 then 0
    else (if a % 2 == 1 || b % 2 == 1 then 1 else 0) + 2 * Or(a / 2, b / 2)
  }

  function And(a: nat, b: nat): nat
  {
    if a == 0 || b == 0 then 0
    else (if a % 2 == 1 && b % 2 == 1 then 1 else 0) + 2 * And(a / 2, b / 2)
  }

  function Xor(a: nat, b: nat): nat
  {
    if a == 0 && b == 0 then 0
    else (if a % 2 != b % 2 then 1 else 0) + 2 * Xor(a / 2, b / 2)
  }

  function Pow2(k: nat): nat
    ensures Pow2(k) > 0
  {
    if k == 0 then 1 else 2 * Pow2(k - 1)
  }

  lemma Widths()
    ensures Pow2(8) == 0x100 && Pow2(16) == TWO_16 && Pow2(24) == 0x100_0000 && Pow2(32) == TWO_32 && Pow2(64) == TWO_64
  {
    assert Pow2(8) == 0x100;
    assert Pow2(16) == TWO_16;
    assert Pow2(24) == 0x100_0000;
    assert Pow2(32) == TWO_32;
    assert Pow2(40) == 0x100 * TWO_32;
    assert Pow2(48) == TWO_16 * TWO_32;
    assert Pow2(56) == 0x100_0000 * TWO_32;
  }

  lemma {:induction false} OrZero(b: nat)
    ensures Or(0, b) == b
  {
    if b != 0 {
      OrZero(b / 2);
    }
  }

  lemma {:induction false} OrBound(a: nat, b: nat, k: nat)
    requires a < Pow2(k) && b < Pow2(k)
    ensures Or(a, b) < Pow2(k)
  {
    if k != 0 && (a != 0 || b != 0) {
      OrBound(a / 2, b / 2, k - 1);
    }
  }

  lemma {:induction false} AndAtMost(a: nat, b: nat)
    ensures And(a, b) <= a
  {
    if a != 0 && b != 0 {
      AndAtMost(a / 2, b / 2);
    }
  }

  /** De Morgan at width `k`: ANDing complements is complementing the OR. */
  lemma {:induction false} AndOfComplements(a: nat, b: nat, k: nat)
    requires a < Pow2(k) && b < Pow2(k)
    ensures And(Pow2(k) - 1 - a, Pow2(k) - 1 - b) == Pow2(k) - 1 - Or(a, b)
  {
    OrBound(a, b, k);
    if k != 0 {
      AndOfComplements(a / 2, b / 2, k - 1);
      var m := Pow2(k - 1) - 1;
      var x, y := 2 * m + 1 - a, 2 * m + 1 - b;
      assert x / 2 == m - a / 2 && x % 2 == 1 - a % 2;
      assert y / 2 == m - b / 2 && y % 2 == 1 - b % 2;
      OrUnfold(a, b);
      AndUnfold(x, y);
      assert And(x / 2, y / 2) == m - Or(a / 2, b / 2);
      assert And(x, y) == 2 * m + 1 - Or(a, b);
    }
  }

  lemma {:induction false} XorBound(a: nat, b: nat, k: nat)
    requires a < Pow2(k) && b < Pow2(k)
    ensures Xor(a, b) < Pow2(k)
  {
    if k != 0 && (a != 0 || b != 0) {
      XorBound(a / 2, b / 2, k - 1);
    }
  }

  lemma XorHalves(a: nat, b: nat)
    ensures Xor(a, b) / 2 == Xor(a / 2, b / 2)
    ensures Xor(a, b) % 2 == if a % 2 != b % 2 then 1 else 0
  {
    assert a == 0 && b == 0 ==> Xor(a / 2, b / 2) == 0;
  }

  lemma {:induction false} XorCancel(a: nat, b: nat)
    ensures Xor(Xor(a, b), b) == a
  {
    if a != 0 || b != 0 {
      var x := Xor(a, b);
      XorCancel(a / 2, b / 2);
      XorHalves(a, b);
      XorHalves(x, b);
    }
  }

  lemma {:induction false} XorCommutes(a: nat, b: nat)
    ensures Xor(a, b) == Xor(b, a)
  {
    if a != 0 || b != 0 {
      XorCommutes(a / 2, b / 2);
    }
  }

  lemma {:induction false} XorZero(a: nat)
    ensures Xor(a, 0) == a
  {
    if a != 0 {
      XorZero(a / 2);
    }
  }

  /** XOR with a `k`-bit number leaves everything above bit `k` alone. */
  lemma {:induction false} XorSplit(q: nat, r: nat, b: nat, k: nat)
    requires r < Pow2(k) && b < Pow2(k)
    ensures q * Pow2(k) >= 0
    ensures Xor(q * Pow2(k) + r, b) == q * Pow2(k) + Xor(r, b)
  {
    if k == 0 {
      XorZero(q);
    } else {
      var p := Pow2(k - 1);
      var n := q * p;
      assert q * Pow2(k) == 2 * n;
      XorSplit(q, r / 2, b / 2, k - 1);
      assert (2 * n + r) / 2 == n + r / 2 && (2 * n + r) % 2 == r % 2;
    }
  }

  lemma DivModUnique(a: int, d: int, q: int, r: int)
    requires d > 0 && 0 <= r < d && a == d * q + r
    ensures a / d == q && a % d == r
  {
    var e := a / d - q;
    assert d * e == r - a % d;
    assert e >= 1 ==> d * e >= d;
    assert e <= -1 ==> d * e <= -d;
  }

  /** ORing in bits above a number adds them to it. */
  lemma {:induction false} OrAbove(a: nat, b: nat, k: nat)
    requires a < Pow2(k)
    ensures b * Pow2(k) >= 0 && Or(a, b * Pow2(k)) == a + b * Pow2(k)
    decreases k
  {
    if k == 0 {
      OrZero(b);
    } else {
      var n := b * Pow2(k - 1);
      assert b * Pow2(k) == 2 * n;
      OrAbove(a / 2, b, k - 1);
      OrUnfold(a, 2 * n);
    }
  }

  /** Bit `k` of a number. */
  predicate BitSet(a: nat, k: nat)
  {
    a / Pow2(k) % 2 == 1
  }

  lemma BitOfHalf(a: nat, k: nat)
    requires k > 0
    ensures BitSet(a, k) <==> BitSet(a / 2, k - 1)
  {
    var p := Pow2(k - 1);
    DivModUnique(a, 2 * p, a / 2 / p, 2 * (a / 2 % p) + a % 2);
  }

  /** AND works bit by bit. */
  lemma {:induction false} AndBits(a: nat, b: nat, k: nat)
    ensures BitSet(And(a, b), k) <==> BitSet(a, k) && BitSet(b, k)
    decreases k
  {
    AndUnfold(a, b);
    if k == 0 {
      assert Pow2(0) == 1;
    } else {
      AndBits(a / 2, b / 2, k - 1);
      BitOfHalf(a, k);
      BitOfHalf(b, k);
      BitOfHalf(And(a, b), k);
    }
  }

  lemma AndUnfold(a: nat, b: nat)
    ensures And(a, b) == (if a % 2 == 1 && b % 2 == 1 then 1 else 0) + 2 * And(a / 2, b / 2)
  {
  }

  lemma OrUnfold(a: nat, b: nat)
    ensures Or(a, b) == (if a % 2 == 1 || b % 2 == 1 then 1 else 0) + 2 * Or(a / 2, b / 2)
  {
  }

  /** XOR gives all ones exactly for a number and its complement. */
  lemma {:induction false} XorComplement(a: nat, b: nat, k: nat)
    requires a < Pow2(k) && b < Pow2(k)
    ensures Xor(a, b) == Pow2(k) - 1 <==> a + b == Pow2(k) - 1
  {
    if k != 0 {
      XorComplement(a / 2, b / 2, k - 1);
      XorBound(a / 2, b / 2, k - 1);
      XorHalves(a, b);
      var x, m := Xor(a, b), Pow2(k - 1) - 1;
      assert x == 2 * (x / 2) + x % 2 && a == 2 * (a / 2) + a % 2 && b == 2 * (b / 2) + b % 2;
      assert Pow2(k) - 1 == 2 * m + 1;
    }
  }

  /** XOR with all ones is the complement. */
  lemma XorOnes(a: nat, k: nat)
    requires a < Pow2(k)
    ensures Xor(a, Pow2(k) - 1) == Pow2(k) - 1 - a
  {
    var m := Pow2(k) - 1;
    XorComplement(a, m - a, k);
    XorCancel(m - a, a);
    XorCommutes(a, m - a);
    XorCommutes(a, m);
  }

  // ----- Little-endian bytes

  function Le32(x: u32): (r: seq<byte>)
    ensures |r| == 4
  {
    [x % 0x100, x / 0x100 % 0x100, x / 0x1_0000 % 0x100, x / 0x100_0000]
  }

  lemma Le32Decodes(x: u32)
    ensures LeU32(x % 0x100, x / 0x100 % 0x100, x / 0x1_0000 % 0x100, x / 0x100_0000) == x
  {
    var q1 := x / 0x100;
    var q2 := q1 / 0x100;
    var q3 := q2 / 0x100;
    DivModUnique(x, 0x1_0000, q2, q1 % 0x100 * 0x100 + x % 0x100);
    DivModUnique(x, 0x100_0000, q3, q2 % 0x100 * 0x1_0000 + q1 % 0x100 * 0x100 + x % 0x100);
  }

  lemma StoredWord(b0: byte, b1: byte, b2: byte, b3: byte)
    ensures var w := LeU32(b0, b1, b2, b3);
            w % 0x100 == b0 && w / 0x100 % 0x100 == b1 && w / 0x1_0000 % 0x100 == b2 && w / 0x100_0000 == b3
  {
    var w := LeU32(b0, b1, b2, b3);
    DivModUnique(w, 0x100, b1 + 0x100 * b2 + 0x1_0000 * b3, b0);
    DivModUnique(b1 + 0x100 * b2 + 0x1_0000 * b3, 0x100, b2 + 0x100 * b3, b1);
    DivModUnique(w, 0x1_0000, b2 + 0x100 * b3, b0 + 0x100 * b1);
    DivModUnique(b2 + 0x100 * b3, 0x100, b3, b2);
    DivModUnique(w, 0x100_0000, b3, b0 + 0x100 * b1 + 0x1_0000 * b2);
  }

  /** A little-endian integer and its bytes determine each other. */
  lemma LeU32Digits(b0: byte, b1: byte, b2: byte, b3: byte, n: u32)
    ensures LeU32(b0, b1, b2, b3) == n <==>
              b0 == n % 0x100 && b1 == n / 0x100 % 0x100 && b2 == n / 0x1_0000 % 0x100 && b3 == n / 0x100_0000
  {
    hide LeU32;
    Le32Decodes(n);
    StoredWord(b0, b1, b2, b3);
  }
}
