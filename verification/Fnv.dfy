/** The 64-bit FNV-1a hash (fruitchip-fw/lib/fnv/hash_64a.c), in the shift-and-add form the firmware
    is built with and in the base 2^16 limb form, both against the definition in section 2 of
    draft-eastlake-fnv: XOR the octet into the hash, then multiply by the prime modulo 2^64. */
module Fnv {
  import opened Bits

  type u64 = x: int | 0 <= x < TWO_64

  const FNV_64_PRIME := 0x100000001b3
  const FNV_64_PRIME_LOW := 0x1b3
  const FNV1A_64_INIT: u64 := 0xcbf29ce484222325

  /** The inverse of the prime modulo 2^64. */
  const PRIME_INVERSE := 0xce965057aff6957b

  lemma XorIsU64(h: u64, b: byte)
    ensures 0 <= Xor(h, b) < TWO_64
  {
    Widths();
    XorBound(h, b, 64);
  }

  /** One octet: XOR, then multiply modulo 2^64. */
  function Absorb(h: u64, b: byte): u64
  {
    Xor(h, b) * FNV_64_PRIME % TWO_64
  }

  function Fnv1a(h: u64, data: seq<byte>): u64
  {
    if |data| == 0 then h
    else Absorb(Fnv1a(h, data[..|data| - 1]), data[|data| - 1])
  }

  lemma OneOctet(h: u64, b: byte)
    ensures Fnv1a(h, [b]) == Absorb(h, b)
  {
    hide Absorb;
    assert [b][..0] == [];
  }

  lemma XorLow(h: u64, b: byte)
    ensures Xor(h, b) == h / 0x100 * 0x100 + Xor(h % 0x100, b)
  {
    Widths();
    XorSplit(h / 0x100, h % 0x100, b, 8);
  }

  /** The test vector for the one-octet string "a". */
  lemma TestVector()
    ensures Fnv1a(FNV1A_64_INIT, [0x61]) == 0xaf63dc4c8601ec8c
  {
    hide Fnv1a, Xor;
    OneOctet(FNV1A_64_INIT, 0x61);
    XorLow(FNV1A_64_INIT, 0x61);
    LowOctets();
  }

  lemma LowOctets()
    ensures Xor(0x25, 0x61) == 0x44
  {
    assert Xor(0x1, 0x3) == 0x2;
    assert Xor(0x4, 0xC) == 0x8;
    assert Xor(0x9, 0x18) == 0x11;
    assert Xor(0x12, 0x30) == 0x22;
  }

  // ----- The hash as a map on states

  lemma {:induction false} MultiplicationInvertible(x: u64)
    ensures x * FNV_64_PRIME % TWO_64 * PRIME_INVERSE % TWO_64 == x
  {
    var q, r := x * FNV_64_PRIME / TWO_64, x * FNV_64_PRIME % TWO_64;
    assert FNV_64_PRIME * PRIME_INVERSE == 1 + (FNV_64_PRIME * PRIME_INVERSE / TWO_64) * TWO_64;
    var k := FNV_64_PRIME * PRIME_INVERSE / TWO_64;
    assert r * PRIME_INVERSE == TWO_64 * (k * x - q * PRIME_INVERSE) + x;
    DivModUnique(r * PRIME_INVERSE, TWO_64, k * x - q * PRIME_INVERSE, x);
  }

  /** For a fixed octet, absorbing it is injective in the state. */
  lemma AbsorbInjectiveInState(h: u64, h': u64, b: byte)
    requires Absorb(h, b) == Absorb(h', b)
    ensures h == h'
  {
    XorIsU64(h, b);
    XorIsU64(h', b);
    MultiplicationInvertible(Xor(h, b));
    MultiplicationInvertible(Xor(h', b));
    XorCancel(h, b);
    XorCancel(h', b);
  }

  /** For a fixed state, absorbing an octet is injective in the octet. */
  lemma AbsorbInjectiveInOctet(h: u64, b: byte, b': byte)
    requires Absorb(h, b) == Absorb(h, b')
    ensures b == b'
  {
    XorIsU64(h, b);
    XorIsU64(h, b');
    MultiplicationInvertible(Xor(h, b));
    MultiplicationInvertible(Xor(h, b'));
    XorCommutes(h, b);
    XorCommutes(h, b');
    XorCancel(b, h);
    XorCancel(b', h);
  }

  lemma {:induction false} Concatenation(h: u64, a: seq<byte>, b: seq<byte>)
    ensures Fnv1a(h, a + b) == Fnv1a(Fnv1a(h, a), b)
  {
    if |b| == 0 {
      assert a + b == a;
    } else {
      Concatenation(h, a, b[..|b| - 1]);
      assert (a + b)[..|a + b| - 1] == a + b[..|b| - 1];
    }
  }

  lemma {:induction false} Injective(h: u64, h': u64, data: seq<byte>)
    requires Fnv1a(h, data) == Fnv1a(h', data)
    ensures h == h'
  {
    if |data| != 0 {
      var prefix := data[..|data| - 1];
      AbsorbInjectiveInState(Fnv1a(h, prefix), Fnv1a(h', prefix), data[|data| - 1]);
      Injective(h, h', prefix);
    }
  }

  /** Changing any one octet of a buffer always changes its hash. */
  lemma SingleOctetChange(h: u64, data: seq<byte>, i: nat, b: byte)
    requires i < |data| && data[i] != b
    ensures Fnv1a(h, data[i := b]) != Fnv1a(h, data)
  {
    var before, after := data[..i], data[i + 1..];
    assert data == before + [data[i]] + after;
    assert data[i := b] == before + [b] + after;
    var s := Fnv1a(h, before);
    forall x: byte
      ensures Fnv1a(h, before + [x] + after) == Fnv1a(Absorb(s, x), after)
    {
      Concatenation(h, before + [x], after);
      Concatenation(h, before, [x]);
      assert [x][..0] == [];
    }
    if Fnv1a(h, data[i := b]) == Fnv1a(h, data) {
      Injective(Absorb(s, b), Absorb(s, data[i]), after);
      AbsorbInjectiveInOctet(s, b, data[i]);
    }
  }

  // ----- The two implementations

  /** `hval << k` on a 64-bit unsigned integer. */
  function Shl64(hval: u64, factor: nat): u64
  {
    hval * factor % TWO_64
  }

  lemma ShiftAddIsMultiply(h: u64)
    ensures (h + (Shl64(h, 0x2) + Shl64(h, 0x10) + Shl64(h, 0x20)
             + Shl64(h, 0x80) + Shl64(h, 0x100) + Shl64(h, 0x100_0000_0000))) % TWO_64
         == h * FNV_64_PRIME % TWO_64
  {
    var sum := h + (Shl64(h, 0x2) + Shl64(h, 0x10) + Shl64(h, 0x20)
               + Shl64(h, 0x80) + Shl64(h, 0x100) + Shl64(h, 0x100_0000_0000));
    var q := h * 0x2 / TWO_64 + h * 0x10 / TWO_64 + h * 0x20 / TWO_64
           + h * 0x80 / TWO_64 + h * 0x100 / TWO_64 + h * 0x100_0000_0000 / TWO_64;
    var p := h * FNV_64_PRIME;
    assert p == TWO_64 * q + sum;
    DivModUnique(p, TWO_64, q + sum / TWO_64, sum % TWO_64);
  }

  /** `fnv_64a_buf` with 64-bit integers: the multiplication is done by shifts and additions. */
  method Fnv64aBuf(buf: array<byte>, len: nat, hval: u64) returns (hash: u64)
    requires len <= buf.Length
    ensures hash == Fnv1a(hval, buf[..len])
  {
    hash := hval;
    var bp := 0;
    while bp < len
      invariant 0 <= bp <= len
      invariant hash == Fnv1a(hval, buf[..bp])
    {
      XorIsU64(hash, buf[bp]);
      assert buf[..bp + 1][..bp] == buf[..bp];
      hash := Xor(hash, buf[bp]);
      bp := bp + 1;
      ShiftAddIsMultiply(hash);
      hash := (hash + (Shl64(hash, 0x2) + Shl64(hash, 0x10) + Shl64(hash, 0x20)
               + Shl64(hash, 0x80) + Shl64(hash, 0x100) + Shl64(hash, 0x100_0000_0000))) % TWO_64;
    }
  }

  /** The number that four base 2^16 limbs stand for; only the low 16 bits of the top limb count. */
  function FromLimbs(v0: nat, v1: nat, v2: nat, v3: nat): nat
  {
    v0 + TWO_16 * v1 + TWO_32 * v2 + TWO_16 * TWO_32 * (v3 % TWO_16)
  }

  /** `v` reduced to the width of the limb type. */
  function Wrap(v: nat, ulong: nat): (r: nat)
    requires ulong == TWO_32 || ulong == TWO_64
    ensures r < ulong
  {
    if ulong == TWO_32 then v % TWO_32 else v % TWO_64
  }

  /** One multiplication by the prime on limbs; `ulong` is 2^w for the C type's width w. */
  lemma LimbMultiply(v0: nat, v1: nat, v2: nat, v3: nat, ulong: nat)
    requires ulong == TWO_32 || ulong == TWO_64
    requires v0 < TWO_16 && v1 < TWO_16 && v2 < TWO_16
    ensures
      var t0, t1 := v0 * FNV_64_PRIME_LOW, v1 * FNV_64_PRIME_LOW;
      var t2 := v2 * FNV_64_PRIME_LOW + v0 * 0x100;
      var t3 := Wrap(Wrap(v3 * FNV_64_PRIME_LOW, ulong) + v1 * 0x100, ulong);
      var t1' := t1 + t0 / TWO_16;
      var t2' := t2 + t1' / TWO_16;
      FromLimbs(t0 % TWO_16, t1' % TWO_16, t2' % TWO_16, Wrap(t3 + t2' / TWO_16, ulong))
      == FromLimbs(v0, v1, v2, v3) * FNV_64_PRIME % TWO_64
  {
    var t0, t1 := v0 * FNV_64_PRIME_LOW, v1 * FNV_64_PRIME_LOW;
    var t2 := v2 * FNV_64_PRIME_LOW + v0 * 0x100;
    var t1' := t1 + t0 / TWO_16;
    var t2' := t2 + t1' / TWO_16;
    var top := Wrap(Wrap(Wrap(v3 * FNV_64_PRIME_LOW, ulong) + v1 * 0x100, ulong) + t2' / TWO_16, ulong);
    TopLimb(v3 * FNV_64_PRIME_LOW, v1 * 0x100, t2' / TWO_16, ulong);
    Carries(v0, v1, v2, v3, t0 / TWO_16, t0 % TWO_16, t1' / TWO_16, t1' % TWO_16, t2' / TWO_16, t2' % TWO_16, top);
  }

  /** The schoolbook product with its carries `c1, c2, c3` and digits `d0, d1, d2`, the top digit kept modulo 2^16. */
  lemma Carries(v0: nat, v1: nat, v2: nat, v3: nat,
                c1: nat, d0: nat, c2: nat, d1: nat, c3: nat, d2: nat, top: nat)
    requires v0 * FNV_64_PRIME_LOW == TWO_16 * c1 + d0 && d0 < TWO_16
    requires v1 * FNV_64_PRIME_LOW + c1 == TWO_16 * c2 + d1 && d1 < TWO_16
    requires v2 * FNV_64_PRIME_LOW + v0 * 0x100 + c2 == TWO_16 * c3 + d2 && d2 < TWO_16
    requires top % TWO_16 == (v3 * FNV_64_PRIME_LOW + v1 * 0x100 + c3) % TWO_16
    ensures FromLimbs(d0, d1, d2, top) == FromLimbs(v0, v1, v2, v3) * FNV_64_PRIME % TWO_64
  {
    var exact := v3 * FNV_64_PRIME_LOW + v1 * 0x100 + c3;
    var x, y := FromLimbs(v0, v1, v2, v3), FromLimbs(d0, d1, d2, top);
    var q := exact / TWO_16 + 0x100 * v2 + TWO_16 * 0x100 * (v3 % TWO_16)
             - FNV_64_PRIME_LOW * (v3 / TWO_16);
    assert x * FNV_64_PRIME == TWO_64 * q + y;
    DivModUnique(x * FNV_64_PRIME, TWO_64, q, y);
  }

  /** Reductions modulo the width of the limb type do not disturb the low 16 bits. */
  lemma TopLimb(a: nat, b: nat, c: nat, ulong: nat)
    requires ulong == TWO_32 || ulong == TWO_64
    ensures Wrap(Wrap(Wrap(a, ulong) + b, ulong) + c, ulong) % TWO_16 == (a + b + c) % TWO_16
  {
    WrapLow(a, b + c, ulong);
    WrapLow(Wrap(a, ulong) + b, c, ulong);
    WrapLow(Wrap(Wrap(a, ulong) + b, ulong) + c, 0, ulong);
  }

  lemma WrapLow(a: nat, b: nat, ulong: nat)
    requires ulong == TWO_32 || ulong == TWO_64
    ensures (Wrap(a, ulong) + b) % TWO_16 == (a + b) % TWO_16
  {
    var e := Wrap(a, ulong) + b;
    var n := if ulong == TWO_32 then a / TWO_32 * TWO_16 else a / TWO_64 * (TWO_16 * TWO_32);
    DivModUnique(a + b, TWO_16, e / TWO_16 + n, e % TWO_16);
  }

  /** The multiplication inside the limb loop, statement by statement. */
  method MultiplyLimbs(v0: nat, v1: nat, v2: nat, v3: nat, ulong: nat) returns (w0: nat, w1: nat, w2: nat, w3: nat)
    requires ulong == TWO_32 || ulong == TWO_64
    requires v0 < TWO_16 && v1 < TWO_16 && v2 < TWO_16
    ensures w0 < TWO_16 && w1 < TWO_16 && w2 < TWO_16 && w3 < ulong
    ensures FromLimbs(w0, w1, w2, w3) == FromLimbs(v0, v1, v2, v3) * FNV_64_PRIME % TWO_64
  {
    LimbMultiply(v0, v1, v2, v3, ulong);
    var t0, t1, t2 := v0 * FNV_64_PRIME_LOW, v1 * FNV_64_PRIME_LOW, v2 * FNV_64_PRIME_LOW;
    var t3 := Wrap(v3 * FNV_64_PRIME_LOW, ulong);
    t2 := t2 + v0 * 0x100;
    t3 := Wrap(t3 + v1 * 0x100, ulong);
    t1 := t1 + t0 / TWO_16;
    w0 := t0 % TWO_16;
    t2 := t2 + t1 / TWO_16;
    w1 := t1 % TWO_16;
    w3 := Wrap(t3 + t2 / TWO_16, ulong);
    w2 := t2 % TWO_16;
  }

  /** `fnv_64a_buf` without 64-bit integers: four limbs of type `unsigned long`, the top one never masked. */
  method Fnv64aBufLimbs(buf: array<byte>, len: nat, low: nat, high: nat, ulong: nat) returns (low': nat, high': nat)
    requires len <= buf.Length
    requires ulong == TWO_32 || ulong == TWO_64
    requires low < TWO_32 && high < TWO_32
    ensures low' < TWO_32 && high' < TWO_32
    ensures TWO_32 * high' + low' == Fnv1a(TWO_32 * high + low, buf[..len])
  {
    var v0: nat, v1: nat := low % TWO_16, low / TWO_16;
    var v2: nat, v3: nat := high % TWO_16, high / TWO_16;
    ghost var h: u64 := TWO_32 * high + low;
    var bp := 0;
    while bp < len
      invariant 0 <= bp <= len
      invariant v0 < TWO_16 && v1 < TWO_16 && v2 < TWO_16
      invariant FromLimbs(v0, v1, v2, v3) == Fnv1a(h, buf[..bp])
    {
      assert buf[..bp + 1][..bp] == buf[..bp];
      LimbXor(v0, v1, v2, v3, buf[bp]);
      v0 := Xor(v0, buf[bp]);
      v0, v1, v2, v3 := MultiplyLimbs(v0, v1, v2, v3, ulong);
      bp := bp + 1;
    }
    high' := v3 * TWO_16 % TWO_32 + v2;
    low' := v1 * TWO_16 + v0;
    PackLimbs(v0, v1, v2, v3);
  }

  lemma PackLimbs(v0: nat, v1: nat, v2: nat, v3: nat)
    requires v0 < TWO_16 && v1 < TWO_16 && v2 < TWO_16
    ensures v3 * TWO_16 % TWO_32 + v2 < TWO_32 && v1 * TWO_16 + v0 < TWO_32
    ensures FromLimbs(v0, v1, v2, v3) == TWO_32 * (v3 * TWO_16 % TWO_32 + v2) + (v1 * TWO_16 + v0)
  {
    assert v3 * TWO_16 % TWO_32 == TWO_16 * (v3 % TWO_16);
  }

  lemma LimbXor(v0: nat, v1: nat, v2: nat, v3: nat, b: byte)
    requires v0 < TWO_16 && v1 < TWO_16 && v2 < TWO_16
    ensures Xor(v0, b) < TWO_16
    ensures Xor(FromLimbs(v0, v1, v2, v3), b) == FromLimbs(Xor(v0, b), v1, v2, v3)
  {
    Widths();
    XorBound(v0, b, 16);
    XorSplit(v1 + TWO_16 * v2 + TWO_32 * (v3 % TWO_16), v0, b, 16);
  }
}
