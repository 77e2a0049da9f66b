/** Flattening a UF2 update file into the image that is written to the update partition
    (fruitchip-menu/src/scene/settings/update/checking.c). A file is a row of 512-byte blocks, each with a target
    address and 256 bytes of data ('Overview' section of the Microsoft UF2 specification). */
module Uf2 {
  import opened Bits
  import Bootloader
  import SectorFlash

  const BLOCK_SIZE := 512
  const PAYLOAD_SIZE := 256
  const DATA_AT := 32
  const MAGIC_START0 := 0x0A324655
  const MAGIC_START1 := 0x9E5D5157
  const MAGIC_END := 0x0AB16F30
  const FLAG_FAMILY_ID_PRESENT := 0x2000
  const FAMILY_ID_RP2040 := 0xe48bff56

  /** The 32-bit field at `offset` of block `i`. */
  function Field(file: seq<byte>, i: nat, offset: nat): u32
    requires BLOCK_SIZE * (i + 1) <= |file| && offset + 4 <= BLOCK_SIZE
  {
    var at := BLOCK_SIZE * i + offset;
    LeU32(file[at], file[at + 1], file[at + 2], file[at + 3])
  }

  function Blocks(file: seq<byte>): nat
  {
    |file| / BLOCK_SIZE
  }

  function TargetAddr(file: seq<byte>, i: nat): u32
    requires BLOCK_SIZE * (i + 1) <= |file|
  {
    Field(file, i, 12)
  }

  predicate BlockValid(file: seq<byte>, i: nat)
    requires BLOCK_SIZE * (i + 1) <= |file|
  {
    && Field(file, i, 0) == MAGIC_START0 && Field(file, i, 4) == MAGIC_START1 && Field(file, i, 508) == MAGIC_END
    && (Field(file, i, 8) / FLAG_FAMILY_ID_PRESENT % 2 == 1 ==> Field(file, i, 28) == FAMILY_ID_RP2040)
    && Field(file, i, 16) == PAYLOAD_SIZE
  }

  /** A block must follow its predecessor, unless that one was at address 0. */
  predicate FollowsOn(file: seq<byte>, i: nat)
    requires BLOCK_SIZE * (i + 1) <= |file|
  {
    i > 0 && TargetAddr(file, i - 1) != 0 ==> TargetAddr(file, i) == (TargetAddr(file, i - 1) + PAYLOAD_SIZE) % TWO_32
  }

  /** The first `n` blocks pass the check. */
  predicate Acceptable(file: seq<byte>, n: nat)
    requires BLOCK_SIZE * n <= |file|
  {
    n == 0 || (Acceptable(file, n - 1) && BlockValid(file, n - 1) && FollowsOn(file, n - 1))
  }

  lemma {:induction false} AcceptableBlock(file: seq<byte>, n: nat, i: nat)
    requires i < n && BLOCK_SIZE * n <= |file| && Acceptable(file, n)
    ensures BlockValid(file, i) && FollowsOn(file, i)
  {
    hide BlockValid, FollowsOn;
    if i < n - 1 {
      AcceptableBlock(file, n - 1, i);
    }
  }

  /** Byte `k` of the image is byte `k` % 256 of the data of block `k` / 256. */
  function ImageByte(file: seq<byte>, k: nat): byte
    requires BLOCK_SIZE * (k / PAYLOAD_SIZE + 1) <= |file|
  {
    file[BLOCK_SIZE * (k / PAYLOAD_SIZE) + DATA_AT + k % PAYLOAD_SIZE]
  }

  // ----- The checking loop

  lemma {:induction false} AndPow2(a: nat, k: nat)
    ensures And(a, Pow2(k)) != 0 <==> a / Pow2(k) % 2 == 1
    decreases k
  {
    if k == 0 {
      assert Pow2(0) == 1;
      AndOne(a);
    } else {
      AndPow2(a / 2, k - 1);
      var p := Pow2(k - 1);
      assert Pow2(k) / 2 == p && Pow2(k) % 2 == 0;
      HalfThenDivide(a, p);
      assert a == 0 ==> And(a / 2, p) == 0;
    }
  }

  lemma AndOne(a: nat)
    ensures And(a, 1) != 0 <==> a % 2 == 1
  {
    assert And(a / 2, 0) == 0;
  }

  lemma HalfThenDivide(a: nat, p: nat)
    requires p > 0
    ensures a / 2 / p == a / (2 * p)
  {
    var q := a / 2 / p;
    DivModUnique(a, 2 * p, q, 2 * (a / 2 % p) + a % 2);
  }

  /** Accepts exactly the files whose blocks are valid and follow one another, and copies their data in order; the
      buffer of half the file size is filled exactly. */
  method CheckAndFlatten(file: seq<byte>) returns (ok: bool, update: array<byte>, updateSize: nat)
    requires |file| < TWO_32
    ensures ok <==> |file| % BLOCK_SIZE == 0 && Acceptable(file, Blocks(file))
    ensures ok ==> updateSize == update.Length == |file| / 2
    ensures ok ==> forall k :: 0 <= k < updateSize ==> BLOCK_SIZE * (k / PAYLOAD_SIZE + 1) <= |file| && update[k] == ImageByte(file, k)
    ensures forall first: u32, image: seq<byte>, n: nat ::
              |image| == 256 * n && n < TWO_32 && file == FileOf(first, image, n) ==> ok && update[..updateSize] == image
    ensures fresh(update)
  {
    hide BlockValid, FollowsOn, TargetAddr, ImageByte, LeU32, FileOf;
    forall first: u32, image: seq<byte>, n: nat | |image| == 256 * n && n < TWO_32 && file == FileOf(first, image, n)
      ensures |file| % BLOCK_SIZE == 0 && Acceptable(file, Blocks(file))
      ensures forall k :: 0 <= k < |image| ==> BLOCK_SIZE * (k / PAYLOAD_SIZE + 1) <= |file| && ImageByte(file, k) == image[k]
    {
      WrittenFileIsAccepted(first, image, n);
    }
    var size := |file|;
    update := new byte[size / 2](_ => 0);
    updateSize := 0;
    if size % BLOCK_SIZE != 0 {
      return false, update, 0;
    }
    var lastBlockAddr: nat := 0;
    var i := 0;
    while BLOCK_SIZE * i < size
      invariant i <= Blocks(file) && updateSize == PAYLOAD_SIZE * i
      invariant i > 0 ==> lastBlockAddr == TargetAddr(file, i - 1)
      invariant i == 0 ==> lastBlockAddr == 0
      invariant Acceptable(file, i)
      invariant forall k :: 0 <= k < updateSize ==> BLOCK_SIZE * (k / PAYLOAD_SIZE + 1) <= |file| && update[k] == ImageByte(file, k)
      decreases Blocks(file) - i
    {
      FollowingMeans(file, i, lastBlockAddr);
      var valid := CheckBlock(file, i);
      if !valid {
        BadBlock(file, i);
        return false, update, 0;
      }
      var targetAddr := TargetAddr(file, i);
      if lastBlockAddr != 0 && (lastBlockAddr + PAYLOAD_SIZE) % TWO_32 != targetAddr {
        BadBlock(file, i);
        return false, update, 0;
      }
      CopyPayload(file, i, update);
      updateSize := updateSize + PAYLOAD_SIZE;
      lastBlockAddr := targetAddr;
      i := i + 1;
    }
    ok := true;
  }

  lemma FollowingMeans(file: seq<byte>, i: nat, lastBlockAddr: nat)
    requires i < Blocks(file) && lastBlockAddr == if i == 0 then 0 else TargetAddr(file, i - 1)
    ensures FollowsOn(file, i) <==> (lastBlockAddr != 0 ==> TargetAddr(file, i) == (lastBlockAddr + PAYLOAD_SIZE) % TWO_32)
  {
    hide TargetAddr;
  }

  /** One bad block spoils the file. */
  lemma BadBlock(file: seq<byte>, i: nat)
    requires i < Blocks(file) && (!BlockValid(file, i) || !FollowsOn(file, i))
    ensures !Acceptable(file, Blocks(file))
  {
    hide FollowsOn, BlockValid, Acceptable;
    if Acceptable(file, Blocks(file)) {
      AcceptableBlock(file, Blocks(file), i);
    }
  }

  method CheckBlock(file: seq<byte>, i: nat) returns (valid: bool)
    requires BLOCK_SIZE * (i + 1) <= |file|
    ensures valid == BlockValid(file, i)
    ensures var b := BlockBytes(file, i);
            valid <==> && b[..8] == [0x55, 0x46, 0x32, 0x0A, 0x57, 0x51, 0x5D, 0x9E]
                       && b[508..] == [0x30, 0x6F, 0xB1, 0x0A]
                       && b[16..20] == [0x00, 0x01, 0x00, 0x00]
                       && (b[9] / 0x20 % 2 == 1 ==> b[28..32] == [0x56, 0xFF, 0x8B, 0xE4])
  {
    hide LeU32, BlockBytes;
    BlockValidExactly(file, i);
    var flags := Field(file, i, 8);
    AndPow2(flags, 13);
    assert Pow2(13) == 0x2000;
    hide And;
    var isMagicValid := Field(file, i, 0) == MAGIC_START0 && Field(file, i, 4) == MAGIC_START1 && Field(file, i, 508) == MAGIC_END;
    if !isMagicValid {
      return false;
    }
    if And(flags, 0x2000) != 0 {
      var isFamilyIdValid := Field(file, i, 28) == FAMILY_ID_RP2040;
      if !isFamilyIdValid {
        return false;
      }
    }
    if PAYLOAD_SIZE != Field(file, i, 16) {
      return false;
    }
    return true;
  }

  /** `memcpy` of one block's data behind what is there already. */
  method CopyPayload(file: seq<byte>, i: nat, update: array<byte>)
    requires BLOCK_SIZE * (i + 1) <= |file| && PAYLOAD_SIZE * (i + 1) <= update.Length
    modifies update
    ensures forall k :: 0 <= k < update.Length && !(PAYLOAD_SIZE * i <= k < PAYLOAD_SIZE * (i + 1)) ==> update[k] == old(update[k])
    ensures forall k :: PAYLOAD_SIZE * i <= k < PAYLOAD_SIZE * (i + 1) ==> k / PAYLOAD_SIZE == i && update[k] == ImageByte(file, k)
  {
    forall k | 0 <= k < PAYLOAD_SIZE {
      update[PAYLOAD_SIZE * i + k] := file[BLOCK_SIZE * i + DATA_AT + k];
    }
    forall k | PAYLOAD_SIZE * i <= k < PAYLOAD_SIZE * (i + 1)
      ensures k / PAYLOAD_SIZE == i && update[k] == ImageByte(file, k)
    {
      var j := k - PAYLOAD_SIZE * i;
      DivModUnique(k, PAYLOAD_SIZE, i, j);
      assert update[PAYLOAD_SIZE * i + j] == file[BLOCK_SIZE * i + DATA_AT + j];
    }
  }

  // ----- Blocks byte by byte

  /** The bytes of block `i`. */
  function BlockBytes(file: seq<byte>, i: nat): (b: seq<byte>)
    requires BLOCK_SIZE * (i + 1) <= |file|
    ensures |b| == BLOCK_SIZE
  {
    file[BLOCK_SIZE * i..BLOCK_SIZE * (i + 1)]
  }

  /** Which blocks are valid: those with the magic bytes at both ends, 256 bytes of payload and, if the flag says that a
      family is given, the RP2040's. */
  lemma BlockValidExactly(file: seq<byte>, i: nat)
    requires BLOCK_SIZE * (i + 1) <= |file|
    ensures var b := BlockBytes(file, i);
            BlockValid(file, i)
            <==> && b[..8] == [0x55, 0x46, 0x32, 0x0A, 0x57, 0x51, 0x5D, 0x9E]
                 && b[508..] == [0x30, 0x6F, 0xB1, 0x0A]
                 && b[16..20] == [0x00, 0x01, 0x00, 0x00]
                 && (b[9] / 0x20 % 2 == 1 ==> b[28..32] == [0x56, 0xFF, 0x8B, 0xE4])
  {
    hide LeU32, Field;
    var b := BlockBytes(file, i);
    FieldBytes(file, i, 0, MAGIC_START0);
    FieldBytes(file, i, 4, MAGIC_START1);
    FieldBytes(file, i, 508, MAGIC_END);
    FieldBytes(file, i, 16, PAYLOAD_SIZE);
    FieldBytes(file, i, 28, FAMILY_ID_RP2040);
    FlagByte(file, i);
    assert b[..8] == b[0..4] + b[4..8] && b[508..] == b[508..512];
  }

  lemma FieldBytes(file: seq<byte>, i: nat, offset: nat, value: u32)
    requires BLOCK_SIZE * (i + 1) <= |file| && offset + 4 <= BLOCK_SIZE
    ensures Field(file, i, offset) == value <==> BlockBytes(file, i)[offset..offset + 4] == Le32(value)
  {
    hide LeU32;
    var at, b := BLOCK_SIZE * i + offset, BlockBytes(file, i)[offset..offset + 4];
    assert b == [file[at], file[at + 1], file[at + 2], file[at + 3]];
    LeU32Digits(file[at], file[at + 1], file[at + 2], file[at + 3], value);
  }

  lemma FlagByte(file: seq<byte>, i: nat)
    requires BLOCK_SIZE * (i + 1) <= |file|
    ensures Field(file, i, 8) / FLAG_FAMILY_ID_PRESENT % 2 == BlockBytes(file, i)[9] / 0x20 % 2
  {
    var at := BLOCK_SIZE * i + 8;
    FlagBit(file[at], file[at + 1], file[at + 2], file[at + 3]);
    assert BlockBytes(file, i)[9] == file[at + 1];
  }

  lemma FlagBit(b0: byte, b1: byte, b2: byte, b3: byte)
    ensures LeU32(b0, b1, b2, b3) / 0x2000 % 2 == b1 / 0x20 % 2
  {
    DivModUnique(LeU32(b0, b1, b2, b3), 0x2000, b1 / 0x20 + 8 * b2 + 0x800 * b3, b0 as int + 0x100 * (b1 % 0x20));
  }

  /** Which files are accepted: all blocks are valid, and each one targets the 256 bytes behind its predecessor's, modulo
      2^32, unless that one targets address 0. */
  lemma {:induction false} AcceptableExactly(file: seq<byte>, n: nat)
    requires BLOCK_SIZE * n <= |file|
    ensures Acceptable(file, n)
            <==> && (forall i :: 0 <= i < n ==> BlockValid(file, i))
                 && (forall i :: 0 < i < n && TargetAddr(file, i - 1) != 0 ==>
                       TargetAddr(file, i) == (TargetAddr(file, i - 1) + 256) % TWO_32)
  {
    hide BlockValid, TargetAddr;
    if n > 0 {
      AcceptableExactly(file, n - 1);
    }
  }

  /** A file in which one byte of a magic, of the payload size or of a given family is changed is refused. */
  lemma DamagedBlockIsRefused(file: seq<byte>, i: nat, j: nat, x: byte)
    requires Acceptable(file, Blocks(file)) && i < Blocks(file) && j < BLOCK_SIZE && x != BlockBytes(file, i)[j]
    requires j < 8 || 16 <= j < 20 || 508 <= j || (28 <= j < 32 && BlockBytes(file, i)[9] / 0x20 % 2 == 1)
    ensures !Acceptable(file[BLOCK_SIZE * i + j := x], Blocks(file))
  {
    hide BlockValid, FollowsOn;
    var g := file[BLOCK_SIZE * i + j := x];
    var b, d := BlockBytes(file, i), BlockBytes(g, i);
    assert d == b[j := x];
    AcceptableBlock(file, Blocks(file), i);
    BlockValidExactly(file, i);
    BlockValidExactly(g, i);
    if j < 8 {
      assert d[..8][j] == x != b[..8][j];
    } else if j < 20 {
      assert d[16..20][j - 16] == x != b[16..20][j - 16];
    } else if j < 32 {
      assert d[28..32][j - 28] == x != b[28..32][j - 28];
    } else {
      assert d[508..][j - 508] == x != b[508..][j - 508];
    }
    BadBlock(g, i);
  }

  /** Nor does a changed address pass, unless the block before it targets address 0. */
  lemma DamagedAddressIsRefused(file: seq<byte>, i: nat, j: nat, x: byte)
    requires Acceptable(file, Blocks(file)) && 0 < i < Blocks(file) && 12 <= j < 16 && x != BlockBytes(file, i)[j]
    requires TargetAddr(file, i - 1) != 0
    ensures !Acceptable(file[BLOCK_SIZE * i + j := x], Blocks(file))
  {
    hide BlockValid, Field, Acceptable, Le32;
    var g, address, before := file[BLOCK_SIZE * i + j := x], TargetAddr(file, i), TargetAddr(file, i - 1);
    var b, d := BlockBytes(file, i), BlockBytes(g, i);
    assert d == b[j := x] && BlockBytes(g, i - 1) == BlockBytes(file, i - 1);
    AcceptableBlock(file, Blocks(file), i);
    FieldBytes(file, i, 12, address);
    FieldBytes(g, i, 12, address);
    assert d[12..16][j - 12] == x != b[12..16][j - 12];
    FieldBytes(file, i - 1, 12, before);
    FieldBytes(g, i - 1, 12, before);
    BadBlock(g, i);
  }

  // ----- What a writer of such files writes

  /** Block `number` of `count`, with 256 bytes of data for `address`, as the UF2 specification lays it out. */
  function Block(address: u32, number: u32, count: u32, data: seq<byte>): (block: seq<byte>)
    requires |data| == 256
    ensures |block| == 512
  {
    [0x55, 0x46, 0x32, 0x0A, 0x57, 0x51, 0x5D, 0x9E, 0x00, 0x20, 0x00, 0x00]
    + Le32(address) + [0x00, 0x01, 0x00, 0x00] + Le32(number) + Le32(count) + [0x56, 0xFF, 0x8B, 0xE4]
    + data + seq(220, k => 0) + [0x30, 0x6F, 0xB1, 0x0A]
  }

  /** The first `n` blocks of the file that stores `image` from address `first` on. */
  function FileOf(first: u32, image: seq<byte>, n: nat): (file: seq<byte>)
    requires 256 * n <= |image| && |image| / 256 < TWO_32
    ensures |file| == 512 * n
  {
    if n == 0 then []
    else FileOf(first, image, n - 1)
         + Block((first + 256 * (n - 1)) % TWO_32, n - 1, |image| / 256, image[256 * (n - 1)..256 * n])
  }

  lemma {:induction false} BlockOfFile(first: u32, image: seq<byte>, n: nat, i: nat)
    requires i < n && 256 * n <= |image| && |image| / 256 < TWO_32
    ensures BlockBytes(FileOf(first, image, n), i)
         == Block((first + 256 * i) % TWO_32, i, |image| / 256, image[256 * i..256 * (i + 1)])
    decreases n
  {
    hide Block;
    if i < n - 1 {
      BlockOfFile(first, image, n - 1, i);
      assert BlockBytes(FileOf(first, image, n), i) == BlockBytes(FileOf(first, image, n - 1), i);
    }
  }

  /** A block as written is valid, targets its address and holds its data. */
  lemma BlockAsWritten(file: seq<byte>, i: nat, address: u32, number: u32, count: u32, data: seq<byte>)
    requires BLOCK_SIZE * (i + 1) <= |file| && |data| == 256 && BlockBytes(file, i) == Block(address, number, count, data)
    ensures BlockValid(file, i) && TargetAddr(file, i) == address
    ensures BlockBytes(file, i)[32..288] == data
  {
    hide BlockValid, Field, Le32;
    var b := BlockBytes(file, i);
    BlockValidExactly(file, i);
    FieldBytes(file, i, 12, address);
    assert b[12..16] == Le32(address) && b[28..32] == [0x56, 0xFF, 0x8B, 0xE4];
  }

  /** Every file so written is accepted, and what is flattened out of it is the image. */
  lemma WrittenFileIsAccepted(first: u32, image: seq<byte>, n: nat)
    requires |image| == 256 * n && n < TWO_32
    ensures var file := FileOf(first, image, n);
            && |file| % BLOCK_SIZE == 0 && Blocks(file) == n && Acceptable(file, n)
            && forall k :: 0 <= k < |image| ==> BLOCK_SIZE * (k / PAYLOAD_SIZE + 1) <= |file| && ImageByte(file, k) == image[k]
  {
    hide FileOf, Acceptable, ImageByte;
    var file := FileOf(first, image, n);
    AcceptableAsWritten(first, image, n, n);
    forall k | 0 <= k < |image|
      ensures BLOCK_SIZE * (k / PAYLOAD_SIZE + 1) <= |file| && ImageByte(file, k) == image[k]
    {
      ByteAsWritten(first, image, n, k);
    }
  }

  lemma {:induction false} AcceptableAsWritten(first: u32, image: seq<byte>, n: nat, m: nat)
    requires |image| == 256 * n && n < TWO_32 && m <= n
    ensures Acceptable(FileOf(first, image, n), m)
    decreases m
  {
    hide FileOf, BlockValid, Block, TargetAddr;
    if m > 0 {
      var file, i := FileOf(first, image, n), m - 1;
      AcceptableAsWritten(first, image, n, i);
      BlockOfFile(first, image, n, i);
      BlockAsWritten(file, i, (first + 256 * i) % TWO_32, i, n, image[256 * i..256 * m]);
      if i > 0 {
        BlockOfFile(first, image, n, i - 1);
        BlockAsWritten(file, i - 1, (first + 256 * (i - 1)) % TWO_32, i - 1, n, image[256 * (i - 1)..256 * i]);
        NextModulo(first + 256 * (i - 1));
      }
    }
  }

  lemma NextModulo(a: nat)
    ensures (a % TWO_32 + 256) % TWO_32 == (a + 256) % TWO_32
  {
  }

  lemma ByteAsWritten(first: u32, image: seq<byte>, n: nat, k: nat)
    requires |image| == 256 * n && n < TWO_32 && k < |image|
    ensures BLOCK_SIZE * (k / PAYLOAD_SIZE + 1) <= |FileOf(first, image, n)|
    ensures ImageByte(FileOf(first, image, n), k) == image[k]
  {
    hide FileOf, BlockValid, Block;
    var file, i, j := FileOf(first, image, n), k / 256, k % 256;
    BlockOfFile(first, image, n, i);
    BlockAsWritten(file, i, (first + 256 * i) % TWO_32, i, n, image[256 * i..256 * (i + 1)]);
    assert file[BLOCK_SIZE * i + DATA_AT + j] == BlockBytes(file, i)[32..288][j] == image[256 * i..256 * (i + 1)][j];
  }

  // ----- What acceptance means

  /** Block `i` targets the first address plus 256 `i`, without wrapping around. */
  predicate Linear(file: seq<byte>)
  {
    forall i :: 0 <= i < Blocks(file) ==> TargetAddr(file, i) == TargetAddr(file, 0) + PAYLOAD_SIZE * i
  }

  lemma {:induction false} AddressesFollow(file: seq<byte>, i: nat)
    requires i < Blocks(file) && Acceptable(file, Blocks(file))
    requires TargetAddr(file, 0) != 0 || (Blocks(file) > 1 && TargetAddr(file, 1) == PAYLOAD_SIZE)
    requires TargetAddr(file, 0) + PAYLOAD_SIZE * (Blocks(file) - 1) < TWO_32
    ensures TargetAddr(file, i) == TargetAddr(file, 0) + PAYLOAD_SIZE * i
  {
    hide TargetAddr, BlockValid, FollowsOn, Acceptable;
    if i > 0 {
      AddressesFollow(file, i - 1);
      AcceptableBlock(file, Blocks(file), i);
      if TargetAddr(file, i - 1) != 0 {
        NextAddress(file, i);
      }
    }
  }

  lemma NextAddress(file: seq<byte>, i: nat)
    requires 0 < i && BLOCK_SIZE * (i + 1) <= |file| && FollowsOn(file, i)
    requires TargetAddr(file, i - 1) != 0 && TargetAddr(file, i - 1) + PAYLOAD_SIZE < TWO_32
    ensures TargetAddr(file, i) == TargetAddr(file, i - 1) + PAYLOAD_SIZE
  {
    hide TargetAddr;
  }

  /** Exactly when an accepted file is linear: the addresses do not wrap, and either the first one is not 0 or the
      second block follows all the same. */
  lemma AcceptedIsLinearExactly(file: seq<byte>)
    requires Acceptable(file, Blocks(file)) && Blocks(file) > 0
    ensures Linear(file)
            <==> && TargetAddr(file, 0) + PAYLOAD_SIZE * (Blocks(file) - 1) < TWO_32
                 && (TargetAddr(file, 0) != 0 || Blocks(file) == 1 || TargetAddr(file, 1) == PAYLOAD_SIZE)
  {
    hide TargetAddr, BlockValid, Acceptable;
    if Linear(file) {
      assert TargetAddr(file, Blocks(file) - 1) == TargetAddr(file, 0) + PAYLOAD_SIZE * (Blocks(file) - 1);
      if Blocks(file) > 1 {
        assert TargetAddr(file, 1) == TargetAddr(file, 0) + PAYLOAD_SIZE;
      }
    } else {
      var i :| 0 <= i < Blocks(file) && TargetAddr(file, i) != TargetAddr(file, 0) + PAYLOAD_SIZE * i;
      if && TargetAddr(file, 0) + PAYLOAD_SIZE * (Blocks(file) - 1) < TWO_32
         && (TargetAddr(file, 0) != 0 || Blocks(file) == 1 || TargetAddr(file, 1) == PAYLOAD_SIZE)
         && i > 0 {
        AddressesFollow(file, i);
      }
    }
  }

  /** The block that a file maps an address to. */
  predicate Maps(file: seq<byte>, i: nat, address: nat)
  {
    i < Blocks(file) && TargetAddr(file, i) <= address < TargetAddr(file, i) + PAYLOAD_SIZE
  }

  /** In a linear file every address of the image lies in exactly one block, and byte `k` of the image is the byte
      that this block holds for the first address plus `k`. */
  lemma ImageIsWhatTheFileMaps(file: seq<byte>, k: nat, i: nat)
    requires Linear(file) && k < PAYLOAD_SIZE * Blocks(file)
    ensures Maps(file, k / PAYLOAD_SIZE, TargetAddr(file, 0) + k)
    ensures Maps(file, i, TargetAddr(file, 0) + k) ==>
              && i == k / PAYLOAD_SIZE
              && ImageByte(file, k) == file[BLOCK_SIZE * i + DATA_AT + (TargetAddr(file, 0) + k - TargetAddr(file, i))]
  {
    hide TargetAddr;
    var j := k / PAYLOAD_SIZE;
    assert TargetAddr(file, j) == TargetAddr(file, 0) + PAYLOAD_SIZE * j;
    if Maps(file, i, TargetAddr(file, 0) + k) {
      assert TargetAddr(file, i) == TargetAddr(file, 0) + PAYLOAD_SIZE * i;
      DivModUnique(k, PAYLOAD_SIZE, i, k - PAYLOAD_SIZE * i);
    }
  }

  /** From file to flash: once the session has written the image, byte `k` of the update partition is what the file
      maps to its first address plus `k`. */
  lemma FileReachesThePartition(file: seq<byte>, memory: seq<byte>, size: nat, p: seq<SectorFlash.Sector>, k: nat, i: nat)
    requires |file| % BLOCK_SIZE == 0 && Linear(file) && size == |file| / 2 && k < size
    requires |memory| >= Bootloader.SectorsFor(size) * SectorFlash.SECTOR_SIZE
    requires forall j :: 0 <= j < size ==> BLOCK_SIZE * (j / PAYLOAD_SIZE + 1) <= |file| && memory[j] == ImageByte(file, j)
    requires Bootloader.ImageSectors(memory, Bootloader.SectorsFor(size)) <= p
    requires Maps(file, i, TargetAddr(file, 0) + k)
    ensures k < |p| * SectorFlash.SECTOR_SIZE
    ensures Bootloader.PartitionByte(p, k) == file[BLOCK_SIZE * i + DATA_AT + (TargetAddr(file, 0) + k - TargetAddr(file, i))]
  {
    hide TargetAddr, Linear, ImageByte;
    Bootloader.WrittenBytes(memory, size, p, k);
    ImageIsWhatTheFileMaps(file, k, i);
  }
}
