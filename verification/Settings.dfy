/** The persistent settings (fruitchip-fw/src/settings.c) and the key/value commands on them
    (fruitchip-fw/src/boot_rom/write/kv.c), on top of the wear-levelling store. */
module Settings {
  import opened Bits
  import opened WriteLog
  import opened Store
  import opened FlashOps
  import opened Runs
  import opened Crash
  import opened Tears
  import opened WearLeveling
  import opened Rp2040Flash

  const VERSION_MAGIC := 0x73de0002
  const SIZE := 12   // sizeof(settings_t), padding included

  const KEY_AUTOBOOT := 0
  const KEY_AUTOBOOT_DELAY := 1
  const KEY_AUTOBOOT_ITEM := 2
  const KEY_OSDSYS := 3
  const KEYS_TOTAL := 4

  /** The RAM copy of `settings_t`, byte for byte. */
  type Image = s: seq<byte> | |s| == SIZE witness seq(SIZE, i => 0)

  function Magic(s: Image): nat
  {
    LeU32(s[0], s[1], s[2], s[3])
  }

  /** Where each key's field is stored, and how many bytes it takes. */
  function FieldOffset(key: nat): nat
  {
    match key
    case 0 => 4
    case 1 => 6
    case 2 => 8
    case _ => 9
  }

  function FieldSize(key: nat): nat
  {
    if key == KEY_AUTOBOOT_DELAY then 2 else 1
  }

  /** The value that `kv_get` answers for a key. */
  function KeyValue(s: Image, key: nat): nat
    requires key < KEYS_TOTAL
  {
    match key
    case 0 => if s[4] != 0 then 1 else 0
    case 1 => WordOf(s[6], s[7])
    case 2 => s[8]
    case _ => s[9]
  }

  /** A 32-bit argument converted to the type of the key's field. */
  function Reduced(key: nat, value: nat): nat
    requires key < KEYS_TOTAL
  {
    match key
    case 0 => if value != 0 then 1 else 0
    case 1 => value % 0x1_0000
    case _ => value % 0x100
  }

  /** The bytes of the key's field holding `value`. */
  function FieldBytes(key: nat, value: nat): (bytes: seq<byte>)
    requires key < KEYS_TOTAL
    ensures |bytes| == FieldSize(key)
  {
    match key
    case 0 => [if value != 0 then 1 else 0]
    case 1 => [value % 0x100, value / 0x100 % 0x100]
    case _ => [value % 0x100]
  }

  const DEFAULTS: Image := [0x02, 0x00, 0xde, 0x73, 1, 0, 10, 0, 0, 0, 0, 0]

  lemma DefaultsAreValid()
    ensures Magic(DEFAULTS) == VERSION_MAGIC
    ensures KeyValue(DEFAULTS, KEY_AUTOBOOT) == 1 && KeyValue(DEFAULTS, KEY_AUTOBOOT_DELAY) == 10
    ensures KeyValue(DEFAULTS, KEY_AUTOBOOT_ITEM) == 0 && KeyValue(DEFAULTS, KEY_OSDSYS) == 0
  {
  }

  predicate AlreadyStored(s: Image, key: nat, value: nat)
    requires key < KEYS_TOTAL
  {
    KeyValue(s, key) == Reduced(key, value)
  }

  /** Storing a key: unchanged if it already has the value, as the setters check. */
  function SetKey(s: Image, key: nat, value: nat): Image
    requires key < KEYS_TOTAL
  {
    if AlreadyStored(s, key, value) then s
    else Blit(s, FieldOffset(key), FieldBytes(key, value))
  }

  lemma SetKeyReadsBack(s: Image, key: nat, value: nat, other: nat)
    requires key < KEYS_TOTAL && other < KEYS_TOTAL
    ensures KeyValue(SetKey(s, key, value), other)
         == if other == key then Reduced(key, value) else KeyValue(s, other)
    ensures Magic(SetKey(s, key, value)) == Magic(s)
  {
    hide KeyValue, Magic, Reduced, Blit, FieldBytes, FieldOffset;
    if !AlreadyStored(s, key, value) {
      StoredField(s, key, value);
    }
  }

  lemma KeyValueIsSmall(s: Image)
    ensures forall key: nat :: key < KEYS_TOTAL ==> KeyValue(s, key) < TWO_32
  {
  }

  // ----- Power cuts while a key is being set

  /** What `settings_init` makes of the struct it finds. */
  function Accepted(found: Image): Image
  {
    if Magic(found) == VERSION_MAGIC then found else DEFAULTS
  }

  /** A struct is kept exactly if its first four bytes are the version magic, low byte first; any other is replaced by the
      magic and the values 1, 10, 0 and 0. */
  lemma AcceptedExactly(found: Image)
    ensures Accepted(found)
         == if found[..4] == [0x02, 0x00, 0xDE, 0x73] then found
            else [0x02, 0x00, 0xDE, 0x73, 0x01, 0x00, 0x0A, 0x00, 0x00, 0x00, 0x00, 0x00]
  {
    hide LeU32;
    assert found[..4] == [found[0], found[1], found[2], found[3]];
    LeU32Digits(found[0], found[1], found[2], found[3], VERSION_MAGIC);
  }

  /** The flash operations of storing a key: none if it already has the value. */
  function KvSetOps(c: Config, s: Store, key: nat, value: nat): seq<Op>
    requires Shape(c, s) && c.logical >= SIZE && key < KEYS_TOTAL
  {
    if AlreadyStored(s.cache[..SIZE], key, value) then []
    else WriteOps(c, s, FieldOffset(key), FieldBytes(key, value))
  }

  /** The value of `key` after only the first byte of its field reached the flash. */
  function HalfWritten(s: Image, key: nat, value: nat): nat
    requires key < KEYS_TOTAL
  {
    if key == KEY_AUTOBOOT_DELAY then WordOf(value % 0x100, s[7]) else Reduced(key, value)
  }

  /** The magic and all other keys as before, this one old, half written or new. */
  predicate OneKeyTouched(before: Image, after: Image, key: nat, value: nat)
    requires key < KEYS_TOTAL
  {
    && Magic(after) == Magic(before)
    && (forall other :: 0 <= other < KEYS_TOTAL && other != key ==> KeyValue(after, other) == KeyValue(before, other))
    && KeyValue(after, key) in {KeyValue(before, key), HalfWritten(before, key, value), Reduced(key, value)}
  }

  /** The struct of which only the first `i` slots were programmed. */
  function PartialImage(image: Image, i: nat): Image
  {
    seq(SIZE, k requires 0 <= k < SIZE => if k < 2 * i then image[k] else 0)
  }

  /** A power cut anywhere while one key is set: what `settings_init` makes of it. As long as slots are appended, only
      this key may have changed. If the log was full and the store consolidates: between two sector erases, what the
      log alone gives; while the data is programmed, the defaults or, if the hash of the partial area is zero, the
      first slots of the new struct; while the hash is programmed, the defaults or the new struct; at the end, the new
      struct. */
  lemma CutKvSet(c: Config, s: Store, key: nat, value: nat, j: nat, beyond: seq<word>)
    requires PowerSafe(c) && Inv(c, s) && c.logical >= SIZE && |beyond| >= 3 && key < KEYS_TOTAL
    requires Magic(s.cache[..SIZE]) == VERSION_MAGIC && j <= |KvSetOps(c, s, key, value)|
    ensures var offset, bytes := FieldOffset(key), FieldBytes(key, value);
            var before: Image, after: Image := s.cache[..SIZE], SetKey(s.cache[..SIZE], key, value);
            var r := Recovered(c, ApplyAll(s.flash, KvSetOps(c, s, key, value)[..j]), beyond);
            var found := Accepted(r[..SIZE]);
            var n, e := Appended(c, s, offset, bytes), EraseCount(c);
            && (j <= n ==> OneKeyTouched(before, found, key, value))
            && (j > n ==> s.end + |EntrySlots(offset, bytes)| >= c.Slots())
            && (n < j < n + e ==>
                  exists p: nat :: p <= |bytes| && Complete(c, Log(c, s)) &&
                    found == Accepted(Blit(Replay(c, Log(c, s), Blank(c))[..SIZE], offset, bytes[..p])))
            && (j == n + e ==> found == DEFAULTS)
            && (n + e < j < n + e + c.DataSlots() ==>
                  || found == DEFAULTS
                  || (found == Accepted(PartialImage(after, j - n - e)) && HashOf(r) == Zeros(4)))
            && (n + e + c.DataSlots() <= j ==> found == DEFAULTS || found == after)
            && (j > n && j == |KvSetOps(c, s, key, value)| ==> found == after)
  {
    hide Inv, EntrySlots, WriteOps, Recovered, ApplyAll, Appended, EraseCount, Replay, Complete, Log, HashOf, LastSector;
    hide Blit, KeyValue, Magic, Reduced, FieldBytes, FieldOffset, PartialArea, PartialImage, SingleSlots, Blank;
    InvShape(c, s);
    var offset, bytes, ops := FieldOffset(key), FieldBytes(key, value), KvSetOps(c, s, key, value);
    var before: Image := s.cache[..SIZE];
    var r := Recovered(c, ApplyAll(s.flash, ops[..j]), beyond);
    FieldFits(key, value);
    ConsolidateLength(c, s.cache);
    LowAddressesAreSingleSlots(c, offset, bytes, 0);
    if AlreadyStored(before, key, value) {
      NoOpsRecovered(c, s, beyond);
      assert ops[..j] == [];
      Untouched(before, key, value);
    } else {
      SingleSlotWriteCrash(c, s, offset, bytes, j, beyond);
      var n, e, new' := Appended(c, s, offset, bytes), EraseCount(c), Blit(s.cache, offset, bytes);
      BlitField(s.cache, key, value);
      assert SetKey(before, key, value) == new'[..SIZE];
      BlankIsRefused(c);
      SetKeyReadsBack(before, key, value, key);
      if j <= n {
        PrefixTouches(s.cache, key, value, r);
      } else if j < n + e {
        var p: nat :| p <= |bytes| && Complete(c, Log(c, s)) && r == Blit(Replay(c, Log(c, s), Blank(c)), offset, bytes[..p]);
        BlitFront(Replay(c, Log(c, s), Blank(c)), offset, bytes[..p]);
      } else if j < n + e + c.DataSlots() && r != Blank(c) {
        PartialFront(c, new', j - n - e);
      }
    }
  }

  lemma FieldFits(key: nat, value: nat)
    requires key < KEYS_TOTAL
    ensures FieldOffset(key) + |FieldBytes(key, value)| <= SIZE
  {
  }

  lemma NoOpsRecovered(c: Config, s: Store, beyond: seq<word>)
    requires Inv(c, s) && |beyond| >= 3
    ensures Recovered(c, ApplyAll(s.flash, []), beyond) == s.cache
  {
    hide Inv, AfterInit, InitOps;
    NothingToDo(s.flash);
    InitAgain(c, s, beyond);
  }

  lemma Untouched(image: Image, key: nat, value: nat)
    requires key < KEYS_TOTAL
    ensures OneKeyTouched(image, image, key, value)
  {
    hide KeyValue, Magic;
  }

  lemma PrefixTouches(cache: seq<byte>, key: nat, value: nat, r: seq<byte>)
    requires |cache| >= SIZE && key < KEYS_TOTAL && FieldOffset(key) + |FieldBytes(key, value)| <= |cache| == |r|
    requires PrefixWritten(cache, FieldOffset(key), FieldBytes(key, value), r)
    ensures OneKeyTouched(cache[..SIZE], r[..SIZE], key, value)
  {
    hide KeyValue, Magic, Blit, HalfWritten, Reduced;
    var p: nat :| p <= |FieldBytes(key, value)| && r == Blit(cache, FieldOffset(key), FieldBytes(key, value)[..p]);
    PrefixOfField(cache, key, value, p);
  }

  lemma BlankIsRefused(c: Config)
    requires c.Valid() && c.logical >= SIZE
    ensures Accepted(Blank(c)[..SIZE]) == DEFAULTS
  {
  }

  lemma BlitFront(cache: seq<byte>, offset: nat, bytes: seq<byte>)
    requires |cache| >= SIZE && offset + |bytes| <= SIZE
    ensures Blit(cache, offset, bytes)[..SIZE] == Blit(cache[..SIZE], offset, bytes)
  {
  }

  lemma PartialFront(c: Config, cache: seq<byte>, i: nat)
    requires c.Valid() && |cache| == c.logical >= SIZE && i <= c.DataSlots()
    ensures PartialArea(c, cache, i)[..SIZE] == PartialImage(cache[..SIZE], i)
  {
  }

  lemma PrefixOfField(cache: seq<byte>, key: nat, value: nat, p: nat)
    requires |cache| >= SIZE && key < KEYS_TOTAL && p <= FieldSize(key)
    ensures OneKeyTouched(cache[..SIZE], Blit(cache, FieldOffset(key), FieldBytes(key, value)[..p])[..SIZE], key, value)
  {
    hide Blit, KeyValue, Magic, HalfWritten, Reduced;
    var before: Image := cache[..SIZE];
    if p == 0 {
      NothingBlitted(cache, FieldOffset(key));
      assert FieldBytes(key, value)[..0] == [];
    } else if p == 1 && key == KEY_AUTOBOOT_DELAY {
      BlitOne(cache, 6, value % 0x100);
      assert FieldBytes(key, value)[..1] == [value % 0x100];
      HalfDelay(before, value);
    } else {
      BlitField(cache, key, value);
      assert FieldBytes(key, value)[..p] == FieldBytes(key, value);
      StoredField(before, key, value);
    }
  }

  lemma NothingBlitted(cache: seq<byte>, offset: nat)
    requires offset <= |cache|
    ensures Blit(cache, offset, []) == cache
  {
  }

  lemma BlitOne(cache: seq<byte>, offset: nat, b: byte)
    requires |cache| >= SIZE && offset < SIZE
    ensures Blit(cache, offset, [b])[..SIZE] == cache[..SIZE][offset := b]
  {
  }

  lemma BlitField(cache: seq<byte>, key: nat, value: nat)
    requires |cache| >= SIZE && key < KEYS_TOTAL
    ensures Blit(cache, FieldOffset(key), FieldBytes(key, value))[..SIZE]
         == Blit(cache[..SIZE], FieldOffset(key), FieldBytes(key, value))
  {
  }

  lemma HalfDelay(s: Image, value: nat)
    ensures var t: Image := s[6 := value % 0x100];
            && Magic(t) == Magic(s)
            && (forall other :: 0 <= other < KEYS_TOTAL && other != KEY_AUTOBOOT_DELAY ==> KeyValue(t, other) == KeyValue(s, other))
            && KeyValue(t, KEY_AUTOBOOT_DELAY) == HalfWritten(s, KEY_AUTOBOOT_DELAY, value)
  {
  }

  lemma StoredField(s: Image, key: nat, value: nat)
    requires key < KEYS_TOTAL
    ensures var t: Image := Blit(s, FieldOffset(key), FieldBytes(key, value));
            && Magic(t) == Magic(s)
            && (forall other :: 0 <= other < KEYS_TOTAL && other != key ==> KeyValue(t, other) == KeyValue(s, other))
            && KeyValue(t, key) == Reduced(key, value)
  {
    if key == 0 {} else if key == 1 {} else if key == 2 {} else { assert key == 3; }
  }

  // ----- Runs of commands and reboots

  /** `Reboot` is a restart from flash; `Other` stands for commands that are not about settings. */
  datatype Command = KvSet(key: nat, value: nat) | KvGet(key: nat) | Reboot | Other

  datatype Answer = Value(value: nat) | Refused | Done

  /** What the settings should be: commands with an unknown key are refused, and nothing is ever forgotten. That a
      restart from flash lives up to it is proved for `SettingsStore.RunAll`. */
  function AfterCommand(s: Image, e: Command): Image
  {
    if e.KvSet? && e.key < KEYS_TOTAL then SetKey(s, e.key, e.value) else s
  }

  function Run(s: Image, events: seq<Command>): Image
  {
    if |events| == 0 then s else AfterCommand(Run(s, events[..|events| - 1]), events[|events| - 1])
  }

  /** The last value accepted for `key`, or `initially` if there was none. */
  function LastAccepted(events: seq<Command>, key: nat, initially: nat): nat
    requires key < KEYS_TOTAL
  {
    if |events| == 0 then initially
    else
      var e := events[|events| - 1];
      if e.KvSet? && e.key == key then Reduced(key, e.value)
      else LastAccepted(events[..|events| - 1], key, initially)
  }

  /** Every key always reads as the last value accepted for it. */
  lemma {:induction false} LastValueWins(s: Image, events: seq<Command>, key: nat)
    requires key < KEYS_TOTAL
    ensures KeyValue(Run(s, events), key) == LastAccepted(events, key, KeyValue(s, key))
    ensures Magic(Run(s, events)) == Magic(s)
  {
    hide KeyValue, Magic, SetKey, Reduced;
    if |events| != 0 {
      var before, e := events[..|events| - 1], events[|events| - 1];
      LastValueWins(s, before, key);
      if e.KvSet? && e.key < KEYS_TOTAL {
        SetKeyReadsBack(Run(s, before), e.key, e.value, key);
      }
    }
  }

  /** What command `i` of a run should be answered with: a key is read as the last value accepted before. */
  function Expected(s: Image, events: seq<Command>, i: nat): Answer
    requires i < |events|
  {
    match events[i]
    case KvGet(key) =>
      if key < KEYS_TOTAL then Value(LastAccepted(events[..i], key, KeyValue(s, key))) else Refused
    case KvSet(key, _) => if key < KEYS_TOTAL then Done else Refused
    case _ => Done
  }

  lemma ReducedTwice(s: Image, key: nat, value: nat)
    requires key < KEYS_TOTAL
    ensures key == KEY_AUTOBOOT ==> SetKey(s, key, value) == SetKey(s, key, if value != 0 then 1 else 0)
    ensures key == KEY_AUTOBOOT_DELAY || key == KEY_AUTOBOOT_ITEM ==> SetKey(s, key, value) == SetKey(s, key, value % 0x1_0000)
    ensures key == KEY_OSDSYS ==> SetKey(s, key, value) == SetKey(s, key, value % 0x100)
    ensures key == KEY_AUTOBOOT ==> SameStored(key, value, if value != 0 then 1 else 0)
    ensures key == KEY_AUTOBOOT_DELAY || key == KEY_AUTOBOOT_ITEM ==> SameStored(key, value, value % 0x1_0000)
    ensures key == KEY_OSDSYS ==> SameStored(key, value, value % 0x100)
  {
    hide Blit, KeyValue;
    LowParts(value);
  }

  /** Two arguments that a key stores alike. */
  predicate SameStored(key: nat, a: nat, b: nat)
    requires key < KEYS_TOTAL
  {
    Reduced(key, a) == Reduced(key, b) && FieldBytes(key, a) == FieldBytes(key, b)
  }

  lemma LowParts(value: nat)
    ensures value % 0x1_0000 % 0x100 == value % 0x100
    ensures value % 0x1_0000 / 0x100 % 0x100 == value / 0x100 % 0x100
  {
  }

  /** Each setter's comparison and assignment, as bytes of the struct. */
  lemma StoreAutoboot(s: Image, b: bool)
    ensures AlreadyStored(s, KEY_AUTOBOOT, if b then 1 else 0) == ((s[4] != 0) == b)
    ensures (s[4] != 0) == b ==> SetKey(s, KEY_AUTOBOOT, if b then 1 else 0) == s
    ensures (s[4] != 0) != b ==> SetKey(s, KEY_AUTOBOOT, if b then 1 else 0) == s[4 := if b then 1 else 0]
    ensures s[4 := if b then 1 else 0][4..5] == FieldBytes(KEY_AUTOBOOT, if b then 1 else 0)
    ensures Written(s, s[4 := if b then 1 else 0], 4, 1)
  {
  }

  lemma StoreDelay(s: Image, delay: word)
    ensures AlreadyStored(s, KEY_AUTOBOOT_DELAY, delay) == (WordOf(s[6], s[7]) == delay)
    ensures WordOf(s[6], s[7]) == delay ==> SetKey(s, KEY_AUTOBOOT_DELAY, delay) == s
    ensures WordOf(s[6], s[7]) != delay ==> SetKey(s, KEY_AUTOBOOT_DELAY, delay) == s[6 := delay % 0x100][7 := delay / 0x100]
    ensures s[6 := delay % 0x100][7 := delay / 0x100][6..8] == FieldBytes(KEY_AUTOBOOT_DELAY, delay)
    ensures Written(s, s[6 := delay % 0x100][7 := delay / 0x100], 6, 2)
  {
    hide Blit, Magic, Written;
    DelayWritten(s, delay % 0x100, delay / 0x100);
    assert FieldBytes(KEY_AUTOBOOT_DELAY, delay) == [delay % 0x100, delay / 0x100];
  }

  lemma DelayWritten(s: Image, low: byte, high: byte)
    ensures Blit(s, 6, [low, high]) == s[6 := low][7 := high]
    ensures s[6 := low][7 := high][6..8] == [low, high]
    ensures Written(s, s[6 := low][7 := high], 6, 2)
  {
  }

  lemma StoreItem(s: Image, item: word)
    ensures s[8] == item ==> AlreadyStored(s, KEY_AUTOBOOT_ITEM, item)
    ensures AlreadyStored(s, KEY_AUTOBOOT_ITEM, item) ==> s[8 := item % 0x100] == s
    ensures s[8] == item ==> SetKey(s, KEY_AUTOBOOT_ITEM, item) == s
    ensures s[8] != item ==> SetKey(s, KEY_AUTOBOOT_ITEM, item) == s[8 := item % 0x100]
    ensures s[8 := item % 0x100][8..9] == FieldBytes(KEY_AUTOBOOT_ITEM, item)
    ensures Written(s, s[8 := item % 0x100], 8, 1)
  {
  }

  lemma StoreOsdsys(s: Image, options: byte)
    ensures AlreadyStored(s, KEY_OSDSYS, options) == (s[9] == options)
    ensures s[9] == options ==> SetKey(s, KEY_OSDSYS, options) == s
    ensures s[9] != options ==> SetKey(s, KEY_OSDSYS, options) == s[9 := options]
    ensures s[9 := options][9..10] == FieldBytes(KEY_OSDSYS, options)
    ensures Written(s, s[9 := options], 9, 1)
  {
  }

  /** `t` differs from `s` only in `size` bytes from `offset`, and still has the same magic. */
  predicate Written(s: Image, t: Image, offset: nat, size: nat)
  {
    && Magic(t) == Magic(s)
    && offset + size <= SIZE
    && forall i :: 0 <= i < SIZE && !(offset <= i < offset + size) ==> t[i] == s[i]
  }

  lemma FieldStored(cache: seq<byte>, cache': seq<byte>, before: Image, image: Image, offset: nat, size: nat)
    requires |cache| >= SIZE && cache[..SIZE] == before && Written(before, image, offset, size)
    requires cache' == Blit(cache, offset, image[offset..offset + size])
    ensures cache'[..SIZE] == image
  {
    hide Magic;
    var field := image[offset..offset + size];
    forall i | 0 <= i < SIZE
      ensures cache'[i] == image[i]
    {
      if offset <= i < offset + size {
        assert cache'[i] == field[i - offset];
      } else {
        assert cache'[i] == cache[i] == cache[..SIZE][i];
      }
    }
  }

  /** A setter that gets as far as writing performs the operations of storing its key. */
  lemma StoredOps(c: Config, s: Store, before: Image, image: Image, key: nat, value: nat)
    requires Shape(c, s) && c.logical >= SIZE && key < KEYS_TOTAL && s.cache[..SIZE] == before
    requires FieldOffset(key) + FieldSize(key) <= SIZE
    requires image[FieldOffset(key)..FieldOffset(key) + FieldSize(key)] == FieldBytes(key, value)
    requires AlreadyStored(before, key, value) ==> image == before
    ensures WriteOps(c, s, FieldOffset(key), FieldBytes(key, value)) == KvSetOps(c, s, key, value)
  {
    hide WriteOps, AlreadyStored, FieldBytes, FieldOffset, FieldSize;
    if AlreadyStored(before, key, value) {
      var offset, bytes := FieldOffset(key), FieldBytes(key, value);
      assert s.cache[offset..offset + |bytes|] == s.cache[..SIZE][offset..offset + |bytes|] == bytes;
      NothingWritten(c, s, offset, bytes);
    }
  }

  lemma DefaultsBuilt()
    ensures var zeros := seq(SIZE, i => 0);
            Blit(Blit(zeros, 0, [0x02, 0x00, 0xde, 0x73])[4 := 1], 6, [10, 0])[8 := 0] == DEFAULTS
    ensures Magic(DEFAULTS) == VERSION_MAGIC
  {
  }

  lemma ResetFront(cache: seq<byte>)
    requires |cache| >= SIZE
    ensures Blit(cache, 0, DEFAULTS)[..SIZE] == DEFAULTS
  {
  }

  class SettingsStore {
    const wl: WearLeveler
    var settings: Image

    ghost predicate Shape()
      reads this, wl, wl.store
    {
      wl.Shape() && wl.c.logical >= SIZE
    }

    /** Between commands the RAM struct is valid and equals the first bytes of the store. */
    ghost predicate Ready()
      reads this, wl, wl.store, wl.store.chip, wl.cache
    {
      && Shape() && wl.Ready()
      && Magic(settings) == VERSION_MAGIC
      && settings == wl.cache[..SIZE]
    }

    constructor (wl: WearLeveler)
      requires wl.Shape() && wl.c.logical >= SIZE
      ensures Shape() && this.wl == wl
    {
      this.wl := wl;
      settings := seq(SIZE, i => 0);
    }

    method Reset()
      requires Shape() && wl.Ready()
      modifies this`settings, wl`writeAddress, wl`unlocked, wl.cache, wl.store`ops, wl.store.chip, wl.store.bulkWriteBuffer
      ensures Ready() && settings == DEFAULTS
      ensures wl.cache[..] == Blit(old(wl.cache[..]), 0, DEFAULTS)
    {
      hide Inv, AfterWrite, WriteOps, Blit, Magic;
      DefaultsBuilt();
      ResetFront(wl.cache[..]);
      var zeros: Image := seq(SIZE, i => 0);
      settings := zeros;
      settings := Blit(settings, 0, [0x02, 0x00, 0xde, 0x73]);
      settings := settings[4 := 1];
      settings := Blit(settings, 6, [10, 0]);
      settings := settings[8 := 0];
      assert settings == DEFAULTS;
      ghost var s := wl.State();
      InvShape(wl.c, s);
      WriteKeepsInv(wl.c, s, 0, settings);
      var _ := wl.Write(0, settings);
    }

    /** After initialisation on any flash a power cut can leave, the settings are valid: the stored ones if
        their magic is right, the defaults otherwise. */
    method Init()
      requires Shape() && wl.Valid() && !wl.unlocked && Clean(wl.c, wl.store.View())
      modifies this`settings, wl`writeAddress, wl`unlocked, wl.cache, wl.store`ops, wl.store.chip, wl.store.bulkWriteBuffer
      ensures Ready()
      ensures var recovered := Recovered(wl.c, old(wl.store.View()), old(wl.store.Beyond()));
              && settings == Accepted(recovered[..SIZE])
              && wl.cache[..] == Blit(recovered, 0, settings)
    {
      hide Inv, AfterInit, InitOps, Clean, Magic;
      InitFromClean(wl.c, wl.store.View(), wl.store.Beyond());
      var _ := wl.Init();
      var _, image := wl.Read(0, SIZE);
      settings := image;
      assert settings == wl.cache[..SIZE];
      if Magic(settings) != VERSION_MAGIC {
        Reset();
      }
    }

    /** A clean restart loses nothing: RAM is rebuilt from flash to the same contents. */
    method Restart()
      requires Ready()
      modifies this`settings, wl`writeAddress, wl`unlocked, wl.cache, wl.store`ops, wl.store.chip, wl.store.bulkWriteBuffer
      ensures Ready() && settings == old(settings) && wl.cache[..] == old(wl.cache[..])
    {
      ghost var s := wl.State();
      InvIsClean(wl.c, s);
      InitAgain(wl.c, s, wl.store.Beyond());
      hide Inv, AfterInit, InitOps, Clean, Magic;
      Init();
    }

    /** `settings_update_part`: writes one field of the struct through to the store, which still holds the
        struct as it was before the field changed (`before`). */
    method UpdatePart(offset: nat, size: nat, ghost before: Image)
      requires Shape() && wl.Ready() && Written(before, settings, offset, size)
      requires wl.cache[..SIZE] == before && Magic(before) == VERSION_MAGIC
      modifies wl`writeAddress, wl`unlocked, wl.cache, wl.store`ops, wl.store.chip, wl.store.bulkWriteBuffer
      ensures Ready()
      ensures wl.cache[..] == Blit(old(wl.cache[..]), offset, settings[offset..offset + size])
      ensures wl.store.ops == old(wl.store.ops) + WriteOps(wl.c, old(wl.State()), offset, settings[offset..offset + size])
    {
      hide Inv, AfterWrite, WriteOps, Magic;
      ghost var s := wl.State();
      InvShape(wl.c, s);
      var field := settings[offset..offset + size];
      WriteKeepsInv(wl.c, s, offset, field);
      var _ := wl.Write(offset, field);
      FieldStored(s.cache, wl.cache[..], before, settings, offset, size);
    }

    lemma WrittenThrough(before: Image, key: nat, value: nat)
      requires Shape() && wl.Ready() && wl.cache[..SIZE] == before && key < KEYS_TOTAL
      requires FieldOffset(key) + FieldSize(key) <= SIZE
      requires settings[FieldOffset(key)..FieldOffset(key) + FieldSize(key)] == FieldBytes(key, value)
      requires AlreadyStored(before, key, value) ==> settings == before
      ensures WriteOps(wl.c, wl.State(), FieldOffset(key), FieldBytes(key, value)) == KvSetOps(wl.c, wl.State(), key, value)
    {
      hide Inv, WriteOps, AlreadyStored, FieldBytes, FieldOffset, FieldSize, KvSetOps;
      InvShape(wl.c, wl.State());
      StoredOps(wl.c, wl.State(), before, settings, key, value);
    }

    method KvGet(key: nat) returns (ok: bool, response: nat)
      requires Ready()
      ensures ok <==> key < KEYS_TOTAL
      ensures ok ==> response == KeyValue(settings, key)
    {
      hide WearLeveler.Ready, WearLeveler.Valid, WearLeveler.Shape, BackingStore.Valid, Inv;
      if key >= KEYS_TOTAL {
        return false, 0;
      }
      match key
      case 0 => return true, if settings[4] != 0 then 1 else 0;
      case 1 => return true, WordOf(settings[6], settings[7]);
      case 2 => return true, settings[8];
      case _ => return true, settings[9];
    }

    method KvSet(key: nat, value: nat) returns (ok: bool)
      requires Ready() && value < TWO_32
      modifies this`settings, wl`writeAddress, wl`unlocked, wl.cache, wl.store`ops, wl.store.chip, wl.store.bulkWriteBuffer
      ensures Ready()
      ensures ok <==> key < KEYS_TOTAL
      ensures settings == AfterCommand(old(settings), Command.KvSet(key, value))
      ensures wl.store.ops == old(wl.store.ops) + if key < KEYS_TOTAL then KvSetOps(wl.c, old(wl.State()), key, value) else []
    {
      hide WearLeveler.Ready, WearLeveler.Valid, WearLeveler.Shape, BackingStore.Valid, Inv, SetKey;
      if key >= KEYS_TOTAL {
        return false;
      }
      ReducedTwice(settings, key, value);
      match key {
        case 0 => SetMenuAutoboot(value != 0);
        case 1 => SetMenuAutobootDelaySec(value % 0x1_0000);
        case 2 => SetMenuAutobootItemIdx(value % 0x1_0000);
        case _ => SetMenuOsdsysOptions(value % 0x100);
      }
      return true;
    }

    method SetMenuAutoboot(menuAutoboot: bool)
      requires Ready()
      modifies this`settings, wl`writeAddress, wl`unlocked, wl.cache, wl.store`ops, wl.store.chip, wl.store.bulkWriteBuffer
      ensures Ready() && settings == SetKey(old(settings), KEY_AUTOBOOT, if menuAutoboot then 1 else 0)
      ensures wl.store.ops == old(wl.store.ops) + KvSetOps(wl.c, old(wl.State()), KEY_AUTOBOOT, if menuAutoboot then 1 else 0)
    {
      hide WearLeveler.Ready, WearLeveler.Valid, WearLeveler.Shape, BackingStore.Valid, Inv, Magic, SetKey;
      StoreAutoboot(settings, menuAutoboot);
      if (settings[4] != 0) == menuAutoboot {
        return;
      }
      settings := settings[4 := if menuAutoboot then 1 else 0];
      WrittenThrough(old(settings), KEY_AUTOBOOT, if menuAutoboot then 1 else 0);
      UpdatePart(4, 1, old(settings));
    }

    method SetMenuAutobootDelaySec(delay: word)
      requires Ready()
      modifies this`settings, wl`writeAddress, wl`unlocked, wl.cache, wl.store`ops, wl.store.chip, wl.store.bulkWriteBuffer
      ensures Ready() && settings == SetKey(old(settings), KEY_AUTOBOOT_DELAY, delay)
      ensures wl.store.ops == old(wl.store.ops) + KvSetOps(wl.c, old(wl.State()), KEY_AUTOBOOT_DELAY, delay)
    {
      hide WearLeveler.Ready, WearLeveler.Valid, WearLeveler.Shape, BackingStore.Valid, Inv, Magic, SetKey;
      StoreDelay(settings, delay);
      if WordOf(settings[6], settings[7]) == delay {
        return;
      }
      settings := settings[6 := delay % 0x100][7 := delay / 0x100];
      WrittenThrough(old(settings), KEY_AUTOBOOT_DELAY, delay);
      UpdatePart(6, 2, old(settings));
    }

    /** The parameter is 16 bits wide but the field only 8: the comparison sees all of it, the field its low byte. */
    method SetMenuAutobootItemIdx(itemIdx: word)
      requires Ready()
      modifies this`settings, wl`writeAddress, wl`unlocked, wl.cache, wl.store`ops, wl.store.chip, wl.store.bulkWriteBuffer
      ensures Ready() && settings == SetKey(old(settings), KEY_AUTOBOOT_ITEM, itemIdx)
      ensures wl.store.ops == old(wl.store.ops) + KvSetOps(wl.c, old(wl.State()), KEY_AUTOBOOT_ITEM, itemIdx)
    {
      hide WearLeveler.Ready, WearLeveler.Valid, WearLeveler.Shape, BackingStore.Valid, Inv, Magic, SetKey;
      StoreItem(settings, itemIdx);
      if settings[8] == itemIdx {
        return;
      }
      settings := settings[8 := itemIdx % 0x100];
      WrittenThrough(old(settings), KEY_AUTOBOOT_ITEM, itemIdx);
      UpdatePart(8, 1, old(settings));
    }

    method SetMenuOsdsysOptions(options: byte)
      requires Ready()
      modifies this`settings, wl`writeAddress, wl`unlocked, wl.cache, wl.store`ops, wl.store.chip, wl.store.bulkWriteBuffer
      ensures Ready() && settings == SetKey(old(settings), KEY_OSDSYS, options)
      ensures wl.store.ops == old(wl.store.ops) + KvSetOps(wl.c, old(wl.State()), KEY_OSDSYS, options)
    {
      hide WearLeveler.Ready, WearLeveler.Valid, WearLeveler.Shape, BackingStore.Valid, Inv, Magic, SetKey;
      StoreOsdsys(settings, options);
      if settings[9] == options {
        return;
      }
      settings := settings[9 := options];
      WrittenThrough(old(settings), KEY_OSDSYS, options);
      UpdatePart(9, 1, old(settings));
    }

    /** Any sequence of commands and restarts from flash: the settings end as they should, and every read in between
        is answered with the last value accepted before it. */
    method RunAll(events: seq<Command>) returns (answers: seq<Answer>)
      requires Ready() && forall e :: e in events && e.KvSet? ==> e.value < TWO_32
      modifies this`settings, wl`writeAddress, wl`unlocked, wl.cache, wl.store`ops, wl.store.chip, wl.store.bulkWriteBuffer
      ensures Ready() && settings == Run(old(settings), events)
      ensures |answers| == |events|
      ensures forall i :: 0 <= i < |events| ==> answers[i] == Expected(old(settings), events, i)
    {
      hide SettingsStore.Ready, SettingsStore.Shape, AfterCommand, KvSetOps, KeyValue, LastAccepted, Run;
      NothingRun(settings);
      assert events[..0] == [];
      answers := [];
      ghost var s := settings;
      for i := 0 to |events|
        invariant Ready() && settings == Run(s, events[..i]) && |answers| == i
        invariant forall k :: 0 <= k < i ==> answers[k] == Expected(s, events, k)
      {
        RunNext(s, events, i);
        var answer;
        match events[i] {
          case KvSet(key, value) =>
            var ok := KvSet(key, value);
            answer := if ok then Done else Refused;
          case KvGet(key) =>
            var ok, value := KvGet(key);
            answer := if ok then Value(value) else Refused;
            if key < KEYS_TOTAL {
              LastValueWins(s, events[..i], key);
            }
            OnlySetsChange(settings, events[i]);
          case Reboot =>
            Restart();
            answer := Done;
            OnlySetsChange(settings, events[i]);
          case Other =>
            answer := Done;
            OnlySetsChange(settings, events[i]);
        }
        assert answer == Expected(s, events, i);
        answers := answers + [answer];
      }
      assert events[..|events|] == events;
    }
  }

  lemma NothingRun(s: Image)
    ensures Run(s, []) == s
  {
  }

  lemma RunNext(s: Image, events: seq<Command>, i: nat)
    requires i < |events|
    ensures Run(s, events[..i + 1]) == AfterCommand(Run(s, events[..i]), events[i])
  {
    hide AfterCommand;
    assert events[..i + 1][..i] == events[..i] && events[..i + 1][i] == events[i];
  }

  lemma OnlySetsChange(s: Image, e: Command)
    requires !e.KvSet?
    ensures AfterCommand(s, e) == s
  {
  }
}
