/** The apps partition: how the builder lays it out (fruitchip-fw-apps/build_apps_partition.py), how the firmware
    looks entries up (fruitchip-fw/include/apps.h), and how the menu reads the index of names back
    (fruitchip-menu/src/apps.c). */
module Apps {
  import opened Bits
  import opened SectorFlash
  import opened Protocol
  import opened Host
  import Crc

  datatype App = App(name: seq<byte>, data: seq<byte>, attributes: u32)

  // ----- Entries

  function PaddingFor(length: nat): nat
  {
    if length % SECTOR_SIZE != 0 then SECTOR_SIZE - length % SECTOR_SIZE else 0
  }

  lemma PaddingFillsSector(length: nat)
    ensures (length + PaddingFor(length)) % SECTOR_SIZE == 0 && PaddingFor(length) < SECTOR_SIZE
  {
  }

  const MAX_DATA := 0x1000_0000

  /** An entry: length, attributes, data, CRC, and 0xFF up to a whole number of sectors. */
  function Entry(data: seq<byte>, attributes: u32): (e: seq<byte>)
    requires |data| < MAX_DATA
    ensures |e| == |data| + 12 + PaddingFor(|data| + 12)
  {
    var crc: nat := Crc.Crc32(data);
    Le32(|data|) + Le32(attributes) + data + Le32(crc) + Filled(PaddingFor(|data| + 12), 0xFF)
  }

  /** Where everything lies in an entry. */
  lemma EntryBytes(data: seq<byte>, attributes: u32)
    requires |data| < MAX_DATA
    ensures var e, n := Entry(data, attributes), |data|;
            && |e| % 4096 == 0 && n + 12 <= |e| < n + 12 + 4096
            && e[..4] == Le32(n) && e[4..8] == Le32(attributes) && e[8..8 + n] == data
            && e[8 + n..12 + n] == Le32(Crc.Crc32(data)) && forall k :: 12 + n <= k < |e| ==> e[k] == 0xFF
  {
    hide Le32, PaddingFor, Crc.Crc32;
    var e, n := Entry(data, attributes), |data|;
    PaddingFillsSector(n + 12);
    var crc := Crc.Crc32(data);
    assert e == Le32(n) + Le32(attributes) + data + Le32(crc) + Filled(PaddingFor(n + 12), 0xFF);
  }

  /** Names that fit their one-byte length, not too many apps, and data small enough for 32-bit lengths. */
  predicate Packable(apps: seq<App>)
  {
    |apps| < 0x100 && forall i :: 0 <= i < |apps| ==> |apps[i].name| < 0x100 && |apps[i].data| < MAX_DATA
  }

  /** The first `n` names, each behind its length. */
  function Names(apps: seq<App>, n: nat): (s: seq<byte>)
    requires Packable(apps) && n <= |apps|
    ensures |s| <= 0x100 * n
  {
    if n == 0 then [] else Names(apps, n - 1) + [|apps[n - 1].name|] + apps[n - 1].name
  }

  /** The data of entry 0. */
  function Index(apps: seq<App>): (s: seq<byte>)
    requires Packable(apps)
    ensures |s| <= 0x1_0000
  {
    [|apps|] + Names(apps, |apps|)
  }

  /** What entry `i` holds: entry 0 the names, entry `i` + 1 app `i`. */
  function DataOf(apps: seq<App>, i: nat): (s: seq<byte>)
    requires Packable(apps) && i <= |apps|
    ensures |s| < MAX_DATA
  {
    if i == 0 then Index(apps) else apps[i - 1].data
  }

  function AttributesOf(apps: seq<App>, i: nat): u32
    requires i <= |apps|
  {
    if i == 0 then 0 else apps[i - 1].attributes
  }

  function Entries(apps: seq<App>): (es: seq<seq<byte>>)
    requires Packable(apps)
    ensures |es| == |apps| + 1
    ensures forall i :: 0 <= i <= |apps| ==> es[i] == Entry(DataOf(apps, i), AttributesOf(apps, i))
  {
    seq(|apps| + 1, i requires 0 <= i <= |apps| => Entry(DataOf(apps, i), AttributesOf(apps, i)))
  }

  // ----- Layout

  function HeaderLength(count: nat): nat
  {
    16 + 8 * count
  }

  function FirstStart(count: nat): nat
  {
    HeaderLength(count) + PaddingFor(HeaderLength(count))
  }

  /** Where entry `i` starts; `i` = |es| gives the length of the whole partition. */
  function Start(es: seq<seq<byte>>, i: nat): nat
    requires i <= |es|
  {
    if i == 0 then FirstStart(|es|) else Start(es, i - 1) + |es[i - 1]|
  }

  predicate Fits(es: seq<seq<byte>>)
  {
    |es| <= 0x100 && Start(es, |es|) <= APPS_COUNT * SECTOR_SIZE
  }

  lemma {:induction false} StartsIncrease(es: seq<seq<byte>>, i: nat, j: nat)
    requires i <= j <= |es|
    ensures Start(es, i) <= Start(es, j)
    ensures i < j ==> Start(es, i) + |es[i]| == Start(es, i + 1) <= Start(es, j)
    decreases j - i
  {
    if i < j {
      StartsIncrease(es, i, j - 1);
    }
  }

  lemma StartsFit(es: seq<seq<byte>>, i: nat)
    requires Fits(es) && i < |es|
    ensures Start(es, i) + |es[i]| <= APPS_COUNT * SECTOR_SIZE < TWO_32
  {
    StartsIncrease(es, i, |es|);
  }

  /** The lookup table of the first `n` entries. */
  function Table(es: seq<seq<byte>>, n: nat): (s: seq<byte>)
    requires Fits(es) && n <= |es|
    ensures |s| == 8 * n
  {
    if n == 0 then []
    else
      StartsFit(es, n - 1);
      Table(es, n - 1) + Le32(Start(es, n - 1)) + Le32(|es[n - 1]|)
  }

  function Body(es: seq<seq<byte>>, n: nat): (s: seq<byte>)
    requires n <= |es|
    ensures |s| == Start(es, n) - Start(es, 0)
  {
    if n == 0 then [] else Body(es, n - 1) + es[n - 1]
  }

  function FixedHeader(count: u32): (s: seq<byte>)
    ensures |s| == 16
  {
    APPS_MAGIC1 + Le32(APPS_MAGIC2) + Le32(APPS_VERSION) + Le32(count)
  }

  function Layout(es: seq<seq<byte>>): (s: seq<byte>)
    requires Fits(es)
    ensures |s| == Start(es, |es|)
  {
    FixedHeader(|es|) + Table(es, |es|) + Filled(PaddingFor(HeaderLength(|es|)), 0xFF) + Body(es, |es|)
  }

  // ----- The builder

  method CalculatePaddingForLen(length: nat) returns (padding: nat)
    ensures padding == PaddingFor(length)
  {
    padding := 0;
    if length % SECTOR_SIZE != 0 {
      padding := (length + SECTOR_SIZE - 1) / SECTOR_SIZE * SECTOR_SIZE - length;
    }
  }

  method PackEntry(data: seq<byte>, attributes: u32) returns (entry: seq<byte>)
    requires |data| < MAX_DATA
    ensures entry == Entry(data, attributes)
  {
    hide Crc.CrcFrom, Le32, PaddingFor;
    entry := Le32(|data|) + Le32(attributes);
    entry := entry + data;
    var crc := Crc.BuilderCrc32(data);
    var crcValue: u32 := crc.bits as nat;
    entry := entry + Le32(crcValue);
    hide Crc.Crc32;
    var padding := CalculatePaddingForLen(|entry|);
    entry := entry + Filled(padding, 0xFF);
  }

  method PackEntries(apps: seq<App>) returns (entries: seq<seq<byte>>)
    requires Packable(apps)
    ensures entries == Entries(apps)
    ensures |entries| == |apps| + 1 && entries[0] == Entry([|apps|] + Names(apps, |apps|), 0)
    ensures forall i :: 0 <= i < |apps| ==> entries[i + 1] == Entry(apps[i].data, apps[i].attributes)
  {
    hide Entry;
    var appNames: seq<byte> := [];
    for i := 0 to |apps|
      invariant appNames == Names(apps, i)
    {
      appNames := appNames + [|apps[i].name|] + apps[i].name;
    }
    appNames := [|apps|] + appNames;
    var namesEntry := PackEntry(appNames, 0);
    entries := [namesEntry];
    for i := 0 to |apps|
      invariant |entries| == i + 1
      invariant forall k :: 0 <= k <= i ==> entries[k] == Entries(apps)[k]
    {
      var entry := PackEntry(apps[i].data, apps[i].attributes);
      entries := entries + [entry];
    }
  }

  method Build(entries: seq<seq<byte>>) returns (out: seq<byte>)
    requires Fits(entries)
    ensures out == Layout(entries)
  {
    hide Le32, PaddingFor;
    var header := FixedHeader(|entries|);
    var headerLength := |header| + 2 * 4 * |entries|;
    var headerPadding := CalculatePaddingForLen(headerLength);
    var offset := headerLength + headerPadding;
    var lookupTable: seq<byte> := [];
    for i := 0 to |entries|
      invariant lookupTable == Table(entries, i) && offset == Start(entries, i)
    {
      StartsFit(entries, i);
      lookupTable := lookupTable + (Le32(offset) + Le32(|entries[i]|));
      assert lookupTable == Table(entries, i) + Le32(offset) + Le32(|entries[i]|);
      offset := offset + |entries[i]|;
    }
    out := header + lookupTable + Filled(headerPadding, 0xFF);
    ghost var front := out;
    for i := 0 to |entries|
      invariant out == front + Body(entries, i)
    {
      out := out + entries[i];
    }
  }

  // ----- Geometry

  lemma {:induction false} StartsAligned(es: seq<seq<byte>>, i: nat)
    requires i <= |es| && forall k :: 0 <= k < |es| ==> |es[k]| % SECTOR_SIZE == 0
    ensures Start(es, i) % SECTOR_SIZE == 0
  {
    if i == 0 {
      PaddingFillsSector(HeaderLength(|es|));
    } else {
      StartsAligned(es, i - 1);
      SumAligned(Start(es, i - 1), |es[i - 1]|);
    }
  }

  lemma SumAligned(a: nat, b: nat)
    requires a % SECTOR_SIZE == 0 && b % SECTOR_SIZE == 0
    ensures (a + b) % SECTOR_SIZE == 0
  {
  }

  /** Entries are whole sectors, lie one after the other behind the header, and never overlap. */
  lemma EntriesAreDisjoint(apps: seq<App>, i: nat, j: nat)
    requires Packable(apps) && i < j <= |apps|
    ensures var es := Entries(apps);
            && Start(es, i) % SECTOR_SIZE == 0 && |es[i]| % SECTOR_SIZE == 0 && |es[i]| > 0
            && HeaderLength(|es|) <= Start(es, i)
            && Start(es, i) + |es[i]| == Start(es, i + 1) <= Start(es, j)
  {
    hide PaddingFor, Entry, Start, DataOf, AttributesOf;
    var es := Entries(apps);
    forall k | 0 <= k < |es|
      ensures |es[k]| % SECTOR_SIZE == 0 && |es[k]| > 0
    {
      EntryIsSectors(DataOf(apps, k), AttributesOf(apps, k));
    }
    StartsAligned(es, i);
    StartsIncrease(es, 0, i);
    StartsIncrease(es, i, j);
    FirstIsBehindHeader(es);
  }

  lemma EntryIsSectors(data: seq<byte>, attributes: u32)
    requires |data| < MAX_DATA
    ensures |Entry(data, attributes)| % SECTOR_SIZE == 0 && |Entry(data, attributes)| > 0
  {
    hide Entry, PaddingFor;
    PaddingFillsSector(|data| + 12);
    PaddingIsNatural(|data| + 12);
  }

  lemma FirstIsBehindHeader(es: seq<seq<byte>>)
    ensures HeaderLength(|es|) <= Start(es, 0)
  {
    hide PaddingFor;
    PaddingIsNatural(HeaderLength(|es|));
  }

  lemma PaddingIsNatural(length: nat)
    ensures PaddingFor(length) >= 0
  {
  }

  lemma {:induction false} TableAt(es: seq<seq<byte>>, n: nat, i: nat)
    requires Fits(es) && i < n <= |es|
    ensures Start(es, i) < TWO_32 && |es[i]| < TWO_32
    ensures Table(es, n)[8 * i..8 * i + 4] == Le32(Start(es, i))
    ensures Table(es, n)[8 * i + 4..8 * i + 8] == Le32(|es[i]|)
    decreases n
  {
    StartsFit(es, i);
    StartsFit(es, n - 1);
    hide Le32, Start;
    var before := Table(es, n - 1);
    assert Table(es, n) == before + Le32(Start(es, n - 1)) + Le32(|es[n - 1]|);
    if i < n - 1 {
      TableAt(es, n - 1, i);
      assert Table(es, n)[8 * i..8 * i + 4] == before[8 * i..8 * i + 4];
      assert Table(es, n)[8 * i + 4..8 * i + 8] == before[8 * i + 4..8 * i + 8];
    }
  }

  lemma {:induction false} BodyAt(es: seq<seq<byte>>, n: nat, i: nat)
    requires i < n <= |es|
    ensures Start(es, 0) <= Start(es, i) && Start(es, i) - Start(es, 0) + |es[i]| <= |Body(es, n)|
    ensures Body(es, n)[Start(es, i) - Start(es, 0)..][..|es[i]|] == es[i]
    decreases n
  {
    StartsIncrease(es, 0, i);
    StartsIncrease(es, i, n);
    hide Start;
    var k := Start(es, i) - Start(es, 0);
    assert Body(es, n) == Body(es, n - 1) + es[n - 1];
    if i < n - 1 {
      BodyAt(es, n - 1, i);
      assert Body(es, n)[k..][..|es[i]|] == Body(es, n - 1)[k..][..|es[i]|];
    }
  }

  /** Every entry lies behind the header and inside the partition. */
  lemma EntryBounds(es: seq<seq<byte>>, i: nat)
    requires Fits(es) && i < |es|
    ensures Start(es, i) + |es[i]| <= |Layout(es)| <= APPS_COUNT * SECTOR_SIZE
    ensures Start(es, i) < TWO_32 && |es[i]| < TWO_32
    ensures 16 + 8 * |es| <= Start(es, i)
  {
    hide PaddingFor, Table, Body;
    StartsFit(es, i);
    StartsIncrease(es, 0, i);
    StartsIncrease(es, i, |es|);
    PaddingIsNatural(HeaderLength(|es|));
  }

  function Front(es: seq<seq<byte>>): (s: seq<byte>)
    requires Fits(es)
    ensures |s| == Start(es, 0)
  {
    FixedHeader(|es|) + Table(es, |es|) + Filled(PaddingFor(HeaderLength(|es|)), 0xFF)
  }

  lemma FixedHeaderFirst(es: seq<seq<byte>>)
    requires Fits(es) && |es| > 0
    ensures |Layout(es)| >= 16 && Layout(es)[..16] == FixedHeader(|es|)
  {
    hide Start, Table, Body, PaddingFor, FixedHeader, Filled;
    EntryBounds(es, 0);
  }

  /** Where the table gives offset and length of an entry. */
  lemma TableInPartition(es: seq<seq<byte>>, i: nat)
    requires Fits(es) && i < |es|
    ensures Start(es, i) < TWO_32 && |es[i]| < TWO_32 && 24 + 8 * i <= |Layout(es)|
    ensures Layout(es)[16 + 8 * i..20 + 8 * i] == Le32(Start(es, i))
    ensures Layout(es)[20 + 8 * i..24 + 8 * i] == Le32(|es[i]|)
  {
    hide Le32, Start, Table, Layout;
    EntryBounds(es, i);
    TableAt(es, |es|, i);
    TableSlice(es, 8 * i, 16 + 8 * i);
    TableSlice(es, 8 * i + 4, 20 + 8 * i);
  }

  lemma TableSlice(es: seq<seq<byte>>, k: nat, lo: nat)
    requires Fits(es) && k + 4 <= 8 * |es| && lo == 16 + k
    ensures lo + 4 <= |Layout(es)| && Layout(es)[lo..lo + 4] == Table(es, |es|)[k..k + 4]
  {
    hide Start, Table, Body, PaddingFor, FixedHeader, Filled;
    EntryBounds(es, 0);
    var rest := Filled(PaddingFor(HeaderLength(|es|)), 0xFF) + Body(es, |es|);
    assert Layout(es) == FixedHeader(|es|) + Table(es, |es|) + rest;
    SliceAfter(FixedHeader(|es|), Table(es, |es|), rest, Layout(es), k, 4, lo);
  }

  lemma SliceAfter(h: seq<byte>, t: seq<byte>, r: seq<byte>, p: seq<byte>, k: nat, n: nat, lo: nat)
    requires p == h + t + r && k + n <= |t| && lo == |h| + k
    ensures p[lo..lo + n] == t[k..k + n]
  {
  }

  /** Each entry is where the table says. */
  lemma EntryInPartition(es: seq<seq<byte>>, i: nat)
    requires Fits(es) && i < |es|
    ensures Start(es, i) + |es[i]| <= |Layout(es)|
    ensures Layout(es)[Start(es, i)..Start(es, i) + |es[i]|] == es[i]
  {
    hide Start, Table, Body, PaddingFor, FixedHeader, Filled;
    EntryBounds(es, i);
    BodyAt(es, |es|, i);
    var front, body, k := Front(es), Body(es, |es|), Start(es, i) - Start(es, 0);
    assert Layout(es) == front + body + [];
    assert body[k..][..|es[i]|] == body[k..k + |es[i]|];
    SliceAfter(front, body, [], Layout(es), k, |es[i]|, Start(es, i));
  }

  // ----- What the firmware reads

  function FlashByte(f: Flash, k: nat): byte
    requires k < FLASH_SECTORS * SECTOR_SIZE
  {
    f[k / SECTOR_SIZE][k % SECTOR_SIZE]
  }

  /** The flash holds `image` at the start of the apps partition. */
  predicate Installed(f: Flash, image: seq<byte>)
  {
    && |image| <= APPS_COUNT * SECTOR_SIZE
    && forall k :: 0 <= k < |image| ==> FlashByte(f, APPS_OFFSET + k) == image[k]
  }

  lemma WordInstalled(f: Flash, image: seq<byte>, k: nat, x: u32)
    requires Installed(f, image) && k + 4 <= |image| && k + 4 <= SECTOR_SIZE && image[k..k + 4] == Le32(x)
    ensures AppsWord(f, k) == x
  {
    hide Le32, AppsWord, FlashByte;
    forall j | k <= j < k + 4
      ensures f[APPS_FIRST][j] == image[j]
    {
      FirstSector(f, j);
    }
    assert f[APPS_FIRST][k..k + 4] == image[k..k + 4];
    AppsWordBytes(f, k, x);
  }

  lemma FirstSector(f: Flash, k: nat)
    requires k < SECTOR_SIZE
    ensures FlashByte(f, APPS_OFFSET + k) == f[APPS_FIRST][k]
  {
  }

  /** The firmware's header lookups return what the builder put there, entry by entry. */
  lemma LookupsFindEntries(f: Flash, es: seq<seq<byte>>, i: byte)
    requires Fits(es) && i < |es| && Installed(f, Layout(es))
    ensures AppsPresent(f) && AppsCount(f) == |es|
    ensures AppOffset(f, i) == Start(es, i) && AppLength(f, i) == |es[i]|
  {
    hide Le32, Start, Layout, AppsWord, Installed, PaddingFor, FixedHeader;
    var p := Layout(es);
    TableInPartition(es, i);
    WordInstalled(f, p, 16 + 8 * i, Start(es, i));
    WordInstalled(f, p, 20 + 8 * i, |es[i]|);
    FixedHeaderFirst(es);
    HeaderInstalled(f, p, |es|);
  }

  lemma HeaderInstalled(f: Flash, image: seq<byte>, count: u32)
    requires Installed(f, image) && |image| >= 16 && image[..16] == FixedHeader(count)
    ensures AppsPresent(f) && AppsCount(f) == count
  {
    hide Le32, AppsWord, Installed, FixedHeader;
    FixedHeaderParts(image, count);
    WordInstalled(f, image, 4, APPS_MAGIC2);
    WordInstalled(f, image, 8, APPS_VERSION);
    WordInstalled(f, image, 12, count);
    MagicInstalled(f, image);
  }

  lemma FixedHeaderParts(p: seq<byte>, count: u32)
    requires |p| >= 16 && p[..16] == FixedHeader(count)
    ensures p[..4] == APPS_MAGIC1 && p[4..8] == Le32(APPS_MAGIC2) && p[8..12] == Le32(APPS_VERSION)
    ensures p[12..16] == Le32(count)
  {
    hide Le32;
    assert p[..4] == p[..16][..4] && p[4..8] == p[..16][4..8] && p[8..12] == p[..16][8..12] && p[12..16] == p[..16][12..16];
  }

  lemma MagicInstalled(f: Flash, image: seq<byte>)
    requires Installed(f, image) && |image| >= 4 && image[..4] == APPS_MAGIC1
    ensures f[APPS_FIRST][0..4] == APPS_MAGIC1
  {
    forall j | 0 <= j < 4
      ensures f[APPS_FIRST][j] == APPS_MAGIC1[j]
    {
      FirstSector(f, j);
      assert image[j] == image[..4][j];
    }
  }

  // ----- The header in bytes

  /** How every built partition begins: "APPS", the second magic, version 2, the number of entries. */
  lemma HeaderBytes(es: seq<seq<byte>>)
    requires Fits(es)
    ensures |Layout(es)| >= 16
    ensures Layout(es)[..12] == [0x41, 0x50, 0x50, 0x53, 0xB4, 0x0A, 0xB8, 0x4F, 0x02, 0x00, 0x00, 0x00]
    ensures Layout(es)[12..16] == [|es| % 0x100, |es| / 0x100, 0, 0]
  {
    hide Start, Table, Body, PaddingFor, Filled;
    var rest := Table(es, |es|) + Filled(PaddingFor(HeaderLength(|es|)), 0xFF) + Body(es, |es|);
    assert Layout(es) == FixedHeader(|es|) + rest;
    assert Layout(es)[..12] == FixedHeader(|es|)[..12];
    assert Layout(es)[12..16] == FixedHeader(|es|)[12..16];
  }

  /** A partition as built, but for one of those twelve bytes, answers every read with an error. */
  lemma DamagedHeaderNoAnswer(e: Env, es: seq<seq<byte>>, i: nat, b: byte, app: byte, offset: u32, size: u32, withCrc: bool, board: Board)
    requires Fits(es) && i < 12 && |Layout(es)| >= 12 && b != Layout(es)[i] && Installed(e.flash, Layout(es)[i := b])
    ensures Execute(e, ReadApp(app, offset, size, withCrc), board) == (e, Err)
  {
    hide Layout, FlashByte, Execute;
    HeaderBytes(es);
    FirstSector(e.flash, i);
    var image := Layout(es)[i := b];
    assert FlashByte(e.flash, APPS_OFFSET + i) == image[i] == b;
    assert e.flash[APPS_FIRST][..12][i] == b && Layout(es)[..12][i] != b;
    NoAppsNoAnswer(e, app, offset, size, withCrc, board);
  }

  /** Over the wire: on a board whose apps partition was never written, the frame of a read is answered with an error and
      leaves everything else as it was. */
  lemma ErasedAppsOverTheWire(m: Machine, app: byte, offset: u32, size: u32, withCrc: bool)
    requires m.received == [] && forall k :: 0 <= k < SECTOR_SIZE ==> m.env.flash[APPS_FIRST][k] == 0xFF
    ensures ReceiveAll(m, Encode(ReadApp(app, offset, size, withCrc))) == m.(replies := m.replies + [Err])
  {
    hide Encode, ReceiveAll, Execute;
    EncodedCommandIsExecuted(m, ReadApp(app, offset, size, withCrc));
    ErasedAppsNoAnswer(m.env, app, offset, size, withCrc, m.board);
  }

  /** `size` bytes of memory-mapped flash from `address` on. */
  function FlashBytes(f: Flash, address: nat, size: nat): (s: seq<byte>)
    requires XIP_BASE <= address && address - XIP_BASE + size <= FLASH_SECTORS * SECTOR_SIZE
    ensures |s| == size
  {
    seq<byte>(size, k requires 0 <= k < size => FlashByte(f, address - XIP_BASE + k))
  }

  /** The bytes that the read-app command answers with, if it accepts the request. */
  function AppBytes(f: Flash, app: byte, offset: u32, size: u32): Option<seq<byte>>
  {
    match AppReply(f, app, offset, size, true)
    case OkData(FlashAt(address, _), _) =>
      if XIP_BASE <= address && address - XIP_BASE + size <= FLASH_SECTORS * SECTOR_SIZE
      then Some(FlashBytes(f, address, size)) else None
    case _ => None
  }

  /** Reading inside an entry gives the corresponding slice of what was packed. */
  lemma ReadsInsideEntries(f: Flash, es: seq<seq<byte>>, i: byte, offset: nat, size: nat)
    requires Fits(es) && i < |es| && Installed(f, Layout(es))
    requires offset < |es[i]| && offset + size <= |es[i]|
    ensures |es[i]| < TWO_32 && AppBytes(f, i, offset, size) == Some(es[i][offset..offset + size])
  {
    hide Start, Layout, AppsWord, AppsPresent, PaddingFor, Installed, FlashBytes, AppBytes;
    var p, start := Layout(es), Start(es, i);
    LookupsFindEntries(f, es, i);
    EntryBounds(es, i);
    AppAnswer(f, i, offset, size);
    InstalledSlice(f, p, start + offset, size);
    EntryInPartition(es, i);
    SliceOfSlice(p, start, start + |es[i]|, offset, offset + size);
  }

  lemma SliceOfSlice(p: seq<byte>, a: nat, b: nat, c: nat, d: nat)
    requires a <= b <= |p| && c <= d <= b - a
    ensures p[a..b][c..d] == p[a + c..a + d]
  {
    var x, y := p[a..b][c..d], p[a + c..a + d];
    assert |x| == |y| && forall k :: 0 <= k < |x| ==> x[k] == y[k];
    assert x == y;
  }

  lemma InstalledSlice(f: Flash, image: seq<byte>, at: nat, size: nat)
    requires Installed(f, image) && at + size <= |image|
    ensures FlashBytes(f, APPS_ADDRESS + at, size) == image[at..at + size]
  {
    hide FlashByte;
    var bytes := FlashBytes(f, APPS_ADDRESS + at, size);
    forall k | 0 <= k < size
      ensures bytes[k] == image[at..at + size][k]
    {
      assert FlashByte(f, APPS_OFFSET + (at + k)) == image[at + k];
    }
    assert bytes == image[at..at + size];
  }

  /** The answer to a request that the read-app command accepts. */
  lemma AppAnswer(f: Flash, app: byte, offset: u32, size: u32)
    requires AppsPresent(f) && AppsCount(f) > app && AppLength(f, app) > offset
    requires AppOffset(f, app) + offset + size <= APPS_COUNT * SECTOR_SIZE
    ensures AppBytes(f, app, offset, size) == Some(FlashBytes(f, APPS_ADDRESS + AppOffset(f, app) + offset, size))
  {
    hide AppsWord, AppsPresent, FlashBytes;
    var address := APPS_ADDRESS + AppOffset(f, app) + offset;
    assert address % TWO_32 == address;
    assert AppReply(f, app, offset, size, true) == OkData(FlashAt(address, size), true);
    assert XIP_BASE <= address && address - XIP_BASE + size <= FLASH_SECTORS * SECTOR_SIZE;
    assert AppBytes(f, app, offset, size) == Some(FlashBytes(f, address, size));
  }

  // ----- The menu's index loop

  /** Walks the index with a moving pointer; the name of app `i` is found for entry `i` + 1. */
  method ReadNames(index: seq<byte>, ghost apps: seq<App>) returns (names: seq<seq<byte>>, entryOf: seq<nat>)
    requires Packable(apps) && index == Index(apps)
    ensures |names| == |entryOf| == |apps|
    ensures forall i :: 0 <= i < |apps| ==> names[i] == apps[i].name && entryOf[i] == i + 1
  {
    hide Names, Packable;
    var ptr: nat := 0;
    var appsCount := index[ptr];
    ptr := ptr + 1;
    names, entryOf := [], [];
    for idx := 0 to appsCount
      invariant |names| == |entryOf| == idx && ptr == 1 + |Names(apps, idx)|
      invariant forall i :: 0 <= i < idx ==> names[i] == apps[i].name && entryOf[i] == i + 1
    {
      NameAt(apps, |apps|, idx);
      NextName(apps, idx);
      var nameLength := index[ptr];
      ptr := ptr + 1;
      names := names + [index[ptr..ptr + nameLength]];
      entryOf := entryOf + [idx + 1];
      ptr := ptr + nameLength;
    }
  }

  lemma NextName(apps: seq<App>, i: nat)
    requires Packable(apps) && i < |apps|
    ensures |Names(apps, i + 1)| == |Names(apps, i)| + 1 + |apps[i].name|
  {
  }

  lemma {:induction false} NameAt(apps: seq<App>, n: nat, i: nat)
    requires Packable(apps) && i < n <= |apps|
    ensures var k, name, s := |Names(apps, i)|, apps[i].name, [|apps|] + Names(apps, n);
            && k + 1 + |name| <= |Names(apps, n)|
            && s[k + 1] == |name| && s[k + 2..k + 2 + |name|] == name
    decreases n
  {
    var k, name := |Names(apps, i)|, apps[i].name;
    var all := Names(apps, n);
    if i == n - 1 {
      assert all == Names(apps, i) + [|name|] + name;
      assert ([|apps|] + all)[k + 2..k + 2 + |name|] == name;
    } else {
      NameAt(apps, n - 1, i);
      var before := Names(apps, n - 1);
      assert all[..|before|] == before;
      assert ([|apps|] + all)[k + 2..k + 2 + |name|] == ([|apps|] + before)[k + 2..k + 2 + |name|];
    }
  }
}
