/** The file system driver that serves the apps partition to the console (fruitchip-fwfs/src/fwfs.c), and the menu's
    use of it to list the apps. */
module Fwfs {
  import opened Bits
  import opened SectorFlash
  import opened Protocol
  import opened Apps
  import Crc

  const MAX_FILES := 8
  const MODE_DATA: byte := 0x64
  const MODE_ATTR: byte := 0x61
  const SLASH: byte := 0x2f
  const SIZE_OFFSET := 0
  const ATTR_OFFSET := 4
  const ATTR_SIZE := 4
  const DATA_OFFSET := 8

  const MINUS_ENOENT: u32 := TWO_32 - 2
  const MINUS_EIO: u32 := TWO_32 - 5
  const EMFILE := 24
  const EIO := 5
  const ENOSYS := 38
  datatype Whence = SeekSet | SeekCur | SeekEnd

  /** `fwfs_file_t`; a handle is free when its size is 0. The offset is one into the entry, header included. */
  datatype FileHandle = FileHandle(mode: byte, idx: byte, size: u32, attributes: u32, offset: u32)

  const FREE := FileHandle(0, 0, 0, 0, 0)

  function IdxFromName(name: seq<byte>): byte
    requires |name| >= 3
  {
    if name[0] == SLASH then name[2] else name[1]
  }

  function ModeFromName(name: seq<byte>): byte
    requires |name| >= 3
  {
    if name[0] == SLASH then name[1] else name[0]
  }

  /** "d" or "a", then the number of the entry; a slash in front does not matter. */
  lemma NamesAreRead(mode: byte, idx: byte, rest: seq<byte>)
    requires mode == 0x64 || mode == 0x61
    ensures |rest| >= 1 ==> ModeFromName([mode, idx] + rest) == mode && IdxFromName([mode, idx] + rest) == idx
    ensures ModeFromName([0x2F, mode, idx] + rest) == mode && IdxFromName([0x2F, mode, idx] + rest) == idx
  {
  }

  function Min(a: nat, b: nat): nat
  {
    if a < b then a else b
  }

  /** The flash holds a partition built from `apps`. */
  predicate Built(f: Flash, apps: seq<App>)
    ensures Built(f, apps) ==> Packable(apps)
  {
    Packable(apps) && Fits(Entries(apps)) && Installed(f, Layout(Entries(apps)))
  }

  // ----- What the driver reads from an entry

  lemma EntryPrefix(data: seq<byte>, attributes: u32)
    requires |data| < MAX_DATA
    ensures Le32(|data|) + Le32(attributes) + data <= Entry(data, attributes)
    ensures 12 + |data| <= |Entry(data, attributes)|
  {
    hide Le32, PaddingFor, Filled, Crc.Crc32;
    PaddingIsNatural(|data| + 12);
  }

  /** What a handle of an existing entry with that size can see: header, data and, if it is larger than both, what
      follows them in the entry. */
  function Window(apps: seq<App>, idx: nat, size: nat): (w: seq<byte>)
    requires Packable(apps) && idx <= |apps| && DATA_OFFSET + size <= |Entries(apps)[idx]|
    ensures |w| == DATA_OFFSET + size
  {
    Entries(apps)[idx][..DATA_OFFSET + size]
  }

  /** The window of a handle opened for data is the header and the data, that of one opened for attributes begins
      with the header. */
  lemma OpenedWindow(apps: seq<App>, idx: nat)
    requires Packable(apps) && idx <= |apps|
    ensures var size := |DataOf(apps, idx)|;
            && DATA_OFFSET + size <= |Entries(apps)[idx]|
            && Window(apps, idx, size) == Le32(size) + Le32(AttributesOf(apps, idx)) + DataOf(apps, idx)
    ensures DATA_OFFSET + ATTR_SIZE <= |Entries(apps)[idx]|
    ensures Window(apps, idx, ATTR_SIZE)[..DATA_OFFSET] == Le32(|DataOf(apps, idx)|) + Le32(AttributesOf(apps, idx))
  {
    hide Entry, Le32, DataOf, AttributesOf;
    var data, attributes, e := DataOf(apps, idx), AttributesOf(apps, idx), Entries(apps)[idx];
    EntryPrefix(data, attributes);
    var front := Le32(|data|) + Le32(attributes);
    assert e[..DATA_OFFSET + |data|] == front + data;
    assert e[..DATA_OFFSET + ATTR_SIZE][..DATA_OFFSET] == e[..DATA_OFFSET + |data|][..DATA_OFFSET] == front;
  }

  /** A read that begins inside the window and stays inside it returns exactly those bytes. */
  lemma DataRead(f: Flash, apps: seq<App>, i: byte, size: nat, offset: nat, n: nat)
    requires Built(f, apps) && i <= |apps| && DATA_OFFSET + size <= |Entries(apps)[i]|
    requires offset < DATA_OFFSET + size && offset + n <= DATA_OFFSET + size
    ensures AppBytes(f, i, offset, n) == Some(Window(apps, i, size)[offset..offset + n])
  {
    hide Entry, Entries, Layout, Fits, Installed, AppBytes;
    ReadsInsideEntries(f, Entries(apps), i, offset, n);
    assert Window(apps, i, size)[offset..offset + n] == Entries(apps)[i][offset..offset + n];
  }

  /** An entry that does not exist is refused, wherever the read begins. */
  lemma NoSuchEntry(f: Flash, apps: seq<App>, i: byte, offset: u32, n: u32)
    requires Built(f, apps) && i > |apps|
    ensures AppBytes(f, i, offset, n) == None
  {
    hide AppsWord, AppsPresent, Installed, Layout, Fits, Entry;
    LookupsFindEntries(f, Entries(apps), 0);
  }

  // ----- Specification of a sequence of reads and seeks

  datatype FileOp = ReadOp(size: int) | SeekOp(offset: int, whence: Whence)

  /** How many bytes a read of `size` gets when `left` are left; a negative size is taken for a large one. */
  function Count(size: int, left: nat): (n: nat)
    ensures n <= left
  {
    Min(size % TWO_32, left)
  }

  /** Where a seek ends, in a file of `size` bytes at entry offset `o`: 32-bit arithmetic, negative results moved to
      the beginning of the data, results behind the end moved to the end. Results inside the header stay. */
  function Sought(size: nat, o: nat, offset: int, whence: Whence): (r: nat)
    ensures r <= DATA_OFFSET + size
  {
    var t := match whence
      case SeekSet => (offset + DATA_OFFSET) % TWO_32
      case SeekCur => (o + offset) % TWO_32
      case SeekEnd => (size + DATA_OFFSET - offset) % TWO_32;
    if t >= TWO_32 / 2 then DATA_OFFSET else Min(t, DATA_OFFSET + size)
  }

  /** What a run of operations returns, for a handle that sees `window` and stands at `o`. */
  function Expected(window: seq<byte>, o: nat, ops: seq<FileOp>): seq<seq<byte>>
    requires o <= |window| && |window| >= DATA_OFFSET
    decreases |ops|
  {
    if |ops| == 0 then []
    else
      match ops[0]
      case ReadOp(size) =>
        var n := Count(size, |window| - o);
        [window[o..o + n]] + Expected(window, o + n, ops[1..])
      case SeekOp(offset, whence) =>
        [[]] + Expected(window, Sought(|window| - DATA_OFFSET, o, offset, whence), ops[1..])
  }

  lemma Joined(done: seq<seq<byte>>, x: seq<byte>, rest: seq<seq<byte>>)
    ensures done + ([x] + rest) == done + [x] + rest
  {
  }

  lemma SlicesMeet(w: seq<byte>, a: nat, b: nat, c: nat)
    requires a <= b <= c <= |w|
    ensures w[a..b] + w[b..c] == w[a..c]
  {
  }

  lemma NothingExpected(window: seq<byte>, o: nat)
    requires o <= |window| && |window| >= DATA_OFFSET
    ensures Expected(window, o, []) == []
  {
  }

  lemma NextExpected(window: seq<byte>, o: nat, ops: seq<FileOp>, i: nat)
    requires o <= |window| && |window| >= DATA_OFFSET && i < |ops|
    ensures Expected(window, o, ops[i..]) ==
            match ops[i]
            case ReadOp(size) =>
              var n := Count(size, |window| - o);
              [window[o..o + n]] + Expected(window, o + n, ops[i + 1..])
            case SeekOp(offset, whence) =>
              [[]] + Expected(window, Sought(|window| - DATA_OFFSET, o, offset, whence), ops[i + 1..])
  {
    hide Count, Sought;
    assert ops[i..][0] == ops[i] && ops[i..][1..] == ops[i + 1..];
  }

  /** A seek by less than 2^30 bytes goes to the position asked for or to the nearest end of the file, except that
      positions up to eight bytes before the data, in the header, are kept. */
  lemma SeekExactly(size: nat, o: nat, offset: int, whence: Whence)
    requires size < MAX_DATA && o <= DATA_OFFSET + size && -TWO_32 / 4 <= offset < TWO_32 / 4
    ensures var p := match whence
              case SeekSet => offset
              case SeekCur => o - DATA_OFFSET + offset
              case SeekEnd => size - offset;
            Sought(size, o, offset, whence) - DATA_OFFSET
            == (if p < -DATA_OFFSET then 0 else if p > size then size else p)
  {
    match whence {
      case SeekSet => Wrapped(offset + DATA_OFFSET);
      case SeekCur => Wrapped(o + offset);
      case SeekEnd => Wrapped(size + DATA_OFFSET - offset);
    }
  }

  lemma Wrapped(x: int)
    requires -TWO_32 / 2 <= x < TWO_32 / 2
    ensures x % TWO_32 == if x < 0 then x + TWO_32 else x
  {
  }

  /** A read gets what it asks for or what is left; a negative 32-bit size gets everything that is left. */
  lemma CountExactly(size: int, left: nat)
    requires -TWO_32 / 2 <= size < TWO_32 / 2 && left < TWO_32 / 2
    ensures Count(size, left) == if 0 <= size < left then size else left
  {
    Wrapped(size);
  }

  /** Asking for the length, and going back. */
  lemma SeekEnds(size: nat, o: nat)
    requires size < MAX_DATA
    ensures Sought(size, o, 0, SeekEnd) == DATA_OFFSET + size && Sought(size, o, 0, SeekSet) == DATA_OFFSET
    ensures Count(size, size) == size
  {
  }

  class Driver {
    const flash: Flash
    ghost const apps: seq<App>
    const handles: array<FileHandle>

    ghost predicate Valid()
      reads handles
    {
      && handles.Length == MAX_FILES
      && Built(flash, apps)
      && forall i :: 0 <= i < MAX_FILES ==> InEntry(handles[i])
    }

    /** The handle stands inside its entry, if there is one; only free handles may name entries that do not exist. */
    ghost predicate InEntry(h: FileHandle)
    {
      && Packable(apps)
      && h.size < MAX_DATA && h.offset <= DATA_OFFSET + h.size
      && (h.idx <= |apps| ==> DATA_OFFSET + h.size <= |Entries(apps)[h.idx]|)
      && (h.idx > |apps| ==> h.size == 0)
    }

    /** What a handle can see. */
    ghost function View(fd: nat): (w: seq<byte>)
      requires Valid() && fd < MAX_FILES && handles[fd].idx <= |apps|
      reads handles
      ensures |w| == DATA_OFFSET + handles[fd].size && handles[fd].offset <= |w|
    {
      Window(apps, handles[fd].idx, handles[fd].size)
    }

    constructor (flash: Flash, ghost apps: seq<App>)
      requires Built(flash, apps)
      ensures Valid() && this.flash == flash && this.apps == apps && fresh(handles)
      ensures forall i :: 0 <= i < MAX_FILES ==> handles[i] == FREE
    {
      hide Entry;
      EntryPrefix(DataOf(apps, 0), AttributesOf(apps, 0));
      this.flash, this.apps := flash, apps;
      handles := new FileHandle[MAX_FILES](_ => FREE);
    }

    method FindFreeFileHandle() returns (found: bool, fd: nat)
      requires handles.Length == MAX_FILES
      ensures found ==> fd < MAX_FILES && handles[fd].size == 0 && forall k :: 0 <= k < fd ==> handles[k].size != 0
      ensures !found ==> forall i :: 0 <= i < MAX_FILES ==> handles[i].size != 0
    {
      for i := 0 to MAX_FILES
        invariant forall k :: 0 <= k < i ==> handles[k].size != 0
      {
        if handles[i].size == 0 {
          return true, i;
        }
      }
      return false, 0;
    }

    /** A handle just opened: in data mode at the beginning of the data, in attribute mode at the attributes. */
    ghost function Opened(mode: byte, idx: byte): FileHandle
      requires Packable(apps) && idx <= |apps|
    {
      if mode == MODE_DATA then FileHandle(mode, idx, |DataOf(apps, idx)|, AttributesOf(apps, idx), DATA_OFFSET)
      else FileHandle(mode, idx, ATTR_SIZE, AttributesOf(apps, idx), ATTR_OFFSET)
    }

    /** Files are named by mode and entry number. A handle opened on an empty file has size 0 and so stays free. */
    method Open(name: seq<byte>) returns (result: int, fd: nat)
      requires Valid() && |name| >= 3
      modifies handles
      ensures Valid()
      ensures result == if forall i :: 0 <= i < MAX_FILES ==> old(handles[i]).size != 0 then -EMFILE
                        else if ModeFromName(name) !in {MODE_DATA, MODE_ATTR} then -ENOSYS
                        else if IdxFromName(name) > |apps| then -EIO
                        else 0
      ensures result == 0 ==> fd < MAX_FILES && old(handles[fd]).size == 0 && handles[fd] == Opened(ModeFromName(name), IdxFromName(name))
      ensures forall i :: 0 <= i < MAX_FILES && (result != 0 || i != fd) ==>
                if old(handles[i]).size != 0 then handles[i] == old(handles[i]) else handles[i].size == 0
    {
      hide Built, DataOf, AttributesOf, Le32, LeU32, AppBytes, Packable, Entries;
      var found;
      found, fd := FindFreeFileHandle();
      if !found {
        return -EMFILE, 0;
      }
      var idx, mode := IdxFromName(name), ModeFromName(name);
      Existing(idx);
      handles[fd] := handles[fd].(idx := idx, mode := mode);
      if mode == MODE_DATA {
        var read := AppBytes(flash, idx, SIZE_OFFSET, 8);
        if read.None? {
          return -EIO, 0;
        }
        var b := read.value;
        handles[fd] := FileHandle(mode, idx, LeU32(b[0], b[1], b[2], b[3]), LeU32(b[4], b[5], b[6], b[7]), DATA_OFFSET);
        return 0, fd;
      } else if mode == MODE_ATTR {
        var read := AppBytes(flash, idx, ATTR_OFFSET, ATTR_SIZE);
        if read.None? {
          return -EIO, 0;
        }
        var b := read.value;
        handles[fd] := FileHandle(mode, idx, ATTR_SIZE, LeU32(b[0], b[1], b[2], b[3]), ATTR_OFFSET);
        return 0, fd;
      } else {
        return -ENOSYS, 0;
      }
    }

    /** What opening reads: size and attributes of an entry that exists, nothing otherwise. */
    lemma Existing(idx: byte)
      requires Built(flash, apps)
      ensures Packable(apps)
      ensures idx > |apps| ==> AppBytes(flash, idx, SIZE_OFFSET, 8) == None && AppBytes(flash, idx, ATTR_OFFSET, ATTR_SIZE) == None
      ensures idx <= |apps| ==>
                && InEntry(Opened(MODE_DATA, idx)) && InEntry(Opened(MODE_ATTR, idx))
                && DATA_OFFSET <= |Entries(apps)[idx]|
      ensures idx <= |apps| ==>
                && var size, attr := AppBytes(flash, idx, SIZE_OFFSET, 8), AppBytes(flash, idx, ATTR_OFFSET, ATTR_SIZE);
                && size.Some? && |size.value| == 8 && attr.Some? && |attr.value| == 4
                && var b, a, h := size.value, attr.value, Opened(MODE_DATA, idx);
                && LeU32(b[0], b[1], b[2], b[3]) == h.size && LeU32(b[4], b[5], b[6], b[7]) == h.attributes
                && LeU32(a[0], a[1], a[2], a[3]) == h.attributes
    {
      hide DataOf, AttributesOf, Le32, LeU32, AppBytes, Entries;
      if idx > |apps| {
        NoSuchEntry(flash, apps, idx, SIZE_OFFSET, 8);
        NoSuchEntry(flash, apps, idx, ATTR_OFFSET, ATTR_SIZE);
      } else {
        OpenedWindow(apps, idx);
        DataRead(flash, apps, idx, ATTR_SIZE, SIZE_OFFSET, 8);
        DataRead(flash, apps, idx, ATTR_SIZE, ATTR_OFFSET, ATTR_SIZE);
        var w := Window(apps, idx, ATTR_SIZE);
        var size, attributes := |DataOf(apps, idx)|, AttributesOf(apps, idx);
        assert w[0..8] == w[..DATA_OFFSET] == Le32(size) + Le32(attributes);
        assert w[4..8] == w[..DATA_OFFSET][4..8] == Le32(attributes);
        HeaderDecodes(w[0..8], size, attributes);
        HeaderDecodes(Le32(size) + w[4..8], size, attributes);
      }
    }

    lemma HandleCount()
      requires Valid()
      ensures handles.Length == MAX_FILES && Packable(apps)
    {
      hide Driver.InEntry;
    }

    method Close(fd: nat)
      requires Valid() && fd < MAX_FILES
      modifies handles
      ensures Valid() && handles[fd] == old(handles[fd]).(idx := 0, size := 0, attributes := 0, offset := 0)
      ensures forall i :: 0 <= i < MAX_FILES && i != fd ==> handles[i] == old(handles[i])
    {
      hide Built, DataOf, Packable, Entry;
      EntryPrefix(DataOf(apps, 0), AttributesOf(apps, 0));
      handles[fd] := handles[fd].(idx := 0, size := 0, attributes := 0, offset := 0);
    }

    lemma EntryFacts(h: FileHandle)
      ensures InEntry(h) ==> Packable(apps) && h.size < MAX_DATA && h.offset <= DATA_OFFSET + h.size
      ensures InEntry(h) && h.idx > |apps| ==> h.size == 0
      ensures InEntry(h) && h.idx <= |apps| ==> DATA_OFFSET + h.size <= |Entries(apps)[h.idx]|
      ensures forall o: u32 :: InEntry(h) && o <= DATA_OFFSET + h.size ==> InEntry(h.(offset := o))
    {
      hide Packable, Entries;
    }

    /** What the modchip answers to a read of a handle. */
    lemma ReadAnswer(h: FileHandle, n: nat)
      requires Built(flash, apps) && InEntry(h) && h.offset < DATA_OFFSET + h.size && h.offset + n <= DATA_OFFSET + h.size
      ensures AppBytes(flash, h.idx, h.offset, n)
           == if h.idx <= |apps| then Some(Window(apps, h.idx, h.size)[h.offset..h.offset + n]) else None
    {
      hide Built, AppBytes, Packable, Entries, Window;
      if h.idx <= |apps| {
        DataRead(flash, apps, h.idx, h.size, h.offset, n);
      } else {
        NoSuchEntry(flash, apps, h.idx, h.offset, n);
      }
    }

    /** Reading returns the next bytes that the handle can see, as many as are left, and moves behind them. A handle
        that names no entry, left by a failed open, is refused. */
    method Read(fd: nat, size: int) returns (result: int, bytes: seq<byte>)
      requires Valid() && fd < MAX_FILES
      modifies handles
      ensures Valid()
      ensures old(handles[fd]).idx <= |apps| ==>
                && var o, w := old(handles[fd]).offset, old(View(fd));
                && result == |bytes| && bytes == w[o..o + Count(size, |w| - o)]
                && handles[fd] == old(handles[fd]).(offset := o + result)
      ensures old(handles[fd]).idx > |apps| ==>
                && bytes == [] && handles[fd] == old(handles[fd])
                && result == if old(handles[fd]).offset >= DATA_OFFSET then 0 else -EIO
      ensures forall i :: 0 <= i < MAX_FILES && i != fd ==> handles[i] == old(handles[i])
    {
      hide Built, DataOf, AppBytes, Packable, Entries, Window, Driver.InEntry;
      var h := handles[fd];
      EntryFacts(h);
      if h.offset >= h.size + DATA_OFFSET {
        return 0, [];
      }
      var remainingSize := (h.size - (h.offset - DATA_OFFSET)) % TWO_32;
      var requested := size % TWO_32;
      var availableSize := if requested < remainingSize then requested else remainingSize;
      ReadAnswer(h, availableSize);
      var read := AppBytes(flash, h.idx, h.offset, availableSize);
      if read.None? {
        return -EIO, [];
      }
      handles[fd] := h.(offset := h.offset + availableSize);
      return availableSize, read.value;
    }

    method Lseek(fd: nat, offset: int, whence: Whence) returns (result: int)
      requires Valid() && fd < MAX_FILES
      modifies handles
      ensures Valid()
      ensures handles[fd] == old(handles[fd]).(offset := Sought(old(handles[fd]).size, old(handles[fd]).offset, offset, whence))
      ensures result == handles[fd].offset - DATA_OFFSET
      ensures forall i :: 0 <= i < MAX_FILES && i != fd ==> handles[i] == old(handles[i])
    {
      hide Built, DataOf, Packable, Entries;
      var h := handles[fd];
      match whence {
        case SeekSet => h := h.(offset := (offset + DATA_OFFSET) % TWO_32);
        case SeekCur => h := h.(offset := (h.offset + offset) % TWO_32);
        case SeekEnd => h := h.(offset := (h.size + DATA_OFFSET - offset) % TWO_32);
      }
      if h.offset >= TWO_32 / 2 {
        h := h.(offset := DATA_OFFSET);
      }
      if h.offset > h.size + DATA_OFFSET {
        h := h.(offset := h.size + DATA_OFFSET);
      }
      handles[fd] := h;
      return h.offset - DATA_OFFSET;
    }

    /** Any sequence of reads and seeks returns the corresponding slices of what the handle can see. */
    method RunAll(fd: nat, ops: seq<FileOp>) returns (results: seq<seq<byte>>)
      requires Valid() && fd < MAX_FILES && handles[fd].idx <= |apps|
      modifies handles
      ensures Valid()
      ensures results == Expected(old(View(fd)), old(handles[fd]).offset, ops)
    {
      hide Driver.Valid, Window, Entries, Packable, Sought, Count, Expected;
      HandleCount();
      NothingExpected(View(fd), handles[fd].offset);
      ghost var w, start := View(fd), handles[fd].offset;
      results := [];
      var i := 0;
      while i < |ops|
        invariant i <= |ops| && Valid() && handles[fd].idx <= |apps| && View(fd) == w
        invariant results + Expected(w, handles[fd].offset, ops[i..]) == Expected(w, start, ops)
      {
        NextExpected(w, handles[fd].offset, ops, i);
        match ops[i] {
          case ReadOp(size) =>
            var _, bytes := Read(fd, size);
            Joined(results, bytes, Expected(w, handles[fd].offset, ops[i + 1..]));
            results := results + [bytes];
          case SeekOp(offset, whence) =>
            var _ := Lseek(fd, offset, whence);
            Joined(results, [], Expected(w, handles[fd].offset, ops[i + 1..]));
            results := results + [[]];
        }
        i := i + 1;
      }
      assert ops[|ops|..] == [];
      NothingExpected(w, handles[fd].offset);
      assert results + [] == results;
    }

    /** Reading in pieces until nothing comes any more returns the rest of what the handle can see. */
    method ReadToEnd(fd: nat, chunk: nat) returns (all: seq<byte>)
      requires Valid() && fd < MAX_FILES && handles[fd].idx <= |apps| && 0 < chunk < TWO_32
      modifies handles
      ensures Valid()
      ensures all == old(View(fd))[old(handles[fd]).offset..]
      ensures handles[fd] == old(handles[fd]).(offset := handles[fd].size + DATA_OFFSET)
    {
      hide Driver.Valid, Window, Entries, Packable;
      HandleCount();
      ghost var w, start, before := View(fd), handles[fd].offset, handles[fd];
      all := [];
      var result, bytes := Read(fd, chunk);
      while result != 0
        invariant Valid() && result == |bytes|
        invariant handles[fd] == before.(offset := handles[fd].offset)
        invariant start <= handles[fd].offset <= |w| && |all| + result == handles[fd].offset - start
        invariant all + bytes == w[start..handles[fd].offset]
        invariant result == 0 ==> handles[fd].offset == |w|
        decreases |w| - |all|
      {
        ghost var p := handles[fd].offset;
        all := all + bytes;
        result, bytes := Read(fd, chunk);
        SlicesMeet(w, start, p, p + result);
      }
      assert bytes == [] && all + bytes == all && w[start..|w|] == w[start..];
    }

    // ----- The menu's listing (fruitchip-menu/src/apps.c)

    method AppReadAttributes(idx: byte) returns (attributes: u32)
      requires Valid()
      modifies handles
      ensures Valid()
      ensures forall i :: 0 <= i < MAX_FILES && old(handles[i]).size != 0 ==> handles[i] == old(handles[i])
      ensures forall i :: 0 <= i < MAX_FILES && old(handles[i]).size == 0 ==> handles[i].size == 0
      ensures idx <= |apps| && (exists i :: 0 <= i < MAX_FILES && old(handles[i]).size == 0) ==>
                attributes == AttributesOf(apps, idx)
    {
      hide Built, Packable, Entries, Window, DataOf, AttributesOf, Driver.InEntry, Le32, LeU32;
      var result, fd := Open([MODE_ATTR, idx, 0]);
      if result < 0 {
        return MINUS_ENOENT;
      }
      ghost var w := View(fd);
      OpenedWindow(apps, idx);
      var read, bytes := Read(fd, ATTR_SIZE);
      Close(fd);
      if read != ATTR_SIZE {
        return MINUS_EIO;
      }
      assert bytes == w[4..8] == w[..8][4..8] == Le32(AttributesOf(apps, idx));
      HeaderDecodes(Le32(0) + bytes, 0, AttributesOf(apps, idx));
      return LeU32(bytes[0], bytes[1], bytes[2], bytes[3]);
    }

    /** `apps_read_index`: the data of entry 0; some handle was free before and is free again. */
    method ReadIndex() returns (ok: bool, index: seq<byte>, ghost free: nat)
      requires Valid()
      modifies handles
      ensures Valid() && Packable(apps)
      ensures ok <==> exists i :: 0 <= i < MAX_FILES && old(handles[i]).size == 0
      ensures ok ==> index == Index(apps) && free < MAX_FILES && handles[free].size == 0
    {
      hide Driver.Valid, Driver.InEntry, Entries, Window, Le32, Packable, Index, Built, DataOf, AttributesOf;
      hide Sought, Count;
      HandleCount();
      var result, fd := Open([MODE_DATA, 0, 0]);
      free := fd;
      if result < 0 {
        return false, [], free;
      }
      IndexWindow();
      SeekEnds(handles[fd].size, handles[fd].offset);
      SeekEnds(handles[fd].size, DATA_OFFSET + handles[fd].size);
      ghost var w := View(fd);
      var length := Lseek(fd, 0, SeekEnd);
      var _ := Lseek(fd, 0, SeekSet);
      var read;
      read, index := Read(fd, length);
      Close(fd);
      assert w[DATA_OFFSET..DATA_OFFSET + length] == w[DATA_OFFSET..] == Index(apps);
      return read == length, index, free;
    }

    lemma IndexWindow()
      requires Packable(apps)
      ensures var size := |DataOf(apps, 0)|;
              && size == |Index(apps)| && DATA_OFFSET + size <= |Entries(apps)[0]|
              && Window(apps, 0, size)[DATA_OFFSET..] == Index(apps)
    {
      hide Index, Le32, Window, Entries, Packable;
      OpenedWindow(apps, 0);
    }

    /** Opens the index, asks for its length, reads all of it and walks it, asking for the attributes of each app:
        the names and attributes of all apps, in order, app `i` standing for entry `i` + 1. */
    method ListApps() returns (ok: bool, names: seq<seq<byte>>, entryOf: seq<nat>, attributes: seq<u32>)
      requires Valid()
      modifies handles
      ensures Valid()
      ensures ok <==> exists i :: 0 <= i < MAX_FILES && old(handles[i]).size == 0
      ensures ok ==> |names| == |entryOf| == |attributes| == |apps|
      ensures ok ==>
                forall i :: 0 <= i < |apps| ==>
                  names[i] == apps[i].name && entryOf[i] == i + 1 && attributes[i] == apps[i].attributes
    {
      hide Driver.InEntry, Built, Names, Entries, AttributesOf;
      ghost var before := handles[..];
      var read, index, free := ReadIndex();
      if !read {
        return false, [], [], [];
      }
      names, entryOf := ReadNames(index, apps);
      attributes := [];
      for i := 0 to |names|
        invariant Valid() && handles[free].size == 0
        invariant |attributes| == i && forall k :: 0 <= k < i ==> attributes[k] == AttributesOf(apps, k + 1)
      {
        var attr := AppReadAttributes(entryOf[i]);
        attributes := attributes + [attr];
      }
      AttributesInOrder();
      ok := true;
    }

    lemma AttributesInOrder()
      ensures forall i :: 0 <= i < |apps| ==> AttributesOf(apps, i + 1) == apps[i].attributes
    {
    }
  }

  lemma HeaderDecodes(b: seq<byte>, size: u32, attributes: u32)
    requires b == Le32(size) + Le32(attributes)
    ensures LeU32(b[0], b[1], b[2], b[3]) == size && LeU32(b[4], b[5], b[6], b[7]) == attributes
  {
    Le32Decodes(size);
    Le32Decodes(attributes);
    hide LeU32;
  }
}
