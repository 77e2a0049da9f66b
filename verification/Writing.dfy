/** The menu's update writer at the console's end of the wire (fruitchip-menu/src/scene/settings/update/writing.c with
    fruitchip-include/modchip/flash.h): it reads the status of every frame, tries again and gives up. When it starts, the
    modchip may still be inside a frame that an earlier connection did not finish. */
module Writing {
  import opened Bits
  import opened SectorFlash
  import opened Protocol
  import opened Host
  import opened Update
  import opened ErasedBlock
  import Crc
  import Device
  import Settings

  const RETRIES := 3   // MODCHIP_CMD_RETRIES

  // ----- One frame and its status

  /** Whether the four bytes that the console reads first are the OK code. */
  predicate StatusOk(r: Reply)
  {
    r.Ok? || r.OkData?
  }

  /** Where the writer stands: the modchip's state, the commands sent so far and whether the last one succeeded. */
  datatype Progress = Progress(m: Machine, sent: seq<Command>, ok: bool)

  /** A frame, and the status of the first answer since it began; without an answer the console reads the boot ROM,
      which is not the OK code. */
  function Send(m: Machine, c: Command): Progress
  {
    var n := ReceiveAll(m, Encode(c));
    Progress(n, [c], |n.replies| > |m.replies| && StatusOk(n.replies[|m.replies|]))
  }

  function SendWithRetry(m: Machine, c: Command, attempts: nat): Progress
    decreases attempts
  {
    if attempts == 0 then Progress(m, [], false)
    else
      var p := Send(m, c);
      if p.ok then p
      else
        var q := SendWithRetry(p.m, c, attempts - 1);
        q.(sent := p.sent + q.sent)
  }

  /** The next command, unless one has failed. */
  function Then(p: Progress, c: Command): Progress
  {
    if !p.ok then p
    else
      var q := SendWithRetry(p.m, c, RETRIES);
      q.(sent := p.sent + q.sent)
  }

  // ----- The session

  /** Images of at most 4 GiB: their size is a 32-bit number. */
  predicate Sendable(image: seq<Sector>)
  {
    0 < |image| <= SECTOR_SPACE
  }

  function EraseFirst(partition: byte): Command
  {
    EraseSectors(partition, 0, 1)
  }

  function WriteSectors(p: Progress, partition: byte, image: seq<Sector>, i: nat): Progress
    requires Sendable(image)
    decreases |image| - i
  {
    if !p.ok || i >= |image| then p
    else WriteSectors(Then(p, WriteSector(partition, i, image[i])), partition, image, i + 1)
  }

  /** Everything between unlocking and locking again. */
  function Written(p: Progress, partition: byte, image: seq<Sector>): Progress
    requires Sendable(image)
  {
    var q := WriteSectors(Then(Then(p, EraseFirst(partition)), GetSectorSize), partition, image, 1);
    Then(q, WriteSector(partition, 0, image[0]))
  }

  /** The whole session: unlock, write, and lock again whatever happened. */
  function WholeSession(m: Machine, partition: byte, image: seq<Sector>): Progress
    requires Sendable(image)
  {
    var p := Written(SendWithRetry(m, WriteLock(false), RETRIES), partition, image);
    var q := SendWithRetry(p.m, WriteLock(true), RETRIES);
    Progress(q.m, p.sent + q.sent, p.ok)
  }

  /** The bytes that the session puts on the wire, which depend on the answers. */
  function SessionBytes(m: Machine, partition: byte, image: seq<Sector>): seq<byte>
    requires Sendable(image)
  {
    EncodeAll(WholeSession(m, partition, image).sent)
  }

  // ----- The progress is what receiving the commands sent makes of the modchip

  predicate Reached(m: Machine, p: Progress)
  {
    p.m == ReceiveAll(m, EncodeAll(p.sent))
  }

  lemma {:induction false} EncodedConcatenation(a: seq<Command>, b: seq<Command>)
    ensures EncodeAll(a + b) == EncodeAll(a) + EncodeAll(b)
    decreases |a|
  {
    hide Encode;
    if |a| == 0 {
      assert a + b == b;
    } else {
      assert (a + b)[1..] == a[1..] + b;
      EncodedConcatenation(a[1..], b);
    }
  }

  lemma EncodedOne(c: Command)
    ensures EncodeAll([c]) == Encode(c)
  {
    hide Encode;
    assert [c][1..] == [] && EncodeAll([]) == [];
  }

  lemma ReachedTogether(m: Machine, p: Progress, q: Progress)
    requires Reached(m, p) && Reached(p.m, q)
    ensures q.m == ReceiveAll(m, EncodeAll(p.sent + q.sent))
  {
    hide ReceiveAll, EncodeAll;
    EncodedConcatenation(p.sent, q.sent);
    Protocol.Concatenation(m, EncodeAll(p.sent), EncodeAll(q.sent));
  }

  lemma {:induction false} RetryReached(m: Machine, c: Command, attempts: nat)
    ensures Reached(m, SendWithRetry(m, c, attempts))
    decreases attempts
  {
    hide Encode, StatusOk;
    EncodedOne(c);
    if attempts > 0 {
      var p := Send(m, c);
      RetryReached(p.m, c, attempts - 1);
      hide ReceiveAll, EncodeAll;
      ReachedTogether(m, p, SendWithRetry(p.m, c, attempts - 1));
    }
  }

  lemma ThenReached(m: Machine, p: Progress, c: Command)
    requires Reached(m, p)
    ensures Reached(m, Then(p, c))
  {
    hide ReceiveAll, EncodeAll, SendWithRetry;
    RetryReached(p.m, c, RETRIES);
    ReachedTogether(m, p, SendWithRetry(p.m, c, RETRIES));
  }

  lemma {:induction false} SectorsReached(m: Machine, p: Progress, partition: byte, image: seq<Sector>, i: nat)
    requires Reached(m, p) && Sendable(image)
    ensures Reached(m, WriteSectors(p, partition, image, i))
    decreases |image| - i
  {
    hide Reached, Then;
    if p.ok && i < |image| {
      ThenReached(m, p, WriteSector(partition, i, image[i]));
      SectorsReached(m, Then(p, WriteSector(partition, i, image[i])), partition, image, i + 1);
    }
  }

  lemma WrittenReached(m: Machine, p: Progress, partition: byte, image: seq<Sector>)
    requires Reached(m, p) && Sendable(image)
    ensures Reached(m, Written(p, partition, image))
  {
    hide Reached, Then, WriteSectors;
    ThenReached(m, p, EraseFirst(partition));
    ThenReached(m, Then(p, EraseFirst(partition)), GetSectorSize);
    var q := Then(Then(p, EraseFirst(partition)), GetSectorSize);
    SectorsReached(m, q, partition, image, 1);
    ThenReached(m, WriteSectors(q, partition, image, 1), WriteSector(partition, 0, image[0]));
  }

  /** The session ends in the state that its bytes make of the modchip. */
  lemma SessionReached(m: Machine, partition: byte, image: seq<Sector>)
    requires Sendable(image)
    ensures WholeSession(m, partition, image).m == ReceiveAll(m, SessionBytes(m, partition, image))
  {
    hide ReceiveAll, EncodeAll, SendWithRetry, Written;
    var a := SendWithRetry(m, WriteLock(false), RETRIES);
    RetryReached(m, WriteLock(false), RETRIES);
    WrittenReached(m, a, partition, image);
    var p := Written(a, partition, image);
    RetryReached(p.m, WriteLock(true), RETRIES);
    ReachedTogether(m, p, SendWithRetry(p.m, WriteLock(true), RETRIES));
  }

  // ----- From an idle modchip

  lemma IdleSend(m: Machine, c: Command)
    requires m.received == []
    ensures Send(m, c) == Progress(Step(m, c), [c], StatusOk(Execute(m.env, c, m.board).1))
    ensures Step(m, c).received == [] && Step(m, c).board == m.board && Step(m, c).env == Execute(m.env, c, m.board).0
  {
    hide Encode, Execute, ReceiveAll, StatusOk;
    EncodedCommandIsExecuted(m, c);
  }

  function Copies(c: Command, n: nat): (cs: seq<Command>)
    ensures |cs| == n
  {
    seq(n, i => c)
  }

  lemma {:induction false} IdleRetry(m: Machine, c: Command, attempts: nat)
    requires m.received == [] && attempts > 0
    ensures var p, answer := SendWithRetry(m, c, attempts), Execute(m.env, c, m.board);
            && p.ok == StatusOk(answer.1)
            && p.m.received == [] && p.m.env == answer.0 && p.m.board == m.board
            && p.sent == if p.ok then [c] else Copies(c, attempts)
    decreases attempts
  {
    hide Encode, Execute, Send, StatusOk, Step;
    IdleSend(m, c);
    RetryIsHarmless(m.env, c, m.board);
    var p := Send(m, c);
    if !p.ok && attempts > 1 {
      IdleRetry(p.m, c, attempts - 1);
      assert [c] + Copies(c, attempts - 1) == Copies(c, attempts);
    } else if !p.ok {
      assert SendWithRetry(p.m, c, 0) == Progress(p.m, [], false);
      assert [c] + [] == Copies(c, 1);
    }
  }

  lemma IdleThen(p: Progress, c: Command)
    requires p.m.received == [] && p.ok
    ensures var q, answer := Then(p, c), Execute(p.m.env, c, p.m.board);
            && q.ok == StatusOk(answer.1)
            && q.m.received == [] && q.m.env == answer.0 && q.m.board == p.m.board
            && q.sent == p.sent + if q.ok then [c] else Copies(c, RETRIES)
  {
    hide Execute, SendWithRetry, StatusOk;
    IdleRetry(p.m, c, RETRIES);
  }

  /** What the erase and write commands of a session do to an unlocked modchip. */
  lemma CommandOnPartition(e: Env, partition: byte, i: nat, data: Sector, board: Board)
    requires Writable(partition) && i < WritableCount(partition) && !e.locked
    ensures Execute(e, WriteSector(partition, i, data), board)
         == if Accepted(partition, i) then (e.(flash := e.flash[WritableFirst(partition) + i := data]), Ok) else (e, Err)
    ensures Execute(e, EraseFirst(partition), board) == (e.(flash := e.flash[WritableFirst(partition) := ERASED]), Ok)
  {
    hide Replace, ApplyAll, SectorFlash.Disciplined;
    var first := WritableFirst(partition);
    TargetOf(partition, i);
    TargetOf(partition, 0);
    NoOps(e.flash);
    ReplaceStores(e.flash, first + i, data);
    MenuErase(e.flash, partition);
    assert EraseRange(first, 1) == [Erase(first)];
  }

  /** The commands that write sectors `i` and up: the first one that is refused is sent three times and ends it. */
  function SectorCommands(partition: byte, image: seq<Sector>, i: nat): seq<Command>
    requires Sendable(image)
    decreases |image| - i
  {
    if i >= |image| then []
    else if Accepted(partition, i)
    then [WriteSector(partition, i, image[i])] + SectorCommands(partition, image, i + 1)
    else Copies(WriteSector(partition, i, image[i]), RETRIES)
  }

  /** The commands between unlocking and locking, for a modchip that is idle. */
  function WritingCommands(partition: byte, image: seq<Sector>, locked: bool): seq<Command>
    requires Sendable(image)
  {
    if locked then Copies(EraseFirst(partition), RETRIES)
    else
      [EraseFirst(partition), GetSectorSize] + SectorCommands(partition, image, 1)
      + if |image| < WritableCount(partition) then [WriteSector(partition, 0, image[0])] else []
  }

  lemma IdleSector(p: Progress, partition: byte, i: nat, data: Sector)
    requires p.ok && p.m.received == [] && !p.m.env.locked && Writable(partition) && i < WritableCount(partition)
    ensures var c := WriteSector(partition, i, data);
            var q := Then(p, c);
            && q.m.received == [] && !q.m.env.locked && q.m.board == p.m.board
            && q.ok == Accepted(partition, i)
            && q.sent == p.sent + if q.ok then [c] else Copies(c, RETRIES)
  {
    hide Then, Execute, Writable, WritableCount, WritableFirst, Accepted;
    IdleThen(p, WriteSector(partition, i, data));
    CommandOnPartition(p.m.env, partition, i, data, p.m.board);
  }

  lemma NextSector(p: Progress, partition: byte, image: seq<Sector>, i: nat)
    requires Sendable(image) && p.ok && i < |image|
    ensures WriteSectors(p, partition, image, i)
         == WriteSectors(Then(p, WriteSector(partition, i, image[i])), partition, image, i + 1)
  {
    hide Then;
  }

  lemma NoMoreSectors(p: Progress, partition: byte, image: seq<Sector>, i: nat)
    requires Sendable(image) && (!p.ok || i >= |image|)
    ensures WriteSectors(p, partition, image, i) == p
  {
  }

  lemma NextSectorCommands(partition: byte, image: seq<Sector>, i: nat)
    requires Sendable(image)
    ensures i >= |image| ==> SectorCommands(partition, image, i) == []
    ensures i < |image| && Accepted(partition, i) ==>
              SectorCommands(partition, image, i)
              == [WriteSector(partition, i, image[i])] + SectorCommands(partition, image, i + 1)
    ensures i < |image| && !Accepted(partition, i) ==>
              SectorCommands(partition, image, i) == Copies(WriteSector(partition, i, image[i]), RETRIES)
  {
  }

  lemma AcceptedMeans(partition: nat, i: nat)
    ensures Accepted(partition, i) <==> i + 1 < WritableCount(partition)
  {
  }

  lemma {:induction false} IdleSectors(p: Progress, partition: byte, image: seq<Sector>, i: nat)
    requires p.ok && p.m.received == [] && !p.m.env.locked
    requires Sendable(image) && Writable(partition) && i <= |image| && i < WritableCount(partition)
    ensures var q := WriteSectors(p, partition, image, i);
            && q.m.received == [] && !q.m.env.locked
            && q.ok == (|image| < WritableCount(partition) || i == |image|)
            && q.sent == p.sent + SectorCommands(partition, image, i)
    decreases |image| - i
  {
    hide Then, Writable, WritableCount, WritableFirst, Accepted, Copies, WriteSectors, SectorCommands;
    AcceptedMeans(partition, i);
    NextSectorCommands(partition, image, i);
    if i == |image| {
      NoMoreSectors(p, partition, image, i);
      assert p.sent + [] == p.sent;
    } else {
      var c := WriteSector(partition, i, image[i]);
      IdleSector(p, partition, i, image[i]);
      var q := Then(p, c);
      NextSector(p, partition, image, i);
      if Accepted(partition, i) {
        IdleSectors(q, partition, image, i + 1);
        assert p.sent + [c] + SectorCommands(partition, image, i + 1) == p.sent + SectorCommands(partition, image, i);
      } else {
        NoMoreSectors(q, partition, image, i + 1);
      }
    }
  }

  lemma IdleWritten(p: Progress, partition: byte, image: seq<Sector>)
    requires p.ok && p.m.received == [] && Sendable(image) && Writable(partition)
    ensures var q := Written(p, partition, image);
            && q.m.received == [] && q.ok == (!p.m.env.locked && |image| < WritableCount(partition))
            && q.sent == p.sent + WritingCommands(partition, image, p.m.env.locked)
  {
    hide Then, WriteSectors, SectorCommands, Writable, WritableCount, WritableFirst, Replace, ApplyAll, FlashOps;
    IdleThen(p, EraseFirst(partition));
    var a := Then(p, EraseFirst(partition));
    if p.m.env.locked {
      GivenUp(a, partition, image);
    } else {
      CommandOnPartition(p.m.env, partition, 0, ERASED, p.m.board);
      IdleThen(a, GetSectorSize);
      var b := Then(a, GetSectorSize);
      IdleSectors(b, partition, image, 1);
      var d := WriteSectors(b, partition, image, 1);
      if d.ok {
        IdleThen(d, WriteSector(partition, 0, image[0]));
        CommandOnPartition(d.m.env, partition, 0, image[0], d.m.board);
      } else {
        assert Then(d, WriteSector(partition, 0, image[0])) == d by { GivenUpOnce(d, WriteSector(partition, 0, image[0])); }
      }
    }
  }

  lemma GivenUpOnce(p: Progress, c: Command)
    requires !p.ok
    ensures Then(p, c) == p
  {
  }

  lemma GivenUp(p: Progress, partition: byte, image: seq<Sector>)
    requires !p.ok && Sendable(image)
    ensures Then(WriteSectors(Then(p, GetSectorSize), partition, image, 1), WriteSector(partition, 0, image[0])) == p
  {
  }

  // ----- What some first commands of a session have done to the flash

  lemma OneExecuted(m: Machine, c: Command)
    ensures var n := ExecuteAll(m, [c]);
            n.env == Execute(m.env, c, m.board).0 && n.received == m.received && n.board == m.board
  {
    hide Execute;
    assert [c][1..] == [] && [c][0] == c;
    assert ExecuteAll(m, [c]) == ExecuteAll(Step(m, c), []);
  }

  lemma {:induction false} RefusedCopies(m: Machine, c: Command, n: nat)
    requires Execute(m.env, c, m.board).0 == m.env
    ensures ExecuteAll(m, Copies(c, n)).env == m.env
    decreases n
  {
    hide Execute;
    if n > 0 {
      assert Copies(c, n)[1..] == Copies(c, n - 1);
      RefusedCopies(Step(m, c), c, n - 1);
    }
  }

  lemma {:induction false} SectorsCut(m: Machine, partition: byte, image: seq<Sector>, i: nat, n: nat) returns (j: nat)
    requires !m.env.locked && Writable(partition) && Sendable(image) && i <= |image| && i < WritableCount(partition)
    requires n <= |SectorCommands(partition, image, i)|
    ensures var ops := MenuCopyOps(m.env.flash, partition, image, i);
            && j <= |ops| && (n == |SectorCommands(partition, image, i)| ==> j == |ops|)
            && ExecuteAll(m, SectorCommands(partition, image, i)[..n]).env == m.env.(flash := ApplyAll(m.env.flash, ops[..j]))
    decreases |image| - i
  {
    hide ApplyAll, Replace, ExecuteAll, Execute, SectorFlash.Disciplined, WritableFirst, WritableCount, Writable, Part;
    var f, first := m.env.flash, WritableFirst(partition);
    var ops, all := MenuCopyOps(f, partition, image, i), SectorCommands(partition, image, i);
    NoOps(f);
    NothingExecuted(m);
    j := 0;
    if i == |image| || n == 0 {
      assert all[..n] == [] && ops[..0] == [];
    } else {
      var c := WriteSector(partition, i, image[i]);
      CommandOnPartition(m.env, partition, i, image[i], m.board);
      if !Accepted(partition, i) {
        assert all[..n] == Copies(c, n);
        RefusedCopies(m, c, n);
        assert ops[..0] == [];
      } else {
        var g, replace := f[first + i := image[i]], Replace(f, first + i, image[i]);
        var rest := MenuCopyOps(f, partition, image, i + 1);
        OneExecuted(m, c);
        ReplaceStores(f, first + i, image[i]);
        assert all[..n] == [c] + SectorCommands(partition, image, i + 1)[..n - 1];
        ExecuteConcatenation(m, [c], SectorCommands(partition, image, i + 1)[..n - 1]);
        PartSector(f, g, partition, i);
        MenuCopyOpsFrame(f, g, partition, image, i + 1);
        j := SectorsCut(ExecuteAll(m, [c]), partition, image, i + 1, n - 1);
        assert ops == replace + rest && ops[..|replace| + j] == replace + rest[..j];
        SectorFlash.Concatenation(f, replace, rest[..j]);
        j := |replace| + j;
      }
    }
  }

  /** Some first commands of the writing part, on an unlocked modchip, have done some first sector operations of a menu
      session, and all of them all. */
  lemma WritingCut(m: Machine, partition: byte, image: seq<Sector>, n: nat) returns (j: nat)
    requires !m.env.locked && Writable(partition) && Sendable(image)
    requires n <= |WritingCommands(partition, image, false)|
    ensures var ops, all := MenuOps(m.env.flash, partition, image), WritingCommands(partition, image, false);
            && j <= |ops| && (n == |all| ==> j == |ops|)
            && ExecuteAll(m, all[..n]).env == m.env.(flash := ApplyAll(m.env.flash, ops[..j]))
  {
    hide ApplyAll, Replace, ExecuteAll, Execute, SectorFlash.Disciplined, WritableFirst, WritableCount, Writable, Part;
    hide MenuCopyOps, MenuEraseOps, SectorCommands;
    var f, first, sectors := m.env.flash, WritableFirst(partition), SectorCommands(partition, image, 1);
    var ops, all := MenuOps(f, partition, image), WritingCommands(partition, image, false);
    var erase, copy := MenuEraseOps(f, partition), MenuCopyOps(f, partition, image, 1);
    var start := [EraseFirst(partition), GetSectorSize];
    CommandOnPartition(m.env, partition, 0, ERASED, m.board);
    if n == 0 {
      NoOps(f);
      NothingExecuted(m);
      j := 0;
      assert all[..0] == [] && ops[..0] == [];
    } else if n == 1 {
      MenuErase(f, partition);
      OneExecuted(m, EraseFirst(partition));
      j := |erase|;
      assert all[..1] == [EraseFirst(partition)] && ops[..j] == erase;
    } else if n <= 2 + |sectors| {
      j := SectorsAfterErase(m, partition, image, n - 2);
      assert all[..n] == start + sectors[..n - 2];
      assert ops[..|erase| + j] == erase + copy[..j];
      j := |erase| + j;
    } else {
      LastSectorWritten(m, partition, image);
      j := |ops|;
      assert all[..n] == all && ops[..j] == ops;
    }
  }

  lemma WritingStarts(m: Machine, partition: byte)
    requires !m.env.locked && Writable(partition)
    ensures ExecuteAll(m, [EraseFirst(partition), GetSectorSize]).env
         == m.env.(flash := m.env.flash[WritableFirst(partition) := ERASED])
  {
    hide ApplyAll, ExecuteAll, FlashOps, WritableFirst, Writable, SectorAccepted;
    var c0, c1 := EraseFirst(partition), GetSectorSize;
    CommandOnPartition(m.env, partition, 0, ERASED, m.board);
    assert [c0, c1] == [c0] + [c1];
    ExecuteConcatenation(m, [c0], [c1]);
    OneExecuted(m, c0);
    OneExecuted(ExecuteAll(m, [c0]), c1);
  }

  lemma SectorsAfterErase(m: Machine, partition: byte, image: seq<Sector>, n: nat) returns (j: nat)
    requires !m.env.locked && Writable(partition) && Sendable(image)
    requires n <= |SectorCommands(partition, image, 1)|
    ensures var f := m.env.flash;
            var erase, copy := MenuEraseOps(f, partition), MenuCopyOps(f, partition, image, 1);
            var start := [EraseFirst(partition), GetSectorSize];
            && j <= |copy| && (n == |SectorCommands(partition, image, 1)| ==> j == |copy|)
            && ExecuteAll(m, start + SectorCommands(partition, image, 1)[..n]).env
               == m.env.(flash := ApplyAll(f, erase + copy[..j]))
  {
    hide ApplyAll, Replace, ExecuteAll, SectorFlash.Disciplined, WritableFirst, WritableCount, Writable, Part;
    hide MenuCopyOps, MenuEraseOps, SectorCommands;
    var f, first, start := m.env.flash, WritableFirst(partition), [EraseFirst(partition), GetSectorSize];
    var h := f[first := ERASED];
    WritingStarts(m, partition);
    PartSector(f, h, partition, 0);
    MenuCopyOpsFrame(f, h, partition, image, 1);
    MenuErase(f, partition);
    ExecuteConcatenation(m, start, SectorCommands(partition, image, 1)[..n]);
    j := SectorsCut(ExecuteAll(m, start), partition, image, 1, n);
    SectorFlash.Concatenation(f, MenuEraseOps(f, partition), MenuCopyOps(f, partition, image, 1)[..j]);
  }

  lemma LastSectorWritten(m: Machine, partition: byte, image: seq<Sector>)
    requires !m.env.locked && Writable(partition) && Sendable(image)
    ensures ExecuteAll(m, WritingCommands(partition, image, false)).env
         == m.env.(flash := ApplyAll(m.env.flash, MenuOps(m.env.flash, partition, image)))
  {
    hide ApplyAll, Replace, ExecuteAll, SectorFlash.Disciplined, WritableFirst, WritableCount, Writable, Part;
    hide MenuCopyOps, MenuEraseOps, SectorCommands, Execute;
    var f, first, start := m.env.flash, WritableFirst(partition), [EraseFirst(partition), GetSectorSize];
    var sectors, copy := SectorCommands(partition, image, 1), MenuCopyOps(f, partition, image, 1);
    var erase, h := MenuEraseOps(f, partition), f[WritableFirst(partition) := ERASED];
    var j := SectorsAfterErase(m, partition, image, |sectors|);
    assert sectors[..|sectors|] == sectors && copy[..|copy|] == copy;
    var n := ExecuteAll(m, start + sectors);
    var last := if |image| < WritableCount(partition) then [WriteSector(partition, 0, image[0])] else [];
    var replace := if |image| < WritableCount(partition) then Replace(h, first, image[0]) else [];
    ExecuteConcatenation(m, start + sectors, last);
    assert WritingCommands(partition, image, false) == start + sectors + last;
    SectorFlash.Concatenation(f, erase + copy, replace);
    if |image| < WritableCount(partition) {
      OneExecuted(n, WriteSector(partition, 0, image[0]));
      CommandOnPartition(n.env, partition, 0, image[0], n.board);
      CopiedKeepsFirst(f, partition, image);
      MenuLast(h, n.env.flash, partition, image);
      ReplaceStores(n.env.flash, first, image[0]);
    } else {
      NothingExecuted(n);
      NoOps(n.env.flash);
    }
  }

  /** While the other sectors are written, the first one stays erased. */
  lemma CopiedKeepsFirst(f: Flash, partition: nat, image: seq<Sector>)
    requires |image| > 0
    ensures ApplyAll(f, MenuEraseOps(f, partition) + MenuCopyOps(f, partition, image, 1))[WritableFirst(partition)] == ERASED
  {
    hide ApplyAll, SectorFlash.Disciplined, MenuEraseOps, MenuCopyOps, WritableFirst, WritableCount, Part;
    var h, copy := f[WritableFirst(partition) := ERASED], MenuCopyOps(f, partition, image, 1);
    MenuErase(f, partition);
    PartSector(f, h, partition, 0);
    MenuCopyOpsFrame(f, h, partition, image, 1);
    CutMenuCopy(h, partition, image, 1, |copy|);
    assert copy[..|copy|] == copy;
    SectorFlash.Concatenation(f, MenuEraseOps(f, partition), copy);
  }

  // ----- Lock frames sent into an abandoned frame

  /** Idle, or inside a frame. */
  predicate Waiting(m: Machine)
  {
    Started(m.received) && !Complete(m.received)
  }

  /** Receiving bytes until the frame begun before has ended, executed or dropped. */
  function Settle(m: Machine, bytes: seq<byte>): Machine
    decreases |bytes|
  {
    if m.received == [] || |bytes| == 0 then m else Settle(Receive(m, bytes[0]), bytes[1..])
  }

  /** The bytes of `n` attempts to set the lock. */
  function LockBytes(locked: bool, n: nat): seq<byte>
  {
    EncodeAll(Copies(WriteLock(locked), n))
  }

  lemma LockFrame(locked: bool)
    ensures Encode(WriteLock(locked)) == [PREFIX, 0x0c, 0x97, 0x07, Flag(locked), 0xFF - Flag(locked)]
  {
  }

  lemma NextLockBytes(locked: bool, n: nat)
    ensures n > 0 ==> LockBytes(locked, n) == Encode(WriteLock(locked)) + LockBytes(locked, n - 1)
    ensures LockBytes(locked, 0) == []
  {
    hide Encode;
    if n > 0 {
      assert Copies(WriteLock(locked), n)[1..] == Copies(WriteLock(locked), n - 1);
    }
  }

  lemma StillWaiting(m: Machine, w: byte)
    ensures Waiting(Receive(m, w))
  {
    hide Answer, Decode, KindOf, Code;
    EmptyIsWaiting();
  }

  lemma {:induction false} SettleTogether(m: Machine, a: seq<byte>, b: seq<byte>)
    ensures Settle(m, a + b) == Settle(Settle(m, a), b)
    decreases |a|
  {
    hide Receive;
    if m.received == [] || a == [] {
      assert a == [] ==> a + b == b;
    } else {
      assert (a + b)[1..] == a[1..] + b;
      SettleTogether(Receive(m, a[0]), a[1..], b);
    }
  }

  /** Bytes other than the prefix do nothing to an idle modchip. */
  lemma {:induction false} NoPrefixSettles(m: Machine, bytes: seq<byte>)
    requires PREFIX !in bytes
    ensures ReceiveAll(m, bytes) == Settle(m, bytes)
    decreases |bytes|
  {
    hide KindOf, Code, Executed;
    if bytes != [] {
      assert bytes[0] in bytes;
      var n := Receive(m, bytes[0]);
      assert m.received == [] ==> n == m;
      hide Receive;
      NoPrefixSettles(n, bytes[1..]);
    }
  }

  /** So the rest of a lock frame that has ended the abandoned frame is lost without effect. */
  lemma LockSettles(m: Machine, locked: bool, k: nat)
    requires m.received != [] && k <= 6
    ensures |Encode(WriteLock(locked))| == 6
    ensures ReceiveAll(m, Encode(WriteLock(locked))[..k]) == Settle(m, Encode(WriteLock(locked))[..k])
  {
    hide Receive, Encode;
    LockFrame(locked);
    var bytes := Encode(WriteLock(locked))[..k];
    if k > 0 {
      NoPrefixSettles(Receive(m, bytes[0]), bytes[1..]);
    }
  }

  /** Still in the frame, or idle after dropping it or executing it. */
  lemma {:induction false} SettleCases(m: Machine, bytes: seq<byte>) returns (x: nat)
    requires Waiting(m) && m.received != []
    ensures var n := Settle(m, bytes);
            || (n == m.(received := m.received + bytes) && Waiting(n))
            || n == m.(received := [])
            || (x <= |bytes| && Complete(m.received + bytes[..x]) && n == Executed(m, m.received + bytes[..x]))
    decreases |bytes|
  {
    hide KindOf, Code, Decode, Execute, Complete, Started;
    x := 0;
    if bytes == [] {
      assert m.received + bytes == m.received;
    } else {
      var n, r := Receive(m, bytes[0]), m.received + [bytes[0]];
      StillWaiting(m, bytes[0]);
      if n.received == [] {
        x := 1;
        assert bytes[..1] == [bytes[0]];
      } else {
        x := SettleCases(n, bytes[1..]);
        assert r + bytes[1..] == m.received + bytes;
        if x < |bytes| {
          assert r + bytes[1..][..x] == m.received + bytes[..x + 1];
        }
        x := x + 1;
      }
    }
  }

  lemma SettledStays(m: Machine, bytes: seq<byte>)
    requires m.received == []
    ensures Settle(m, bytes) == m
  {
  }

  /** A first part of the bytes leaves the flash as it is or as all of them leave it. */
  lemma SettledPart(m: Machine, bytes: seq<byte>, k: nat)
    requires Waiting(m) && k <= |bytes|
    ensures Settle(m, bytes[..k]).env.flash in {m.env.flash, Settle(m, bytes).env.flash}
    ensures Settle(m, bytes[..k]).received == [] ==> Settle(m, bytes) == Settle(m, bytes[..k])
  {
    hide Settle, Waiting;
    assert bytes == bytes[..k] + bytes[k..];
    SettleTogether(m, bytes[..k], bytes[k..]);
    var n := Settle(m, bytes[..k]);
    if n.received == [] {
      SettledStays(n, bytes[k..]);
    } else if m.received == [] {
      SettledStays(m, bytes[..k]);
    } else {
      var x := SettleCases(m, bytes[..k]);
    }
  }

  /** One lock frame into an abandoned frame. */
  lemma LockIntoFrame(m: Machine, locked: bool)
    requires Waiting(m) && m.received != []
    ensures var p, n := Send(m, WriteLock(locked)), Settle(m, Encode(WriteLock(locked)));
            && p.m == n && Waiting(n) && n.board == m.board
            && (n.received != [] ==> n == m.(received := m.received + Encode(WriteLock(locked))) && !p.ok)
            && (p.ok <==> |n.replies| > |m.replies| && StatusOk(n.replies[|m.replies|]))
  {
    hide Encode, Settle, ReceiveAll, Complete, Execute, Decode, Started, StatusOk;
    EmptyIsWaiting();
    LockSettles(m, locked, 6);
    var bytes := Encode(WriteLock(locked));
    assert bytes[..6] == bytes;
    var x := SettleCases(m, bytes);
  }

  lemma EmptyIsWaiting()
    ensures Started([]) && !Complete([])
  {
  }

  /** An accepted answer to the lock command leaves the modchip idle, whatever it was doing before. */
  lemma AcceptedLockIsIdle(m: Machine, locked: bool)
    requires Waiting(m) && Send(m, WriteLock(locked)).ok
    ensures Send(m, WriteLock(locked)).m.received == []
  {
    hide Send, Encode, Settle, Execute;
    if m.received == [] {
      IdleSend(m, WriteLock(locked));
    } else {
      LockIntoFrame(m, locked);
    }
  }

  lemma LockAlone(e: Env, locked: bool, board: Board)
    ensures Execute(e, WriteLock(locked), board) == (e.(locked := locked), Ok)
  {
  }

  /** All attempts to set the lock, starting inside an abandoned frame: if it does not end, they all fail; if it does,
      the modchip is idle afterwards, and nothing but the lock has changed since. */
  lemma {:induction false} LocksIntoFrame(m: Machine, locked: bool, attempts: nat)
    requires Waiting(m) && m.received != []
    ensures var p, s := SendWithRetry(m, WriteLock(locked), attempts), Settle(m, LockBytes(locked, attempts));
            && s.board == m.board && p.m.board == m.board && Waiting(s)
            && (s.received != [] ==>
                  p == Progress(m.(received := m.received + LockBytes(locked, attempts)), Copies(WriteLock(locked), attempts), false)
                  && p.m == s)
            && (s.received == [] ==>
                  && p.m.received == [] && p.m.env == s.env.(locked := p.m.env.locked)
                  && (|s.replies| > |m.replies| && StatusOk(s.replies[|m.replies|]) ==> p.ok && p.m == s))
    decreases attempts
  {
    hide Encode, Settle, Send, ReceiveAll, Execute, Receive, Started, Complete, StatusOk, LockBytes, EncodeAll;
    NextLockBytes(locked, attempts);
    var c, bytes := WriteLock(locked), LockBytes(locked, attempts);
    if attempts == 0 {
      NothingSettles(m);
      assert m.received + [] == m.received;
      assert Copies(c, 0) == [];
    } else {
      var rest := LockBytes(locked, attempts - 1);
      LockIntoFrame(m, locked);
      var n := Send(m, c).m;
      SettleTogether(m, Encode(c), rest);
      if n.received != [] {
        LocksIntoFrame(n, locked, attempts - 1);
        assert m.received + Encode(c) + rest == m.received + bytes;
        assert [c] + Copies(c, attempts - 1) == Copies(c, attempts);
        SentOne(m, c);
      } else {
        SettledStays(n, rest);
        if !Send(m, c).ok && attempts > 1 {
          IdleRetry(n, c, attempts - 1);
          LockAlone(n.env, locked, n.board);
        } else if !Send(m, c).ok {
          NoAttempts(n, c);
        }
      }
    }
  }

  lemma NothingSettles(m: Machine)
    ensures Settle(m, []) == m
  {
  }

  lemma SentOne(m: Machine, c: Command)
    ensures Send(m, c).sent == [c]
  {
  }

  lemma NoAttempts(m: Machine, c: Command)
    ensures SendWithRetry(m, c, 0) == Progress(m, [], false)
  {
  }

  // ----- Connections lost anywhere in a session

  lemma {:induction false} RetrySends(m: Machine, c: Command, attempts: nat)
    ensures forall d :: d in SendWithRetry(m, c, attempts).sent ==> d == c
    decreases attempts
  {
    hide Encode, ReceiveAll, StatusOk;
    if attempts > 0 {
      RetrySends(Send(m, c).m, c, attempts - 1);
    }
  }

  predicate OnlyLocks(cs: seq<Command>)
  {
    forall c :: c in cs ==> c.WriteLock?
  }

  lemma {:induction false} LocksKeepFlash(m: Machine, cs: seq<Command>)
    requires OnlyLocks(cs)
    ensures ExecuteAll(m, cs).env.flash == m.env.flash
    decreases |cs|
  {
    hide Execute;
    if cs != [] {
      assert cs[0] in cs;
      LockAlone(m.env, cs[0].locked, m.board);
      LocksKeepFlash(Step(m, cs[0]), cs[1..]);
    }
  }

  lemma IdleLocksCut(m: Machine, cs: seq<Command>, k: nat)
    requires m.received == [] && OnlyLocks(cs) && k <= |EncodeAll(cs)|
    ensures ReceiveAll(m, EncodeAll(cs)[..k]).env.flash == m.env.flash
  {
    hide EncodeAll, ReceiveAll, ExecuteAll;
    var n := CutConversation(m, cs, k);
    LocksKeepFlash(m, cs[..n]);
  }

  /** Cut inside the attempts to set the lock: the flash is as it was, or as the end of the abandoned frame left it. */
  lemma {:induction false} CutLocks(m: Machine, locked: bool, attempts: nat, k: nat)
    requires Waiting(m) && k <= |EncodeAll(SendWithRetry(m, WriteLock(locked), attempts).sent)|
    ensures ReceiveAll(m, EncodeAll(SendWithRetry(m, WriteLock(locked), attempts).sent)[..k]).env.flash
            in {m.env.flash, Settle(m, LockBytes(locked, attempts)).env.flash}
    decreases attempts
  {
    hide Encode, Settle, Send, ReceiveAll, Execute, Receive, Started, Complete, StatusOk, LockBytes, EncodeAll;
    var c, p := WriteLock(locked), SendWithRetry(m, WriteLock(locked), attempts);
    RetrySends(m, c, attempts);
    if m.received == [] {
      IdleLocksCut(m, p.sent, k);
    } else if attempts == 0 {
      NoAttempts(m, c);
      NothingSent();
      assert EncodeAll([])[..k] == [];
      NothingReceived(m);
    } else {
      var first, rest := Send(m, c), SendWithRetry(Send(m, c).m, c, attempts - 1);
      var tail := if first.ok then [] else rest.sent;
      SentOne(m, c);
      NextLockBytes(locked, attempts);
      LockIntoFrame(m, locked);
      SettleTogether(m, Encode(c), LockBytes(locked, attempts - 1));
      EncodedOne(c);
      EncodedConcatenation([c], tail);
      assert [c] + [] == [c];
      LockFrame(locked);
      if k <= 6 {
        assert EncodeAll(p.sent)[..k] == Encode(c)[..k];
        LockSettles(m, locked, k);
        SettledPart(m, LockBytes(locked, attempts), k);
        assert LockBytes(locked, attempts)[..k] == Encode(c)[..k];
      } else {
        assert EncodeAll(p.sent)[..k] == Encode(c) + EncodeAll(tail)[..k - 6];
        Protocol.Concatenation(m, Encode(c), EncodeAll(tail)[..k - 6]);
        LockReceived(m, c);
        var n := first.m;
        if first.ok {
          NothingSent();
          assert false;
        } else {
          CutLocks(n, locked, attempts - 1, k - 6);
          if n.received == [] {
            SettledStays(n, LockBytes(locked, attempts - 1));
          }
        }
      }
    }
  }

  lemma NothingSent()
    ensures EncodeAll([]) == []
  {
  }

  lemma NothingReceived(m: Machine)
    ensures ReceiveAll(m, []) == m
  {
  }

  lemma LockReceived(m: Machine, c: Command)
    ensures Send(m, c).m == ReceiveAll(m, Encode(c))
  {
  }

  /** The modchip once the lock frames of a failing session would have ended the frame abandoned before. */
  function Settled(m: Machine): Machine
  {
    Settle(m, LockBytes(false, RETRIES) + LockBytes(true, RETRIES))
  }

  /** Some first commands of what follows the unlocking, from an idle modchip. */
  lemma AfterLockCut(m: Machine, partition: byte, image: seq<Sector>, n: nat) returns (j: nat)
    requires Writable(partition) && Sendable(image)
    requires n <= |WritingCommands(partition, image, m.env.locked)| + 1
    ensures j <= |MenuOps(m.env.flash, partition, image)|
    ensures ExecuteAll(m, (WritingCommands(partition, image, m.env.locked) + [WriteLock(true)])[..n]).env.flash
         == ApplyAll(m.env.flash, MenuOps(m.env.flash, partition, image)[..j])
  {
    hide ApplyAll, MenuOps, ExecuteAll, WritingCommands;
    var cs, c := WritingCommands(partition, image, m.env.locked), WriteLock(true);
    var k := if n <= |cs| then n else |cs|;
    if m.env.locked {
      LockedCut(m, partition, image, k);
      NoOps(m.env.flash);
      j := 0;
      assert MenuOps(m.env.flash, partition, image)[..0] == [];
    } else {
      j := WritingCut(m, partition, image, k);
    }
    if n <= |cs| {
      assert (cs + [c])[..n] == cs[..k];
    } else {
      assert (cs + [c])[..n] == cs[..k] + [c];
      ExecuteConcatenation(m, cs[..k], [c]);
      OneExecuted(ExecuteAll(m, cs[..k]), c);
      LockAlone(ExecuteAll(m, cs[..k]).env, true, m.board);
    }
  }

  lemma LockedCut(m: Machine, partition: byte, image: seq<Sector>, k: nat)
    requires m.env.locked && Sendable(image) && k <= |WritingCommands(partition, image, true)|
    ensures ExecuteAll(m, WritingCommands(partition, image, true)[..k]).env == m.env
  {
    hide SectorAccepted, EraseOps, ExecuteAll;
    NoOps(m.env.flash);
    var c := EraseFirst(partition);
    assert WritingCommands(partition, image, true)[..k] == Copies(c, k);
    RefusedCopies(m, c, k);
  }

  /** What the session sends, and the state in which unlocking leaves the modchip. */
  lemma SessionParts(m: Machine, partition: byte, image: seq<Sector>)
    requires Waiting(m) && Writable(partition) && Sendable(image)
    ensures var a := SendWithRetry(m, WriteLock(false), RETRIES);
            && Reached(m, a)
            && (a.m.received == [] ==>
                  var cs := if a.ok then WritingCommands(partition, image, a.m.env.locked) else [];
                  && a.m.env == Settled(m).env.(locked := a.m.env.locked)
                  && WholeSession(m, partition, image).sent == a.sent + (cs + [WriteLock(true)])
                  && WholeSession(m, partition, image).ok == (a.ok && !a.m.env.locked && |image| < WritableCount(partition)))
            && (a.m.received != [] ==>
                  && m.received != [] && Waiting(a.m) && !a.ok && a.m.env == m.env
                  && Settle(a.m, LockBytes(true, RETRIES)) == Settled(m)
                  && WholeSession(m, partition, image).sent == a.sent + SendWithRetry(a.m, WriteLock(true), RETRIES).sent
                  && !WholeSession(m, partition, image).ok)
  {
    hide SendWithRetry, Settle, Written, WritingCommands, LockBytes, Execute, StatusOk, Complete, Started, Reached, ReceiveAll;
    hide WritableCount;
    var l0, l1 := WriteLock(false), WriteLock(true);
    var a := SendWithRetry(m, l0, RETRIES);
    RetryReached(m, l0, RETRIES);
    SettleTogether(m, LockBytes(false, RETRIES), LockBytes(true, RETRIES));
    if m.received == [] {
      IdleRetry(m, l0, RETRIES);
      LockAlone(m.env, false, m.board);
      SettledStays(m, LockBytes(false, RETRIES) + LockBytes(true, RETRIES));
    } else {
      LocksIntoFrame(m, false, RETRIES);
      var s := Settle(m, LockBytes(false, RETRIES));
      if s.received == [] {
        SettledStays(s, LockBytes(true, RETRIES));
      }
    }
    if a.ok {
      AcceptedIsIdle(m, false, RETRIES);
      IdleWritten(a, partition, image);
    } else {
      NothingWritten(a, partition, image);
    }
    var p := Written(a, partition, image);
    if a.m.received == [] {
      IdleRetry(p.m, l1, RETRIES);
      LockAlone(p.m.env, true, p.m.board);
      OkIsOk();
      var cs := if a.ok then WritingCommands(partition, image, a.m.env.locked) else [];
      assert p.sent == a.sent + cs;
      assert a.sent + cs + [l1] == a.sent + (cs + [l1]);
    }
  }

  lemma OkIsOk()
    ensures StatusOk(Ok)
  {
  }

  lemma NothingWritten(p: Progress, partition: byte, image: seq<Sector>)
    requires !p.ok && Sendable(image)
    ensures Written(p, partition, image) == p
  {
    hide Then;
    GivenUpOnce(p, EraseFirst(partition));
    GivenUp(p, partition, image);
  }

  lemma AcceptedIsIdle(m: Machine, locked: bool, attempts: nat)
    requires Waiting(m) && SendWithRetry(m, WriteLock(locked), attempts).ok
    ensures SendWithRetry(m, WriteLock(locked), attempts).m.received == []
  {
    hide SendWithRetry, Settle, LockBytes, Execute, StatusOk, Complete, Started;
    if m.received != [] {
      LocksIntoFrame(m, locked, attempts);
    } else {
      if attempts == 0 {
        NoAttempts(m, WriteLock(locked));
      } else {
        IdleRetry(m, WriteLock(locked), attempts);
      }
    }
  }

  /** The abandoned frame outlasts the attempts to unlock. */
  predicate Stuck(m: Machine)
  {
    Settle(m, LockBytes(false, RETRIES)).received != []
  }

  lemma StuckInUnlocking(m: Machine)
    requires Waiting(m)
    ensures Stuck(m) <==> SendWithRetry(m, WriteLock(false), RETRIES).m.received != []
  {
    hide SendWithRetry, Settle, LockBytes, Execute, StatusOk, Complete, Started;
    if m.received != [] {
      LocksIntoFrame(m, false, RETRIES);
    } else {
      IdleRetry(m, WriteLock(false), RETRIES);
      SettledStays(m, LockBytes(false, RETRIES));
    }
  }

  /** Main result on sessions over the wire: from every state of the modchip, inside an abandoned frame or idle, and
      wherever the connection breaks, the flash is as it was before, or what some prefix of a menu session's sector
      operations makes of the flash that the end of the abandoned frame left. */
  lemma CutSessionOverTheWire(m: Machine, partition: byte, image: seq<Sector>, k: nat) returns (j: nat)
    requires Waiting(m) && Writable(partition) && Sendable(image) && k <= |SessionBytes(m, partition, image)|
    ensures var g, h := Settled(m).env.flash, ReceiveAll(m, SessionBytes(m, partition, image)[..k]).env.flash;
            && j <= |MenuOps(g, partition, image)|
            && (h == m.env.flash || h == ApplyAll(g, MenuOps(g, partition, image)[..j]))
            && (Stuck(m) ==> j == 0)
  {
    hide SendWithRetry, Settle, WholeSession, WritingCommands, LockBytes, Execute, Complete, Started, ReceiveAll, EncodeAll;
    hide ExecuteAll, ApplyAll, MenuOps, Settled;
    var a, g := SendWithRetry(m, WriteLock(false), RETRIES), Settled(m).env.flash;
    SessionParts(m, partition, image);
    StuckInUnlocking(m);
    NoOps(g);
    assert MenuOps(g, partition, image)[..0] == [];
    j := 0;
    var rest: seq<Command> :=
      if a.m.received == []
      then (if a.ok then WritingCommands(partition, image, a.m.env.locked) else []) + [WriteLock(true)]
      else SendWithRetry(a.m, WriteLock(true), RETRIES).sent;
    EncodedConcatenation(a.sent, rest);
    var n := |EncodeAll(a.sent)|;
    if k <= n {
      assert SessionBytes(m, partition, image)[..k] == EncodeAll(a.sent)[..k];
      CutLocks(m, false, RETRIES, k);
      UnlockingFlash(m);
    } else {
      assert SessionBytes(m, partition, image)[..k] == EncodeAll(a.sent) + EncodeAll(rest)[..k - n];
      Protocol.Concatenation(m, EncodeAll(a.sent), EncodeAll(rest)[..k - n]);
      if a.m.received != [] {
        CutLocks(a.m, true, RETRIES, k - n);
      } else {
        var x := CutConversation(a.m, rest, k - n);
        if a.ok {
          j := AfterLockCut(a.m, partition, image, x);
        } else {
          assert OnlyLocks(rest);
          LocksKeepFlash(a.m, rest[..x]);
        }
      }
    }
  }

  /** The end of the abandoned frame, if the unlocking brings it about, is its end altogether. */
  lemma UnlockingFlash(m: Machine)
    requires Waiting(m)
    ensures Settle(m, LockBytes(false, RETRIES)).env.flash in {m.env.flash, Settled(m).env.flash}
    ensures Settle(m, LockBytes(false, RETRIES)).received == [] ==> Settle(m, LockBytes(false, RETRIES)) == Settled(m)
  {
    hide Settle, LockBytes, Waiting;
    var bytes := LockBytes(false, RETRIES) + LockBytes(true, RETRIES);
    assert bytes[..|LockBytes(false, RETRIES)|] == LockBytes(false, RETRIES);
    SettledPart(m, bytes, |LockBytes(false, RETRIES)|);
  }

  // ----- The command in an abandoned frame

  /** The bytes that failing attempts to unlock and to lock again send. */
  function Filler(): seq<byte>
  {
    LockBytes(false, RETRIES) + LockBytes(true, RETRIES)
  }

  function FillerByte(i: nat): byte
    requires i < 36
  {
    var locked := i >= 18;
    match i % 6
    case 0 => PREFIX
    case 1 => 0x0c
    case 2 => 0x97
    case 3 => 0x07
    case 4 => Flag(locked)
    case _ => 0xFF - Flag(locked)
  }

  lemma FillerBytes()
    ensures |Filler()| == 36 && forall i :: 0 <= i < 36 ==> Filler()[i] == FillerByte(i)
    ensures |LockBytes(false, RETRIES)| == 18
  {
    hide Encode, LockBytes, Flag;
    ThreeLocks(false);
    ThreeLocks(true);
  }

  lemma ThreeLocks(locked: bool)
    ensures var s := [PREFIX, 0x0c, 0x97, 0x07, Flag(locked), 0xFF - Flag(locked)];
            LockBytes(locked, RETRIES) == s + s + s
  {
    hide Encode, LockBytes;
    LockFrame(locked);
    NextLockBytes(locked, 3);
    NextLockBytes(locked, 2);
    NextLockBytes(locked, 1);
    NextLockBytes(locked, 0);
    var s := Encode(WriteLock(locked));
    assert s + (s + (s + [])) == s + s + s;
  }

  lemma CompletedFrame(r: seq<byte>, bytes: seq<byte>)
    requires Started(r) && !Complete(r) && |r| >= 4
    ensures KindOf(r[1], r[2]).Some? && |r| < Length(KindOf(r[1], r[2]).value)
    ensures |r| + |bytes| == Length(KindOf(r[1], r[2]).value) ==> Complete(r + bytes) && KindOf((r + bytes)[1], (r + bytes)[2]) == KindOf(r[1], r[2])
  {
    hide KindOf, Code;
  }

  /** How many bytes are missing. */
  function Missing(r: seq<byte>): (n: nat)
    requires Started(r) && !Complete(r) && |r| >= 4
    ensures n > 0
  {
    CompletedFrame(r, []);
    Length(KindOf(r[1], r[2]).value) - |r|
  }

  /** The command that an abandoned frame becomes when it is filled up with the bytes of a failing session. Three bytes
      and less are always dropped, and so is what still waits after all attempts. */
  function Abandoned(r: seq<byte>): Option<Command>
    requires Started(r) && !Complete(r)
  {
    if |r| < 4 || Missing(r) > 36 then None
    else
      FillerBytes();
      CompletedFrame(r, Filler()[..Missing(r)]);
      Decode(r + Filler()[..Missing(r)])
  }

  /** Its sector operations. */
  function AbandonedOps(m: Machine): seq<SectorOp>
    requires Waiting(m)
  {
    match Abandoned(m.received)
    case Some(c) => FlashOps(m.env, c)
    case None => []
  }

  lemma {:induction false} SettleFrame(m: Machine, bytes: seq<byte>)
    requires Waiting(m) && |m.received| >= 4
    ensures |bytes| < Missing(m.received) ==> Settle(m, bytes) == m.(received := m.received + bytes)
    ensures |bytes| >= Missing(m.received) ==>
              Complete(m.received + bytes[..Missing(m.received)])
              && Settle(m, bytes) == Executed(m, m.received + bytes[..Missing(m.received)])
    decreases |bytes|
  {
    hide KindOf, Code, Length, Executed, Receive, Complete, Started;
    CompletedFrame(m.received, []);
    var k, n := KindOf(m.received[1], m.received[2]).value, Missing(m.received);
    if bytes == [] {
      assert m.received + bytes == m.received;
    } else {
      Device.ArgumentByte(m, bytes[0], k);
      var r := m.received + [bytes[0]];
      if n == 1 {
        assert bytes[..1] == [bytes[0]];
        SameExecuted(m, r);
        SettledStays(Receive(m, bytes[0]), bytes[1..]);
      } else {
        var m' := Receive(m, bytes[0]);
        SettleFrame(m', bytes[1..]);
        assert r + bytes[1..] == m.received + bytes;
        if |bytes| >= n {
          assert r + bytes[1..][..n - 1] == m.received + bytes[..n];
          SameExecuted(m, m.received + bytes[..n]);
        }
      }
    }
  }

  lemma SameExecuted(m: Machine, r: seq<byte>)
    requires Complete(r)
    ensures forall s :: Executed(m.(received := s), r) == Executed(m, r)
    ensures Executed(m, r).received == []
  {
    hide Answer, Decode, Complete;
  }

  lemma ShortFrameDropped(m: Machine)
    requires Waiting(m) && 0 < |m.received| < 4
    ensures Receive(m, PREFIX) == m.(received := [])
  {
    var r := m.received;
    if |r| == 1 {
      Device.SecondByte(m, PREFIX);
    } else if |r| == 2 {
      Device.ThirdByte(m, PREFIX);
    } else {
      Device.FourthByte(m, PREFIX, KindOf(r[1], r[2]).value);
    }
  }

  lemma SettledByFiller(m: Machine)
    ensures Settled(m) == Settle(m, Filler())
  {
  }

  /** How the end of an abandoned frame leaves the modchip. */
  lemma SettledIs(m: Machine)
    requires Waiting(m)
    ensures Settled(m).env == if Abandoned(m.received).Some? then Execute(m.env, Abandoned(m.received).value, m.board).0 else m.env
    ensures Settled(m).env.flash == ApplyAll(m.env.flash, AbandonedOps(m))
  {
    hide KindOf, Decode, Execute, Complete, Started, Receive, Filler, Missing, ApplyAll, FlashOps;
    FillerBytes();
    NoOps(m.env.flash);
    var r, bytes := m.received, Filler();
    SettledByFiller(m);
    if 0 < |r| < 4 {
      ShortFrameDropped(m);
      SettledStays(Receive(m, bytes[0]), bytes[1..]);
    } else if |r| >= 4 {
      SettleFrame(m, bytes);
      if Abandoned(r).Some? {
        FlashOfCommand(m.env, Abandoned(r).value, m.board);
      }
    }
  }

  lemma FlashOfCommand(e: Env, c: Command, board: Board)
    ensures Execute(e, c, board).0.flash == ApplyAll(e.flash, FlashOps(e, c))
  {
    hide ApplyAll, AppReply, PinMask, PartitionSize, SectorAccepted, Target, EraseOps, WriteOps, Settings.KeyValue, Settings.AfterCommand;
    NoOps(e.flash);
  }

  // ----- Which abandoned frames have sector operations

  lemma NoOpsWhenLocked(m: Machine)
    requires Waiting(m) && m.env.locked
    ensures AbandonedOps(m) == []
  {
    hide Abandoned;
  }

  /** Only erase and write frames can have any. */
  lemma NoOpsOtherwise(m: Machine)
    requires Waiting(m) && |m.received| >= 3 && KindOf(m.received[1], m.received[2]) !in {Some(EraseFrame), Some(WriteFrame)}
    ensures AbandonedOps(m) == []
  {
    hide KindOf, Code, U16At, U32At, At, Complemented8, Complemented16, Complemented32, ComplementedFlag, Filler, Missing;
    if |m.received| >= 4 {
      FillerBytes();
      CompletedFrame(m.received, Filler()[..if Missing(m.received) <= 36 then Missing(m.received) else 0]);
    }
  }

  /** An abandoned erase frame becomes a command exactly if at most four bytes, all of them complement bytes of the
      count, are missing, and the bytes that unlocking begins with are the right ones. */
  lemma AbandonedErase(r: seq<byte>)
    requires Started(r) && !Complete(r) && |r| >= 4 && KindOf(r[1], r[2]) == Some(EraseFrame)
    ensures |Filler()| == 36 && |r| < 22
    ensures Abandoned(r).Some? <==>
              && |r| >= 18 && Complemented8(r, 4) && Complemented32(r, 6)
              && forall i :: 14 <= i < 18 ==> r[i] as int + (r + Filler())[i + 4] as int == 0xFF
    ensures Abandoned(r).Some? ==> Abandoned(r).value == EraseSectors(At(r, 4), U32At(r, 6), U32At(r, 14))
  {
    hide KindOf, Code, Complete, Started, Filler, U32At;
    FillerBytes();
    CompletedFrame(r, Filler()[..Missing(r)]);
    var n := Missing(r);
    var f := r + Filler()[..n];
    assert forall i :: 0 <= i < |r| ==> f[i] == r[i];
    assert forall i :: |r| <= i < 22 ==> f[i] == FillerByte(i - |r|);
    assert forall i :: 0 <= i < 22 ==> (r + Filler())[i] == f[i];
    Bytewise(f, 14);
    Bytewise(f, 6);
    if n > 4 {
      NeverComplements(n);
      assert f[21] == FillerByte(n - 1);
      assert f[17] == FillerByte(n - 5);
    } else {
      SamePlace(r, f);
    }
  }

  lemma SamePlace(r: seq<byte>, f: seq<byte>)
    requires |r| >= 18 && r <= f
    ensures At(f, 4) == At(r, 4) && (Complemented8(f, 4) <==> Complemented8(r, 4))
    ensures U32At(f, 6) == U32At(r, 6) && (Complemented32(f, 6) <==> Complemented32(r, 6))
    ensures U32At(f, 14) == U32At(r, 14)
  {
    assert forall i :: 0 <= i < 18 ==> At(f, i) == At(r, i);
    hide At;
  }

  /** Two 32-bit numbers are complements exactly if their bytes are. */
  lemma Bytewise(f: seq<byte>, i: nat)
    requires i + 8 <= |f|
    ensures Complemented32(f, i) <==> forall j :: i <= j < i + 4 ==> f[j] as int + f[j + 4] as int == 0xFF
  {
    var a0, a1 := f[i] as int + f[i + 4] as int, f[i + 1] as int + f[i + 5] as int;
    var a2, a3 := f[i + 2] as int + f[i + 6] as int, f[i + 3] as int + f[i + 7] as int;
    assert U32At(f, i) + U32At(f, i + 4) == a0 + 0x100 * (a1 + 0x100 * (a2 + 0x100 * a3));
    hide U32At;
    if Complemented32(f, i) {
      Limb(a0, a1 + 0x100 * (a2 + 0x100 * a3), 0xFF_FFFF);
      Limb(a1, a2 + 0x100 * a3, 0xFFFF);
      Limb(a2, a3, 0xFF);
    }
  }

  lemma Limb(a: nat, rest: nat, all: nat)
    requires a <= 510 && a + 0x100 * rest == 0xFF + 0x100 * all
    ensures a == 0xFF && rest == all
  {
  }

  lemma NeverComplements(n: nat)
    requires 5 <= n <= 18
    ensures FillerByte(n - 5) + FillerByte(n - 1) != 0xFF
  {
  }

  /** An abandoned write frame becomes a command exactly if at most 36 bytes of its data are missing, and what comes
      instead gives the data the announced checksum. */
  lemma AbandonedWrite(r: seq<byte>)
    requires Started(r) && !Complete(r) && |r| >= 4 && KindOf(r[1], r[2]) == Some(WriteFrame)
    ensures |Filler()| == 36 && |r| < 22 + SECTOR_SIZE
    ensures Abandoned(r).Some? <==>
              && |r| + 36 >= 22 + SECTOR_SIZE
              && Complemented8(r, 4) && Complemented32(r, 6) && Complemented32(r, 14)
              && Crc.Crc32(r[22..] + Filler()[..22 + SECTOR_SIZE - |r|]) == U32At(r, 14)
    ensures Abandoned(r).Some? ==>
              Abandoned(r).value == WriteSector(At(r, 4), U32At(r, 6), r[22..] + Filler()[..22 + SECTOR_SIZE - |r|])
  {
    hide KindOf, Code, Complete, Started, Filler, U32At, Crc.Crc32, At;
    FillerBytes();
    var n := Missing(r);
    CompletedFrame(r, []);
    if n <= 36 {
      CompletedFrame(r, Filler()[..n]);
      var f := r + Filler()[..n];
      KeptArguments(r, f);
      assert f[22..] == r[22..] + Filler()[..n];
    }
  }

  lemma KeptArguments(r: seq<byte>, f: seq<byte>)
    requires |r| >= 22 && r <= f
    ensures At(f, 4) == At(r, 4) && (Complemented8(f, 4) <==> Complemented8(r, 4))
    ensures U32At(f, 6) == U32At(r, 6) && (Complemented32(f, 6) <==> Complemented32(r, 6))
    ensures U32At(f, 14) == U32At(r, 14) && (Complemented32(f, 14) <==> Complemented32(r, 14))
  {
    assert forall i :: 0 <= i < 22 ==> At(f, i) == At(r, i);
    hide At;
  }

  // ----- Exactly when a session is a menu session of the power-fail argument

  /** The flash after `k` bytes of the session. */
  function FlashAfter(m: Machine, partition: byte, image: seq<Sector>, k: nat): Flash
    requires Sendable(image) && k <= |SessionBytes(m, partition, image)|
  {
    ReceiveAll(m, SessionBytes(m, partition, image)[..k]).env.flash
  }

  predicate IsMenuPrefix(f: Flash, partition: byte, image: seq<Sector>, h: Flash)
    requires Sendable(image)
  {
    exists j: nat :: j <= |MenuOps(f, partition, image)| && h == ApplyAll(f, MenuOps(f, partition, image)[..j])
  }

  /** Whatever is sent, and wherever the connection breaks, the flash is what a prefix of the menu's operations makes
      of the flash as it was. */
  ghost predicate AlwaysPrefix(m: Machine, partition: byte)
  {
    forall image: seq<Sector>, k: nat :: Sendable(image) && k <= |SessionBytes(m, partition, image)| ==>
      IsMenuPrefix(m.env.flash, partition, image, FlashAfter(m, partition, image, k))
  }

  /** The flash as it was, or with the first sector of the partition erased. */
  predicate HardlyChanged(f: Flash, partition: byte, g: Flash)
  {
    g == f || g == f[WritableFirst(partition) := ERASED]
  }

  /** That is so exactly if the command that the abandoned frame becomes, if it becomes one, leaves the flash as it is
      or does no more than erase the first sector of the partition, as the session is about to do. */
  lemma PrefixExactly(m: Machine, partition: byte)
    requires Waiting(m) && Writable(partition)
    ensures AlwaysPrefix(m, partition) <==> HardlyChanged(m.env.flash, partition, ApplyAll(m.env.flash, AbandonedOps(m)))
  {
    hide ApplyAll, AbandonedOps, SessionBytes, IsMenuPrefix, FlashAfter, HardlyChanged, Writable, Waiting, Settled;
    SettledIs(m);
    var f, g := m.env.flash, Settled(m).env.flash;
    if HardlyChanged(f, partition, g) {
      forall image: seq<Sector>, k: nat | Sendable(image) && k <= |SessionBytes(m, partition, image)|
        ensures IsMenuPrefix(f, partition, image, FlashAfter(m, partition, image, k))
      {
        PrefixHolds(m, partition, image, k);
      }
    } else {
      var k := PrefixFails(m, partition);
      assert !IsMenuPrefix(f, partition, [ERASED], FlashAfter(m, partition, [ERASED], k));
    }
  }

  lemma PrefixFails(m: Machine, partition: byte) returns (k: nat)
    requires Waiting(m) && Writable(partition) && !HardlyChanged(m.env.flash, partition, Settled(m).env.flash)
    ensures k <= |SessionBytes(m, partition, [ERASED])|
    ensures !IsMenuPrefix(m.env.flash, partition, [ERASED], FlashAfter(m, partition, [ERASED], k))
  {
    hide SessionBytes, IsMenuPrefix, FlashAfter, HardlyChanged, Writable, Waiting, Settled;
    k := ReachesSettled(m, partition, [ERASED]);
    if IsMenuPrefix(m.env.flash, partition, [ERASED], Settled(m).env.flash) {
      BlankImagePrefixes(m.env.flash, partition, Settled(m).env.flash);
    }
  }

  lemma PrefixHolds(m: Machine, partition: byte, image: seq<Sector>, k: nat)
    requires Waiting(m) && Writable(partition) && Sendable(image) && k <= |SessionBytes(m, partition, image)|
    requires HardlyChanged(m.env.flash, partition, Settled(m).env.flash)
    ensures IsMenuPrefix(m.env.flash, partition, image, FlashAfter(m, partition, image, k))
  {
    hide ApplyAll, SessionBytes, WritableFirst, Writable, Waiting, Settled, MenuOps, ReceiveAll;
    var f, g := m.env.flash, Settled(m).env.flash;
    NoOps(f);
    assert MenuOps(f, partition, image)[..0] == [];
    var j := CutSessionOverTheWire(m, partition, image, k);
    if FlashAfter(m, partition, image, k) != f && g != f {
      var i := ErasedAlready(f, g, partition, image, j);
    }
  }

  /** A menu session on flash whose first sector has just been erased goes on where one on the flash before stands. */
  lemma ErasedAlready(f: Flash, g: Flash, partition: byte, image: seq<Sector>, j: nat) returns (i: nat)
    requires Sendable(image) && g == f[WritableFirst(partition) := ERASED] && g != f && j <= |MenuOps(g, partition, image)|
    ensures i <= |MenuOps(f, partition, image)|
    ensures ApplyAll(f, MenuOps(f, partition, image)[..i]) == ApplyAll(g, MenuOps(g, partition, image)[..j])
  {
    hide ApplyAll, WritableFirst, WritableCount, MenuCopyOps, Replace, Part, SectorFlash.Disciplined;
    PartSector(f, g, partition, 0);
    MenuCopyOpsFrame(f, g, partition, image, 1);
    MenuErase(f, partition);
    var erase, ops := MenuEraseOps(f, partition), MenuOps(g, partition, image);
    assert f[WritableFirst(partition)] != ERASED;
    assert g[WritableFirst(partition) := ERASED] == g;
    assert MenuOps(f, partition, image) == erase + ops;
    i := |erase| + j;
    assert (erase + ops)[..i] == erase + ops[..j];
    SectorFlash.Concatenation(f, erase, ops[..j]);
  }

  /** For an image that is one erased sector there are only two such prefixes. */
  lemma BlankImagePrefixes(f: Flash, partition: byte, h: Flash)
    requires IsMenuPrefix(f, partition, [ERASED], h)
    ensures HardlyChanged(f, partition, h)
  {
    hide ApplyAll, WritableFirst, WritableCount, SectorFlash.Disciplined;
    MenuErase(f, partition);
    NoOps(f);
    var ops, erase := MenuOps(f, partition, [ERASED]), MenuEraseOps(f, partition);
    assert MenuCopyOps(f, partition, [ERASED], 1) == [];
    assert ops == erase + [] + [] == erase;
    var j: nat :| j <= |ops| && h == ApplyAll(f, ops[..j]);
    assert j == 0 ==> ops[..j] == [];
    assert j == |erase| ==> ops[..j] == erase;
  }

  /** A position in the session at which the abandoned frame has just taken its effect, and nothing else has. */
  lemma ReachesSettled(m: Machine, partition: byte, image: seq<Sector>) returns (k: nat)
    requires Waiting(m) && Writable(partition) && Sendable(image)
    ensures k <= |SessionBytes(m, partition, image)| && FlashAfter(m, partition, image, k) == Settled(m).env.flash
  {
    hide SendWithRetry, Settle, WholeSession, WritingCommands, LockBytes, Execute, Complete, Started, ReceiveAll, EncodeAll, Settled;
    var a, bytes := SendWithRetry(m, WriteLock(false), RETRIES), SessionBytes(m, partition, image);
    SessionParts(m, partition, image);
    var rest: seq<Command> :=
      if a.m.received == []
      then (if a.ok then WritingCommands(partition, image, a.m.env.locked) else []) + [WriteLock(true)]
      else SendWithRetry(a.m, WriteLock(true), RETRIES).sent;
    EncodedConcatenation(a.sent, rest);
    if a.m.received == [] {
      k := |EncodeAll(a.sent)|;
      assert bytes[..k] == EncodeAll(a.sent);
    } else {
      var l := SendWithRetry(a.m, WriteLock(true), RETRIES);
      RetryReached(a.m, WriteLock(true), RETRIES);
      LocksIntoFrame(a.m, true, RETRIES);
      Protocol.Concatenation(m, EncodeAll(a.sent), EncodeAll(rest));
      k := |bytes|;
      assert bytes[..k] == EncodeAll(a.sent) + EncodeAll(rest);
      SettledFlash(m);
    }
  }

  lemma SettledFlash(m: Machine)
    requires Waiting(m)
    ensures Settled(m).received != [] ==> Settled(m).env == m.env
  {
    hide Settle, LockBytes, Complete, Started;
    var bytes := LockBytes(false, RETRIES) + LockBytes(true, RETRIES);
    if m.received == [] {
      SettledStays(m, bytes);
    } else {
      var x := SettleCases(m, bytes);
      if x <= |bytes| && Complete(m.received + bytes[..x]) {
        SameExecuted(m, m.received + bytes[..x]);
      }
    }
  }

  // ----- Exactly when it is safe

  /** A session on the update partition keeps the no-brick invariant, whatever is sent and wherever it is cut. */
  ghost predicate AlwaysSafe(m: Machine, images: set<seq<Sector>>)
  {
    forall image: seq<Sector>, k: nat :: Sendable(image) && k <= |SessionBytes(m, PARTITION_FW_UPDATE, image)| ==>
      Safe(FlashAfter(m, PARTITION_FW_UPDATE, image, k), images + {image})
  }

  /** That is so exactly if the end of the abandoned frame keeps the invariant, and the firmware valid, too; only the
      latter is not needed if the frame outlasts the attempts to unlock, since then nothing is written. */
  lemma SafeExactly(m: Machine, images: set<seq<Sector>>)
    requires Waiting(m) && FwValid(m.env.flash) && Safe(m.env.flash, images)
    ensures var g := ApplyAll(m.env.flash, AbandonedOps(m));
            AlwaysSafe(m, images) <==> Safe(g, images) && (FwValid(g) || Stuck(m))
  {
    hide ApplyAll, AbandonedOps, SessionBytes, FlashAfter, Waiting, Settled, Safe, FwValid, Stuck;
    SettledIs(m);
    var g := Settled(m).env.flash;
    if Safe(g, images) && (FwValid(g) || Stuck(m)) {
      forall image: seq<Sector>, k: nat | Sendable(image) && k <= |SessionBytes(m, PARTITION_FW_UPDATE, image)|
        ensures Safe(FlashAfter(m, PARTITION_FW_UPDATE, image, k), images + {image})
      {
        SafetyHolds(m, image, k, images);
      }
    } else {
      var image := TooLong();
      var k;
      if !Safe(g, images) {
        k := ReachesSettled(m, PARTITION_FW_UPDATE, image);
        WithoutTooLong(g, images);
      } else {
        k := ReachesErase(m, image);
        BothInvalid(g, images + {image});
      }
      assert !Safe(FlashAfter(m, PARTITION_FW_UPDATE, image, k), images + {image});
    }
  }

  lemma SafetyHolds(m: Machine, image: seq<Sector>, k: nat, images: set<seq<Sector>>)
    requires Waiting(m) && Sendable(image) && k <= |SessionBytes(m, PARTITION_FW_UPDATE, image)|
    requires Safe(m.env.flash, images) && Safe(Settled(m).env.flash, images)
    requires FwValid(Settled(m).env.flash) || Stuck(m)
    ensures Safe(FlashAfter(m, PARTITION_FW_UPDATE, image, k), images + {image})
  {
    hide ApplyAll, SessionBytes, Waiting, Settled, Safe, FwValid, Stuck, MenuOps, ReceiveAll;
    var g := Settled(m).env.flash;
    SafeMore(m.env.flash, images, images + {image});
    SafeMore(g, images, images + {image});
    var j := CutSessionOverTheWire(m, PARTITION_FW_UPDATE, image, k);
    NoOps(g);
    assert MenuOps(g, PARTITION_FW_UPDATE, image)[..0] == [];
    if FwValid(g) {
      CutMenuIsSafe(g, image, j, images);
    }
  }

  /** An image that fits no partition of firmware size. */
  function TooLong(): (image: seq<Sector>)
    ensures Sendable(image) && |image| > FW_COUNT
  {
    seq(FW_COUNT + 1, i => ERASED)
  }

  lemma WithoutTooLong(g: Flash, images: set<seq<Sector>>)
    ensures Safe(g, images + {TooLong()}) ==> Safe(g, images)
  {
    hide BootBlockValid, Fw, Upd;
  }

  lemma BothInvalid(g: Flash, images: set<seq<Sector>>)
    requires !FwValid(g)
    ensures !Safe(g[UPDATE_FIRST := ERASED], images)
  {
    hide Holds, BootBlockValid;
    ErasedSectorIsInvalid();
  }

  /** If the end of the abandoned frame changes the flash while unlocking, the session goes on to erase. */
  lemma ReachesErase(m: Machine, image: seq<Sector>) returns (k: nat)
    requires Waiting(m) && !Stuck(m) && Sendable(image) && Settled(m).env.flash != m.env.flash
    ensures k <= |SessionBytes(m, PARTITION_FW_UPDATE, image)|
    ensures FlashAfter(m, PARTITION_FW_UPDATE, image, k) == Settled(m).env.flash[UPDATE_FIRST := ERASED]
  {
    hide SendWithRetry, Settle, WholeSession, LockBytes, Execute, Complete, Started, ReceiveAll, EncodeAll, Settled, StatusOk;
    hide SectorCommands, Step, Encode;
    var a, p := SendWithRetry(m, WriteLock(false), RETRIES), PARTITION_FW_UPDATE;
    SessionParts(m, p, image);
    StuckInUnlocking(m);
    UnlockedByFrame(m);
    var c := EraseFirst(p);
    var rest := WritingCommands(p, image, false) + [WriteLock(true)];
    assert rest == [c] + rest[1..];
    EncodedConcatenation(a.sent, rest);
    EncodedConcatenation([c], rest[1..]);
    EncodedOne(c);
    k := |EncodeAll(a.sent)| + |Encode(c)|;
    assert SessionBytes(m, p, image)[..k] == EncodeAll(a.sent) + Encode(c);
    Protocol.Concatenation(m, EncodeAll(a.sent), Encode(c));
    IdleSend(a.m, c);
    LockReceived(a.m, c);
    CommandOnPartition(a.m.env, p, 0, ERASED, a.m.board);
  }

  /** The answer to the abandoned command is taken for that to the unlocking, which was not needed then. */
  lemma UnlockedByFrame(m: Machine)
    requires Waiting(m) && !Stuck(m) && Settled(m).env.flash != m.env.flash
    ensures var a := SendWithRetry(m, WriteLock(false), RETRIES);
            a.ok && a.m.received == [] && !a.m.env.locked && a.m.env.flash == Settled(m).env.flash
  {
    hide SendWithRetry, Settle, LockBytes, Execute, Decode, Complete, Started, KindOf, Code, Filler, Missing, Settled;
    hide FlashOps, ApplyAll, StatusOk;
    SettledIs(m);
    NoOps(m.env.flash);
    UnlockingFlash(m);
    FillerBytes();
    var r, bytes := m.received, LockBytes(false, RETRIES);
    var c := Abandoned(r).value;
    SettleFrame(m, bytes);
    var n := Missing(r);
    FillerStarts(n);
    assert r + bytes[..n] == r + Filler()[..n];
    LocksIntoFrame(m, false, RETRIES);
    ChangedMeansOk(m.env, c, m.board);
    OkIsOk();
    ExecutedAnswers(m, r + bytes[..n]);
  }

  lemma FillerStarts(n: nat)
    ensures |LockBytes(false, RETRIES)| <= |Filler()|
    ensures n <= |LockBytes(false, RETRIES)| ==> Filler()[..n] == LockBytes(false, RETRIES)[..n]
  {
    hide LockBytes;
  }

  lemma ExecutedAnswers(m: Machine, r: seq<byte>)
    requires Complete(r) && Decode(r).Some?
    ensures Executed(m, r).replies == m.replies + [Execute(m.env, Decode(r).value, m.board).1]
    ensures Executed(m, r).env == Execute(m.env, Decode(r).value, m.board).0
  {
    hide Complete, Decode, Execute;
  }

  lemma ChangedMeansOk(e: Env, c: Command, board: Board)
    requires ApplyAll(e.flash, FlashOps(e, c)) != e.flash
    ensures !e.locked && Execute(e, c, board).1 == Ok && !Execute(e, c, board).0.locked
  {
    hide SectorAccepted, EraseOps, WriteOps, ApplyAll;
    NoOps(e.flash);
  }

  lemma StuckExactly(m: Machine)
    requires Waiting(m)
    ensures Stuck(m) <==> |m.received| >= 4 && Missing(m.received) > 18
  {
    hide Started, Complete, LockBytes, Missing;
    var r, bytes := m.received, LockBytes(false, RETRIES);
    FillerBytes();
    if r == [] {
      SettledStays(m, bytes);
    } else if |r| < 4 {
      ThreeLocks(false);
      ShortFrameDropped(m);
      SettledStays(Receive(m, PREFIX), bytes[1..]);
    } else {
      SettleFrame(m, bytes);
      if |bytes| >= Missing(r) {
        SameExecuted(m, r + bytes[..Missing(r)]);
      }
    }
  }

  // ----- Frames for which it fails, of both kinds

  /** A frame cut before its last byte, which happens to be the prefix. */
  lemma LastByteMissing(c: Command)
    requires 4 < |Encode(c)| && Encode(c)[|Encode(c)| - 1] == PREFIX
    ensures var r := Encode(c)[..|Encode(c)| - 1];
            Started(r) && !Complete(r) && Abandoned(r) == Some(c)
  {
    hide Encode, Decode, Complete, Started, Filler;
    var f := Encode(c);
    var r := f[..|f| - 1];
    RoundTrip(c);
    PrefixIsStarted(f, |f| - 1);
    FillerBytes();
    assert r + [PREFIX] == f;
    assert Filler()[..1] == [PREFIX];
    OneMissing(r, f);
  }

  lemma OneMissing(r: seq<byte>, f: seq<byte>)
    requires Started(r) && !Complete(r) && |r| >= 4 && Complete(f) && r == f[..|f| - 1]
    ensures Missing(r) == 1
  {
    hide KindOf, Code;
    CompletedFrame(r, []);
    assert f[1] == r[1] && f[2] == r[2];
  }

  /** An erase frame without the last complement byte of a count of 0x30000000 and more. */
  lemma AbandonedEraseIsCompleted(partition: byte, sector: u32, count: u32)
    requires count / 0x100_0000 == 0x30
    ensures var c := EraseSectors(partition, sector, count);
            |Encode(c)| == 22 && Started(Encode(c)[..21]) && !Complete(Encode(c)[..21]) && Abandoned(Encode(c)[..21]) == Some(c)
  {
    hide Encode, Started, Complete, Abandoned;
    EraseEnds(partition, sector, count);
    LastByteMissing(EraseSectors(partition, sector, count));
  }

  lemma EraseEnds(partition: byte, sector: u32, count: u32)
    requires count / 0x100_0000 == 0x30
    ensures var f := Encode(EraseSectors(partition, sector, count)); |f| == 22 && f[21] == PREFIX
  {
    hide Header, Pair8;
    EncodedLength(EraseSectors(partition, sector, count));
    assert (0xFFFF_FFFF - count) / 0x100_0000 == 0xFF - count / 0x100_0000;
  }

  /** With an unlocked modchip, such a frame can be one that erases settings and apps. */
  lemma AbandonedEraseDestroys(m: Machine)
    requires m.received == Encode(EraseSectors(PARTITION_FW_UPDATE, 0, 0x3000_012C))[..21] && !m.env.locked
    requires m.env.flash[UPDATE_FIRST] != ERASED && m.env.flash[SETTINGS_FIRST] != ERASED
    ensures Waiting(m) && Settled(m).env.flash[SETTINGS_FIRST] == Settled(m).env.flash[APPS_FIRST] == ERASED
    ensures !AlwaysPrefix(m, PARTITION_FW_UPDATE)
  {
    hide ApplyAll, Encode, EraseRange, Abandoned, Started, Complete, AlwaysPrefix, Settled;
    AbandonedEraseIsCompleted(PARTITION_FW_UPDATE, 0, 0x3000_012C);
    TargetOf(PARTITION_FW_UPDATE, 0);
    EraseRangeErases(m.env.flash, UPDATE_FIRST, 300);
    SettledIs(m);
    PrefixExactly(m, PARTITION_FW_UPDATE);
  }

  /** And one that erases the firmware's first sector, whose number the offset wraps around to. */
  lemma AbandonedEraseBricks(m: Machine, images: set<seq<Sector>>)
    requires m.received == Encode(EraseSectors(PARTITION_FW_UPDATE, SECTOR_SPACE - UPDATE_FIRST + FW_FIRST, 0x3000_0001))[..21]
    requires !m.env.locked && FwValid(m.env.flash) && Safe(m.env.flash, images)
    ensures !AlwaysSafe(m, images)
  {
    hide ApplyAll, Encode, EraseRange, Abandoned, Started, Complete, AlwaysSafe, Settled, Safe, Stuck, BootBlockValid, Missing;
    var sector := SECTOR_SPACE - UPDATE_FIRST + FW_FIRST;
    AbandonedEraseIsCompleted(PARTITION_FW_UPDATE, sector, 0x3000_0001);
    TargetOf(PARTITION_FW_UPDATE, sector);
    EraseRangeErases(m.env.flash, FW_FIRST, 1);
    SettledIs(m);
    SafeExactly(m, images);
    StuckExactly(m);
    ErasedSectorIsInvalid();
    MissingOne(m.received);
  }

  lemma MissingOne(r: seq<byte>)
    requires Started(r) && !Complete(r) && |r| == 21 && Abandoned(r).Some?
    ensures Missing(r) <= 18
  {
    hide Decode, Code, Filler;
  }

  /** A write frame whose data ends with the prefix byte and is all there but for that byte. */
  lemma AbandonedWriteIsCompleted(partition: byte, sector: u32, data: Sector)
    requires data[SECTOR_SIZE - 1] == PREFIX
    ensures var c := WriteSector(partition, sector, data);
            var r := Encode(c)[..|Encode(c)| - 1];
            |Encode(c)| == 22 + SECTOR_SIZE && Started(r) && !Complete(r) && Abandoned(r) == Some(c)
  {
    hide Started, Complete, Abandoned, Header, Pair8, Pair32, Crc.Crc32;
    var c := WriteSector(partition, sector, data);
    EncodedLength(c);
    assert Encode(c)[|Encode(c)| - 1] == data[SECTOR_SIZE - 1];
    hide Encode;
    LastByteMissing(c);
  }

  /** With an unlocked modchip it can put a sector of one image under the first sector of another, which stays valid. */
  lemma AbandonedWriteMixes(m: Machine, data: Sector)
    requires var f := Encode(WriteSector(PARTITION_FW_UPDATE, 1, data)); m.received == f[..|f| - 1]
    requires data[SECTOR_SIZE - 1] == PREFIX && !m.env.locked
    requires FwValid(m.env.flash) && UpdValid(m.env.flash) && Fw(m.env.flash)[0] != Upd(m.env.flash)[0]
    requires m.env.flash[UPDATE_FIRST + 1] != data
    ensures Waiting(m) && Settled(m).env.flash == m.env.flash[UPDATE_FIRST + 1 := data]
    ensures !AlwaysPrefix(m, PARTITION_FW_UPDATE)
    ensures Safe(m.env.flash, {Fw(m.env.flash), Upd(m.env.flash)}) && !AlwaysSafe(m, {Fw(m.env.flash), Upd(m.env.flash)})
  {
    hide ApplyAll, Encode, Abandoned, Started, Complete, AlwaysPrefix, AlwaysSafe, Settled, Stuck, BootBlockValid, Replace;
    hide SectorFlash.Disciplined, Safe;
    var f, g := m.env.flash, m.env.flash[UPDATE_FIRST + 1 := data];
    AbandonedWriteIsCompleted(PARTITION_FW_UPDATE, 1, data);
    TargetOf(PARTITION_FW_UPDATE, 1);
    ReplaceStores(f, UPDATE_FIRST + 1, data);
    SettledIs(m);
    assert Settled(m).env.flash == g;
    assert g[UPDATE_FIRST + 1] != f[UPDATE_FIRST + 1];
    PrefixExactly(m, PARTITION_FW_UPDATE);
    MixedIsUnsafe(f, g);
    SafeExactly(m, {Fw(f), Upd(f)});
  }

  lemma MixedIsUnsafe(f: Flash, g: Flash)
    requires FwValid(f) && UpdValid(f) && Fw(f)[0] != Upd(f)[0]
    requires g[UPDATE_FIRST] == f[UPDATE_FIRST] && g[UPDATE_FIRST + 1] != f[UPDATE_FIRST + 1]
    ensures Safe(f, {Fw(f), Upd(f)}) && !Safe(g, {Fw(f), Upd(f)})
  {
    hide BootBlockValid;
    var images := {Fw(f), Upd(f)};
    assert Fw(f) in images && Upd(f) in images;
    HoldsImage(Fw(f), Fw(f), images);
    HoldsImage(Upd(f), Upd(f), images);
    assert Upd(g)[0] == f[UPDATE_FIRST] == Upd(f)[0] && Upd(g)[1] != Upd(f)[1];
  }

  // ----- Sessions that succeed

  /** From an idle modchip the session sends the plain sequence of commands, repeats only a refused one, and succeeds
      exactly if the image leaves the last sector of the partition free. */
  lemma IdleSession(m: Machine, partition: byte, image: seq<Sector>)
    requires m.received == [] && Writable(partition) && Sendable(image)
    ensures WholeSession(m, partition, image).ok <==> |image| < WritableCount(partition)
    ensures WholeSession(m, partition, image).sent
         == [WriteLock(false)] + (WritingCommands(partition, image, false) + [WriteLock(true)])
    ensures Settled(m) == m
  {
    hide WholeSession, SendWithRetry, WritingCommands, Execute, LockBytes, WritableCount, Settle, Writable;
    EmptyIsWaiting();
    SessionParts(m, partition, image);
    IdleRetry(m, WriteLock(false), RETRIES);
    LockAlone(m.env, false, m.board);
    OkIsOk();
    SettledStays(m, LockBytes(false, RETRIES) + LockBytes(true, RETRIES));
  }

  /** A session that reports success, from whatever state it started, has done all of the menu's sector operations to
      the flash that the end of the abandoned frame left, and leaves the whole image in the partition and the modchip
      locked and idle; it has not touched the settings. */
  lemma UpdateOverTheWire(m: Machine, partition: byte, image: seq<Sector>)
    requires Waiting(m) && Writable(partition) && Sendable(image) && WholeSession(m, partition, image).ok
    ensures var s, done := Settled(m).env, WholeSession(m, partition, image).m;
            && done.received == [] && done.env.locked && done.env.settings == s.settings
            && done.env.flash == ApplyAll(s.flash, MenuOps(s.flash, partition, image))
            && image <= Part(done.env.flash, partition)
            && OnlyPart(s.flash, done.env.flash, partition, 0)
  {
    hide SendWithRetry, WholeSession, Execute, ReceiveAll, EncodeAll, ExecuteAll, ApplyAll, MenuOps, Settled, WritableCount, Writable;
    hide WritingCommands, OnlyPart, WritableFirst, Started, Complete;
    var a, c := SendWithRetry(m, WriteLock(false), RETRIES), WriteLock(true);
    SessionParts(m, partition, image);
    SessionReached(m, partition, image);
    var cs, f := WritingCommands(partition, image, false), a.m.env.flash;
    EncodedConcatenation(a.sent, cs + [c]);
    Protocol.Concatenation(m, EncodeAll(a.sent), EncodeAll(cs + [c]));
    Conversation(a.m, cs + [c]);
    ExecuteConcatenation(a.m, cs, [c]);
    var j := WritingCut(a.m, partition, image, |cs|);
    var ops := MenuOps(f, partition, image);
    assert cs[..|cs|] == cs && ops[..|ops|] == ops;
    CutMenu(f, partition, image, |ops|);
    OneExecuted(ExecuteAll(a.m, cs), c);
    LockAlone(ExecuteAll(a.m, cs).env, true, ExecuteAll(a.m, cs).board);
  }

  /** A whole update: after a session with a valid image has reported success, one boot that is asked to update and
      left to finish runs a firmware that begins with that image. */
  lemma UpdateReachesFirmware(m: Machine, image: seq<Sector>)
    requires Waiting(m) && Sendable(image) && BootBlockValid(image[0])
    requires WholeSession(m, PARTITION_FW_UPDATE, image).ok
    ensures var f := WholeSession(m, PARTITION_FW_UPDATE, image).m.env.flash;
            var g := ApplyAll(f, BootOps(f, true));
            FwValid(g) && image <= Fw(g)
  {
    hide ApplyAll, WholeSession, UpdateOps, MenuOps, BootBlockValid, Settled, Waiting, OnlyPart;
    UpdateOverTheWire(m, PARTITION_FW_UPDATE, image);
    var f := WholeSession(m, PARTITION_FW_UPDATE, image).m.env.flash;
    assert f[UPDATE_FIRST] == Upd(f)[0] == image[0];
    CutUpdate(f, |UpdateOps(f)|);
    assert UpdateOps(f)[..|UpdateOps(f)|] == UpdateOps(f);
    var g := ApplyAll(f, BootOps(f, true));
    assert g[FW_FIRST] == Fw(g)[0] == Upd(f)[0];
  }

  // ----- The writer as the menu runs it, against the firmware's handlers

  class UpdateScene {
    const modchip: Device.Modchip

    constructor (modchip: Device.Modchip)
      ensures this.modchip == modchip
    {
      this.modchip := modchip;
    }

    /** Pokes a frame and reads the status of the first answer since. */
    method SendFrame(c: Command) returns (ok: bool)
      requires modchip.Valid()
      modifies modchip, modchip.sector
      ensures modchip.Valid()
      ensures modchip.State() == Send(old(modchip.State()), c).m && ok == Send(old(modchip.State()), c).ok
    {
      hide Encode, ReceiveAll, Device.Modchip.Valid;
      var answers := |modchip.replies|;
      modchip.WriteAll(Encode(c));
      ok := |modchip.replies| > answers && StatusOk(modchip.replies[answers]);
    }

    method SendFrameWithRetry(c: Command, attempts: nat) returns (ok: bool)
      requires modchip.Valid() && attempts > 0
      modifies modchip, modchip.sector
      ensures modchip.Valid()
      ensures modchip.State() == SendWithRetry(old(modchip.State()), c, attempts).m
      ensures ok == SendWithRetry(old(modchip.State()), c, attempts).ok
    {
      hide Send, Device.Modchip.Valid, Device.Modchip.State;
      ghost var m := modchip.State();
      ok := false;
      var attempt := 0;
      while attempt < attempts
        invariant attempt <= attempts && modchip.Valid() && !ok
        invariant SendWithRetry(m, c, attempts).m == SendWithRetry(modchip.State(), c, attempts - attempt).m
        invariant SendWithRetry(m, c, attempts).ok == SendWithRetry(modchip.State(), c, attempts - attempt).ok
      {
        ok := SendFrame(c);
        if ok {
          break;
        }
        attempt := attempt + 1;
      }
    }

    /** The whole scene: what it does to the modchip, and whether it goes on to the reboot. */
    method Run(partition: byte, image: seq<Sector>) returns (ok: bool)
      requires modchip.Valid() && Sendable(image)
      modifies modchip, modchip.sector
      ensures modchip.Valid()
      ensures modchip.State() == WholeSession(old(modchip.State()), partition, image).m
      ensures ok == WholeSession(old(modchip.State()), partition, image).ok
    {
      hide SendWithRetry, Device.Modchip.Valid, Device.Modchip.State, WriteSectors, Then;
      ghost var m := modchip.State();
      ghost var p := SendWithRetry(m, WriteLock(false), RETRIES);
      ok := SendFrameWithRetry(WriteLock(false), RETRIES);
      ThenAgrees(p, EraseFirst(partition));
      ThenAgrees(Then(p, EraseFirst(partition)), GetSectorSize);
      if ok {
        ok := SendFrameWithRetry(EraseFirst(partition), RETRIES);
      }
      if ok {
        ok := SendFrameWithRetry(GetSectorSize, RETRIES);
      }
      p := Then(Then(p, EraseFirst(partition)), GetSectorSize);
      var i := 1;
      ghost var q := WriteSectors(p, partition, image, 1);
      while ok && i < |image|
        invariant 1 <= i && modchip.Valid() && modchip.State() == p.m && ok == p.ok
        invariant WriteSectors(p, partition, image, i) == q
        decreases |image| - i, ok
      {
        ThenAgrees(p, WriteSector(partition, i, image[i]));
        NextSector(p, partition, image, i);
        ok := SendFrameWithRetry(WriteSector(partition, i, image[i]), RETRIES);
        p := Then(p, WriteSector(partition, i, image[i]));
        i := i + 1;
      }
      NoMoreSectors(p, partition, image, i);
      ThenAgrees(q, WriteSector(partition, 0, image[0]));
      if ok {
        ok := SendFrameWithRetry(WriteSector(partition, 0, image[0]), RETRIES);
      }
      var _ := SendFrameWithRetry(WriteLock(true), RETRIES);
    }
  }

  lemma ThenAgrees(p: Progress, c: Command)
    ensures !p.ok ==> Then(p, c) == p
    ensures p.ok ==> Then(p, c).m == SendWithRetry(p.m, c, RETRIES).m && Then(p, c).ok == SendWithRetry(p.m, c, RETRIES).ok
  {
  }

  // ----- Sessions and commands as events of the no-brick argument

  /** Where a session is a menu session, it is one of its events. */
  lemma PrefixIsMenuEvent(f: Flash, partition: byte, image: seq<Sector>, h: Flash) returns (steps: nat)
    requires FwValid(f) && Sendable(image) && IsMenuPrefix(f, partition, image, h)
    ensures h == After(f, Menu(partition, image, steps))
  {
    hide MenuOps, ApplyAll, FwValid;
    steps :| steps <= |MenuOps(f, partition, image)| && h == ApplyAll(f, MenuOps(f, partition, image)[..steps]);
  }

  /** And every command that has no sector operations, or only such inside the apps partition, is an event elsewhere. */
  lemma CommandIsElsewhere(e: Env, c: Command, board: Board)
    requires FwValid(e.flash) && Inside(FlashOps(e, c), PARTITION_APPS)
    ensures Outside(FlashOps(e, c))
    ensures Execute(e, c, board).0.flash == After(e.flash, Elsewhere(FlashOps(e, c), |FlashOps(e, c)|))
  {
    hide FlashOps, ApplyAll, Execute, FwValid;
    FlashOfCommand(e, c, board);
    var ops := FlashOps(e, c);
    assert ops[..|ops|] == ops;
    forall op | op in ops
      ensures APPS_FIRST <= op.sector
    {
      assert InPartition(PARTITION_APPS, op.sector);
    }
  }
}
