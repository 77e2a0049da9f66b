# Verified model of the fruitchip modchip

This project models the parts of fruitchip whose correctness is hard to see by reading: the settings store that
lives in flash, the firmware update that must survive power cuts, the byte protocol between console and modchip,
the checksums both rely on, and the container formats around them. Everything is proved for all inputs; sizes are
parameters where the repository makes them parameters.

How the files fit together:

- `Bits`, `Crc`, `Fnv`: fixed-width integers and the two checksums. The nibble-table CRC-32 and the shift-add and
  limb forms of FNV-1a are loops proved equal to bit-by-bit division and to XOR-then-multiply.
- `WriteLog`, `FlashOps`, `Store`, `Runs`, `Tears`, `Crash`: the wear-levelling store as functions. Every call is a
  list of flash operations; a power cut leaves a prefix of that list done. `Store.Inv` says that the RAM cache is what
  a restart would rebuild from flash; `Tears` and `Crash` say what a restart finds after a cut at each operation.
- `Rp2040Flash`, `WearLeveling`, `Settings`: the driver, the store and the settings as objects with the fields of
  the C files. Their methods are proved to perform exactly the operation lists and state changes of the functions.
- `SectorFlash`, `ErasedBlock`, `Update`, `Bootloader`: the update. Menu writer and bootloader are lists of sector
  operations over one flash; histories of cut sessions are folded over them. The methods of `Bootloader` perform
  these lists.
- `Protocol`, `Device`, `Host`, `Wire`, `Console`, `Writing`: the wire. `Protocol` is the specification (a frame is
  collected, decoded by position and executed as a whole); `Device.Modchip` has the handler pointer, the counter and
  the statics of the firmware and is proved to behave like it; `Host` has the encoders and what holds between the two
  sides; `Wire` says in bytes which frames ask for what and how they are answered; `Console.Link` has the host
  programs; `Writing` is the menu's update writer as a host that reads the status of each frame, retries and gives up,
  on a modchip in any state.
- `Apps`, `Fwfs`, `Uf2`: the apps partition (builder, firmware lookups, menu listing), the file system driver that
  streams it, and the flattening of update files.

The flash is seen in complemented form inside the settings area (an erased slot reads 0 and programming ORs bits
in), as the driver presents it; `Rp2040Flash` proves that view from AND-only programming of the physical words.

Results a reader may not expect:

- A power cut inside a multi-slot log entry is not harmless: a one-byte write from address 64 up, cut between its
  two slots, clears the byte at the address rounded down to a multiple of 256 (`Tears.TornByteWrite`). Which writes
  always leave a prefix of their bytes is proved in both directions: `Tears.TearsExactly` for entries that lie inside
  the area, `Tears.PrefixesExactly` when the last entry may begin in the last slot and be completed by whatever
  follows. All settings lie below address 64, where every write does.
- A power cut between the two sector erases of a consolidation leaves the log without the data under it, so what is
  found is the log replayed over zeros: neither the old nor the new contents (`Crash.CutWriteOutcome` gives what is
  found at every position, `Crash.ErasingLosesData` such a case).
- `pico_program_bulk` writes what was asked exactly when no 64-word batch crosses a page (`BulkCorrectExactly`). The
  compile-time checks allow logical sizes for which the hash behind the data crosses one (`HashCanStraddle`); it does
  not exactly when the size modulo 256 is at most 248 (`HashFitsExactly`), which the store therefore asks for and the
  built 4096 meets.
- The bounds check of the write and erase commands refuses the last sector of a partition, and lets sector numbers
  pass whose 32-bit offset wraps to below the partition (`AcceptedExactly`). An accepted write stays inside its
  partition exactly when that does not happen or there is nothing to change (`WriteStaysInside`). The sector count of
  an erase is never checked: `EraseStaysInside` says exactly when an erase stays inside, and `EraseLeavesPartition`
  is one that erases settings and apps.
- An accepted erase looks only at its first sector, and does nothing if that is empty (`EraseErasesExactly`).
- An update session may start while the modchip still waits for the end of an abandoned frame; the first lock frames
  then fill that frame up. `Writing.CutSessionOverTheWire` says what the flash can be after every cut, from every such
  state; `Writing.PrefixExactly` and `Writing.SafeExactly` say exactly for which states a session is one of the
  power-fail argument, and for which it cannot brick. Both fail for some abandoned erase and write frames, once the
  modchip is unlocked (`AbandonedEraseDestroys`, `AbandonedEraseBricks`, `AbandonedWriteMixes`).
- The settings store survives power cuts only if its log lies in the last flash sector (`Runs.RunsAreSoundExactly`). The
  compile-time checks do not ask for that; with other sizes a cut erase can leave old entries behind a log that a
  restart takes for empty (`Runs.HalfErasedLog`).
- A file handle opened on an empty file has size 0 and is taken for a free one; seeks to up to eight bytes before the
  data are kept, so that a read there returns the entry's header (`Fwfs.SeekExactly`).
- The menu fills a partial last sector with 0xFF and then copies a whole sector over it, so only bytes below the
  image size are claimed (`Bootloader.WrittenBytes`).
- The UF2 check compares a block with its predecessor only if that one was not at address 0, so an accepted file is
  linear only under the condition of `AcceptedIsLinearExactly`.
- A CRC flag byte counts as 1 whatever non-zero value it has, so one corruption of it goes unnoticed and changes
  nothing (`ByteErrorDetected`).

## Model

| member | source | states |
|---|---|---|
| `Crc.Crc32Table` | fruitchip-include/crc32.h:6-25 | the nibble-table loop computes the remainder of bit-by-bit division by 0x04C11DB7, most significant bit first, from 0xFFFFFFFF and without final complement |
| `Crc.TableIsFourSteps` | fruitchip-include/crc32.h:10-22 | one table lookup on the top nibble does what four division steps do, for every register value |
| `Crc.BuilderCrc32` | fruitchip-fw-apps/build_apps_partition.py:36-46 | the builder's unbounded-integer version with masks computes the same remainder |
| `Crc.Concatenation` | fruitchip-include/crc32.h:6-25 | the checksum of a concatenation continues from the state after the first part |
| `Crc.StateInjective` | fruitchip-include/crc32.h:17-22 | feeding the same bytes never merges two different states |
| `Crc.BurstDetected` | fruitchip-include/crc32.h:6-25 | messages of equal length that differ only inside a window of at most four bytes have different checksums |
| `Crc.ByteChangeDetected` | fruitchip-include/crc32.h:6-25 | changing one byte of a message changes its checksum |
| `Fnv.ShiftAddIsMultiply` | fruitchip-fw/lib/fnv/hash_64a.c:107-117 | the sum of shifts equals multiplication by 0x100000001b3 modulo 2^64 |
| `Fnv.AbsorbInjectiveInState` | fruitchip-fw/lib/fnv/hash_64a.c:107-117 | one round never merges two states: the prime is invertible modulo 2^64 |
| `Fnv.AbsorbInjectiveInOctet` | fruitchip-fw/lib/fnv/hash_64a.c:107-117 | nor two octets |
| `Fnv.Fnv64aBuf` | fruitchip-fw/lib/fnv/hash_64a.c:95-117 | the 64-bit loop computes FNV-1a, XOR before multiplying |
| `Fnv.MultiplyLimbs` | fruitchip-fw/lib/fnv/hash_64a.c:148-173 | one round on four base-2^16 limbs with an unmasked top limb multiplies modulo 2^64, for 32- and 64-bit longs |
| `Fnv.Fnv64aBufLimbs` | fruitchip-fw/lib/fnv/hash_64a.c:119-185 | the limb loop returns the same hash as the 64-bit form |
| `Fnv.Concatenation` | fruitchip-fw/lib/fnv/hash_64a.c:95-185 | hashing in pieces gives the hash of the whole |
| `Fnv.Injective` | fruitchip-fw/lib/fnv/hash_64a.c:95-185 | different states stay different over the same bytes |
| `Fnv.SingleOctetChange` | fruitchip-fw/lib/fnv/hash_64a.c:95-185 | changing one octet of a buffer changes its hash |
| `Fnv.TestVector` | fruitchip-fw/lib/fnv/hash_64a.c:95-117 | the hash of the one-octet string "a" is 0xaf63dc4c8601ec8c |
| `WriteLog.MultibyteRoundTrip` | fruitchip-fw/lib/wear_leveling/wear_leveling_internal.h:111-126 | a multi-byte entry decodes to its address and bytes over the full 19-bit range, has type 0 and a non-zero first slot |
| `WriteLog.Optimized64RoundTrip` | fruitchip-fw/lib/wear_leveling/wear_leveling_internal.h:128-138 | a one-slot entry for an address below 64 decodes to its byte, has type 1 and is not zero |
| `WriteLog.Word01RoundTrip` | fruitchip-fw/lib/wear_leveling/wear_leveling_internal.h:140-151 | a one-slot entry for the words 0 and 1 decodes to them, has type 2 and is not zero |
| `WriteLog.SampleEntries` | fruitchip-fw/lib/wear_leveling/wear_leveling_internal.h:111-151 | the slots of the three kinds of entry, by example |
| `WriteLog.EntryCost` | fruitchip-fw/lib/wear_leveling/wear_leveling.c:420-460 | a 0 or 1 at an even address below 16384 covers two bytes in one slot, a byte below address 64 takes one slot, anything else covers up to five bytes in two to four slots |
| `WriteLog.ChunkRoundTrip` | fruitchip-fw/lib/wear_leveling/wear_leveling.c:422-456 | whatever encoding the writer picks, playback decodes it to the bytes the entry covers, whatever follows it |
| `WriteLog.Append` | fruitchip-fw/lib/wear_leveling/wear_leveling.c:482-600 | replaying two logs of whole entries one after the other is replaying their concatenation |
| `WriteLog.StreamReplays` | fruitchip-fw/lib/wear_leveling/wear_leveling.c:417-471 | the slots of one write replay to one copy of its bytes at its address, for every address and length |
| `FlashOps.ProgramRun` | fruitchip-fw/lib/wear_leveling/wear_leveling_rp2040_flash.c:192-204 | programming consecutive erased slots stores exactly the given words and nothing else |
| `FlashOps.EraseRun` | fruitchip-fw/lib/wear_leveling/wear_leveling_rp2040_flash.c:176-190 | erasing sector by sector clears the area |
| `FlashOps.PartialErase` | fruitchip-fw/lib/wear_leveling/wear_leveling_rp2040_flash.c:176-190 | after some but not all sectors are erased the last one is untouched and the first is clear |
| `Store.PlaybackOfLog` | fruitchip-fw/lib/wear_leveling/wear_leveling.c:476-613 | playback of a log of whole entries consumes it exactly and leaves its replay in the cache |
| `Store.InvMounts` | fruitchip-fw/lib/wear_leveling/wear_leveling.c:476-647 | under the invariant a restart rebuilds the same cache and write position, whatever lies behind the area |
| `Store.InitAgain` | fruitchip-fw/lib/wear_leveling/wear_leveling.c:618-647 | running initialisation again writes nothing and changes nothing |
| `Store.ConsolidateRun` | fruitchip-fw/lib/wear_leveling/wear_leveling.c:257-323 | consolidation leaves data, hash and an erased log, and every program hits an erased slot |
| `Store.FreshInNumbers` | fruitchip-fw/lib/wear_leveling/wear_leveling.c:257-295 | slot by slot: the bytes in pairs, low byte first; four slots that stand, least significant first, for the 64-bit FNV-1a hash of all of them; zeros |
| `Store.WrittenInNumbers` | fruitchip-fw/lib/wear_leveling/wear_leveling.c:257-295 | the same of data and hash written to erased slots, which leaves what is behind them alone |
| `Store.LoadedExactly` | fruitchip-fw/lib/wear_leveling/wear_leveling.c:213-250 | for every area and the bytes that its data slots hold: they are loaded if and only if the four slots behind them are their FNV-1a hash; otherwise all bytes are zero |
| `Store.ConsolidatedInNumbers` | fruitchip-fw/lib/wear_leveling/wear_leveling.c:213-250 | what is loaded from any area is zeros, or bytes that it holds together with their hash |
| `Store.DataDamageIsNoticed` | fruitchip-fw/lib/wear_leveling/wear_leveling.c:223-241 | for every configuration, a consolidated area with any one data byte changed is read as zeros |
| `Store.HashDamageIsNoticed` | fruitchip-fw/lib/wear_leveling/wear_leveling.c:223-241 | and so is one with any one slot of the hash changed |
| `Store.RestartLoads` | fruitchip-fw/lib/wear_leveling/wear_leveling.c:618-647 | a restart with an empty log starts from the data if the hash behind it is right, from zeros otherwise, and does not write |
| `Store.BadEntryConsolidates` | fruitchip-fw/lib/wear_leveling/wear_leveling.c:595-611 | an entry of the unused type behind the log makes a restart write what it has replayed so far as a fresh area |
| `Store.FreshInv` | fruitchip-fw/lib/wear_leveling/wear_leveling.c:303-323 | a consolidated flash satisfies the invariant with an empty log |
| `Store.EraseKeepsInv` | fruitchip-fw/lib/wear_leveling/wear_leveling.c:653-673 | erasing re-establishes the invariant with all bytes zero |
| `Store.AppendKeepsInv` | fruitchip-fw/lib/wear_leveling/wear_leveling.c:345-471 | appending the slots of a write below the end of the log keeps the invariant |
| `Store.WriteKeepsInv` | fruitchip-fw/lib/wear_leveling/wear_leveling.c:678-728 | every write, also one that consolidates in the middle of an entry, keeps the invariant, changes exactly its bytes and programs only erased slots |
| `Runs.BuiltIsPowerSafe` | fruitchip-fw-board/board_configuration.cmake:30 | the built sizes have the log in the last sector and the data in the first |
| `Runs.InitFromClean` | fruitchip-fw/lib/wear_leveling/wear_leveling.c:618-647 | from any flash that a cut can leave, a completed initialisation re-establishes the invariant and programs only erased slots |
| `Runs.TornPrefix` | fruitchip-fw/lib/wear_leveling/wear_leveling.c:360-471 | any number of slots of a write are whole entries and at most one torn one, which reads as an entry with its missing slots erased |
| `Runs.CutAppendClean` | fruitchip-fw/lib/wear_leveling/wear_leveling.c:345-471 | a cut between two appended slots leaves a log that restarts |
| `Runs.CutConsolidationClean` | fruitchip-fw/lib/wear_leveling/wear_leveling.c:257-323 | so does a cut anywhere in a consolidation, between sector erases included |
| `Runs.CutsAreCleanExactly` | fruitchip-fw/lib/wear_leveling/wear_leveling.c:257-323 | every cut of every consolidation of every restartable flash leaves a restartable flash if and only if the log lies in the last sector |
| `Runs.HalfErasedLog` | fruitchip-fw/lib/wear_leveling/wear_leveling.c:476-613 | for all other sizes, a consolidation of a full log cut before its last erase leaves a flash that a restart mounts with an empty log in front of old entries, outside the invariant |
| `Runs.CutWriteClean` | fruitchip-fw/lib/wear_leveling/wear_leveling.c:678-728 | so does a cut after any flash operation of a write |
| `Runs.CutEraseClean` | fruitchip-fw/lib/wear_leveling/wear_leveling.c:653-673 | so does a cut after any sector of an erase |
| `Runs.CutInitClean` | fruitchip-fw/lib/wear_leveling/wear_leveling.c:618-647 | so does a cut inside initialisation itself |
| `Runs.NextIsSound` | fruitchip-fw/lib/wear_leveling/wear_leveling.c:303-353 | each write, erase, initialisation or cut keeps the running store in its invariant or the flash restartable |
| `Runs.EveryRunIsSound` | fruitchip-fw/lib/wear_leveling/wear_leveling.c:303-745 | so does every run of them, of any length, from every sound state |
| `Runs.RunsAreSoundExactly` | fruitchip-fw/lib/wear_leveling/wear_leveling.c:303-745 | all runs from erased flash are sound if and only if the log lies in the last sector; otherwise one-slot writes that fill the log and a cut reach an unsound one |
| `Runs.ErasedFlashIsSound` | fruitchip-fw/lib/wear_leveling/wear_leveling.c:213-250 | erased flash is such a starting point |
| `Runs.StoreRefinesByteArray` | fruitchip-fw/lib/wear_leveling/wear_leveling.c:332-745 | over every run without cuts the store holds what a plain byte array would, restarts included |
| `Runs.BuiltErasesTwice` | fruitchip-fw-board/board_configuration.cmake:30 | the built area is two sectors, so it can be cut between two erases |
| `Tears.CutAppendPlays` | fruitchip-fw/lib/wear_leveling/wear_leveling.c:482-600 | playback of an append cut after any number of slots: the whole entries, then the torn one as its programmed slots decode, completed by what follows the area |
| `Tears.CutAppendOutcome` | fruitchip-fw/lib/wear_leveling/wear_leveling.c:417-471 | what a restart finds then, for every write and every cut |
| `Tears.TornInside` | fruitchip-fw/lib/wear_leveling/wear_leveling.c:494-551 | a torn entry inside the area stores, at its address or, after one slot, at the page below, the bytes whose slots were programmed and zeros for the others |
| `Tears.TornByteWrite` | fruitchip-fw/lib/wear_leveling/wear_leveling.c:494-551 | a one-byte write from address 64 up that is cut between its slots clears the byte at the address rounded down to a multiple of 256 and changes nothing else |
| `Tears.TearsExactly` | fruitchip-fw/lib/wear_leveling/wear_leveling.c:417-471 | over all stores and all cuts whose torn entry lies inside the area, a write leaves a prefix of its bytes if and only if each of its entries is one slot or harmless when torn |
| `Tears.OneByteTears` | fruitchip-fw/lib/wear_leveling/wear_leveling.c:417-471 | for one byte: below address 64, or a zero at a multiple of 256 |
| `Tears.UnsafeState` | fruitchip-fw/lib/wear_leveling/wear_leveling.c:494-551 | for every other write a store and a cut at which no prefix is left |
| `Tears.PrefixesExactly` | fruitchip-fw/lib/wear_leveling/wear_leveling.c:417-471 | over all stores, write positions and contents behind the area, a write leaves a prefix if and only if every entry that can start in a log is one slot |
| `Tears.StrayState` | fruitchip-fw/lib/wear_leveling/wear_leveling.c:494-551 | for every other write a store at the end of its log where no prefix is left |
| `Tears.LowAddressesAreSingleSlots` | fruitchip-fw/lib/wear_leveling/wear_leveling.c:422-456 | writes that lie below address 64 consist of single-slot entries |
| `Crash.CutConsolidationOutcome` | fruitchip-fw/lib/wear_leveling/wear_leveling.c:257-323 | what a restart finds after a consolidation cut at each position, on any flash: the flash as it was; the log over zeros while some sectors are erased; then zeros or a partial area whose hash is zero; then zeros or the new contents while the hash is programmed |
| `Crash.OverZerosExactly` | fruitchip-fw/lib/wear_leveling/wear_leveling.c:213-250 | between two sector erases a restart always finds the log over zeros if and only if the log lies in the last sector and the data in the first |
| `Crash.CutEraseOutcome` | fruitchip-fw/lib/wear_leveling/wear_leveling.c:653-673 | the same for a cut erase |
| `Crash.CutWriteOutcome` | fruitchip-fw/lib/wear_leveling/wear_leveling.c:678-728 | what a restart finds after any write is cut at any of its operations: the cut append, or the cut consolidation of the new contents |
| `Crash.WriteCutOverZeros` | fruitchip-fw/lib/wear_leveling/wear_leveling.c:213-250 | between two sector erases of a write that filled the log: the log and what was appended to it, replayed on zeros |
| `Crash.ErasingLosesData` | fruitchip-fw/lib/wear_leveling/wear_leveling_rp2040_flash.c:176-190 | with more than one sector that is a real loss: a one-slot write after which neither a prefix nor the new contents nor zeros are found |
| `Crash.SingleSlotWriteCrash` | fruitchip-fw/lib/wear_leveling/wear_leveling.c:417-471 | such a write by position of the cut: a prefix of its bytes while it appends; if it filled the log, the log over zeros between sector erases, zeros or a zero-hash part, zeros or the new contents, and at the end the new contents |
| `Crash.CutRestartOutcome` | fruitchip-fw/lib/wear_leveling/wear_leveling.c:618-647 | a restart that is itself cut, on any flash: nothing changes, or the outcome of cutting the consolidation of what was found |
| `Rp2040Flash.BulkIsStraight` | fruitchip-fw/lib/wear_leveling/wear_leveling_rp2040_flash.c:130-157 | page-program batches write exactly the requested words in order and touch nothing else |
| `Rp2040Flash.PageProgramInside` | fruitchip-fw/lib/wear_leveling/wear_leveling_rp2040_flash.c:140-155 | a page-program command inside one page stores its words at their own addresses |
| `Rp2040Flash.BulkCorrectExactly` | fruitchip-fw/lib/wear_leveling/wear_leveling_rp2040_flash.c:130-157 | that holds on every chip if and only if no batch crosses a page |
| `Rp2040Flash.ProgramInView` | fruitchip-fw/lib/wear_leveling/wear_leveling_rp2040_flash.c:140-147 | programming complemented words ANDs the chip, which is ORing in the complemented view |
| `Rp2040Flash.StraightInView` | fruitchip-fw/lib/wear_leveling/wear_leveling_rp2040_flash.c:192-224 | a bulk write is the listed slot programs in the view, and nothing beyond the area changes |
| `Rp2040Flash.BackingStore.SendPageProgram` | fruitchip-fw/lib/wear_leveling/wear_leveling_rp2040_flash.c:140-155 | the word loop inside one page, with the chip's wrap-around |
| `Rp2040Flash.BackingStore.PicoProgramBulk` | fruitchip-fw/lib/wear_leveling/wear_leveling_rp2040_flash.c:130-157 | the batch loop through the 64-word buffer |
| `Rp2040Flash.BackingStore.Erase` | fruitchip-fw/lib/wear_leveling/wear_leveling_rp2040_flash.c:176-190 | erases every sector of the area and nothing else |
| `Rp2040Flash.BackingStore.WriteBulk` | fruitchip-fw/lib/wear_leveling/wear_leveling_rp2040_flash.c:196-204 | performs exactly the slot programs asked for |
| `Rp2040Flash.BackingStore.Write` | fruitchip-fw/lib/wear_leveling/wear_leveling_rp2040_flash.c:192-194 | programs exactly one slot |
| `Rp2040Flash.BackingStore.ReadBulk` | fruitchip-fw/lib/wear_leveling/wear_leveling_rp2040_flash.c:214-224 | returns the complemented words, beyond the area too |
| `Rp2040Flash.BackingStore.Read` | fruitchip-fw/lib/wear_leveling/wear_leveling_rp2040_flash.c:210-212 | returns one complemented word |
| `WearLeveling.WearLeveler.Unlock` | fruitchip-fw/lib/wear_leveling/wear_leveling.c:176-185 | unlocks and reports whether that changed anything |
| `WearLeveling.WearLeveler.Lock` | fruitchip-fw/lib/wear_leveling/wear_leveling.c:190-199 | locks and reports whether that changed anything |
| `WearLeveling.WearLeveler.ClearCache` | fruitchip-fw/lib/wear_leveling/wear_leveling.c:204-207 | zeros the cache and moves the write position to the start of the log |
| `WearLeveling.WearLeveler.ReadConsolidated` | fruitchip-fw/lib/wear_leveling/wear_leveling.c:213-250 | the cache is zeros, or bytes that the area holds together with their FNV-1a hash, as `Store.Consolidated` says; the hash is computed and compared |
| `WearLeveling.WearLeveler.WriteConsolidated` | fruitchip-fw/lib/wear_leveling/wear_leveling.c:257-296 | programs data and hash; on erased slots that leaves the cache in pairs of bytes and, in the four slots behind it, its FNV-1a hash, and keeps the lock as it was |
| `WearLeveling.WearLeveler.ConsolidateForce` | fruitchip-fw/lib/wear_leveling/wear_leveling.c:257-323 | erases, writes data and hash, and moves the write position to the start of the log |
| `WearLeveling.WearLeveler.ConsolidateIfNeeded` | fruitchip-fw/lib/wear_leveling/wear_leveling.c:332-338 | consolidates exactly when the log is full |
| `WearLeveling.WearLeveler.AppendRaw` | fruitchip-fw/lib/wear_leveling/wear_leveling.c:345-353 | programs the next slot and consolidates if that filled the log |
| `WearLeveling.WearLeveler.WriteRawMultibyte` | fruitchip-fw/lib/wear_leveling/wear_leveling.c:360-412 | appends the slots of a multi-byte entry, stopping after a consolidation |
| `WearLeveling.WearLeveler.WriteEntry` | fruitchip-fw/lib/wear_leveling/wear_leveling.c:422-466 | one round of the loop: picks the encoding of the next entry and appends it |
| `WearLeveling.WearLeveler.WriteRaw` | fruitchip-fw/lib/wear_leveling/wear_leveling.c:417-471 | appends the whole entry stream of a write, stopping after a consolidation |
| `WearLeveling.WearLeveler.ReadEntry` | fruitchip-fw/lib/wear_leveling/wear_leveling.c:489-598 | decodes one entry, reading further slots as its type asks |
| `WearLeveling.WearLeveler.ReadMultibyte` | fruitchip-fw/lib/wear_leveling/wear_leveling.c:494-566 | decodes one multi-byte entry, past the end of the area too |
| `WearLeveling.WearLeveler.PlaybackLog` | fruitchip-fw/lib/wear_leveling/wear_leveling.c:476-613 | the playback loop ends in the state the replay function gives, rejected entries and reads past the area included |
| `WearLeveling.WearLeveler.Init` | fruitchip-fw/lib/wear_leveling/wear_leveling.c:618-647 | mounts any flash, consolidating after a rejected entry or with a full log |
| `WearLeveling.WearLeveler.Erase` | fruitchip-fw/lib/wear_leveling/wear_leveling.c:653-673 | erases and keeps the invariant |
| `WearLeveling.WearLeveler.Write` | fruitchip-fw/lib/wear_leveling/wear_leveling.c:678-728 | rejects ranges past the end, skips unchanged bytes, otherwise performs the write's operation list and keeps the invariant, for ranges whose end does not wrap 32 bits |
| `WearLeveling.WearLeveler.Read` | fruitchip-fw/lib/wear_leveling/wear_leveling.c:733-745 | returns the cached bytes of an in-range request and rejects others, for ranges whose end does not wrap 32 bits |
| `WearLeveling.HashFitsExactly` | fruitchip-fw/lib/wear_leveling/wear_leveling_rp2040_flash.c:130-157 | bulk writing can store the hash behind the data if and only if the logical size modulo 256 is at most 248 |
| `WearLeveling.HashCanStraddle` | fruitchip-fw/lib/wear_leveling/wear_leveling_internal.h:65-67 | 250 logical and 500 backing bytes pass the compile-time checks, and there the hash is not stored |
| `Settings.SetKeyReadsBack` | fruitchip-fw/src/settings.c:69-128 | a key reads back as the value reduced to its field's type, the other keys and the magic are untouched |
| `Settings.DefaultsAreValid` | fruitchip-fw/src/settings.c:24-28 | the defaults carry the magic, autoboot on and a delay of ten seconds |
| `Settings.AcceptedExactly` | fruitchip-fw/src/settings.c:22-51 | a struct is kept if and only if it begins with the magic bytes 02 00 DE 73; any other is replaced by the defaults, given byte by byte |
| `Settings.LastValueWins` | fruitchip-fw/src/boot_rom/write/kv.c:28-101 | over any run of commands every key reads as the last value accepted for it |
| `Settings.CutKvSet` | fruitchip-fw/src/settings.c:54-65 | what `settings_init` makes of a power cut at any operation of setting a key: while slots are appended only this key may differ, old, new or, for the delay, half written; if the log was full, by position, the log over zeros, the defaults or a zero-hash part, the defaults or the new struct, the new struct |
| `Settings.SettingsStore.Reset` | fruitchip-fw/src/settings.c:22-32 | writes the defaults through to the store |
| `Settings.SettingsStore.Init` | fruitchip-fw/src/settings.c:34-52 | after any restartable flash the struct is what was stored if its magic was right, else the defaults, and equals the first bytes of the store |
| `Settings.SettingsStore.Restart` | fruitchip-fw/src/settings.c:34-52 | a clean restart loses nothing |
| `Settings.SettingsStore.UpdatePart` | fruitchip-fw/src/settings.c:54-65 | writes one field through, by the operations of that write, and re-establishes that struct and store agree |
| `Settings.SettingsStore.SetMenuAutoboot` | fruitchip-fw/src/settings.c:74-79 | stores the flag, in RAM and durably, unless it has that value |
| `Settings.SettingsStore.SetMenuAutobootDelaySec` | fruitchip-fw/src/settings.c:90-95 | the same for the two bytes of the delay |
| `Settings.SettingsStore.SetMenuAutobootItemIdx` | fruitchip-fw/src/settings.c:106-111 | the same for the item, whose 16-bit argument is compared whole and stored in one byte |
| `Settings.SettingsStore.SetMenuOsdsysOptions` | fruitchip-fw/src/settings.c:123-128 | the same for the options byte |
| `Settings.SettingsStore.KvGet` | fruitchip-fw/src/boot_rom/write/kv.c:28-49 | answers with the key's value, refuses unknown keys |
| `Settings.SettingsStore.KvSet` | fruitchip-fw/src/boot_rom/write/kv.c:83-101 | stores the reduced value durably, by the operations whose cuts `CutKvSet` covers, refuses unknown keys |
| `Settings.SettingsStore.RunAll` | fruitchip-fw/src/settings.c:34-128 | any sequence of settings commands and restarts from flash ends with the settings it should, every read answered with the last value accepted before it |
| `SectorFlash.ReplaceStores` | fruitchip-fw-bootloader/src/main.c:173-186 | compare, erase, program leaves exactly the new sector, programming only erased flash |
| `SectorFlash.CutReplace` | fruitchip-fw-bootloader/src/main.c:182-183 | cut inside, the sector is old, erased or new |
| `SectorFlash.ProgrammingClears` | fruitchip-fw-bootloader/src/main.c:182-183 | after programming, a bit is set if and only if it was set before and is set in the data |
| `SectorFlash.EraseRangeErases` | fruitchip-fw/src/boot_rom/write/flash.c:307-319 | an erase of n sectors leaves exactly those erased |
| `SectorFlash.AcceptedExactly` | fruitchip-fw/src/boot_rom/write/flash.c:161-175 | which sector numbers pass the bounds check, both directions |
| `SectorFlash.OffsetIsTarget` | fruitchip-fw/src/boot_rom/write/flash.c:161-175 | the 32-bit offset computation and its bounds check, in sectors |
| `SectorFlash.BootBlockExactly` | fruitchip-fw-bootloader/src/main.c:73-100 | a first sector is valid if and only if its bytes 252 to 255 are the checksum of the bytes before them, low byte first |
| `SectorFlash.ChecksummedIsValid` | fruitchip-fw-bootloader/src/main.c:73-100 | any 252 bytes followed by their checksum and anything else are valid |
| `SectorFlash.BlockDamageIsNoticed` | fruitchip-fw-bootloader/src/main.c:73-100 | changing any one of the first 256 bytes of a valid sector makes it invalid |
| `Update.CutCopy` | fruitchip-fw-bootloader/src/main.c:167-191 | cut anywhere in the sector loop, no sector equal to the update is disturbed, and the finished loop makes all of them equal |
| `ErasedBlock.ErasedSectorIsInvalid` | fruitchip-fw-bootloader/src/main.c:73-100 | an erased first sector is never taken for a firmware: the checksum of 252 bytes of 0xFF is not 0xFFFFFFFF |
| `Update.CutUpdate` | fruitchip-fw-bootloader/src/main.c:138-205 | cut after any sector operation, the bootloader's copy has touched only the firmware, disturbed no sector that was copied already, and keeps the first sector erased until all is equal to the update |
| `Update.AttemptsConverge` | fruitchip-fw-bootloader/src/main.c:153-199 | over any number of interrupted attempts copied sectors are never lost, and the first one left to finish makes the firmware equal to the update in every sector |
| `Update.CutMenu` | fruitchip-menu/src/scene/settings/update/writing.c:62-98 | a menu session on the update or the apps partition cut anywhere has touched only that partition, which is as before, invalid, or holds the whole image |
| `Update.CutMenuCopy` | fruitchip-menu/src/scene/settings/update/writing.c:81-90 | the same for the loop over the sectors after the first |
| `Update.BootIsSafe` | fruitchip-fw-bootloader/src/main.c:207-248 | a boot, finished or cut, keeps valid partitions complete and one partition valid |
| `Update.MenuIsSafe` | fruitchip-menu/src/scene/settings/update/writing.c:48-109 | so does a menu session |
| `Update.AppsMenuIsSafe` | fruitchip-menu/src/scene/settings/update/writing.c:48-109 | so does a session on the apps partition |
| `Update.ElsewhereIsSafe` | fruitchip-fw/src/boot_rom/write/flash.c:142-330 | so do sector operations outside firmware and update, none included |
| `Update.NeverBricked` | fruitchip-fw-bootloader/src/main.c:138-248 | so does every history of boots, menu sessions on either partition and commands that leave firmware and update alone, each cut anywhere |
| `Update.OneFullBootStarts` | fruitchip-fw-bootloader/src/main.c:232-247 | one boot that is left to finish starts a complete image |
| `Update.BootDecision` | fruitchip-fw-bootloader/src/main.c:232-239 | a boot does nothing to the flash if the firmware is valid and no update was asked for, or if there is no valid update; otherwise the firmware becomes the update and nothing else changes |
| `Bootloader.Bootloader.TryUpdateFirmware` | fruitchip-fw-bootloader/src/main.c:138-205 | performs exactly the update's operation list, ends with the firmware equal to the update, and counts as copied the first sector and those that differed, as skipped the others |
| `Bootloader.Bootloader.IsFwValid` | fruitchip-fw-bootloader/src/main.c:88-93 | valid exactly when the CRC-32 of the first 252 bytes of the firmware is the word stored behind them |
| `Bootloader.Bootloader.IsUpdateValid` | fruitchip-fw-bootloader/src/main.c:95-100 | the same for the update |
| `Bootloader.Bootloader.IsBlockValid` | fruitchip-fw-bootloader/src/main.c:73-100 | runs the checksum over the first 252 bytes of a partition and accepts it if and only if the bytes at 0xfc are that checksum, low byte first |
| `Bootloader.Bootloader.Run` | fruitchip-fw-bootloader/src/main.c:207-248 | leaves the flash alone if the firmware is valid and no update is requested or if the update is invalid, makes the firmware equal to the update and changes nothing else otherwise, and starts the firmware if and only if it is valid then |
| `Bootloader.FlashChip.ReplaceSector` | fruitchip-fw/src/boot_rom/write/flash.c:184-198 | writes a sector unless it holds the data already |
| `Bootloader.FlashChip.EraseOne` | fruitchip-fw-bootloader/src/main.c:159 | erases one sector of the chip, nothing behind its end, and records the operation |
| `Bootloader.FlashChip.ProgramOne` | fruitchip-fw-bootloader/src/main.c:197 | programs one sector, which can only clear bits, nothing behind the chip's end, and records the operation |
| `Bootloader.UpdateWriter.EraseCommand` | fruitchip-fw/src/boot_rom/write/flash.c:257-330 | for every partition and 32-bit sector number, accepted exactly as the bounds check says; erases the addressed sector unless it is empty |
| `Bootloader.UpdateWriter.WriteCommand` | fruitchip-fw/src/boot_rom/write/flash.c:142-213 | for every partition and 32-bit sector number, accepted exactly as the bounds check says; leaves the data in the addressed sector, writing only if it differs |
| `Bootloader.UpdateWriter.WriteUpdateSector` | fruitchip-menu/src/scene/settings/update/writing.c:23-46 | sends one sector of the image, padding overwritten |
| `Bootloader.UpdateWriter.Write` | fruitchip-menu/src/scene/settings/update/writing.c:48-109 | for the update and the apps partition, performs exactly the session's operation list, succeeds when the image leaves the last sector free, and then the partition begins with the image |
| `Bootloader.WrittenBytes` | fruitchip-menu/src/scene/settings/update/writing.c:23-98 | every byte below the image size is in place |
| `Protocol.CodesAreDistinct` | fruitchip-fw/src/boot_rom/write/idle.c:15-67 | the dispatch on group and third byte recognises every declared command code |
| `Protocol.OnlyDeclaredCodes` | fruitchip-fw/src/boot_rom/write/idle.c:15-67 | and nothing else |
| `Protocol.PresentExactly` | fruitchip-fw/include/apps.h:10-28 | an apps partition is present if and only if its first twelve bytes are 41 50 50 53 B4 0A B8 4F 02 00 00 00 |
| `Protocol.AppAnsweredExactly` | fruitchip-fw/src/boot_rom/write/read_app.c:48-99 | told by the bytes in flash: a read is answered with the data behind the offset in the table if those twelve bytes are there, the app exists and the offset lies in its entry, and with an error otherwise |
| `Protocol.NoAppsNoAnswer` | fruitchip-fw/src/boot_rom/write/read_app.c:26-46 | without those bytes every read is answered with an error and changes nothing |
| `Protocol.ErasedAppsNoAnswer` | fruitchip-fw/include/apps.h:16-28 | so it is on an erased apps partition |
| `Protocol.FrameIsExecuted` | fruitchip-fw/src/boot_rom/write/idle.c:15-98 | from idle a complete frame is executed exactly once, by position, and leaves the machine idle |
| `Protocol.Resynchronises` | fruitchip-fw/src/boot_rom/write/flash.c:142-255 | from any state the machine is idle again within FLASH_SECTOR_SIZE + 21 bytes |
| `Wire.CommandBytes` | fruitchip-include/modchip/cmd.h:3-33 | the four bytes that each command with arguments begins with |
| `Wire.PlainAnswers` | fruitchip-fw/src/boot_rom/write/get_payload.c:12-57 | which four bytes ask for which size, program or revision and how it is answered |
| `Wire.TestAnswers` | fruitchip-fw/src/boot_rom/write/test.c:14-105 | the same for the test commands |
| `Wire.DisableHookAnswer` | fruitchip-fw/src/boot_rom/write/patch_control.c:14-28 | the same for the one that also sets a flag |
| `Wire.SectorSizeAnswer` | fruitchip-fw/src/boot_rom/write/flash.c:94-109 | the sector size is 4096 |
| `Wire.PartitionSizeAnswer` | fruitchip-fw/src/boot_rom/write/flash.c:57-92 | the partition sizes are 648, 648 and 712 KiB; other partitions are refused |
| `Wire.LockAnswer` | fruitchip-fw/src/boot_rom/write/flash.c:111-140 | 1 locks and 0 unlocks, each with its complement |
| `Wire.RebootAnswer` | fruitchip-fw/src/boot_rom/write/flash.c:372-404 | mode 0 reboots, mode 1 reboots and asks for the update, any other is refused |
| `Wire.PinAnswer` | fruitchip-fw/src/boot_rom/write/configuration.c:10-62 | the masks of the data pins and of the three single pins; other names are refused |
| `Wire.KvGetAnswer` | fruitchip-fw/src/boot_rom/write/kv.c:9-54 | a settings read is answered from bytes 4, 6 and 7, 8 and 9 of the stored struct; other keys are refused |
| `Wire.KvSetAnswer` | fruitchip-fw/src/boot_rom/write/kv.c:56-114 | a settings write is answered OK and stores 1 for any flag but 0, the low 16 or the low 8 bits, and no other setting changes |
| `Wire.UnknownKeyRefused` | fruitchip-fw/src/boot_rom/write/kv.c:56-114 | storing a key from 4 up is refused and changes nothing |
| `Wire.Stage3Answer` | fruitchip-fw/src/boot_rom/write/get_payload.c:63-85 | stage 3 is read from offsets inside its size only |
| `Wire.WriteRefused` | fruitchip-fw/src/boot_rom/write/flash.c:142-330 | erasing and writing are refused, and change nothing, while the modchip is locked and for partitions other than update and apps |
| `Wire.SampleFrames` | fruitchip-include/modchip/flash.h:89-160 | the frames of the longer commands, byte by byte, by example |
| `Wire.WrongByteIsForgotten` | fruitchip-fw/src/boot_rom/write/idle.c:15-98 | a byte that continues no frame makes the modchip idle and is forgotten, even if it is a prefix byte |
| `Device.U32Grows` | fruitchip-fw/src/boot_rom/write/flash.c:228-231 | assembling four bytes by shift and OR gives the little-endian number, at every intermediate step |
| `Device.Modchip.HandleIdle` | fruitchip-fw/src/boot_rom/write/idle.c:88-98 | resets the counter and waits for the prefix |
| `Device.Modchip.constructor` | fruitchip-fw/src/boot_rom/write/flash.c:26 | the machine starts idle with the flash locked |
| `Device.Modchip.HandleCmd` | fruitchip-fw/src/boot_rom/write/idle.c:69-85 | selects the group or goes back to idle |
| `Device.Modchip.SelectGroup0` | fruitchip-fw/src/boot_rom/write/idle.c:15-45 | installs the handler of the command announced |
| `Device.Modchip.SelectGroup1` | fruitchip-fw/src/boot_rom/write/idle.c:47-67 | the same for the second group |
| `Device.Modchip.HandleStage3` | fruitchip-fw/src/boot_rom/write/get_payload.c:89-124 | collects offset, size and flag of a stage 3 read |
| `Device.Modchip.HandleStage3Last` | fruitchip-fw/src/boot_rom/write/get_payload.c:63-87 | checks the complements and the offset, then answers |
| `Device.Modchip.HandleApp` | fruitchip-fw/src/boot_rom/write/read_app.c:48-99 | collects the arguments of an app read and its four validity flags |
| `Device.Modchip.HandleAppLast` | fruitchip-fw/src/boot_rom/write/read_app.c:26-46 | checks the last byte and answers with data if all five flags hold; without the twelve bytes of an apps partition always with an error |
| `Device.Modchip.HandleKvGet` | fruitchip-fw/src/boot_rom/write/kv.c:9-54 | the settings read machine |
| `Device.Modchip.HandleKvSet` | fruitchip-fw/src/boot_rom/write/kv.c:56-114 | the settings write machine |
| `Device.Modchip.HandlePartitionSize` | fruitchip-fw/src/boot_rom/write/flash.c:57-92 | the partition size machine |
| `Device.Modchip.HandleSectorSize` | fruitchip-fw/src/boot_rom/write/flash.c:94-109 | the sector size machine |
| `Device.Modchip.HandleWriteLock` | fruitchip-fw/src/boot_rom/write/flash.c:111-140 | the write lock machine; any non-zero value locks |
| `Device.Modchip.HandleErase` | fruitchip-fw/src/boot_rom/write/flash.c:332-370 | collects the arguments of an erase in the statics it shares with writing |
| `Device.Modchip.HandleEraseLast` | fruitchip-fw/src/boot_rom/write/flash.c:257-330 | checks and erases |
| `Device.Modchip.CheckPlace` | fruitchip-fw/src/boot_rom/write/flash.c:156-175 | complements and bounds check of partition and sector, in the 32-bit arithmetic of both commands |
| `Device.Modchip.IsSectorEmpty` | fruitchip-fw/src/boot_rom/write/flash.c:295-305 | scans one sector for a byte other than 0xFF |
| `Device.Modchip.EraseSectors` | fruitchip-fw/src/boot_rom/write/flash.c:291-322 | erases the sectors asked for unless the first one is empty, with a 32-bit byte count |
| `Device.Modchip.HandleWriteSector` | fruitchip-fw/src/boot_rom/write/flash.c:215-255 | collects the header of a sector write |
| `Device.Modchip.HandleWriteData` | fruitchip-fw/src/boot_rom/write/flash.c:142-213 | collects 4096 payload bytes, then checks and writes |
| `Device.Modchip.AnswerWrite` | fruitchip-fw/src/boot_rom/write/flash.c:150-206 | checks place and checksum of the payload, then writes and answers |
| `Device.Modchip.WriteSector` | fruitchip-fw/src/boot_rom/write/flash.c:184-198 | erases and programs unless the sector holds the payload already |
| `Device.Modchip.HandleReboot` | fruitchip-fw/src/boot_rom/write/flash.c:372-404 | the reboot machine, leaving the update magic if asked to |
| `Device.Modchip.HandlePinConfig` | fruitchip-fw/src/boot_rom/write/configuration.c:10-62 | the pin configuration machine: an error or the mask of the pins asked for, with CRC |
| `Device.Modchip.PinMaskOf` | fruitchip-fw/src/boot_rom/write/configuration.c:27-49 | ORing the bits pin by pin gives the mask of eight consecutive pins |
| `Device.Modchip.HandlePlain` | fruitchip-fw/src/boot_rom/write/get_payload.c:12-55 | the machines of the commands without arguments: each command's status, data and CRC as `Protocol.PlainReply` lists them |
| `Device.Modchip.Write` | fruitchip-fw/src/boot_rom/write/idle.c:15-98 | the handler-based machine with its statics does, byte by byte, what the frame-based specification does, whatever earlier aborted frames left in the statics |
| `Device.Modchip.WriteAll` | fruitchip-fw/src/boot_rom/write/idle.c:15-98 | the same for any byte sequence |
| `Host.RoundTrip` | fruitchip-include/modchip/flash.h:7-184 | every command's frame is complete and decodes to the same command with the same arguments and payload |
| `Host.Conversation` | fruitchip-include/modchip/flash.h:63-184 | any sequence of host commands is executed as exactly those commands, each answered once, ending idle |
| `Host.CutConversation` | fruitchip-include/modchip/flash.h:63-184 | however many bytes arrive, exactly some first commands have been executed |
| `Host.ByteErrorDetected` | fruitchip-fw/src/boot_rom/write/flash.c:152-180 | one changed byte behind the command code makes a frame undecodable, except a CRC flag that still means the same |
| `Host.DamagedFrameHasNoEffect` | fruitchip-fw/src/boot_rom/write/flash.c:142-330 | on the wire such a frame gets an error answer and changes neither flash nor settings nor lock |
| `Host.WriteStaysInside` | fruitchip-fw/src/boot_rom/write/flash.c:161-194 | an accepted write stays inside its partition exactly when the offset does not wrap or the sector holds the data already |
| `Host.EraseStaysInside` | fruitchip-fw/src/boot_rom/write/flash.c:272-321 | an accepted erase stays inside its partition exactly when its first sector is empty, its count is 0 modulo 2^20, or the offset does not wrap and the last sector requested belongs to the partition |
| `Host.InsideLeavesTheRest` | fruitchip-fw/src/boot_rom/write/flash.c:307-319 | operations inside a partition leave every other sector alone |
| `Host.EraseLeavesPartition` | fruitchip-fw/src/boot_rom/write/flash.c:291-322 | an accepted erase of the update partition that leaves settings and apps erased |
| `Host.EraseErasesExactly` | fruitchip-fw/src/boot_rom/write/flash.c:295-321 | what was asked for is erased afterwards exactly when the first sector was not empty or all of it was |
| `Host.RetryIsHarmless` | fruitchip-include/modchip/flash.h:121-173 | executing a command again changes nothing more and gives the same answer |
| `Host.SettingsFollow` | fruitchip-fw/src/boot_rom/write/kv.c:83-101 | only accepted settings writes of a conversation change the settings |
| `Host.LastValueIsAnswered` | fruitchip-fw/src/boot_rom/write/kv.c:28-49 | asking for a key after any conversation answers with the last value accepted for it, reduced to its type |
| `Writing.AcceptedLockIsIdle` | fruitchip-include/modchip/flash.h:63-73 | an accepted answer to the lock command leaves the modchip idle, whatever frame it was inside before |
| `Writing.LocksIntoFrame` | fruitchip-include/modchip/flash.h:75-87 | all attempts to set the lock inside an abandoned frame: they fail while it lasts; once it has ended the modchip is idle and only the lock can have changed since |
| `Writing.SessionReached` | fruitchip-menu/src/scene/settings/update/writing.c:48-109 | the session's result is what receiving its bytes, which depend on the answers, makes of the modchip |
| `Writing.CutSessionOverTheWire` | fruitchip-menu/src/scene/settings/update/writing.c:62-109 | from every state, idle or inside any abandoned frame, and cut at any byte, the flash is as before or what a prefix of the menu's operations makes of the flash that the end of the abandoned frame left |
| `Writing.SettledIs` | fruitchip-fw/src/boot_rom/write/flash.c:142-370 | what the end of the abandoned frame does: it executes the command that the frame becomes when filled up with lock frames, or nothing |
| `Writing.AbandonedErase` | fruitchip-fw/src/boot_rom/write/flash.c:257-370 | an abandoned erase frame becomes a command exactly if only complement bytes of the count are missing and the prefix and what follows it are the right ones |
| `Writing.AbandonedWrite` | fruitchip-fw/src/boot_rom/write/flash.c:142-255 | an abandoned write frame becomes one exactly if at most 36 data bytes are missing and the lock frames in their place give the announced checksum |
| `Writing.NoOpsOtherwise` | fruitchip-fw/src/boot_rom/write/flash.c:142-370 | no other abandoned frame has sector operations |
| `Writing.NoOpsWhenLocked` | fruitchip-fw/src/boot_rom/write/flash.c:182-330 | and none while the modchip is locked |
| `Writing.PrefixExactly` | fruitchip-menu/src/scene/settings/update/writing.c:62-109 | over all images and cuts, a session leaves a prefix of the menu's operations on the flash as it was if and only if the abandoned command leaves the flash alone or just erases the first sector of the partition |
| `Writing.SafeExactly` | fruitchip-menu/src/scene/settings/update/writing.c:62-109 | over all images and cuts, a session on the update partition keeps the no-brick invariant if and only if the abandoned command keeps it and the firmware valid, or keeps it and outlasts the unlocking |
| `Writing.StuckExactly` | fruitchip-include/modchip/flash.h:75-87 | it does so exactly if more than 18 bytes are missing |
| `Writing.AbandonedEraseIsCompleted` | fruitchip-fw/src/boot_rom/write/flash.c:257-370 | an erase frame without its last byte and with a count of 0x30000000 and more becomes its command |
| `Writing.AbandonedEraseDestroys` | fruitchip-fw/src/boot_rom/write/flash.c:257-330 | such a frame can erase settings and apps, and the prefix property fails |
| `Writing.AbandonedEraseBricks` | fruitchip-fw/src/boot_rom/write/flash.c:257-330 | one whose offset wraps erases the firmware, and the session that follows can brick |
| `Writing.AbandonedWriteIsCompleted` | fruitchip-fw/src/boot_rom/write/flash.c:142-255 | a write frame without its last byte, the prefix, becomes its command |
| `Writing.AbandonedWriteMixes` | fruitchip-fw/src/boot_rom/write/flash.c:142-213 | such a frame can put a sector of one image under the valid first sector of another: both properties fail |
| `Writing.IdleSession` | fruitchip-menu/src/scene/settings/update/writing.c:62-109 | from an idle modchip the session sends each command once, only a refused one three times, and succeeds exactly if the image leaves the last sector free |
| `Writing.UpdateOverTheWire` | fruitchip-menu/src/scene/settings/update/writing.c:62-109 | a session that reports success, from any state, has done all of the menu's operations after the end of the abandoned frame; the image is in the partition, nothing else has changed, and the modchip is locked and idle |
| `Writing.UpdateReachesFirmware` | fruitchip-fw-bootloader/src/main.c:138-205 | after a successful session with a valid image, one boot left to finish runs a firmware that begins with that image |
| `Writing.UpdateScene.SendFrameWithRetry` | fruitchip-include/modchip/flash.h:75-87 | the retry loop, against the firmware's handlers |
| `Writing.UpdateScene.Run` | fruitchip-menu/src/scene/settings/update/writing.c:48-109 | the scene's loop and its early exits, against the firmware's handlers, make the state and the result of the session |
| `Writing.CommandIsElsewhere` | fruitchip-fw/src/boot_rom/write/flash.c:142-330 | every command without sector operations outside the apps partition is an event of the no-brick argument |
| `Writing.PrefixIsMenuEvent` | fruitchip-menu/src/scene/settings/update/writing.c:62-109 | a session that leaves a prefix of the menu's operations is a menu event of the no-brick argument |
| `Console.ReadDetectsBursts` | fruitchip-include/modchip/apps.h:32-52 | a read with CRC reports success on damaged data never, for damage within four consecutive bytes |
| `Console.ReadResultExactly` | fruitchip-include/modchip/apps.h:33-55 | by the bytes on the bus: when a read succeeds, finds no modchip, is refused or is damaged |
| `Console.SettingsResultExactly` | fruitchip-include/modchip/settings.h:15-23 | a value is taken if and only if the OK bytes, the value and the checksum of the value are there |
| `Console.SettingsDetectDamage` | fruitchip-include/modchip/settings.h:19-23 | a value that arrives changed, in however many of its bytes, is not taken |
| `Console.RefusalIsReported` | fruitchip-include/modchip/apps.h:33-37 | a refused read returns -EINVAL and a refused settings read nothing, whatever follows on the bus |
| `Console.ValueIsReceived` | fruitchip-include/modchip/settings.h:9-25 | the console takes from the bytes of an answer the value that was sent |
| `Console.LastValueReachesConsole` | fruitchip-include/modchip/settings.h:9-25 | after any conversation, asking for a key gives the console the last value accepted for it |
| `Console.Link.PeekN` | fruitchip-include/modchip/io.h:58-66 | words then tail bytes fill the buffer with the bytes read, in order |
| `Console.Link.PokeU16` | fruitchip-include/modchip/io.h:29-33 | low byte first |
| `Console.Link.PokeU32` | fruitchip-include/modchip/io.h:35-41 | low byte first |
| `Console.Link.Receive` | fruitchip-include/modchip/apps.h:33-52 | no device, error, checksum error or the data, as the answer says |
| `Console.Link.Stage3Read` | fruitchip-include/modchip/apps.h:23-53 | pokes the frame of a stage 3 read and returns its data |
| `Console.Link.AppsRead` | fruitchip-include/modchip/apps.h:70-102 | pokes the frame of an app read and returns its data |
| `Console.Link.SettingsGetRequest` | fruitchip-include/modchip/settings.h:11-13 | pokes the frame of a settings read |
| `Console.Link.SettingsGet` | fruitchip-include/modchip/settings.h:9-25 | the value if status and checksum are right, nothing otherwise |
| `Console.Link.SettingsSetRequest` | fruitchip-include/modchip/settings.h:42-46 | pokes the frame of a settings write |
| `Console.Link.SetWriteLockRequest` | fruitchip-include/modchip/flash.h:65-67 | pokes the frame of the write lock |
| `Console.Link.EraseFlashSectorRequest` | fruitchip-include/modchip/flash.h:137-143 | pokes the frame of an erase |
| `Console.Link.WriteFlashSectorRequest` | fruitchip-include/modchip/flash.h:91-104 | pokes header, checksum and payload of a sector write |
| `Console.Link.RebootRequest` | fruitchip-include/modchip/flash.h:177-179 | pokes the frame of a reboot |
| `Console.HeaderIsCode` | fruitchip-include/modchip/io.h:35-41 | a command code poked as one 32-bit number arrives as prefix, group and code bytes |
| `Apps.PackEntry` | fruitchip-fw-apps/build_apps_partition.py:57-67 | the builder's entry: length, attributes, data, checksum, 0xFF up to whole sectors |
| `Apps.CalculatePaddingForLen` | fruitchip-fw-apps/build_apps_partition.py:49-54 | the padding up to the next sector boundary |
| `Apps.PackEntries` | fruitchip-fw-apps/build_apps_partition.py:70-84 | the names become entry 0, app i entry i + 1 |
| `Apps.Build` | fruitchip-fw-apps/build_apps_partition.py:86-104 | the builder's loops lay out header, table, padding and entries |
| `Apps.EntryBytes` | fruitchip-fw-apps/build_apps_partition.py:57-67 | length, attributes, data, checksum and 0xFF at their places in an entry of whole sectors, with less than a sector of padding |
| `Apps.HeaderBytes` | fruitchip-fw-apps/build_apps_partition.py:86-102 | the first sixteen bytes of every built partition |
| `Apps.EntriesAreDisjoint` | fruitchip-fw-apps/build_apps_partition.py:88-104 | entries are whole sectors, sector-aligned, contiguous and disjoint |
| `Apps.LookupsFindEntries` | fruitchip-fw/include/apps.h:16-44 | on a built partition the firmware detects the header and finds count, offset and length of every entry |
| `Apps.ReadsInsideEntries` | fruitchip-fw/src/boot_rom/write/read_app.c:26-99 | a read inside an entry is accepted and answers with that slice of what was packed |
| `Apps.DamagedHeaderNoAnswer` | fruitchip-fw/include/apps.h:16-28 | a built partition with any one of its first twelve bytes changed answers every read with an error and changes nothing |
| `Apps.ErasedAppsOverTheWire` | fruitchip-fw/src/boot_rom/write/read_app.c:26-46 | over the wire: on an erased apps partition the frame of every read is answered with an error and leaves the modchip as it was |
| `Apps.NameAt` | fruitchip-menu/src/apps.c:86-105 | each name stands behind its length, after all names before it |
| `Apps.ReadNames` | fruitchip-menu/src/apps.c:86-105 | the menu's pointer loop recovers all names in order, app i for entry i + 1 |
| `Fwfs.DataRead` | fruitchip-fwfs/src/fwfs.c:231-251 | a read inside what a handle can see is accepted and returns exactly those bytes |
| `Fwfs.NoSuchEntry` | fruitchip-fwfs/src/fwfs.c:134-149 | an entry that does not exist is refused at every offset |
| `Fwfs.OpenedWindow` | fruitchip-fwfs/src/fwfs.c:134-177 | what a handle can see: header and data of the entry, or for attributes the beginning of the entry |
| `Fwfs.Driver.FindFreeFileHandle` | fruitchip-fwfs/src/fwfs.c:35-46 | finds the first free handle if there is one |
| `Fwfs.Driver.Open` | fruitchip-fwfs/src/fwfs.c:117-189 | which names open and which error the others get; a handle for data stands at the data with size and attributes of the entry, one for attributes at the attributes; other handles are left alone |
| `Fwfs.Driver.Close` | fruitchip-fwfs/src/fwfs.c:191-211 | frees one handle, leaving the others alone |
| `Fwfs.Driver.Read` | fruitchip-fwfs/src/fwfs.c:213-259 | returns the next bytes that the handle can see, as many as asked for and left, for every size, negative ones included, and advances by them; refuses handles without an entry |
| `Fwfs.Driver.Lseek` | fruitchip-fwfs/src/fwfs.c:303-340 | moves as `Sought` says for every offset, 32-bit wrap-around included |
| `Fwfs.SeekExactly` | fruitchip-fwfs/src/fwfs.c:319-339 | within 2^30 bytes that is the position asked for, or the nearest end of the file, except that up to eight bytes before the data are kept |
| `Fwfs.CountExactly` | fruitchip-fwfs/src/fwfs.c:234-235 | a read gets what it asks for or what is left; a negative size gets everything that is left |
| `Fwfs.NamesAreRead` | fruitchip-fwfs/src/fwfs.c:61-75 | a name is the mode and the entry number, with or without a slash in front |
| `Fwfs.Driver.RunAll` | fruitchip-fwfs/src/fwfs.c:213-340 | any sequence of reads and seeks returns the corresponding slices of what the handle can see |
| `Fwfs.Driver.ReadToEnd` | fruitchip-fwfs/src/fwfs.c:213-259 | reading until nothing comes returns the rest of what the handle can see and then end of file |
| `Fwfs.Driver.AppReadAttributes` | fruitchip-menu/src/apps.c:20-36 | the attributes that were packed for the entry, with a free handle; the handle is free again |
| `Fwfs.Driver.ListApps` | fruitchip-menu/src/apps.c:38-105 | from built partition to menu: the list shows every app's name and attributes, in order |
| `Uf2.CheckAndFlatten` | fruitchip-menu/src/scene/settings/update/checking.c:37-103 | accepts exactly the files whose blocks are valid and follow one another, and fills a buffer of half the file size with their data in order; every file that stores an image from some address on is accepted and the image comes out |
| `Uf2.CheckBlock` | fruitchip-menu/src/scene/settings/update/checking.c:65-89 | accepts exactly the blocks with the twelve magic bytes in place, 256 bytes of payload and, if the flag for it is set, the RP2040 family bytes |
| `Uf2.CopyPayload` | fruitchip-menu/src/scene/settings/update/checking.c:97-98 | appends one payload and leaves the rest of the buffer alone |
| `Uf2.BlockValidExactly` | fruitchip-menu/src/scene/settings/update/checking.c:65-89 | which bytes a valid block has |
| `Uf2.AcceptableExactly` | fruitchip-menu/src/scene/settings/update/checking.c:65-100 | a file is accepted if and only if all blocks are valid and each targets the 256 bytes behind its predecessor, modulo 2^32, unless that one targets address 0 |
| `Uf2.WrittenFileIsAccepted` | fruitchip-menu/src/scene/settings/update/checking.c:37-103 | a file written block by block, byte for byte, from an image and a first address is accepted, and what is flattened out of it is the image |
| `Uf2.DamagedBlockIsRefused` | fruitchip-menu/src/scene/settings/update/checking.c:65-89 | an accepted file with one byte of a magic, of a payload size or of a given family changed is refused |
| `Uf2.DamagedAddressIsRefused` | fruitchip-menu/src/scene/settings/update/checking.c:91-95 | and so is one with a byte of an address changed, unless the block before it targets address 0 |
| `Uf2.AcceptedIsLinearExactly` | fruitchip-menu/src/scene/settings/update/checking.c:91-100 | an accepted file is linear if and only if its addresses do not wrap and either the first is not 0 or the second block follows |
| `Uf2.ImageIsWhatTheFileMaps` | fruitchip-menu/src/scene/settings/update/checking.c:40-103 | in a linear file each address lies in one block, and byte k of the image is what that block holds for the first address plus k |
| `Uf2.FileReachesThePartition` | fruitchip-menu/src/scene/settings/update/writing.c:23-98 | byte k of the written partition is what the file maps to its first address plus k |

## Left out

- Driver failures: the RP2040 driver always returns true, so the `FAILED` branches of the store and the reset after a failed initialisation in `settings_init` cannot be reached and are not modelled.
- The 4- and 8-byte backing-store variants, `fnv_64a_str` and the other FNV files: not built.
- Tearing inside one sector erase, one sector program or one slot program: each is atomic. Erasing the settings area is modelled sector by sector, which is why a cut between two sectors can leave the log over zeros.
- Log entries of length 6 and 7: never written; their bytes beyond the entry are given as 0.
- `WearLeveling.WearLeveler.Write`: ranges whose end wraps around 32 bits pass the check in the code and then reach outside the cache; they are not modelled.
- `WearLeveling.WearLeveler.Read`: the same.
- Geometry: where a power-cut result needs one, it is the exact one (`Runs.LogInLastSector`, `Runs.PowerSafe`), and so is the logical size of at most 248 modulo 256 that the store asks for.
- Sector erases and programs outside the flash have no effect in the model; what the chip does with such addresses is not known from the repository.
- Answers name the buffer their data is read from (stage 2 and 3, git revisions, the test bytes), not its contents, and leave out busy codes; PIO programs, DMA chaining, bus timing, lost pokes, busy waiting and the CRC sniffer (taken to compute `Crc.Crc32`) are not part of the model.
- Busy loops of the console, and retries outside the update writer: a retry is shown to be harmless.
- `Writing.Send`: the console reads the first answer since the frame began, and what it does not read of an answer is dropped; on the board the modchip does not see bytes poked before an answer has been read.
- `Device.Modchip`: acts on flash and settings as values, by the functions that `Bootloader.FlashChip` and `Settings.SettingsStore` are proved to implement; a reboot is recorded, not performed.
- `Fwfs.Driver.Open`: transmission errors, file descriptors without a handle, `fwfs_getstat` and semaphores are not covered.
- The apps partition of boards with more than 2 MiB of flash: sizes are those of the 2 MiB layout.
- UF2 pin configuration checks, partition size queries before writing, the ELF loader, patch handlers, menu scenes, fonts, pad input and everything else that draws or waits.
- Starting the firmware, clocks, watchdog, USB boot, multicore lockout and LEDs: hardware.
