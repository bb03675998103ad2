# Parameter manager: verified model

This project models the storage and code-generation core of the device parameter package in Dafny and
proves properties of it.

* **Flash-emulated EEPROM** (`FlashPorts`, `FlashFormat`, `Log`, `Lines`, `Banks`, `FlashSteps`, `TornErases`,
  `Discipline`, `FlashBoot`, `Rebuild`, `CacheWindow`, `DirtyMaps`, `FlashEeprom`, `FlashRuns`). A byte-addressable
  array on two erase-before-write banks: an append log of line records whose commit unit is programmed last, bank
  headers that go from PREPARE to ACTIVE, sequence numbers, a streaming checkpoint, and one write-back window with a
  dirty bitmap. The port is a device whose power may vanish inside any read, program or erase: a cut program leaves an
  arbitrary subset of its bytes written, a cut erase an arbitrary subset of its erase units erased. Its preconditions
  are alignment, range and bits only cleared; it also keeps a ghost history, the log of
  every program and erase and the cells between them, which every method only extends. `Discipline` says of that
  history that no operation touches a record of the bank active at that moment and that nothing is erased while that
  bank has room, and `FlashRuns` runs arbitrary commands through cuts and reboots, relates the run to a plain byte
  array, keeps the history orderly and counts the record slots it takes.
* **Scalar NVM protocol** (`ByteStores`, `NvmFormat`, `NvmSteps`, `ParNvms`, `NvmRuns`) on the flash engine:
  `ByteStore` is the storage port whose calls go to a mounted engine. The compact-payload record layout byte for byte,
  header validation, prefix restore and tail append, recovery, single and bulk saves, again up to whole runs with cuts,
  from erased flash on (`NvmRuns.FactoryLife`).
* **Generator and build** (`SchemaRows`, `IdHash`, `IdResolve`, `IdGenerators`, `IdMap`, `LayoutExprs`, `LayoutScans`,
  `LayoutSignature`): ID resolution and hash buckets against the compiled ID map and its compile-time checks,
  generated layout expressions against the run-time scan, the chunked layout signature against the flat one.
* **Smaller cores** (`Crc`, `CrcWords`, `Fnv`, `TableIds`, `ObjectPools`), and `StockHooks`, which plugs the default
  checksums and the table digest into the two storage formats.

`Arith`, `Bytes` and `Wrappers` hold the arithmetic, byte sequences and result type the rest uses. Everything that
changes state in the original is a class or a loop here; the specification functions next to it carry the lemmas.
`hide` statements keep definitions a proof does not need out of the solver's way; they assume nothing. Automatic
induction is switched off throughout, so every induction is written out.

Conditions the code relies on without checking them are stated as such: `line_size <= 65535`, a bank that is a
multiple of the program unit (`AcceptedGeometry`: exactly what the geometry checks leave open), a region below 4 GiB,
and a sequence number that does not wrap: a run in `FlashRuns` stops taking commands when it is about to, and
`ByteStore` switches such a device off. Flash at the first power-up is *sound*: no bank has an accepted header, or the
winning bank has a well-formed log; erased flash is sound and every run keeps it so.

Three properties turned out false as a reader might expect them and are stated with their exact condition.

* A record reads back if and only if the line size fits its 16-bit size field (`RecordRoundTrip`). The geometry checks
  accept larger lines, and then no record reads back (`AcceptedReadsBack`, `WideLinesAccepted`).
* A checkpoint switches to the bank it built if and only if the sequence number does not wrap (`SwitchoverExactly`).
* Cutting the erase of the inactive bank does not always keep the stored image. Over arbitrary sound flash it does if
  and only if the erase unit has at least 7 bytes and divides neither 34 nor 35 (`TearSafeExactly`; every multiple of 8
  bytes and every unit of 64 bytes or more qualifies, `CommonUnits`). Smaller units can erase the sequence number of
  the old header alone, which under a weak checksum hook outranks the active bank; units that start at one of the last
  two state bytes can complete a damaged state word that was on the flash at the first power-up. On flash that was
  erased when the device was made no header ever loses those two bytes, every operation of a run keeps it so
  (`TopsErased`), and the condition is exactly 7 bytes or more (`FactoryUnitExactly`). The condition enters only where
  such an erase was cut: `FlashEe.Intact` says that no erase was cut or that the unit is safe, every result about a cut
  holds while it does, and a run ends with the event that breaks it.

The start-up scan for duplicate IDs, looked at by itself, can miss a duplicate behind a colliding ID
(`DuplicateCheckAlone` has the exact condition), but no such table builds: the two generated switches compile exactly
for tables with distinct buckets (`BuildsIffDistinct`), and those pass the scan under every setting
(`BuiltPassesScan`).

## Model

| member | source | states |
|---|---|---|
| `FlashRuns.Lifetime` | parameters/src/nvm/backend/par_store_backend_flash_ee.c:1380-1511 | From the first power-up on any sound flash and any accepted erase unit, every command sequence with power cut anywhere is explained by allowed steps; on erased flash the run starts from all 0xFF. Only a bank erase cut with an unsafe erase unit ends a run, with the event it was cut in |
| `FlashRuns.FactoryRun` | parameters/src/nvm/backend/par_store_backend_flash_ee.c:1380-1511 | The same for a factory-fresh device with the default configuration: the run starts from 4096 bytes of 0xFF |
| `FlashRuns.Run` | parameters/src/nvm/backend/par_store_backend_flash_ee.c:1574-1832 | Any run of write, erase, read, sync and remount, with any number of power cuts and reboots: the stored image changes by one allowed step per command and the flash stays recoverable; the history of the device only grows, holds the cells the run started from and accounts for every later change, and every operation in it spares the records of the bank that is active at that moment. Without a loss a run takes one record slot per line addressed, and while the active bank has that many free it stays active, sequence number included, and nothing is erased |
| `FlashRuns.Turn` | parameters/src/nvm/backend/par_store_backend_flash_ee.c:1380-1511 | A turn that finds power gone first reboots; the reboot, complete or cut again, leaves the stored image as it was |
| `FlashRuns.Execute` | parameters/src/nvm/backend/par_store_backend_flash_ee.c:1574-1832 | One command: acknowledged means done in full, refused means out of range without effect, lost means each line is wholly old or wholly new. While the active bank has a free slot for every line the command addresses nothing is erased, the bank and its sequence number stay, and exactly that many slots are taken |
| `FlashRuns.AcknowledgedSurvives` | parameters/src/nvm/backend/par_store_backend_flash_ee.c:1667-1722 | A byte of a write that returned success keeps that value until a later command addresses it, across cuts, reboots, checkpoints and bank switches, up to a bank erase cut unsafely |
| `FlashRuns.Untouched` | parameters/src/nvm/backend/par_store_backend_flash_ee.c:1667-1832 | A byte no command addresses between two points of a run is the same at both, whatever was cut in between except a bank erase cut unsafely |
| `FlashRuns.StepKeeps` | parameters/src/nvm/backend/par_store_backend_flash_ee.c:1146-1180 | Even a cut command leaves every byte outside its range alone |
| `FlashRuns.FaultFree` | parameters/src/nvm/backend/par_store_backend_flash_ee.c:1193-1297 | Without power loss, every answer and refusal is that of a plain byte array, for every cache size, line size and window-crossing request |
| `FlashRuns.ErasedFlash` | parameters/src/nvm/backend/par_store_backend_flash_ee.c:1446-1479 | Factory-erased flash is recoverable and stores all 0xFF |
| `FlashEeprom.FlashEe.Read` | parameters/src/nvm/backend/par_store_backend_flash_ee.c:1574-1647 | Returns exactly the reader's view, staged bytes included, without changing it; parameter and not-initialized errors first |
| `FlashEeprom.FlashEe.ReadChunk` | parameters/src/nvm/backend/par_store_backend_flash_ee.c:1592-1644 | One window's bytes: moves a clean window onto them, and reads around a dirty one without moving, committing or unstaging it |
| `FlashEeprom.FlashEe.ReadLiveRange` | parameters/src/nvm/backend/par_store_backend_flash_ee.c:1007-1039 | Reads line by line through the window and the log give the reader's view |
| `FlashEeprom.FlashEe.Write` | parameters/src/nvm/backend/par_store_backend_flash_ee.c:1667-1722 | On success the view and the stored image are the old view with the bytes spliced in; a cut leaves each line old, staged or new. With nothing staged and a free slot for every line touched it takes one slot per line, erases nothing and keeps the active bank |
| `FlashEeprom.FlashEe.Erase` | parameters/src/nvm/backend/par_store_backend_flash_ee.c:1741-1794 | The same with erased bytes |
| `FlashEeprom.FlashEe.StoreBytes` | parameters/src/nvm/backend/par_store_backend_flash_ee.c:1682-1721 | Staging window by window and one final commit store the whole request; when the active bank affords it, with one record per line touched and no erase |
| `FlashEeprom.FlashEe.StageAll` | parameters/src/nvm/backend/par_store_backend_flash_ee.c:1682-1717 | The staging loop splices the whole request into the view and synchronizes each window it leaves; the slots it takes and those claimed by staged lines are together one per line touched |
| `FlashEeprom.FlashEe.MarkLines` | parameters/src/nvm/backend/par_store_backend_flash_ee.c:1708-1713 | Marks exactly the window lines a byte range touches |
| `FlashEeprom.FlashEe.StageChunk` | parameters/src/nvm/backend/par_store_backend_flash_ee.c:1684-1717 | Staging one window-sized piece splices exactly that piece into the view and claims one slot per line of it |
| `FlashEeprom.FlashEe.StageInWindow` | parameters/src/nvm/backend/par_store_backend_flash_ee.c:1696-1717 | Stages what falls into the loaded window and stops at a line boundary or at the end of the data |
| `FlashEeprom.FlashEe.Sync` | parameters/src/nvm/backend/par_store_backend_flash_ee.c:1806-1832 | With power it always ends successfully with nothing dirty and the view stored. While every dirty line has a free slot it only programs, one record per dirty line, in the same bank under the same sequence number; otherwise the other bank takes over with the next sequence number and one record per line that is not all 0xFF |
| `FlashEeprom.FlashEe.FlushOrCheckpoint` | parameters/src/nvm/backend/par_store_backend_flash_ee.c:1820-1831 | A flush that runs out of slots is completed by a checkpoint; with room for every dirty line it only programs, and bank, sequence number and the number of slots taken are exact |
| `FlashEeprom.FlashEe.EnsureCapacity` | parameters/src/nvm/backend/par_store_backend_flash_ee.c:1364-1373 | Does nothing at all when every dirty line has a free slot, and otherwise moves the live lines to the other bank under the next sequence number, one record for each that is not all 0xFF |
| `FlashEeprom.FlashEe.FlushCache` | parameters/src/nvm/backend/par_store_backend_flash_ee.c:1146-1180 | Stores every dirty line, one record each, or stops between two lines of a full bank with the view intact; with nothing dirty it issues no operation |
| `FlashEeprom.FlashEe.FlushLines` | parameters/src/nvm/backend/par_store_backend_flash_ee.c:1153-1178 | The flush loop appends exactly the dirty lines in ascending order, one record each; with room and power it completes, and wherever it stops the lines below are stored and those above are not |
| `FlashEeprom.FlashEe.FlushDirty` | parameters/src/nvm/backend/par_store_backend_flash_ee.c:1159-1174 | One dirty line is appended, or the full bank stops the flush with the view intact, or a cut leaves it stored or not |
| `FlashEeprom.FlashEe.LoadCache` | parameters/src/nvm/backend/par_store_backend_flash_ee.c:1193-1238 | Moving the window keeps the view; a dirty window elsewhere refuses to move |
| `FlashEeprom.FlashEe.PrepareCacheWindow` | parameters/src/nvm/backend/par_store_backend_flash_ee.c:1251-1273 | Synchronizes a dirty window that is in the way, then loads the requested one, view unchanged; with the window already there, or nothing dirty, no operation is issued |
| `FlashEeprom.FlashEe.CommitStagedCache` | parameters/src/nvm/backend/par_store_backend_flash_ee.c:1288-1297 | After it the view is stored and nothing is dirty; with nothing dirty no operation is issued, otherwise as a synchronization |
| `FlashEeprom.FlashEe.Checkpoint` | parameters/src/nvm/backend/par_store_backend_flash_ee.c:1304-1357 | Only with fewer free slots than a full window has lines. The new bank stores exactly the live view, one record per line that is not all 0xFF, under the next sequence number, while the cells of the old bank stay byte for byte what they were; a cut at any step leaves the old image or the whole live view selected at boot; it never runs out of slots and leaves at least one free |
| `FlashEeprom.FlashEe.BuildInactive` | parameters/src/nvm/backend/par_store_backend_flash_ee.c:1304-1339 | Rebuilding the inactive bank, complete or cut, leaves the cells of the active bank unchanged and never changes what a power-up would recover |
| `FlashEeprom.FlashEe.CopyLine` | parameters/src/nvm/backend/par_store_backend_flash_ee.c:1316-1339 | Copying one live line, complete or cut, appends it to the bank under construction unless it is all 0xFF, and touches no cell of the active bank |
| `FlashEeprom.FlashEe.AppendRecord` | parameters/src/nvm/backend/par_store_backend_flash_ee.c:1084-1133 | Appends at the first erased slot of the active bank or the one under construction; the slot ends erased, torn or holding exactly this record, and everything else is untouched |
| `FlashEeprom.FlashEe.ProgramData` | parameters/src/nvm/backend/par_store_backend_flash_ee.c:1110-1119 | The data program is legal on an erased slot and leaves the commit unit erased |
| `FlashEeprom.FlashEe.ProgramCommit` | parameters/src/nvm/backend/par_store_backend_flash_ee.c:1123-1130 | The commit unit alone makes the record visible |
| `FlashEeprom.FlashEe.PrepareBank` | parameters/src/nvm/backend/par_store_backend_flash_ee.c:863-877 | Erase plus PREPARE header, only ever of the bank that is not active while the active one is crowded, or of bank 0 while none is usable: complete, or cut other than unsafely, it leaves no accepted header that was not accepted before, and the other bank untouched |
| `FlashEeprom.FlashEe.ActivateBank` | parameters/src/nvm/backend/par_store_backend_flash_ee.c:885-908 | The patched header is PREPARE or ACTIVE, nothing between, records untouched |
| `FlashEeprom.FlashEe.PatchUnits` | parameters/src/nvm/backend/par_store_backend_flash_ee.c:888-895 | The program units around the state word are aligned, inside the header, and fit the static patch buffer |
| `FlashEeprom.FlashEe.ScanBank` | parameters/src/nvm/backend/par_store_backend_flash_ee.c:755-833 | Yields the sequence number and append offset of a usable bank, or the diagnostic of the first problem |
| `FlashEeprom.FlashEe.ResolveLine` | parameters/src/nvm/backend/par_store_backend_flash_ee.c:917-961 | The backward walk returns the stored line and never steps below the header |
| `FlashEeprom.FlashEe.ResolveLiveLine` | parameters/src/nvm/backend/par_store_backend_flash_ee.c:977-992 | A line of the view, from the window or from the log |
| `FlashEeprom.FlashEe.Init` | parameters/src/nvm/backend/par_store_backend_flash_ee.c:1380-1511 | Adopts exactly the boot choice, formats only when both banks were read and are unusable, and recovers the stored image of sound flash; so does a cut mount unless it cuts a bank erase unsafely |
| `FlashEeprom.FlashEe.SelectBank` | parameters/src/nvm/backend/par_store_backend_flash_ee.c:1427-1495 | Bank selection by validity and sequence number; the stored image is unchanged. A bank that could not be read is never formatted over: then nothing was issued, and an NVM error means that a format was begun |
| `FlashEeprom.FlashEe.FormatBank0` | parameters/src/nvm/backend/par_store_backend_flash_ee.c:1460-1479 | First format: empty active bank 0; cut anywhere except in an unsafe bank erase, the device still stores all 0xFF |
| `FlashEeprom.FlashEe.Deinit` | parameters/src/nvm/backend/par_store_backend_flash_ee.c:1518-1543 | Synchronizes, then unmounts and drops the window exactly when the port does not refuse; a port that refuses leaves the store mounted, synchronized and with its view; a lost synchronization keeps the lines old or staged |
| `FlashEeprom.FlashEe.Reboot` | parameters/src/nvm/backend/par_store_backend_flash_ee.c:1380-1511 | Power-up after any loss recovers the stored image exactly, and a second loss, other than in an unsafe bank erase, keeps it recoverable |
| `FlashEeprom.FlashEe.CleanIsStored` | parameters/src/nvm/backend/par_store_backend_flash_ee.c:1288-1297 | With nothing dirty the reader's view is the stored image |
| `FlashEeprom.FlashEe.FlushStopped` | parameters/src/nvm/backend/par_store_backend_flash_ee.c:1159-1170 | A flush stopped between two lines leaves the view intact and stores a line-wise mixture of old and new |
| `FlashEeprom.FlashEe.AdoptedIsActive` | parameters/src/nvm/backend/par_store_backend_flash_ee.c:1446-1498 | On sound flash the adopted bank is the active one and the append offset points behind its last record |
| `FlashEeprom.FlashEe.ResetRuntime` | parameters/src/nvm/backend/par_store_backend_flash_ee.c:226-245 | Clears the mount, bank and window state and the dirty bitmap; the derived geometry is kept |
| `FlashBoot.SoundBoot` | parameters/src/nvm/backend/par_store_backend_flash_ee.c:1446-1495 | On sound flash a power-up selects the active bank, or formats exactly when no bank carries an accepted header |
| `FlashBoot.ScanDiag` | parameters/src/nvm/backend/par_store_backend_flash_ee.c:283-301 | Every content failure of a scan permits a reformat; only a read failure forbids it |
| `FlashBoot.FormattedActive` | parameters/src/nvm/backend/par_store_backend_flash_ee.c:1460-1477 | A formatted device boots from bank 0 with an empty log and a blank image |
| `FlashBoot.FormatActivated` | parameters/src/nvm/backend/par_store_backend_flash_ee.c:1466-1477 | A format cut during activation still stores the blank image |
| `FlashFormat.AcceptedGeometry` | parameters/src/nvm/backend/par_store_backend_flash_ee.c:605-666 | A geometry the checks accept is usable exactly when the line size fits 16 bits and the bank is a multiple of the program unit |
| `FlashFormat.GeometryFault` | parameters/src/nvm/backend/par_store_backend_flash_ee.c:605-666 | Every refused geometry names its cause: the port, the configuration, or a bank without room for its header and one record more than there are lines |
| `FlashFormat.UsableAccepted` | parameters/src/nvm/backend/par_store_backend_flash_ee.c:605-666 | Every usable geometry is accepted, with exactly these derived values |
| `FlashFormat.DefaultGeometry` | parameters/src/nvm/backend/par_store_backend_flash_ee_cfg.h:22-52 | The shipped defaults on a 64 KiB region of 4 KiB sectors are accepted and usable |
| `FlashFormat.CommittedExactly` | parameters/src/nvm/backend/par_store_backend_flash_ee.c:787-827 | A slot is a committed record exactly when payload, metadata and commit unit are those of the encoding |
| `FlashFormat.SlotVerdict` | parameters/src/nvm/backend/par_store_backend_flash_ee.c:787-827 | Every written slot that is no record has one diagnostic, by cause: a damaged commit unit, a line or payload size out of range, or bytes that are the encoding of no line |
| `FlashFormat.AcceptedExactly` | parameters/src/nvm/backend/par_store_backend_flash_ee.c:675-711 | The probe accepts exactly the ACTIVE encodings of this geometry, whatever their sequence number |
| `FlashFormat.ForeignHeader` | parameters/src/nvm/backend/par_store_backend_flash_ee.c:675-711 | A header written for another version, state or layout is refused with the first of these differences |
| `FlashFormat.NoHeader` | parameters/src/nvm/backend/par_store_backend_flash_ee.c:675-711 | Erased flash and contents without the magic bytes are told apart |
| `FlashFormat.RecordRoundTrip` | parameters/src/nvm/backend/par_store_backend_flash_ee.c:1094-1112 | A programmed record reads back as its line if and only if the line size fits the 16-bit size field |
| `FlashFormat.AcceptedReadsBack` | parameters/src/nvm/backend/par_store_backend_flash_ee.c:605-666 | On an accepted geometry every record reads back if and only if the line size fits 16 bits, which the checks do not demand |
| `FlashFormat.WideLinesAccepted` | parameters/src/nvm/backend/par_store_backend_flash_ee.c:605-666 | A geometry with one 64 KiB line passes every check and no record of it reads back |
| `FlashFormat.MatchingRecord` | parameters/src/nvm/backend/par_store_backend_flash_ee.c:941-957 | On a slot the scan accepted, a record matching by line and size is intact and is the committed one |
| `FlashFormat.HeaderRoundTrip` | parameters/src/nvm/backend/par_store_backend_flash_ee.c:842-854 | An encoded header passes the probe if and only if its state word is ACTIVE |
| `FlashFormat.InactiveHeaderRejected` | parameters/src/nvm/backend/par_store_backend_flash_ee.c:675-711 | A header whose activation byte is erased is never accepted, however torn the rest is |
| `FlashFormat.ActivationIsOneByte` | parameters/src/nvm/backend/par_store_backend_flash_ee.c:885-908 | PREPARE and ACTIVE headers differ in one byte, so the state patch is atomic |
| `FlashFormat.RecordDataFields` | parameters/src/nvm/backend/par_store_backend_flash_ee.c:1094-1112 | The fields of a record image are where the parser reads them |
| `FlashFormat.HeaderFields` | parameters/src/nvm/backend/par_store_backend_flash_ee.c:842-854 | The fields of a header image are where the probe reads them |
| `FlashSteps.BuffersFit` | parameters/src/nvm/backend/par_store_backend_flash_ee.c:43-45 | The static record and state-patch buffers are never exceeded |
| `FlashSteps.DataProgram` | parameters/src/nvm/backend/par_store_backend_flash_ee.c:1110-1119 | A data program, complete or torn, leaves the slot open and the rest of both banks unchanged |
| `FlashSteps.CommitProgram` | parameters/src/nvm/backend/par_store_backend_flash_ee.c:1123-1130 | A commit program, complete or torn, commits exactly this record or leaves the slot torn |
| `TornErases.TornEraseHeader` | parameters/src/nvm/backend/par_store_backend_flash_ee.c:863-877 | An interrupted bank erase of tear-safe units leaves the header unaccepted, or accepted as it was with the same sequence number |
| `TornErases.TearSafeExactly` | parameters/src/nvm/backend/par_store_backend_flash_ee.c:863-877 | Over arbitrary sound flash, every geometry and every CRC hook: cutting the erase of a bank the engine may erase leaves the stored image as it was if and only if the erase unit has at least 7 bytes and divides neither 34 nor 35 |
| `TornErases.FactoryUnitExactly` | parameters/src/nvm/backend/par_store_backend_flash_ee.c:863-908 | Over sound flash whose headers never lost their last two state bytes, as on a device that was erased when it was made: the same if and only if the erase unit has at least 7 bytes |
| `Discipline.NeverTouched` | parameters/src/nvm/backend/par_store_backend_flash_ee.c:333-366 | In the history every run extends: from one program or erase to the next, the header and every record of the bank that was active stay byte for byte the same |
| `Discipline.RecordStays` | parameters/src/nvm/backend/par_store_backend_flash_ee.c:333-366 | In that history a record stays byte for byte the same from any point to any later one for as long as its bank is active |
| `Discipline.ErasedWhenCrowded` | parameters/src/nvm/backend/par_store_backend_flash_ee.c:1364-1373 | In that history every erase met either no usable bank, and worked in bank 0, or worked in the bank that was not active while the active one had fewer free slots than a full window has lines |
| `Discipline.RecordsKept` | parameters/src/nvm/backend/par_store_backend_flash_ee.c:333-366 | An operation in the other bank or on free cells, complete or cut, keeps every record of the active bank |
| `Discipline.DataDisciplined` | parameters/src/nvm/backend/par_store_backend_flash_ee.c:1110-1119 | The data program of an append meets only erased cells, at the first free slot of the active bank or inside the other bank |
| `Discipline.CommitDisciplined` | parameters/src/nvm/backend/par_store_backend_flash_ee.c:1123-1130 | The commit program meets only erased cells, in the last written slot while it holds no record, or inside the other bank |
| `Discipline.OpenSlotActive` | parameters/src/nvm/backend/par_store_backend_flash_ee.c:1110-1130 | Between its two programs an append leaves the active bank active, the open slot counted and torn |
| `Discipline.BankWork` | parameters/src/nvm/backend/par_store_backend_flash_ee.c:863-908 | Erasing, preparing and activating a bank happen only in the bank that is not active, erasing only while the active one is crowded, or in bank 0 while no bank is usable |
| `Discipline.StaysFree` | parameters/src/nvm/backend/par_store_backend_flash_ee.c:863-908 | The bank under construction stays the inactive one for as long as its header is not accepted |
| `FlashSteps.PrepareProgram` | parameters/src/nvm/backend/par_store_backend_flash_ee.c:863-877 | A PREPARE header, complete or torn, is never accepted |
| `FlashSteps.ActivateProgram` | parameters/src/nvm/backend/par_store_backend_flash_ee.c:885-908 | A state patch, complete or torn, leaves PREPARE or ACTIVE and keeps the records |
| `FlashSteps.PatchRead` | parameters/src/nvm/backend/par_store_backend_flash_ee.c:898-907 | The read-back units with the state word replaced are those of the ACTIVE header and only clear bits |
| `FlashSteps.WalkStep` | parameters/src/nvm/backend/par_store_backend_flash_ee.c:929-958 | One step back either decides the line or keeps the answer; the offset stays at or above the header |
| `FlashSteps.WalkEnd` | parameters/src/nvm/backend/par_store_backend_flash_ee.c:926-961 | Reaching the header means the line was never written |
| `FlashSteps.ScanStep` | parameters/src/nvm/backend/par_store_backend_flash_ee.c:779-829 | One scan step accepts a written slot, skips a torn one, stops at an erased one, or fails with the slot's diagnostic |
| `Log.LatestWins` | parameters/src/nvm/backend/par_store_backend_flash_ee.c:917-961 | The backward walk equals folding all committed records forward into a map from line to payload |
| `Log.DenseScans` | parameters/src/nvm/backend/par_store_backend_flash_ee.c:779-832 | On a log with every written slot below every erased one the scan finds exactly the append position, torn slots included |
| `Log.AppendEffect` | parameters/src/nvm/backend/par_store_backend_flash_ee.c:1084-1133 | An append keeps that log shape and changes the stored image by exactly the appended line or not at all |
| `Log.ImageAppend` | parameters/src/nvm/backend/par_store_backend_flash_ee.c:917-961 | One more slot replaces the committed line or nothing |
| `Banks.ActiveBoots` | parameters/src/nvm/backend/par_store_backend_flash_ee.c:1446-1495 | The active bank is what a power-up selects, append position included |
| `Banks.ActiveUnique` | parameters/src/nvm/backend/par_store_backend_flash_ee.c:1446-1495 | At most one bank is active, with one sequence number and one append position |
| `Banks.ActiveAppend` | parameters/src/nvm/backend/par_store_backend_flash_ee.c:1084-1133 | An append attempt on the active bank keeps it active |
| `Banks.ActiveLine` | parameters/src/nvm/backend/par_store_backend_flash_ee.c:917-961 | The newest committed record of a line is what the stored image holds |
| `Banks.Switchover` | parameters/src/nvm/backend/par_store_backend_flash_ee.c:1341-1356 | Activating the next sequence number in the other bank makes that bank the selected one |
| `Banks.SwitchoverExactly` | parameters/src/nvm/backend/par_store_backend_flash_ee.c:1306-1356 | With the wrapping successor of the sequence number the freshly activated bank is selected if and only if the number did not wrap; at 0xFFFFFFFF the old image comes back |
| `Banks.OtherBankTouched` | parameters/src/nvm/backend/par_store_backend_flash_ee.c:863-877 | Work on the inactive bank changes nothing as long as it gains no accepted header it did not have with the same sequence number |
| `Banks.FlushOutcome` | parameters/src/nvm/backend/par_store_backend_flash_ee.c:1159-1174 | A flushed line is stored when the append completed, stored or not when it was cut |
| `Banks.CommitSlotView` | parameters/src/nvm/backend/par_store_backend_flash_ee.c:548-585 | A commit unit over complete data is the record or a torn slot, never a bad one |
| `Banks.OpenSlotView` | parameters/src/nvm/backend/par_store_backend_flash_ee.c:724-739 | A slot is skipped exactly when its commit unit still has an erased byte |
| `Banks.OffFits` | parameters/src/nvm/backend/par_store_backend_flash_ee.c:779-784 | The byte-offset tests count exactly the slots of the bank |
| `Banks.RoomFor` | parameters/src/nvm/backend/par_store_backend_flash_ee.c:1364-1373 | The capacity test on byte offsets is the test on slot counts |
| `Rebuild.RebuildSkip` | parameters/src/nvm/backend/par_store_backend_flash_ee.c:1324-1327 | Leaving out an all-0xFF line stores the same bytes |
| `Rebuild.RebuildDone` | parameters/src/nvm/backend/par_store_backend_flash_ee.c:1316-1339 | A fully rebuilt bank stores exactly the live image |
| `Rebuild.CompactRoom` | parameters/src/nvm/backend/par_store_backend_flash_ee.c:1329-1338 | A rebuild takes one slot per line that is not all 0xFF, so never more than there are lines, and a free slot always remains |
| `Rebuild.CompactAppend` | parameters/src/nvm/backend/par_store_backend_flash_ee.c:1329-1338 | A record append during the rebuild, complete or cut, leaves the active bank and the boot image alone |
| `Rebuild.CompactDone` | parameters/src/nvm/backend/par_store_backend_flash_ee.c:1341-1356 | The activation, complete or cut, selects the old image or the whole live one |
| `Rebuild.ActivationOutcome` | parameters/src/nvm/backend/par_store_backend_flash_ee.c:885-908 | Before activation the old bank answers, after it the new one |
| `CacheWindow.FlushedMix` | parameters/src/nvm/backend/par_store_backend_flash_ee.c:1146-1180 | Every line of a partly flushed image is the stored or the staged one |
| `CacheWindow.OverlaidLine` | parameters/src/nvm/backend/par_store_backend_flash_ee.c:977-992 | A line of the view is the window's inside it and the log's outside |
| `CacheWindow.StageView` | parameters/src/nvm/backend/par_store_backend_flash_ee.c:1684-1717 | Staging bytes in the window splices them into the view |
| `CacheWindow.WritePrefixMix` | parameters/src/nvm/backend/par_store_backend_flash_ee.c:1667-1722 | A request cut between windows is a line-wise mixture of before and after |
| `CacheWindow.TouchedLines` | parameters/src/nvm/backend/par_store_backend_flash_ee.c:1708-1713 | Of the lines of a window exactly those from the first to the last touched one share a byte with the range |
| `Lines.TouchedSplit` | parameters/src/nvm/backend/par_store_backend_flash_ee.c:1684-1717 | Splitting a request at a line boundary splits the lines it touches |
| `DirtyMaps.DirtyMap.Mark` | parameters/src/nvm/backend/par_store_backend_flash_ee.c:432-435 | Sets one bit and no other |
| `DirtyMaps.DirtyMap.Count` | parameters/src/nvm/backend/par_store_backend_flash_ee.c:475-489 | Counts the dirty lines of the window |
| `DirtyMaps.DirtyMap.HasDirty` | parameters/src/nvm/backend/par_store_backend_flash_ee.c:450-463 | True exactly when some line is dirty |
| `FlashPorts.FlashPort.Program` | parameters/src/nvm/backend/par_store_backend_flash_ee.c:333-345 | Port model: aligned, in range, clears bits only; a cut leaves each byte old or new |
| `FlashPorts.FlashPort.Erase` | parameters/src/nvm/backend/par_store_backend_flash_ee.c:354-366 | Port model: aligned, in range; a cut leaves each erase unit erased or untouched |
| `FlashPorts.ProgramEffect` | parameters/src/nvm/backend/par_store_backend_flash_ee.c:333-345 | A program that only clears bits stores its data exactly, and a partial one tears it byte by byte |
| `Lines.TornInLine` | parameters/src/nvm/par_nvm.c:408-432 | An update inside one line is atomic, which is what makes a header write all or nothing |
| `Lines.TornOutside` | parameters/src/nvm/par_nvm.c:1221-1260 | A torn update keeps every byte outside its range |
| `ByteStores.ByteStore.Read` | parameters/src/nvm/backend/par_store_backend_flash_ee.c:1574-1647 | The mounted flash engine as storage port: returns the stored bytes or loses power, image unchanged |
| `ByteStores.ByteStore.Write` | parameters/src/nvm/backend/par_store_backend_flash_ee.c:1667-1722 | A write through the engine is complete and durable, or torn by whole lines with power gone; the image is what the flash stores unless an unsafe bank erase was cut |
| `ByteStores.ByteStore.Erase` | parameters/src/nvm/backend/par_store_backend_flash_ee.c:1741-1794 | The same with erased bytes |
| `ByteStores.ByteStore.Sync` | parameters/src/nvm/backend/par_store_backend_flash_ee.c:1806-1832 | Completed writes are durable already; a synchronization changes no byte |
| `ByteStores.ByteStore.PowerUp` | parameters/src/nvm/backend/par_store_backend_flash_ee.c:1380-1511 | Mounting again after a loss keeps the stored image, also when power goes once more; a device lost inside an unsafe bank erase stays off |
| `NvmRuns.Run` | parameters/src/nvm/par_nvm.c:986-1409 | On the flash engine itself and any erase unit, any run of live changes, single saves, bulk saves and restarts with power cut anywhere: what the next power-up restores moves exactly by allowed steps; only a device lost inside an unsafe bank erase ends the run, with the event it was lost in |
| `NvmRuns.Execute` | parameters/src/nvm/par_nvm.c:1221-1409 | One command: done in full, or cut with the bootable values old, new or default; a cut single save ends old or new, or, across a line boundary, in the defaults or a mixture of old and new payload by lines |
| `NvmRuns.SaveOne` | parameters/src/nvm/par_nvm.c:1221-1305 | A single save on a complete image updates one bootable value; cut, it keeps the old value or stores the new one when the record lies inside one line, and otherwise leads to the defaults or to one of the four mixtures of old and new payload by lines |
| `NvmRuns.PowerUp` | parameters/src/nvm/par_nvm.c:986-1154 | A power-up never changes what boots, and a completed one makes RAM equal to it |
| `NvmRuns.NeverMixed` | parameters/src/nvm/par_nvm.c:1351-1409 | With bulk saves only, what boots is always one complete set: the initial one, the defaults, or the live values of one bulk save |
| `NvmRuns.SlotStays` | parameters/src/nvm/par_nvm.c:1221-1305 | A slot keeps its bootable value through any turns that do not save it, cut restarts and cut saves of other slots included, as long as every record cut in a single save lies inside one line |
| `NvmRuns.SlotOrDefault` | parameters/src/nvm/par_nvm.c:1221-1305 | Without that condition the worst such turns can do is bring back the default of the slot |
| `NvmRuns.SavedStays` | parameters/src/nvm/par_nvm.c:1221-1305 | The value of a completed single save boots until the slot is saved again, through cut restarts and cut saves of other records that lie inside one line |
| `NvmRuns.SaveStores` | parameters/src/nvm/par_nvm.c:1221-1409 | A completed turn that saves a slot makes its live value the one that boots |
| `NvmRuns.FactoryLife` | parameters/src/par.c:601-638 | A factory-fresh device, from erased flash through the engine to the parameter values: any commands, power cut anywhere, starting from the compiled defaults |
| `ParNvms.ParNvm.Init` | parameters/src/nvm/par_nvm.c:986-1154 | Ends with the stored prefix and default tail, or all defaults, and a settled image; at no cut point does it change what the next power-up restores; a settled image is not rewritten; without power it ends with the defaults and reports the access error |
| `ParNvms.ParNvm.Detect` | parameters/src/nvm/par_nvm.c:1030-1062 | Header, table-ID and payload checks classify the image exactly; loading stops at the first bad record, and lost power is always an access error |
| `ParNvms.ParNvm.LoadAll` | parameters/src/nvm/par_nvm.c:653-814 | Restores the stored prefix, appends the tail and commits the new count; every cut leaves the same values bootable |
| `ParNvms.ParNvm.LoadPrefix` | parameters/src/nvm/par_nvm.c:686-738 | Restores records in order until the first fault |
| `ParNvms.ParNvm.AppendTail` | parameters/src/nvm/par_nvm.c:740-767 | Until the new header lands, the header describes the old, intact prefix |
| `ParNvms.ParNvm.Write` | parameters/src/nvm/par_nvm.c:1221-1305 | Stores one live value; read-back verification never fails while power is on |
| `ParNvms.ParNvm.WriteHeader` | parameters/src/nvm/par_nvm.c:408-450 | The header is written whole or not at all, and read-back verification never fails while power is on |
| `ParNvms.ParNvm.WriteScalarAll` | parameters/src/nvm/par_nvm.c:1351-1409 | Bulk save: cut anywhere, the next power-up restores all old values, all new values or all defaults |
| `ParNvms.ParNvm.WriteVoided` | parameters/src/nvm/par_nvm.c:1363-1396 | While records are rewritten no valid signature exists |
| `ParNvms.ParNvm.SaveAndRecover` | parameters/src/nvm/par_nvm.c:986-1409 | A save followed by power-ups until one completes: live values are all old, all new or all defaults, and new when the save succeeded |
| `ParNvms.ParNvm.ValidateHeader` | parameters/src/nvm/par_nvm.c:461-490 | Access error, signature error, CRC error or the decoded header, in this order |
| `ParNvms.ParNvm.PowerCycle` | parameters/src/par.c:601-638 | A power cycle remounts the backend and drops RAM to the compiled defaults; storage is kept, whether power lasts or not |
| `NvmFormat.RecordExact` | parameters/src/nvm/scalar/layout/par_nvm_layout_compact_payload.c:193-265 | A stored record decodes to a value if and only if it is that value's encoding |
| `NvmFormat.RecordVerdict` | parameters/src/nvm/scalar/layout/par_nvm_layout_compact_payload.c:193-299 | Every record has one verdict, by cause: a plain error for a wrong size descriptor, a checksum error for bytes that are the encoding of no parameter, a plain error for the intact record of another parameter, and its payload otherwise |
| `NvmFormat.SlotsDisjoint` | parameters/src/nvm/scalar/layout/par_nvm_layout_compact_payload.c:154-163 | Record slots never overlap |
| `NvmFormat.Packed` | parameters/src/nvm/scalar/layout/par_nvm_layout_compact_payload.c:54-98 | Behind the twelve header bytes each record takes its payload and four bytes more |
| `NvmFormat.HeadFields` | parameters/src/nvm/par_nvm.c:408-432 | The header starts with the signature bytes, then record count and table ID |
| `NvmFormat.FailedExactly` | parameters/include/par_types.h:34-60 | A status is a failure unless it holds warnings alone |
| `NvmFormat.LoadUpdate` | parameters/src/nvm/par_nvm.c:686-738 | Rewriting one record changes one loaded value; damage is reported or confined to it |
| `NvmFormat.LoadFault` | parameters/src/nvm/par_nvm.c:708-727 | The first bad record decides the fault of the whole load |
| `NvmFormat.LoadFrame` | parameters/src/nvm/par_nvm.c:686-738 | Loading depends on the loaded records alone |
| `NvmFormat.AcceptedHead` | parameters/src/nvm/scalar/layout/par_nvm_layout_compact_payload.c:324-339 | With table-ID checking, an image is accepted for n records exactly when its header is the one a save of n records writes |
| `NvmFormat.HeadRoundTrip` | parameters/src/nvm/par_nvm.c:408-432 | A written header validates and is compatible with exactly its count |
| `NvmSteps.SettledWrite` | parameters/src/nvm/par_nvm.c:1221-1305 | A completed single write updates one value; an interrupted one leads to defaults or touches that value alone |
| `NvmSteps.RecordInLine` | parameters/src/nvm/par_nvm.c:1221-1305 | A record inside one line is stored atomically |
| `NvmSteps.InLineSave` | parameters/src/nvm/par_nvm.c:1221-1305 | So a cut save of it boots the old values or the new one |
| `NvmSteps.CutSave` | parameters/src/nvm/par_nvm.c:1221-1305 | A cut save of any record boots the defaults, or the old values with that slot old, new or mixed by lines |
| `NvmSteps.InLineExactly` | parameters/src/nvm/par_nvm.c:1221-1305 | A record lies inside one line exactly when it touches one line |
| `NvmSteps.FirstPartExactly` | parameters/src/nvm/par_nvm.c:1221-1305 | The part of a payload that a cut save treats as one with the record header is what lies in the line the record starts in |
| `NvmSteps.MixturesExactly` | parameters/src/nvm/par_nvm.c:1221-1305 | The mixtures a cut save can leave are the payloads whose two parts are each old or new |
| `NvmSteps.RewriteDone` | parameters/src/nvm/par_nvm.c:1392-1404 | The header written last settles the new image or, cut, leaves no valid signature |
| `NvmSteps.SignErased` | parameters/src/nvm/par_nvm.c:1363-1377 | Erasing the signature leaves the old image or one that boots to defaults |
| `NvmSteps.VoidedBoots` | parameters/src/nvm/par_nvm.c:1080-1089 | Without a valid signature a power-up ends with defaults |
| `NvmSteps.AppendStep` | parameters/src/nvm/par_nvm.c:740-767 | A tail record, complete or torn, keeps the stored prefix |
| `NvmSteps.AppendDone` | parameters/src/nvm/par_nvm.c:770-784 | The new header, landed or not, keeps the bootable values |
| `NvmSteps.HeadSettles` | parameters/src/nvm/par_nvm.c:408-450 | A header over fully stored records makes the image complete |
| `NvmSteps.Upgrade` | parameters/src/nvm/scalar/layout/par_nvm_layout_compact_payload.c:324-339 | A firmware that appends parameters restores everything its predecessor stored and defaults the rest |
| `NvmSteps.Downgrade` | parameters/src/nvm/scalar/layout/par_nvm_layout_compact_payload.c:324-339 | A firmware with fewer parameters rebuilds from its defaults; the fault is the table-ID error exactly when table IDs are checked |
| `NvmSteps.TableIdVerdict` | parameters/src/nvm/par_nvm.c:1030-1062 | A firmware with the same parameters and another table ID refuses the image with the table-ID error exactly when table IDs are checked, and restores it otherwise |
| `IdResolve.Resolution` | parameters/tools/pargen.py:261-317 | On success IDs and buckets are pairwise distinct, explicit and locked IDs are kept, explicit IDs fit 16 bits, and every AUTO ID lies in the range the group table gives its group, or in the default range for a group without one |
| `IdResolve.OnlyFixedIdsCollide` | parameters/tools/pargen.py:303-317 | A collision failure always blames two explicit or locked IDs, so AUTO allocation never takes a reserved ID or bucket |
| `IdResolve.FailureCause` | parameters/tools/pargen.py:261-386 | Every failure names its cause: equal enum names, an explicit ID outside 0..65535, two rows that bring along one ID, a row whose whole range is taken by used IDs and buckets, or two brought IDs in one bucket |
| `IdResolve.AlwaysOnCounts` | parameters/tools/pargen.py:613-620 | The rows counted for the width are exactly the unconditional ones |
| `IdResolve.TableRoom` | parameters/tools/pargen.py:613-620 | The width is the least of at least one bit that gives every unconditional row two buckets |
| `IdResolve.Regenerate` | parameters/tools/pargen.py:636-646 | Re-running with the emitted lock gives exactly the same IDs |
| `IdResolve.FixedTable` | parameters/tools/pargen.py:261-317 | A table without AUTO rows to allocate resolves exactly when enums are distinct, explicit IDs in range and buckets distinct, and then to the IDs it brings |
| `IdResolve.AssignPlaced` | parameters/tools/pargen.py:282-301 | Every assigned ID is the demanded one or a fresh one that avoids all reserved and earlier buckets |
| `IdResolve.FirstFree` | parameters/tools/pargen.py:375-386 | The candidate search returns the first ID in range that is neither used nor in a used bucket, and fails only when there is none |
| `IdResolve.CheckedBuckets` | parameters/tools/pargen.py:303-317 | The bucket loop accepts exactly the collision-free ID lists |
| `IdGenerators.IdGenerator.ValidateAndResolve` | parameters/tools/pargen.py:261-317 | The dictionary-based pass computes exactly the resolution, failures included |
| `IdGenerators.IdGenerator.AllocateId` | parameters/tools/pargen.py:375-386 | The allocation loop finds the first usable candidate of the range the group table gives the row, or of the default range |
| `IdGenerators.IdGenerator.AssignIds` | parameters/tools/pargen.py:282-301 | The assignment loop over used-ID and ID dictionaries |
| `IdGenerators.IdGenerator.ReserveExplicitIds` | parameters/tools/pargen.py:271-274 | The explicit pass rejects out-of-range and duplicate IDs |
| `IdGenerators.IdGenerator.ReserveLockedIds` | parameters/tools/pargen.py:276-280 | The locked pass rejects duplicates |
| `IdGenerators.IdGenerator.ReserveId` | parameters/tools/pargen.py:364-372 | Reserves a new ID or reports the duplicate |
| `IdGenerators.IdGenerator.CheckEnums` | parameters/tools/pargen.py:262-269 | Accepts exactly tables with distinct enum names |
| `IdGenerators.IdGenerator.CheckCollisions` | parameters/tools/pargen.py:303-317 | The bucket dictionary loop |
| `IdGenerators.IdGenerator.HashBitsForRows` | parameters/tools/pargen.py:613-620 | Width for the rows every build compiles |
| `IdHash.HashBits` | parameters/tools/pargen.py:613-620 | The search loop finds the least sufficient width |
| `IdHash.HashPrefix` | parameters/tools/pargen.py:623-624 | A narrower bucket is a prefix of the wider one |
| `IdHash.HashUndone` | parameters/tools/pargen.py:623-624 | The multiplication by 0x61C88647 permutes the 32-bit words: multiplying by 0xEBB34377 undoes it |
| `IdHash.FullWidthInjective` | parameters/tools/pargen.py:623-624 | Different IDs differ at full width, so only narrow tables collide |
| `IdHash.CollisionFreeLifts` | parameters/src/def/par_id_map_static.h:67-69 | Buckets distinct at one width are distinct at every larger width |
| `IdHash.LadderIsLeast` | parameters/src/def/par_id_map_static.h:38-56 | The preprocessor ladder finds the least width exactly up to 2^18 buckets, and is 18 beyond |
| `IdMap.LookupInEveryBuild` | parameters/src/par.c:1235-1257 | For every subset of conditional rows whose table-size assertion holds, lookup by ID is the exact inverse of the compiled ID table |
| `IdMap.InverseIffDistinct` | parameters/src/par.c:1235-1257 | Lookup inverts the ID table if and only if no two IDs share a bucket |
| `IdMap.UnknownNotFound` | parameters/src/par.c:1235-1257 | An ID outside the table is never found, collisions or not |
| `IdMap.ForeignNumber` | parameters/src/par.c:1235-1257 | Against a map compiled for more rows, a number beyond the table is reported as bad, and the others are found |
| `IdMap.BuildIsWider` | parameters/src/def/par_id_map_static.h:29-76 | The width the C build derives is never below the width the generator checked |
| `IdMap.BuildBitsLeast` | parameters/src/def/par_id_map_static.h:29-78 | The width of a build is the least that gives each compiled row two buckets, for up to 2^17 rows, and its size assertion holds exactly for those |
| `IdMap.ValidateIdTable` | parameters/src/par.c:444-486 | The diagnostic scan compares each ID with the first one of its bucket, under the two compile-time switches |
| `IdMap.BothChecks` | parameters/src/par.c:444-486 | With both checks a clean scan means exactly collision freedom |
| `IdMap.BuildsIffDistinct` | parameters/src/def/par_def.c:197-281 | The two generated switches compile exactly when no two IDs share a bucket; the one over the IDs refuses nothing more |
| `IdMap.BuiltPassesScan` | parameters/src/par.c:444-486 | Every table that builds passes the start-up scan, whatever the two switches are set to |
| `IdMap.ResolvedBuilds` | parameters/src/def/par_def.c:197-281 | Whatever rows a build keeps of a resolved table, once its table-size assertion holds it passes both compile-time checks |
| `IdMap.DuplicateCheckAlone` | parameters/src/par.c:463-470 | The scan by itself, with the duplicate check alone, finds every duplicate in lists over a set of IDs if and only if no two of them share a bucket |
| `LayoutScans.GeneratedMatchesScan` | parameters/tools/pargen.py:880-916 | For any table and any truth assignment to row conditions, emitted index, offset and pool expressions evaluate to what the scan computes on the compiled rows |
| `LayoutScans.GeneratedCounts` | parameters/tools/pargen.py:853-877 | The emitted totals are the counts of the compiled rows |
| `LayoutScans.LayoutScan.Init` | parameters/src/layout/par_layout.c:74-138 | The one-pass scan gives every row the number of earlier rows whose native type has the same size, every object the bytes of the objects before it, without counter wrap-around, and accepts exactly matching totals |
| `SchemaRows.ScalarFits` | parameters/src/nvm/scalar/par_nvm_scalar.c:26-68 | Every scalar fills an element of its storage group exactly, and the object group holds exactly the kinds without a native size |
| `LayoutScans.OffsetIsPeers` | parameters/src/layout/par_layout.c:84-106 | The offset of a row is the number of earlier rows with a native type of the same size |
| `LayoutScans.CountsArePeers` | parameters/src/layout/par_layout.c:138-138 | The totals are the numbers of rows of each native size and the bytes of the objects |
| `LayoutScans.SlotsTile` | parameters/src/scalar/par_scalar_api.c:40-45 | The slots tile each typed storage group: every byte belongs to exactly one row, whose native size is the element size |
| `LayoutScans.OffsetsUnique` | parameters/src/layout/par_layout.c:82-116 | Two rows of one group never share a slot |
| `LayoutScans.OffsetsDense` | parameters/src/layout/par_layout.c:82-116 | Every slot of a group belongs to some row |
| `LayoutScans.WindowsDisjoint` | parameters/src/layout/par_layout.c:104-110 | Object windows do not overlap and stay inside the pool |
| `LayoutScans.WindowsCover` | parameters/src/layout/par_layout.c:104-110 | Every pool byte lies in some object window |
| `LayoutScans.PoolBound` | parameters/src/layout/par_layout.c:104-110 | Pool offsets of a legal table fit 32 bits |
| `LayoutExprs.ExprMeaning` | parameters/tools/pargen.py:846-904 | In every build an emitted expression equals the same sum over the compiled rows |
| `LayoutExprs.PriorMeaning` | parameters/tools/pargen.py:880-916 | The prior expression of a compiled row is the sum over the compiled rows in front of it |
| `LayoutExprs.BuildExpr` | parameters/tools/pargen.py:853-877 | The loop folds unconditional rows into the constant and lists conditional ones |
| `LayoutExprs.PriorExpr` | parameters/tools/pargen.py:880-904 | The expression over the rows before the given one, found by value |
| `LayoutSignature.SignaturesAgree` | parameters/src/layout/par_layout.h:117-186 | Generated chunked signature equals the flat macro signature for the table it came from, in every configuration |
| `LayoutSignature.ChunkedIsFlat` | parameters/tools/pargen.py:972-998 | Eight-row chunks reduced modulo 65521 sum to the one-pass value for up to 65535 rows |
| `LayoutSignature.ChunkCount` | parameters/tools/pargen.py:972-998 | Eight terms make one chunk |
| `LayoutSignature.CodesAgree` | parameters/tools/pargen.py:58-71 | Generator and C header give every kind the same type code |
| `LayoutSignature.KindChangeSeen` | parameters/src/layout/par_layout.h:72-76 | Changing the kind of one row always changes the second signature |
| `LayoutSignature.CapacityChangeSeen` | parameters/src/layout/par_layout.h:64-76 | Changing the capacity of one row changes both signatures exactly when it is an object, unless the difference is 65521 bytes |
| `LayoutSignature.FlatSumFits` | parameters/src/layout/par_layout.h:117-183 | The one-pass 32-bit sum of n reduced terms is free of overflow, whatever the terms, if and only if n <= 65552; a table has at most 65535 rows |
| `LayoutSignature.TableSumExact` | parameters/src/layout/par_layout.h:64-183 | For every legal table each term and the whole one-pass sum equal their values over the integers |
| `LayoutSignature.TermExact` | parameters/src/layout/par_layout.h:64-76 | No single term overflows 32 bits |
| `LayoutSignature.TermsAgree` | parameters/tools/pargen.py:919-968 | The generated terms of compiled rows are the macro terms |
| `Crc.BurstDetected` | parameters/src/port/par_if.c:91-159 | Messages of any length that differ only within a window no wider than the CRC have different checksums |
| `Crc.AdjacentBytesDetected` | parameters/src/port/par_if.c:91-119 | CRC-16 changes on any corruption of two adjacent bytes |
| `Crc.SingleByteDetected` | parameters/src/port/par_if.c:131-159 | CRC-8 changes on any corruption of one byte |
| `Crc.OctetDetected` | parameters/src/port/par_if.c:91-159 | A CRC with any odd polynomial changes on any corruption of one byte |
| `Crc.StepReverses` | parameters/src/port/par_if.c:104-115 | The bit step with an odd polynomial is a bijection |
| `Crc.BytesAsBits` | parameters/src/port/par_if.c:102-116 | The byte-wise loops compute the bit-serial CRC of the message bits |
| `CrcWords.Crc16Bits` | parameters/src/port/par_if.c:91-119 | CRC-16 in 16-bit arithmetic with polynomial 0x1021 is the bit-sequence CRC |
| `CrcWords.Crc16Check` | parameters/src/port/par_if.c:91-119 | It gives 0x29B1 for the text 123456789 from 0xFFFF |
| `CrcWords.Crc8Bits` | parameters/src/port/par_if.c:131-159 | CRC-8 in 8-bit arithmetic with polynomial 0x07 is the bit-sequence CRC |
| `CrcWords.Crc8Check` | parameters/src/port/par_if.c:131-159 | It gives 0xF4 for the text 123456789 from 0x00 |
| `Crc.Concatenates` | parameters/src/nvm/backend/par_store_backend_flash_ee.c:395-403 | Accumulating pieces equals accumulating their concatenation |
| `Crc.Accumulate` | parameters/src/port/par_if.c:91-159 | The accumulate loop over bytes |
| `Crc.MixByte` | parameters/src/port/par_if.c:104-115 | The inner loop over eight bits |
| `Fnv.FnvBuf` | parameters/src/nvm/hash_32a.c:115-126 | Both compiled forms of the loop compute the same hash |
| `Fnv.ShiftAddIsMultiply` | parameters/src/nvm/hash_32a.c:115-138 | The shift-and-add form is multiplication by 0x01000193 modulo 2^32 |
| `Fnv.SingleByteChanges` | parameters/src/nvm/hash_32a.c:115-126 | Inputs that differ in exactly one byte never hash alike |
| `Fnv.AdjacentBytesChange` | parameters/src/nvm/hash_32a.c:115-126 | Inputs that differ in two adjacent bytes never hash alike |
| `Fnv.XorBit` | parameters/src/nvm/hash_32a.c:121-126 | Each bit of a mixed word tells whether the operand bits differ |
| `Fnv.KnownHashes` | parameters/src/nvm/fnv.h:23-25 | The published hashes of the empty text and of the letter a |
| `TableIds.CalcForCount` | parameters/src/nvm/par_nvm_table_id.c:54-104 | The loop with its skips and early exit digests exactly schema version, layout, count and the first persistent scalars |
| `TableIds.LaterRowsKeepId` | parameters/src/nvm/par_nvm_table_id.c:38-53 | Rows that come later never change the ID of a stored prefix |
| `TableIds.OtherRowsKeepId` | parameters/src/nvm/par_nvm_table_id.c:69-86 | Rows without a scalar slot can be inserted anywhere |
| `TableIds.TypeChangeDetected` | parameters/src/nvm/par_nvm_table_id.c:88-90 | Changing the type of one stored parameter always changes the ID |
| `TableIds.IdChangeExactly` | parameters/src/nvm/par_nvm_table_id.c:90-97 | Changing the external ID of one stored parameter changes the table ID exactly when records store IDs |
| `TableIds.VersionBumpDetected` | parameters/src/nvm/par_nvm_table_id.c:58-64 | Changing the low byte of the schema version always changes the ID |
| `StockHooks.CorruptByteNoticed` | parameters/src/nvm/par_nvm.c:1030-1089 | With the default CRC hooks, one corrupted byte anywhere in a complete NVM image makes the next power-up restore the defaults, never a wrong value, with a plain error for the signature and the size bytes and the checksum error for all others |
| `StockHooks.RecordByteNoticed` | parameters/src/nvm/scalar/layout/par_nvm_layout_compact_payload.c:193-265 | One corrupted byte of a stored record never decodes: the size byte is a plain error, every other one a checksum error |
| `StockHooks.HeadByteNoticed` | parameters/src/nvm/par_nvm.c:461-490 | One corrupted byte of a stored header never validates: the signature is a plain error, everything else a checksum error |
| `StockHooks.ForeignRecordNoticed` | parameters/src/nvm/scalar/layout/par_nvm_layout_compact_payload.c:276-302 | An intact record of another parameter in one slot of a complete image is a plain error and leads to the defaults, whatever the hooks |
| `StockHooks.RecordCovered` | parameters/src/nvm/scalar/par_nvm_scalar.c:310-328 | The checksum of a record is the CRC-8 of its ID, size and payload bytes in order, from 0x00 |
| `StockHooks.HeadCovered` | parameters/src/nvm/par_nvm.c:249-259 | The checksum of the image header is the CRC-16 of record count and table ID, from 0xFFFF |
| `StockHooks.FlashCovered` | parameters/src/nvm/backend/par_store_backend_flash_ee.c:374-404 | The checksum of a flash record is the CRC-16 of payload, line index and payload size, that of a bank header of its first seven words, both from 0xFFFF |
| `StockHooks.TypeChangeNoticed` | parameters/src/nvm/scalar/layout/par_nvm_layout_compact_payload.c:324-339 | A firmware that changes the type of a stored parameter rejects the old image with the table-ID error |
| `StockHooks.FlashByteNoticed` | parameters/src/nvm/backend/par_store_backend_flash_ee.c:787-827 | One corrupted byte uncommits a flash record exactly when it lies in payload, metadata or commit unit; payload and checksum bytes give the CRC diagnostic, size bytes the range diagnostic, commit bytes the commit diagnostic or a skipped slot |
| `StockHooks.HeaderByteNoticed` | parameters/src/nvm/backend/par_store_backend_flash_ee.c:675-711 | One corrupted byte in the checked part of an accepted bank header is reported as magic, version, CRC or state, by its position |
| `ObjectPools.ObjectPool.InitDefaultsFromTable` | parameters/src/object/par_object.c:190-258 | Succeeds exactly when configuration and layout agree, and then every object holds its default and nothing else |
| `ObjectPools.ObjectPool.RestoreDefaultMirror` | parameters/src/object/par_object.c:273-277 | The raw reset restores the default state after any run of writes |
| `ObjectPools.ObjectPool.SetAllToDefault` | parameters/src/par.c:806-826 | Restoring each default gives byte for byte the pool and slots of the raw reset |
| `ObjectPools.DefaultsUnique` | parameters/src/object/par_object.c:190-277 | The default state is unique, byte for byte and slot for slot |
| `ObjectPools.ObjectPool.WritePayload` | parameters/src/object/par_object.c:441-489 | A payload inside the length limits of the object with a whole number of elements replaces one window and one length; every other one is refused without effect |
| `ObjectPools.ObjectPool.NvmRestore` | parameters/src/object/par_object.c:627-684 | Restoring from storage refuses the same lengths and otherwise ends in the same state as writing the payload |
| `ObjectPools.ObjectPool.CommitLen` | parameters/src/object/par_object.c:399-432 | Commits a length inside the limits with a whole number of elements, clearing the tail when asked to; refuses every other one without effect |
| `ObjectPools.LenExactly` | parameters/src/object/par_object.c:130-147 | The length check accepts exactly lengths between minimum and maximum that hold a whole number of elements |
| `ObjectPools.LengthsInLimits` | parameters/src/object/par_object.c:399-432 | In every state the pool can reach each payload length is between the minimum and maximum of its object, in whole elements |
| `ObjectPools.DefaultExactly` | parameters/src/object/par_object.c:154-174 | The default check accepts exactly defaults of such a length |
| `ObjectPools.ObjectPool.WriteDefault` | parameters/src/object/par_object.c:496-517 | Puts one object back to its default |
| `ObjectPools.ObjectPool.SnapshotDefaultMirror` | parameters/src/object/par_object.c:264-268 | The mirror holds the state it was taken from |
| `ObjectPools.WrittenEffect` | parameters/src/object/par_object.c:441-489 | After a write the object reads back the new payload and every other object its old one |
| `ObjectPools.ObjectPool.PlaceableIsConsistent` | parameters/src/object/par_object.c:202-255 | The per-object checks together accept exactly a consistent configuration |

## Left out

- Diagnostics code, logging, asserts and debug tables: only the result statuses and the scan diagnostics that decide about reformatting are modelled.
- Port initialization, binding, mutexes and the initialization state of the lower drivers: they always succeed here.
- FlashEeprom.FlashEe.ResetRuntime: keeps the derived geometry, which the original also zeroes; nothing reads it until the next mount derives it again, and it lets the next power-up be described while unmounted.
- FlashEeprom.FlashEe.Deinit: the answer of the port is a parameter; a port that refuses to shut down keeps its state here, and what its failure means inside the port is not modelled.
- Port calls that fail while power stays on: a failing read, program or erase is a power loss, since the code does not keep its append offset or its window in step with a failed call.
- Runs beyond the last sequence number (`SwitchoverExactly` says what the wrap does), and tearing of the bits inside a single byte.
- Flash whose winning bank has an accepted header but a damaged log at power-up; no run produces it.
- Bytes of records and headers are little-endian; the original uses the native order of the target.
- The CRC of the flash format and of the NVM image is an arbitrary function, as it is a replaceable hook; torn data is rejected by the commit unit and the state word, not by luck with a checksum. `Crc` covers the default hooks, on words as bit sequences, and `StockHooks` what they notice.
- Writing and erasing share one staging loop here; the original repeats it.
- FlashRuns.Execute: an interrupted call with several windows is described line by line, not which windows were reached.
- Store backends that delay durability beyond a completed write: the NVM protocol is proved on the flash engine, whose writes are durable when they return.
- The header write is atomic because the first line holds the whole header (`NVM_HEAD_SIZE <= lineSize`); with shorter lines it is not.
- Record layouts other than compact-payload, object records in storage, and out-of-range stored scalars or mutex timeouts while loading.
- Scalar values are their native bytes; F32 is a 32-bit pattern.
- CSV, JSON and C text handling of the generator: rows are records, emitted expressions a constant plus enable-flag terms, and dictionary values that only feed error texts are row numbers. Suggestions for colliding IDs are not modelled.
- Row conditions are free truth values per row, which covers every combination the preprocessor can produce.
- Object types disabled at compile time, and the check that a slot index is below the object count: slots are numbered in object order, as `OffsetsUnique` and `OffsetsDense` show the layout does.
- Getter and setter wrappers, access and role checks, the shell and the other storage adapters: they would add only one-branch facts.
