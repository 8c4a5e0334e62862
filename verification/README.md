# EfesOS in Dafny

EfesOS is a small 32-bit kernel written in C. This project models the parts of it that keep promises over
time, and proves those promises for every input, every run and every reachable state.

- **Journal and persistent files** (`Bytes`, `Binary`, `Crc32`, `JournalCodec`, `JournalLog`, `JournalIo`, `Ramfs`,
  `Persistent`, `PersistentIo`, `Durability`). A record is accepted exactly when it is the encoding of the entry it
  yields. Saves and deletions succeed exactly when the table, the log and the device allow it.
  After any run of saves, deletes, formats, boots and power losses, on a device whose reads fail and whose writes
  get lost, the next boot rebuilds the table from exactly the operations whose commit write landed, so that every
  name holds what the last of them left there.
- **Physical memory** (`Frames`, `Pmm`). What the allocator manages after initialisation, and that its counters
  are the cardinalities they stand for ever after.
- **Address spaces** (`AddressSpace`, `SpaceRuns`, `SpaceRequests`, `Mmu`, `PageSets`). Two-level page tables refine a
  flat translation per directory; each request is granted exactly when the translations and the free frames allow it;
  a user frame is held by one entry of one space at a time, over whole runs.
- **Program loading** (`ElfImage`, `ElfLoader`, `ElfSamples`, `ProcessLife`). Loading places the right bytes with the right
  permissions, or leaves every translation as it was and says why it stopped; create, load, unload, destroy gives
  back every frame unless the image has a gap.
- **Messages and scheduling** (`Ipc`, `Scheduler`, `TaskRuns`, `TaskEffects`, `TaskProgress`, `TaskTable`). The ring is
  a queue; what each event does to the tasks, the queue and the processor is stated in full;
  no wakeup is lost; the scheduler runs dry only when its last runnable task ends; identifiers are never reused;
  a runnable task waits a bounded number of timer interrupts.
- **Kernel heap** (`Heap`, `HeapRuns`, `HeapList`, `KernelHeap`). Linked headers stand for a row of blocks that
  tiles the mapped pages; live blocks stay apart; freeing everything leaves one block; freeing twice stops.
- **Timer arithmetic** (`Hpet`, `Arithmetic`), **FAT16 reading** (`Fat`, `FatIo`, `FatMeaning`) and **message-signalled
  interrupts** (`Capabilities`, `Msi`).

Each imperative source file has two layers here. A value layer says what an operation does as a function of the
state and carries the lemmas about runs. A class or a set of methods does the work in place, loop by loop as the C
code does, and is proved to compute those functions. Device behaviour (failing reads, lost or unreported writes,
dropped register writes, refused page allocations) is nondeterministic in the methods and an explicit argument in
the functions.

Some promises do not hold as they might be expected to. For each there is a lemma giving the exact condition:

- Unmapping a kernel page whose table becomes empty frees that table even when a private directory still points at
  it (`AddressSpace.UnmapEffect`, `SpaceRuns.CreateThenUnmapDangles`).
- Formatting compares file names only, so an edited file is lost at the next boot exactly when its contents
  differ from the initial ones (`Persistent.FormatKeepsContentsIff`, `Persistent.FormatCanDropEdit`).
- A user mapping refused because its frame is mapped already can leave an empty table behind
  (`PageSets.RefusedMapLeavesTable`). Adding and removing pages there gives that table back as well, so a failed load
  restores every frame exactly when it added no page to such a slot (`PageSets.AddThenRemove`,
  `ElfLoader.Loader.Load`).
- An image whose pages leave a gap can be loaded and not unloaded. Whether it has a gap does not depend on where it
  is loaded (`ElfLoader.ContiguousAnywhere`, `ElfSamples.GappedIsValid`, `ProcessLife.WholeLife`).
- Destroying a space leaves its own tables outside the user slots in use (`SpaceRuns.DestroyGivesBack`,
  `SpaceRuns.MapMakesTable`).
- Reserving a range after user frames were handed out keeps the bookkeeping consistent exactly when it touches none
  of those (`Pmm.ReservedValidIff`).
- The mount-time look at a FAT copy uses a sector number cut to 32 bits, so a mounted volume has its media mark in a
  copy exactly when that copy begins below sector 2^32 (`FatIo.MountShowsTable`). A cluster linked to itself is read
  over and over instead of being refused (`FatIo.CycleIsRead`).
- The extended timer counter is right exactly when samples are less than 2^32 ticks apart
  (`Hpet.ExtendsExactlyWhen`), and the 64-bit division exactly when no rest is shifted out of 32 bits
  (`Hpet.Divide`, `Hpet.ShortDivisors`).

The file-attribute test of `fat_read_file` rejects every file with any of the five low attribute bits, because the
long-name mask contains the read-only, hidden and system bits; the model follows the code (`FatIo.ReadFile`).

`dafny verify dfyconfig.toml` checks the whole project.

## Model

| member | source | states |
|---|---|---|
| `Bytes.Le16RoundTrip` | fs/journal.c:12-27 | two bytes read as a value exactly when they are that value written out |
| `Bytes.Le32RoundTrip` | fs/journal.c:17-33 | the same for four bytes |
| `Binary.XorBits` | fs/journal.c:35-49 | exclusive or, bit by bit |
| `Crc32.ComputeUpdate` | fs/journal.c:35-49 | the bit-by-bit loop computes the running checksum of the bytes |
| `Crc32.UpdateSeesOneByte` | fs/journal.c:35-49 | changing one byte of any input changes the running value |
| `Crc32.ChecksumSeesOneByte` | fs/journal.c:51-66 | and changes the final checksum |
| `Crc32.UpdateAppend` | fs/journal.c:51-58 | the checksum of two pieces in turn is that of both together |
| `JournalCodec.DecodeIffEncoded` | fs/journal.c:96-205 | a sector decodes to an entry exactly when the entry is valid and the sector is, byte for byte, its encoding |
| `JournalCodec.RecordLayout` | fs/journal.c:96-143 | which bytes of a record hold the numbers, the checksum, the name, the content and the marker |
| `JournalCodec.RoundTrip` | fs/journal.c:96-205 | decoding an encoded valid entry gives the entry back |
| `JournalCodec.CommitMarkerOnly` | fs/journal.c:96-143 | a committed record differs from the prepared one in the commit marker alone |
| `JournalCodec.OneByteChangeRejected` | fs/journal.c:145-205 | a committed record with any one byte changed is not accepted |
| `JournalCodec.SuperblockDecodeIffEncoded` | fs/journal.c:213-256 | a superblock decodes to a size exactly when it is the encoding of that size |
| `JournalCodec.IsValidName` | fs/journal.c:81-94 | the name check accepts exactly the valid names |
| `JournalCodec.RecordCrc` | fs/journal.c:51-58 | the checksum of header and payload as the decoder expects it |
| `JournalCodec.Encode` | fs/journal.c:96-143 | writes the encoding in place, or refuses exactly the entries that cannot be encoded and leaves the sector alone |
| `JournalCodec.Decode` | fs/journal.c:145-211 | the field-by-field check computes the decoding |
| `JournalCodec.IsAllZero` | fs/journal.c:258-268 | reports whether every byte is zero |
| `JournalLog.ClassifyIff` | fs/journal.c:283-330 | each kind of sector (blank, record, prepared, junk) by what its bytes encode |
| `JournalLog.ScanIffShape` | fs/journal.c:283-330 | the scan succeeds with a list exactly when the region is those records in increasing sequence, then at most one newer prepared record, then only blanks |
| `JournalLog.ShapeAppend` | fs/journal.c:390-427 | each of the two writes of an append keeps that shape, and only the second extends the list |
| `JournalLog.AppendEffect` | fs/journal.c:390-427 | whatever the device does, an append changes at most the next free sector, extends the committed list exactly when the commit write lands, and succeeds exactly when that write lands, is reported and is read back |
| `JournalLog.StaleAppendRefused` | fs/journal.c:270-273 | an append whose sequence number is not newer than the last committed one changes nothing |
| `JournalIo.ClassifySector` | fs/journal.c:283-330 | the tests made on a sector tell its kind |
| `JournalIo.RestIsBlank` | fs/journal.c:283-330 | whether all remaining sectors are blank, or nothing exactly when a read fails |
| `JournalIo.ScanLog` | fs/journal.c:283-330 | when no read fails, the number of records and the last sequence number of the scan, or nothing exactly when the scan fails; when one fails, nothing |
| `JournalIo.ReadSuperblock` | fs/journal.c:369-388 | the data sectors announced by a valid superblock that fits, exactly when its sector is read |
| `JournalIo.Append` | fs/journal.c:390-427 | contents and result are those the specification gives for the reads that failed and the writes that landed, the writes are attempted exactly when the record is admitted, and every content in between is one a power loss would leave |
| `JournalIo.WriteRecord` | fs/journal.c:415-426 | the same for prepared write, commit write and read-back of an admitted record |
| `Ramfs.WrittenWellFormed` | fs/ramfs.c:122-161 | writing keeps names distinct and valid, contents short and the table within its slots |
| `Ramfs.RemovedWellFormed` | fs/ramfs.c:163-183 | removing keeps the table well formed |
| `Ramfs.ApplyWellFormed` | fs/ramfs.c:185-222 | applying a journal entry keeps the table well formed |
| `Ramfs.ReplayWellFormed` | fs/journal.c:332-367 | so does replaying any log |
| `Ramfs.AppliesIff` | fs/ramfs.c:185-222 | a committed operation is applied exactly when its name and content are good and there is room |
| `Ramfs.ApplyMeans` | fs/ramfs.c:185-222 | a write stores its content under its name, a removal leaves nothing there, and no other name changes |
| `Ramfs.ReplayMeans` | fs/journal.c:332-367 | after a replay every name holds what the last operation on it left, and its old content if there was none |
| `Ramfs.LookupWritten` | fs/ramfs.c:107-161 | after a write the name holds the new contents and every other name what it held |
| `Ramfs.LookupRemoved` | fs/ramfs.c:107-183 | after a removal the name is gone and every other name is unchanged |
| `Ramfs.ApplyByName` | fs/ramfs.c:185-222 | whether an entry applies depends only on the names present |
| `Ramfs.ReplaySnoc` | fs/ramfs.c:185-222 | replaying one more entry applies it to the replay so far |
| `Ramfs.Table.constructor` | fs/ramfs.c:68-84 | a new table holds the three initial files |
| `Ramfs.Table.Locate` | fs/ramfs.c:107-120 | the slot of a name |
| `Ramfs.Table.CanWriteFile` | fs/ramfs.c:122-144 | whether a write would succeed |
| `Ramfs.Table.WriteFile` | fs/ramfs.c:146-161 | updates in place or appends as specified, or refuses and changes nothing |
| `Ramfs.Table.RemoveFile` | fs/ramfs.c:163-183 | removes the file and closes the gap, or refuses |
| `Ramfs.Table.CloseGap` | fs/ramfs.c:163-183 | later files move down one slot |
| `Ramfs.Table.ApplyEntry` | fs/ramfs.c:185-222 | applies a journal entry exactly when the specification does |
| `Persistent.StepKeepsInv` | fs/persistent.c:39-225 | every boot, save, delete and format, under any device behaviour, keeps log, table and history consistent |
| `Persistent.RunKeepsInv` | fs/persistent.c:39-225 | so does every run |
| `Persistent.CrashSafety` | fs/persistent.c:49-225 | after any run a boot rebuilds a well-formed table by replaying exactly the operations whose commit landed, so that every name holds the content of the last of them on it; every acknowledged operation is among them; replay never panics |
| `Persistent.InitialisedJournal` | fs/persistent.c:49-91 | any formatted journal whose log replays is a legitimate start |
| `Persistent.FailedSave` | fs/persistent.c:175-200 | a failed save leaves the table alone, and the log alone or longer by exactly that record |
| `Persistent.FailedDelete` | fs/persistent.c:202-225 | the same for a failed delete |
| `Persistent.StuckStep` | fs/persistent.c:175-225 | with an unacknowledged record committed, no further write is accepted before a boot |
| `Persistent.StuckUntilBoot` | fs/persistent.c:175-225 | and that lasts over any run without a boot |
| `Persistent.FormatKeepsContentsIff` | fs/persistent.c:93-163 | formatting keeps the table across the next boot exactly when it held the initial contents |
| `Persistent.FormatCanDropEdit` | fs/persistent.c:93-163 | a concrete edit, format, boot that loses the edit |
| `Durability.SaveSucceedsIff` | fs/persistent.c:175-200 | a save succeeds exactly when table and log are in step with a number and a sector left, the name and text are good with room for them, and the device works |
| `Durability.DeleteSucceedsIff` | fs/persistent.c:202-225 | the same for a delete of a file that is there |
| `Durability.VolatileSucceedsIff` | fs/persistent.c:175-225 | without a journal the same checks decide and the disk is left alone |
| `Durability.SaveMeans` | fs/persistent.c:175-200 | a successful save stores exactly these contents under exactly this name and takes the next number |
| `Durability.DeleteMeans` | fs/persistent.c:202-225 | a successful delete takes away exactly this name |
| `Durability.FormatSucceedsIff` | fs/persistent.c:93-163 | a format succeeds exactly on a blank region with the initial names and a working device, and leaves a journal that accepts 64 records |
| `Durability.BootAccepts` | fs/persistent.c:49-91 | after a boot with working reads writes are accepted exactly when there is a journal with numbers left, from the next number on |
| `Durability.BootWithoutJournal` | fs/persistent.c:49-91 | without a superblock the kernel goes on with the initial files |
| `Durability.BootRefusesJournal` | fs/persistent.c:49-91 | a journal too large or in no recoverable shape stops the boot |
| `Durability.BootOutcome` | fs/persistent.c:49-91 | what a boot makes of any recoverable journal, for each read that may fail |
| `Durability.AllAcknowledged` | fs/persistent.c:175-225 | as long as sectors and numbers last, every possible save and delete on a working device is acknowledged |
| `Durability.FullJournal` | fs/persistent.c:175-200 | a formatted journal takes 64 operations and no more |
| `Durability.SavedStays` | fs/persistent.c:175-200 | an acknowledged save is found after any later boot unless a later operation named the same file |
| `Durability.DeletedStays` | fs/persistent.c:202-225 | an acknowledged delete stays done in the same way |
| `PersistentIo.Service.ApplyRecords` | fs/journal.c:332-367 | when no read fails, replays the committed records one by one into the table |
| `PersistentIo.Service.Init` | fs/persistent.c:49-91 | boot: table, flag and next sequence number as specified for the reads that failed |
| `PersistentIo.Service.WriteFile` | fs/persistent.c:175-200 | journal first, table only after an acknowledged append; the outcome is the specified one for the reads that failed and the writes that landed |
| `PersistentIo.Service.RemoveFile` | fs/persistent.c:202-225 | the same for removal |
| `PersistentIo.Service.Format` | fs/persistent.c:93-163 | writes a superblock over a blank region when the names are pristine, and writes nothing in every other case |
| `PersistentIo.Service.IsPristine` | fs/ramfs.c:91-97 | whether the names are the three initial ones |
| `PersistentIo.Service.RegionIsBlank` | fs/persistent.c:93-163 | whether every sector of the region is read and zero |
| `Frames.FirstFree` | memory/pmm.c:237-275 | the lowest available block of a range |
| `Frames.AllocBelowValid` | memory/pmm.c:237-255 | an allocation returns a managed, unused block and keeps the bookkeeping consistent |
| `Frames.AllocUserValid` | memory/pmm.c:257-275 | a user allocation also owns the block it returns |
| `Frames.ClaimValid` | memory/pmm.c:290-310 | claiming and releasing keep ownership consistent |
| `Frames.FreeValid` | memory/pmm.c:328-347 | freeing keeps it consistent and never frees a claimed block |
| `Frames.AllocThenFree` | memory/pmm.c:237-347 | freeing what was just allocated restores the state |
| `Frames.AllocsLowest` | memory/pmm.c:237-275 | each allocation hands out the lowest frame there is for it and fails exactly when there is none |
| `Frames.ClaimsAndFrees` | memory/pmm.c:290-347 | which frames can be claimed and which freed |
| `Pmm.Allocator.AllocBlockBelow` | memory/pmm.c:237-255 | the bitmap search returns the lowest free block below the limit; counters stay exact |
| `Pmm.Allocator.Take` | memory/pmm.c:38-57 | marks one block used and its ownership, one more used block |
| `Pmm.Allocator.AllocUserBlock` | memory/pmm.c:257-275 | the lowest managed free block in the user range, owned |
| `Pmm.Allocator.BlockIsUserOwned` | memory/pmm.c:277-288 | aligned, managed, used and user-owned |
| `Pmm.Allocator.UserBlockIsMapped` | memory/pmm.c:312-321 | owned and claimed |
| `Pmm.Allocator.ClaimUserBlock` | memory/pmm.c:290-303 | claims an owned unclaimed block, otherwise changes nothing |
| `Pmm.Allocator.ReleaseUserBlock` | memory/pmm.c:305-310 | drops the claim |
| `Pmm.Allocator.FreeBlock` | memory/pmm.c:328-347 | frees exactly the blocks the specification frees; counters stay exact |
| `Pmm.Allocator.ReleaseRegion` | memory/pmm.c:119-150 | offers the blocks wholly inside an available range |
| `Pmm.Allocator.ReserveRegion` | memory/pmm.c:152-193 | withholds every block a reserved range touches, at any time; counters stay exact |
| `Pmm.Allocator.MarkReserved` | memory/pmm.c:95-109 | withholds one block |
| `Pmm.Allocator.Reserve` | memory/pmm.c:177-193 | the touched blocks leave management and count as used; ownership stays consistent exactly when none of them was handed out for a user page |
| `Pmm.ReservedValidIff` | memory/pmm.c:152-193 | the same for any set of blocks |
| `Pmm.TouchedMeans` | memory/pmm.c:177-193 | a range touches the blocks it has a byte in common with |
| `Pmm.Allocator.Init` | memory/pmm.c:195-235 | afterwards a block is usable exactly when it lies inside an active available range, touches no active other range and avoids the fixed reservations; counters equal cardinalities |
| `Pmm.OrderIrrelevant` | memory/e820.c:13-39 | the usable blocks do not depend on the order of the memory-map records |
| `Pmm.LowBlocksWithheld` | memory/pmm.c:195-235 | low memory is never usable |
| `Pmm.RoundedIn` | memory/pmm.c:119-150 | rounding an available range inwards selects the blocks wholly inside it |
| `Pmm.RoundedOut` | memory/pmm.c:152-175 | rounding a reserved range outwards selects the blocks it touches |
| `AddressSpace.EnsureEffect` | memory/paging.c:468-498 | finding or making a table changes no translation |
| `AddressSpace.MapEffect` | memory/paging.c:500-539 | mapping installs exactly the requested page in the current directory, or changes no translation; the invariant is kept |
| `AddressSpace.ProtectEffect` | memory/paging.c:541-586 | protecting keeps the frame and every other page |
| `AddressSpace.UnmapEffect` | memory/paging.c:588-635 | unmapping removes exactly the page; the invariant is kept exactly when no other directory still points at a freed table |
| `AddressSpace.CreateEffect` | memory/paging.c:906-919 | a new space translates like the kernel and changes nothing for others |
| `AddressSpace.SwitchEffect` | memory/paging.c:931-958 | switching changes no translation |
| `SpaceRequests.MapSucceedsIff` | memory/paging.c:500-539 | for all flags and directories, a mapping is granted exactly when the addresses and flags are good, nothing is mapped there, the slot is not the kernel's under a private directory, a user page has an owned unclaimed frame and a slot of user pages, and a table is there or a frame for one |
| `SpaceRequests.MapCosts` | memory/paging.c:468-539 | a granted mapping claims the user frame, takes one frame for a missing table, and opens the slot to users exactly for user pages |
| `SpaceRequests.ProtectSucceedsIff` | memory/paging.c:541-586 | protecting is granted exactly for a mapped page of the same kind that is not the kernel's |
| `SpaceRequests.UnmapSucceedsIff` | memory/paging.c:588-635 | unmapping is granted exactly for a mapped page that is not the kernel's or, in the kernel's space, identity-mapped |
| `SpaceRequests.UnmapCosts` | memory/paging.c:588-635 | unmapping ends the claim on a user frame and gives the table back exactly when no other page goes through it |
| `SpaceRequests.CreateSucceedsIff` | memory/paging.c:906-919 | a space is created exactly when fewer than sixteen exist and a frame is free for it |
| `SpaceRequests.SwitchSucceedsIff` | memory/paging.c:931-958 | switching is granted exactly to registered directories |
| `SpaceRequests.DestroySucceedsIff` | memory/paging.c:1065-1127 | a space is destroyed exactly when it is registered, not current, and its user slots hold claimed frames only |
| `SpaceRuns.DestroyEffect` | memory/paging.c:1065-1127 | destroying a space keeps the invariant and the translations of all others |
| `SpaceRuns.DestroyGivesBack` | memory/paging.c:1065-1127 | the directory and the frame of every user page are given back, and a private table exactly when it lies in a user slot |
| `SpaceRuns.MapMakesTable` | memory/paging.c:468-539 | a supervisor mapping from inside a space, in a slot without a table, gives the space a table of its own |
| `SpaceRuns.UnregisterEffect` | memory/paging.c:1065-1127 | the registry loses exactly the destroyed space |
| `SpaceRuns.ReclaimedAll` | memory/paging.c:1065-1127 | freeing page by page and table by table frees exactly the private frames and tables |
| `SpaceRuns.StepKeepsInv` | memory/paging.c:500-635 | every admissible operation keeps structure, user bits, exclusivity and write-xor-execute |
| `SpaceRuns.RunKeepsInv` | memory/paging.c:500-1127 | so does every admissible run |
| `SpaceRuns.FrameExclusivity` | memory/paging.c:500-1127 | in every reachable state a frame is claimed exactly when exactly one user entry holds it, such a frame cannot be freed or handed out, and no page is writable and executable |
| `SpaceRuns.InitialInv` | memory/paging.c:1266-1310 | the tables built at start satisfy the invariant |
| `SpaceRuns.PrivateIsolation` | memory/paging.c:500-635 | work under a private directory changes no other translation anywhere |
| `SpaceRuns.CreateThenUnmapDangles` | memory/paging.c:588-635 | whenever a kernel page is alone in its table, creating a space and unmapping the page leaves a pointer to a freed table |
| `Mmu.Pager.UsesSharedTable` | memory/paging.c:416-432 | whether a slot of the current directory is the kernel's |
| `Mmu.Pager.AllowsUserMappings` | memory/paging.c:434-451 | whether a table holds user pages only |
| `Mmu.Pager.Ensure` | memory/paging.c:468-498 | finds or makes the table as specified |
| `Mmu.Pager.Map` | memory/paging.c:500-539 | maps in place as specified, with every refusal |
| `Mmu.Pager.Protect` | memory/paging.c:541-586 | changes flags in place as specified |
| `Mmu.Pager.Unmap` | memory/paging.c:588-635 | unmaps in place, releasing the claim and an emptied table |
| `Mmu.Pager.CreateDirectory` | memory/paging.c:906-919 | a copy of the kernel directory, registered |
| `Mmu.Pager.SwitchTo` | memory/paging.c:931-958 | switches to registered directories only |
| `Mmu.Pager.Preflight` | memory/paging.c:1065-1127 | whether a space may be destroyed |
| `Mmu.Pager.Reclaim` | memory/paging.c:1065-1127 | frees private pages and tables in the order of the loops |
| `Mmu.Pager.DestroyDirectory` | memory/paging.c:1065-1127 | destroys as specified, or refuses and changes nothing |
| `Mmu.Pager.RemoveFromRegistry` | memory/paging.c:1065-1127 | the last registered space takes the removed slot |
| `Mmu.Pager.ValidateUserRange` | memory/paging.c:670-737 | accepts a range exactly when it lies below the user limit and every page is mapped for the user, writable when asked |
| `Mmu.Pager.ValidateUserExecute` | memory/paging.c:739-783 | accepts an address exactly when its page is a mapped executable user page |
| `PageSets.AddPageEffect` | process/elf_loader.c:417-432 | allocating and mapping one more user page adds exactly that page, one frame, and a table when the slot had none, or changes nothing |
| `PageSets.AddPageSucceeds` | process/elf_loader.c:417-432 | an absent page is added exactly when it is in the user range, a frame is free for it, and its slot can hold user pages or a frame is free for a table |
| `PageSets.RemovePageEffect` | process/elf_loader.c:271-282 | unmapping and freeing one added page takes back exactly what it added, and the table exactly when that held nothing before and holds nothing else now |
| `PageSets.ProtectAdded` | process/elf_loader.c:446-458 | protecting added pages adds nothing |
| `PageSets.AddThenRemove` | process/elf_loader.c:271-282 | adding and removing a page restores the translations always, and the frames exactly when the slot held no empty table before |
| `PageSets.RefusedMapLeavesTable` | memory/paging.c:500-539 | mapping a user frame that is mapped already, in a slot without a table, is refused and leaves an empty table and one more used frame |
| `PageSets.NothingAdded` | process/elf_loader.c:271-282 | with all added pages gone the frames are those of before less the empty tables that are gone |
| `ElfImage.Validate` | process/elf_loader.c:166-269 | accepts exactly the valid images |
| `ElfImage.ValidateSegments` | process/elf_loader.c:166-269 | the segment loop accepts exactly the valid segment tables |
| `ElfImage.OneFilePage` | process/elf_loader.c:166-269 | in a page-aligned segment of a valid image, bytes share a page of memory exactly when they share a page of the file, and keep their place in it |
| `ElfLoader.Loader.ZeroRange` | process/elf_loader.c:443-445 | zeroes exactly the bytes of a range |
| `ElfLoader.Loader.CopyIn` | process/elf_loader.c:440-442 | copies exactly a segment's file bytes to its address |
| `ElfLoader.Loader.MapPages` | process/elf_loader.c:417-439 | maps a segment's pages zeroed, or stops at a page that is mapped already or has no room |
| `ElfLoader.Loader.ProtectPages` | process/elf_loader.c:446-458 | gives exactly those pages their final permissions |
| `ElfLoader.Loader.PlaceSegment` | process/elf_loader.c:386-458 | file bytes, then zeros, with final permissions; everything else unchanged; or stops as above |
| `ElfLoader.Loader.ReleasePages` | process/elf_loader.c:271-282 | undoes every page added so far, and loses exactly the tables that were empty before and held some of them |
| `ElfLoader.Loader.BiasAccepted` | process/elf_loader.c:118-164 | accepts a base exactly when the image is not too large and lies there in free user pages clear of the stacks; then every segment fits |
| `ElfLoader.Loader.Load` | process/elf_loader.c:336-474 | success places every segment; failure is for an invalid image, a refused base, a segment that does not fit, or a page that is mapped already or has no room, restores every translation, and every frame exactly when no page went to a slot with an empty table |
| `ElfLoader.SuitsSegment` | process/elf_loader.c:118-164 | at an accepted base every segment fits over pages not yet mapped |
| `ElfLoader.ValidFits` | process/elf_loader.c:386-416 | a valid image with fixed addresses always fits |
| `ElfLoader.EntryRuns` | process/elf_loader.c:166-269 | once a valid image is in place its entry point lies in a page that may be executed and not written |
| `ElfLoader.LoadedPagesMove` | process/elf_loader.c:386-416 | an aligned base moves every page by the same distance |
| `ElfLoader.ContiguousAnywhere` | process/elf_loader.c:386-416 | so whether the pages leave a gap does not depend on the base |
| `ElfLoader.Loader.Unload` | process/elf_loader.c:476-502 | removes a span exactly when all of it is loaded, losing only tables that were empty before, and otherwise changes nothing |
| `ProcessLife.FreshSpace` | memory/paging.c:906-919 | a new space has no user page and no empty table of its own |
| `ProcessLife.LeaveAndDestroy` | memory/paging.c:1065-1127 | leaving and destroying a bare space restores the machine before its creation |
| `ProcessLife.StackEffect` | process/user_process.c:155-168 | the stack page is mapped exactly when there is room for it, and is then all there is in the user range |
| `ProcessLife.LoadedSpan` | process/user_process.c:169-176 | a loaded image leaves the guard page unmapped and fills the span it bounds exactly when its unbiased pages leave no gap |
| `ProcessLife.WholeLife` | process/user_process.c:155-216 | create, map a stack, load, unload, unmap, destroy gives back every frame and translation whatever fails, with the reason for each failure; a loaded image fails to unload exactly when its unbiased pages leave a gap, and then exactly the space, its stack and the loaded pages remain |
| `ProcessLife.RunImage` | process/elf_loader.c:336-502 | the same for load and unload alone |
| `ElfSamples.GappedIsValid` | process/elf_loader.c:166-269 | a concrete image that is valid and has a gap |
| `ElfSamples.DemoIsValid` | process/user_process.c:222-264 | the image built around any demo code of up to a page is valid and has one page |
| `ElfSamples.DemoSuits` | process/elf_loader.c:118-164 | every aligned base of the range suits the demo when its page there is free |
| `ElfSamples.GuardImageRefused` | process/user_process.c:266-294 | the image of the guard test is refused, for its address alone |
| `Ipc.FirstMatch` | kernel/ipc.c:77-111 | the earliest message for a receiver |
| `Ipc.PendingIff` | kernel/ipc.c:157-171 | something is pending exactly when some message matches, exactly when a receive would find one |
| `Ipc.PurgedMembers` | kernel/ipc.c:173-242 | a purge keeps exactly the messages that do not name a given task |
| `Ipc.PurgedInOrder` | kernel/ipc.c:173-242 | and keeps their order |
| `Ipc.PendingCounts` | kernel/ipc.c:157-171 | the pending count is the number of messages a receiver would get |
| `Ipc.DrainInOrder` | kernel/ipc.c:96-142 | receiving until nothing comes yields every message a task may read, in the order sent, and leaves the others in order |
| `Ipc.Ring.constructor` | kernel/ipc.c:30-37 | an empty queue |
| `Ipc.Ring.Send` | kernel/ipc.c:39-63 | appends to the sequence the ring stands for, or refuses when full or too long |
| `Ipc.Ring.Find` | kernel/ipc.c:105-115 | the offset of the earliest match |
| `Ipc.Ring.Receive` | kernel/ipc.c:96-142 | removes the earliest match and keeps the order of the rest, or changes nothing |
| `Ipc.Ring.MoveUp` | kernel/ipc.c:131-137 | earlier messages move up one place over the removed one |
| `Ipc.Ring.Pending` | kernel/ipc.c:157-171 | counts the matching messages |
| `Ipc.Ring.Purge` | kernel/ipc.c:173-242 | filters the queue in place and returns how many were dropped |
| `Ipc.Ring.CloseGap` | kernel/ipc.c:226-233 | removes one message from the middle |
| `Scheduler.NextRunnable` | process/scheduler.c:271-282 | the nearest runnable task round the ring, none exactly when no task is runnable |
| `Scheduler.SlotOf` | process/scheduler.c:488-506 | the first slot with an identifier |
| `Scheduler.Identifier` | process/scheduler.c:616-621 | slot and generation can be read back from an identifier |
| `Scheduler.FindSlot` | process/scheduler.c:97-112 | the first reusable slot, or the next new one |
| `TaskRuns.DispatchEffect` | process/scheduler.c:341-366 | a dispatch changes nothing but frames, ticks and the current task |
| `TaskRuns.EndedKeeps` | process/scheduler.c:659-688 | an ending user task takes every message that names it out of the queue |
| `TaskRuns.WakeIdEffect` | process/scheduler.c:488-506 | waking by identifier wakes every task that has it |
| `TaskRuns.DeliverKeeps` | kernel/ipc.c:39-70 | after a send nobody who could read the message is blocked |
| `TaskRuns.BlockKeeps` | process/scheduler.c:544-556 | a task blocks only when nothing in the queue is for it |
| `TaskRuns.SpawnKeeps` | process/scheduler.c:390-434 | a new task in a reused slot inherits no message |
| `TaskRuns.StepKeepsInv` | kernel/syscall.c:119-224 | every system call, interrupt, spawn and kernel send keeps the invariant |
| `TaskRuns.RunKeepsInv` | kernel/syscall.c:119-224 | in every reachable state no blocked task has a matching message queued, and every sender and receiver in the queue is a live user task |
| `TaskRuns.PanicIff` | process/scheduler.c:328-366 | the scheduler finds nothing to run exactly when the last runnable task ends, or none existed at the start |
| `TaskRuns.BlockingNeverStalls` | kernel/syscall.c:187-217 | a blocking receive always leaves another task to run |
| `TaskRuns.SendReplies` | kernel/syscall.c:119-186 | a send is answered with its length exactly when it is queued as the current task's; every refusal changes nothing |
| `TaskRuns.ReceiveReplies` | kernel/syscall.c:138-159 | the reply tells apart nothing pending, nothing that fits, and the earliest message, which alone is removed |
| `TaskEffects.DispatchMeans` | process/scheduler.c:341-366 | a tick is used up, or the processor goes to the nearest runnable task with a full slice, or there is none; nothing else changes |
| `TaskEffects.ScheduleMeans` | process/scheduler.c:328-366 | the same for a whole timer or yield interrupt, with every ended task but the current one reaped |
| `TaskEffects.ReapedMeans` | process/scheduler.c:145-174 | every ended task but the one being run on loses its stack and its mark |
| `TaskEffects.WithoutTaskIs` | process/scheduler.c:659-688 | exactly the messages naming the task leave the queue, the others keep their order |
| `TaskEffects.ExitMeans` | process/scheduler.c:659-688 | an exit ends the task, takes its messages out, and hands over to the nearest runnable task |
| `TaskEffects.BadReturnMeans` | process/scheduler.c:328-366 | so does a return to a place that may not be executed |
| `TaskEffects.KernelReturnMeans` | process/scheduler.c:690-712 | a kernel task that returns ends without touching the queue |
| `TaskEffects.SlotComesBack` | process/scheduler.c:145-174 | one interrupt after an exit the slot is free |
| `TaskEffects.BlockMeans` | kernel/syscall.c:187-217 | a waiting receive with nothing to read blocks the caller and runs another task, or changes nothing when there is none |
| `TaskEffects.WaitIsReceive` | kernel/syscall.c:187-217 | otherwise it is a receive |
| `TaskEffects.DeliverMeans` | kernel/ipc.c:39-70 | a queued message makes runnable exactly the blocked tasks that may read it |
| `TaskEffects.SendMeans` | kernel/syscall.c:119-186 | a send succeeds exactly when length, buffer, target and queue are good, queues the caller's message and wakes those it is for |
| `TaskEffects.WakeMeans` | process/scheduler.c:468-486 | waking a slot resumes a blocked task in it and touches no other |
| `TaskEffects.KernelReceiveMeans` | kernel/ipc.c:96-142 | the kernel reads the oldest message, whoever it is for, when that fits |
| `TaskEffects.PriorityMeans` | process/scheduler.c:436-452 | a priority from 1 to 8 can be set before the start |
| `TaskEffects.SpawnMeans` | process/scheduler.c:390-434 | a spawn puts a runnable task with a fresh identifier into the first vacant or the next slot, within the task count, or leaves every other slot alone |
| `TaskEffects.BlockedThenWoken` | kernel/ipc.c:39-70 | a task that blocks becomes runnable with the first message it may read |
| `TaskEffects.WaitingRun` | kernel/syscall.c:187-217 | a run in which a task blocks and a later send makes it runnable |
| `TaskProgress.IssuedToTask` | process/scheduler.c:593-632 | an identifier given out is the new task's |
| `TaskProgress.NeverReissued` | process/scheduler.c:603-621 | no run gives out the same identifier twice, and each belongs to the user task it was made for |
| `TaskProgress.NextComesFirst` | process/scheduler.c:271-282 | the next task is nearer to every waiting runnable task |
| `TaskProgress.StepAdvances` | process/scheduler.c:328-366 | no event makes a waiting runnable task unrunnable or takes its turn further away, and each timer interrupt brings it nearer |
| `TaskProgress.SwitchGivesFullSlice` | process/scheduler.c:352-366 | a task that gets the processor gets a slice of its priority |
| `TaskProgress.SliceIsKept` | process/scheduler.c:346-351 | timer interrupts leave the current task running until its slice is used up |
| `TaskProgress.SliceEnds` | process/scheduler.c:346-366 | and then hand the processor to another runnable task |
| `TaskProgress.BoundedWaiting` | process/scheduler.c:328-366 | with a fixed task count a runnable task becomes current within 8 x (task count - 1) timer interrupts, whatever else happens |
| `TaskTable.Table.constructor` | process/scheduler.c:368-388 | the initial state |
| `TaskTable.Table.FindNextRunnable` | process/scheduler.c:271-282 | the modular search finds the nearest runnable task |
| `TaskTable.Table.HasOtherRunnable` | process/scheduler.c:284-295 | whether another task can run |
| `TaskTable.Table.ReapPendingStacks` | process/scheduler.c:145-174 | frees the stacks of ended tasks but the current one |
| `TaskTable.Table.SwitchFrom` | process/scheduler.c:341-366 | uses up a tick or switches, as specified |
| `TaskTable.Table.OnUserExit` | process/scheduler.c:659-688 | exit and fault: purge both ways, end, reap, switch |
| `TaskTable.Table.ScheduleFromFrame` | process/scheduler.c:328-366 | timer and yield, including the check of the return address |
| `TaskTable.Table.WakeTask` | process/scheduler.c:468-486 | wakes a blocked task with a fresh slice |
| `TaskTable.Table.WakeTaskId` | process/scheduler.c:488-506 | wakes by identifier |
| `TaskTable.Table.WakeUserTasks` | process/scheduler.c:508-521 | wakes every blocked user task |
| `TaskTable.Table.IsActiveUser` | process/scheduler.c:523-542 | whether an identifier is a live user task's |
| `TaskTable.Table.BlockCurrentTask` | process/scheduler.c:544-556 | blocks only when another task can run |
| `TaskTable.Table.SendFromTo` | kernel/ipc.c:39-70 | queues, then wakes those the message is for |
| `TaskTable.Table.SendCall` | kernel/syscall.c:119-186 | both send calls with every error reply |
| `TaskTable.Table.ReceiveCall` | kernel/syscall.c:138-159 | receive with every error reply |
| `TaskTable.Table.ReceiveWaitCall` | kernel/syscall.c:187-217 | receive, or block and switch |
| `TaskTable.Table.FindTaskSlot` | process/scheduler.c:97-112 | the reusable or new slot |
| `TaskTable.Table.AddTask` | process/scheduler.c:390-434 | adds a task with a new identifier, with every failure |
| `Heap.FirstFit` | memory/heap.c:190-204 | the first free block that is large enough |
| `Heap.GrowthFor` | memory/heap.c:109-124 | the least whole pages that suffice, and none exactly when they would not fit |
| `Heap.InOrder` | memory/heap.c:109-188 | earlier blocks end before later ones begin |
| `Heap.GrownKeeps` | memory/heap.c:142-187 | growth keeps the row whole and live blocks as they are |
| `Heap.TakenKeeps` | memory/heap.c:206-231 | splitting and taking keep the row whole, and exactly one new block comes into use |
| `Heap.MergedKeeps` | memory/heap.c:233-257 | merging two free neighbours keeps the row whole and live blocks as they are |
| `Heap.FreedKeeps` | memory/heap.c:348-361 | freeing takes exactly one block out of use and leaves no two free neighbours |
| `HeapRuns.AllocateEffect` | memory/heap.c:276-304 | an allocation hands out a block not in use of the size asked for and changes no other; it fails exactly for a bad size, before initialisation, or for want of room |
| `HeapRuns.InitialiseMeans` | memory/heap.c:259-274 | initialisation makes the first page one free block, once |
| `HeapRuns.AllocateIff` | memory/heap.c:276-304 | an allocation succeeds exactly for a size up to 16 MiB less 20 bytes with a block free for it or room to grow |
| `HeapRuns.AllocateFirst` | memory/heap.c:190-231 | the block handed out is the lowest that fits and less than 48 bytes larger than needed |
| `HeapRuns.ReleaseEffect` | memory/heap.c:326-363 | releasing a live pointer takes exactly that block out of use |
| `HeapRuns.StepKeepsInv` | memory/heap.c:259-363 | every operation keeps tiling, alignment, no free neighbours, and used bytes equal to the live requests |
| `HeapRuns.Run` | memory/heap.c:259-363 | every run from an empty heap satisfies the invariant |
| `HeapRuns.LiveBlocksApart` | memory/heap.c:69-82 | live payloads with their guard words are aligned, mapped, and apart from every other block and header |
| `HeapRuns.NothingUsed` | memory/heap.c:233-257 | with nothing in use the heap is one free block |
| `HeapRuns.AllFreed` | memory/heap.c:326-363 | releasing every live pointer in any order leaves one block of the mapped size less one header |
| `HeapList.HeadersAreOk` | memory/heap.c:57-67 | every header of the list passes the corruption check |
| `HeapList.AlteredHeaderRefused` | memory/heap.c:57-67 | a header with one field altered fails the check |
| `HeapList.SpliceLinked` | memory/heap.c:206-257 | exchanging a stretch of the list needs only its own headers and the next one's back link rewritten |
| `HeapList.CutLinked` | memory/heap.c:206-231 | the header writes of a split give the list of the split row |
| `HeapList.JoinLinked` | memory/heap.c:233-257 | the header writes of a merge give the list of the merged row |
| `HeapList.ExtendedLinked` | memory/heap.c:173-186 | so do those of a new last block |
| `KernelHeap.Store.FindFreeBlock` | memory/heap.c:190-204 | walking the list finds the first fit and meets no corrupt header |
| `KernelHeap.Store.FindLast` | memory/heap.c:156-168 | walking the list finds the last block, in increasing addresses |
| `KernelHeap.Store.ExpandHeap` | memory/heap.c:109-188 | grows as specified, or refuses and changes nothing |
| `KernelHeap.Store.SplitBlock` | memory/heap.c:206-231 | splits the block on the list |
| `KernelHeap.Store.MergeWithNext` | memory/heap.c:233-257 | merges on the list; neither corruption check fires; the header taken off the list stays behind, marked free |
| `KernelHeap.Store.HeapInit` | memory/heap.c:259-274 | one page, once |
| `KernelHeap.Store.Kmalloc` | memory/heap.c:276-304 | allocates as specified, sets the new guard word and keeps every other one, and overwrites no header elsewhere |
| `KernelHeap.Store.FreeBlock` | memory/heap.c:348-361 | marks, merges forward, merges back |
| `KernelHeap.Store.Kfree` | memory/heap.c:326-363 | stops the kernel exactly when the argument is neither null nor a live block with its guard word intact, unless bytes where no header is known pass every check made on them; releases as specified otherwise |
| `KernelHeap.FreeTwice` | memory/heap.c:326-363 | freeing a live block twice stops the kernel, whatever is freed in between |
| `KernelHeap.FreeCheck` | memory/heap.c:336-346 | the checks tell live pointers from free blocks |
| `Hpet.Divide` | drivers/hpet_time.c:7-26 | shift-and-subtract gives the quotient exactly when no rest on the way is shifted out of 32 bits, and then the remainder too |
| `Hpet.ShortDivisors` | drivers/hpet_time.c:7-26 | which is so for every value exactly for divisors up to 2^31 |
| `Hpet.Multiply` | drivers/hpet_time.c:28-49 | shift-and-add gives the product, cut off at 2^64 - 1 |
| `Hpet.SplitProduct` | drivers/hpet_time.c:64-75 | converting whole and fractional ticks apart loses nothing |
| `Hpet.TicksToNanoseconds` | drivers/hpet_time.c:51-76 | the smaller of floor(ticks x period / 10^6) and 2^64 - 1, for every tick count and legal period |
| `Hpet.Monotone` | drivers/hpet_time.c:51-76 | later ticks never convert to earlier times |
| `Hpet.Counter.Extend` | drivers/hpet_time.c:78-89 | stored words that track the true counter still do after a sample less than 2^32 ticks later, and the result is the true counter below 2^64 |
| `Hpet.SampleTracks` | drivers/hpet_time.c:78-89 | a sample less than 2^32 ticks later keeps the stored words equal to the true counter modulo 2^64 |
| `Hpet.ExtendsExactlyWhen` | drivers/hpet_time.c:78-89 | below 2^64 the extended value is right exactly when less than 2^32 ticks have passed |
| `Hpet.TraceTracks` | drivers/hpet_time.c:78-89 | over any trace of close samples the extended counter is the true one until the wrap count overflows |
| `Fat.MountedRegions` | fs/fat.c:335-371 | reserved sectors, FAT copies, root directory and clusters follow each other inside the volume, and every cluster's entry lies inside each copy |
| `Fat.ChainIsLinked` | fs/fat.c:477-508 | a chain is clusters in range, all FAT copies agreeing on each followed link |
| `Fat.FileFromIsChain` | fs/fat.c:477-508 | reading link by link gives exactly the sectors of the chain in order, cut to the size |
| `Fat.CycleFrom` | fs/fat.c:477-508 | from a cluster linked to itself any number of bytes is read, by repeating it |
| `FatMeaning.MountIff` | fs/fat.c:282-372 | a volume mounts exactly when its boot sector, byte by byte, describes FAT16 and every copy passes the probe |
| `FatMeaning.VolumeMeans` | fs/fat.c:360-371 | where the parts of a mounted volume begin, from the bytes of its boot sector |
| `FatMeaning.LinkIff` | fs/fat.c:104-132 | a cluster is linked to another exactly when every copy of the table says so |
| `FatMeaning.ChainIff` | fs/fat.c:477-508 | a chain is exactly a list of clusters each linked to the next |
| `FatMeaning.FileByteAt` | fs/fat.c:484-495 | byte i of a file is byte i modulo 512 of the sector that the chain puts there |
| `FatMeaning.ReadIff` | fs/fat.c:453-513 | a file is read exactly when it is plain, fits, and has a chain with all its sectors on the disk |
| `FatIo.ProbeTables` | fs/fat.c:352-360 | the loop over the copies accepts exactly when each probed sector is read and has the media mark |
| `FatIo.MountShowsTable` | fs/fat.c:352-360 | every mounted volume with a given boot sector has the media mark in a copy exactly when that copy begins below sector 2^32 |
| `FatIo.Mount` | fs/fat.c:282-372 | mounts exactly the volumes the checks describe, with the regions in order |
| `FatIo.ReadSector` | fs/fat.c:12-19 | only sectors of the volume are read |
| `FatIo.ReadFatEntry` | fs/fat.c:104-132 | the next cluster, exactly when every copy agrees and it is neither bad nor an end mark |
| `FatIo.ReadCluster` | fs/fat.c:484-495 | copies a cluster's bytes and nothing else |
| `FatIo.GuardNeverStops` | fs/fat.c:459-482 | the bound on clusters is never what ends a read |
| `FatIo.FollowChain` | fs/fat.c:477-508 | fills the buffer with the file, or fails exactly when the chain or a sector does |
| `FatIo.ReadFile` | fs/fat.c:453-513 | returns exactly the file's bytes within capacity, or fails exactly when refused, broken or unreadable; nothing behind the file is touched |
| `FatIo.CycleIsRead` | fs/fat.c:453-513 | a file whose first cluster is linked to itself is read as that cluster repeated |
| `Capabilities.ParsedLayoutIsValid` | drivers/pci_msi.c:114-147 | every layout the parser returns passes the register code's check |
| `Capabilities.NodeMeans` | drivers/pci_msi.c:114-147 | which control bits give the width, the masks and the counts, when a node is accepted, and where its registers lie |
| `Capabilities.ParseIffChain` | drivers/pci_msi.c:149-201 | the parser returns a node exactly when it ends a chain from byte 0x34 on a device with a list |
| `Capabilities.ChainIsFollowed` | drivers/pci_msi.c:149-201 | the walk finds the interrupt node at the end of any valid acyclic chain |
| `Capabilities.FollowedIsChain` | drivers/pci_msi.c:149-201 | whatever the walk finds is at the end of such a chain |
| `Capabilities.AllVisited` | drivers/pci_msi.c:174-200 | 48 distinct valid offsets are all there are |
| `Capabilities.ParseLayout` | drivers/pci_msi.c:149-201 | the walk limited to 48 nodes gives what the walk without a limit gives |
| `Msi.GetPut` | drivers/pci_msi.c:102-112 | a write that takes effect reads back |
| `Msi.RegistersApart` | drivers/pci_msi.c:45-75 | the registers of a valid layout do not overlap |
| `Msi.RegisterOffsets` | drivers/pci_msi.c:45-75 | where the registers lie |
| `Msi.ControlWords` | drivers/pci_msi.c:328-333 | enabling and disabling change the enable bit, clear the message count and keep every other bit |
| `Msi.MessageOkIff` | drivers/pci_msi.c:203-220 | the accepted messages are those for some processor and some device vector |
| `Msi.ProgrammableIff` | drivers/pci_msi.c:293-327 | when programming is possible |
| `Msi.SameReadings` | drivers/pci_msi.c:222-291 | a device that differs in its registers only and reads the same in each is the same |
| `Msi.Device.WriteAndCheck` | drivers/pci_msi.c:102-112 | tells whether the write took effect, and disturbs no other register |
| `Msi.Device.Restore` | drivers/pci_msi.c:222-291 | success means every register reads as saved and the saved state is cleared; failure keeps the saved state; without a dropped write it succeeds exactly for a valid saved state and never writes the message while the device could send it |
| `Msi.Device.Program` | drivers/pci_msi.c:293-384 | success means the message is in place, the enable bit set, the message count and the first mask bit cleared and every other bit kept, and nothing was written to the message while the device could send it; failure with the saved state cleared means the device is unchanged; without a dropped write it succeeds exactly when the checks pass |
| `Msi.Device.WriteNew` | drivers/pci_msi.c:331-378 | the steps in order, each only after the one before took effect, the message only while disabled and masked; all of them when no write is dropped |
| `Msi.RestoreUndoesProgram` | drivers/pci_msi.c:222-384 | a successful restore after a successful program gives the device back as it was |

## Left out

- Null-pointer checks: strings, buffers and out-parameters are values or references that exist.
- Hardware access (ATA, AHCI, ports, control registers, TLB): the disk is a sequence of sectors with failing reads and lost writes, the current directory a variable.
- PAE page tables, write protection of kernel text and the framebuffer mapping: only the two-level tables are modelled.
- Bit packing of the frame allocator's bitmaps and of the walk's visited marks into words: these are arrays of booleans and sets.
- Validation of the boot record: the memory map is taken as given.
- Randomness of the load bias and of stack placement: the bias is an argument that the checks may refuse.
- Boot-time self-tests, counters kept for statistics, and `kcalloc`.
- `scheduler_block_task`: used by a boot-time self-test only; blocking happens through the receive call.
- Contents of saved interrupt frames and stack canaries: a task has a frame or not, and its stack is intact.
- The process table of `user_process.c` and its limits: every user task counts as owned, and a process is spawned and ended in one go.
- FAT directory search and path parsing (`find_entry_in_directory`, `find_path`, `short_name_from_text`): a directory entry is the input of the file read.
- Payload bytes of heap blocks: headers and guard words are kept by address, which the layout lemmas justify.
- KernelHeap.Store.Kfree: says when bytes where no header is known pass for a block in use, and not what freeing them does to the heap.
- Read-only bits of device registers: a register write takes effect as a whole or not at all.
- Freeing page-table frames through the frame allocator: runs are those in which callers free only frames that are not part of a page structure (`SpaceRuns.Admissible`).
- Hpet.Divide: takes divisors above zero.
- Msi.Device.Restore: a saved control word and data word are taken to be 16 bits wide, as their C type makes them.
- ElfLoader.Loader.Load: one base is tried for a position-independent image, not up to 32 at random.
- ElfLoader.Loader.Unload: requires that the span held nothing before the load, or has a hole.
- ProcessLife.WholeLife: requires that the kernel maps nothing in the image range; the stack region is an argument.
