# SantOS: storage, memory and text editing

SantOS is a small x86-64 kernel. This project is a Dafny model of the parts of it
that keep state which must stay consistent, with proofs of what they keep:

- the FAT12 file system over the floppy driver, and the two file system calls
  (modules `Floppy`, `FatTable`, `Directory`, `Volumes`, `VolumeInvariant`, `Files`,
  `StrayWrites`, `FileRuns`, `FileHistory`, `FullDisk`, `Fat12Driver`, `Syscalls`);
- the page-frame allocator and four-level paging (`PageFrames`, `PageTables`, `Paging`, `VmmRuns`);
- the kernel heap (`HeapBlocks`, `KernelHeap`);
- SEdit's rows, cursor, loading and saving (`EditorText`, `SEdit`);
- the keyboard ring, `strtok`, and the code that `sasm` emits (`Keyboard`, `Strtok`, `Assembler`).

`Bytes` and `Collections` hold what several of them use. Three files are not named after
their module: `Volume.dfy` (`Volumes`), `Fat12.dfy` (`Fat12Driver`) and `Editor.dfy` (`SEdit`).
`dafny verify dfyconfig.toml` checks all of it.

## How it is built

Code that updates things in place is a class or a method over arrays, with the loops of
the source; code that only computes is a function. Each driver comes in two layers. The
lower one is the class: its fields are the source's variables, and each method is proved
to compute a function on values (`Fat12Driver.Fat12.Write` computes
`Volumes.WriteChain`, `KernelHeap.Heap.Malloc` computes `HeapBlocks.Malloc`,
`SEdit.Editor.EnterKey` computes `EditorText.Entered`). The upper one is about those
functions: an invariant that every operation keeps, lemmas that say what one operation
means in plainer terms (a file's bytes, a flat map from virtual pages, a flat text with
one cursor), and theorems over whole runs.

What the upper layers say:

- **Files.** A volume is well formed when every file's chain is finite, stays in the
  volume, ends in a link of at least 0xFF8, shares no cluster with another chain, and
  every cluster is free, on exactly one chain, or counted as lost. Every run of creates,
  writes and deletes, under any names, keeps this, also when writes stop on a full disk.
  A write that returns n > 0 returns the full length; the name then reads back as exactly
  those bytes, and every other name but deleted ones reads as before. Over whole runs a
  name reads as its last successful write until it is created, written or deleted again,
  unless something is written to a deleted row. The run-coalescing read equals a walk
  cluster by cluster, on cyclic chains, too.
- **Paging.** As long as page 0, the tables and the frames that hold the allocator's bitmap
  are marked used, and no table lies in the bitmap, every call keeps that, and the tables
  form a tree. Mapping and
  unmapping add and remove exactly one page of a flat map, and succeed exactly under the
  conditions stated; a failed call, even one that created tables, changes no
  translation; a range call fails exactly when a page of the range is mapped or the tables
  it needs do not fit, and is rolled back completely. Over every run of these calls beside
  other kernel code that takes and returns frames, singly and in runs, no frame is held by
  others and a page table or a part of the bitmap at once, and the 2 MiB pages of the boot map stay as they are.
- **Heap.** After every legal run the blocks tile the region byte by byte, the free list
  holds exactly the blocks that are not live, once each, every live block is as large as
  was asked for (requests above 2^64 - 16 bytes never are) and wastes less than 55 bytes on
  the request it was handed out for, and used plus free is the region. `malloc` fails exactly when no free block is large enough, and `realloc` moves
  the bytes it should and touches no other live payload.
- **SEdit.** Seen through "lines joined by newlines, cursor as one offset", typing and
  Enter insert one character unless the line or the document is full, Backspace removes
  the one before the cursor unless the joined line would be too long, and Left and Right
  move by one: a run of keys gives exactly the text of this flat editor. The flat view
  loses nothing: it determines the document.

## What the proofs found in the code

Each item names the lemmas that say exactly when the code does what it is meant to do, or
give an input on which it does not.

- `find_free_cluster` scans to 0xFF0 whatever the size of the volume. It stays inside the
  volume if and only if a cluster is free or no entry beyond the volume reads as free
  (`FatTable.ScanStaysInVolume`); on a formatted floppy with every cluster in use it
  returns the cluster behind the last (`FatTable.FullVolumeOverruns`). The write call is
  the intended one if and only if it does not come to a full disk, or no entry beyond the
  volume reads as free (`FullDisk.FullDiskTheorem`), and it comes to a full disk exactly
  when there is a place for the file but no room for its bytes (`FullDisk.FillsDiskExact`).
- The tests against 0xE5 in `fat12_open` compare a signed `char` and never hold, so
  `fat12_open` sees deleted entries. It agrees with the other lookups if and only if the
  name does not begin with that byte or no row before the end mark bears it
  (`Directory.OpenAgrees`); after any delete there is such a row (`Directory.DeletedAnswers`,
  `Files.DeleteShowsMarked`).
  A file created under such a name is found by open but not by update or delete, the next
  create takes its slot, and its cluster is lost (`FileRuns.CreateLosesCluster`). A write
  under such a name always returns 0, and it can damage no file if and only if the links
  from the row it opens lead to no file's cluster (`FileRuns.MarkedWriteIntact`). Two
  creates, two deletes and a write on a formatted volume leave a row that leads into the
  file written last (`FileHistory.StaleRowDamages`).
- `fat12_read` rounds the remaining size up in 32 bits. For the last 511 sizes below
  4 GiB the count of sectors is 0, so the run is skipped unread
  (`Volumes.NeededSectorsExact`, `Volumes.ReadLoopExact`). It copies whole sectors: a read
  stays inside the caller's buffer if and only if it delivers no byte of the buffer's last
  incomplete sector (`Volumes.TouchedFits`).
- `fat12_create` does not look for an existing name. A deleted name is gone if and only if
  no second live entry bears it (`Files.DeleteRemoves`); after two creates one is left
  (`FileRuns.DuplicateSurvives`).
- `pmem_alloc_page` returns page number times 4096 without `memory_start`, and `pmem_init`
  marks the first pages in place of those that hold the bitmap. The boot page tables in
  pages 1 to 3 are out of its reach if and only if more than 98304 pages are managed
  (`PageFrames.BootTablesSafe`); the bitmap's frames if and only if it lies behind the last
  managed page, or fits the pages marked (`PageFrames.BitmapSafe`); the frames of the
  kernel's heap if and only if at most 4096 pages are managed (`PageFrames.HeapSafe`). So the
  memory manager's invariant holds at the start if and only if more than 98304 pages are
  managed and the bitmap lies behind them all (`Paging.Vmm.constructor`). On the usual
  machine, with 1 GiB managed from 8 MiB on, it does not: the 2041st page handed out is the
  bitmap's first, and once a page table is made of it 32768 pages read as free, the one
  with the PML4 among them (`PageFrames.KernelLosesBitmap`).
- `pmem_alloc_pages` calls itself again in the same state when the run at the first free
  page is too short. It never ends if and only if enough pages are free but one of that run
  is used (`PageFrames.RetriesForEver`), as with two free pages that are not neighbours
  (`PageFrames.TwoPagesApart`).
- Page 0 is freed by exactly the addresses 1 to 4095, not by its own, which is taken for
  null (`PageFrames.FreesPageZero`).
- `align_size` wraps for the last 15 sizes below 2^64, and `calloc` multiplies without a
  check: a block is as large as asked for if and only if the true size is at most
  2^64 - 16 (`HeapBlocks.MallocLargeEnough`, `HeapBlocks.CallocLargeEnough`, over whole runs
  `HeapBlocks.RunsKeep`, with an example in `HeapBlocks.CallocOverflows`).
- `load_file` runs over the end of its rows if and only if the file has 1000 or more
  newlines and ends in one (`EditorText.LoadFits`); saving always adds such a newline, so
  each save and load adds an empty line, and a full document cannot be loaded again
  (`EditorText.SaveThenLoad`).
- `save_file` cuts longer texts off without an error; `EditorText.SaveComplete` says
  exactly which.

Where a comment and the code differ, the model follows the code: the comment on the read
system call says it returns 0 on error, and the code returns -1.

## Assumptions

- Sectors are 512 bytes, clusters one sector, the disk has 2880 sectors and never fails,
  except that a transfer beyond its last sector does (`FullDisk`). The three areas of the
  volume follow each other and the FAT covers every data cluster (`Geometry.Supported`).
- Every FAT link is 0, at least 0xFF8, or a cluster of the volume; the first cluster in
  every row of the root directory that was ever used is one, too, unless no loop follows
  it, being below 2 or at least 0xFF8; entries beyond the volume up to the scan's bound are not 0 (`Volume.Sound`), except in `FullDisk`, where they are
  anything. The scan's bound 0xFF0 is a parameter, because `fat_buffer` ends before it;
  the model needs the memory behind `fat_buffer` to be there.
- Memory that a read copies to is there (`Volumes.Touched` says how much), and a read of
  more than 2^32 - 512 bytes is made on a chain that ends.
- Paging: `flags` has no address bits, and frames are numbered by address over 4096. The
  bitmap's bytes are kept beside the frames: zeroing a frame zeroes the bytes of the bitmap
  in it, and every other store to a table is proved to miss the bitmap. Other kernel code
  uses only frames it holds; `VmmRuns.Run` starts from any that it holds already.
- Heap: the region does not start in the first 40 bytes of memory, `free` and `realloc`
  get null or live pointers, and the product in `calloc`, taken modulo 2^64, is not one of
  the last 15 sizes, unless no block is free.

## Model

| member | source | states |
|---|---|---|
| Floppy.ChsBijection | src/fdc.c:255-259 | LBA to (cylinder, head, sector) is a bijection between 0..2879 and the valid addresses |
| Floppy.ReadTrack | src/fdc.c:309-347 | one transfer is non-empty, stays on one track, and delivers the sectors it covers |
| Floppy.ReadSectors | src/fdc.c:303-352 | the buffer receives exactly the bytes of sectors lba..lba+count-1 in order, and nothing else of it changes |
| Floppy.WriteSectors | src/fdc.c:355-418 | the sectors from lba on hold the buffer's bytes in order, and no other sector changes |
| FatTable.WordArithmetic | src/fat12.c:55-85 | the division and remainder forms used in the model are the source's masks and shifts on 16-bit words |
| FatTable.Set | src/fat12.c:74-85 | the packed table is a 12-bit array: the entry takes the value modulo 4096, every other entry keeps its own, and only two bytes are written |
| FatTable.Packed | src/fat12.c:55-71 | three bytes hold two entries: the even one has the first byte and the low half of the second, the odd one the high half and the third |
| FatTable.FirstFree | src/fat12.c:88-96 | the result is the least entry from the start on that reads 0, or 0 when there is none |
| FatTable.FindFreeCluster | src/fat12.c:88-96 | the scan loop over the packed table finds the least free entry from 2 up |
| FatTable.ScanStaysInVolume | src/fat12.c:88-96 | scanning past the volume gives the same cluster exactly when one is free in the volume or none beyond it reads free |
| FatTable.FullVolumeOverruns | src/fat12.c:88-96 | with all clusters in use and zeros behind them the scan returns the cluster behind the last |
| Directory.PatchTable | src/fat12.c:167-177 | patching one entry of one directory sector changes that row of the table and no other |
| Directory.NewEntry | src/fat12.c:707-714 | the new entry has the name, the first cluster and size 0 |
| Directory.WithSize | src/fat12.c:168-169 | the entry has the new size and otherwise the same name and first cluster |
| Directory.FoundIsFirstMatch | src/fat12.c:135-181 | a successful lookup found the first live entry of that name, with no end mark before it |
| Directory.LookupFinds | src/fat12.c:135-181 | the first live entry of that name is what the lookup finds |
| Directory.NotFound | src/fat12.c:135-181 | when the lookup fails no live entry has the name |
| Directory.OpenAgrees | src/fat12.c:508-551 | open agrees with update and delete exactly when the name does not begin with 0xE5 or no row before the end mark bears it |
| Directory.DeletedAnswers | src/fat12.c:508-551 | after a delete open finds a row under the name with its first byte replaced by 0xE5, and the other lookups find none |
| Directory.FillField | src/fat12.c:114-132 | the character loop computes the padded field of an 8.3 name and how far it read |
| Directory.UpperLetters | src/fat12.c:120-121 | the 26 small letters become capital ones and nothing else changes |
| Directory.NameAt | src/fat12.c:114-132 | every byte of the 8.3 name of any string: the stem up to the first dot or eight characters in upper case, spaces, up to three characters behind a dot right after it, spaces |
| Directory.StemAndExtension | src/fat12.c:487-507 | the name of stem, dot and extension, byte by byte; what the extension has beyond three characters is cut off |
| Directory.LongStem | src/fat12.c:487-507 | a stem of more than eight characters is cut off and loses its extension |
| Directory.NamesAgree | src/fat12.c:487-507 | two such names without spaces convert alike exactly when stem and extension agree in upper case |
| Directory.ConvertName | src/fat12.c:114-132 | the loops compute that 8.3 name |
| Directory.NamesFoldCase | src/fat12.c:114-132 | file names that differ only in case convert to the same 8.3 name |
| Volumes.RunWalk | src/fat12.c:565-595 | reading a run of consecutive clusters in one piece gives what the walk along the links gives, and the walk goes on behind the run |
| Volumes.RunGrows | src/fat12.c:570-580 | the run grows by one cluster exactly as the inner loop extends it, inside the volume |
| Volumes.NeededSectorsExact | src/fat12.c:582-584 | the 32-bit rounding gives the needed sectors exactly up to 2^32 - 512 bytes, and 0 above |
| Volumes.ReadLoopExact | src/fat12.c:555-599 | a read delivers what the walk does exactly up to 2^32 - 512 bytes, or when there is no chain |
| Volumes.TouchedFits | src/fat12.c:582-595 | a read of n bytes stays inside a buffer exactly when n does not reach into the buffer's last incomplete sector |
| Volumes.FreeChain | src/fat12.c:794-801 | the freeing loop ends on any in-range FAT, cyclic ones included, and only ever frees entries |
| Volumes.WriteChain | src/fat12.c:602-653 | writing keeps the volume sound and the directory as it is, with or without running out of clusters |
| VolumeInvariant.ClustersConserved | src/fat12.c:602-822 | free clusters, the lengths of all chains and lost clusters add up to the volume |
| VolumeInvariant.LinkKeeps | src/fat12.c:628-645 | appending a free cluster keeps the invariant, lengthens that chain alone, and takes one free cluster |
| VolumeInvariant.CreateKeeps | src/fat12.c:656-733 | create keeps the invariant and takes exactly one cluster that was free: a new chain for the slot, or, under a name beginning with 0xE5, a lost cluster |
| VolumeInvariant.FreeChainFreesChain | src/fat12.c:794-801 | on a chain the freeing loop clears exactly the chain's clusters |
| VolumeInvariant.DeleteKeeps | src/fat12.c:736-822 | delete keeps the invariant, frees exactly the file's clusters, and none of them was free before |
| VolumeInvariant.UpdateSizeKeeps | src/fat12.c:109-182 | recording a size keeps the invariant and all chains |
| Files.WalkReadsChain | src/fat12.c:555-599 | the walk from a chain's i-th cluster reads the chain's contents from there, up to the size asked for |
| Files.WriteKeeps | src/fat12.c:602-653 | a write keeps the invariant, grows only its own chain, changes no data outside it, and either stores all bytes in the chain or stops with no cluster free and more bytes than the chain holds |
| Files.DeleteOthers | src/fat12.c:736-822 | every other name not beginning with 0xE5 reads as before a delete |
| Files.DeleteShowsMarked | src/fat12.c:482-552 | a name beginning with 0xE5 that read as absent can be read after a delete |
| Files.DeleteRemoves | src/fat12.c:736-822 | after a delete the name is absent exactly when no second live entry bears it |
| StrayWrites.WriteAnywhereKeeps | src/fat12.c:602-653 | a write that starts at any cluster, a file's or not, keeps the invariant; chains at most grow at their ends |
| StrayWrites.StrayWriteHarmless | src/fat12.c:602-653 | a write whose links lead to no file's cluster changes no chain and no file's bytes |
| StrayWrites.StrayWriteHits | src/fat12.c:602-653 | a write long enough to reach a file's cluster overwrites it |
| FileRuns.WriteFileTheorem | src/syscall.c:168-192 | the write call returns the length exactly when there is room, else 0; then the name reads back as the bytes written, other names resolve as before, and no other file's entry, chain or contents changed; under a name beginning with 0xE5 it returns 0 and keeps the invariant |
| FileRuns.MarkedWriteIntact | src/syscall.c:168-192 | a name beginning with 0xE5 can be written to without changing any file's bytes exactly when the links from the row that open finds lead to no file |
| FileRuns.WriteOthers | src/syscall.c:168-192 | every other name not beginning with 0xE5 reads as before a write, also one that stopped on a full disk |
| FileRuns.CreateLosesCluster | src/fat12.c:656-733 | a file created under a name beginning with 0xE5 is found by open in the slot the next create takes, not by update or delete, and its cluster is in no file's chain |
| FileRuns.DuplicateSurvives | src/fat12.c:656-822 | after creating a name twice and deleting it, the name can still be read |
| FileRuns.RunsKeep | src/fat12.c:602-822 | every run of creates, writes and deletes keeps the invariant and invents no cluster; without names beginning with 0xE5 it loses none |
| FileHistory.FormattedKeeps | src/fat12.c:602-822 | a volume with all clusters free and no row ever used is well formed |
| FileHistory.RunLeaves | src/fat12.c:602-822 | a name that no call of a run mentions reads as before the run, as long as nothing is written under names beginning with 0xE5 |
| FileHistory.LastWriteReads | src/syscall.c:168-192 | after any run a name reads as its last successful write, if no later call mentions it and nothing is written later under names beginning with 0xE5 |
| FileHistory.StaleRowDamages | src/syscall.c:168-192 | on a formatted volume two creates, two deletes and a write of two clusters leave a deleted row that leads into the new file: writing one byte under its name changes what the file reads as |
| FullDisk.ChainsCompared | src/fat12.c:602-653 | with anything in the FAT behind the volume, a write does what it does on a FAT with nothing free there, exactly when it does not stop on a full disk or nothing there reads as free |
| FullDisk.FullDiskTheorem | src/syscall.c:168-192 | the same for the write call under any name: exactly when it does not come to a full disk, or nothing behind the volume reads as free |
| FullDisk.FillsDiskExact | src/syscall.c:168-192 | the call comes to a full disk exactly when the name has a chain or a slot but the bytes exceed the room |
| FullDisk.RawIsWriteFile | src/syscall.c:168-192 | on a sound volume the call on any tail is the write call |
| Fat12Driver.Geometry.OfIsLaidOut | src/fat12.c:211-214 | in bytes of the boot sector: the FAT copies follow each other behind the reserved sectors, the root follows the last, holds its rows with less than a sector to spare, and the data follow |
| Fat12Driver.Geometry.StandardFloppy | src/fat12.c:211-214 | a 1.44 MB floppy's boot sector puts the FAT at 1 with 9 sectors, the root at 19 and the data at 33 |
| Fat12Driver.Geometry.ViewAt | src/fat12.c:565-609 | cluster c lies in sector data start + c - 2, row i of the root in sector root start + i / 16 at byte 32 * (i % 16) |
| Fat12Driver.Fat12.Init | src/fat12.c:185-230 | rejects a boot sector with a zero divisor, else sets that layout and loads the first FAT copy, its sectors counted in 8 bits; mounting a saved volume again changes nothing |
| Fat12Driver.Fat12.WriteFatTable | src/fat12.c:99-106 | the first FAT copy becomes the table in memory; root and data sectors stay |
| Fat12Driver.Search | src/fat12.c:135-181 | the sector and entry loops find what the lookup on the whole table finds, with its sector in the buffer |
| Fat12Driver.Fat12.Open | src/fat12.c:482-552 | gives the size, first cluster and kind of the entry the lookup finds, or -1 |
| Fat12Driver.Fat12.UpdateSize | src/fat12.c:109-182 | the volume becomes the one with that size recorded, or stays as it is and -1 is returned |
| Fat12Driver.Fat12.Create | src/fat12.c:656-733 | the volume and the file are those of the specification, or nothing changes and -1 is returned |
| Fat12Driver.Fat12.FreeClusters | src/fat12.c:794-801 | the loop frees what the specification frees and ends on cyclic chains |
| Fat12Driver.Fat12.Delete | src/fat12.c:736-822 | the volume is that of the specification, or nothing changes and -1 is returned |
| Fat12Driver.Fat12.FindRun | src/fat12.c:568-580 | finds the longest run of consecutive linked clusters, up to 250, and the link behind it |
| Fat12Driver.Fat12.ReadRun | src/fat12.c:565-597 | one transfer reads a non-empty front of what is still wanted, or nothing above 2^32 - 512 bytes; the walk from the next cluster gives the rest; nothing else of the buffer changes |
| Fat12Driver.Fat12.Read | src/fat12.c:555-599 | returns the bytes and count of the walk cluster by cluster, or none above 2^32 - 512 bytes, ends on cyclic chains, and changes neither the volume nor the buffer behind the last sector copied |
| Fat12Driver.Fat12.WriteRound | src/fat12.c:612-650 | one round writes one padded sector and takes and links a free cluster exactly when data is left and the chain has ended |
| Fat12Driver.Fat12.Write | src/fat12.c:602-653 | the volume and the result are those of the specification |
| Fat12Driver.FillSector | src/fat12.c:612-626 | every byte of the sector is the next of the data, or 0 behind its end |
| Syscalls.ReadFileCall | src/syscall.c:135-153 | returns the file's first bytes, as many as fit, or -1 for an absent name or a count from 2^31 on, and changes neither the disk nor the buffer behind the last sector copied |
| Syscalls.WriteFileCall | src/syscall.c:168-192 | open or else create, write, record the size: for any name and length the disk and the result are those of the specification |
| PageFrames.BitUpdates | src/memory.c:97-115 | setting or clearing one bit of a bitmap byte leaves the other seven |
| PageFrames.UsedUpdates | src/memory.c:97-108 | setting or clearing a page's bit changes that page's state and no other page's |
| PageFrames.FirstFreePage | src/memory.c:118-125 | the result is the first page from the start on that is not used, or the end |
| PageFrames.BitmapPagesExact | src/memory.c:130-147 | the pages marked are the least that hold a bit for every page |
| PageFrames.BootTablesSafe | src/memory.c:128-186 | pages 1 to 3 are never handed out exactly when more than 98304 pages are managed |
| PageFrames.RegionSafe | src/memory.c:128-186 | no frame of a region of memory is handed out after initialisation exactly when the region lies behind the managed pages or within the pages marked |
| PageFrames.BitmapSafe | src/memory.c:128-149 | the same for the bitmap itself, for every start and size of memory |
| PageFrames.HeapSafe | kernel.c:68-68 | the frames of the kernel's heap are out of reach exactly when they are not managed |
| PageFrames.BootSafe | src/memory.c:128-149 | page 0, boot tables and bitmap are all marked used, and no boot table lies in the bitmap, exactly when more than 98304 pages are managed and the bitmap lies behind them |
| PageFrames.HandedOutInOrder | src/memory.c:170-186 | after n allocations from the start the next page is the n-th behind those marked |
| PageFrames.ZeroedBits | src/vmm.c:44-48 | zeroing a frame makes exactly the pages read as free whose bits lie in it |
| PageFrames.KernelLosesBitmap | kernel.c:49-61 | with 1 GiB from 8 MiB on, the 2041st page handed out is the bitmap's first; zeroed, it makes 32768 pages read as free, and page 1 with the PML4 is handed out next but one |
| PageFrames.FreeUndoesAlloc | src/memory.c:225-245 | freeing an allocated page restores the state before |
| PageFrames.RunInside | src/memory.c:189-222 | with enough free pages in all, the run at the first free page stays inside |
| PageFrames.AttemptExact | src/memory.c:189-222 | nothing for a zero count or too few free pages, the run at the first free page if all of it is free, else another attempt |
| PageFrames.RetriesForEver | src/memory.c:189-222 | the call never ends exactly when enough pages are free and one of the run at the first free page is used |
| PageFrames.TwoPagesApart | src/memory.c:189-222 | with two of four pages free, but not neighbours, asking for two never ends |
| PageFrames.FreesPageZero | src/memory.c:225-245 | page 0 is freed by exactly the addresses 1 to 4095 |
| PageFrames.FrameAllocator.constructor | src/memory.c:128-167 | the bitmap is as long as it must be and lies at the start of memory; as many pages from page 0 on are used as it fills, all others free, and the counter is the number of free pages |
| PageFrames.FrameAllocator.FindFreePage | src/memory.c:118-125 | the scan finds the first free page, or reports that there is none |
| PageFrames.FrameAllocator.AllocPage | src/memory.c:170-186 | marks the lowest free page and returns its address, or returns 0 without a change exactly when none is free; the counter stays exact |
| PageFrames.FrameAllocator.AllocPages | src/memory.c:189-222 | marks exactly the run at the first free page, or returns 0 without a change, or is still retrying when `fuel` calls are used up, each exactly when the specification says |
| PageFrames.FrameAllocator.FreePage | src/memory.c:225-245 | frees exactly that page; null, foreign and free addresses change nothing; the counter stays exact |
| PageFrames.FrameAllocator.FreePages | src/memory.c:248-256 | frees the pages of the range one after the other, in 32-bit addresses |
| PageTables.LeafEntryBits | src/vmm.c:141-141 | an entry written for a page is present, holds the frame, and otherwise the flags |
| PageTables.TableEntryBits | src/vmm.c:75-75 | the entry for a new table has the address and exactly the present and the writable bit |
| PageTables.PageOfExact | include/vmm.h:23-26 | two addresses have the same four indices exactly when they agree in bits 12 to 47 |
| PageTables.AddressDigits | include/vmm.h:23-26 | the 48 low bits of an address are the four indices, most significant first, and the place in the page |
| PageTables.OneParent | src/vmm.c:58-78 | every table but the root has exactly one entry that leads to it |
| PageTables.ReachOwned | src/vmm.c:102-131 | the walk for a page only meets tables of the tree, each at the page's own path |
| PageTables.OtherTranslations | src/vmm.c:141-141 | writing one entry cannot change the translation of a page whose walk does not use it |
| PageTables.TableAdded | src/vmm.c:58-78 | hanging an empty table into the tree keeps it a tree |
| PageTables.TableAddedFlat | src/vmm.c:58-78 | hanging an empty table into the tree changes no translation |
| PageTables.LeafWritten | src/vmm.c:141-141 | writing a leaf changes the translation of its own page and no other, and keeps the tree |
| PageTables.RangeDistinct | src/vmm.c:184-200 | the pages of a range of at most 2^36 pages are distinct, with wrap-around at 64 bits |
| PageTables.RollbackRestores | src/vmm.c:184-200 | unmapping what a failed range call had mapped restores the flat map exactly |
| PageTables.UnmappedPhysical | src/vmm.c:214-238 | an address on an unmapped page gives 0 |
| PageTables.MappedPhysical | src/vmm.c:141-141 | an address on a page just mapped gives the page-aligned physical address, in 52 bits, plus its distance from the start of the page |
| PageTables.RangePhysical | src/vmm.c:184-238 | address k of a mapped page-aligned range gives its physical address plus k, in 52 bits |
| PageTables.MissingCounts | src/vmm.c:102-131 | the tables a mapping creates are exactly those on the page's paths that do not exist |
| PageTables.LargePagesSurvive | src/vmm.c:102-211 | through any run of steps of the flat map exactly the 2 MiB pages of the start are 2 MiB pages, with the same translation |
| Paging.Vmm.constructor | boot2.asm:200-247 | the boot tables form a tree whose flat map is exactly the first n times 2 MiB onto themselves; the invariant holds exactly when pages 0 to 3 and the bitmap's frames are marked used, and apart; after `pmem_init` exactly when more than 98304 pages are managed and the bitmap lies behind them |
| Paging.Vmm.AllocTable | src/vmm.c:38-51 | the lowest free page, which is no table yet, now used and zeroed, with the bits of the bitmap that lie in it; none do while the bitmap's frames are used; 0 without a change exactly when no page is free |
| Paging.Vmm.GetOrCreate | src/vmm.c:58-78 | gives the child on the page's path, creating at most one table; never changes a translation; fails exactly when absent and not to be created or out of memory |
| Paging.Vmm.MapPage | src/vmm.c:102-147 | succeeds exactly when the page is unmapped and the missing tables fit; then the flat map has that page more, else it is unchanged |
| Paging.Vmm.UnmapPage | src/vmm.c:150-181 | succeeds exactly on 4 KiB pages; then the flat map has that page less, else it is unchanged |
| Paging.Vmm.IdentityPhysical | boot2.asm:200-247 | through the boot map an address below its end gives itself, and all others give 0 |
| Paging.Vmm.GetPhysical | src/vmm.c:214-238 | the method computes this translation from the flat map, for 4 KiB and 2 MiB pages; 0 if unmapped |
| Paging.Vmm.MapPages | src/vmm.c:184-200 | all or nothing: succeeds exactly when no page of the range is mapped and the missing tables fit; then the whole range is added, else the flat map is the one before the call |
| Paging.Vmm.UnmapPages | src/vmm.c:203-211 | removes every 4 KiB page of the range and returns 0 exactly when all of it was such pages |
| VmmRuns.TakeFrame | src/memory.c:170-186 | a frame handed to other kernel code was free, is no page table and holds no part of the bitmap; translations and invariant stay |
| VmmRuns.TakeRun | src/memory.c:189-222 | the same for every frame of a run, and nothing changes when there is no run |
| VmmRuns.GiveFrame | src/memory.c:225-245 | freeing a frame changes no translation, and keeps the invariant exactly when it does not release page 0, a page table or a frame of the bitmap |
| VmmRuns.GiveRange | src/memory.c:248-256 | the same for a range, exactly when none of its 32-bit addresses releases one of these |
| VmmRuns.Run | src/vmm.c:102-211 | over any run of map, unmap and range calls beside code that takes and returns frames, singly and in runs: the invariant holds, no frame held is a page table or part of the bitmap, and exactly the 2 MiB pages of the start remain |
| HeapBlocks.AlignExact | src/heap.c:22-24 | rounds up to the next multiple of 16, except for the last 15 sizes, which give 0 |
| HeapBlocks.FirstFit | src/heap.c:43-63 | the first block of the free list that is large enough |
| HeapBlocks.EveryByteInOneBlock | src/heap.c:65-77 | in a tiled region every byte belongs to exactly one block |
| HeapBlocks.SplitKeeps | src/heap.c:65-77 | splitting keeps tiling and free list, the live blocks, and every other block |
| HeapBlocks.UnlinkKeeps | src/heap.c:80-94 | unlinking keeps the invariant and makes exactly that block live |
| HeapBlocks.MallocKeeps | src/heap.c:97-121 | keeps the invariant; fails exactly for size 0 or when no free block holds the aligned size, then without a change; else one free block becomes live and all live ones keep place and size |
| HeapBlocks.MallocBlock | src/heap.c:65-121 | malloc takes the first block that is large enough and hands out less than 40 bytes more than the aligned request; with 40 bytes or more to spare exactly that, and the rest of the bytes stay in the free list as the block behind it |
| HeapBlocks.MallocBytes | src/heap.c:65-121 | the bytes of the free list shrink by exactly the new block and its header |
| HeapBlocks.MallocLargeEnough | src/heap.c:97-121 | the block is as large as requested exactly when the request is at most 2^64 - 16 |
| HeapBlocks.CallocLargeEnough | src/heap.c:192-207 | the block holds all elements exactly when the true product is at most 2^64 - 16 |
| HeapBlocks.CallocOverflows | src/heap.c:192-207 | on the kernel's heap 2^60 + 1 elements of 16 bytes get 16 bytes |
| HeapBlocks.FreeKeeps | src/heap.c:124-143 | keeps the invariant and takes exactly that block from the live ones |
| HeapBlocks.FreeThenMalloc | src/heap.c:97-143 | a freed block is what the next malloc that fits it gets |
| HeapBlocks.ReallocKeeps | src/heap.c:146-189 | keeps the invariant; a failure for a non-zero size changes nothing; every other live block keeps place and size |
| HeapBlocks.ReallocExact | src/heap.c:146-189 | a non-zero request fails exactly when it exceeds the old block and every free one; what fits stays in place without a change; else the old block is in the free list and a free one, at most 39 bytes too large, is live |
| HeapBlocks.FirstCalls | src/heap.c:97-189 | the addresses that the first calls on the kernel's heap return |
| HeapBlocks.UsedPlusFree | src/heap.c:210-223 | size plus header over live blocks, and over the free list, add up to the region |
| HeapBlocks.RunsKeep | src/heap.c:97-207 | after any legal run: tiling, a free list of exactly the blocks not live, disjoint live blocks, each as large as it was asked to be exactly if at most 2^64 - 16 bytes were asked for and less than 40 bytes larger than the request it was handed out for, used bytes bounded accordingly, used plus free constant |
| HeapBlocks.AllocationStays | src/heap.c:97-207 | a block keeps its place and size as long as it is live, through any calls |
| KernelHeap.Heap.constructor | src/heap.c:27-40 | one free block spans the region |
| KernelHeap.Heap.FindFreeBlock | src/heap.c:43-63 | the pointer walk finds the first fit of the list, or null |
| KernelHeap.Heap.SplitBlock | src/heap.c:65-77 | headers and links after splitting are those of the specification |
| KernelHeap.Heap.RemoveFromFreeList | src/heap.c:80-94 | the list without that block, in the same order |
| KernelHeap.Heap.Malloc | src/heap.c:97-121 | blocks, list and pointer are those of the specification; allocated headers link to nothing |
| KernelHeap.Heap.Free | src/heap.c:124-143 | the block goes to the front of the list |
| KernelHeap.Heap.Realloc | src/heap.c:146-189 | the first min(old size, request) bytes are in the new payload, every other live payload is unchanged, and a failure keeps the old block and its bytes |
| KernelHeap.Heap.Calloc | src/heap.c:192-207 | as many bytes as the 64-bit product says are zero, and every live payload is unchanged |
| KernelHeap.Heap.Stats | src/heap.c:210-223 | used plus free is the total in 32 bits; under 4 GiB used is size plus header over the live blocks |
| EditorText.TypedInserts | programs/sedit/SEdit.c:420-432 | typing inserts the character at the cursor of the flat text, or changes nothing when the line is full |
| EditorText.EnteredInserts | programs/sedit/SEdit.c:366-387 | Enter inserts a newline at the cursor, or changes nothing when all lines are taken |
| EditorText.ErasedDeletes | programs/sedit/SEdit.c:388-419 | Backspace removes the character before the cursor; nothing changes at the start or when the two lines do not fit into one |
| EditorText.LeftSteps | programs/sedit/SEdit.c:345-354 | Left moves the offset back by one, down to 0 |
| EditorText.RightSteps | programs/sedit/SEdit.c:355-365 | Right moves the offset on by one, up to the end |
| EditorText.RowSteps | programs/sedit/SEdit.c:333-344 | Up and Down keep the text and go to the neighbouring row, to the same column or the end of a shorter line; each undoes the other when the column was kept |
| EditorText.EraseUndoesType | programs/sedit/SEdit.c:388-432 | Backspace after a successful key gives the document before |
| EditorText.EraseUndoesEnter | programs/sedit/SEdit.c:366-419 | Backspace after a successful Enter gives the document before |
| EditorText.ViewDetermines | programs/sedit/SEdit.c:333-432 | documents with the same flat text and offset are the same |
| EditorText.KeyRefines | programs/sedit/SEdit.c:333-432 | what a key does to the document is, on the flat text, what the flat editor does with its own capacity conditions |
| EditorText.RunsRefine | programs/sedit/SEdit.c:305-438 | along any run of keys the document stays well formed and its flat text is exactly what the flat editor gives |
| EditorText.LoadFits | programs/sedit/SEdit.c:186-221 | loading stays within the thousand rows exactly when the file has fewer newlines or does not end in one |
| EditorText.LoadsLines | programs/sedit/SEdit.c:186-221 | of every line of a file the first 255 characters other than carriage returns are loaded; only a last line of nothing but carriage returns is dropped |
| EditorText.LoadInvertsJoin | programs/sedit/SEdit.c:186-221 | lines joined by newlines load as the same lines |
| EditorText.SaveComplete | programs/sedit/SEdit.c:224-244 | the whole text and a final newline are saved exactly when they fit the buffer |
| EditorText.SavedExact | programs/sedit/SEdit.c:224-240 | any document is saved whole with a final newline, or cut off behind 32766 characters and ended in a newline |
| EditorText.SaveThenLoad | programs/sedit/SEdit.c:186-244 | saving and loading gives the lines and one empty line more, and fits exactly below a thousand lines |
| SEdit.ScrolledLeast | programs/sedit/SEdit.c:247-262 | the cursor is in view and the viewport moved no further than any that shows it |
| SEdit.Editor.StrCpy | programs/lib/string.c:50-54 | the destination row holds the copied tail from that column on; no other row changes |
| SEdit.Editor.TypeKey | programs/sedit/SEdit.c:420-432 | the shifting loop leaves the rows of the specification's document, the cursor in view, and the modified flag exact |
| SEdit.Editor.EnterKey | programs/sedit/SEdit.c:366-387 | rows moved down and split: the specification's document, cursor in view |
| SEdit.Editor.EraseInLine | programs/sedit/SEdit.c:389-397 | Backspace in a line: the specification's document, cursor in view |
| SEdit.Editor.EraseAcrossLines | programs/sedit/SEdit.c:398-419 | lines merged and rows moved up, or nothing: the specification's document, cursor in view |
| SEdit.Editor.LeftKey | programs/sedit/SEdit.c:345-354 | the specification's document, cursor in view |
| SEdit.Editor.RightKey | programs/sedit/SEdit.c:355-365 | the specification's document, cursor in view |
| SEdit.Editor.UpKey | programs/sedit/SEdit.c:333-338 | the specification's document, cursor in view |
| SEdit.Editor.DownKey | programs/sedit/SEdit.c:339-344 | the specification's document, cursor in view |
| SEdit.Editor.Press | programs/sedit/SEdit.c:333-432 | every key gives the specification's document; a changed text sets the modified flag |
| SEdit.Editor.LoadFile | programs/sedit/SEdit.c:186-221 | the rows hold the file's lines, each up to its first null character |
| SEdit.Editor.SaveFile | programs/sedit/SEdit.c:224-240 | the buffer holds what the specification saves |
| Keyboard.PushAppends | src/keyboard.c:137-143 | a character is accepted exactly while fewer than 255 are pending, and goes to the end |
| Keyboard.AdvanceDrops | src/keyboard.c:170-173 | what is delivered is the oldest pending character, and it leaves the queue |
| Keyboard.Fifo | src/keyboard.c:137-174 | under every interleaving delivered then pending characters are exactly the accepted ones in order |
| Keyboard.KeyboardBuffer.Push | src/keyboard.c:137-143 | the ring after the interrupt is the specification's |
| Keyboard.KeyboardBuffer.Available | src/keyboard.c:159-161 | true exactly when a character is pending |
| Keyboard.KeyboardBuffer.GetChar | src/keyboard.c:164-174 | returns the oldest pending character and leaves the rest; on an empty ring it waits for the first interrupt that brings a character |
| Strtok.SpansExact | programs/lib/string.c:185-233 | the tokens are exactly the maximal non-empty stretches without delimiters, in order |
| Strtok.Tokenizer.StrTok | programs/lib/string.c:185-233 | one call gives the first token of what is left, cuts it off on its delimiter, and leaves the cursor behind it; null when nothing is left |
| Strtok.Tokenizer.AllTokens | programs/lib/string.c:183-233 | calling until null gives every token in order, each a C string in place, and overwrites nothing but delimiters |
| Strtok.Finished | programs/lib/string.c:208-222 | cutting behind every token leaves each token intact and touches only delimiters |
| Assembler.NamesExact | programs/sasm/sasm.c:70-88 | each of the sixteen names is its register and no other string is |
| Assembler.CodeBytes | programs/sasm/sasm.c:212-258 | the bytes of every instruction, by register number |
| Assembler.DecodesOne | programs/sasm/sasm.c:212-258 | an encoded instruction decodes to itself and its length whatever follows |
| Assembler.DecodesAll | programs/sasm/sasm.c:212-258 | an encoded program decodes to itself |
| Assembler.UniquelyDecodable | programs/sasm/sasm.c:212-258 | programs with the same code are the same |
| Assembler.Assemble | programs/sasm/sasm.c:212-258 | the loop appends exactly the program's code and changes nothing behind it |

## Left out

- Port I/O, DMA and controller commands, interrupts and timeouts, TLB flushes and printing: the disk is an array that never fails, so the -1 results of failed transfers do not occur.
- The second FAT copy and crash consistency: the code writes only the first copy, in several steps.
- Directory listing, `format_filename`, `fat12_list_dir` and `fat12_find_entry`: they print or only look at subdirectories; clusters of subdirectories are covered by the lost clusters of the invariant.
- Fat12Driver.Fat12.Init: the FAT that the boot sector describes must lie on the disk and fit the memory at `fat_buffer`, or the code reads beyond one or writes beyond the other.
- Fat12Driver.Fat12.Read: a read above 2^32 - 512 bytes must be made on a chain that ends, because the loop skips clusters for ever on a cyclic one.
- Syscalls.ReadFileCall: the same holds of the call.
- FatTable.FindFreeCluster: does not read beyond `fat_buffer` on its own; the scan's bound and the memory behind it are given by the caller.
- Files.DeleteOthers: other names that begin with 0xE5 are not covered: open takes a deleted row for them, for which it does not hold (`Files.DeleteShowsMarked`).
- FileRuns.WriteOthers: other names that begin with 0xE5 are not covered: they open deleted rows, whose slots and clusters the driver gives to new files.
- FileRuns.RunsKeep: creates may repeat an existing name, as the code allows; the read-back theorems are about the name that lookups find.
- PageFrames.FrameAllocator.AllocPages: `fuel` bounds how often the code calls itself; `PageFrames.RetriesForEver` says when no bound is enough.
- Paging.Vmm.MapPages: when a range fails, tables it created stay, as in the code; the theorem is about translations.
- Huge entries in the page-directory-pointer table, which nothing in the kernel writes: the walk follows them as tables, as the code does.
- E820 parsing: the start and size of memory are parameters.
- KernelHeap.Heap.Calloc: the product modulo 2^64 must not be one of the last 15 sizes while a block is free, or the zeroing loop would run over the block and everything behind it.
- Heap headers are a map from addresses beside the payload bytes, so a client that writes over a header is not modelled, nor is the alignment of payloads, which 24-byte headers do not give.
- SEdit.Editor.LoadFile: files with 1000 or more newlines that end in one, for which the code writes behind its rows; `EditorText.LoadFits` says that these are exactly the files that do not fit.
- SEdit's screen, status bar and messages, the copy of the file name, and whether the write of a saved file succeeds, on which clearing the modified flag depends.
- Keyboard: translating scan codes, shift and control keys; the model starts from the character.
- Assembler: splitting lines into tokens and its error lines, some of which the code never gets past; programs are lists of valid instructions, and the output buffer is large enough.
- Strtok.Tokenizer.StrTok: the delimiter string is a value, so a caller that tokenizes its own delimiter string is not modelled.
- `fat16.c`, `fat32.c`, `ata.c`, the shell and the boot loader, apart from the page tables it leaves.
