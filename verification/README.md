# inteilidOS, modelled and proved in Dafny

This project models the parts of inteilidOS that keep non-trivial state and proves what they
promise. Ports, DMA and the screen are replaced by what they amount to: a disk whose transfers may
fail, memory as a map from addresses to headers, host controllers that may answer anything, a
stream of samples. Code that updates state step by step is a class or a method with loops, proved
against a specification function; what the design promises is then proved about that function, for
all inputs and all runs. The modules named `Meaning` say the same specification functions a second time,
over bytes, sectors and words and in plain numbers, so that the two can be held against each other
and against the source.

| part | files |
|---|---|
| native filesystem and disk layout | `DiskLayout`, `FsSpec` (what each call does), `FsTheorems`, `FsRuns` (guarantees), `FsMeaning` (in bytes), `Fs` (code) |
| kernel heap | `HeapSpec`, `Heap` |
| physical pages | `PagesSpec`, `PagesMeaning`, `Pages` |
| xHCI rings and the DMA latch | `XhciRing`, `XhciEvents`, `XhciDriver` |
| InteiliBASIC expressions | `BasicExpr`, `BasicRoundTrip`, `BasicMeaning`, `Basic` |
| InteiliBASIC programs and tape | `BasicProgram`, `BasicFile`, `BasicFileMeaning`, `BasicStore`, `KcsSpec`, `KcsMeaning`, `Kcs` |
| iEdit | `IEditSpec`, `IEditMeaning`, `IEdit` |
| DOS paragraph arena | `DosSpec`, `Dos` |
| shared SMBus | `Thermal`, `ThermalMeaning`, `Smbus`, `SmbusMeaning` |
| sound rings, virtual timer, 64-bit division | `Pcm`, `Pit`, `Div64` |
| across the layers | `EndToEnd` |
| machine integers, arrays | `Bytes`, `Arrays` |

## Where the code does less than one might expect

These are facts about the code, each with its exact condition proved.

- `fs_write` does not clear an empty slot before it copies the name in. If the old bytes leave a
  non-zero byte 23 behind a shorter name, the directory it writes is one that every later call
  rejects (`FsTheorems.WriteKeepsDirValid`, `FsTheorems.WriteKeepsFormatted`). Publication clears
  the slot.
- Of two overlapping image reservations both can be published one after the other, if the first is
  no larger than an ordinary file and starts earlier: an ordinary save over it shrinks it
  (`FsRuns.SecondPublicationIff`). `FsRuns.BothPublished` gives the whole run, both reservations
  included; `fs_image_reserve` records nothing, so a save that shrinks the last file between two
  reservations makes them overlap.
- An xHCI ring of 64 entries carries 62 requests, but only with at most 61 outstanding is progress
  certain: at 62 the driver can overwrite the link entry the controller was about to follow
  (`XhciRing.DrainsIff`, `XhciRing.SixtyTwoCanDeadlock`, `XhciRing.DeadlockIsReachable`). This
  driver stays far below: it never has more than three outstanding (`XhciDriver.Driver.AnyCalls`,
  `XhciRing.WaitingIsSafe`).
- `kmalloc` rounds sizes above 0xFFFFFFF8 to zero (`HeapSpec.Round8Covers`); `Heap.Heap.Kmalloc` is
  stated in terms of the rounded size.
- `dos_allocate` tries only the first free block that is large enough. With a full table it fails
  if that one does not fit exactly, even if a later one does (`Dos.Arena.Allocate`).
- A BASIC line numbered 0 can be entered and is saved, but is not loaded back; and the prompt takes
  line numbers of nine and ten digits (`basic.c:2105-2115`), which overrun the eight characters
  kept for the digits when the program is saved or recorded (`basic.c:1335-1339`, `1588-1590`).
  These are all the programs that do not survive saving to disk (`BasicFile.DigitsFitIff`,
  `BasicStore.FormatNumber`, `BasicFile.LoadUndoesSaveIff`).
- A program whose text is longer than 7,317 characters cannot be recorded, even if it can be saved
  to disk (`EndToEnd.RecordAndPlay`, `EndToEnd.LongProgramNotRecordable`). Comments in `inteiliDOS/shell/basic.c` put the limit at
  about 7,338 bytes or 7 KB (`Kcs.Recorder.Record`).
- An image handle is not looked up again: once another file has been written over a reservation, a
  write through the old handle is accepted and changes that file (`FsTheorems.FillingKeepsFilesIff`,
  `FsTheorems.StaleHandleOverwrites`).
- A two-byte count refused for timer channel 0 leaves the channel waiting for another high byte
  (`Pit.Timer.Write`).
- Signed division yields the most negative number for the one quotient that does not fit
  (`Div64.DivideSigned`).

## Model

| member | source | states |
|---|---|---|
| DiskLayout.PartitionFind | inteiliDOS/kernel/disk_layout.h:75-96 | Returns the one native partition of a table exactly when every used slot is in range without wrap-around and all extents are pairwise disjoint, -1 when there is none, -2 when the table must not be trusted |
| DiskLayout.FindNativeUnique | inteiliDOS/kernel/disk_layout.h:75-96 | That answer is the only one its specification allows, so the loop order of the scan does not matter |
| DiskLayout.InitLayoutAccepted | inteiliDOS/kernel/disk_layout.h:36-63 | A freshly initialised layout is accepted for a partition exactly when it is that partition's own start and size and large enough |
| FsMeaning.TableIs | inteiliDOS/kernel/disk_layout.h:75-96 | Which partition tables are accepted, in plain terms: every slot empty or inside the disk, no sector in two partitions, at most one of type 0x99 |
| FsMeaning.ChecksumIs | inteiliDOS/kernel/disk_layout.h:31-34 | The checksum has a bit set exactly where an odd number of the seven words and 0x9e3779b9 have it |
| FsMeaning.DescriptorIs | inteiliDOS/kernel/disk_layout.h:48-60 | Which descriptor sectors are accepted, word by word: mark, version 1 or 2 with its own sector counts, this partition, and the sum right |
| FsMeaning.SetupWritesDescriptor | inteiliDOS/kernel/disk_layout.h:36-46 | The words of the descriptor that setup writes, and that it describes a version 2 volume |
| FsSpec.RegionConfined | inteiliDOS/kernel/fs.c:48-83 | A resolved file region lies inside the disk and, on an installed disk, beyond boot, kernel and configuration sectors and outside every other partition |
| FsSpec.RegionStable | inteiliDOS/kernel/fs.c:48-83 | Writing inside the region never changes how the disk resolves |
| FsMeaning.InstalledResolves | inteiliDOS/kernel/fs.c:48-83 | On a sound table with a native partition: refused if sector 0 is not signed; with the marker 0x324c4449 at 0x25 of the boot record the region is [start+8201, start+sectors) if sector start+8193 is a version 2 descriptor; without it [start+1033, start+sectors) if sector start+1025 is a version 1 descriptor; else FS_ERR_LAYOUT. Names neither the offsets nor the checks of the model |
| FsMeaning.OthersResolve | inteiliDOS/kernel/fs.c:48-83 | Without a native partition: the region is [2048, end) exactly when no slot is used, sector 0 is signed or blank and the disk has more than 2049 sectors; every other disk is refused with FS_ERR_LAYOUT |
| FsMeaning.InstalledIsAccepted | inteiliDOS/kernel/fs.c:57-75 | What setup writes on a partition of more than 8202 sectors resolves to that partition's region |
| FsMeaning.DirVerdict | inteiliDOS/kernel/fs.c:133-150 | A directory is accepted exactly when it begins with the mark and its entries are sound: bytes 4 onwards hold terminated, different names, extents inside the region that share no sector |
| FsSpec.NextFreeBounds | inteiliDOS/kernel/fs.c:164-175 | The first free sector is past the end of every file |
| FsSpec.ChunksReadBack | inteiliDOS/kernel/fs.c:299-311 | Data stored in zero-padded sectors reads back byte for byte |
| FsTheorems.PlanAvoids | inteiliDOS/kernel/fs.c:262-297 | The extent chosen for a write, in place or appended, meets no other file |
| FsTheorems.PlanInside | inteiliDOS/kernel/fs.c:262-297 | The extent chosen lies after the directory sector and within the limit |
| FsTheorems.WriteKeepsDirValid | inteiliDOS/kernel/fs.c:238-319 | A successful write yields a directory that validation accepts if and only if byte 23 of the slot's name field ends up zero; a stale byte there survives, because the slot is not cleared |
| FsTheorems.WriteKeepsFormatted | inteiliDOS/kernel/fs.c:238-319 | The same condition decides whether the disk can be used at all afterwards; otherwise every later call is answered with an I/O error |
| FsTheorems.WriteUpdatesMap | inteiliDOS/kernel/fs.c:238-319 | The refinement: a successful write is exactly one update of the map from names to byte strings, every other file unchanged |
| FsTheorems.WriteConfined | inteiliDOS/kernel/fs.c:238-319 | A successful write changes no sector outside the file region, and layout resolution gives the same answer after it; `EveryWriteConfined` says so of all calls |
| FsTheorems.EveryWriteConfined | inteiliDOS/kernel/fs.c:238-504 | Every save, publication or image write, with any arguments, through handles of any age, answered with any code and cut short anywhere: the boot record, the boot, kernel and configuration sectors and all other partitions are unchanged, as is everything outside the file region, and the region resolves as before |
| FsTheorems.EveryHistoryConfined | inteiliDOS/kernel/fs.c:238-504 | The same from the first disk to the last of any history of such calls |
| FsMeaning.SaveVerdict | inteiliDOS/kernel/fs.c:238-297 | The code of a save, over the entries and in plain numbers: bad name, more than 524288 bytes, disk not usable, no entry of that name and no empty one, an old file too large to be replaced, no room; which of them comes first; and else success |
| FsMeaning.SavedIff | inteiliDOS/kernel/fs.c:238-297 | A save succeeds if and only if the name has 1 to 23 bytes, the data at most 524288, the disk is formatted, the name is there or a slot empty, the old file is no larger than that, and the sectors needed are no more than the old file's own or fit between the end of all files and the limit |
| FsMeaning.SavedWhere | inteiliDOS/kernel/fs.c:262-297 | Where it goes: over the old extent if that has sectors enough, else to the first sector behind all files; under the old entry, else the first empty one |
| FsTheorems.WriteThenRead | inteiliDOS/kernel/fs.c:238-369 | A later read returns the first min(length, buffer size) bytes of what was written |
| FsMeaning.FilesAre | inteiliDOS/kernel/fs.c:322-369 | The files of a disk, byte by byte: each used entry's name with the bytes from its first sector on |
| FsMeaning.LoadVerdict | inteiliDOS/kernel/fs.c:322-369 | The code of a load: found exactly when some used entry is called so; a disk without a directory has no files |
| FsMeaning.Loaded | inteiliDOS/kernel/fs.c:322-369 | What a load delivers, byte by byte from the sectors of the entry, as many as fit; the rest of the buffer stays |
| FsTheorems.InterruptedWriteIsSafe | inteiliDOS/kernel/fs.c:280-311 | When data sectors were written in part or not at all and the directory is as before, all other files read unchanged, and so does the old version unless its own sectors were being reused |
| FsTheorems.PublishKeepsDirValid | inteiliDOS/kernel/fs.c:481-504 | A directory into which an image is published is always accepted by validation |
| FsTheorems.PublishUpdatesMap | inteiliDOS/kernel/fs.c:481-504 | Publishing an image is one update of the map, to the bytes of its sectors |
| FsTheorems.ReservationIff | inteiliDOS/kernel/fs.c:436-447 | What a successful reservation hands out is exactly what lies past all data and fits the limit with a slot to spare |
| FsTheorems.ReservedIsPublishable | inteiliDOS/kernel/fs.c:436-504 | A reservation can be published under any free name exactly when reserving it succeeds |
| FsTheorems.ReservedWriteKeepsFiles | inteiliDOS/kernel/fs.c:449-479 | Filling a reservation with anything changes no file, as long as nothing was written after it |
| FsTheorems.FillingKeepsFilesIff | inteiliDOS/kernel/fs.c:449-479 | The exact condition for handles of any age: writing these sectors, whatever is written, leaves all files as they are if and only if none of them holds bytes of a file at that time |
| FsTheorems.StaleHandleOverwrites | inteiliDOS/kernel/fs.c:436-479 | It can fail: after a reservation and the save of a new file the handle is still accepted, and a write through it changes that file |
| FsTheorems.ImageContent | inteiliDOS/kernel/fs.c:406-421 | The sectors of an opened image are the bytes of the file |
| FsTheorems.ImageWriteKeepsOthers | inteiliDOS/kernel/fs.c:449-479 | Writing through an opened image, completely or in part, changes no other file and keeps the image open on the same file |
| FsTheorems.ImageWriteUpdatesFile | inteiliDOS/kernel/fs.c:464-479 | A completed image write is one update of the map: those bytes of that file |
| FsMeaning.OpenAnswer | inteiliDOS/kernel/fs.c:406-421 | The code of opening an image, over the entries: there is one of that name, not empty and whole sectors |
| FsMeaning.SpaceIs | inteiliDOS/kernel/fs.c:423-434 | The space reported is the largest that fits behind all files |
| FsMeaning.ReserveAnswer | inteiliDOS/kernel/fs.c:436-447 | The code of a reservation, over the entries: 1 to 0x7fffff sectors, a slot, room behind all files |
| FsMeaning.TransferAnswer | inteiliDOS/kernel/fs.c:449-479 | The code of a transfer through a handle: the request lies in the image, and every sector of the image among those for files |
| FsMeaning.PublishAnswer | inteiliDOS/kernel/fs.c:481-504 | The code of a publication, over the entries: a new name, the image exactly behind all files and within the limit, a slot |
| FsMeaning.PublishedIs | inteiliDOS/kernel/fs.c:481-504 | What is published: start, size in bytes, and the name in a cleared field |
| FsRuns.WriteKeepsClean | inteiliDOS/kernel/fs.c:238-319 | From a directory whose empty slots end in zero, a write leaves such a directory |
| FsRuns.RunKeepsValid | inteiliDOS/kernel/fs.c:373-397 | From such a directory every run of writes and publications, in any order, keeps the directory valid |
| FsRuns.AtMostOnePublished | inteiliDOS/kernel/fs.c:436-504 | Of two overlapping images the second can never be published after the first, under any run of reservations, writes and publications, if the first is larger than an ordinary file or the second does not start after it |
| FsRuns.ShrinkingFreesReservation | inteiliDOS/kernel/fs.c:481-504 | In the remaining case it can, whichever acceptable image the second is: one ordinary save over the published image gives its tail back |
| FsRuns.SecondPublicationIff | inteiliDOS/kernel/fs.c:436-504 | The exact condition, for any two overlapping images of which the first was publishable: some run makes the second publishable iff the first has at most 1024 sectors and starts earlier, and the second is acceptable at all (name good and not taken, a slot free, size and end within limits) |
| FsRuns.BothPublished | inteiliDOS/kernel/fs.c:436-504 | The failing run in full, on every clean directory with three empty slots and three sectors left: save a file of two sectors, reserve an image past it, save one sector over the file, reserve an image that now starts earlier, publish it, save one sector over it, publish the other. Both were successful reservations and they overlap |
| FsRuns.RunIsFold | inteiliDOS/kernel/fs.c:238-504 | Over whole disks: after any sequence of writes and publications the files are the map with each successful call's update applied in turn |
| Fs.FileSystem.ResolveLayout | inteiliDOS/kernel/fs.c:48-83 | If no transfer fails the answer is the one its specification determines for the disk, success included, with the specified region; if one fails it is an I/O error. Nothing is written |
| Fs.FileSystem.ReadDir | inteiliDOS/kernel/fs.c:133-150 | If no transfer fails it succeeds exactly on formatted disks with a valid directory, and otherwise gives the determined error; success has loaded that directory |
| Fs.FileSystem.ValidateDir | inteiliDOS/kernel/fs.c:373-397 | The double loop accepts exactly the directories whose used entries are in range, named, and pairwise disjoint in extent and name |
| Fs.FileSystem.NameEq | inteiliDOS/kernel/fs.c:107-120 | The comparison loop is equality of C strings |
| Fs.FileSystem.FindEntry | inteiliDOS/kernel/fs.c:246-262 | The search loop finds the entry with the given name |
| Fs.FileSystem.NextFreeLba | inteiliDOS/kernel/fs.c:164-175 | The loop returns the first sector past all files |
| Fs.FileSystem.FillEntry | inteiliDOS/kernel/fs.c:97-105 | Filling a slot changes that entry of the directory buffer alone |
| Fs.FileSystem.StoreData | inteiliDOS/kernel/fs.c:299-311 | The write loop changes only the planned sectors and, if no transfer fails, stores exactly the padded data |
| Fs.FileSystem.Write | inteiliDOS/kernel/fs.c:238-319 | If no transfer fails the answer is the determined one: success exactly when the plan accepts; if one fails it is an I/O error. Errors before the first write leave the disk untouched; success is the planned disk; a failure leaves either a partly written extent or the directory sector alone in doubt |
| Fs.FileSystem.Read | inteiliDOS/kernel/fs.c:322-369 | If no transfer fails the answer is the determined one, and success delivers the stored bytes cut to the buffer and nothing else; if one fails it is an I/O error |
| Fs.FileSystem.ImageOpen | inteiliDOS/kernel/fs.c:406-421 | Succeeds, if no transfer fails, exactly when a file of that name is as long as whole sectors and not empty; the handle is that file's own extent |
| Fs.FileSystem.ImageSpace | inteiliDOS/kernel/fs.c:423-434 | Reports exactly the sectors between the last file and the limit, and the number of empty slots |
| Fs.FileSystem.ImageReserve | inteiliDOS/kernel/fs.c:436-447 | Succeeds, if no transfer fails, exactly when the size is allowed, that many sectors are left and a slot is empty, with the determined code otherwise; the handle is the first sectors past all data, and nothing is written |
| Fs.FileSystem.ImageZero | inteiliDOS/kernel/fs.c:464-469 | Clears exactly the requested sectors; no other sector of the disk, inside the image or outside, changes; refused exactly when the request or the handle is out of bounds |
| Fs.FileSystem.ImageWriteSector | inteiliDOS/kernel/fs.c:471-479 | Writes exactly the one sector asked for; no other sector of the disk changes; refused exactly when the request or the handle is out of bounds |
| Fs.FileSystem.ImagePublish | inteiliDOS/kernel/fs.c:481-504 | If no transfer fails it accepts exactly the publishable images, with the determined code otherwise; success is the published disk, failure leaves all but the directory sector as it was |
| HeapSpec.Round8Covers | inteiliDOS/kernel/memory.c:61-63 | Sizes are rounded up to the next multiple of 8, less than 8 above; sizes above 0xFFFFFFF8 to zero |
| HeapSpec.FirstFitIs | inteiliDOS/kernel/memory.c:65-66 | The block taken is the first free one with enough bytes |
| HeapSpec.CutIff | inteiliDOS/kernel/memory.c:68-80 | A block is cut exactly when 28 bytes are left over; what is handed out then has the size asked for, and else its own |
| HeapSpec.AllocatedKeeps | inteiliDOS/kernel/memory.c:61-85 | Allocating keeps blocks tiling the heap with no two free neighbours |
| HeapSpec.ReleasedKeeps | inteiliDOS/kernel/memory.c:93-111 | Releasing and merging keeps both |
| HeapSpec.ReleaseUndoesAllocate | inteiliDOS/kernel/memory.c:61-111 | Releasing what was just allocated gives the very same block list back |
| HeapSpec.AllocatedLive | inteiliDOS/kernel/memory.c:61-85 | Allocation adds one live block of at least the size asked for and keeps the others as they are |
| HeapSpec.ReleasedLive | inteiliDOS/kernel/memory.c:93-111 | Release removes one live block and keeps the others as they are |
| HeapSpec.RunKeeps | inteiliDOS/kernel/memory.c:51-111 | After every sequence of calls the blocks tile the heap, merged as far as possible |
| HeapSpec.FreeingAllRestores | inteiliDOS/kernel/memory.c:51-111 | However calls were interleaved, once nothing is live the heap is one free block again |
| HeapSpec.BytesAccounted | inteiliDOS/kernel/memory.c:254-274 | Used bytes, free bytes and headers add up to the heap size |
| HeapSpec.AllocatedUses | inteiliDOS/kernel/memory.c:61-85 | The used bytes grow by just the size of the block handed out |
| HeapSpec.ReleasedUses | inteiliDOS/kernel/memory.c:93-111 | They fall by just the size of the block given back, and are none when nothing is held |
| HeapSpec.MallocIs | inteiliDOS/kernel/memory.c:61-82 | One call of a run: nothing changes if nothing is asked for or no free block has enough, and else the first that has enough is used |
| Heap.SplitLinks | inteiliDOS/kernel/memory.c:68-80 | The pointer stores of a split link the new block list both ways |
| Heap.JoinLinks | inteiliDOS/kernel/memory.c:98-110 | The pointer stores of a merge link the shorter list both ways |
| Heap.Heap.Kmalloc | inteiliDOS/kernel/memory.c:61-85 | Over raw memory: NULL exactly when the size is 0 or no free block fits the rounded size; otherwise the first that fits, split; no byte of a live region is touched |
| Heap.Heap.Kfree | inteiliDOS/kernel/memory.c:93-111 | Releases the block in the linked list and touches no live region |
| Heap.Heap.HeapSnapshot | inteiliDOS/kernel/memory.c:254-274 | On arbitrary memory that covers the heap's storage the integrity walk answers 0 if and only if the list is a consistently linked tiling of the heap, and then reports its totals |
| Heap.Heap.AnyRun | inteiliDOS/kernel/memory.c:51-111 | From initialisation through any number of allocations and releases in any order: the integrity walk answers 0, used, free and header bytes add up to 2097152, and once everything is released one free block is left, 0 bytes are used and 2097132 free |
| PagesSpec.PageBounds | inteiliDOS/kernel/memory.c:174-184 | The page bounds computed for an entry are the pages wholly inside an available one, and those any byte of a reserved one lies in, after clipping to 4 GiB |
| PagesSpec.PassMeaning | inteiliDOS/kernel/memory.c:162-194 | The two passes: a page is freed iff some available entry contains it, and kept iff no other entry meets it |
| PagesSpec.TotalKbIsMaximum | inteiliDOS/kernel/memory.c:182-183 | The memory total is the top of the highest available entry, or what was reported if that is more |
| PagesMeaning.MapIs | inteiliDOS/kernel/memory.c:150-158 | A memory map is accepted exactly when its entries make a chain from its first byte to its last, each as long as it says and 24 bytes at least |
| PagesMeaning.UsableIs | inteiliDOS/kernel/memory.c:114-194 | Which pages are free at first, byte by byte of each page: those all of whose bytes one memory entry describes and none of whose bytes another kind of entry does; none by a map that is refused; without a map those the firmware's figure covers |
| PagesMeaning.TotalMemoryIs | inteiliDOS/kernel/memory.c:114-194 | The total is the last byte that is memory, in kilobytes, or the firmware's figure if that is more; 0 by a map that is refused |
| PagesMeaning.RunIs | inteiliDOS/kernel/memory.c:225-242 | What is handed out lies above 16 MiB and below 4 GiB and was free, every page of it |
| PagesSpec.OrderDoesNotMatter | inteiliDOS/kernel/memory.c:159-194 | Two maps with the same entries in any order, repeated or not, free the same pages |
| PagesSpec.RunFits | inteiliDOS/kernel/memory.c:226 | A run is never longer than the number of free pages, so refusing larger requests at once refuses nothing that could be served |
| PagesSpec.FreeUndoesAlloc | inteiliDOS/kernel/memory.c:225-253 | A successful allocation followed by freeing what it returned gives the whole state back: free pages and grants |
| PagesSpec.RunKeeps | inteiliDOS/kernel/memory.c:225-253 | In every run of allocations and frees no page is given out twice and none is lost |
| PagesSpec.FreeingAllRestores | inteiliDOS/kernel/memory.c:225-253 | When everything is freed again, exactly the pages free at the start are free |
| Pages.PhysicalMemory.CheckMap | inteiliDOS/kernel/memory.c:150-158 | The validation loop accepts exactly the maps whose entries follow each other to the end |
| Pages.PhysicalMemory.MarkEntry | inteiliDOS/kernel/memory.c:176-191 | Marks exactly the pages of one entry and keeps the counter equal to the number of clear bits |
| Pages.PhysicalMemory.WalkMap | inteiliDOS/kernel/memory.c:162-194 | One pass over the raw bytes of the map does what the pass over its entries means |
| Pages.PhysicalMemory.Init | inteiliDOS/kernel/memory.c:114-221 | From the bitmap bytes up: afterwards a page is free iff it is usable memory above the kernel (inside one available entry clipped to 4 GiB, met by no other, or in the reported range), the counter equals the clear bits, and the total is as defined; a broken map frees nothing |
| Pages.PhysicalMemory.AllocPages | inteiliDOS/kernel/memory.c:225-242 | Returns the lowest run of that many free pages from 16 MiB up and takes exactly it, or 0 with nothing changed iff no such run exists |
| Pages.PhysicalMemory.FreePages | inteiliDOS/kernel/memory.c:243-253 | Frees exactly the run, or ignores a misaligned, low or oversized request |
| Pages.PhysicalMemory.AllocThenFree | inteiliDOS/kernel/memory.c:225-253 | Allocating and freeing gives the bitmap back byte for byte, and the counter |
| XhciRing.StepKeeps | inteiliDOS/kernel/usb_xhci.c:83-100 | Every step of driver or controller keeps the ring invariant, across any number of laps |
| XhciRing.TakenIsPrefixOfSent | inteiliDOS/kernel/usb_xhci.c:88-100 | In every interleaving of the single stores of `enqueue` with a controller that follows cycle bits and toggles on the link TRB (section 4.9 of the eXtensible Host Controller Interface specification), the controller has taken exactly a prefix of what was enqueued, once each and in order |
| XhciRing.ControllerWaits | inteiliDOS/kernel/usb_xhci.c:88-100 | With everything taken the controller takes nothing: no stale entry looks valid |
| XhciRing.ControllerCanGoOn | inteiliDOS/kernel/usb_xhci.c:94-98 | While entries are outstanding somebody can go on, if and only if the controller is not stuck before a link the driver has overwritten |
| XhciRing.SixtyOneIsSafe | inteiliDOS/kernel/usb_xhci.c:94-98 | With at most 61 outstanding the exception cannot arise |
| XhciRing.DrainsAll | inteiliDOS/kernel/usb_xhci.c:83-100 | From every state in which the controller is not stuck, a run of its own steps and the driver's pending wrap takes everything that was enqueued |
| XhciRing.DrainsIff | inteiliDOS/kernel/usb_xhci.c:83-100 | The exact condition: some run takes everything enqueued if and only if the controller is not stuck before the overwritten link; once stuck, no step is possible at all |
| XhciRing.WaitingIsSafe | inteiliDOS/kernel/usb_xhci.c:112-160 | A driver that, as this one, has at most three entries outstanding on a ring never gets there: in every run the controller is never stuck and everything can still be taken |
| XhciRing.SixtyTwoCanDeadlock | inteiliDOS/kernel/usb_xhci.c:94-98 | With 62 it can: the driver rewrites the link the controller was about to follow, and neither can take another step |
| XhciRing.DeadlockIsReachable | inteiliDOS/kernel/usb_xhci.c:83-100 | That state is reached by a run from a fresh ring |
| XhciRing.OverrunStalls | inteiliDOS/kernel/usb_xhci.c:88-100 | One entry beyond 62 hides the oldest one at once |
| XhciRing.Ring.Enqueue | inteiliDOS/kernel/usb_xhci.c:88-100 | The code performs the protocol's fill, publish and wrap and returns the entry's address |
| XhciEvents.ProduceKeeps | inteiliDOS/kernel/usb_xhci.c:101-111 | A controller that respects the event ring's size keeps its invariant |
| XhciEvents.ReceiveIsNext | inteiliDOS/kernel/usb_xhci.c:101-111 | The driver sees an event exactly when one is waiting, and then it is the oldest |
| XhciEvents.ReceivedIsPrefixOfProduced | inteiliDOS/kernel/usb_xhci.c:101-111 | In every interleaving of a controller that respects the ring's size with the driver, what was received is a prefix of what was produced, at most the ring's size behind |
| XhciEvents.DrainedHasAll | inteiliDOS/kernel/usb_xhci.c:101-111 | Polling until nothing is seen receives everything produced |
| XhciEvents.FullRingOverrun | inteiliDOS/kernel/usb_xhci.c:101-111 | The size is exact: one event more hides all that are waiting |
| XhciEvents.EventRing.NextEvent | inteiliDOS/kernel/usb_xhci.c:101-111 | The code takes exactly that event, or nothing |
| XhciDriver.Driver.WaitEvent | inteiliDOS/kernel/usb_xhci.c:112-135 | Only a timed-out wait sets the latch |
| XhciDriver.Driver.Command | inteiliDOS/kernel/usb_xhci.c:136-143 | With the latch set nothing is touched; it is set exactly when the answer is a timeout |
| XhciDriver.Driver.ReleaseDevice | inteiliDOS/kernel/usb_xhci.c:349-363 | Success clears the record and comes only after the controller acknowledged the Disable Slot command for the slot it held; a refusal or a set latch keeps record, slot and disks and leaves the latch set. The class invariant says no record was ever recycled while the controller held its slot |
| XhciDriver.Driver.ScanPorts | inteiliDOS/kernel/usb_xhci.c:365-397 | Scanning with the latch set touches no ring, context or device record, even with the timer's poll falling between any two steps |
| XhciDriver.Driver.StorageCommand | inteiliDOS/kernel/usb_xhci.c:625-642 | A storage command changes no device record but its own, and with the latch set touches nothing and answers -1 |
| XhciDriver.Driver.AnyCalls | inteiliDOS/kernel/usb_xhci.c:553-647 | Any number of public calls in any order, with the timer's poll interleaved inside them and against arbitrary hardware: once the latch is set no ring slot is written, no ring or context initialised and no device record recycled; and at no time is a record recycled whose slot the controller still holds, or a ring written with three entries or more outstanding |
| BasicRoundTrip.PrintedEvaluates | inteiliDOS/shell/basic.c:540-751 | A printed expression tree, at any grammar level and before any text that may follow it, is read completely and gives the tree's value |
| BasicRoundTrip.PrintedFaults | inteiliDOS/shell/basic.c:540-751 | A tree that divides by zero or leaves an array raises the error flag |
| BasicRoundTrip.EvaluatorIsCorrect | inteiliDOS/shell/basic.c:540-751 | `eval_num` on the printed text of any tree whose numbers fit 32 bits: an error iff the meaning is a fault, otherwise the meaning (truncating division, -1 and 0 for truth) with nothing left to read |
| BasicMeaning.DivisionTruncates | inteiliDOS/shell/basic.c:604-620 | Quotient and remainder: a = q*b + r, with r smaller than b in size and either 0 or of the sign of a |
| BasicMeaning.DivisionUnique | inteiliDOS/shell/basic.c:604-620 | No other pair of numbers has that property |
| BasicMeaning.OperatorMeans | inteiliDOS/shell/basic.c:540-623 | What every operator means, without the model's own arithmetic: sums, differences, products, truncated quotients and remainders (and division by zero), comparisons as -1 exactly when they hold and else 0, AND and OR by what is not zero |
| BasicMeaning.OthersMean | inteiliDOS/shell/basic.c:560-751 | What signs, NOT, variables, array elements and ABS, INT, SGN, POS and FRE mean |
| BasicMeaning.OperandsDecide | inteiliDOS/shell/basic.c:540-669 | An operand that has no value decides, the left one first |
| BasicMeaning.GroupsRight | inteiliDOS/shell/basic.c:540-623 | For any two operators, "x lo y hi z" groups to the right exactly when the second binds more tightly, by a table of the eleven operators |
| BasicMeaning.GroupsLeft | inteiliDOS/shell/basic.c:540-623 | And to the left exactly when the first binds as tightly or more |
| BasicMeaning.NotGroups | inteiliDOS/shell/basic.c:560-564 | NOT takes a whole comparison but no AND and no OR |
| BasicMeaning.KeywordIs | inteiliDOS/shell/basic.c:250-258 | A word is its letters in either case, and then it must end |
| BasicMeaning.SymbolsRead | inteiliDOS/shell/basic.c:565-612 | How symbols are read: two-character comparisons first, and none that is doubled |
| BasicMeaning.HexLiteral | inteiliDOS/shell/basic.c:648-658 | A hexadecimal literal is its number modulo 2^32, with sign |
| BasicMeaning.NoOperandFails | inteiliDOS/shell/basic.c:631-669 | Where no operand begins there is an error, at every level of the grammar |
| Basic.Interpreter.EvalNum | inteiliDOS/shell/basic.c:540-549 | The cursor-moving code computes the value, rest and error flag the grammar function gives |
| Basic.Interpreter.EvalAnd | inteiliDOS/shell/basic.c:550-559 | Likewise for AND |
| Basic.Interpreter.EvalNot | inteiliDOS/shell/basic.c:560-564 | Likewise for NOT |
| Basic.Interpreter.EvalCmp | inteiliDOS/shell/basic.c:565-589 | Likewise for comparisons |
| Basic.Interpreter.EvalAdd | inteiliDOS/shell/basic.c:590-599 | Likewise for sums |
| Basic.Interpreter.EvalMul | inteiliDOS/shell/basic.c:600-623 | Likewise for products, both divisions and MOD |
| Basic.Interpreter.EvalUnary | inteiliDOS/shell/basic.c:624-630 | Likewise for signs |
| Basic.Interpreter.EvalPrimary | inteiliDOS/shell/basic.c:631-669 | Likewise for literals and parentheses |
| Basic.Interpreter.EvalNamed | inteiliDOS/shell/basic.c:662-751 | Likewise for variables, array elements and the functions of one number |
| BasicProgram.InsertIsUpdate | inteiliDOS/shell/basic.c:290-306 | Entering a line keeps the table strictly sorted and sets that number in the map it stands for; only a full table ignores a new number |
| BasicProgram.DeleteIsRemove | inteiliDOS/shell/basic.c:308-313 | Deleting a line removes its number and nothing else |
| BasicProgram.ProgramDetermined | inteiliDOS/shell/basic.c:290-313 | Two tables with the same map are equal: the order of entry leaves no trace |
| BasicStore.Store.FindLine | inteiliDOS/shell/basic.c:277-281 | The search loop finds the line or -1 |
| BasicStore.Store.InsertLine | inteiliDOS/shell/basic.c:290-306 | The shifting code inserts or replaces as specified |
| BasicStore.Store.DeleteLine | inteiliDOS/shell/basic.c:308-313 | The shifting code deletes as specified |
| BasicStore.FormatNumber | inteiliDOS/shell/basic.c:1333-1339 | Writing digits backwards into eight characters and turning them round gives the decimal digits, if and only if the number is at most 99999999; the first digit that would not fit is where the code overruns the array |
| BasicStore.Store.Save | inteiliDOS/shell/basic.c:1331-1349 | The guarded loops write the whole text: no program that can be entered fills the buffer. Only a line number of nine or more digits stops it |
| BasicStore.Store.Load | inteiliDOS/shell/basic.c:1420-1456 | The nested loops read any file as the reading function says |
| BasicFile.SerialSize | inteiliDOS/shell/basic.c:1331-1349 | A saved program takes at most 139 characters a line |
| BasicFile.DigitsFitIff | inteiliDOS/shell/basic.c:1335-1339 | The decimal digits fit the eight characters kept for them exactly up to 99999999 |
| BasicFile.LoadUndoesSaveIff | inteiliDOS/shell/basic.c:1331-1456 | For every program that can be entered: it can be saved and loading gives it back if and only if all its line numbers lie between 1 and 99999999 |
| BasicFile.ZeroDropped | inteiliDOS/shell/basic.c:1452-1455 | A line numbered 0, which can be entered and is saved, is all that is lost |
| BasicFileMeaning.LineEntered | inteiliDOS/shell/basic.c:1420-1456 | A numbered line in a file enters the statement behind its number, and one space, up to the line end or 127 characters |
| BasicFileMeaning.JunkSkipped | inteiliDOS/shell/basic.c:1430-1440 | A line that does not begin with a digit is skipped up to its newline |
| KcsSpec.LateWindow | inteiliDOS/kernel/ac97.c:486-517 | A window one sample late still shows 6 crossings in a 1 and 2 in a 0 |
| KcsMeaning.ByteSamples | inteiliDOS/shell/basic.c:1515-1546 | Every sample of a recording, by its number: for each byte ten marks of seven samples, a 0, the bits from the lowest on, a 1, in fixed patterns of high and low |
| KcsMeaning.LeaderSamples | inteiliDOS/shell/basic.c:1609-1625 | 8000 samples of tone before them and 4000 behind |
| KcsSpec.LeaderPassed | inteiliDOS/shell/basic.c:1615 | The 8000-sample leader is passed in windows of 7, the last reaching one sample into the data |
| KcsSpec.ToneHasNoStart | inteiliDOS/kernel/ac97.c:545-575 | A 2400 Hz tone shows no start bit, wherever the windows fall |
| KcsMeaning.CaptureIs | inteiliDOS/kernel/ac97.c:533-593 | For any samples whatever: how the search for a start bit goes, over silence and over windows with three crossings or more, where it ends, and that the byte is what the next nine marks say, -1 if the ninth is a 0, -2 if it does not come in time |
| KcsSpec.ByteRead | inteiliDOS/kernel/ac97.c:533-593 | A framed byte read one sample late is that byte |
| KcsSpec.RoundTrip | inteiliDOS/shell/basic.c:1515-1546 | For every byte sequence, decoding the recorded samples from the first one returns exactly those bytes and then finds no further start bit |
| KcsSpec.HeardAllIff | inteiliDOS/shell/basic.c:1824-1861 | The whole recording is heard exactly when the key that stops it is not pressed after any of its bytes |
| Kcs.Recorder.EmitWave | inteiliDOS/shell/basic.c:1518-1530 | The phase-counting loop writes a square wave, and reports overflow exactly when it does not fit |
| Kcs.Recorder.EmitByte | inteiliDOS/shell/basic.c:1538-1546 | One framed byte |
| Kcs.Recorder.Record | inteiliDOS/shell/basic.c:1609-1625 | The whole recording, complete exactly for programs of at most 7317 bytes |
| Kcs.Listener.CountCrossings | inteiliDOS/kernel/ac97.c:486-503 | The loop counts the crossings of the samples it consumes |
| Kcs.Listener.DecodeBit | inteiliDOS/kernel/ac97.c:508-519 | One bit by three crossings or more, or -1 when samples run out |
| Kcs.Listener.CaptureByte | inteiliDOS/kernel/ac97.c:533-593 | The capture code returns what the decoding function says, from any position of any stream |
| Kcs.Listener.Receive | inteiliDOS/shell/basic.c:1824-1861 | Receiving until a byte fails or the key is pressed collects all bytes heard by then, cut to the buffer |
| IEditSpec.TypeRefines | inteiliDOS/shell/iedit.c:209-219 | A printable key inserts at the cursor of the flat text, or changes nothing when the line is full |
| IEditSpec.EnterRefines | inteiliDOS/shell/iedit.c:253-274 | Enter inserts a newline at the cursor, or changes nothing when the table is full |
| IEditSpec.BackspaceRefines | inteiliDOS/shell/iedit.c:221-251 | Both branches of backspace delete the character before the cursor; it changes nothing exactly at the start of the text and where the joined line would not fit |
| IEditSpec.DeleteLineRefines | inteiliDOS/shell/iedit.c:276-294 | Deleting a line takes it and one newline out of the flat text, or empties the only line; the cursor stays on the row where it can, no further right than before |
| IEditSpec.BackspaceUndoes | inteiliDOS/shell/iedit.c:209-274 | Type then backspace, and enter then backspace, are identities |
| IEditSpec.KeyKeepsBuffer | inteiliDOS/shell/iedit.c:209-294 | Every key keeps lines, table and cursor within their limits |
| IEditSpec.LoadUndoesSave | inteiliDOS/shell/iedit.c:373-452 | Every buffer the editor can hold survives saving and loading |
| IEditSpec.SaveUndoesLoadIff | inteiliDOS/shell/iedit.c:373-452 | Loading a file and saving it reproduces it exactly when it has at most 200 lines of at most 74 characters, newline-ended, without carriage returns |
| IEditSpec.SavedSize | inteiliDOS/shell/iedit.c:373-380 | The saved text is at most 75 characters a line, below the buffer |
| IEditMeaning.LineRead | inteiliDOS/shell/iedit.c:429-452 | A line that ends with a newline or a carriage return becomes a row, cut after 74 characters |
| IEditMeaning.ReproducedIff | inteiliDOS/shell/iedit.c:373-452 | Loading and saving reproduces a file exactly when the editor could have written it |
| IEdit.Editor.InsertChar | inteiliDOS/shell/iedit.c:209-219 | The shifting loop over the table of rows does what the key means |
| IEdit.Editor.Backspace | inteiliDOS/shell/iedit.c:221-251 | Likewise, including merging lines and moving all rows up |
| IEdit.Editor.Enter | inteiliDOS/shell/iedit.c:253-274 | Likewise, moving rows down and splitting one |
| IEdit.Editor.DeleteLine | inteiliDOS/shell/iedit.c:276-294 | Likewise for deleting a line |
| IEdit.Editor.Serialise | inteiliDOS/shell/iedit.c:373-380 | The guarded loops write the whole text; the guards never stop them |
| IEdit.Editor.ParseBuf | inteiliDOS/shell/iedit.c:429-452 | Reading a file in place gives the parsed lines |
| DosSpec.TableDetermined | inteiliDOS/kernel/dos.c:200-262 | Two tables with the same blocks in use are equal: free space is always merged as far as it can be |
| DosSpec.MergedKeeps | inteiliDOS/kernel/dos.c:200-208 | Merging tiles the same space, leaves no two free neighbours and moves no block in use |
| DosSpec.ResizeKeeps | inteiliDOS/kernel/dos.c:227-253 | A resize gives exactly the requested size, moves no other block in use and keeps at most 64 tiling blocks |
| DosSpec.ResizeGrantedIff | inteiliDOS/kernel/dos.c:227-253 | A block can be resized if and only if the paragraphs wanted are below 0xA000 and meet no other used block, and it is not a cut in a full table without a free block right behind |
| DosSpec.FreeKeeps | inteiliDOS/kernel/dos.c:254-262 | Freeing takes one block, never the program's own, out of use and nothing else |
| DosSpec.AllocateKeeps | inteiliDOS/kernel/dos.c:215-226 | An allocation adds a block of exactly the requested size at the start of the first free block large enough |
| DosSpec.AllocationGrantedIff | inteiliDOS/kernel/dos.c:215-226 | When a block is handed out: the first free one that is large enough fits exactly, or the table has a place for the rest |
| DosSpec.FreeUndoesAllocate | inteiliDOS/kernel/dos.c:215-262 | Freeing it again gives the very same table back |
| Dos.Arena.constructor | inteiliDOS/kernel/dos.c:329-332 | A loaded program's first table: its own block, and the rest free |
| Dos.Arena.Coalesce | inteiliDOS/kernel/dos.c:200-208 | The in-place loop merges as specified |
| Dos.Arena.LargestFree | inteiliDOS/kernel/dos.c:209-214 | The largest free block, or 0 |
| Dos.Arena.Resize | inteiliDOS/kernel/dos.c:227-253 | Result 9 iff no block in use starts there, 8 iff refused, with the table unchanged in both cases even when it is full; otherwise the specified table, and the size word of the program always agrees with its block |
| Dos.Arena.Allocate | inteiliDOS/kernel/dos.c:215-226 | Fails, with the table unchanged, exactly when no free block is large enough, or the first that is does not fit exactly and the table is full |
| Dos.Arena.Free | inteiliDOS/kernel/dos.c:254-262 | Succeeds exactly for a block in use that is not the program's own; failure changes nothing |
| Thermal.StepIsSafe | inteiliDOS/kernel/thermal_hw.c:156-252 | Whatever the controller answers, monitoring writes no register but 0x4E, and that only after this cycle read a right vendor byte |
| Thermal.StepRestores | inteiliDOS/kernel/thermal_hw.c:156-252 | One step keeps track of the bank selected at first, and a step that returns 1, or fails before trying to write, or fails with the restoring write acknowledged, ends with it selected |
| Thermal.CycleRestores | inteiliDOS/kernel/thermal_hw.c:146-252 | Over a whole cycle from its start, with any controller answers and the chip's bank tracked along: the bank selected at the end is the one selected before, unless the cycle fails having tried to write and its restoring write is not acknowledged |
| Thermal.CycleIsSafe | inteiliDOS/kernel/thermal_hw.c:146-252 | Over a whole cycle: every write is to register 0x4E, and only after this cycle's own reads of the bank register and a right vendor byte |
| ThermalMeaning.CycleSends | inteiliDOS/kernel/thermal_hw.c:146-252 | A cycle that succeeds has sent, from first to last, just the 23 transfers of its program, register by register |
| ThermalMeaning.CycleMeasures | inteiliDOS/kernel/thermal_hw.c:168-252 | And it has identified the chip, and holds for every value it reads an answer of this cycle to that very transfer |
| Thermal.RankFalls | inteiliDOS/kernel/thermal_hw.c:156-252 | Every tick that does not end a cycle leaves fewer ticks to go |
| Thermal.CycleEnds | inteiliDOS/kernel/thermal_hw.c:146-252 | A cycle is over at most 1374 ticks after it began |
| Thermal.Driver.Start | inteiliDOS/kernel/thermal_hw.c:146-153 | The code starts a cycle as the machine does, deferring while the bus is lent |
| Thermal.Driver.Step | inteiliDOS/kernel/thermal_hw.c:156-252 | The code takes the machine's step |
| Smbus.OneDriverAtATime | inteiliDOS/kernel/battery.c:89-120 | In every interleaving of thermal interrupts with the single steps of a battery poll, at most one driver has a transfer in flight on a controller, and neither writes to a controller the other is using |
| Smbus.LoanEnds | inteiliDOS/kernel/battery.c:63-120 | Every step of the reader brings the end of its loan nearer, except waiting for a transfer less than 20 ms old |
| Smbus.LoanBounded | inteiliDOS/kernel/battery.c:63-120 | Over every run: while the bus is lent the reader takes at most 71 steps and two for every wait |
| Smbus.ShutdownEnds | inteiliDOS/kernel/battery.c:123-132 | Polled once a millisecond, from any instant and against any hardware, a sample in flight ends within 126 polls |
| SmbusMeaning.BeginsIff | inteiliDOS/kernel/battery.c:89-104 | When a sample begins: a controller that is in use, the time has come, the bus is idle, neither interrupts nor error checking are on, and the monitor does not use it |
| SmbusMeaning.ConsistentIs | inteiliDOS/kernel/battery.c:72-76 | Which six words belong together, bit by bit |
| SmbusMeaning.SampleIsGood | inteiliDOS/kernel/battery.c:69-120 | A sample that ends well has asked for its six words in order and written nothing else, each word is the answer to its own request, the first and last agree and the status shows no error |
| Smbus.Battery.Poll | inteiliDOS/kernel/battery.c:89-120 | The code of a poll, uninterrupted, is those steps taken to the end, with exactly their port writes |
| Pcm.Output.PollHda | inteiliDOS/kernel/pcm.c:372-389 | The loop always reaches the hardware's position within five turns and renders just as many of the mixer's frames as it is ahead; afterwards the buffers hold the last 1920 frames, each in its place |
| Pcm.CaughtUpIff | inteiliDOS/kernel/pcm.c:372-389 | A poll makes up for what was played if and only if that is less than the whole ring |
| Pcm.Output.RunHda | inteiliDOS/kernel/pcm.c:372-389 | Whole runs in which polls come before the hardware is a ring ahead: what is heard is the mixer's frames, every one once and in order, and what has been rendered anew is just what the last poll saw played |
| Pcm.Output.RefillAc97 | inteiliDOS/kernel/pcm.c:348-358 | Finishes the descriptors the hardware has left and the current one as far as played, keeps three published ahead of it modulo 32, and leaves the last 1920 frames of the mixer in the four buffers, each in its place |
| Pcm.Output.RunAc97 | inteiliDOS/kernel/pcm.c:346-370 | Whole runs of hardware that goes through 32 descriptors over four shared buffers and stops after the last one published, with polls in between that read where it was since the last one: what is heard is the mixer's frames, every one once and in order, none overwritten before it is played, and what has been rendered anew is just what the last poll saw played |
| Pcm.RenderingSparesUnplayed | inteiliDOS/kernel/pcm.c:348-358 | A refill writes just the places of the frames it has seen played; a frame that was published and is not played keeps its place |
| Pit.ExactClocks | inteiliDOS/kernel/dos_hardware.c:34-37 | After n ticks exactly floor(n*1193182/1000) clocks have passed (plus the fraction at the start) |
| Pit.PhaseIs | inteiliDOS/kernel/dos_hardware.c:38-44 | Every counter's phase is the clocks so far modulo its count, and below it |
| Pit.EdgesCounted | inteiliDOS/kernel/dos_hardware.c:38-44 | Channel 0 raises its edge floor((phase + clocks)/count) times, none missed |
| Pit.SmallerCountMisses | inteiliDOS/kernel/dos_hardware.c:110-111 | With a count of 1193, which is refused, one tick can swallow a period |
| Pit.Timer.Tick | inteiliDOS/kernel/dos_hardware.c:34-45 | One tick on the chip's fields |
| Pit.Timer.Write | inteiliDOS/kernel/dos_hardware.c:95-113 | Writing a count, in one or two bytes: channel 0 refuses counts below 1194 and then keeps waiting for a high byte, a new count starts the period over; every array changes in the one channel at most |
| Pit.Timer.Read | inteiliDOS/kernel/dos_hardware.c:86-94 | Reading a count, latched or not, byte by byte; every array changes in the one channel at most |
| Pit.LatchedRead | inteiliDOS/kernel/dos_hardware.c:71-94 | Latching and reading both bytes gives the count of the moment of the latch, however many ticks pass in between |
| Pit.SetWaitRead | inteiliDOS/kernel/dos_hardware.c:71-113 | A count set in two bytes, any number of milliseconds, and a latched read in two bytes: channel 0 refuses counts from 1 to 1193, and else the answer is the count less the clocks gone by, modulo the count |
| Div64.SubtractShifted | inteiliDOS/kernel/div64.c:7-11 | The bit lost when the remainder is shifted out of 64 bits is made up for by the wrapping subtraction |
| Div64.Divide | inteiliDOS/kernel/div64.c:4-14 | n = q*d + r with r < d for all 64-bit n and all d > 0 |
| Div64.DivideSigned | inteiliDOS/kernel/div64.c:19-24 | Signed division truncates toward zero with the remainder's sign that of the dividend, exactly unless the quotient does not fit |
| EndToEnd.EditorTextSurvivesDisk | inteiliDOS/shell/iedit.c:373-452 | A text saved by the editor through the filesystem and opened again is the same text |
| EndToEnd.ProgramSurvivesDisk | inteiliDOS/shell/basic.c:1331-1456 | A BASIC program saved through the filesystem and loaded again is the same program, if and only if its line numbers lie between 1 and 99999999 |
| EndToEnd.RecordAndPlay | inteiliDOS/shell/basic.c:1573-1652 | The code of saving to tape and loading from it, layer by layer: the recording succeeds and what is heard of it loads as the same program if and only if there is a program, its line numbers lie between 1 and 99999999, and its text has at most 7317 characters |
| EndToEnd.PlayedIffKeepable | inteiliDOS/shell/basic.c:1824-1914 | Of the samples of a program's text, of any length, what is heard and loaded is the program if and only if its line numbers lie between 1 and 99999999 |
| EndToEnd.LongProgramNotRecordable | inteiliDOS/shell/basic.c:1609-1652 | Sixty full lines numbered 1 to 60 survive saving to disk and cannot be recorded |

## Left out

- Fs.FileSystem.Read: the buffer is assumed to be small enough that rounding its size to sectors does not wrap, which holds in a 32-bit address space shared with the kernel.
- Fs.FileSystem.Write: NULL names and buffers are not modelled; every name is a string without terminators, and data is a byte sequence of its own length.
- FsRuns.RunKeepsValid: a run's writes and publications are whole; a directory write that fails half-way leaves that one sector in doubt, as `Fs.FileSystem.Write` states, and ends the run. The same holds for `FsRuns.RunIsFold`.
- Logical volumes (`fs_volume_drive` and its ranking of drives) and drive detection: a thin layer over the calls modelled here.
- Heap.Heap.Kfree: the argument is NULL or a live pointer; double frees and foreign pointers are not modelled.
- Pages.PhysicalMemory.AllocPages: does not model clearing the pages handed out; the bitmap itself is taken to be there, so the branch for a failed allocation of it is missing.
- Pages.PhysicalMemory.Init: missing boot information is treated like boot information with no flag set, which the code answers in the same way.
- XhciDriver.Driver.AnyCalls: register reads, descriptors and completions are arbitrary, and requests are recorded as touches of memory without their contents; a slot counts as let go of once its Disable Slot command is acknowledged, or the whole controller is reset; an entry that is reported back is taken to have been reached after those before it, and report requests to be answered once each.
- Controller resets, doorbells, legacy hand-off and descriptor parsing of the xHCI driver.
- Basic.Interpreter.EvalNamed: does not model LEN, VAL, ASC, RND and PEEK, which need strings, random numbers or memory; their names raise the error of an unknown name here.
- BASIC statements, string expressions, INKEY and POKE; a FOR loop that runs zero times leaves the program counter on its NEXT, so textbook semantics are not claimed.
- BasicRoundTrip.EvaluatorIsCorrect: trees whose intermediate values leave 32 bits are excluded, because the code's arithmetic on them is undefined in C.
- BasicStore.Store.Load: line numbers that do not fit 32 bits wrap here, where the code is undefined.
- BasicFile.LoadUndoesSaveIff: line numbers that do not fit a 32-bit signed integer are left out, because the code's arithmetic on them is undefined in C; what an overrun of the digit buffer does to other memory is not modelled, only when it happens.
- Kcs.Listener.FindStart: time is counted in samples, as if they arrived at 8000 a second and were read as they come; the capture ring, its overruns and other sample rates are not modelled. The round trip is claimed from the first sample of the recording.
- EndToEnd.RecordAndPlay: what is played back is taken to be the recorded samples, and the key that stops it not to be pressed (`KcsSpec.HeardAllIff` says what pressing it does); the same text is also sent to the PC speaker, whatever its length, and written to a file, which are not modelled.
- Kcs.Recorder.Record: the 44 header bytes are reserved but not filled in.
- IEdit.Editor.Serialise: characters are taken as they are; their narrowing to bytes is modelled in `EndToEnd` only.
- The screen, prompts, dialogs and cursor keys of the editor.
- Dos.Arena.Resize: of the program's prefix only the size word is modelled; loading, relocation, interrupts and paging of the DOS runtime are left out.
- Thermal.CycleRestores: only this driver is taken to write the chip's bank selector, and a transfer that ends well is taken to have done what it says.
- Smbus.OneDriverAtATime: the battery reader's steps are modelled on values, because an interrupt can fall between any two of them; `Smbus.Battery` has the same poll as code, uninterrupted. Published battery figures and thermal averages are left out.
- Pcm.Output.RefillAc97: a frame is its number in the mixer's output, not its samples; the descriptor and the count of samples left are taken to be read together, although the code reads two registers and repeats that once when they disagree.
- Pcm.Output.RunHda: nothing stops this hardware, so runs in which polls come too late are excluded; `Pcm.CaughtUpIff` says what a poll then misses.
- Pit.Timer.Write: sound output and ports other than the timer's are left out.
- Div64.Divide: division by zero, which stops the machine, is a precondition.
- Menus, shell commands, the file manager, graphics, ISO 9660 and FAT12 readers, program loaders, the keyboard queue, USB descriptors and health screens.
