# Embedded Xinu: paging, file system, process queues

A Dafny model of four parts of two Embedded Xinu trees, with the properties they exist for:

1. **Sv39 paging** (RISC-V): the free-page list threaded through the free pages themselves, the three-level page
   tables built out of those pages, and the tables that boot and process creation set up. One array of 64-bit words
   holds all of it. The reference is the address translation of sections 4.3.2 and 4.4 of the RISC-V Privileged
   Architecture, version 20211203.
2. **The disk free list and the file calls on top of it** (MIPS): collector nodes linked by pointers in memory and by
   block numbers on disk, the directory, and create, open, seek, put, get, close and delete.
3. **Process queues and the process table** (RISC-V): doubly linked lists that share one array, kept in step with
   process states by create, ready and kill.
4. **The disk daemon's block codec**: hex digits decoded in the buffer that holds them.

`dafny verify dfyconfig.toml` checks everything.

| file | holds |
|---|---|
| Status, Bits, SafeMem | return codes, 64-bit words, `&`, `\|`, shifts, page-table entries |
| PageTables, PageRanges, MapSteps | the invariant of all trees in one memory, and what one store does to it |
| Paging | the allocator and the mapper, in place on one memory |
| Runs | runs of paging operations: last mapping wins, separation, conservation |
| StackStore | what create's store past its stack page does to the free list and the tables |
| Sv39 | the architecture's translation and access checks, and how mappings show in them |
| VmInit, VmPolicy | the kernel and user tables and what they allow |
| PrintTable | the recursive table printer |
| FreeChain, DiskImage, Format, FreeRuns | the free list as a value, its records on disk, formatting, runs |
| Files, FileRuns, RoundTrip | the file calls as functions on values, block ownership over runs, texts through the disk |
| SavedFiles | what keeps text that was written back, and when an open discards text |
| FileCalls | finding, creating, seeking and deleting a file as its callers see them |
| Deletion, FreshDisk | what fileDelete does to block ownership; short runs from sbInit's disk that lose blocks |
| FileSystem | the same calls on linked nodes, the directory table and the disk |
| QueueTable, Processes, Kernel | queues in one table, process states, and the calls on both |
| ProcessRuns | the process table after any run from boot, told from the calls and what they returned |
| DiskCodec | the block codec |

Where the source changes state in place the model does too: `Paging.Machine`, `FileSystem.FileSystem` and
`Kernel.ProcessTable` are classes whose methods follow the C functions branch by branch. Each method's contract ties
its new state to a function or relation on values, and the theorems are about those.

Results that go against what the code or its comments suggest, each with the exact condition:

- `sbFreeBlock` keeps all blocks, and disk and memory in agreement, if and only if the list is empty or its last node has
  room (`PutConservesIff`, `PutAgreesIff`). On the source's own disk 61 gets and 56 frees of handed-out blocks lead to a
  free that finds no room (`FullNodeIsReached`). The disk then still describes the old list (`FullNodeKeepsOld`).
- `sbFreeBlock` takes only blocks 1 to 62 of the source's 256, so blocks 63 to 255 are used once: when one of them has been
  handed out, no calls before or after make it free again (`HighBlocksUsedOnce`, `LowBlocksReturn`).
- `sbInit` leaves a readable list exactly when the block count minus two is no multiple of a collector's size plus one;
  otherwise the last record names a block past the disk (`SbInit`, `Unformatted`). 256 blocks and 61 entries are fine.
- A remount never gives a block two owners, but a file created after the last close is not in the directory on disk, so
  its block is lost. From a fresh disk a run loses nothing if and only if no remount comes after a `fileCreate` that
  returned a descriptor with no successful `fileClose` in between (`WholeIff`): a condition on the calls and their return
  codes alone. Create and remount on the source's disk loses block 63 (`CreateRemountLoses`).
- `fileDelete` frees the block whose number is the descriptor. It keeps every block's owner if and only if that block is
  the file's own and the list has room, or sbFreeBlock refuses the number and the slot holds no block
  (`DeleteConservesIff`); it gives no block two owners if and only if, when it frees one into a list with room, that one
  is the file's own or a lost one (`DeleteSafeIff`). Deleting descriptor 1 frees the directory's block
  (`DeleteOneFreesDirectory`); deleting the first file created loses block 63 (`CreateDeleteLoses`).
- `fileDelete` does not write the directory: a remount brings a deleted file back, with its text, unless a close of some
  file comes first (`DeleteNeedsClose`, `DeletedTextReturns`).
- A text comes back whole if and only if it fits in a block and has no byte 0xFF, which `fileGetChar` returns as -1
  (`TextSurvives`, `WholeTextIff`).
- The kernel table is the identity from `_start` to the end of memory except for a hole when `_interrupte` lies more than
  two pages past `_ctxsws` (`KernelIdentity`).
- `create` writes a word just past its stack page. In every state reached with the flags the source uses, that harms the
  free list or a page table if and only if the page there is free or a table (`StackMagicAfterRuns`); the first process
  after boot always harms a page table (`FirstStackHarms`, `FirstProcess`).
- In a user table the stack page and the swap page are the same physical page, at `SWAPAREAADDR` (`StackAndSwapCoincide`).
  That is past the end of memory, so the stack address never reaches the page that was allocated for it
  (`StackNeverReached`).
- Under a user table the kernel can fetch only from the context-switch pages, with SUM set or not. The interrupt handler
  is in no section that the linker script puts there, so its fetch faults (`TrapAccess`, `HandlerFaults`).
- A closed file still takes characters, but the next `fileOpen` reads its block again: what was put is gone unless the
  block held the same character there (`PutAfterCloseIsLost`).

## Model

| member | source | states |
|---|---|---|
| SafeMem.PageRounding | RISC-V-Implementation/include/safemem.h:18-20 | truncpage rounds down and roundpage up to a page, wrapping to 0 in the last page of the address space |
| SafeMem.IndicesAreVpn | RISC-V-Implementation/system/map.c:91-93 | the three shift-and-mask expressions are va/2^30, va/2^21 and va/2^12 modulo 512 for every 64-bit word |
| SafeMem.IndicesAreInjective | RISC-V-Implementation/system/map.c:91-93 | below 2^39 the three indices together determine the page |
| SafeMem.EntryRoundTrip | RISC-V-Implementation/include/safemem.h:66-67 | PTE2PA of PA2PTE(pa) with flags below 1024 is truncpage(pa), and the flags come back unchanged |
| SafeMem.LeafWordFields | RISC-V-Implementation/system/map.c:117-118 | a leaf slot holds the page of pa with exactly the flags attr and V |
| PageTables.TablePathsUnique | RISC-V-Implementation/system/map.c:95-116 | in a well-formed memory two tables of one tree with the same level and prefix are the same page |
| PageTables.LeafStore | RISC-V-Implementation/system/map.c:117-118 | writing one leaf slot changes the view of exactly one page of exactly one tree and keeps every tree well formed |
| PageRanges.NeededBound | RISC-V-Implementation/system/map.c:62-69 | n pages need at most ((n-1)/512+2) + ((n-1)/2^18+2) new tables |
| PageRanges.EnoughForNext | RISC-V-Implementation/system/map.c:62-69 | with as many free pages as prefixes missing at the start, each turn of the loop finds the pages it takes |
| Paging.Machine.PgAlloc | RISC-V-Implementation/system/pgalloc.c:14-30 | pops the head of the free list and clears that page only; SYSERR exactly on an empty list; every table and data page keeps its words |
| Paging.Machine.PgFree | RISC-V-Implementation/system/pgFree.c:32-44 | pushes a page-aligned page, refuses any other address, and leaves tables and other data alone |
| Paging.Machine.PgFreeRange | RISC-V-Implementation/system/pgFree.c:9-25 | pushes exactly the whole pages at roundpage(start)+4096k with k below (end-roundpage(start)-1)/4096, or refuses the range; tables and other data pages keep their words |
| Paging.Machine.PgInit | RISC-V-Implementation/system/pgInit.c:7-14 | the free list is duplicate-free and holds the heap's whole pages in descending order, at most pgtbl_nents of them |
| Paging.Machine.PgTraverseAndCreate | RISC-V-Implementation/system/map.c:81-122 | given as many free pages as tables are missing on the way, remaps one page, takes exactly those tables and returns OK |
| Paging.Machine.MapAddress | RISC-V-Implementation/system/map.c:44-72 | refines one map update over the whole range: page k gets truncpage(pa)+4096k with attr and V, all other pages of all trees stay, and exactly the missing tables are taken |
| Paging.Machine.MapPage | RISC-V-Implementation/system/map.c:21-33 | the same for one page; the page argument plays no part |
| Paging.Machine.WriteData | RISC-V-Implementation/system/vm_userinit.c:45-47 | a store to an allocated page that is no table changes no translation |
| Runs.RunsAreLastWins | RISC-V-Implementation/system/map.c:44-122 | over every run of allocation, freeing, mapping and data writes each page of each tree reads as its last mapping, and free plus allocated pages stay the same set |
| Runs.Separation | RISC-V-Implementation/system/map.c:95-118 | in every consistent state each interior table is reached by one path of one tree and is not on the free list |
| Runs.DataSurvives | RISC-V-Implementation/system/pgalloc.c:14-30 | a page that stays allocated keeps every word over a run that does not write to it |
| Sv39.WalkIsView | RISC-V-Implementation/system/map.c:95-118 | the architecture's walk of a tree built here is decided by one leaf slot |
| Sv39.RangeTranslates | RISC-V-Implementation/system/map.c:44-72 | after mapAddress the hardware translates the range to the matching physical addresses with flags attr and V (or finds no leaf there exactly when the flags or the address allow none) and every other address as before; the same for every access, with its privilege mode, SUM, MXR and the A and D bits |
| VmInit.VmKernInit | RISC-V-Implementation/system/vm_kerninit.c:8-43 | builds a new tree that reads as the kernel's sequence of mappings, keeps all other trees, and needs no more free pages than the stated bound |
| VmInit.VmUserInit | RISC-V-Implementation/system/vm_userinit.c:19-51 | the same for a user table, whose swap page holds the kernel stack pointer |
| VmInit.Boot | RISC-V-Implementation/system/pgInit.c:7-14 | pgInit followed by vm_kerninit on the board's memory reaches a state with the kernel table, of which the policies below speak; pages for a process are left, the page after the next one is a table, and all flags are low |
| StackStore.StackMagicIff | RISC-V-Implementation/system/create.c:74-75 | the store past the stack page leaves free list, trees and views as they were exactly when that page is not free and no table, or holds the word already |
| StackStore.StackMagicExactly | RISC-V-Implementation/system/create.c:74-75 | where all flags are low, as everywhere in the source, that is exactly when the page is neither free nor a table |
| StackStore.StackMagicAfterRuns | RISC-V-Implementation/system/create.c:74-75 | so in every state a run with such flags reaches from the start |
| StackStore.FirstStackHarms | RISC-V-Implementation/system/create.c:50-75 | from a state with a table just above the free pages, the first stack page's successor is a table whatever runs in between, and the store harms it |
| VmInit.CreatePages | RISC-V-Implementation/system/create.c:50-65 | create's stack page, user table and swap page; the store past the stack page then harms a table if one was just above the free pages |
| VmInit.FirstProcess | RISC-V-Implementation/system/create.c:50-75 | boot and the first create on the board reach a state in which the store harms a table |
| VmInit.BootSuffices | RISC-V-Implementation/system/vm_kerninit.c:12-34 | the pages pgInit frees are enough for the kernel table and a first process |
| VmPolicy.KernelBuilt | RISC-V-Implementation/system/vm_kerninit.c:15-34 | what the sequence of mappings leaves, later ones winning, is exactly one table given region by region |
| VmPolicy.UserBuilt | RISC-V-Implementation/system/vm_userinit.c:25-48 | the same for the user script |
| VmPolicy.KernelTranslates | RISC-V-Implementation/system/vm_kerninit.c:15-34 | the translation of every 64-bit address under the kernel table |
| VmPolicy.KernelIdentity | RISC-V-Implementation/system/vm_kerninit.c:18-34 | identity from _start to the end of memory except for the hole between _ctxsws+0x2000 and _interrupte |
| VmPolicy.KernelWriteXorExecute | RISC-V-Implementation/system/vm_kerninit.c:15-34 | no page of the kernel table is writable and executable |
| VmPolicy.UserTranslates | RISC-V-Implementation/system/vm_userinit.c:25-48 | the translation of every 64-bit address under a user table |
| VmPolicy.UserWritable | RISC-V-Implementation/system/vm_userinit.c:25-48 | user mode can write exactly the UART page and the page at PROCSTACKADDR |
| VmPolicy.UserWriteXorExecute | RISC-V-Implementation/system/vm_userinit.c:25-48 | no page of a user table is writable and executable |
| VmPolicy.UserReadsKernelData | RISC-V-Implementation/system/vm_userinit.c:39-40 | user mode reads [_datas, memheap) and cannot write it |
| VmPolicy.UserKeptOut | RISC-V-Implementation/system/vm_userinit.c:32-36 | the context-switch pages are closed to user mode exactly up to _interrupte |
| VmPolicy.StackAndSwapCoincide | RISC-V-Implementation/system/vm_userinit.c:43-48 | stack and swap addresses reach the same physical page, and the allocated stack page exactly if it lies at SWAPAREAADDR |
| VmPolicy.StackNeverReached | RISC-V-Implementation/system/vm_userinit.c:43 | no page pgInit frees lies there, so the stack address never reaches the allocated page |
| VmPolicy.KernelAccess | RISC-V-Implementation/system/vm_kerninit.c:15-34 | which addresses the kernel can load from, store to and fetch from under its table |
| VmPolicy.UserAccess | RISC-V-Implementation/system/vm_userinit.c:25-48 | which addresses user code can load from, store to and fetch from under a user table |
| VmPolicy.TrapAccess | RISC-V-Implementation/system/vm_userinit.c:25-48 | which addresses the kernel can load from, store to and fetch from under a user table, with SUM set as start.S leaves it or clear |
| VmPolicy.HandlerFaults | RISC-V-Implementation/system/vm_userinit.c:28-36 | under a user table the kernel's fetch from [_start, _ctxsws) and [_interrupte, _datas) faults, the interrupt handler's code included |
| PrintTable.PrintPageTable | RISC-V-Implementation/system/testcases.c:68-88 | terminates on every well-formed tree whose pages are visible, at most three tables deep, and prints the lines of the specification in order |
| PrintTable.PrintsEveryPage | RISC-V-Implementation/system/testcases.c:77-86 | the leaf lines are one for each mapped page, in ascending order, under the last VPN digit |
| PrintTable.RunsPrint | RISC-V-Implementation/system/testcases.c:77-86 | this holds after every run in which mapAddress gave the tree only attributes with R, W or X |
| FreeChain.GetPops | MIPS-Implementation/file/sbGetBlock.c:42-120 | in all three branches sbGetBlock takes the head of the handout sequence and leaves its tail |
| FreeChain.DrainGivesHandout | MIPS-Implementation/file/sbGetBlock.c:33-123 | repeated calls give the handout sequence from the front, and the list is empty exactly when all of it is out |
| FreeChain.PutInserts | MIPS-Implementation/file/sbFreeBlock.c:87-119 | with room the handout sequence gains the block at one place and keeps the order of the rest; on at most one node it comes out next |
| FreeChain.PutConservesIff | MIPS-Implementation/file/sbFreeBlock.c:87-119 | sbFreeBlock conserves blocks exactly when the list is empty or the last node has room |
| FreeChain.PutLoses | MIPS-Implementation/file/sbFreeBlock.c:104-113 | the full-node branch loses exactly the last node's own block, all its entries and the entries of the node before it, and takes the freed block nowhere |
| DiskImage.GetKeepsAgreement | MIPS-Implementation/file/sbGetBlock.c:49-119 | the one record sbGetBlock writes keeps the disk describing the list in memory |
| DiskImage.PutKeepsAgreement | MIPS-Implementation/file/sbFreeBlock.c:28-119 | so do the records sbFreeBlock writes when there is room |
| DiskImage.PutAgreesIff | MIPS-Implementation/file/sbFreeBlock.c:28-119 | after sbFreeBlock disk and memory agree exactly when there was room |
| DiskImage.FullNodeKeepsOld | MIPS-Implementation/file/sbFreeBlock.c:104-113 | freeing a block that is no collector, the full-node branch writes only the new collector's record, pointing at the last one but one, and the disk still describes the list as it was |
| DiskImage.OnDiskUnique | MIPS-Implementation/file/sbOpen.c:57-69 | following block numbers from one first block cannot give two different lists |
| Format.FillsPartition | MIPS-Implementation/file/sbInit.c:31-70 | the formatted list hands out every block of the range exactly once, the first collector last |
| Format.FreshListDrains | MIPS-Implementation/file/sbInit.c:31-70 | draining a fresh list gives that many different blocks, block 2 last, and SYSERR for ever after |
| Format.DanglingRun | MIPS-Implementation/file/sbInit.c:43-60 | if the last record names a block past the disk no list can be read back |
| FreeRuns.RunsAgree | MIPS-Implementation/file/sbGetBlock.c:33-123 | over every run of sbGetBlock and sbFreeBlock with room, disk and memory agree and free plus handed-out blocks are constant, block by block |
| FreeRuns.ReturnsIff | MIPS-Implementation/file/sbFreeBlock.c:76-122 | a block that was handed out goes back to the free list exactly when its number is from 1 to the collector size plus 1; otherwise nothing changes |
| FreeRuns.OutsideStaysTaken | MIPS-Implementation/file/sbFreeBlock.c:76-78 | over every run a block outside that range stays out once it was handed out |
| FreeRuns.RereadAfterRun | MIPS-Implementation/file/sbOpen.c:40-71 | after every such run the list on disk is the one in memory: nodes, counts and entries |
| FileRuns.OwnershipMeans | MIPS-Implementation/file/fileCreate.c:22-53 | blocks 0 and 1, the free blocks and the files' blocks are pairwise distinct, and nothing is lost exactly when they are all blocks |
| FileRuns.CreateStep | MIPS-Implementation/file/fileCreate.c:22-53 | fileCreate moves the first block of the handout sequence to the file it returns and keeps every owner count |
| FileRuns.CloseStep | MIPS-Implementation/file/fileClose.c:20-32 | fileClose writes no block of the free list, keeps every owner count, and leaves all files listed on disk |
| FileRuns.CloseTwice | MIPS-Implementation/file/fileClose.c:20-31 | closing again writes nothing new and changes nothing |
| FileRuns.OpenTwice | MIPS-Implementation/file/fileOpen.c:25-47 | opening again gives the same descriptor and leaves cursor and unsaved text alone |
| FileRuns.RemountStep | MIPS-Implementation/file/sbOpen.c:10-34 | a remount gives no block a second owner and keeps all owners exactly when every file is listed |
| FileRuns.ListedStep | MIPS-Implementation/file/fileClose.c:20-36 | a successful create leaves a file that is not in the directory on disk, a successful close or a remount leaves none, and every other call changes nothing about that |
| FileRuns.RunsKeepOwnership | MIPS-Implementation/file/fileCreate.c:13-54 | over every run of the file calls and remounts no block has two owners, memory and disk agree, and owners stay exactly when no remount comes after a successful create without a successful close in between |
| FileRuns.WholeIff | MIPS-Implementation/file/fileCreate.c:13-54 | a run that starts with nothing lost ends so exactly then |
| Deletion.DeleteConservesIff | MIPS-Implementation/file/fileDelete.c:25-43 | fileDelete keeps all owners exactly when it frees the file's own block into a list with room, or frees nothing and the slot holds no block |
| Deletion.DeleteSafeIff | MIPS-Implementation/file/fileDelete.c:38 | fileDelete leaves no block with two owners exactly when a block it frees into a list with room is the file's own or had no owner |
| Deletion.DeleteAgreesIff | MIPS-Implementation/file/fileDelete.c:38 | after fileDelete memory and disk agree on the free list exactly when it frees nothing or the list has room |
| Deletion.DeleteFreesDirectory | MIPS-Implementation/file/fileDelete.c:38 | deleting descriptor 1 puts the directory's block on any list with room |
| FreshDisk.FiveCollectors | MIPS-Implementation/file/sbInit.c:31-70 | with 256 blocks and 61 entries sbInit makes four full collectors and one of five entries |
| FreshDisk.FullNodeIsReached | MIPS-Implementation/file/sbFreeBlock.c:104-113 | from there 61 gets and 56 frees of handed-out blocks lead to an accepted free that loses blocks and leaves disk and memory apart |
| FreshDisk.HighBlocksUsedOnce | MIPS-Implementation/file/sbFreeBlock.c:76-78 | on the source's disk a block from 63 on that was handed out is never free again, whatever gets and frees come before and after |
| FreshDisk.LowBlocksReturn | MIPS-Implementation/file/sbFreeBlock.c:76-122 | after every such run, freeing a block that was handed out puts it on a list with room exactly when its number is at most 62 |
| FreshDisk.CreateRemountLoses | MIPS-Implementation/file/fileCreate.c:13-54 | from there create and remount leave block 63 without an owner |
| FreshDisk.CreateDeleteLoses | MIPS-Implementation/file/fileDelete.c:38 | from there create and delete leave block 63 without an owner, block 0 being refused |
| FreshDisk.DeleteOneFreesDirectory | MIPS-Implementation/file/fileDelete.c:38 | from there create and delete of descriptor 1 put the directory's block on the free list |
| RoundTrip.PutRefines | MIPS-Implementation/file/filePutChar.c:19-34 | filePutChar overwrites at the cursor or appends, and fails exactly at the end of a full block |
| RoundTrip.GetRefines | MIPS-Implementation/file/fileGetChar.c:20-32 | fileGetChar gives the character under the cursor and advances, or fails at the end |
| RoundTrip.SeekRefines | MIPS-Implementation/file/fileSeek.c:19-33 | fileSeek accepts exactly the offsets inside the text and below the block length |
| RoundTrip.ReopenedText | MIPS-Implementation/file/fileOpen.c:25-47 | any file with unsaved text that is closed, lost from memory and opened by name has that text, cursor at the start |
| RoundTrip.OpenAfterClose | MIPS-Implementation/file/fileClose.c:20-26 | the same without losing memory: a closed file is neither open nor dirty, so the next fileOpen reads it from the start and reading to the error gives its text |
| RoundTrip.TextSurvives | MIPS-Implementation/file/fileClose.c:20-37 | create, put, close, remount, open and read to the error return the text as far as it fits, up to its first byte 0xFF |
| RoundTrip.WholeTextIff | MIPS-Implementation/file/fileGetChar.c:25-32 | that is the whole text exactly when it fits in a block and has no byte 0xFF |
| SavedFiles.BlockStays | MIPS-Implementation/file/fileClose.c:20-25 | over every run, remounts included, a block that is not free keeps its bytes unless a close writes a file back to it |
| SavedFiles.RunsKeepSaved | MIPS-Implementation/file/fileClose.c:20-36 | over every run that puts nothing to it a saved file keeps name, length, block, bytes and directory entry |
| SavedFiles.SavedTextStays | MIPS-Implementation/file/fileOpen.c:25-47 | the text of a closed file comes back by name after every such run |
| SavedFiles.PutAfterCloseIsLost | MIPS-Implementation/file/fileOpen.c:36-45 | a character put to a closed file is accepted, and the next open discards it unless the block held it already |
| FileCalls.NamedIs | MIPS-Implementation/file/fileOpen.c:27-28 | a file matches a name exactly when it is used and strncmp finds the first seven characters equal |
| FileCalls.OpenFinds | MIPS-Implementation/file/fileOpen.c:25-50 | fileOpen fails and changes nothing exactly when no used file has the name; otherwise it gives the first that has, untouched if open and else from the start of its block |
| FileCalls.CreateGives | MIPS-Implementation/file/fileCreate.c:22-53 | fileCreate puts an empty, open file of that name in the first free slot and changes no other; it fails exactly for want of a slot or a block, and takes the slot in the second case |
| FileCalls.SeekThenGet | MIPS-Implementation/file/fileSeek.c:19-33 | seeking inside the text and reading gives the character there; other offsets are refused |
| FileCalls.SeekThenPut | MIPS-Implementation/file/fileSeek.c:19-33 | seeking and writing replaces that character or appends at the end, and marks the file dirty; no other file changes |
| FileCalls.DescriptorsTaken | MIPS-Implementation/file/fileClose.c:14-18 | the calls take exactly the descriptors 0 to 8 with a file behind them; all others change nothing |
| FileCalls.RemountCloses | MIPS-Implementation/file/sbOpen.c:10-34 | after a remount no file is open, dirty or in memory |
| FileCalls.DeletedIsGone | MIPS-Implementation/file/fileDelete.c:34-36 | no call reaches a deleted file by descriptor or name, its slot can be given again, and no other slot changes |
| FileCalls.DeleteNeedsClose | MIPS-Implementation/file/fileDelete.c:32-42 | a remount brings every deleted file back as the directory on disk has it, unless a close comes first |
| FileCalls.DeletedTextReturns | MIPS-Implementation/file/fileDelete.c:32-42 | delete, remount and open by the name give back the text that was on disk |
| FileSystem.FileSystem.constructor | MIPS-Implementation/file/sbOpen.c:92-114 | before a disk is opened nothing of it is in memory |
| FileSystem.OpenBlankDisk | MIPS-Implementation/file/sbOpen.c:77-138 | opening a blank disk of 256 blocks reaches the fresh state that the runs start from |
| FileSystem.FileSystem.SbGetBlock | MIPS-Implementation/file/sbGetBlock.c:33-123 | on linked nodes and disk: result, new list and the one disk write are those of the value function, SYSERR exactly on an empty list |
| FileSystem.FileSystem.SbFreeBlock | MIPS-Implementation/file/sbFreeBlock.c:60-123 | the same for all branches: OK exactly for blocks 1 to max + 1, and the record the full-node branch writes |
| FileSystem.FileSystem.SbOpenFreeList | MIPS-Implementation/file/sbOpen.c:40-71 | terminates on a list that is on disk and rebuilds exactly its nodes in fresh memory |
| FileSystem.FileSystem.SbOpenDirectory | MIPS-Implementation/file/sbOpen.c:10-34 | reads the directory back with every state reduced to FILE_USED |
| FileSystem.FileSystem.FormatList | MIPS-Implementation/file/sbInit.c:31-70 | the loop partitions the blocks from 2 on and links and writes them alike, or leaves the last record dangling, depending on the remainder |
| FileSystem.FileSystem.SbInit | MIPS-Implementation/file/sbInit.c:15-90 | a fresh disk is well formed with nothing lost and every collector full but the last, or has no readable list, depending on the remainder |
| FileSystem.FileSystem.SbOpen | MIPS-Implementation/file/sbOpen.c:77-145 | a disk with a valid superblock is read back without being written; any other is initialised |
| FileSystem.FileSystem.FileCreate | MIPS-Implementation/file/fileCreate.c:13-54 | result and whole new state are those of the value function, also when no slot or no block is left |
| FileSystem.FileSystem.FileOpen | MIPS-Implementation/file/fileOpen.c:13-51 | the same for fileOpen: first matching name, already open, or loaded from disk |
| FileSystem.FileSystem.FileSeek | MIPS-Implementation/file/fileSeek.c:11-34 | the same for fileSeek |
| FileSystem.FileSystem.FilePutChar | MIPS-Implementation/file/filePutChar.c:11-37 | the same for filePutChar |
| FileSystem.FileSystem.FileGetChar | MIPS-Implementation/file/fileGetChar.c:11-33 | the same for fileGetChar |
| FileSystem.FileSystem.FileClose | MIPS-Implementation/file/fileClose.c:11-38 | the same for fileClose, with both disk writes |
| FileSystem.FileSystem.FileDelete | MIPS-Implementation/file/fileDelete.c:25-43 | the same for fileDelete |
| FileSystem.FileSystem.Perform | MIPS-Implementation/file/fileCreate.c:13-54 | any one file call or remount, made on a good file system as its caller may, takes memory and disk to the state the runs speak of and keeps it good |
| QueueTable.QidFields | RISC-V-Implementation/include/queue.h:49-50 | queuehead and queuetail recover the two indices newqueue packed |
| QueueTable.GoodIds | RISC-V-Implementation/include/queue.h:58 | isbadqueue accepts exactly the ids newqueue could pack from two neighbouring entries, whatever the upper 32 bits |
| QueueTable.EnqueueAppends | RISC-V-Implementation/system/queue.c:27-32 | the four assignments append to the doubly linked run, next and prev staying mutually inverse |
| QueueTable.RemoveDeletes | RISC-V-Implementation/system/queue.c:49-50 | the two assignments take an entry out of the middle of its run |
| Kernel.ProcessTable.Enqueue | RISC-V-Implementation/system/queue.c:18-34 | an unqueued process joins the end of one queue of the family, all others unchanged; a bad queue or pid changes nothing |
| Kernel.ProcessTable.Remove | RISC-V-Implementation/system/queue.c:42-52 | a queued process leaves its queue and is in none; a free pid is refused |
| Kernel.ProcessTable.Dequeue | RISC-V-Implementation/system/queue.c:59-81 | pops the front and links it to itself, or returns EMPTY or SYSERR unchanged |
| Kernel.ProcessTable.NewQueue | RISC-V-Implementation/system/queue.c:87-98 | adds an empty queue and returns an id that isbadqueue accepts |
| Kernel.FamilyFirst | RISC-V-Implementation/include/queue.h:60-62 | the first index is a pid exactly when the queue is not empty, and then it is the front |
| Kernel.ProcessTable.constructor | RISC-V-Implementation/system/initialize.c:128-151 | only the null process exists and the ready list is empty |
| Kernel.ProcessTable.Ready | RISC-V-Implementation/system/ready.c:17-31 | the ready call on the tables: result and new table are those ReadyDoes describes, and the queue stays linked both ways |
| Kernel.ProcessTable.Kill | RISC-V-Implementation/system/kill.c:15-44 | the same for kill, as KillDoes describes it: a ready process leaves its queue before its slot is free |
| Kernel.ProcessTable.FreshPid | RISC-V-Implementation/system/create.c:135-149 | the loop computes the round-robin search and its new starting point |
| Kernel.ProcessTable.Create | RISC-V-Implementation/system/create.c:50-67 | the same for create, as CreateDoes describes it |
| Processes.NewPidIsFirstFree | RISC-V-Implementation/system/create.c:140-148 | newpid returns the first free slot going round from the last one found |
| Processes.NewPidFailsIff | RISC-V-Implementation/system/create.c:140-148 | it fails exactly when no slot is free |
| Processes.BootRunsAreGood | RISC-V-Implementation/system/kill.c:19-42 | over every run from boot the ready list holds exactly the ready processes, each once, numproc counts the slots in use, and the null process stays current |
| ProcessRuns.ReadyDoes | RISC-V-Implementation/system/ready.c:20-31 | a suspended process becomes ready and last in the ready list, and nothing else changes; a pid of no process is refused |
| ProcessRuns.KillDoes | RISC-V-Implementation/system/kill.c:19-43 | the slot of a used pid becomes free, the pid leaves the ready list, where the others keep their order, numproc drops by one and nothing else changes; any other pid is refused |
| ProcessRuns.CreateDoes | RISC-V-Implementation/system/create.c:50-67 | a slot that was free becomes suspended and is counted, and nothing else changes; failure is exactly for want of a stack or a slot |
| ProcessRuns.CreateReadyKill | RISC-V-Implementation/system/kill.c:19-43 | create, ready and kill of one process give back all states, the ready list and numproc, and create can give the slot again |
| ProcessRuns.TableFromCalls | RISC-V-Implementation/system/ready.c:20-31 | over every run from boot, from the calls and their results alone: the ready list is the pids made ready and not killed since, in call order, each state is what the last successful call on the pid left, and numproc is one plus creates less kills |
| ProcessRuns.ResultsFromCalls | RISC-V-Implementation/system/kill.c:19-24 | over every such run ready and kill return OK exactly for pids created and not killed since (or the null process), and create a pid of none of them exactly when it has a stack and a slot |
| DiskCodec.DecodeUndoesEncode | MIPS-Implementation/device/disk/xinu-disk.c:19-59 | decode undoes encode for every byte |
| DiskCodec.EncodeUndoesDecode | MIPS-Implementation/device/disk/xinu-disk.c:19-59 | encode undoes decode for every two hex digits |
| DiskCodec.EncodeWritesHex | MIPS-Implementation/device/disk/xinu-disk.c:46-59 | the two bytes are the digits of b/16 and b%16 in 0123456789ABCDEF, for every byte |
| DiskCodec.DecodeReadsHex | MIPS-Implementation/device/disk/xinu-disk.c:19-44 | the digits at places i and j of 0123456789ABCDEF decode to 16i+j |
| DiskCodec.LineIsHex | MIPS-Implementation/device/disk/xinu-disk.c:72-77 | byte i of a block stands in the line at 2i and 2i+1 as these digits |
| DiskCodec.ChecksumUpdate | MIPS-Implementation/device/disk/xinu-disk.c:72-77 | changing one byte changes the checksum by exactly the bits in which the byte changes |
| DiskCodec.ChecksumDetects | MIPS-Implementation/device/disk/xinu-disk.c:72-77 | so no change of one byte goes unnoticed |
| DiskCodec.BlockRoundTrip | MIPS-Implementation/device/disk/xinu-disk.c:72-96 | decoding an encoded block of any size gives the block |
| DiskCodec.Encode | MIPS-Implementation/device/disk/xinu-disk.c:46-59 | writes the two digits of one byte and nothing else |
| DiskCodec.ReadBlockRequest | MIPS-Implementation/device/disk/xinu-disk.c:72-77 | fills the line with the encoded block and adds up the block |
| DiskCodec.WriteBlockRequest | MIPS-Implementation/device/disk/xinu-disk.c:92-97 | decodes 2n digits into the front of the same buffer without overtaking itself, and adds up the result |
| DiskCodec.Transfer | MIPS-Implementation/device/disk/xinu-disk.c:72-97 | one side's line, decoded by the other, is the block, and the two checksums are equal |

## Left out

- Paging.Machine.MapAddress: asks for ranges that end at or below 2^39, for flags below 1024 (more would change the page number), and for as many free pages as tables are missing, because the code never checks pgalloc's SYSERR and would follow it as an address.
- Paging.Machine.PgTraverseAndCreate: asks for flags and free pages in the same way.
- Paging.Machine.MapPage: asks for flags and free pages in the same way.
- Paging.Machine.PgFree: asks that an aligned page is in memory, not free already and no page table; the source pushes any aligned address.
- Paging.Machine.PgFreeRange: asks the same of the pages in its range.
- Paging.Machine.PgInit: pgtbl_nents is a 32-bit count, so it bounds the list only when the heap has fewer than 2^32 pages.
- VmInit.VmKernInit: asks for the stated bound of free pages, as for MapAddress.
- VmInit.VmUserInit: asks for its bound in the same way.
- VmInit.CreatePages: asks for its bound in the same way.
- VmInit.FirstProcess: for the board's memory, as Boot.
- VmInit.Boot: for the board's fixed maxaddr and a heap that starts below 0x77000000.
- PrintTable.PrintPageTable: asks that every mapped page has R, W or X; an entry with none of them is followed as a link out of the tree. The physical addresses the comment there asks for are not printed by the code.
- FileSystem.FileSystem.SbFreeBlock: a list of one full node is excluded, because the source then writes through an uninitialised pointer.
- FreeChain.PutConservesIff: the same.
- DiskImage.PutAgreesIff: the same.
- FileSystem.FileSystem.SbOpenFreeList: asks that the list it is to rebuild is on disk; on a cyclic chain the source does not end.
- FileSystem.FileSystem.FilePutChar: a character that is stored goes to a file opened or created since the disk was opened; otherwise the source writes through the stale pointer read from disk.
- FileSystem.FileSystem.FileGetChar: asks the same of a file that is read from.
- FileSystem.FileSystem.FileClose: a file to be written back has a real block; after a fileCreate that found none the source would write at whatever position the disk is left.
- FileSystem.FileSystem.FileDelete: for a descriptor in range, which the source does not check, and not on a list of one full node, as for SbFreeBlock.
- Deletion.DeleteConservesIff: the same.
- Deletion.DeleteSafeIff: the same.
- Deletion.DeleteAgreesIff: the same, for a descriptor below the number of blocks.
- FileCalls.DeleteNeedsClose: unless the block numbered by the descriptor is written and is the directory's.
- FileCalls.DeletedTextReturns: unless the block numbered by the descriptor is written and is the file's own or the directory's.
- FileSystem.FileSystem.SbOpen: asks that the list named by a valid superblock is on disk; on a cyclic chain the source does not end. What passwdFileRead does afterwards is not modelled.
- Kernel.ProcessTable.Enqueue: asks that the process is in no queue and that an id isbadqueue accepts came from newqueue; the source checks neither, and its header states the first.
- Kernel.ProcessTable.Remove: asks that a used process is in a queue, as the source does of its callers.
- Kernel.ProcessTable.Ready: with RESCHED_NO and for a suspended process; readying a process twice would enter it in the list twice.
- Kernel.ProcessTable.Kill: not for the current process, where resched takes over.
- Kernel.ProcessTable.Create: the stack's contents, the context record and the variable arguments are left out, except for the store past its end (StackStore); pgalloc's outcome is a parameter, so the pages it takes do not show here but in VmInit.CreatePages.
- ProcessRuns.TableFromCalls: for runs in which ready meets suspended processes and kill does not meet the current one.
- ProcessRuns.ResultsFromCalls: the same.
- Kernel.ProcessTable.NewQueue: asks for two unused entries, which the source does not check.
- fr_free is a field of fixed length in its node, as the C struct embeds it, not a separate array; the buffers fn_data points to are part of the directory entry, since each malloc gives a fresh one.
- swizzle's overwriting of fr_next for the duration of a write, and the byte layout of records: a disk block holds a typed record, file bytes or something unread.
- Failing malloc, seek, read and write, the semaphores around the free list and the directory, and free(): calls are sequential and succeed. sb_disk is always set.
- Characters are integers standing for signed chars, and names are strings without a NUL.
- The directory holds 9 entries and names of 7 characters as in the source; the number of blocks and the entries in a collector are parameters.
- Sv39.RangeTranslates: an implementation that updates A and D in memory at step 7 changes the entry; only the outcome of the access is stated.
- set_satp, sfence.vma and all other CSR and TLB effects; assembly; traps.
- resched and its lottery, getstk, the shell, UART, timers, kprintf's formatting, the daemon's pipes and the printed lines around a block.
