# Models of the xv6 course kernels and the threaded server

A Dafny model of the parts of the repository where a mistake would be hard to see: the storage
stack with its mirrored file type, the user-level allocator, page tables over the page allocator,
the blocking protocols (sleep/wakeup, the pipe, the server's bounded queue), the lottery
scheduler, and three small pieces of branching code (the shell parser, the regular expression
matcher, the split-word random generator). Code that changes state step by step is modelled by
classes and methods with loops, each proved against a function or predicate on values; what the
code is for is then proved about those.

| file | what it models |
|---|---|
| `BlockFormat.dfy`, `FileStore.dfy`, `FileLaws.dfy` | bitmap allocator, block map, truncation, reading and writing of files |
| `CString.dfy`, `Mirror.dfy` | `strncmp`, the triple-copy file type and its repair on reading |
| `Directory.dfy` | directories as finite maps |
| `BufferCache.dfy` | LRU buffer cache and disk request queue |
| `Umalloc.dfy` | `malloc` and `free` |
| `PageTables.dfy`, `PageSteps.dfy`, `Paging.dfy` | two-level page tables, page free list, `allocuvm`, `deallocuvm`, `setupkvm`, `copyuvm`, `freevm` |
| `SleepWakeup.dfy` | sleep and wakeup as steps of many CPUs |
| `Pipe.dfy` | the pipe ring with wrapping counters |
| `RequestQueue.dfy`, `ServerMonitor.dfy` | smallest-file-first queue; producer and consumers as a monitor |
| `Lottery.dfy` | admission control and one scheduling round |
| `ShellParser.dfy`, `ShellRoundTrip.dfy` | the shell's parser; printing and parsing back |
| `Grep.dfy` | the matcher against the meaning of patterns |
| `Random.dfy` | the generator |

How to read the contracts:

* A file system state is a `Store`; `Wf` is the invariant (all block addresses distinct, marked
  used and owned by one slot; a free block is all zeros). `Grown(a, b, j)` says that inode j may
  have gained blocks and that no byte of any file reads differently; `Wrote` adds that a stretch
  of one file was replaced.
* `Full` is the state in which the bitmap has no clear bit for a block of the device. `balloc`
  never compares the block it found with the size of the device (fs.c:75-84), so on a full device
  it normally hands out a block past the end instead of panicking. The model lets it mark that
  bit and says when it happens; the layers above stop there, as at the panic, with `Halted` or
  `None`. When each of them stops is a condition on the state before the call, stated in both
  directions: `Affords` compares the free blocks with the slots that the range lacks, so that
  nothing stops on a full device where the blocks it needs are mapped (`MappedAffords`).
* A panic is an outcome (`Panic`, `Halted`, `false`), or it is shown that it cannot happen.
* Methods of `BufferCache`, `Pipe` and the server are what one process does between taking a lock
  and releasing it. Invariants kept by each of them hold under every interleaving of the callers.

Where code and comments disagree, the model follows the code:

* The mirrored read leaves in the caller's buffer the bytes of the third copy, not of a majority
  (fs.c:532); repair covers only the bytes read; the comparison starts at the first byte of the
  block whatever the offset and ends at a NUL (fs.c:534-544), so a block that starts with NUL is
  never found damaged. The flags are not cleared between blocks (fs.c:496-498), so damage to
  different copies of two blocks makes one read fail.
* `>>` opens a file exactly as `>` does (sh.c:387-392).
* A refused reservation still adds to `totalpercent` (sysproc.c:66-68), so after the first refusal
  for lack of room every later request is refused too.
* A draw equal to the number of reserved tickets dispatches nobody (proc.c:328, 348), and a spot
  process that stands before the last reserve process in the table is passed over even if it has
  the highest bid.
* A charge and a fee that reach 2000 together lose money: only one carry is made (proc.c:338-340,
  362-364).
* A failed disk read marks the buffer valid without filling it, and a failed write marks it clean
  though its sector is unchanged (ide.c:105-110); no holder can see either. `stale.faults` counts
  the failed transfers and `stale.failed` names the buffers whose last one failed.
* `malloc` can succeed without memory: `sbrk` takes an int, so a request of 2^31 - 15 bytes or more
  reaches it as zero or a negative number, for which it provides nothing but reports success.
* `setupkvm` keeps the pages it took when it fails (vm.c:144-146), which is with 1 to 12 free
  pages; `copyuvm` then loses them too.
* Buffers are slept on under two locks, `bcache.lock` (bio.c:77) and `idelock` (ide.c:150); the
  lock belongs to the call of sleep, not to the channel.

## Model

| member | source | states |
|---|---|---|
| `BlockFormat.BitUpdates` | triple file system/kernel/fs.c:75-108 | setting or clearing one bit of the byte-wise bitmap changes that bit and no other |
| `BlockFormat.BitIsDigit` | triple file system/kernel/fs.c:78-79 | bit k of a bitmap byte is its k-th binary digit |
| `BlockFormat.BitWeighs` | triple file system/kernel/fs.c:78-106 | setting a clear bit adds its power of two to the byte, clearing a set one takes it away |
| `BlockFormat.WordRoundTrip` | triple file system/kernel/fs.c:346-355 | a word stored in an indirect block reads back, and no other word of the block changes |
| `BlockFormat.WordDigits` | triple file system/kernel/fs.c:349-352 | the four bytes of an address are its base-256 digits, lowest first |
| `FileStore.FirstClear` | triple file system/kernel/fs.c:75-84 | the scan over whole bitmap blocks stops at the first clear bit, past the device too, or every bit in them is set |
| `FileStore.FileSystem.Balloc` | triple file system/kernel/fs.c:66-90 | returns the lowest free block and marks exactly it; hands out a block past the device exactly when no block of the device is free and a bit it looks at past the device is clear, and then the lowest such; panics exactly when every bit it looks at is set; the byte of the bitmap grows by the power of two of the bit |
| `FileStore.FullDeviceOverruns` | triple file system/kernel/fs.c:75-84 | on a full 1024-block device as mkfs makes it, balloc hands out block 1024 |
| `FileStore.StrayAddress` | triple file system/kernel/fs.c:343-355 | an inode that holds the address of such a block breaks the invariant, whoever is recorded as owner |
| `FileStore.FileSystem.Bfree` | triple file system/kernel/fs.c:92-110 | zeroes the block and clears its bit; the panic is taken exactly when the bit was clear; the byte of the bitmap shrinks by the power of two of the bit |
| `FileStore.AddressesDistinct` | triple file system/kernel/fs.c:332-360 | in every well-formed store all nonzero addresses of all inodes are pairwise distinct and marked used |
| `FileStore.TakeDirectWf` | triple file system/kernel/fs.c:337-345 | hanging a free block into a direct slot, or as the never-cleared indirect block, keeps the invariant and changes no byte of any file |
| `FileStore.TakeIndirectWf` | triple file system/kernel/fs.c:346-356 | the same for an entry of an indirect block |
| `FileStore.FileSystem.Bmap` | triple file system/kernel/fs.c:332-360 | maps the block, allocating where needed, keeps the invariant, and no byte of any file reads differently; succeeds exactly when there are as many free blocks as the block lacks slots; the address is kept in the inode for the first twelve blocks and in the indirect block for the next 128; blocks are taken lowest first, the indirect block before the block itself |
| `FileStore.ProgressDone` | triple file system/kernel/fs.c:332-360 | if all of a range of blocks got mapped, there had been a free block for each slot the range lacked, the indirect block included |
| `FileStore.ProgressStuck` | triple file system/kernel/fs.c:332-360 | if a block of the range could not be mapped, there had been too few |
| `FileStore.MappedAffords` | triple file system/kernel/fs.c:337-358 | a range whose blocks are all mapped needs no free block |
| `FileStore.PutBlockWf` | triple file system/kernel/fs.c:678-682 | writing one mapped block changes that block's view in that file and nothing else in any file |
| `FileStore.WroteTrans` | triple file system/kernel/fs.c:677-683 | two writes that meet are one longer write |
| `FileStore.FileSystem.Readi` | triple file system/kernel/fs.c:505-511 | returns exactly the clipped range of the file's bytes; refused exactly for an offset past the end or a 32-bit overflow; completes exactly when the free blocks suffice for the holes it meets |
| `FileStore.FileSystem.Writei` | triple file system/kernel/fs.c:632-692 | replaces exactly the clipped range, sets the size to max(old, off+n), leaves every other file alone; refused exactly as readi is; completes exactly when, before the call, the device has a free block for every slot the range lacks |
| `FileLaws.WriteSplices` | triple file system/kernel/fs.c:677-690 | a completed write splices the data into the file's byte sequence |
| `FileLaws.WriteKeepsOthers` | triple file system/kernel/fs.c:677-690 | the byte sequence of every other inode is unchanged |
| `FileLaws.ReadAfterWrite` | triple file system/kernel/fs.c:607-615 | a later read of any range returns that range of the spliced contents |
| `FileLaws.WriteKeepsTail` | triple file system/kernel/fs.c:677-690 | bytes past the end of a file stay zero |
| `FileStore.FileSystem.Itrunc` | triple file system/kernel/fs.c:437-465 | frees every block of the inode once, never meets "freeing free block", touches no other inode |
| `FileStore.TruncWf` | triple file system/kernel/fs.c:437-465 | giving back the inode's blocks keeps the invariant and exactly those blocks become free |
| `FileLaws.TruncatedIsEmpty` | triple file system/kernel/fs.c:437-465 | a truncated inode owns no block and reads as zeros |
| `FileLaws.RunExtends` | triple file system/kernel/fs.c:620-692 | over any sequence of operations on one inode, addresses once set stay set and only that inode gains blocks |
| `FileLaws.TruncRestoresBitmap` | triple file system/kernel/fs.c:437-465 | any sequence of writes to an inode without blocks, then itrunc, leaves exactly the blocks in use that were in use before |
| `FileLaws.ImageIsWf` | triple file system/tools/mkfs.c:79-87 | an image with any files satisfies the invariant, for suitable owners, exactly when no two slots hold one block, blocks held are marked used, and free blocks are zero |
| `CString.StrEqIsCut` | triple file system/kernel/fs.c:27-36 | strncmp finds two buffers equal exactly when their first n bytes, cut at the first NUL, are equal |
| `CString.CutIs` | triple file system/kernel/fs.c:27-36 | the part strncmp looks at is a prefix without NULs that ends after n bytes, at a NUL, or with the string |
| `Mirror.CopiesApart` | triple file system/kernel/fs.c:362-432 | the copies of all logical blocks of a mirrored file lie in distinct disk blocks |
| `Mirror.Mbmap` | triple file system/kernel/fs.c:362-432 | yields the address of the given copy, allocating where needed, exactly when the free blocks before the call suffice for the slots the row lacks; with the row mapped it always does and changes nothing; no byte of any file reads differently; the address is kept in the slot bn + mbn of the inode or of the indirect block |
| `Mirror.Writei` | triple file system/kernel/fs.c:636-672 | all three copies of the range are replaced, nothing else in any file changes, the size grows as for other files; completes exactly when, before the call, there is a free block for every slot that the copies of the range lack; where it stops, a prefix of the data is in all three copies |
| `Mirror.TruncatedAgrees` | triple file system/kernel/fs.c:437-465 | a truncated mirrored file has identical copies, so the uncorrupted state has a beginning |
| `Mirror.WriteKeepsAgreement` | triple file system/kernel/fs.c:636-672 | copies identical over all blocks before a write are identical over all blocks after it |
| `Mirror.ReadRow` | triple file system/kernel/fs.c:515-605 | for one block: which copies compare different, what the caller's buffer gets, which copy is rewritten; stops exactly when the free blocks do not suffice for its copies |
| `Mirror.Readi` | triple file system/kernel/fs.c:505-606 | returns the third copy's bytes; a read that is not refused completes exactly when the free blocks suffice for the holes in its range; stops exactly when they do not, unless its first block is refused; with identical copies it is not refused and changes no byte; for a read inside one block, and for one across a block boundary, it gives the exact condition for refusal and the exact state afterwards |
| `Mirror.MirrorReadAfterWrite` | triple file system/kernel/fs.c:532-672 | after a mirrored write a read returns the new bytes where they were written and the old ones elsewhere |
| `Mirror.FirstCopyDamaged` | triple file system/kernel/fs.c:563-575 | with only the first copy damaged the read returns the good bytes; the range read is repaired if and only if the comparison sees the damage or the range was intact |
| `Mirror.SecondCopyDamaged` | triple file system/kernel/fs.c:550-562 | the same for the second copy |
| `Mirror.ThirdCopyDamaged` | triple file system/kernel/fs.c:576-588 | with only the third copy damaged the read gives the caller the damaged bytes; the good copies stay; the range read of the third copy is put right if and only if the buffer stays cached and the comparison sees the damage, or the range was intact; on disk it stays as it was |
| `Mirror.RepairSource` | triple file system/kernel/fs.c:550-588 | where one copy is seen to differ from two that compare alike, a repair takes the range read from the third copy, or for the third from the second, and changes no other byte |
| `Mirror.UnseenDamage` | triple file system/kernel/fs.c:534-548 | blocks that start with NUL compare equal whatever follows |
| `Mirror.CarriedFlags` | triple file system/kernel/fs.c:496-588 | a read across a block boundary with one damaged copy in each of the two blocks is refused if and only if it is not the same copy, because the flags of the first block are kept for the second |
| `Directory.DirMapSpec` | triple file system/kernel/fs.c:704-733 | the finite map a directory stands for binds a name exactly when an entry holds it, to the first such entry |
| `Directory.ScanBlock` | triple file system/kernel/fs.c:716-728 | the scan of one block finds its first entry with the name, or none has it |
| `Directory.Dirlookup` | triple file system/kernel/fs.c:704-733 | returns the binding of the name cut at 14 bytes and its entry's offset, or reports it absent; stuck exactly when the free blocks do not suffice for the holes up to the entry, or up to the end for an absent name |
| `Directory.NothingPastEnd` | triple file system/kernel/fs.c:714-729 | entries between the directory's size and the end of its last block are free, so scanning them finds nothing stale |
| `Directory.FreeEntry` | triple file system/kernel/fs.c:748-756 | after the lookup the search for a free entry reads every entry without needing a block, and ends before the end exactly when one is free |
| `Directory.DirentReads` | triple file system/kernel/fs.c:757-760 | a dirent holds the inode number modulo 2^16 and the name cut at 14 bytes |
| `Directory.DirentBytes` | triple file system/kernel/fs.c:757-760 | the sixteen bytes written: the number modulo 2^16, low byte first, the name up to 14 bytes or its NUL, and NULs |
| `Directory.EntryBytes` | triple file system/kernel/fs.c:716-728 | the number and the name of entry e are those sixteen bytes at offset 16 e |
| `Directory.LinkAddsBinding` | triple file system/kernel/fs.c:748-762 | filling a free entry with an absent name adds exactly that binding and creates no duplicate |
| `Directory.LinkNothing` | triple file system/kernel/fs.c:748-762 | an entry written with inode number 0 is a free entry and binds nothing |
| `Directory.Dirlink` | triple file system/kernel/fs.c:736-764 | adds a binding only for an absent name, with the inode number cut to 16 bits (0 adds none); of everything else no byte, size, kind or address changes; stops exactly when the lookup is stuck, or the name is absent, no entry is free, and there is no room or no block for one more; the sixteen bytes of the new entry go to the first free entry or the end, and no other byte of the directory changes |
| `Directory.EraseRemovesBinding` | triple file system/kernel/sysfile.c:198-200 | zeroing the entry of a name removes exactly that binding |
| `Directory.Unlink` | triple file system/kernel/sysfile.c:165-200 | removes exactly the binding of the name; of everything else no byte, size, kind or address changes; stops exactly when the lookup is stuck, since erasing needs no block; exactly the sixteen bytes of the entry of the name become zeros |
| `Directory.OtherDirsKept` | triple file system/kernel/fs.c:736-764 | after either of them every other directory is as good as before and stands for the same map |
| `Directory.OtherFilesKept` | triple file system/kernel/fs.c:736-764 | after either of them every other file holds the same bytes |
| `BufferCache.UnlinkRing` | triple file system/kernel/bio.c:126-127 | unlinking a buffer leaves prev and next one ring over the others in the same order |
| `BufferCache.PushRing` | triple file system/kernel/bio.c:128-131 | linking a buffer behind the head makes it the first of the ring |
| `BufferCache.Cache.constructor` | triple file system/kernel/bio.c:39-56 | the ring holds all NBUF buffers, none busy or valid, and satisfies the invariant |
| `BufferCache.Cache.FindBlock` | triple file system/kernel/bio.c:70-80 | finds the buffer of a sector, or no buffer has it |
| `BufferCache.Cache.FindVictim` | triple file system/kernel/bio.c:83-92 | finds the non-busy buffer released longest ago, or all are busy |
| `BufferCache.Cache.Bget` | triple file system/kernel/bio.c:61-93 | hit, wait, recycle or panic, each exactly when due; at most one buffer ever holds a sector; recycling takes the least recently released non-busy buffer |
| `BufferCache.Cache.Bread` | triple file system/kernel/bio.c:96-105 | a read is queued, behind all earlier requests, exactly when the buffer is not valid; a buffer returned at once holds the sector's bytes unless its last transfer failed; the list, the bytes, the disk and the discipline of the holders stay as they are; exactly one buffer becomes busy, the one of the sector or the least recently released, and no flag, device or sector of another buffer changes |
| `BufferCache.Cache.Bwrite` | triple file system/kernel/bio.c:108-115 | marks the buffer dirty and queues it; panics exactly for a buffer not held or a missing second disk |
| `BufferCache.Cache.Iderw` | triple file system/kernel/ide.c:124-145 | appends the request and starts the disk if it is idle; panics exactly in the three cases of the code |
| `BufferCache.Cache.Append` | triple file system/kernel/ide.c:138-141 | the walk over qnext puts the buffer at the end of the queue |
| `BufferCache.Cache.Ideintr` | triple file system/kernel/ide.c:91-118 | completes the oldest request, whether or not the transfer succeeded: on success a dirty buffer is stored in its sector and in no other, another one is filled; on failure the disk and the bytes stay, and the buffer still becomes valid and clean; requests finish in the order made |
| `BufferCache.TransferOk` | triple file system/kernel/ide.c:104-110 | after the transfer every valid, clean buffer still equals its sector, except those whose last transfer failed |
| `BufferCache.Cache.SetData` | triple file system/kernel/fs.c:680 | a holder's change concerns its buffer only, which counts as stale until it is written back |
| `BufferCache.Cache.Brelse` | triple file system/kernel/bio.c:119-137 | moves the buffer to the front of the ring and frees it; the invariant is kept |
| `BufferCache.Cache.CacheIsDisk` | triple file system/kernel/bio.c:1-22 | if holders write changes back before release, every non-busy valid buffer equals the disk except those whose last transfer failed; with no failed transfer, every one |
| `BufferCache.FailedReadIsKept` | triple file system/kernel/ide.c:104-110 | after a queued read, a failing transfer and brelse a valid, free buffer differs from its sector |
| `BufferCache.FailedWriteIsKept` | triple file system/kernel/ide.c:104-110 | after a read, a change, a bwrite whose transfer fails and brelse a valid, free buffer holds bytes its sector does not |
| `Umalloc.ListIsCanonical` | triple file system/user/umalloc.c:24-44 | two ordered, coalesced lists of non-empty blocks over the same units are the same list |
| `Umalloc.StopsAtGap` | triple file system/user/umalloc.c:30-32 | the stop test of the search holds at the gap of the block and nowhere else |
| `Umalloc.InsertCovers` | triple file system/user/umalloc.c:33-42 | the list after free covers what it covered and the freed block |
| `Umalloc.InsertRing` | triple file system/user/umalloc.c:33-43 | the pointer updates of free turn the ring of the list into the ring of the list with the block inserted and coalesced |
| `Umalloc.CarveRing` | triple file system/user/umalloc.c:75-83 | the updates of malloc turn the ring into the ring without the units handed out |
| `Umalloc.Allocator.FindGap` | triple file system/user/umalloc.c:30-32 | the search ends at the one gap in which the block lies |
| `Umalloc.Allocator.Free` | triple file system/user/umalloc.c:24-44 | afterwards the free list covers exactly the block too, is ordered, disjoint and has no adjacent blocks; all other live blocks stay; freep is the greatest list address below the block |
| `Umalloc.Allocator.Morecore` | triple file system/user/umalloc.c:46-61 | at least 4096 units from sbrk join the free list, for sizes that fit sbrk's int; freep is the greatest list address below them |
| `Umalloc.Allocator.Malloc` | triple file system/user/umalloc.c:63-90 | hands out units that were free, disjoint from every live block; next fit from freep; sbrk is asked at most once, exactly when no free block is large enough; fails exactly when sbrk does; freep ends at the node before the block that was cut, in both cases; after asking sbrk the units handed out are the last of the new ones |
| `Umalloc.SizeFits` | triple file system/user/umalloc.c:47-56 | the number of bytes asked of sbrk arrives as that number exactly for requests of at most 2^31 - 16 bytes; beyond, as zero or a negative number |
| `Umalloc.MallocThenFree` | triple file system/user/umalloc.c:24-90 | freeing a block just allocated without sbrk restores the free list exactly |
| `Umalloc.UnitsConserved` | triple file system/user/umalloc.c:24-90 | free units plus live units are the units obtained from sbrk |
| `PageSteps.ChainPush` | triple file system/kernel/kalloc.c:47-52 | filling a page with junk and linking it extends the free list by that page |
| `Paging.Machine.constructor` | triple file system/kernel/kalloc.c:23-33 | kinit frees every page from the end of the kernel to PHYSTOP once; in address order, so that the highest page is handed out first |
| `Paging.Machine.Kalloc` | triple file system/kernel/kalloc.c:59-70 | takes the head of the free list; 0 exactly when the list is empty |
| `Paging.Machine.Kfree` | triple file system/kernel/kalloc.c:38-54 | pushes the page, which then holds the link and junk words 0x01010101, and changes no other page |
| `PageTables.SetPte` | triple file system/kernel/vm.c:91 | writing one table word changes one entry of the partial map |
| `PageTables.AddTableOk` | triple file system/kernel/vm.c:62-69 | a new zeroed table changes nothing in the partial map |
| `Paging.Machine.Walk` | triple file system/kernel/vm.c:52-72 | finds or creates the table; the partial map is unchanged; fails exactly when the table is missing and may not or cannot be created; a new table is the page at the head of the free list, zeroed, entered with exactly the flags present, writable and user; in every state the entries of the directory carry these flags |
| `Paging.Machine.Mappages` | triple file system/kernel/vm.c:77-98 | maps exactly the pages of the byte range to consecutive pages, or stops at an already mapped page or without memory; takes one page for each table it adds, within the range, and none when all are there |
| `PageSteps.ReleaseOk` | triple file system/kernel/vm.c:268-275 | kfree and clearing the entry keep address space and free list in order |
| `Paging.Machine.Deallocuvm` | triple file system/kernel/vm.c:257-279 | unmaps exactly the pages of the range and frees exactly the pages behind them; nothing else changes |
| `Paging.Machine.MapPage` | triple file system/kernel/vm.c:247-248 | with the user table present, mapping one filled page neither fails nor takes a page, which is why its result may go unchecked |
| `Paging.Machine.Allocuvm` | triple file system/kernel/vm.c:228-251 | maps exactly the new pages to fresh zeroed memory if enough pages are free, otherwise restores mappings, free set and every page in use |
| `PageSteps.DeallocUndoes` | triple file system/kernel/vm.c:238-251 | deallocuvm after a whole or interrupted allocuvm restores the partial map, the free set and every page not free |
| `Paging.Machine.AllocThenDealloc` | triple file system/kernel/vm.c:228-279 | growing and shrinking again restores everything |
| `PageSteps.KernelPtes` | triple file system/kernel/vm.c:122-131 | the words of all table entries as numbers: kernel text is read-only, the other kernel mappings writable, each mapped one to one, none for user mode, and no user page |
| `Paging.Machine.Setupkvm` | triple file system/kernel/vm.c:134-149 | succeeds exactly with at least 13 free pages, takes exactly 13, for the directory and its twelve tables, and sets up exactly the kernel's mappings; with fewer it empties the free list and gives nothing back |
| `PageSteps.TallyAll` | triple file system/kernel/vm.c:122-131 | the four rows of kmap need exactly twelve tables, wherever the kernel's data begins |
| `Paging.SetupkvmLosesPages` | triple file system/kernel/vm.c:140-146 | with five free pages setupkvm fails and all five are lost |
| `PageSteps.ClearedStep` | triple file system/kernel/vm.c:290-293 | each table is freed once: it is not free when its entry is reached |
| `Paging.Machine.Freevm` | triple file system/kernel/vm.c:282-295 | frees exactly what the space owns, changes no other page |
| `PageSteps.GaveCopied` | triple file system/kernel/vm.c:313-317 | each turn of copyuvm gives the child one more page with the parent's contents |
| `Paging.Machine.Copyuvm` | triple file system/kernel/vm.c:299-326 | succeeds exactly when 13 pages and one for each page copied are free; the child then has the parent's contents and the kernel's mappings, and owns exactly the pages taken; a failure with at least 13 free pages gives every page back |
| `PageSteps.CopyAgrees` | triple file system/kernel/vm.c:299-326 | parent and child own disjoint pages with equal contents below the size copied |
| `Paging.Machine.CopyThenFree` | triple file system/kernel/vm.c:282-326 | copyuvm, then freevm if it succeeded, restores the free set exactly when none or at least 13 pages were free |
| `SleepWakeup.NoMissedWakeup` | triple file system/kernel/proc.c:331-385 | once a waker has scanned, no process that tested its condition under the same lock before the waker took it still sleeps from that call, also where one channel is slept on under several locks |
| `SleepWakeup.SwitchesSafely` | triple file system/kernel/proc.c:290-306 | no two processes hold one lock; a process enters sched holding ptable.lock and not RUNNING |
| `SleepWakeup.ScanWakes` | triple file system/kernel/proc.c:368-376 | the scan passes no process asleep on the channel without waking it |
| `SleepWakeup.NextKeepsInv` | triple file system/kernel/proc.c:331-385 | every step of sleep, wakeup, kill and the scheduler on any CPU keeps the invariant |
| `SleepWakeup.RunInv` | triple file system/kernel/proc.c:331-408 | the invariant holds in every state of every interleaving |
| `SleepWakeup.ProcTable.Wakeup1` | triple file system/kernel/proc.c:368-376 | the state column becomes that with the sleepers on the channel runnable |
| `SleepWakeup.RousedExactly` | triple file system/kernel/proc.c:373-375 | wakeup makes runnable exactly the processes asleep on the channel and changes no other |
| `SleepWakeup.ProcTable.Kill` | triple file system/kernel/proc.c:390-408 | marks the first process with the pid and wakes it if it sleeps; -1 exactly for an unknown pid |
| `Pipe.Counters` | triple file system/kernel/pipe.c:82-113 | the tests on 32-bit wrapping counters mean full and empty, and index the right slot |
| `Pipe.HeldPut` | triple file system/kernel/pipe.c:90 | storing a byte overwrites none that is still unread |
| `Pipe.Ring.Write` | triple file system/kernel/pipe.c:75-95 | stores the bytes in order up to the end or a full pipe; then sleeps or fails exactly as the code says; leaves the readers unwoken exactly when it fails |
| `Pipe.Ring.Read` | triple file system/kernel/pipe.c:97-118 | delivers the next min(n, backlog) bytes and wakes the writers exactly when it returns bytes; all bytes delivered are a prefix of all bytes stored, with at most 512 in between |
| `Pipe.Ring.Close` | triple file system/kernel/pipe.c:57-73 | closes one end, leaving the bytes and the other end as they are; the page is given back exactly when both ends are closed |
| `RequestQueue.QueuedIs` | sever_client_system/cs537.c:573-582 | the queue is the collection of the requests in valid slots |
| `RequestQueue.Server.Put` | sever_client_system/cs537.c:571-586 | adds the request to the queue, in the lowest free slot; a full queue stays as it is; count and valid slots agree |
| `RequestQueue.Server.FindSmallest` | sever_client_system/cs537.c:592-607 | the scan ends at a valid slot with a smallest file |
| `RequestQueue.Server.Get` | sever_client_system/cs537.c:589-614 | removes a smallest request and no other |
| `RequestQueue.SmallestOfQueue` | sever_client_system/cs537.c:594-607 | the request taken is no larger than any queued one |
| `ServerMonitor.NextKeepsInv` | sever_client_system/server.c:16-38 | every step of the producer, a consumer, a signal or a spurious wakeup keeps: mutual exclusion, bounded count, each accepted request in exactly one place, items at most awake consumers while one waits |
| `ServerMonitor.RunInv` | sever_client_system/server.c:16-38 | the invariant holds in every state of every run of one producer and k consumers |
| `ServerMonitor.NeverStuck` | sever_client_system/server.c:16-38 | every reachable state has a step to take, or everything accepted has been dispatched exactly once |
| `ServerMonitor.ProducerTurn` | sever_client_system/server.c:18-20 | the producer's test and put on the real slots are the machine's step |
| `ServerMonitor.ConsumerTurn` | sever_client_system/server.c:30-32 | the consumer's test and get on the real slots are the machine's step, with a smallest request |
| `Lottery.ApplyKeeps` | simple shell/xv6/kernel/sysproc.c:59-82 | each reserve or spot call keeps the reservations over all slots within 200 and within totalpercent |
| `Lottery.RunKeeps` | simple shell/xv6/kernel/sysproc.c:59-82 | so does every sequence of calls |
| `Lottery.RefusedForEver` | simple shell/xv6/kernel/sysproc.c:66-68 | once totalpercent exceeds 200 no sequence of calls adds a reservation |
| `Lottery.Scheduler.SysReserve` | simple shell/xv6/kernel/sysproc.c:59-72 | accepted exactly for 0..100 with room left within 200, and then sets rpercent and clears the bid; a refusal for lack of room still counts and changes no process |
| `Lottery.Scheduler.SysSpot` | simple shell/xv6/kernel/sysproc.c:74-82 | gives up the reservation, sets the bid, and changes no other process |
| `Lottery.FairShare` | simple shell/xv6/kernel/proc.c:319-342 | a runnable reserve process holds exactly rpercent of the 200 draws |
| `Lottery.SomeoneHolds` | simple shell/xv6/kernel/proc.c:319-342 | a draw below the number of tickets has a holder |
| `Lottery.OneWinner` | simple shell/xv6/kernel/proc.c:319-369 | no two processes win the same draw |
| `Lottery.TieIdles` | simple shell/xv6/kernel/proc.c:328-348 | a draw equal to the number of tickets has no winner |
| `Lottery.Scheduler.Survey` | simple shell/xv6/kernel/proc.c:297-313 | counts the runnable reserve processes and finds the highest bid |
| `Lottery.Scheduler.Choose` | simple shell/xv6/kernel/proc.c:319-369 | dispatches the winner of the draw and nobody when there is none; a spot process only above all tickets and with the highest bid |
| `Lottery.Scheduler.Round` | simple shell/xv6/kernel/proc.c:289-369 | dispatches the winner of the draw, and nobody exactly when the draw decides for nobody |
| `Lottery.Scheduler.Settle` | simple shell/xv6/kernel/proc.c:335-364 | the process that comes back is charged 10 for a reserve slice, a hundredth of the bid it then holds for a spot slice, with one carry above 1000; its slice count grows by 1 and its running time by 10; no other process changes |
| `Lottery.SomeoneWins` | simple shell/xv6/kernel/proc.c:319-369 | somebody wins exactly for draws below the tickets, and for draws above them if a process with the highest bid stands behind the last reserve process |
| `Lottery.PassedOver` | simple shell/xv6/kernel/proc.c:348-350 | the only bidder, standing before the only reserve process, wins no draw above the tickets |
| `Lottery.BillExact` | simple shell/xv6/kernel/proc.c:335-340 | the bill is exact if and only if charge and fee stay below 2000 together |
| `ShellParser.GetTokenLoop` | triple file system/user/sh.c:264-307 | token, span and cursor are those of the token function |
| `ShellParser.PeekLoop` | triple file system/user/sh.c:309-319 | skips white space and tests the next character |
| `ShellParser.ParseRedirsLoop` | triple file system/user/sh.c:373-396 | absorbs all redirections at the cursor, in order |
| `ShellParser.ParseExecRun` | triple file system/user/sh.c:414-445 | the argument loop computes the recursive parse, including its panics |
| `ShellParser.ParseBlockRun` | triple file system/user/sh.c:398-412 | the parse of a parenthesised command |
| `ShellParser.ParsePipeRun` | triple file system/user/sh.c:360-371 | the parse of a pipeline |
| `ShellParser.ParseLineRun` | triple file system/user/sh.c:343-358 | the parse of a line with `&` and `;` |
| `ShellParser.ParseCmdRun` | triple file system/user/sh.c:326-341 | parses or panics, and on success terminates every token in the buffer |
| `ShellParser.NulTerminate` | triple file system/user/sh.c:448-492 | writes NULs exactly at the ends of the tree's tokens |
| `ShellParser.NulAllAt` | triple file system/user/sh.c:448-492 | a character of the text changes only to NUL and only at a token end |
| `ShellParser.TerminatedReadsBack` | triple file system/user/sh.c:448-492 | after a successful parse every argv and file pointer reads back as exactly its token |
| `ShellRoundTrip.TakesToken` | triple file system/user/sh.c:264-307 | gettoken takes one token and the white space after it, and stops at the next token |
| `ShellRoundTrip.LineParses` | triple file system/user/sh.c:343-358 | the tokens of a tree, followed by anything that ends a line, parse to that tree and the cursor stands at what follows |
| `ShellRoundTrip.ParseLaid` | triple file system/user/sh.c:326-341 | for any well-formed tree, and any way to lay out its tokens with blanks, tabs, carriage returns, newlines and vertical tabs, none where a symbol separates them, the parse consumes the whole text and returns that tree |
| `ShellRoundTrip.TenWordsRefused` | triple file system/user/sh.c:429-440 | ten words in a row are refused, whatever follows (nine parse, by ParseLaid) |
| `ShellRoundTrip.NoFile` | triple file system/user/sh.c:380-382 | a redirection not followed by a word is refused for its missing file |
| `ShellRoundTrip.StrayParen` | triple file system/user/sh.c:431-434 | an opening parenthesis among the words of a command is a syntax error |
| `ShellRoundTrip.NotClosed` | triple file system/user/sh.c:402-409 | a parenthesised line without the closing parenthesis is refused for it |
| `ShellRoundTrip.LeftOver` | triple file system/user/sh.c:333-338 | a line followed by a closing parenthesis is refused for what is left over |
| `ShellRoundTrip.AppendIsWrite` | triple file system/user/sh.c:287-293 | `>>` is one token and opens its file as `>` does |
| `ShellRoundTrip.ParsePrint` | triple file system/user/sh.c:326-341 | parsing the canonical text of any well-formed tree consumes it all and returns that tree |
| `ShellRoundTrip.PrintInjective` | triple file system/user/sh.c:326-341 | different trees have different texts |
| `Grep.Match` | triple file system/user/grep.c:71-81 | true exactly when some substring, anchored as the pattern says, is in the pattern's language |
| `Grep.MatchHere` | triple file system/user/grep.c:84-95 | true exactly when some prefix of the text is accepted |
| `Grep.MatchStar` | triple file system/user/grep.c:98-105 | the same for a starred character followed by a pattern |
| `Grep.BeginsCons` | triple file system/user/grep.c:88-93 | a first item takes some string it denotes and the rest of the pattern begins what is left |
| `Grep.PrintItems` | triple file system/user/grep.c:84-95 | every pattern is the text of the items it is read as |
| `Grep.ItemsPrint` | triple file system/user/grep.c:84-95 | a list of items reads back from its text exactly when no star follows a plain character, a dollar sign does not stand last, and an end mark stands only last |
| `Grep.Specials` | triple file system/user/grep.c:71-105 | what the caret, the dot, the star and a final dollar sign mean |
| `Random.Step` | C practice and xv6 intro/xv6/kernel/random.c:45-49 | the split-word step is multiplication modulo 2^31-1, with no 32-bit overflow, and stays in 1..2^31-2 |
| `Random.TwoSteps` | C practice and xv6 intro/xv6/kernel/random.c:45-54 | two steps multiply by 630360016 |
| `Random.Generator.SysRandom` | C practice and xv6 intro/xv6/kernel/random.c:36-55 | the chosen stream advances, the others keep their state, all states stay in range |
| `Random.Table` | C practice and xv6 intro/xv6/kernel/random.c:11-29 | the initial states of all streams are in range |
| `Random.DrawsAre` | C practice and xv6 intro/xv6/kernel/random.c:41-55 | closed form of the state after n draws |
| `Random.DrawInverse` | C practice and xv6 intro/xv6/kernel/random.c:41-55 | a draw can be undone |
| `Random.StatesStayApart` | C practice and xv6 intro/xv6/kernel/random.c:41-55 | different states stay different for ever |

## Left out

- Mirror.Readi: only reads of at most BSIZE bytes from files of at most 46 logical blocks; longer ones compare past the buffer (fs.c:534-548), and block 126 of the map leaves the indirect block (fs.c:418).
- Mirror.Writei: writes within 46 logical blocks, for the same reason.
- Mirror.ThirdCopyDamaged: masking damage to the third copy is not claimed, because the code returns that copy and writes back another one; whether the repaired buffer stays cached is a parameter.
- FileStore.FileSystem.Readi: device files (`devsw`), debugging output and the on-disk copy of the inode written by `iupdate` are not modelled.
- Umalloc.Allocator.Malloc: `base` lies below the heap, sbrk returns memory above everything it returned before, nbytes + 8 is at most 2^32 (beyond it the sum that gives the unit count wraps), and a request that no free block satisfies stays below 2^31 bytes with its header, because sbrk takes an int (user.h:25, sysproc.c:45-56): for a larger one it reports success without providing memory (proc.c:107-122), and malloc then hands out memory it does not have.
- Umalloc.Allocator.Morecore: fewer than 2^31 bytes are asked for, for the same reason.
- Umalloc.Allocator.Free: the block was returned by malloc and not freed since.
- Paging.Machine.Setupkvm: the kernel's data section starts on a page boundary above 1 MB.
- Paging.Machine.Deallocuvm: the old size is at most USERTOP, as every caller has it; beyond it lie the I/O pages, whose kfree panics.
- Paging.Machine.Allocuvm: table entries of the range are zero before the call, as setupkvm and deallocuvm leave them; a present entry would be the panic "remap".
- Paging.Machine.Copyuvm: every page below the size is mapped, as the two panics of the code demand.
- Paging.Machine.Walk: the accessed and dirty bits that the processor sets in table words are not modelled.
- BufferCache.Cache.Bget: sectors are those the controller can address (drive bit 0 or 1, 28-bit sector number).
- BufferCache.Cache.Ideintr: the disk is abstracted to a map from sectors to bytes and an interrupt with a success flag; port I/O is not modelled.
- RequestQueue.Server.Put: file sizes are not negative, because the code uses -1 for "none".
- Lottery.Scheduler.Round: the draw is a parameter in 0..199 and totalpercent is a mathematical integer; what the dispatched process does during its slice are calls of its own between Round and Settle.
- Pipe.Ring.Write: whether it wakes the readers is stated, when a sleeper runs again is not.
- Mirror.Mbmap: block numbers 138 and 139 of the map are excluded, as no mirrored block uses them within 46 logical blocks.
- FileStore.FileSystem.Bmap: stops when balloc hands out a block past the device; the code stores that address and goes on with transfers outside the device.
- FileStore.FileSystem.Writei: likewise ends in Halted where the code goes on outside the device.
- Inode allocation and caching (`ialloc`, `iget`, `ilock`, `iput`), path walking, link counts, and `mkfs`.
- `inituvm`, `loaduvm`, `copyout`, segment registers and the switch of page tables.
- `fork`, `exit`, `wait`, traps, context switch, interrupts, console and boot code.
- `runcmd` and the other execution side of the shell; the line loop of `grep`; printing.
- Sockets, HTTP parsing and CGI in the server, and the text of each request line.
- The float result, reseeding and reporting calls of the random generator.
- The other xv6 trees, which repeat these files with smaller changes.
