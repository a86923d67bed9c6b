# Verified models of the GC AOS kernel

GC AOS is a small kernel written in C. This project models nine pieces of it in Dafny and proves
what they are for: the ext4 write path, the split virtqueue of the input driver, the process table
and scheduler, pipes, the terminal and its renderer, the device-tree walk that finds memory, the
xHCI command ring, the tree of the RAM file system, and the kernel's formatter.

Each piece has a specification part, written as functions and state machines over values, that
carries the theorems; and, where the C code works by changing things step by step, classes and
methods with the code's own loops, arrays and stores, proved equal to those functions. A theorem
about a function is therefore a theorem about the method that is proved against it.

| piece | specification and theorems | the code's loops and stores |
|---|---|---|
| ext4 | `Bytes`, `Bitmap`, `Ext4Alloc`, `Ext4Map`, `Ext4Inode`, `Ext4File`, `Ext4Dir`, `Ext4Create`, `Ext4Cost`, `Ext4Run`, `Ext4Neat`, `Ext4Fresh` | `Ext4Driver` |
| virtqueue | `Virtqueue` | class `MouseQueue` |
| processes | `Process` | class `ProcTable` |
| pipes | `Pipe` | class `PipeBuffer` |
| terminal | `Terminal`, `TerminalSequence`, `TerminalRender` | `TerminalDriver`, `TerminalScreen` |
| device tree | `Fdt` | methods of `Fdt` |
| command ring | `Xhci` | class `CommandRing` |
| RAM file system | `Ramfs` | `RamfsDriver` |
| formatter | `Printk`, `PrintkFormat` | methods of both |

`dafny verify dfyconfig.toml` checks everything.

## What the proofs assume, and what they found

**ext4.** The disk is a map from block numbers to byte strings; the group descriptors and free
counters are in memory beside it. Reading or writing a block fails exactly when the device does not
have the block; other I/O and memory allocation succeed. The geometry is a parameter: the block size
is at least 1024, below 65536 and a multiple of four; a group has at most eight times the block size
of blocks and of inodes, and its inodes are a multiple of eight; the inode size divides the block size
and is at least 116; block and inode numbers fit an `int`; no extents; sizes fit `i_size_lo`. Bitmaps,
inode tables, superblock, group descriptors and their copies are marked used and owned by nobody else.
`Ext4Fresh` shows a volume with a root directory that meets all of this.

- Allocation does not quite try every group: the sum of preferred group and round is a 32-bit one.
  `RoundsCover` gives the exact condition, `AllocFailsExactly` what a failure means without it,
  `MissedGroup` a volume on which it happens. The driver prefers the group of an inode, which is always fine.
- A directory made by `ext4_create_file` need not hold its two dot entries, because their results are
  ignored. `CreateFileCreates` says exactly when it does: if and only if the volume has more free blocks
  than the parent takes for the new name (none with slack, one for a new directory block, two if the
  indirect block has to be made as well); otherwise it comes out empty. `MkdirWithoutDots` is an instance.
- `ext4_write_file` does not refuse directories. `WriteKeepsInv` says exactly which writes do no harm, on
  the volume before the write: the new size is a whole number of blocks, and every block below it that is
  mapped or written will be tiled, built from its old bytes, or zeros if it is new, with the written bytes
  laid over. `WreckedDirectory` is a write that does harm. Ownership and counters survive any write.
- A new directory has a link count of 1, though two entries name it, and `i_blocks_lo` does not count
  indirect blocks: `CreateFileCreates` and `RunStaysNeat` say so, because the code does.
- How much a write writes can be counted beforehand (`WriteCounted`): it stops at the first unmapped block
  that lies beyond the single-indirect range or that the volume has not the one or two blocks for.

**Virtqueue.** The driver and a device that follows section 2.7 of VIRTIO Version 1.2 take turns at
single stores, so every interleaving of a poll with the device is a run.

**Processes.** A create that succeeds is one step. `parent_pid` holds a slot index that is later
compared with pids; descendants are defined over the stored values, as the code does. A yield is two
steps, between which a timer interrupt may come. `process_create` draws twice from the pid counter. As
a slot index is always less than the pid in that slot, kill and exit never reach the processes that the
victim created itself: `OwnChildrenEscape`.

**Pipes.** A call holds the lock for one step at a time, and any other party may come in between; an end
may be closed at any time, also while a call on it waits. Conservation, the meaning of results and freeing
at most once need no more than that. What does need more is that a freed pipe is left alone: it is touched
exactly by calls whose own end was closed under them (`FreedThenTouched`, `OrphanTouches`); `LateReader` is
such a run.

**Terminal.** Numbers in control sequences do not overflow. The renderer repaints only what changed.
That agrees with a full redraw unless the edge of the drawing target cuts through a cell: a character
that does not fit wholly is not drawn, while the cursor's rectangle is clipped, so a cursor can stay
behind in such a cell until the next full redraw. `RunShows` gives the exact condition for every run,
`RenderRefines` for one render, and `StrayCursor` is a run that goes wrong.

**Device tree.** Memory is a function from offsets to bytes, so the walk is defined, and ends, on any
contents; its meaning is given for every well-formed tree (section 5.4 of the Devicetree Specification).

**Command ring.** The consumer follows cycle bits and the link block as section 4.9.3 of the xHCI
specification has it. With at most 62 commands outstanding every command arrives once, in order. One
more is still delivered if and only if the consumer is not waiting at the link (`SendDelivers`). If it
is, the link is rewritten with the bit of the other lap: no look moves the controller any more, and the
63 further commands that let it through have overwritten the outstanding ones (`BlockedThenLost`). Such
a state can be reached (`BlockableReached`).

**RAM file system.** Memory is a map from addresses to inodes, so every pointer store is a map update.
Names are at most 255 characters, as directory entries hold them. `CreateExactly` and `RenameExactly`
say exactly when an operation leaves a tree: the code does not itself refuse a parent that is not a
directory, a name that exists, or a move of a directory below itself.

**Formatter.** Every string is written by exactly one sequence of literal characters and directives,
unless it ends inside a directive (`PiecesWrite`, `PiecesRead`); such formats are excluded. Widths fit
an `int`, arguments have the types the directives read, the buffer has at least one byte, and the most
negative 64-bit value is not printed as signed. Padding with zeros goes before a minus sign, as the code has it.

## Model

| member | source | states |
|---|---|---|
| Ext4Alloc.NumberLocates | kernel/fs/ext4.c:297-310 | Group and index computed from a block or inode number are the ones it was made from. |
| Ext4Alloc.LocatedNumber | kernel/fs/ext4.c:394-405 | Numbering group and index again gives the number: with NumberLocates, a bijection. |
| Ext4Alloc.TakenAgrees | kernel/fs/ext4.c:264-287 | Setting a clear bit and counting down keeps every group count equal to its clear bits and the superblock's equal to their sum. |
| Ext4Alloc.GivenAgrees | kernel/fs/ext4.c:297-333 | Clearing a set bit and counting up keeps the same agreement. |
| Ext4Alloc.ReleaseUndoesAlloc | kernel/fs/ext4.c:239-333 | Freeing what was just allocated, block or inode, restores disk and counters exactly. |
| Ext4Alloc.RoundsCover | kernel/fs/ext4.c:239-252 | The rounds visit every group if and only if the 32-bit sum does not wrap or the group count divides 2^32. |
| Ext4Alloc.AllocFailsExactly | kernel/fs/ext4.c:339-388 | For any preferred group, allocation fails if and only if no visited group has a clear bit. |
| Ext4Alloc.AllocFailsOnlyWhenFull | kernel/fs/ext4.c:239-295 | Where the rounds cover the groups, allocation fails if and only if every bit of the volume is set. |
| Ext4Alloc.WrapMissesAFreeGroup | kernel/fs/ext4.c:239-252 | Three groups, only the last free, preferred group 2^32 - 1: allocation fails although a block is free. |
| Ext4Fresh.MissedGroup | kernel/fs/ext4.c:239-252 | A volume of three groups on which that happens. |
| Ext4Alloc.AllocCounts | kernel/fs/ext4.c:239-295 | Preferring an existing group, allocation succeeds if and only if the superblock counts something free, and takes exactly one from that count. |
| Ext4Alloc.AllocTakesFirst | kernel/fs/ext4.c:239-295 | Where no sum wraps, the number handed out is free, every number before it in its group is taken, and so is every number of the groups that come before its group in cyclic order from the preferred one. |
| Ext4Alloc.PreferredFirst | kernel/fs/ext4.c:244-246 | If the preferred group exists and has a clear bit, the least clear number of that group is handed out. |
| Ext4Alloc.ReleaseExactly | kernel/fs/ext4.c:297-333 | Freeing succeeds exactly for numbers that exist; it clears that bit and no other of either kind, and adds one to the count of its group and of the superblock. |
| Bitmap.TestBitIs | kernel/fs/ext4.c:264-266 | Bit k of a byte is the one of weight 2 to the k. |
| Ext4Alloc.BitRunAgrees | kernel/fs/ext4.c:239-429 | At every point of every run of allocations and frees, bitmaps and counters agree. |
| Ext4Map.RouteInjective | kernel/fs/ext4.c:516-582 | Two file blocks never share a pointer slot of the direct, indirect or double-indirect ranges. |
| Ext4Map.FileBlockIs | kernel/fs/ext4.c:516-582 | File blocks 0 to 11 are the first twelve pointers of the record, the next ones the entries of the block that pointer 12 names, then those of the blocks that the entries of pointer 13's block name, all in order; nothing lies behind. |
| Ext4Map.RecordLayout | kernel/fs/ext4.c:141-160 | Mode, size, modification time, links, sectors and pointers sit at their offsets in the record, least significant byte first. |
| Ext4Map.StoreKeepsOwned | kernel/fs/ext4.c:205-211 | Storing to a data, inode-table or inode-bitmap block changes no block mapping and no ownership. |
| Ext4Map.AllocBlockOwned | kernel/fs/ext4.c:239-295 | A newly allocated block is on the device, nonzero and owned by nobody; ownership and mappings stay. |
| Ext4Map.AllocInodeOwned | kernel/fs/ext4.c:339-388 | A newly allocated inode was not live; no other mark, mapping or owner changes. |
| Ext4Map.SetFileBlockMaps | kernel/fs/ext4.c:588-637 | After a successful mapping the file block maps to the new block and every other position of every inode maps as before, also through a fresh zeroed indirect block; a failed one changes nothing. |
| Ext4Inode.RecordPlace | kernel/fs/ext4.c:435-465 | Byte arithmetic and record arithmetic agree: record i is the (i mod q)-th of table block i div q, and does not straddle blocks. |
| Ext4Inode.RecordAddress | kernel/fs/ext4.c:435-465 | Counted in bytes from the start of its group's table, an inode's record is at its index in the group times the inode size. |
| Ext4Inode.RecordInTable | kernel/fs/ext4.c:435-465 | Every record of a group lies inside a block of that group's table. |
| Ext4Inode.RecordsApart | kernel/fs/ext4.c:435-465 | Two records are in different blocks or do not overlap. |
| Ext4Inode.WriteThenRead | kernel/fs/ext4.c:435-510 | After writing inode i, reading inode j gives the new record if i = j and the old one otherwise. |
| Ext4Inode.WithRecordRecords | kernel/fs/ext4.c:472-510 | Writing a live inode's record replaces that record of the live ones and no other. |
| Ext4File.ReadLoopCells | kernel/fs/ext4.c:909-954 | A read returns exactly the longest run of mapped bytes, up to the length asked for. |
| Ext4File.ReadFileReads | kernel/fs/ext4.c:909-954 | A read fails only for want of the inode. It returns the mapped bytes from the offset on and stops at the length asked for, at the end of the file or at the first unmapped byte, whichever comes first. |
| Ext4File.LeafStored | kernel/fs/ext4.c:205-211 | Rewriting a mapped block changes that block of that file and no byte of anything else. |
| Ext4File.NewBlock | kernel/fs/ext4.c:769-789 | An unmapped file block is opened for writing with nothing readable changed, or the volume is exactly as before. |
| Ext4File.WriteLoopWrites | kernel/fs/ext4.c:765-807 | The write loop lays exactly the bytes it counts, at the place asked for, leaves zeros in the rest of the blocks it opens, and changes no other byte. |
| Ext4File.WriteFileWrites | kernel/fs/ext4.c:753-821 | After a write of n bytes, every byte of the file is exactly as foreseen: written, kept, zero in a newly opened block, or still unmapped; the size covers the write; blocks mapped before stay where they are; of the record nothing but size, modification time, sectors and pointers changes; all other files, owners and counters are in order. |
| Ext4Dir.InsertTiles | kernel/fs/ext4.c:669-704 | Splitting a record with slack keeps the chain tiling the block, and the walk yields the old entries in order plus the new one. |
| Ext4Dir.OneEntryTiles | kernel/fs/ext4.c:715-726 | A new directory block is tiled by its single record and walks as that entry. |
| Ext4Dir.NoSlack | kernel/fs/ext4.c:669-704 | The search for room fails only if no record of the block has enough slack. |
| Ext4Dir.SlackFirst | kernel/fs/ext4.c:669-704 | The record found has the slack, and none before it in the block has. |
| Ext4Dir.EntryLayout | kernel/fs/ext4.c:162-168 | Inode, record length, name length, kind and name sit at their offsets in a directory record. |
| Ext4Create.RoomFirst | kernel/fs/ext4.c:659-667 | The block found is the first of the directory with room. |
| Ext4Create.AddDirEntryAdds | kernel/fs/ext4.c:643-747 | Adding an entry, into slack or a new block, keeps the directory well formed with exactly the new entry more and all other files the same; a new block is the first free one from the directory's own group on; mode and links stay; on failure nothing readable changes. |
| Ext4Create.GrowDirAdds | kernel/fs/ext4.c:707-747 | Growing a directory by one block adds the entry at its end, or gives the block back. |
| Ext4Cost.MappingCost | kernel/fs/ext4.c:588-637 | Mapping succeeds exactly in the direct and single-indirect ranges with the blocks it needs: none, or one for a missing indirect block. |
| Ext4Cost.GrowDirExactly | kernel/fs/ext4.c:707-747 | A directory grows if and only if its next block can be mapped and the volume has the one or two blocks it costs. |
| Ext4Cost.AddDirEntryExactly | kernel/fs/ext4.c:643-747 | An entry is added if and only if a record has the slack or the directory can grow, and takes exactly the blocks it costs. |
| Ext4Create.InodeBorn | kernel/fs/ext4.c:827-853 | A new inode with its blank record joins the live inodes; every other record and file is the same. |
| Ext4Create.InodeUnborn | kernel/fs/ext4.c:394-429 | Freeing the inode of a failed creation takes exactly it from the live inodes. |
| Ext4Run.OwnershipExclusive | kernel/fs/ext4.c:516-637 | A block reached from a live inode is on the device, lies in a group and has its bit set, is reached from one inode at one position only, and is no bitmap, inode-table, superblock or descriptor block. |
| Ext4Run.WriteKeepsInv | kernel/fs/ext4.c:753-821 | A write to any live inode keeps ownership and counters in order, and the whole invariant if and only if, should the inode be a directory, the new size is a whole number of blocks and every block mapped or written below it will be tiled, judged on the volume before the write. |
| Ext4Run.BlockForeseen | kernel/fs/ext4.c:753-821 | After a write, exactly the blocks mapped before or reached by it are mapped, and each holds its old bytes, or zeros if it is new, with the written bytes laid over. |
| Ext4Run.DirStaysExactly | kernel/fs/ext4.c:753-821 | The file written to is a well-formed directory afterwards if and only if the condition on the volume before the write holds. |
| Ext4Fresh.WreckedDirectory | kernel/fs/ext4.c:753-821 | On a volume in order, writing one byte to the root directory returns 1 and breaks the invariant. |
| Ext4Cost.BlockCost | kernel/fs/ext4.c:769-789 | The block of a round is had if and only if it is mapped, or can be mapped and the one or two blocks that takes are free. |
| Ext4Cost.RoundCount | kernel/fs/ext4.c:765-807 | A round writes its whole chunk, or nothing exactly when its block is not to be had. |
| Ext4Run.WriteCounted | kernel/fs/ext4.c:753-821 | A write returns exactly the number of bytes counted on the volume before it, so it is short exactly when the count is. |
| Ext4Run.ReadBack | kernel/fs/ext4.c:753-821 | If a write returns n, reading n bytes at the same offset returns exactly the first n bytes written. |
| Ext4Run.BytesOutsideKept | kernel/fs/ext4.c:753-821 | Every byte of the file outside the written range that could be read before reads the same. |
| Ext4Run.NoStaleBytes | kernel/fs/ext4.c:784-785 | A byte that a write makes readable without writing it, and that no block held before, reads as zero. |
| Ext4Run.OtherFilesKept | kernel/fs/ext4.c:753-821 | Any read of any other inode returns the same before and after a write. |
| Ext4Run.KeptReadsSame | kernel/fs/ext4.c:909-954 | A file whose record and blocks were kept reads the same at any offset and length. |
| Ext4Run.FillDirAdds | kernel/fs/ext4.c:862-873 | A new directory gets both dot entries if there is a free block and none otherwise; its parent's link count goes up by one; nothing else changes. |
| Ext4Run.CreateFileCreates | kernel/fs/ext4.c:827-876 | In any live parent with tiled blocks, a creation succeeds if and only if an inode is free and the name fits the parent. Then the first free inode from the parent's group on is live, with the given mode, one link, and blank if it is a file; the parent has one entry more, with the whole name or its first 255 bytes and the kind of the mode; a directory has its dot entries exactly if a block is left for them, and its parent one link more; no other file changes. One that fails changes nothing readable. Both keep ownership and counters, and directories that were in order. |
| Ext4Run.NoDotsWhenFull | kernel/fs/ext4.c:862-865 | On a volume without a free block, a directory made in a parent with slack comes out empty. |
| Ext4Fresh.MkdirWithoutDots | kernel/fs/ext4.c:862-865 | A volume in order on which making a directory succeeds and leaves it without dot entries. |
| Ext4Run.RunKeepsInv | kernel/fs/ext4.c:643-876 | Every run of create, mkdir and writes that leave directories tiled keeps block ownership exclusive, counters right and directories tiled. |
| Ext4Run.RunKeepsOrder | kernel/fs/ext4.c:643-876 | Every run of create, mkdir into tiled parents and any writes at all keeps block ownership exclusive and the counters right. |
| Ext4Run.StepKeeps | kernel/fs/ext4.c:643-876 | One operation keeps ownership and counters always, and the whole invariant if and only if it is allowed. |
| Ext4Neat.WriteStaysNeat | kernel/fs/ext4.c:753-821 | If every live inode maps no block behind its end and counts the sectors of exactly the blocks it maps, this is so after any write. |
| Ext4Neat.CreateStaysNeat | kernel/fs/ext4.c:643-876 | And after any creation, also where directories grow. |
| Ext4Neat.RunStaysNeat | kernel/fs/ext4.c:643-876 | In every run of create, mkdir into tiled parents and any writes at all, `i_blocks_lo` of every live inode is the number of its mapped file blocks times the sectors of a block, modulo 2^32, and no block behind the end of a file is mapped. |
| Ext4Neat.WriteOpensNearest | kernel/fs/ext4.c:762-778 | If the first byte of a write needs a new block, that block is the first free one from the inode's own group on. |
| Ext4Fresh.RootedInv | kernel/fs/ext4.c:643-876 | There is a volume with a root directory that meets all of these assumptions, and on which every creation in the root is allowed. |
| Ext4Driver.Driver.ReadBlock | kernel/fs/ext4.c:197-203 | Fills the buffer with the block, or reports a block the device lacks. |
| Ext4Driver.Driver.WriteBlock | kernel/fs/ext4.c:205-211 | Stores the buffer as the block and changes no other block. |
| Ext4Driver.Driver.FindClear | kernel/fs/ext4.c:260-290 | The scan over bytes and bits finds the least clear bit of the group, or none. |
| Ext4Driver.Driver.AllocBit | kernel/fs/ext4.c:239-295 | The allocator's loops compute the allocation function, for blocks and inodes: the first free number from the preferred group on (AllocTakesFirst). |
| Ext4Driver.Driver.FreeBit | kernel/fs/ext4.c:297-333 | The free functions compute the release function and its error cases. |
| Ext4Driver.Driver.ReadInode | kernel/fs/ext4.c:435-466 | Returns the record at the inode's place, or an error for inode 0, a group that does not exist or a missing block. |
| Ext4Driver.Driver.WriteInode | kernel/fs/ext4.c:472-510 | Lays the record over its place in the table block and nothing else. |
| Ext4Driver.Driver.MapFileBlock | kernel/fs/ext4.c:588-637 | The mapping code computes the mapping function; a missing indirect block is allocated and zeroed first. |
| Ext4Driver.Driver.ReadFileBytes | kernel/fs/ext4.c:909-954 | The read loop returns what the read function says: the mapped bytes, cut at the file size (ReadFileReads). |
| Ext4Driver.Driver.WriteFileBytes | kernel/fs/ext4.c:753-821 | The write loop computes the write function: new volume and number of bytes. |
| Ext4Driver.Driver.ScanBlock | kernel/fs/ext4.c:669-704 | Walking the records by `rec_len` finds the first with enough slack. |
| Ext4Driver.Driver.AddEntry | kernel/fs/ext4.c:643-747 | The code that splits slack or opens a block computes the insertion function. |
| Ext4Driver.Driver.CreateInode | kernel/fs/ext4.c:827-876 | The creation code computes the creation function, with its rollback (CreateFileCreates). |
| Process.CreateKeepsInv | kernel/core/process.c:162-306 | A successful create keeps pids unique, above their slot and above their parent's stored value. |
| Process.CreateMeans | kernel/core/process.c:162-306 | A create fails exactly when every slot is taken; otherwise the lowest free slot, and no other, becomes READY with the current slot as its stored parent and a pid greater than every live one. |
| Process.DispatchKeepsInv | kernel/core/process.c:417-518 | Yield, schedule and timer interrupt keep the table in order. |
| Process.ScheduleMeans | kernel/core/process.c:429-518 | Scheduling makes RUNNING the READY slot that comes first in cyclic order behind the current one, the current one itself last, and a process that was running READY; without a READY slot a running process goes on, and otherwise the kernel does. |
| Process.IrqMeans | kernel/core/process.c:565-611 | A timer interrupt switches to the first such slot among those with a valid context other than the current one; without any it changes nothing. |
| Process.MarkMeans | kernel/core/process.c:417-427 | A yield marks the current process READY and changes nothing else. |
| Process.DispatchCloser | kernel/core/process.c:429-518 | Each scheduling step dispatches a waiting slot or strictly shortens its cyclic distance. |
| Process.DispatchedWithin | kernel/core/process.c:417-611 | A READY slot with a valid context at cyclic distance d is RUNNING within d scheduling steps, voluntary or by timer in any mix, also when an interrupt splits a yield. |
| Process.DescendantsAreYounger | kernel/core/process.c:242-249 | Every descendant over stored parents has a greater pid, so descent is well founded. |
| Process.SearchMeets | kernel/core/process.c:614-650 | A child met by the search is new, and the fixed-size stack has room for it. |
| Process.SearchDone | kernel/core/process.c:614-650 | When the stack is empty, exactly the live non-current descendants have been freed. |
| Process.KillDescendantsKeepsInv | kernel/core/process.c:614-650 | Killing the descendants keeps the table in order. |
| Process.KillFreesExactly | kernel/core/process.c:653-698 | After a kill the process and its descendants other than the current one are free and every other slot is unchanged. |
| Process.KillSucceedsExactly | kernel/core/process.c:653-698 | A kill succeeds exactly for the positive pid of a live process other than the current one; one that fails changes nothing. |
| Process.ExitFreesExactly | kernel/core/process.c:356-415 | After an exit the current process and all its descendants are free, every other slot is unchanged, and there is no current process. |
| Process.OwnChildrenEscape | kernel/core/process.c:614-650 | Killing or exiting a process never frees a process whose stored parent is its slot. |
| Process.CreatedOutlives | kernel/core/process.c:242-249 | What the current process has just created outlives its exit. |
| Process.TraceInv | kernel/core/process.c:71-698 | In every run of create, yield, schedule, timer interrupt, exit and kill, at most one slot is RUNNING and it is the current one; live pids are unique and exceed their stored parents. |
| Process.ProcTable.constructor | kernel/core/process.c:71-92 | Start-up leaves all slots free and no current process. |
| Process.ProcTable.FindFreeSlot | kernel/core/process.c:94-101 | Returns the lowest free slot or -1. |
| Process.ProcTable.ProcessCreate | kernel/core/process.c:162-306 | The success path computes the creation step. |
| Process.ProcTable.ProcessSchedule | kernel/core/process.c:429-518 | The round-robin loop computes the scheduling step. |
| Process.ProcTable.ProcessYield | kernel/core/process.c:417-427 | A yield is marking oneself ready and scheduling. |
| Process.ProcTable.ProcessScheduleFromIrq | kernel/core/process.c:565-611 | The handler's loops compute the interrupt step, skipping slots without a valid context. |
| Process.ProcTable.KillChildren | kernel/core/process.c:614-650 | The iterative search with its bounded stack terminates, drops no push and frees exactly the live non-current descendants. |
| Process.ProcTable.ProcessExit | kernel/core/process.c:356-415 | Exit computes the exit step: it ends the current process and its descendants (ExitFreesExactly). |
| Process.ProcTable.ProcessKill | kernel/core/process.c:653-698 | Kill computes the kill step and its error cases. |
| Virtqueue.InitInv | drivers/input/virtio_input.c:428-440 | After set-up every descriptor is on offer and the invariant holds. |
| Virtqueue.NoOverwrite | drivers/input/virtio_input.c:291-344 | The available slot the driver writes is none that the device has yet to look at. |
| Virtqueue.FetchReads | drivers/input/virtio_input.c:291-344 | What a poll reads is the oldest returned entry it has not handled. |
| Virtqueue.StepKeepsInv | drivers/input/virtio_input.c:291-344 | Every single step of driver or device keeps the invariant. |
| Virtqueue.TraceInv | drivers/input/virtio_input.c:291-344 | The invariant holds in every state of every interleaving. |
| Virtqueue.ApplyAllMeans | drivers/input/virtio_input.c:305-330 | After any events, `mouse_x` and `mouse_y` are the values of the last EV_ABS events for ABS_X and ABS_Y, and a button is down if the last EV_KEY event for BTN_LEFT or BTN_RIGHT was nonzero; without such an event each is as before. |
| Virtqueue.Observed | drivers/input/virtio_input.c:291-344 | Between passes the available index is 16 ahead of the handled one modulo 2^16; each descriptor is in exactly one of on offer, with the device, returned and unhandled; the log of handlings is exactly the events of the handled entries, each once, in order; and each coordinate and button is what the last logged event for it says, or as at the start. |
| Virtqueue.PollHandlesAll | drivers/input/virtio_input.c:291-344 | An undisturbed poll handles every entry seen at its start exactly once, in order, leaves each coordinate and button as the last logged event for it says, and returns every descriptor. |
| Virtqueue.MouseQueue.constructor | drivers/input/virtio_input.c:428-440 | The ring set-up. |
| Virtqueue.MouseQueue.Pass | drivers/input/virtio_input.c:299-343 | One pass of the polling loop computes the pass function, handling one event once, as ApplyAllMeans has it. |
| Virtqueue.MouseQueue.Poll | drivers/input/virtio_input.c:291-344 | The polling loop with its wrapping 16-bit index terminates and computes the poll function. |
| Pipe.TakenWaiting | kernel/ipc/pipe.c:71-78 | Taking n bytes removes the n oldest waiting bytes, across the wrap. |
| Pipe.AddedWaiting | kernel/ipc/pipe.c:121-130 | Adding a chunk appends it to the waiting bytes, across the wrap. |
| Pipe.StepKeepsInv | kernel/ipc/pipe.c:43-177 | Every locked section and every release, also one under a waiting call, keeps the invariant. |
| Pipe.TraceInv | kernel/ipc/pipe.c:43-177 | In every interleaving, closes under waiting calls included, bytes read followed by bytes buffered are the concatenation of the chunks written; the count is within the capacity and matches the positions. |
| Pipe.ResultsMean | kernel/ipc/pipe.c:43-136 | A finished nonzero read that returned nothing had no writers left; a finished write returned the length of its chunks, or -32 if that is 0 of more, and is short only when no readers remain. |
| Pipe.FreedOnce | kernel/ipc/pipe.c:138-177 | The pipe is freed at most once: by the close of its last end, and by no other step. |
| Pipe.ReadMeans | kernel/ipc/pipe.c:43-83 | A read waits exactly while the pipe is empty and has writers; otherwise it takes as many of the oldest bytes as are asked for and there, so a nonzero read returns nothing only from an empty pipe without writers. |
| Pipe.WriteMeans | kernel/ipc/pipe.c:85-136 | A write without readers ends with its count so far, or -EPIPE if that is 0; otherwise it adds as many of its remaining bytes as there is space for, and ends when none remain. |
| Pipe.OrphanHistory | kernel/ipc/pipe.c:43-177 | At every point of every run, the calls in progress on a closed end are those whose end was closed under them. |
| Pipe.FreedThenTouched | kernel/ipc/pipe.c:60-177 | A freed pipe is touched exactly by the steps of calls whose end was closed under them; without such a close, never. |
| Pipe.OrphanTouches | kernel/ipc/pipe.c:60-177 | Once the other end is closed too, the next step of such a call touches the freed pipe. |
| Pipe.LateReader | kernel/ipc/pipe.c:60-69 | Start a read, close the read end, close the write end: the reader takes the lock of a freed pipe. |
| Pipe.PipeBuffer.constructor | kernel/ipc/pipe.c:195-214 | An empty ring with one end each. |
| Pipe.PipeBuffer.Read | kernel/ipc/pipe.c:43-83 | The copy loop of a read computes the read step. |
| Pipe.PipeBuffer.Write | kernel/ipc/pipe.c:85-136 | The copy loop of a write computes the write step. |
| Pipe.PipeBuffer.ReleaseRead | kernel/ipc/pipe.c:138-157 | Closing a read end, freeing with the last. |
| Pipe.PipeBuffer.ReleaseWrite | kernel/ipc/pipe.c:159-177 | Closing a write end, freeing with the last. |
| Terminal.PutcInBounds | kernel/gui/terminal.c:325-380 | Whatever the byte, the cursor stays in the grid and the escape buffer below its limit. |
| Terminal.NewlineMeans | kernel/gui/terminal.c:188-209 | A line feed goes to the start of the next row; on the last row every row moves up by one and a row of spaces in the current colours comes in. |
| Terminal.PrintableMeans | kernel/gui/terminal.c:366-376 | A printable byte goes to the cursor's cell in the current colours and the cursor one to the right; behind the last column it goes on as after a line feed. |
| Terminal.TabMeans | kernel/gui/terminal.c:359-364 | A tab goes to the next column divisible by eight, or to the next row if there is none. |
| Terminal.BackMeans | kernel/gui/terminal.c:349-357 | A carriage return goes to the first column, a backspace one to the left if it can, and no cell changes. |
| Terminal.TypedOver | kernel/gui/terminal.c:353-376 | A character, a backspace and another character leave what the second alone leaves. |
| Terminal.OtherBytes | kernel/gui/terminal.c:325-380 | Only an escape starts a sequence; the other control bytes and bytes above 126 are ignored. |
| Terminal.CommandInBounds | kernel/gui/terminal.c:215-319 | Every control sequence leaves the cursor in the grid. |
| Terminal.PutAll | kernel/gui/terminal.c:382-386 | Any byte stream keeps the bounds. |
| Terminal.SheetScroll | kernel/gui/terminal.c:188-199 | Scrolling is dropping the first line and opening a blank last one. |
| Terminal.TextShows | kernel/gui/terminal.c:325-380 | For any text of printable bytes and newlines, the grid of a fresh terminal is the last rows of the text laid out on endless paper, with the cursor behind it. |
| TerminalSequence.ParamsRead | kernel/gui/terminal.c:224-242 | Up to eight decimal parameters separated by semicolons are read back as they were written. |
| TerminalSequence.SequenceRuns | kernel/gui/terminal.c:215-340 | The bytes of a control sequence, sent one by one, have exactly the effect of its command with its parameters, as long as they fit the escape buffer. |
| TerminalSequence.CursorPosition | kernel/gui/terminal.c:269-277 | Sending the position sequence puts the cursor at that row and column, counted from one, and changes nothing else. |
| TerminalSequence.Positions | kernel/gui/terminal.c:269-277 | H and f take any row and column: absent or 0 is the first, and too much is the last. |
| TerminalSequence.Moves | kernel/gui/terminal.c:245-267 | A, B, C and D move the cursor up, down, right and left by n, one if n is absent or 0, and stop at the edge. |
| TerminalSequence.UpAndDown | kernel/gui/terminal.c:245-256 | Moving up n rows and down again by their sequences restores the terminal. |
| TerminalSequence.BackAndForth | kernel/gui/terminal.c:257-267 | Moving back n columns and forth again restores the terminal. |
| TerminalSequence.ChooseColours | kernel/gui/terminal.c:297-314 | Colour sequences choose exactly the given colours, normal or bright. |
| TerminalSequence.ColoursMean | kernel/gui/terminal.c:297-314 | Of any list of parameters, the last that concerns the foreground decides it, and likewise the background; 0 is white on black. |
| TerminalSequence.SelectsColours | kernel/gui/terminal.c:297-314 | The sequence with those parameters changes the two colours so and nothing else. |
| TerminalSequence.EraseDisplay | kernel/gui/terminal.c:279-288 | The erase sequence blanks every cell in the current colours and homes the cursor. |
| TerminalSequence.EraseLine | kernel/gui/terminal.c:290-295 | ESC [ K puts spaces from the cursor to the end of its row and leaves colours, all other cells and the cursor alone. |
| TerminalSequence.NothingDone | kernel/gui/terminal.c:279-317 | J without a leading 2, and every other final byte, change nothing. |
| TerminalSequence.Dropped | kernel/gui/terminal.c:325-340 | An escape followed by a letter, or by thirty-one bytes without an end, leaves the terminal as it was. |
| TerminalDriver.TerminalBuffer.constructor | kernel/gui/terminal.c:1352-1386 | A blank grid in default colours. |
| TerminalDriver.TerminalBuffer.CopyDown | kernel/gui/terminal.c:152-160 | The forward copy loop is right although source and destination overlap. |
| TerminalDriver.TerminalBuffer.ClearRow | kernel/gui/terminal.c:179-186 | Exactly one row becomes blank. |
| TerminalDriver.TerminalBuffer.Scroll | kernel/gui/terminal.c:188-199 | The in-place scroll computes the scroll function. |
| TerminalDriver.TerminalBuffer.BreakLine | kernel/gui/terminal.c:201-209 | The newline function, scrolling at the bottom. |
| TerminalDriver.TerminalBuffer.ReadParams | kernel/gui/terminal.c:220-242 | The parameter loop never overflows its array of eight and reads the parameters function. |
| TerminalDriver.TerminalBuffer.Execute | kernel/gui/terminal.c:244-314 | The command switch computes the command function. |
| TerminalDriver.TerminalBuffer.FinishEscape | kernel/gui/terminal.c:215-319 | Escape processing computes its function. |
| TerminalDriver.TerminalBuffer.PutByte | kernel/gui/terminal.c:325-380 | Byte output computes the output function and keeps the bounds. |
| TerminalRender.CellsOnMeans | kernel/gui/terminal.c:162-174 | Of all cells drawn, only a pixel's own cell decides its colour: flat indices and grid places agree. |
| TerminalRender.FullRedraw | kernel/gui/terminal.c:404-442 | A full redraw leaves the picture on every visible pixel, whatever was there. |
| TerminalRender.RenderOutside | kernel/gui/terminal.c:392-452 | No pixel outside the content rectangle changes. |
| TerminalRender.IncrementalPixel | kernel/gui/terminal.c:415-442 | An incremental redraw over the last picture leaves the new one where the old cursor can be wiped out. |
| TerminalRender.CursorRemains | kernel/gui/terminal.c:428-442 | Where it cannot, the old cursor's colour stays and differs from the picture. |
| TerminalRender.RenderRefines | kernel/gui/terminal.c:392-452 | One render leaves the full redraw's picture if and only if a full redraw is due or the old cursor's cell is not cut by the target's edge, or holds the cursor still. |
| TerminalRender.SmudgedPixel | kernel/gui/terminal.c:415-442 | An incremental redraw keeps the cursor's colour in exactly the cut cells marked so far, adds the new cursor's cell, and is right everywhere else. |
| TerminalRender.RunSmears | kernel/gui/terminal.c:392-452 | Over any run of outputs, moves and renders, the target shows the last frame with exactly the marked cut cells smudged, unless a full redraw is due. |
| TerminalRender.RunShows | kernel/gui/terminal.c:392-452 | Any run ending in a render leaves the full redraw's picture if and only if every cut cell that held the cursor at a render since the last full redraw holds it now. |
| TerminalRender.UncutShows | kernel/gui/terminal.c:392-452 | On a target that cuts no cell, every run leaves the right picture. |
| TerminalRender.StrayCursor | kernel/gui/terminal.c:428-442 | On a target ten pixels wide, draw, write a letter, draw: the first cursor is still there. |
| TerminalScreen.Screen.DrawRect | kernel/gui/window.c:714-747 | The clipped fill loop paints exactly the rectangle's visible pixels. |
| TerminalScreen.Screen.DrawChar | kernel/gui/window.c:824-853 | The glyph loop paints all of the character's box, or nothing if it does not fit. |
| TerminalScreen.Renderer.MoveTo | kernel/gui/terminal.c:1436-1444 | A changed position makes a full refresh due. |
| TerminalScreen.Renderer.DrawChanged | kernel/gui/terminal.c:416-425 | The loop over flat indices draws exactly the changed cells. |
| TerminalScreen.Renderer.DrawAll | kernel/gui/terminal.c:410-414 | The loop over rows and columns draws every cell. |
| TerminalScreen.Renderer.Render | kernel/gui/terminal.c:392-452 | Rendering changes every pixel as the render function says and records the frame drawn. |
| Fdt.CellReads | kernel/core/main.c:35-38 | Reading a big-endian cell gives back what was written. |
| Fdt.NumberReads | kernel/core/main.c:40-42 | Reading eight bytes gives the 64-bit big-endian number. |
| Fdt.NameStarts | kernel/core/main.c:44-50 | The prefix test on memory is the prefix test on the node's name. |
| Fdt.WalkProperty | kernel/core/main.c:98-120 | A property is reported if it is a usable `reg` in a memory node; otherwise the walk goes on right behind its padded data. |
| Fdt.WalkItems | kernel/core/main.c:77-125 | Walking serialized items reports the first wanted range among them, or goes on behind them with depth and flag as before. |
| Fdt.FindsMemory | kernel/core/main.c:52-127 | For every well-formed tree, the result is the first `reg` with enough data, nonzero base and size, in preorder inside a depth-one `memory@` node, its size clamped to 4 GiB; nothing if there is none. |
| Fdt.HasPrefix | kernel/core/main.c:44-50 | The comparison loop decides whether the string starts with the prefix. |
| Fdt.ScanName | kernel/core/main.c:83-85 | The name loop stops at the terminator or the end of the block. |
| Fdt.ReadReg | kernel/core/main.c:104-119 | The property check returns the clamped range of a usable `reg`. |
| Fdt.BeginNode | kernel/core/main.c:81-91 | The begin branch skips the padded name and enters a depth-one memory node. |
| Fdt.TakeProperty | kernel/core/main.c:98-120 | The property branch returns a usable range or the place behind the padded data. |
| Fdt.WalkTokens | kernel/core/main.c:77-126 | The token loop ends on any memory contents and computes the walk function. |
| Fdt.ConfigureMemory | kernel/core/main.c:52-127 | The whole function returns the first usable range of every well-formed tree, and nothing without a blob or with a wrong magic number. |
| Xhci.EnqueueKeepsInv | drivers/usb/xhci.c:191-215 | With at most 61 commands outstanding, or 62 and the consumer not at the link, sending one keeps the ring in order. |
| Xhci.SendKeepsRing | drivers/usb/xhci.c:191-215 | Whatever the consumer does, the last 63 commands sit in their slots with their lap's bit, the others carry the opposite bit, and the link carries that of the lap last completed. |
| Xhci.ConsumeKeepsInv | drivers/usb/xhci.c:191-215 | A look of the controller keeps the ring in order. |
| Xhci.ConsumerProgress | drivers/usb/xhci.c:191-215 | With a command outstanding the controller takes the next one within two looks; otherwise it takes none. |
| Xhci.ReceivedInOrder | drivers/usb/xhci.c:191-215 | Over any number of wraps, the commands received are a prefix of those sent: in order, none lost, none twice. |
| Xhci.SixtyThirdBlocks | drivers/usb/xhci.c:191-215 | With 62 outstanding and the controller at the link, one more command rewrites the link so that no look moves the controller. |
| Xhci.SendDelivers | drivers/usb/xhci.c:191-215 | After one more command, the controller's looks alone deliver everything if and only if at most 61 were outstanding, or 62 and the consumer was not at the link. |
| Xhci.BlockedThenLost | drivers/usb/xhci.c:191-215 | A blocked controller stays at the link for fewer than 63 further commands; the 63rd lets it through to slots that all hold later commands with the wrong bit. |
| Xhci.BlockableReached | drivers/usb/xhci.c:191-215 | Sending and taking 63 commands and sending 62 more reaches the state in question. |
| Xhci.CommandRing.constructor | drivers/usb/xhci.c:275-282 | The ring set-up: an empty ring, enqueueing at its start with cycle state 1. |
| Xhci.CommandRing.RingCommand | drivers/usb/xhci.c:191-215 | Sending computes the enqueue function for any control word, link and cycle toggle included. |
| Ramfs.InOneList | kernel/fs/ramfs.c:115-126 | An inode is in exactly one child list, once: the one its parent pointer names. |
| Ramfs.ReachableIsAllocated | kernel/fs/ramfs.c:19-37 | The inodes reachable from the root over child and sibling pointers are exactly the allocated ones. |
| Ramfs.DetachLists | kernel/fs/ramfs.c:380-389 | Detaching takes one inode out of its list and changes no other list. |
| Ramfs.CreateExactly | kernel/fs/ramfs.c:312-362 | Creation leaves a tree if and only if the parent is a directory and has no child of that name. |
| Ramfs.CreatedTwice | kernel/fs/ramfs.c:312-336 | Creating one name twice under a mounted root leaves no tree. |
| Ramfs.CreatedInFile | kernel/fs/ramfs.c:115-119 | Creating something in a file leaves no tree. |
| Ramfs.RemoveKeepsInv | kernel/fs/ramfs.c:413-466 | Removing an inode without children leaves a tree with one inode less. |
| Ramfs.RenameExactly | kernel/fs/ramfs.c:364-411 | Renaming leaves a tree if and only if the new parent is a directory outside the target's subtree. |
| Ramfs.MovedIntoItself | kernel/fs/ramfs.c:364-411 | Moving a directory into itself leaves no tree. |
| Ramfs.FindMeans | kernel/fs/ramfs.c:91-113 | The lookup finds the one entry of that name in the directory, if there is one. |
| Ramfs.CreateMeans | kernel/fs/ramfs.c:312-362 | A creation adds exactly one entry, of the given name and kind, and one to the counter; every other inode keeps parent, name and kind. |
| Ramfs.RenameMeans | kernel/fs/ramfs.c:364-411 | A rename is refused exactly if the new directory has an entry of the new name; otherwise exactly one entry moves there, under that name, and keeps its kind. |
| Ramfs.UnlinkMeans | kernel/fs/ramfs.c:413-437 | Unlinking succeeds exactly for an entry that is a file and takes exactly it away; a missing entry and a directory are told apart and nothing changes. |
| Ramfs.RmdirMeans | kernel/fs/ramfs.c:439-466 | Removing a directory likewise, unless it is somebody's parent. |
| Ramfs.StepKeepsInv | kernel/fs/ramfs.c:312-466 | Every operation, failed or not, keeps the tree and the counter in order. |
| Ramfs.MountedInv | kernel/fs/ramfs.c:490-498 | A mounted file system is a tree of one inode. |
| Ramfs.RunKeepsInv | kernel/fs/ramfs.c:49-466 | After every run of create, mkdir, rename, unlink and rmdir the inodes form a finite tree with unique sibling names, and the counter is the number of reachable inodes. |
| RamfsDriver.SameName | kernel/fs/ramfs.c:99-107 | The comparison loop decides equality of names. |
| RamfsDriver.Superblock.constructor | kernel/fs/ramfs.c:490-498 | Mounting leaves the root alone. |
| RamfsDriver.Superblock.LookupChild | kernel/fs/ramfs.c:91-113 | The list walk finds the child of that name if and only if there is one. |
| RamfsDriver.Superblock.AddInode | kernel/fs/ramfs.c:49-126 | Allocation and linking store exactly what the creation function says. |
| RamfsDriver.Superblock.CreateChild | kernel/fs/ramfs.c:312-362 | Create and mkdir compute the creation step; the heap is still a tree exactly when the guard holds. |
| RamfsDriver.Superblock.DetachTarget | kernel/fs/ramfs.c:380-389 | The predecessor search unlinks exactly the target. |
| RamfsDriver.Superblock.UnlinkTarget | kernel/fs/ramfs.c:423-431 | The loop over pointer addresses unlinks exactly the target. |
| RamfsDriver.Superblock.MoveChild | kernel/fs/ramfs.c:380-408 | Unlinking, linking and renaming store exactly what the rename function says. |
| RamfsDriver.Superblock.RenameChild | kernel/fs/ramfs.c:364-411 | A taken name is refused with nothing changed; otherwise the inode is moved whatever the destination is, and the heap is still a tree exactly when it is a directory outside the target's subtree. |
| RamfsDriver.Superblock.Unlink | kernel/fs/ramfs.c:413-437 | Unlink computes its step and error cases. |
| RamfsDriver.Superblock.Rmdir | kernel/fs/ramfs.c:439-466 | Rmdir computes its step and error cases. |
| RamfsDriver.FileData.Read | kernel/fs/ramfs.c:132-155 | Returns the contents from the position on, up to count or the end, and touches nothing behind them. |
| RamfsDriver.FileData.Write | kernel/fs/ramfs.c:157-199 | The written bytes read back, the size grows to cover them, and every other byte is kept, also when the buffer had to grow. |
| Printk.PositionalReads | kernel/core/printk.c:50-57 | Digits denote the number they were made from and do not start with zero. |
| Printk.TextReads | kernel/core/printk.c:33-67 | A number's text reads back as the number, sign included, without leading zero. |
| Printk.NumeralFits | kernel/core/printk.c:33-67 | 64-bit numbers take at most 20 digits, so text, sign and terminator fit 32 bytes. |
| Printk.Reverse | kernel/core/printk.c:21-31 | The swapping loop reverses the first bytes and keeps the rest. |
| Printk.PutDigits | kernel/core/printk.c:50-57 | The digit loop writes the digits backwards within the scratch buffer. |
| Printk.Itoa | kernel/core/printk.c:33-67 | The buffer holds the number's text and a terminator. |
| Printk.Utoa | kernel/core/printk.c:69-72 | Unsigned values pass through the signed parameter unharmed. |
| PrintkFormat.ScanReads | kernel/core/printk.c:90-123 | Scanning a directive reads back flags, width, length and conversion as they were written. |
| PrintkFormat.ScanWritten | kernel/core/printk.c:90-123 | What is scanned is what is written: the directive's text is that of its parts. |
| PrintkFormat.PiecesWrite | kernel/core/printk.c:84-123 | Every string that does not end inside a directive is written by its pieces. |
| PrintkFormat.PiecesRead | kernel/core/printk.c:84-123 | Pieces are read back from the string they write, so no other pieces write it. |
| PrintkFormat.TakesLetters | kernel/core/printk.c:123-199 | The conversions that take an argument are d, i, u, x, X, p, s and c. |
| PrintkFormat.NumberShown | kernel/core/printk.c:124-173 | d, i and u show text that reads back in decimal as the argument, x and X in hexadecimal with small and capital letters, without leading zero; it is filled up to the width from the left with zeros or blanks as asked. |
| PrintkFormat.PointerShown | kernel/core/printk.c:174-185 | p shows 0x and sixteen small hexadecimal digits that read back as the argument. |
| PrintkFormat.StringShown | kernel/core/printk.c:187-199 | s shows its string, or `(null)`, and c its argument modulo 256 as one byte. |
| PrintkFormat.FixedShown | kernel/core/printk.c:201-214 | Other characters show themselves, %% one percent sign, and an unknown conversion its percent sign and letter. |
| PrintkFormat.ScanDirective | kernel/core/printk.c:90-119 | The scanning loops compute the scan function. |
| PrintkFormat.FullStays | kernel/core/printk.c:134-137 | Once the buffer is full, further text changes nothing: cutting off commutes with appending. |
| PrintkFormat.PutText | kernel/core/printk.c:136-137 | The bounded copy loop leaves all of the text so far, or as much as fits. |
| PrintkFormat.PutPadding | kernel/core/printk.c:134-135 | The bounded padding loop likewise. |
| PrintkFormat.PutConverted | kernel/core/printk.c:123-199 | Each conversion appends its text, cut at the end of the buffer. |
| PrintkFormat.Kvsnprintf | kernel/core/printk.c:78-217 | For every well-formed format and suitable arguments the buffer holds exactly the first size - 1 characters of the unbounded expansion and a terminator; nothing behind it is written. |

## Left out

- ext4: `ext4_vfs_truncate` frees blocks but leaves their pointers in the inode, so it does not keep the ownership invariant; unlink, mount, unmount and sync are not modelled.
- ext4: high halves of 64-bit block numbers, sizes and counters, extents and checksums.
- ext4: failing I/O on blocks the device has and failing memory allocation.
- Ext4Driver.Driver.ScanBlock: requires a tiled block, because on any other the code's walk can leave the block buffer.
- Ext4Driver.Driver.AddEntry: requires a directory of tiled blocks, for the same reason.
- Ext4Driver.Driver.CreateInode: requires a live parent of tiled blocks, for the same reason.
- Virtqueue: memory barriers, the notify register, feature negotiation and misbehaving devices; key codes and the keyboard's event decoding, whose ring logic is the same.
- Process: failure paths of `process_create`, which leave the reserved slot READY; ELF loading, stacks, address randomisation and the context-switch assembly, which is a change of the current slot here; wrap-around of the pid counter.
- Pipe: the spin lock itself, which makes a locked section one step, and file-descriptor tables.
- Terminal: `term_handle_key`, the shell commands, scrollback, and overflow of numbers in control sequences.
- TerminalRender: other windows drawing over the target between two renders; the target and its origin do not change in a run. The glyph table is a parameter.
- Fdt: address and size cells other than two, reserved memory, and reads behind the end of a malformed blob, which see whatever is there.
- Xhci: doorbells and event rings; delivery is not claimed for control words with bit 0 set or of the link type, which are no commands.
- Ramfs: inode numbers, owners and permission bits, VFS inodes and dentries, path lookup, and failing memory allocation.
- Printk: log levels, the console, and `reverse` or `itoa` on the most negative signed value, whose negation is undefined in C.
- Window manager, compositor, network, sound and storage drivers, and the rest of the kernel: list and counter bookkeeping or hardware access.
