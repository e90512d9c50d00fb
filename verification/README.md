# CofeuOS in Dafny

A model of the state-holding cores of CofeuOS, a freestanding x86_64 kernel, with proofs of what
they promise. `dafny verify dfyconfig.toml` checks all of it.

| files | what they model |
|---|---|
| `FsModel` … `FsWalks` | cofeufs: block bitmap, inodes with 20 direct and 2 × 128 indirect pointers, slot-reusing directories, path walking, writes with rollback, recursive removal |
| `TcpStream`, `TcpReceive`, `TcpSend`, `TcpLink` | the TCP data path: receive ring and out-of-order store against the peer's stream, send ring and Nagle buffer against the application's stream, and both together up to the FIN |
| `TcpClose` | active close as a machine over ticks |
| `Checksum`, `IpFrag`, `IpReassembly`, `Ip6Text`, `DnsName` | the codecs: one's-complement checksums, IPv4 fragmentation and reassembly, IPv6 text, DNS names |
| `Heap`, `Pmm`, `Sched` | the kernel heap, the frame bitmap, the process table with round robin |
| `ShellCd`, `ShellRuns` | the shell's current directory, inode and text, and runs in which they part |
| `Basics`, `Bits` | machine integers, bytes, optional values; counting clear bits |

The source changes its state in place, and so does the model: a class per stateful component,
methods with the source's loops, and `Valid()` predicates that every method keeps. What a method
computes is stated through functions and predicates on values, about which the lemmas are. Ghost
state (the owner of each block, the place of each inode, the peer's stream, the bytes the heap has
dropped) appears only in specifications. What the functions and predicates behind a contract come to
is stated once more in plain terms, by the lemmas called `…Means` and their neighbours.

Main results, one per component:

- **File system** (`FsRun.Run`, with `CreateInode`, `WriteFile`, `AppendFile`, `ReadFile`,
  `RemoveFile`): bitmap exact, live inodes one tree, file contents exact, success conditions exact.
- **TCP** (`TcpReceive.Run`, `TcpSend.Sender.Outstanding`, `TcpSend.FlowRun`, `TcpLink.EndToEnd`): the
  reader gets a prefix of what the writer handed over, whatever the network does, and writes keep to
  the announced window.
- **Close** (`TcpClose.Run`, `TcpLink.CloseToEnd`): released within 700 ticks, through the three
  waiting states only; the FIN ends the stream where the writer did exactly when nothing is held back.
- **Codecs** (`IpReassembly.Run`, `IpReassembly.SettleLast`, `Checksum.WordChange`,
  `Ip6Text.RoundTrip`, `Ip6Text.ReadExact`, `DnsName.ReadName`, `DnsName.RoundTrip`).
- **Allocators and scheduler** (`Heap.Run`, `Sched.Run`, `Sched.BoundedWaiting`,
  `Sched.ExitKept`).
- **Shell** (`ShellCd.Shell.CdAll`, `ShellRuns.Descend`).

Places where the code does not do what one would expect of it are stated as they are: the exact
condition under which it does, and a run or a disk on which it does not.

| where | exact condition | failing case |
|---|---|---|
| removing directories over 240 slots | `FsTheorems.DirFreeIff`, `FsCore.CofeuFs.RemoveFile` | `FsTheorems.SpillBreaks` |
| mkdir in an inode not in use | `FsCore.CofeuFs.CreateInode` | `ShellRuns.StaleParent` |
| cd to long names, deep levels, long paths | `ShellCd.CdOneName`, `ShellCd.FaithfulIff`, `ShellCd.FaithfulDots` | `ShellRuns.Descend` |
| removing the current directory | `ShellCd.RemovedShows` | `ShellRuns.StaleParent` |
| a last fragment that overtakes others | `IpReassembly.SettleLast` | `IpReassembly.LastFirst`, `IpReassembly.Overtaken` |
| out-of-order slices that are passed over | `TcpReceive.Receiver.HandleSegment` | `TcpReceive.Clog` |
| closing with bytes in the Nagle buffer | `TcpLink.CloseSender`, `TcpLink.CloseToEnd` | `TcpLink.HeldBack` |
| TIME_WAIT before our FIN is acknowledged | `TcpClose.Connection.Receive` | `TcpClose.CrossedFins` |
| requests near 2^64 | `Heap.NeedIff` | every request it names |
| freeing free frames | `Pmm.FrameMap.FreeFrame`, `FreeRange` | `Pmm.FreedTwice` |
| sending the Nagle buffer behind the window | `TcpSend.Sender.HandleAck` | `TcpSend.Overrun` |
| changes a checksum misses | `Checksum.WordChange` | `Checksum.WordsSwap` |

## Model

| member | source | states |
|---|---|---|
| `FsRun.Run` | kernel/cofeufs.cpp:393-718 | From format, after any sequence of create, mkdir, write, append and remove (failed and rolled-back ones included): every live inode has exactly one naming entry, its ".." leads back, and exactly one dot-free path leads to it; a bitmap bit is set exactly when one slot of one live inode holds that block, as long as bit 0 is set; only a removal can clear that, and nothing else stops the run but mkdir into the free inode it would use itself, an append that wraps 32 bits, or a base that is no inode number |
| `FsRun.TreeMeans` | kernel/cofeufs.cpp:509-556 | The tree invariant, read without its ghost maps: one name, a true "..", and exactly one dot-free path for every live inode |
| `FsRun.Perform` | kernel/cofeufs.cpp:509-718 | One call on a sound disk keeps the tree; the disk stays sound exactly when bit 0 stays set, and only a removal can change that; no call but a recursive removal loses a directory, and removing a file always takes its path away |
| `FsWalks.PathUnique` | kernel/cofeufs.cpp:331-356 | Only one path without "." and ".." leads from the root to an inode |
| `FsModel.OwnersExact` | kernel/cofeufs.cpp:132-225 | No sharing and no leak: distinct slots of live inodes hold distinct blocks, all marked, and every marked block is held |
| `FsTheorems.OneName` | kernel/cofeufs.cpp:509-556 | Every live inode but the root is named by exactly one entry, and the ".." of a directory is the directory that names it |
| `FsTheorems.HasPath` | kernel/cofeufs.cpp:331-356 | Every live inode is reached from the root by a path without dots, so the entries form one tree |
| `FsTheorems.DirFreeIff` | kernel/cofeufs.cpp:148-165 | Freeing a directory other than the root touches no other inode's blocks if and only if it has at most 240 slots |
| `FsTheorems.SpillBreaks` | kernel/cofeufs.cpp:148-165 | A sound disk with a directory of 241 slots: freeing that directory clears the bit of the root's block |
| `FsRemove.LargeFreesZero` | kernel/cofeufs.cpp:148-165 | A directory uses blocks 20 and 21 exactly beyond 240 slots, and freeing it then clears bit 0 |
| `FsRemove.ZeroKept` | kernel/cofeufs.cpp:658-709 | Freeing a set of inodes keeps bit 0 if and only if no directory among them has more than 240 slots |
| `FsCore.CofeuFs.constructor` | kernel/cofeufs.cpp:393-434 | Formatting gives a valid disk with an empty root directory and nothing else |
| `FsCore.FormatOk` | kernel/cofeufs.cpp:393-434 | The formatted disk satisfies ownership, well-formedness and the tree invariant |
| `FsCore.CofeuFs.BlockAlloc` | kernel/cofeufs.cpp:132-141 | Takes the lowest free block, and fails only when no block is free |
| `FsCore.CofeuFs.BlockFree` | kernel/cofeufs.cpp:143-146 | Clears one bit, ignoring numbers outside the data area |
| `FsCore.CofeuFs.FreeTable` | kernel/cofeufs.cpp:155-164 | Clears the bits of an indirect table and of all its entries, and no other |
| `FsCore.CofeuFs.InodeFreeBlocks` | kernel/cofeufs.cpp:148-165 | Clears exactly the bits of direct blocks, tables and table entries |
| `FsBlocks.FreesOwned` | kernel/cofeufs.cpp:148-165 | What inode_free_blocks clears is exactly what the inode owns, when its blocks 20 and 21 are tables or unused |
| `FsBlocks.ReleaseOwners` | kernel/cofeufs.cpp:148-170 | Freeing an inode takes exactly its blocks out of the owner map; all others keep their owners |
| `FsBlocks.TakeDirect` | kernel/cofeufs.cpp:192-200 | A free block stored in an empty slot of an inode keeps ownership exact |
| `FsBlocks.TakeEntry` | kernel/cofeufs.cpp:213-221 | A free block stored in an empty entry of an indirect table keeps ownership exact |
| `FsBlocks.OthersView` | kernel/cofeufs.cpp:191-225 | Changing blocks of one inode leaves the contents of every other file and directory unchanged |
| `FsCore.CofeuFs.InodeBlockAt` | kernel/cofeufs.cpp:172-188 | Finds logical block bi through the direct slots and both tables, or reports that it is not mapped; for any inode what the sectors read as |
| `FsMeans.BlockLayout` | kernel/cofeufs.cpp:172-188 | Sector k is named by direct slot k below 20, by word k - 20 of the first table below 148, by word k - 148 of the second beyond |
| `FsMeans.ByteAt` | kernel/cofeufs.cpp:645-652 | Byte x of a file is byte x mod 512 of its sector x / 512 |
| `FsMeans.SlotAt` | kernel/cofeufs.cpp:230-237 | Slot k of a directory is entry k mod 12 of its block k / 12 |
| `FsCore.CofeuFs.MapDirectNext` | kernel/cofeufs.cpp:192-200 | Maps the next direct block at the cost of one free block |
| `FsCore.CofeuFs.AddTable` | kernel/cofeufs.cpp:203-209 | Adds an empty indirect table without disturbing any other inode |
| `FsCore.CofeuFs.FillEntry` | kernel/cofeufs.cpp:213-221 | Maps the next block in a table entry |
| `FsCore.CofeuFs.MapIndirectNext` | kernel/cofeufs.cpp:201-223 | Maps the next block in table t, adding the table first when it is missing; full exactly at its end |
| `FsCore.CofeuFs.InodeMapNext` | kernel/cofeufs.cpp:191-225 | Maps logical block k and nothing else; full exactly at 276 blocks, out of space exactly when the step costs more than is free |
| `FsFiles.GrowTable` | kernel/cofeufs.cpp:203-209 | A new empty table keeps ownership exact and the mapping as it was |
| `FsFiles.GrowEntry` | kernel/cofeufs.cpp:213-221 | A new entry extends the mapping by one block and keeps ownership exact |
| `FsFiles.StoreChunk` | kernel/cofeufs.cpp:595-604 | Writing one sector of a file changes no block pointer and no other file |
| `FsFiles.ChunksContent` | kernel/cofeufs.cpp:595-604 | If every block holds its slice of the data, the file holds the data |
| `FsFiles.ReadChunk` | kernel/cofeufs.cpp:645-652 | Block k of a file holds bytes 512k onward of its contents |
| `FsSpace.FreeCountOwn` | kernel/cofeufs.cpp:132-146 | Free blocks and owned blocks together are the whole data area |
| `FsSpace.OwnedCount` | kernel/cofeufs.cpp:191-225 | A file of k blocks owns k data blocks and its tables, counted exactly |
| `FsSpace.ReleasedCount` | kernel/cofeufs.cpp:148-170 | Releasing a file gives back exactly what a file of its size costs |
| `FsCore.CofeuFs.WriteFileAbort` | kernel/cofeufs.cpp:562-568 | Leaves the file empty and owning nothing |
| `FsCore.CofeuFs.MapAll` | kernel/cofeufs.cpp:589-593 | Maps the whole file if and only if there are enough free blocks for data and tables |
| `FsCore.CofeuFs.StoreAll` | kernel/cofeufs.cpp:595-604 | Afterwards the file's contents are exactly the data; no other file changes |
| `FsCore.CofeuFs.WriteBlocks` | kernel/cofeufs.cpp:586-609 | Contents become the data if and only if it fits; otherwise the file is empty |
| `FsCore.CofeuFs.Rewrite` | kernel/cofeufs.cpp:585-609 | Old blocks are given back first; success if and only if free blocks plus the file's own suffice; only this file changes |
| `FsCore.CofeuFs.WriteInode` | kernel/cofeufs.cpp:577-609 | Refuses directories and data over 141312 bytes without changing anything; otherwise writes or empties the file |
| `FsCore.CofeuFs.WriteFile` | kernel/cofeufs.cpp:570-609 | Creates the file when the path is new and possible, then writes it; on success the path leads to exactly the data, every other file is unchanged |
| `FsMeans.WroteMeans` | kernel/cofeufs.cpp:577-609 | A write succeeds if and only if the data has at most 141312 bytes and the file's own and the free blocks suffice for its sectors and for no, one or two tables; otherwise the file is empty or, when the data is too long, nothing changes; other files never change |
| `FsCore.CofeuFs.ReadBlocks` | kernel/cofeufs.cpp:643-652 | Returns the first len bytes of the contents, across direct and indirect blocks |
| `FsCore.CofeuFs.ReadFile` | kernel/cofeufs.cpp:635-655 | Returns exactly the file's bytes cut to maxlen, and nothing for directories and missing paths |
| `FsCore.CofeuFs.LoadFile` | kernel/cofeufs.cpp:621-630 | Reads the whole old contents |
| `FsCore.CofeuFs.AppendFile` | kernel/cofeufs.cpp:611-633 | On success the contents are the old bytes followed by the new; refused without change beyond 141312 bytes; a missing path is written as new |
| `FsMeans.AppendedMeans` | kernel/cofeufs.cpp:611-633 | An append is a write of the old bytes followed by the new, refused beyond 141312 bytes |
| `FsCore.OnlyFileResolve` | kernel/cofeufs.cpp:570-609 | Rewriting a file changes what no path leads to |
| `FsCore.OnlyFileTree` | kernel/cofeufs.cpp:570-609 | Rewriting a file keeps the directory tree |
| `FsCore.CofeuFs.DirSlotRead` | kernel/cofeufs.cpp:230-237 | Reads entry k of a directory, for every slot of its blocks, and nothing beyond them |
| `FsCore.CofeuFs.DirFind` | kernel/cofeufs.cpp:249-267 | Finds the first entry that answers to the name |
| `FsCore.CofeuFs.FindHole` | kernel/cofeufs.cpp:274-286 | Finds the first free slot, exactly when there is one |
| `FsCore.CofeuFs.DirSlotWrite` | kernel/cofeufs.cpp:239-247 | Replaces one entry in its sector and changes nothing else on the disk |
| `FsCore.CofeuFs.DirGrow` | kernel/cofeufs.cpp:288-315 | Adds an empty slot at the end, in a new block if needed; possible exactly below 264 slots with a block at hand |
| `FsCore.CofeuFs.DirAdd` | kernel/cofeufs.cpp:269-316 | Adds the entry in a hole or at the end if and only if there is room; otherwise changes nothing: in the first hole, and at the end only when there is none |
| `FsDirs.GrowOk` | kernel/cofeufs.cpp:288-315 | Widening a directory into a zeroed new block keeps ownership exact and all old entries in place |
| `FsDirs.WidenOk` | kernel/cofeufs.cpp:306-313 | Widening inside the last block keeps all old entries in place |
| `FsCore.CofeuFs.FreeInode` | kernel/cofeufs.cpp:518-524 | Finds the lowest free inode |
| `FsCore.CofeuFs.MakeInode` | kernel/cofeufs.cpp:526-547 | Makes the unlinked inode, for a directory with its block of "." and ".." |
| `FsCore.CofeuFs.MakeAndLink` | kernel/cofeufs.cpp:526-556 | Links the new inode, or takes everything back: the bitmap and all files and directories are as before. Into an inode not in use it links exactly when that is the new directory itself |
| `FsCreate.Rollback` | kernel/cofeufs.cpp:548-554 | Undoing an unlinked inode gives back the bitmap and every view |
| `FsCore.CofeuFs.CreateAt` | kernel/cofeufs.cpp:526-556 | The new inode gets the path and every older path keeps its meaning; the disk stays sound exactly when the parent was in use or nothing was made |
| `FsCore.CofeuFs.CreateInode` | kernel/cofeufs.cpp:509-559 | Succeeds if and only if the path splits, is new, and inode and blocks suffice; then it leads to the new, previously free inode, every path that resolved still resolves to the same inode, and no other file changes; otherwise nothing observable changes. The one exception, stated exactly: mkdir in the lowest free inode makes a directory that names itself |
| `FsMeans.CreatableMeans` | kernel/cofeufs.cpp:509-556 | Success in numbers: the path splits and is new, an inode is free, the parent is a directory, a block is free for a new directory, and the entry has a free slot or fewer than 264 slots before it, with one more block when the last is full |
| `FsMeans.CreatableIn` | kernel/cofeufs.cpp:509-556 | A new name behind a directory path of up to 94 characters can be made while an inode and two blocks are free and the directory has fewer than 264 slots |
| `FsMeans.CreatedMeans` | kernel/cofeufs.cpp:509-556 | The entry goes into the first free slot, or behind the last when none is free; the new inode is an empty file, or a directory with "." and ".."; everything else is as it was |
| `FsCreate.SelfNamedNoTree` | kernel/cofeufs.cpp:547-548 | A directory that names itself is in no tree |
| `FsCreate.CreatedPaths` | kernel/cofeufs.cpp:509-556 | After create_inode the tree is kept, the new path resolves to the new inode, and old paths resolve as before |
| `FsTree.LinkTree` | kernel/cofeufs.cpp:509-556 | Linking a fresh inode under a new name keeps the tree |
| `FsTree.LinkWalk` | kernel/cofeufs.cpp:331-356 | Linking changes no walk that succeeded before |
| `FsTree.SameDirsWalk` | kernel/cofeufs.cpp:331-356 | Walks agree on disks whose directories agree |
| `FsTree.WalkAppend` | kernel/cofeufs.cpp:331-356 | Walking a path is walking its first part and then the rest |
| `FsCore.CofeuFs.CopyComp` | kernel/cofeufs.cpp:341-342 | Copies the next component, at most 31 characters |
| `FsCore.CofeuFs.NextComp` | kernel/cofeufs.cpp:338-345 | Takes one component off the path and skips the slashes after it |
| `FsCore.CofeuFs.ResolveFrom` | kernel/cofeufs.cpp:331-356 | Walks the components of the path from the root or from base |
| `FsCore.CofeuFs.FindLastSlash` | kernel/cofeufs.cpp:359-366 | The position of the last slash |
| `FsCore.CofeuFs.SplitLast` | kernel/cofeufs.cpp:359-390 | Splits a path at its last slash and resolves the part before it, as FsPath.SplitMeans spells out |
| `FsPath.CompsJoin` | kernel/cofeufs.cpp:331-356 | Components of two paths joined by a slash are those of the first then those of the second, however many slashes there are |
| `FsPath.SplitAgrees` | kernel/cofeufs.cpp:331-390 | Resolving the whole path is looking up the last name in the parent that split_last found |
| `FsPath.SplitMeans` | kernel/cofeufs.cpp:359-390 | When a path splits and into what: a name alone belongs to base; behind a slash to the directory the part before it resolves to, which may have up to 94 characters |
| `FsPath.SplitRefuses` | kernel/cofeufs.cpp:359-390 | No path splits without a last name or with one over 31 characters |
| `FsRemove.PartialStep` | kernel/cofeufs.cpp:691-709 | Zeroing one more inode clears exactly the bits inode_free_blocks clears for it |
| `FsRemove.PartialRemoved` | kernel/cofeufs.cpp:658-709 | Freeing the subtree and clearing the entry is exactly the removal of the subtree |
| `FsTree.UnlinkTree` | kernel/cofeufs.cpp:658-709 | What is left after a removal is a tree |
| `FsWalks.RemovedWalk` | kernel/cofeufs.cpp:331-356 | After a removal every walk from outside the subtree is the old one, and fails exactly where that entered the subtree |
| `FsWalks.RemovedGone` | kernel/cofeufs.cpp:658-718 | The path that led to the removed inode leads nowhere |
| `FsCore.CofeuFs.RemoveChildren` | kernel/cofeufs.cpp:691-704 | Frees exactly what lies below the children of the directory, whatever their size; terminates because ranks grow downwards |
| `FsCore.CofeuFs.RemoveByIno` | kernel/cofeufs.cpp:691-709 | Zeroes exactly the inodes of the subtree and clears exactly the bits that freeing them clears |
| `FsCore.CofeuFs.RemoveSubtree` | kernel/cofeufs.cpp:668-688 | The subtree is gone and nothing else changed; the disk stays sound, with exactly the subtree's blocks free, if and only if no directory of the subtree has more than 240 slots |
| `FsCore.CofeuFs.DirRemove` | kernel/cofeufs.cpp:318-329 | Clears the one entry |
| `FsCore.CofeuFs.RemoveEntry` | kernel/cofeufs.cpp:658-689 | Succeeds if and only if the entry exists and is a file or the call is recursive; the disk stays sound if and only if no directory of the subtree has more than 240 slots |
| `FsCore.CofeuFs.RemoveFile` | kernel/cofeufs.cpp:711-718 | Frees exactly the subtree's inodes; everything outside keeps its contents, except the one cleared slot; the path resolves no more and every other walk is as before unless it entered the subtree; exactly the subtree's blocks are free and the disk stays sound if and only if no directory of it has more than 240 slots; without the recursive flag no directory is lost, and a file is removed with or without it |
| `FsCore.RemovableMeans` | kernel/cofeufs.cpp:658-718 | A path that splits, other than at "." and "..", can be removed if and only if it resolves, and resolves to a directory only when the call is recursive |
| `TcpReceive.Receiver.RxrPush` | kernel/net.cpp:1184-1196 | Appends to the ring what fits and says how much that was |
| `TcpReceive.Receiver.OooStore` | kernel/net.cpp:1198-1211 | Sets a slice aside in a free place unless it is there already or every slice is taken; no other place changes |
| `TcpReceive.Receiver.OooDrain` | kernel/net.cpp:1213-1231 | Takes over waiting slices until none starts at rcv_nxt or the ring is full; slices that start below rcv_nxt stay |
| `TcpReceive.Receiver.HandleData` | kernel/net.cpp:1387-1410 | Old bytes are skipped, bytes at rcv_nxt are taken as far as there is room, later bytes are set aside; a ring that overflows asks for a window update |
| `TcpReceive.Receiver.HandleSegment` | kernel/net.cpp:1386-1426 | For any genuine segment, read bytes followed by the ring stay the stream up to rcv_nxt; a FIN is accepted exactly when all of the stream is stored; a waiting slice that the segment passes over is never given back |
| `TcpReceive.Receiver.CopyOut` | kernel/net.cpp:2359-2364 | Hands out the oldest bytes of the ring |
| `TcpReceive.Receiver.Recv` | kernel/net.cpp:2354-2372 | Hands out the oldest bytes and nothing else, and clears the wanted window update once the ring is under half full |
| `TcpReceive.Run` | kernel/net.cpp:1184-1426 | Over any reordering, repetition, overlap and ring overflow, the bytes read are a prefix of the stream, followed in it by the ring; after the FIN the two are all of it |
| `TcpReceive.CloggedStays` | kernel/net.cpp:1213-1231 | A store in which every slice starts below rcv_nxt stays as it is, however far rcv_nxt moves |
| `TcpReceive.Clog` | kernel/net.cpp:1198-1231 | A run that fills the store for good: four early segments, then one that covers them; whatever arrives afterwards, all four slices still start below rcv_nxt, so no segment that comes early is kept |
| `TcpSend.Sender.Outstanding` | kernel/net.cpp:1165-1182 | Pending slots end to end, then the Nagle buffer, are exactly the unacknowledged tail of what the application handed over |
| `TcpSend.FlatIs` | kernel/net.cpp:1099-1105 | Pending slots tile sequence space from the oldest slot to snd_nxt with the right bytes |
| `TcpSend.PushQueue` | kernel/net.cpp:2233-2241 | Filling the slot at the head of the ring appends to the queue |
| `TcpSend.PopQueue` | kernel/net.cpp:1099-1105 | Clearing the slot at the tail removes the oldest |
| `TcpSend.Sender.SendSlot` | kernel/net.cpp:2233-2242 | One more slot at snd_nxt, and its segment on the wire |
| `TcpSend.Sender.NagleFlush` | kernel/net.cpp:1165-1182 | Sends the whole buffer as one segment at snd_nxt, unless the window is closed, the ring is full, or less than a segment is buffered while bytes are in flight: then, and only then, it stays |
| `TcpSend.Sender.AckSlots` | kernel/net.cpp:1099-1105 | What is left of the queue is exactly its part from the first slot the acknowledgement does not cover |
| `TcpSend.Sender.TsPick` | kernel/net.cpp:951-961 | The slot of the reference walk over the ring |
| `TcpSend.PickMeans` | kernel/net.cpp:951-961 | That is the oldest slot not selectively acknowledged, else the oldest |
| `TcpSend.Sender.FastRecovery` | kernel/net.cpp:1147-1161 | Puts the picked slot on the wire again and notes where recovery ends |
| `TcpSend.Sender.PollTx` | kernel/net.cpp:1020-1049 | At a timeout the picked slot is sent again if it starts at snd_una; the thirteenth time in a row, or the seventh unanswered keepalive probe, gives the connection up |
| `TcpSend.Sender.Retransmit` | kernel/net.cpp:1020-1032 | The timeout part: one retransmission or the end of the connection |
| `TcpSend.Sender.Keepalive` | kernel/net.cpp:1033-1048 | The keepalive part: probes are counted while idle and reset by outstanding data |
| `TcpSend.Sender.SackApply` | kernel/net.cpp:1129-1136 | Marks exactly the pending slots that the block touches |
| `TcpSend.Sender.HandleAck` | kernel/net.cpp:1350-1384 | Takes over the announced window from every acknowledgement; advances snd_una on a new one, takes the answer to a keepalive probe, counts duplicates, allows more after one and retransmits at the third; says when the Nagle buffer goes out |
| `TcpSend.Sender.Send` | kernel/net.cpp:2187-2247 | Absorbs a prefix of the buffer, in order; every segment ever put on the wire carries the right bytes for its number; refuses only empty data or while ring or window block it; new data ends within the window announced last, and within the congestion window unless a duplicate acknowledgement allowed more; with an idle connection and room for it everything is sent at once |
| `TcpSend.FlowRun` | kernel/net.cpp:1350-2247 | Over any run of writes and events: whatever a write from an empty Nagle buffer newly puts on the wire ends within the window of the last acknowledgement, and within the congestion window unless a duplicate acknowledgement allowed more |
| `TcpSend.Overrun` | kernel/net.cpp:1165-1182 | A run in which the Nagle buffer is sent behind the window: with one byte of window left that happens if and only if more than one byte is buffered |
| `TcpLink.EndToEnd` | kernel/net.cpp:1184-2372 | However writing, acknowledging, timeouts, delivery (with loss, repetition and reordering) and reading are interleaved, the reader gets a prefix of what the sending application handed over, and none of it is still in the Nagle buffer |
| `TcpLink.Step` | kernel/net.cpp:1184-2372 | One event keeps the two ends in step |
| `TcpLink.CloseSender` | kernel/net.cpp:2375-2388 | The FIN has the number after the last byte handed over if and only if the Nagle buffer is empty at the close; else exactly the bytes of that buffer lie behind it |
| `TcpLink.CloseToEnd` | kernel/net.cpp:2375-2388 | In whatever order the FIN and the segments sent before the close arrive: once the FIN is accepted, what the reader has or finds in the ring is all that was handed over if and only if the Nagle buffer was empty, and else lacks exactly that buffer |
| `TcpLink.HeldBack` | kernel/net.cpp:2187-2225 | A run in which that happens: two small writes and a close put the FIN before the second byte |
| `TcpClose.Connection.Close` | kernel/net.cpp:2380-2388 | Takes one sequence number for the FIN and starts the first clock |
| `TcpClose.Connection.TakeAck` | kernel/net.cpp:1350-1378 | An acknowledgement of the FIN, and no other, moves FIN_WAIT_1 to FIN_WAIT_2 and restarts the clock |
| `TcpClose.Connection.TakeFin` | kernel/net.cpp:1412-1424 | An accepted FIN moves FIN_WAIT_2 to TIME_WAIT and FIN_WAIT_1 to FIN_WAIT_2 |
| `TcpClose.Connection.Receive` | kernel/net.cpp:1270-1426 | The state after any segment, from whether it acknowledges our FIN and brings the peer's; TIME_WAIT is entered with our FIN unacknowledged if and only if the segment brings the peer's FIN in FIN_WAIT_2 while ours is outstanding, and does not acknowledge it; every state and counter after it in terms of the segment and the state before |
| `TcpClose.Connection.Poll` | kernel/net.cpp:992-1019 | Sends the FIN again if and only if its timeout has passed and fewer than twelve retries were made, doubling the timeout up to 3000; gives the slot back exactly at the deadline or at one retransmission too many |
| `TcpClose.Connection.Tick` | kernel/net.cpp:992-1019 | One tick of any events and a poll keeps the deadlines; TIME_WAIT ends exactly at its own unless cut short by force |
| `TcpClose.Run` | kernel/net.cpp:992-2402 | From ESTABLISHED, for any packets: states come in the order FIN_WAIT_1, FIN_WAIT_2, TIME_WAIT, released, and the slot is free within 700 ticks; TIME_WAIT lasts 300 ticks unless cut short; over the log of segments it is entered without an acknowledged FIN exactly at a premature FIN, and stays so exactly while no ACK of our FIN follows |
| `TcpClose.Slowest` | kernel/net.cpp:992-2402 | A run that keeps the slot through tick 699, so 700 is exact |
| `TcpClose.CrossedFins` | kernel/net.cpp:1412-1424 | A run in which TIME_WAIT is entered although our FIN was never acknowledged |
| `IpFrag.IpSend` | kernel/net.cpp:205-262 | The packets are the 1480-byte pieces of the payload with offset, more-fragments flag, lengths and checksum |
| `IpFrag.IpOptsOk` | kernel/net.cpp:1455-1466 | Accepts exactly an option area that is a list of well-formed options, none a source route, up to its end or the first end mark |
| `IpFrag.OptionsMean` | kernel/net.cpp:1455-1466 | The walk over the options accepts exactly the areas that are such lists |
| `IpFrag.AcceptableMeans` | kernel/net.cpp:1468-1479 | A packet passes if and only if it is IPv4 with a whole header of at least five words, a time to live, a header sum that is a non-zero multiple of 65535, and clean options |
| `IpFrag.Damaged` | kernel/net.cpp:1468-1479 | A packet with one header byte changed after the first, or with no time to live, leaves both slots as they were and gives out nothing |
| `IpFrag.HeaderReads` | kernel/net.cpp:233-241 | Every field of a header reads back as written, whatever its checksum, and stands in network byte order |
| `IpFrag.HeaderVerifies` | kernel/net.cpp:233-241 | The checksum of a header verifies |
| `IpFrag.RewrittenHeader` | kernel/net.cpp:1515-1519 | The header of any fragment, rewritten at the end of reassembly, is the header of the whole datagram in one packet |
| `IpFrag.PieceParses` | kernel/net.cpp:1468-1490 | Each piece passes every check of the receiver and is read as what was cut |
| `IpFrag.Reassembler.Store` | kernel/net.cpp:1502-1522 | The in-place buffer update is the function on slot values |
| `IpFrag.Reassembler.HandleIpv4` | kernel/net.cpp:1468-1523 | For every packet, slots and output are those of the reference step, and the expiry clock is set exactly when a fragment finds a slot |
| `IpFrag.Reassembler.ExpiryPoll` | kernel/net.cpp:1527-1537 | Gives up both slots exactly when 200 ticks have passed since the last fragment |
| `IpFrag.HandleFrame` | kernel/net.cpp:2805-2814 | Packets for other hosts are dropped, and padding behind the total length is cut off |
| `IpFrag.FrameMeans` | kernel/net.cpp:2805-2814 | A packet is for this host when it has the host, the broadcast or the all-ones address, or while no address is set; it ends where its length field says, unless that is beyond the frame |
| `IpReassembly.SettlePiece` | kernel/net.cpp:1502-1512 | A piece other than the last is added to what the slot has, in any order and any number of times |
| `IpReassembly.SettleLast` | kernel/net.cpp:1510-1522 | The last piece is dispatched at once in whatever slot it lands; what goes out is the datagram, byte for byte as one unfragmented packet, if and only if the buffer has all the other pieces |
| `IpReassembly.LastFirst` | kernel/net.cpp:1491-1523 | A last piece that overtakes all others on a fresh host goes out at once; what goes out is the datagram if and only if the bytes still on their way are all zero |
| `IpReassembly.Overtaken` | kernel/net.cpp:1491-1523 | A run that gives out a wrong datagram: the second packet of 1481 ones arrives first |
| `IpReassembly.ArriveDue` | kernel/net.cpp:1468-1523 | The two slots track the open datagrams through any due arrival |
| `IpReassembly.Take` | kernel/net.cpp:1468-1537 | The expiry poll and the frame handler together, for one due arrival |
| `IpReassembly.Run` | kernel/net.cpp:1468-1537 | For any number of datagrams up to 65515 bytes, at most two open at a time, of different source, id or protocol, the first piece of each first, the last last, the others in any order and repeated at will, never 200 ticks apart: each is dispatched when its last piece arrives, unchanged, and nothing else is |
| `IpReassembly.OnceEach` | kernel/net.cpp:1468-1523 | Over such a schedule a datagram is dispatched as often as it was begun, but for the copy still open |
| `Checksum.IpChecksum` | kernel/net.cpp:71-80 | The complement of the one's-complement sum, without 32-bit overflow up to 65535 bytes |
| `Checksum.TransportChecksum` | kernel/net.cpp:329-340 | The checksum of the twelve pseudo header bytes (source, destination, zero, protocol, length) followed by the segment, without overflow, for UDP and (lines 857-868) TCP |
| `Checksum.Icmp6Checksum` | kernel/net.cpp:2517-2529 | The checksum of the forty pseudo header bytes (source, destination, 32-bit length, next header 58) followed by the message, without overflow |
| `Checksum.SumMeans` | kernel/net.cpp:70-80 | The sum is over big-endian words, an odd last byte being the high one |
| `Checksum.Finish` | kernel/net.cpp:78-79 | Folding carries keeps the residue modulo 65535, and zero only for zero |
| `Checksum.FoldedIs` | kernel/net.cpp:78-79 | The folded sum is the residue modulo 65535, with 65535 for a non-zero multiple |
| `Checksum.StoredVerifies` | kernel/net.cpp:238-241 | Storing the checksum in its zeroed field at an even offset makes the receiver's sum zero, for every pseudo header |
| `Checksum.WordChange` | kernel/net.cpp:1478-1478 | A change of one word is missed if and only if it turns 0x0000 into 0xFFFF, or back while another word is not zero |
| `Checksum.ByteChange` | kernel/net.cpp:1478-1478 | A change of one byte is never missed |
| `Checksum.WordsSwap` | kernel/net.cpp:71-80 | Exchanging two words is never noticed |
| `Ip6Text.BestRun` | kernel/net.cpp:2853-2862 | The first longest run of zero groups |
| `Ip6Text.Format` | kernel/net.cpp:2852-2883 | The canonical text, the first longest zero run of two or more groups shortened: all of it with 40 bytes of room, else a prefix that leaves at most one byte of the room unused |
| `Ip6Text.ReadGroups` | kernel/net.cpp:2887-2918 | The reading loop, against its recursive definition |
| `Ip6Text.Parse` | kernel/net.cpp:2886-2939 | Accepts exactly the texts of eight groups, or of at most seven around one double colon, and stores their value |
| `Ip6Text.ReadExact` | kernel/net.cpp:2886-2939 | The accepted language and its values, in both directions |
| `Ip6Text.DenotesOnce` | kernel/net.cpp:2886-2939 | A text has at most one value |
| `Ip6Text.CanonicalDenotes` | kernel/net.cpp:2852-2883 | Canonical text denotes the address it was made from |
| `Ip6Text.RoundTrip` | kernel/net.cpp:2852-2939 | Parsing what was formatted gives the 16 bytes back |
| `Ip6Text.GroupBytes` | kernel/net.cpp:2852-2880 | Group k is bytes 2k and 2k + 1 in network byte order |
| `Ip6Text.HexMore` | kernel/net.cpp:2852-2880 | A group is written in hexadecimal digits, the highest first |
| `Ip6Text.Digits16` | kernel/net.cpp:2852-2880 | The digits are 0 to 9 and lower-case a to f |
| `Ip6Text.Sample` | kernel/net.cpp:2886-2939 | An example in full: the 16 bytes that fe80::1234:5678:9abc:DEF0 stores |
| `DnsName.Qname` | kernel/net.cpp:596-611 | The encoding of the labels taken from the name |
| `DnsName.KeptJoined` | kernel/net.cpp:596-611 | A name of labels of 1 to 63 bytes, up to 250 bytes, is taken label by label, with or without a final dot |
| `DnsName.KeptSkips` | kernel/net.cpp:596-611 | An empty label or one over 63 bytes is left out, and nothing is begun from byte 250 on |
| `DnsName.SkipName` | kernel/net.cpp:613-626 | Ends behind the name or its first pointer |
| `DnsName.ReadName` | kernel/net.cpp:629-660 | Terminates on every input; succeeds if and only if a name with at most twelve pointers is laid out there and fits; its text is the labels with a dot after each, and it stops where dns_skip_name does |
| `DnsName.NamesEncoded` | kernel/net.cpp:596-660 | An encoded name anywhere in a message is read as its labels |
| `DnsName.NamesCompressed` | kernel/net.cpp:638-645 | Labels followed by a pointer are read as those labels and then the name pointed to |
| `DnsName.NamesChain` | kernel/net.cpp:638-645 | Chains of pointers are followed up to the allowance and refused beyond it |
| `DnsName.ChainLimit` | kernel/net.cpp:638-645 | A chain of pointers to a name without pointers is read if and only if it has at most twelve |
| `DnsName.NamesLoop` | kernel/net.cpp:638-645 | A pointer to itself is refused |
| `DnsName.RoundTrip` | kernel/net.cpp:596-660 | Reading what was written gives the name with one dot at its end |
| `Heap.NeedIff` | kernel/memory.cpp:25-106 | A request keeps room for its header if and only if it is at most 2^64 - 24 bytes |
| `Heap.KHeap.constructor` | kernel/memory.cpp:81-98 | One free block fills the arena |
| `Heap.KHeap.Carve` | kernel/memory.cpp:31-41 | Splits a free block or takes it whole, dropping a remainder under 32 bytes |
| `Heap.KHeap.AllocFrom` | kernel/memory.cpp:27-46 | Takes the first block that fits, its first bytes; the rest stays free from 32 bytes on; fails only when none fits |
| `Heap.KHeap.KMalloc` | kernel/memory.cpp:102-116 | Fails if and only if no free block fits; otherwise the first that fits gives one new live block, disjoint from all others, and only a rest under 32 bytes is lost |
| `Heap.KHeap.Insert` | kernel/memory.cpp:53-75 | Inserts by address and merges with both neighbours it touches |
| `Heap.KHeap.KFree` | kernel/memory.cpp:118-124 | Ends exactly the freed block, and nothing is lost; null and pointers outside the arena are ignored |
| `Heap.GivenSorted` | kernel/memory.cpp:53-75 | After insertion the list is strictly sorted, inside the arena, and no two entries touch |
| `Heap.GivenLive` | kernel/memory.cpp:53-75 | After insertion the list is disjoint from every block still live |
| `Heap.Run` | kernel/memory.cpp:27-124 | Over any run: sorted, coalesced, disjoint from live blocks, and free + used + lost is the arena size |
| `Pmm.FrameMap.AllocFrame` | kernel/pmm.cpp:101-111 | The lowest free frame; fails if and only if none is free |
| `Pmm.FrameMap.FreeFrame` | kernel/pmm.cpp:132-136 | Ignores addresses outside; inside, the free count stays right if and only if the frame was allocated |
| `Pmm.FreedTwice` | kernel/pmm.cpp:132-136 | A run that breaks the count: a frame freed twice leaves one more free frame than there are frames |
| `Pmm.FrameMap.RangeMark` | kernel/pmm.cpp:34-42 | Sets or clears exactly the bits of the range, whatever they were |
| `Pmm.FrameMap.AllocRange` | kernel/pmm.cpp:113-130 | The first run of n free frames; fails if and only if there is none |
| `Pmm.FrameMap.FreeRange` | kernel/pmm.cpp:138-143 | Ignores a range that leaves the map; inside, clears exactly its bits, and the free count stays right if and only if every frame was allocated |
| `Pmm.FrameMap.TakeAndReturn` | kernel/pmm.cpp:113-143 | Giving back a range just taken restores the map |
| `Sched.Scheduler.Grab` | kernel/sched.cpp:128-132 | Takes a frame for a process: marked, held by it alone |
| `Sched.Scheduler.VmFree` | kernel/sched.cpp:224-236 | Gives back every frame of the process and no other |
| `Sched.Scheduler.VmNew` | kernel/sched.cpp:183-222 | Four tables or nothing at all, then exactly as many of the four stack pages as there are frames |
| `Sched.Scheduler.PidAlloc` | kernel/sched.cpp:73-81 | The smallest pid in no use; one always exists |
| `Sched.Scheduler.FindHole` | kernel/sched.cpp:91-104 | The first empty slot, nothing else changing; only when none is empty the first zombie, reaped; none if and only if all are alive |
| `Sched.Scheduler.Setup` | kernel/sched.cpp:286-312 | On failure the slot is empty and its frames are back |
| `Sched.Scheduler.Spawn` | kernel/sched.cpp:286-314 | A new ready process with a fresh pid, with a kernel stack; fails only without slot, stack or four frames; a zombie's slot is taken only when no slot is empty |
| `Sched.Scheduler.Fork` | kernel/sched.cpp:679-707 | A new ready process with a fresh pid, made by a running process, which is unchanged; fails only without slot, stack, image or four frames; the return register is the pid, -1, or untouched when the address space cannot be built; a zombie's slot is taken only when no slot is empty |
| `Sched.Scheduler.WakeSleepers` | kernel/sched.cpp:106-112 | Exactly the sleepers whose time has come are ready |
| `Sched.Scheduler.PickReady` | kernel/sched.cpp:115-125 | The cyclically nearest ready slot, the requeued process last |
| `Sched.Scheduler.Reschedule` | kernel/sched.cpp:581-624 | One turn: sleepers woken, the running process requeued, the nearest ready slot running, and cur naming it |
| `Sched.Scheduler.Go` | kernel/sched.cpp:284-284 | Scheduling is on |
| `Sched.Scheduler.Exit` | kernel/sched.cpp:634-639 | The process is a zombie with its code and another runs |
| `Sched.Scheduler.Sleep` | kernel/sched.cpp:640-649 | The process sleeps until its tick and another runs; zero does nothing |
| `Sched.Scheduler.Yield` | kernel/sched.cpp:578-652 | A turn |
| `Sched.Scheduler.Wait` | kernel/sched.cpp:761-777 | Reaps a matching zombie and returns its code; fails if and only if there is none; no other slot changes |
| `Sched.ExitKept` | kernel/sched.cpp:91-777 | Over any calls that do not wait for any process or for it, kill it, or make a process when no slot is empty, a zombie's exit code is kept for Wait |
| `Sched.Scheduler.Kill` | kernel/sched.cpp:915-925 | Empties exactly the slot with that pid; refused for the running process and unknown pids |
| `Sched.TurnCloser` | kernel/sched.cpp:115-125 | A turn that passes over a ready process brings the processor cyclically closer to it |
| `Sched.TurnIdle` | kernel/sched.cpp:581-624 | The processor goes idle if and only if nothing can run |
| `Sched.TurnTable` | kernel/sched.cpp:106-125 | The whole table after a turn: the chosen slot runs, sleepers that are due and the process that ran are ready, nothing else changes |
| `Sched.TurnNext` | kernel/sched.cpp:115-125 | The chosen slot is the first one after the running one, going round, that is ready or asleep and due |
| `Sched.TurnAlone` | kernel/sched.cpp:115-125 | When none is, the process that ran goes on, if it still runs |
| `Sched.TurnZombies` | kernel/sched.cpp:581-624 | No turn touches a zombie |
| `Sched.BoundedWaiting` | kernel/sched.cpp:106-125 | A process that stays ready is passed over in fewer than 32 turns, whatever the others do |
| `Sched.FramesApart` | kernel/sched.cpp:183-235 | Processes never share a page frame |
| `Sched.Run` | kernel/sched.cpp:73-940 | Over any sequence of calls: exactly one running slot, named by cur, or none; distinct non-zero pids; free plus held frames constant; and a process that is ready throughout is passed over in fewer than 32 turns |
| `Sched.Perform` | kernel/sched.cpp:284-940 | Each call is a move that leaves cur alone, or one turn of the scheduler, possibly after the running process has left; a zombie is spared by every call that does not wait for it, kill it, or need its slot |
| `ShellCd.NormWalk` | kernel/shell.cpp:167-204 | Walking components from a directory ends where the lexically normalised path leads from the root |
| `ShellCd.StackSegments` | kernel/shell.cpp:182-195 | The segment stack of norm_join |
| `ShellCd.NormJoin` | kernel/shell.cpp:167-204 | The new text, with every cut norm_join makes |
| `ShellCd.NormJoinIs` | kernel/shell.cpp:167-204 | With names up to 19 characters, 16 levels and less than 127 characters joined, it is the normalised path |
| `ShellCd.FaithfulIff` | kernel/shell.cpp:167-204 | For a path of plain names, of any length, the text is right if and only if every name has at most 19 characters, there are at most 16 levels, and the working copy has all of it: under 127 characters joined, or only slashes after the 127th of an absolute path |
| `ShellCd.FaithfulDots` | kernel/shell.cpp:167-204 | For a path of names up to 19 characters with "." and "..", which the working copy has whole, the text is right if and only if the path does not go beyond sixteen levels, or comes back to the root afterwards |
| `ShellCd.DroppedIff` | kernel/shell.cpp:172-176 | A relative path without room behind the old text, whatever its names, leaves the text as it was, which is right if and only if the path leads back to where it started |
| `ShellCd.FaithfulNeeds` | kernel/shell.cpp:167-204 | For every path: the text is right only if the normalised path has at most sixteen names of at most 19 characters, in 127 |
| `ShellCd.CdExact` | kernel/shell.cpp:206-220 | After a successful cd text and inode are in step if and only if norm_join wrote the normalised path; if it had nothing to clip, a wrong text does not resolve to the directory at all |
| `ShellCd.CdOneName` | kernel/shell.cpp:206-220 | For one name: in step, and the text resolves to the directory, if and only if the name has at most 19 characters, fewer than 16 levels are above it and the joined path is under 127 characters |
| `ShellCd.ShowsResolve` | kernel/shell.cpp:206-220 | Resolving the text from anywhere gives the current directory |
| `ShellCd.Shell.constructor` | kernel/shell.cpp:206-220 | The shell starts at the root |
| `ShellCd.Shell.Cd` | kernel/shell.cpp:206-220 | Changes if and only if the path leads to a directory; from a state in step, or with an absolute path, inode and text are in step afterwards if and only if norm_join wrote the normalised path |
| `ShellCd.Shell.Make` | kernel/cofeufs.cpp:558-559 | Creating files and directories succeeds exactly as create_inode does, and keeps inode and text in step |
| `ShellCd.RemovedShows` | kernel/cofeufs.cpp:658-718 | A removal keeps inode and text in step if and only if it does not take the current directory away |
| `ShellCd.Shell.Remove` | kernel/cofeufs.cpp:711-718 | Inode and text stay in step if and only if the removal takes neither the current directory nor the root's block |
| `ShellCd.Shell.CdAll` | kernel/shell.cpp:206-220 | Over any run of cd: failed ones change nothing, each successful one from a state in step keeps it if and only if it is faithful; when all are, the text resolves from the root to the current directory |
| `ShellRuns.Descend` | kernel/shell.cpp:167-220 | From format, mkdir n and cd n over and over, for any name n: text and inode stay in step as long as name, depth and length fit, and the next step leaves a text that leads to the current directory from nowhere; with 20 characters at the first level, with 19 at the seventh, with at most 6 at the seventeenth |
| `ShellRuns.Deeper` | kernel/shell.cpp:167-220 | One such step: in step afterwards if and only if it fits |
| `ShellRuns.StaleParent` | kernel/cofeufs.cpp:509-556 | A run that makes a directory its own parent: mkdir a, cd a, rm -r /a, mkdir x; afterwards no tree fits the disk |

## Left out

- FsCore.CofeuFs.CreateInode: base is an inode number below 256, in use or not; beyond that the code reads other sectors as inodes. The other operations by path share this.
- FsCore.CofeuFs.AppendFile: needs old size plus length to stay under 2^32; where the code's size check wraps it writes past a buffer, which the model does not have.
- FsCore.CofeuFs.WriteFile: the file is created before its size is checked, so a refused write can leave a new empty file, and a write that runs out of blocks empties the file; the contract says so.
- Sectors are typed contents (a table, twelve entries, 512 bytes) and an inode table, not raw bytes; reading a sector as a table is modelled wherever the code may misread one. The mounted flag, the superblock, list and stat output, and flushing the bitmap are left out: a mkdir that reuses a slot does not flush it, so nothing is claimed after a remount.
- Inode numbers in directory entries and block numbers are naturals; names are strings of at most 31 characters.
- TcpReceive.Receiver.HandleSegment: segments match one peer stream and carry at most 1460 bytes; sequence numbers do not wrap; the control block starts cleared, since sock_reset does not clear the out-of-order store. A repeated FIN advances rcv_nxt again, as in the code.
- TcpSend.Sender.Send: window, congestion window and maximum segment size are given by the events; the policy that computes them, the zero-window probe (which sends a filler byte) and the round-trip estimate are left out. It claims the absorbed prefix, not the whole buffer, because the code can return success with less. Claims are for a connection that has not been closed.
- TcpSend.Sender.HandleAck: the congestion window after the acknowledgement is an input; its policy may change with every segment size the peer announces.
- TcpLink.CloseToEnd: segments sent after the close are not delivered in it; `TcpLink.CloseSender` says that the Nagle buffer would then go out under wrong numbers.
- TcpClose.Run: polls happen at least once a tick; the re-entrancy guard of the poll, the LAST_ACK side and the handshake are left out.
- IpReassembly.Run: `IpReassembly.SettleLast` says exactly what happens to a last piece that comes early, and so why the schedule asks for it last; what the upper layers do with the datagram and the ICMP message at expiry are left out.
- IpFrag.IpSend: ARP and routing are left out.
- Checksum.TransportChecksum: one method for UDP and TCP, which differ in the protocol number.
- DnsName.ReadName: bytes beyond the message read as zero, where the code reads one byte before its bound check; the output buffer is a value, not a C string. Length bytes 0x40 to 0xBF are pointers, as in the code. Building and parsing whole messages is left out.
- Ip6Text.Parse: text is a string without the terminating zero; what a failed parse leaves in the output is not stated.
- Heap.KHeap.KMalloc: needs a request whose 64-bit size sum is at least 24, that is at most 2^64 - 24 or above 2^64 - 8 bytes (`Heap.NeedIff`); in between the code overlays two headers, which the model does not represent.
- Heap.KHeap.KFree: needs a live pointer, null or a pointer outside the arena; what a stray pointer into the arena does depends on the bytes it finds there.
- Pmm.FrameMap.constructor: the memory map scan that finds base and size is left out.
- Sched.Scheduler.Spawn: the kernel stack is a yes-or-no input, since its allocation is the heap's; saved contexts, page-table contents, address-space switching, exec and ELF loading are left out, and every entry point is one atomic step.
- Sched.Scheduler.VmFree: private code frames are left out; only exec makes them.
- ShellCd.NormJoin: the output buffer is a text of any length, cut to 127 at the end; that the code's own buffer can be too short when long names are split is not represented. Every copy ends with a terminator; the code's copy of 127 or more characters leaves the last byte of its buffer unset (kernel/shell.cpp:167-175).
- ShellCd.FaithfulDots: for a path that has both names over 19 characters and "..", or is absolute, dotted and longer than 127 characters, the condition is `Faithful` itself, a comparison of two texts that depends on what the cut-off parts spell; `ShellCd.FaithfulNeeds` bounds it.
- Drivers, boot, interrupts, DHCP, ARP, NDP, ICMP, the DNS cache, UDP queues, HTTP and the other shell commands are left out: hardware, or plumbing that would add easy members only.
