# Verified models of a BSD userland

This project models the parts of a small BSD userland whose behaviour is hardest to see from the code, and
proves what they promise: the construction of a file system by `newfs`, the copying engine of `dd`, the
evaluator of `test`, the option lists of `mount`, the partition layout of `disklabel`, the address and port
specifications of `ipfw`, and the checksum of `ping`.

Code that updates globals, buffers or label fields is a class or a method over arrays with the same branches;
each such method is proved against a specification function, and the theorems are about those functions.
System calls are scripts of answers that may be anything: short reads, short or interrupted writes, errors.
`dafny verify dfyconfig.toml` checks everything.

| file | models |
|---|---|
| `WriteCombine.dfy` | `wtfs`, `wtfsflush`, `rdfs`: a cache that acts as a plain disk |
| `BlockMap.dfy`, `Runs.dfy`, `CgSpec.dfy`, `ClusterSum.dfy`, `CylGroups.dfy` | cylinder groups: packed bitmaps, `initcg`, `alloc`, `iput`, `fsinit`, and the counters that must agree with the bitmaps |
| `CgCounters.dfy`, `CgExamples.dfy` | what every counter of a group counts, read off the bitmaps alone; where each group lies, and a disk of two groups in numbers |
| `Rotational.dfy`, `InodeCount.dfy`, `Geometry.dfy` | the rotational tables, `calcipg`, and the geometry loops of `mkfs` |
| `DdOutput.dfy`, `DdSpec.dfy`, `DdRun.dfy`, `DdConv.dfy` | `dd_out`; what conv=block and conv=unblock mean for a whole input; what a whole run takes, leaves and needs to succeed; the copy loop and the streaming conversions |
| `DdExamples.dfy` | filling of short blocks, count=, holes, and whole runs in bytes |
| `TestExpr.dfy` | the lexer, the recursive descent and the exit status of `test` |
| `TestExamples.dfy` | what `test` answers, by the spellings of its operators |
| `MountOpts.dfy`, `MountUpdate.dfy`, `MountFlags.dfy`, `MountMangle.dfy` | `remopt` in place, `update_options`, the flags that `getmntopts` folds out of a list, and the way of a list through the arguments of `mount_ufs` |
| `MountExamples.dfy` | meta options, negations and names of options in letters |
| `DiskLabel.dfy`, `DiskLayout.dfy`, `DoubleShare.dfy` | `checklabel` in 32-bit arithmetic and double precision, and what its verdict is worth |
| `DiskExamples.dfy` | units, the order of offsets, and a label of six partitions in numbers |
| `CNumber.dfy`, `IpfwAddr.dfy`, `IpfwPort.dfy` | printing and reading addresses, masks and port lists |
| `IpfwExamples.dfy` | numbers, addresses, hosts and port lists in text |
| `InCksum.dfy` | the Internet checksum and the echo request that carries it |
| `Common.dfy` | bytes, optional values, powers of two, rounding and quotients |

Where a promise does not hold for the code, a lemma gives an input on which it fails and another says exactly
when it holds: the unfinished last line under conv=block with a translation (`DdSpec.BlockCloseExact`), the
last byte of a hole at the end of a sparse output (`DdRun.FinalExact`, `DdRun.SparseExact`), rotational chains
with a gap of 256 blocks (`Rotational.WalkExact`), data blocks counted behind the end of a short group and a
first group without room for the root directory (`CylGroups.Builder.MakeGroups`, `CylGroups.RoomIsFree`),
a summary area larger than the first group (`CylGroups.SummaryDecides`), partitions that end beyond 32 bits
(`DiskLayout.AcceptedIsSound`), percentages that lose a whole sector (`DoubleShare.WholeShare`), the token
lists that `test` takes as expressions (`TestExpr.AcceptsExactly`), the option tables under which `mount` may
rewrite lists (`MountFlags.SafeExactly`), and the lists whose flags survive that "rw" is not passed on
(`MountMangle.ArrivesExact`).

The manual of `test` allows an empty expression. Under the name "test" the code then reads past the
terminator of its arguments. Under the name "[" the closing bracket gives way to a second terminator, and the
missing expression is false. The model follows the code: `TestExpr.OverrunsExactly` says for which arguments
the terminator is passed.

The headers that define the file system's macros are not part of the repository; they are used with their
usual meaning: a block is `nspf << fragshift` sectors, an inode block of a fragment holds
`inopb >> fragshift` inodes, fragment `d` is in cylinder `d * nspf / spc`, and group `c` begins at fragment
`fpg * c`. The rotational position of a block, the size of a group header and, in the geometry loops, the
inode count are arbitrary functions. Each operation on doubles rounds to 53 bits, to the nearest value, ties to
even.

## Model

| member | source | states |
|---|---|---|
| `WriteCombine.Writer.Write` | sbin/newfs/mkfs.c:1381-1425 | a write changes the disk as a reader sees it (raw disk overlaid by the cache) in exactly its own bytes, whether it is combined, flushed or written through |
| `WriteCombine.Writer.Read` | sbin/newfs/mkfs.c:1328-1350 | a read returns what a reader must see and leaves disk and cache in step |
| `WriteCombine.Writer.Flush` | sbin/newfs/mkfs.c:1360-1376 | the raw disk becomes the disk as a reader sees it |
| `WriteCombine.PlainDiskLastWriteWins` | sbin/newfs/mkfs.c:1328-1425 | on the plain disk that is the reference, each byte is the one put there by the last write covering it |
| `WriteCombine.PlainDiskKeeps` | sbin/newfs/mkfs.c:1381-1425 | and a byte that no write covers is the one that was there |
| `WriteCombine.ReadsInTurn` | sbin/newfs/mkfs.c:1328-1425 | reads and writes act in the order of the calls: the second part of a run meets the disk that the first part has left |
| `WriteCombine.ReadBack` | sbin/newfs/mkfs.c:1328-1350 | a read behind a write of the same place returns what was written, and a read alone what is on the disk |
| `WriteCombine.RunAll` | sbin/newfs/mkfs.c:1328-1425 | any run of writes, reads and flushes, of any sizes, reads and leaves exactly what a disk without a cache would |
| `BlockMap.IsBlock` | sbin/newfs/mkfs.c:1430-1458 | true iff every fragment of the block is free, for 1, 2, 4 and 8 fragments a block on packed bytes |
| `BlockMap.SetBlock` | sbin/newfs/mkfs.c:1495-1522 | the bits of the block's fragments become set and no other bit of the map changes |
| `BlockMap.ClrBlock` | sbin/newfs/mkfs.c:1463-1490 | the bits of the block's fragments become clear and no other bit of the map changes |
| `BlockMap.MaskOfBlock` | sbin/newfs/mkfs.c:1430-1522 | a shifted mask picks a bit iff the fragment number of that bit belongs to the block |
| `Runs.RunsAreTheirEnds` | sbin/newfs/mkfs.c:889-917 | counting the ends of runs is counting maximal runs of set bits, with their lengths |
| `ClusterSum.Summarise` | sbin/newfs/mkfs.c:889-917 | the byte-and-bit scan yields the histogram of maximal runs of set bits with lengths cut to the maximum |
| `CgSpec.WholeBlock` | sbin/newfs/mkfs.c:854-862 | when a used block becomes free, or a free one used, the bitmap and all five kinds of counters still agree if three of them change by one |
| `CgSpec.PartOfBlock` | sbin/newfs/mkfs.c:867-887 | when a run of fragments of a used block becomes free, counting the run and its fragments keeps all counters right |
| `CgSpec.FreeSplits` | sbin/newfs/mkfs.c:866-887 | every free fragment is counted once, with its block or among the fragments of partly free blocks |
| `CylGroups.Builder.FreeBlock` | sbin/newfs/mkfs.c:854-862 | freeing one block on the packed maps keeps the counters and the cluster map in agreement and changes that block only |
| `CylGroups.Builder.FreePart` | sbin/newfs/mkfs.c:867-873 | freeing fragments one at a time, counted as one run, keeps the counters in agreement and changes that block only |
| `CylGroups.PieceIs` | sbin/newfs/mkfs.c:783-887 | where the bounds of a group fall within a block, the block has one run of free fragments there, and the two descriptions of a new group coincide |
| `CylGroups.CheckedGroupsFit` | sbin/newfs/mkfs.c:609-643 | looking at the group with the largest offset and at the last group is enough: every group then has room for its metadata, save the unchecked summary area of group 0 |
| `CgExamples.CheckedExactly` | sbin/newfs/mkfs.c:609-643 | the two checks hold iff in every group the inodes end before the group does |
| `CgExamples.FreeBehind` | sbin/newfs/mkfs.c:783-887 | in a group behind the first one exactly the fragments from the superblock copy to the end of the inodes are in use, which begin `cgoffset` fragments further on for each step of the stagger |
| `CgExamples.FreeInFirst` | sbin/newfs/mkfs.c:783-887 | in the first group nothing is free below the end of the summary area, and everything behind it up to the end of the group, or to the end of the block that the area ends in |
| `CgExamples.NextOffset` | sbin/newfs/mkfs.c:347-352 | from one group to the next that stretch moves on by `cgoffset`, and it is back at `sblkno` when a cycle is over |
| `CgExamples.FreeInTwoGroups` | sbin/newfs/mkfs.c:783-887 | on a given disk of two groups fragments 0 to 40 of the first and 48 to 71 of the second are in use, and no others |
| `CgExamples.HeadersOfTwoGroups` | sbin/newfs/mkfs.c:771-925 | so say the bits of the two headers that `initcg` leaves, in which inodes 0 and 1 of the first group alone are in use |
| `CylGroups.Builder.InitCg` | sbin/newfs/mkfs.c:771-925 | a new group is free exactly where the layout says (in numbers: `CgExamples.FreeBehind`, `CgExamples.FreeInFirst`); free blocks, fragments, runs, cylinders, positions, clusters, inodes and the summary agree with its bitmaps (`CgCounters`); the totals are the sums over the groups; the data size grows by the free fragments less what the metadata, rounded up to a block, reaches beyond the end of the group |
| `CgCounters.FreeBlocksAre` | sbin/newfs/mkfs.c:854-862 | in a header that agrees with itself `nbfree` is the number of blocks all of whose bits are set |
| `CgCounters.FreeFragmentsAre` | sbin/newfs/mkfs.c:867-887 | `nffree` is the number of set bits in the other blocks |
| `CgCounters.RunsAre` | sbin/newfs/mkfs.c:867-887 | `frsum[k]` is the number of places where exactly k set bits stand side by side within a block |
| `CgCounters.CylindersAre` | sbin/newfs/mkfs.c:856-861 | the two tables by cylinder count the free blocks that begin in the cylinder, and among them those at the position |
| `CgCounters.FreeInodesAre` | sbin/newfs/mkfs.c:830-838 | `nifree` is the number of clear bits of the inode map |
| `CgCounters.ClusterMapIs` | sbin/newfs/mkfs.c:854-862 | a bit of the cluster map is set iff all bits of its block are |
| `CgCounters.ClustersAre` | sbin/newfs/mkfs.c:889-917 | `clustersum[k]` is the number of places where exactly k free blocks stand side by side, or at least k for the largest k |
| `CylGroups.SummaryDecides` | sbin/newfs/mkfs.c:609-656 | a layout that passes the checks fits in all groups iff the summary area ends within group 0 |
| `CylGroups.SummaryOverruns` | sbin/newfs/mkfs.c:609-656 | a disk of 6000 groups that passes the checks although its summary area runs over the end of group 0 |
| `CylGroups.OverhangHappens` | sbin/newfs/mkfs.c:609-643 | a disk of 42 fragments that passes the layout checks: six fragments behind its end become free, and no block is left for the root directory |
| `CylGroups.Builder.FindFree` | sbin/newfs/mkfs.c:1070-1075 | the first whole free block is found, or there is none before the end of the group |
| `CylGroups.SomeFree` | sbin/newfs/mkfs.c:1064-1075 | a header that counts a free block has one that the search will reach, so the "can't find block" error is impossible |
| `CylGroups.Builder.Alloc` | sbin/newfs/mkfs.c:1053-1103 | allocation fails iff no free block is counted; otherwise it takes the first free block, gives back what the size does not need, lowers free space by exactly the fragments needed and keeps every agreement, on disk, in the summary area and in the superblock |
| `CylGroups.Builder.Iput` | sbin/newfs/mkfs.c:1145-1178 | one inode is marked used; the counts stay right iff it is an inode of group 0 that was free |
| `CylGroups.Builder.MakeGroups` | sbin/newfs/mkfs.c:704-726 | after all groups the totals are the sums, and the data size equals the free space iff in every group the end of the metadata, rounded up to a block, lies within the group |
| `CgExamples.NoOverhangExactly` | sbin/newfs/mkfs.c:864-873 | the condition under which the data size is exact, group by group |
| `CgExamples.NothingFreeBehind` | sbin/newfs/mkfs.c:864-887 | where the metadata ends within the group, it also does so rounded up to a block iff nothing behind the end of the group becomes free |
| `CylGroups.RoomIsFree` | sbin/newfs/mkfs.c:783-887 | a new group 0 has a whole free block iff one fits between the end of the summary area, rounded up to a block, and the end of the group |
| `CylGroups.Builder.Fsinit` | sbin/newfs/mkfs.c:971-1024 | the root directory costs one inode, and one fragment of the first free block if there is one; if there is none it goes to fragment 0 and nothing is counted for it; every agreement is kept |
| `CylGroups.Builder.MakeFs` | sbin/newfs/mkfs.c:704-731 | the whole construction ends with every header, the summary area and the superblock in agreement and one inode less; with room in group 0 the root directory lies in the first block behind the summary area and is the one directory counted, without it in fragment 0, uncounted |
| `Rotational.BuildTables` | sbin/newfs/mkfs.c:583-600 | the first table holds the first block of every chain, the second every distance to the next block cut to a byte |
| `Rotational.ChainIsClass` | sbin/newfs/mkfs.c:583-600 | chains partition the blocks: each block is on the chain of its cylinder and position and on no other |
| `Rotational.WalkExact` | sbin/newfs/mkfs.c:583-600 | adding distances visits exactly the blocks of a cylinder and position in order iff no two neighbours are 256 blocks apart |
| `Rotational.ByteTooSmall` | sbin/newfs/mkfs.c:571-600 | blocks of 4 KB, two tracks of 2048 sectors and 256 rotational positions, on which the walk stops too early |
| `InodeCount.StepFalls` | sbin/newfs/mkfs.c:1128-1133 | the step of the iteration is antitone, in C's truncating arithmetic |
| `InodeCount.OneFixedPoint` | sbin/newfs/mkfs.c:1108-1140 | at most one inode count explains itself |
| `InodeCount.FixedPointBracketed` | sbin/newfs/mkfs.c:1108-1140 | iterates from 0 lie alternately on the two sides of the fixed point |
| `InodeCount.BracketCloses` | sbin/newfs/mkfs.c:1108-1140 | even iterates rise and odd ones fall if two steps do not lead below 0, and the other way round if they do not lead above it |
| `InodeCount.RoundedUp` | sbin/newfs/mkfs.c:1128-1133 | the count is rounded up to whole blocks of inodes, by less than a block |
| `InodeCount.Alternates` | sbin/newfs/mkfs.c:1108-1140 | a disk of 3000 sectors on which the iterates are 256 and 192 in turn and no count explains itself |
| `InodeCount.Settles` | sbin/newfs/mkfs.c:1108-1140 | a disk of 200 MB on which the second iterate, 1920, is the fixed point |
| `InodeCount.Calcipg` | sbin/newfs/mkfs.c:1108-1140 | the result is the first iterate that is a fixed point, with the used bytes computed from it, or else the tenth; it is a multiple of the inodes per block |
| `Geometry.MinimumCycle` | sbin/newfs/mkfs.c:363-367 | the halving loop yields the least number of cylinders that is a whole number of blocks |
| `Geometry.CycleIsLeast` | sbin/newfs/mkfs.c:363-367 | an odd number of blocks in a cycle means that no smaller number of cylinders will do |
| `Geometry.WholeExactly` | sbin/newfs/mkfs.c:363-367 | exactly the multiples of the cycle are whole numbers of blocks |
| `Geometry.Cycles` | sbin/newfs/mkfs.c:363-367 | cylinders of 1008, 600 and 63 sectors with blocks of 16: the cycles are 1, 2 and 16 |
| `Geometry.MostInodes` | sbin/newfs/mkfs.c:84 | the largest number of inodes a group may have, a third of the bits of a block rounded up to whole blocks of inodes |
| `Geometry.Superblock.FitBlockMaps` | sbin/newfs/mkfs.c:384-411 | the loop ends; cycle, block and fragment sizes still fit together, and the header fits a block, or blocks and fragments have reached the largest size |
| `Geometry.Superblock.FitInodes` | sbin/newfs/mkfs.c:415-440 | the loop ends and keeps the same relations until it gives up |
| `Geometry.Superblock.FitGroup` | sbin/newfs/mkfs.c:479-491 | the group is the largest whole number of cycles that passes the inode test first and the header test then, or none is left and the count divides by zero; the two flags say which test took cycles away |
| `Geometry.Superblock.Plan` | sbin/newfs/mkfs.c:363-516 | exit 24 (the "panic") is impossible; exits 22 and 23 happen iff the least group does not fit; otherwise the cycles that are left decide: none is a division by zero, too few exit 25, fewer or more than a user asked for exit 27 or 26, and a plan is made iff none of these holds; it is whole blocks |
| `DdOutput.Output.FlushFull` | bin/dd/dd.c:362-457 | full output blocks are written, or skipped as holes, without losing, repeating or moving a byte, however the kernel splits or interrupts the writes; it fails iff the answers of the kernel stop the output, and leaves the hole and the answers that remain |
| `DdOutput.Output.Hand` | bin/dd/conv.c:70-86 | whatever is put behind the buffered bytes, the whole blocks of everything put out so far have left the buffer, the rest is in it, and an empty buffer still begins with the byte that was first in it |
| `DdOutput.DrainMore` | bin/dd/dd.c:362-457 | the output reaches the same point whether the stream comes at once or in pieces |
| `DdOutput.Output.FlushForced` | bin/dd/dd.c:362-457 | a forced call writes everything buffered, succeeds iff the answers let it, and says what becomes of a pending hole |
| `DdOutput.ForcedFileExact` | bin/dd/dd.c:401-416 | a forced call completes the file iff no hole is pending or its last byte is written and is NUL |
| `DdSpec.BlockSpecSplits` | bin/dd/conv.c:104-208 | conv=block of a whole input is the records put out while streaming and a last one for the unfinished line |
| `DdSpec.BlockCloseExact` | bin/dd/conv.c:185-208 | streaming `block` and `block_close` give conv=block iff the unfinished line reads the same translated |
| `DdSpec.BlockTailIsNotTranslated` | bin/dd/conv.c:185-208 | any table that changes "a" makes it fail on the input "a" |
| `DdSpec.MoreInput` | bin/dd/conv.c:104-183 | records put out depend only on the bytes read, and what is kept is exactly the rest, for every split into reads |
| `DdSpec.UnblockSpecSplits` | bin/dd/conv.c:217-270 | conv=unblock of a whole input is the lines of its whole records and the last, short one |
| `DdSpec.UnblockUndoesBlock` | bin/dd/conv.c:104-270 | unblocking a blocked text gives it back iff it is newline-terminated, its lines fit a record and none ends in a blank |
| `DdSpec.BlockUndoesUnblock` | bin/dd/conv.c:104-270 | blocking unblocked records gives them back iff they are whole and hold no newline |
| `DdExamples.InputBuffers` | bin/dd/dd.c:153-161 | the sizes of the input buffer for given block and record sizes |
| `DdConv.Copier.constructor` | bin/dd/dd.c:153-161 | the buffers that `setup` allocates satisfy the invariant of the copy loop, under which no conversion leaves them |
| `DdConv.Copier.ConvDef` | bin/dd/conv.c:60-88 | bytes are translated in place and handed on; less than an output block stays; it fails only if the writes stop at the input so far |
| `DdConv.Copier.ConvBlock` | bin/dd/conv.c:104-183 | after any read the records out and the bytes kept are those of all input so far, and a line being cut is remembered across reads; it fails only if the writes stop at them |
| `DdConv.Copier.CloseBlock` | bin/dd/conv.c:190-208 | the kept bytes become the closing record behind the buffered bytes |
| `DdConv.Copier.ConvUnblock` | bin/dd/conv.c:217-249 | after any read the lines out and the bytes kept are those of all input so far; it fails only if the writes stop at them |
| `DdConv.Copier.CloseUnblock` | bin/dd/conv.c:251-270 | the kept bytes become the closing line behind the buffered bytes |
| `DdConv.Copier.EndOfFile` | bin/dd/dd.c:254-267 | the read that meets the end of the file keeps everything that is buffered, but under conv=sync it clears the first byte of an empty buffer |
| `DdConv.Copier.CopyAll` | bin/dd/dd.c:235-336 | the loop takes the input up to its end or count=, with errors padded, skipped or fatal as the operands say, and succeeds iff no read is fatal and the answers to the writes do not stop it |
| `DdConv.ConvertedIs` | bin/dd/conv.c:60-270 | what a run makes of its input is conv=block, conv=unblock or the translated input, with the exact exception for an unfinished line |
| `DdConv.BsIsNotTranslated` | bin/dd/dd.c:313-324 | with bs= the input is written as it is, which is conv=ascii or conv=ebcdic iff the table changes none of its bytes |
| `DdRun.TakenBlocks` | bin/dd/dd.c:241-252 | a run takes the whole input, or exactly count= blocks of it |
| `DdExamples.CountTakes` | bin/dd/dd.c:241-252 | of two blocks count=0 takes none and count=1 the first; one that cannot be read counts only under conv=sync |
| `DdExamples.ShortBlocks` | bin/dd/dd.c:254-311 | under conv=sync a short block is filled up to the input block size with bytes of 32 when there is record conversion and with bytes of 0 when not; otherwise it stays as it is |
| `DdExamples.UnreadBlocks` | bin/dd/dd.c:275-299 | a block that cannot be read is left out, or is all filling under conv=sync |
| `DdExamples.SwabbedBlocks` | bin/dd/dd.c:326-332 | conv=swab exchanges the two bytes of each pair behind the filling, and an odd last byte stays |
| `DdRun.StuckEarly` | bin/dd/dd.c:235-336 | when the writes stop for a part of the input they stop for all of it |
| `DdRun.HarmlessSucceeds` | bin/dd/dd.c:275-457 | a run succeeds if no read error is fatal, no write fails or writes nothing, and under conv=sparse one can seek on the output; on a tape no write may be cut short or interrupted |
| `DdRun.FinalExact` | bin/dd/dd.c:343-457 | the file left is the converted input iff no hole is pending when the input ends, or the last byte of the hole is written and the first byte of the output buffer, given by the input and the sizes of the reads, is NUL |
| `DdRun.DenseIsExact` | bin/dd/dd.c:362-457 | without conv=sparse, or with bs= alone, the file left is always the converted input |
| `DdRun.SparseExact` | bin/dd/dd.c:343-457 | when no write is cut short and one can seek: iff conv=sparse is not given, or there is no whole output block, or the last one is not all NULs, or that first byte is NUL |
| `DdRun.HoleLosesItsLastByte` | bin/dd/dd.c:343-457 | copying 0,0,0,0,'a' with obs=4 and conv=sparse leaves 0,0,0,'a','a' |
| `DdExamples.StaleByte` | bin/dd/dd.c:254-267 | an output that ends in a hole ends in the first byte of the first block if conv=sync is not given, and in NUL if it is and the end of the input is met |
| `DdExamples.FailedRuns` | bin/dd/dd.c:275-284 | a run fails when a read does and conv=noerror is not given, and when a write does |
| `DdExamples.OneWrite` | bin/dd/dd.c:362-457 | what becomes of a block for each answer to its write: whole, cut short, interrupted, nothing written, failed; on a tape and elsewhere |
| `DdExamples.Answers` | bin/dd/dd.c:362-457 | which answers of the kernel are harmless, on tapes and elsewhere, and which write the last byte of a hole |
| `DdExamples.OneHole` | bin/dd/dd.c:362-457 | zeros grow the hole, also behind a write that was cut short, and a hole before other bytes is skipped if one can seek |
| `DdExamples.ForcedFiles` | bin/dd/dd.c:401-416 | a hole of three bytes at the end becomes two NULs and the first byte of the buffer, or nothing at all |
| `DdExamples.BlockedRun` | bin/dd/conv.c:104-208 | conv=block,sync with ibs=6 and cbs=4 turns "ab" and a newline into that record and one of blanks |
| `DdExamples.UnblockedRun` | bin/dd/conv.c:217-270 | conv=unblock,sync turns "ab" into that line and an empty one |
| `DdExamples.CutLines` | bin/dd/conv.c:104-183 | conv=block with cbs=3 cuts a line of five and fills up a line of one |
| `DdConv.Run` | bin/dd/dd.c:106-457 | for any reads and any answers to the writes, a whole run of the streaming code succeeds iff the reads it takes and the answers allow it, and then leaves exactly the file that `DdRun` determines from the operands, the input and the answers (in bytes: `DdExamples`) |
| `TestExpr.LookupFinds` | bin/[/test.c:89-131 | every entry of the operator table is found by its own spelling |
| `TestExpr.Evaluator.IsOperandHere` | bin/[/test.c:407-426 | decides by the next two tokens whether an operator is an operand |
| `TestExpr.Evaluator.TLex` | bin/[/test.c:383-405 | lexes a token in its context and never moves the cursor |
| `TestExpr.Evaluator.OExpr` | bin/[/test.c:207-218 | the descent terminates by cursor progress and does what the grammar's parser does, cursor included |
| `TestExpr.Evaluator.PrimaryExpr` | bin/[/test.c:242-280 | likewise for parentheses, unary and binary primaries and strings |
| `TestExpr.ReadO` | bin/[/test.c:207-326 | the printed form of a readable expression, in any context that does not continue it, is read to its last token with its value |
| `TestExpr.BuildO` | bin/[/test.c:207-326 | whatever is read with a value is the printed form of a readable expression of that value |
| `TestExpr.ReadCutO` | bin/[/test.c:207-326 | the printed form of an expression whose last part is missing gives its value with that part false, an error if a parenthesis is open, or passes the terminator, as the name of the program says |
| `TestExpr.BuildCutO` | bin/[/test.c:207-326 | whenever the terminator is reached where an expression ought to begin, the arguments are the printed form of such an expression |
| `TestExpr.AcceptsExactly` | bin/[/test.c:164-193 | the program has a value iff its arguments are the printed form of a readable expression that means it, or, under the name "[", of one whose last part is missing outside of parentheses |
| `TestExpr.OverrunsExactly` | bin/[/test.c:164-193 | it reads past its last terminator iff its name is "test" and its arguments are a readable expression whose last part is missing; they are then empty or end in "!", "-a" or "-o" |
| `TestExpr.ReadableNeverOverruns` | bin/[/test.c:164-193 | on readable expressions it neither reports a syntax error nor reads past the terminator |
| `TestExpr.OrdinaryReadsBack` | bin/[/test.c:164-326 | every expression whose operands are not spelled like operators evaluates to its meaning: -a tighter than -o, both to the right, ! over what follows |
| `TestExpr.MissingExpressions` | bin/[/test.c:164-193 | no argument, "!", and "( !" under both names: false, true and an error under "[", and past the terminator under "test" |
| `TestExamples.Brackets` | bin/[/test.c:164-193 | under the name "[" the arguments must end in "]", which is taken off, and otherwise they stay as they are |
| `TestExamples.StringsCompared` | bin/[/test.c:282-326 | for all operands not spelled like operators, "=" and "!=" compare the strings, and "<" and ">" their order: at the first place where they differ, or where one ends |
| `TestExamples.StringsTested` | bin/[/test.c:242-280 | a string alone and "-n" ask if it is not empty, "-z" if it is |
| `TestExamples.NumbersCompared` | bin/[/test.c:282-326 | each comparison of numbers asks for the relation of its spelling |
| `TestExamples.FilesCompared` | bin/[/test.c:282-326 | and so does each comparison of files |
| `TestExamples.FilesTested` | bin/[/test.c:89-131 | so does each file test from -r to -d |
| `TestExamples.MoreFilesTested` | bin/[/test.c:89-131 | and those from -c to -t |
| `TestExamples.LastFilesTested` | bin/[/test.c:89-131 | and the others; -h and -L are the same |
| `TestExamples.Connectives` | bin/[/test.c:207-240 | "!" negates, "-a" is and, "-o" is or; how three of them bind, with parentheses and without |
| `TestExamples.OperatorsAsOperands` | bin/[/test.c:407-426 | operators that stand where an operand must be: alone, on both sides of "=", and in parentheses |
| `TestExamples.OperandMissing` | bin/[/test.c:282-291 | a binary operator without a right operand is an error |
| `TestExamples.OperatorMissing` | bin/[/test.c:164-193 | two strings without an operator are an error |
| `TestExamples.ParenthesisMissing` | bin/[/test.c:255-262 | an open parenthesis is an error |
| `TestExpr.Test` | bin/[/test.c:164-193 | exit status 0, 1 or 2 for true, false or an error, with the closing bracket checked; under "[" the terminator is never passed; what makes the value true or false is said by `TestExamples` |
| `MountOpts.Remopt` | sbin/mount/mount.c:661-683 | the in-place compaction leaves the string of the kept tokens, without touching what is still to be read |
| `MountUpdate.RemovedFilters` | sbin/mount/mount.c:661-683 | its non-empty tokens are the old ones without the option |
| `MountUpdate.ExpandedTokens` | sbin/mount/mount.c:618-635 | the expansion of a list is the concatenation, in order, of what its tokens stand for (given by `MountExamples.MetaOptions`) |
| `MountExamples.MetaOptions` | sbin/mount/mount.c:618-635 | the non-empty tokens of the expanded "fstab" are those of the table's options, those of "current" the ones in force, and any other token is itself |
| `MountExamples.ExpandedInTurn` | sbin/mount/mount.c:618-635 | expanding two lists one behind the other is expanding the first and then the second |
| `MountExamples.FstabAndCurrent` | sbin/mount/mount.c:618-635 | with "noatime" in the table and "sync" in force, "-o fstab" is "noatime" and "-o current" is "sync" |
| `MountUpdate.UpdateOptions` | sbin/mount/mount.c:603-659 | the result is the expanded list (`MountExamples.ExpandedInTurn`) rewritten token by token, null when nothing was given |
| `MountUpdate.NeverBoth` | sbin/mount/mount.c:638-656 | the result never holds an option together with its negation |
| `MountExamples.Contradictions` | sbin/mount/mount.c:638-656 | of an option and its negation the later one stays, and other options keep their places |
| `MountExamples.Removals` | sbin/mount/mount.c:661-683 | every occurrence of the option goes, and nothing that only begins like it |
| `MountFlags.Getmntopts` | sbin/mount/getmntopts.c:56-111 | it fails iff some token is unknown and it is not silent; otherwise the flags are the fold over the non-empty tokens |
| `MountExamples.Names` | sbin/mount/getmntopts.c:75-90 | a name matches what begins with it, in letters of either case and no other characters |
| `MountExamples.Effects` | sbin/mount/getmntopts.c:56-111 | an option sets its bit and "no" clears it, the other way round for one that is stored as its negation, in the first or the second word of flags |
| `MountFlags.UpdateKeepsMeaning` | sbin/mount/mount.c:638-656 | in a compatible table, rewriting a list of known options sets the same flags as the expanded list, from any flags |
| `MountFlags.SafeExactly` | sbin/mount/mount.c:638-656 | rewriting keeps the flags of every list iff the table is compatible: the entry of a token covers the flags of every known token that it displaces |
| `MountFlags.NoNegatedNamesSuffice` | sbin/mount/mount.c:638-656 | a table in which no name begins like a negation is compatible |
| `MountFlags.UfsIsSafe` | sbin/mount/mntopts.h:47-90 | the options of the local file systems are such a table, whatever bits they stand for, so rewriting keeps their flags |
| `MountFlags.NegatedNamesMatter` | sbin/mount/mount.c:638-656 | a table with a name like a negation, and a list whose flags differ when it is rewritten |
| `MountMangle.Mangle` | sbin/mount/mount.c:574-597 | the arguments for every option that is not empty: behind -o, or as it stands, cut at its equals sign, if it begins with a dash, and nothing for "rw" |
| `MountExamples.SingleArguments` | sbin/mount/mount.c:574-597 | "ro" is passed behind -o, "-s" as it stands, "-s=a=b" as "-s" and "a=b", and "rw" not at all |
| `MountExamples.ReadArguments` | sbin/mount/mount_ufs.c:83-94 | -o joined to its options or before them; anything else but a last "--" is a usage error |
| `MountMangle.UfsFlags` | sbin/mount/mount_ufs.c:83-94 | reading arguments fails iff they are a usage error or some option is unknown; otherwise the flags are the fold over all options behind -o |
| `MountMangle.ArgumentsRead` | sbin/mount/mount.c:574-597 | what is read from the arguments for a list is the list without "rw" |
| `MountMangle.ArrivesExact` | sbin/mount/mount.c:574-597 | the flags that arrive are those of the list, unless its last word about the flag of "rw" is to clear it and the last word without "rw" is to set it |
| `MountMangle.ReadOnlyArrives` | sbin/mount/mount.c:574-597 | "ro,rw" means read and write, but arrives as read-only |
| `DiskLabel.Label.CheckLabel` | sbin/disklabel/disklabel.c:1326-1583 | final sizes and offsets, and no errors iff the basic fields, the percentages, the order of offsets, the ends and the overlaps pass, all in 32 bits; what each of these means is said by `DiskExamples` |
| `DiskExamples.Units` | sbin/disklabel/disklabel.c:1400-1430 | over sectors of 512 bytes "1k", "1m" and "1g", in either case, are 2, 2048 and 2097152 sectors, and a size without a unit is in sectors |
| `DiskExamples.UnitsScale` | sbin/disklabel/disklabel.c:1400-1430 | n of a unit is 1024 n of the next smaller one |
| `DiskExamples.OutOfOrder` | sbin/disklabel/disklabel.c:1490-1516 | an offset is out of order iff it lies before the end of the partition before it and some earlier one was placed by default |
| `DiskExamples.CurrentIsEnd` | sbin/disklabel/disklabel.c:1476-1516 | a default offset is the end, in 32 bits, of the last set partition before it other than 'c' |
| `DiskExamples.InsideExactly` | sbin/disklabel/disklabel.c:1532-1542 | a partition that ends within 32 bits passes iff it ends within the unit |
| `DiskExamples.Overlap` | sbin/disklabel/disklabel.c:1560-1575 | two such partitions collide iff they share a sector |
| `DiskExamples.DisjointIs` | sbin/disklabel/disklabel.c:1560-1575 | partitions are apart iff they share no sector |
| `DiskExamples.OddOverlaps` | sbin/disklabel/disklabel.c:1560-1575 | an empty partition collides with the one in which it lies; one that ends beyond 32 bits escapes the test behind its own start |
| `DiskExamples.PercentagesExactly` | sbin/disklabel/disklabel.c:1440-1468 | percentages pass iff there are none, or they are at most 100 and the other sizes leave some space free |
| `DiskExamples.NothingToShare` | sbin/disklabel/disklabel.c:1440-1468 | without free space a percentage keeps its number as its size, and the label is rejected |
| `DiskExamples.ExampleLabel` | sbin/disklabel/disklabel.c:1374-1575 | a label of megabytes, a percentage and the rest over four million sectors: its sizes, its offsets, and that it is accepted |
| `DiskLayout.AcceptedIsSound` | sbin/disklabel/disklabel.c:1374-1575 | a label without errors keeps all partitions within the unit and all set ones but 'c' apart iff in the label as it was given, with offsets and sizes added up without a limit, none ends at 2^32 sectors or beyond |
| `DiskLayout.RestDecides` | sbin/disklabel/disklabel.c:1374-1575 | when no offset is given and one partition takes the rest, that is so iff the other sizes do not exceed the unit |
| `DiskLayout.WrapIsAccepted` | sbin/disklabel/disklabel.c:1518-1575 | the label "2147483643K" at sector 50 of a unit of 100 is accepted although its partition leaves the unit |
| `DoubleShare.ShareIs` | sbin/disklabel/disklabel.c:1450-1456 | a share computed in double precision is the exact one cut to a whole number, or, only if that is exact, one less |
| `DoubleShare.TiesToEven` | sbin/disklabel/disklabel.c:1450-1456 | every operation rounds to the nearest whole number of its unit, and to the even one of two that are equally near |
| `DoubleShare.WholeShare` | sbin/disklabel/disklabel.c:1450-1456 | an exact share is lost by one only for ten percentages |
| `DoubleShare.SectorLost` | sbin/disklabel/disklabel.c:1450-1456 | 29 per cent of 100 sectors are 28 |
| `DiskLayout.SharesFit` | sbin/disklabel/disklabel.c:1440-1467 | percentages, in double precision, never exceed the free space; when they are all of it, fewer sectors are lost than there are shares |
| `DiskLayout.SizesFillUnit` | sbin/disklabel/disklabel.c:1374-1473 | with one partition taking the rest the sizes add up to the unit modulo 2^32, and exactly iff the others do not exceed it |
| `DiskLayout.DefaultLayoutIsAccepted` | sbin/disklabel/disklabel.c:1374-1575 | sizes that fit, with offsets left to the program, are accepted iff there are no percentages or the free space is below 2^31 sectors, and are then placed one behind the other |
| `DiskLayout.LargeUnitIsRejected` | sbin/disklabel/disklabel.c:1436-1467 | one partition of 100 per cent of 2^31 sectors is rejected |
| `IpfwAddr.MaskBits` | sbin/ipfw/ipfw.c:100-118 | n iff the mask is the n-bit prefix mask, -1 iff it is none |
| `IpfwAddr.ShiftedOnesIsPrefix` | sbin/ipfw/ipfw.c:955-956 | the mask built from a width is the prefix mask of that length |
| `IpfwAddr.FillIp` | sbin/ipfw/ipfw.c:921-970 | what is stored is masked and is printed as something that reads back as itself; if the argument is what is printed for a masked address and its mask, that address and that mask are stored; behind a slash there are only prefix masks |
| `IpfwAddr.AtonOfNtoa` | sbin/ipfw/ipfw.c:278-322 | a printed dotted quad is read back |
| `IpfwAddr.AtonOfHex` | sbin/ipfw/ipfw.c:943-947 | a mask may be one hexadecimal number |
| `IpfwAddr.ShownIsFilled` | sbin/ipfw/ipfw.c:278-304 | what is printed for a masked address and its mask is read back as the same address and mask |
| `IpfwAddr.FillShowFill` | sbin/ipfw/ipfw.c:921-970 | every rule read from any argument survives printing and reading again |
| `IpfwExamples.Hosts` | sbin/ipfw/ipfw.c:921-970 | "any" and what it begins with is every address; a host name alone is its address, and with a width its network; widths above 32 are rejected |
| `IpfwExamples.Quads` | sbin/ipfw/ipfw.c:278-304 | 10.0.0.1 and 192.168.1.254 are 0x0A000001 and 0xC0A801FE, both ways |
| `IpfwExamples.AndBits` | sbin/ipfw/ipfw.c:965 | the masked address has exactly the bits that address and mask have |
| `IpfwExamples.Prefixes` | sbin/ipfw/ipfw.c:955-956 | the masks of 0, 8, 24 and 32 bits |
| `IpfwPort.PrintPorts` | sbin/ipfw/ipfw.c:309-322 | the list is printed with the separators of its kind |
| `IpfwPort.FillPort` | sbin/ipfw/ipfw.c:1052-1107 | the ports and the kind are stored behind those already there, iff no element is in error and there is room |
| `IpfwPort.PortsReadBack` | sbin/ipfw/ipfw.c:309-322 | every printed list, plain, range or masked, is read back as the same ports of the same kind |
| `IpfwExamples.PairParsed` | sbin/ipfw/ipfw.c:1060-1096 | "a-b" is a range and "a:b" a masked port of what the two sides stand for, 0 for an empty first side and 65535 for an empty second one |
| `IpfwExamples.Ranges` | sbin/ipfw/ipfw.c:1060-1096 | "-1024", "1024-", "22:", "22-80,443" and "22,80" as ports |
| `IpfwExamples.OnePort` | sbin/ipfw/ipfw.c:1000-1047 | an element is a number below 65536 or a name that the services know, with backslashes taken out |
| `IpfwExamples.PortLimits` | sbin/ipfw/ipfw.c:990-1010 | ten ports fit, and names are cut to 31 characters |
| `IpfwExamples.PortsPrinted` | sbin/ipfw/ipfw.c:309-322 | 22, 80, 443 as a list, a range and a masked port: " 22,80,443", " 22-80,443", " 22:0x0050,443" |
| `CNumber.StrtoulOfDec` | sbin/ipfw/ipfw.c:1019-1020 | a decimal number is read back whole |
| `CNumber.StrtoulOfHex` | sbin/ipfw/ipfw.c:125-128 | a mask printed in hexadecimal is read back whole |
| `IpfwExamples.Bases` | sbin/ipfw/ipfw.c:1019-1020 | 0x begins a hexadecimal number and 0 an octal one |
| `IpfwExamples.Clamped` | sbin/ipfw/ipfw.c:1019-1020 | signed decimal numbers of any size, with what is too large replaced by the nearest number and a minus that wraps around |
| `InCksum.InCksum` | sbin/ping/ping.c:1001-1037 | the signed accumulator never overflows for messages up to 65535 bytes, odd or even, and the result is the checksum, of which `InCksum.SumIsBytes` and `InCksum.ByteCounts` say what it depends on |
| `InCksum.FoldIs` | sbin/ping/ping.c:1033-1035 | two folds leave a 16-bit word congruent to the sum modulo 65535, and 0 only for 0 |
| `InCksum.SumIsBytes` | sbin/ping/ping.c:1012-1030 | the sum is that of all bytes with their weights in the host's order, the last byte of an odd message included |
| `InCksum.OddIsPadded` | sbin/ping/ping.c:1025-1030 | an odd message has the checksum of the same message with a 0 byte behind it |
| `InCksum.ByteCounts` | sbin/ping/ping.c:1001-1037 | changing any one byte changes the sum by the difference times its weight |
| `InCksum.ChangeShows` | sbin/ping/ping.c:1001-1037 | and always changes the checksum |
| `InCksum.OddChecksums` | sbin/ping/ping.c:1025-1030 | the checksums of [1] and [1, 2, 3] on hosts of both orders |
| `InCksum.ChecksumOfRfc` | sbin/ping/ping.c:1001-1037 | the example of section 3 of RFC 1071 |
| `InCksum.StoredChecks` | sbin/ping/ping.c:718-733 | a message with its checksum stored in a word that was 0 checks as 0 |
| `InCksum.OrderDoesNotMatter` | sbin/ping/ping.c:1001-1037 | hosts of both byte orders store the same two bytes |
| `InCksum.Pinger` | sbin/ping/ping.c:710-733 | the packet that is sent checks as 0 and carries type, identifier, sequence number and time |

## Left out

- WriteCombine: a seek or write error of the device is modelled as leaving the disk's range; after it the program exits.
- CylGroups.Builder.InitCg: the inode blocks it zeroes, the header's offsets and its size check (exit 37), the time stamps and the number of cylinders of the last group are not modelled; the header is a value on the disk, not a sequence of bytes in the cache.
- CylGroups.Builder.Alloc: the cluster summary is not updated by the code after `initcg`, so nothing is claimed for it; counters are unbounded integers.
- CylGroups.Builder.Iput: the inode itself, written into its block, is not modelled.
- CylGroups.Builder.Fsinit: the contents of the root directory, which are written to the fragment it is given even if that is fragment 0, and the optional lost+found directory.
- CylGroups.Builder.MakeGroups: disks whose summary area does not fit into group 0, which the code goes on to build (`CylGroups.SummaryDecides`, `CylGroups.SummaryOverruns`).
- CylGroups.Builder.MakeFs: the same disks.
- Rotational.BuildTables: the first table's 16-bit entries are integers; the superblock holds fewer than 8192 blocks in these tables.
- InodeCount.Calcipg: overflow of the 64-bit products.
- Geometry.Superblock.FitInodes: nothing is said about the block size that the messages before exit 23 suggest.
- Geometry.Superblock.Plan: the sector size is taken to be a power of two, as block and fragment sizes are checked to be; messages, and which of the exits 22 and 23 is taken, are left out.
- DdConv.Copier.CopyAll: bs= together with cbs= and conv=ascii or conv=ebcdic, for which record conversion and direct writing are both switched on and a buffer is written that nothing has been read into.
- DdConv.ConvertedIs: translation under conv=unblock, which the code does in an unsequenced expression.
- DdConv.Run: the two cases above, osync, signals, positioning on tapes, several input files, output over existing data beyond the current position, and the counters of truncated, full and partial records.
- TestExpr.Main: file tests and the conversion and comparison of numbers are an arbitrary oracle; memory behind the last terminator is unknown, so nothing is said about what follows.
- MountUpdate.UpdateOptions: the strings that the caller frees; fork and exec, fstab and path resolution in `mount`.
- MountMangle.Mangle: the limit of 100 arguments, which the code does not check.
- DiskLabel.Label.CheckLabel: a product that does not fit 32 bits, possible for percentages above 100 only, keeps its low 32 bits; warnings without an effect on the result are left out; boot blocks, ioctls and the text format of labels are not part of this model.
- IpfwAddr.FillIp: the library's `inet_aton` takes one to four decimal, octal or hexadecimal numbers; one that does not fit its bytes is an error, also beyond 32 bits. The name lookup is an arbitrary function.
- IpfwPort.FillPort: service names are an arbitrary function; strings are cut as values, not in place.
- InCksum.Pinger: sending the packet.
- The curses screens, process startup, address translation, network configuration and the remaining file utilities of the repository: interface and system-call plumbing.
