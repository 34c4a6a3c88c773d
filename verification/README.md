# AetherFS image layer, verified in Dafny

AetherFS keeps a file system in one device or in a pool of up to eight member
devices. This project models the userspace image layer of that system (the pool
block layer, the image validator, the offline compactor, the formatter and the
checksum they rely on) together with two small kernel state machines (the
intent log and the deduplication table), and proves what they guarantee.

Blocks are sequences of 4096 bytes and on-disk structures are little-endian
fields of those bytes, so checksums are computed over what is really stored. A
member device is a sequence of blocks. Reads fail on an arbitrary set of cells,
and a failing write may leave arbitrary contents in the cell it was writing.
64-bit and 32-bit wrap-around is written out wherever the code can meet it.

How the modules build on each other:

- `Bytes`, `Crc`, `Layout`, `Records`: bytes, exclusive-or, fields, the
  checksum, sealed structures.
- `Masks`, `Geometry`, `PoolMap`, `PoolBlocks`, `PoolRefinement`, `Redundancy`,
  `ScrubLaws`, `PoolOpen`, `PoolHandle`, `PoolLabels`, `PoolCheck`: member masks, address
  mapping, block reads and writes, the redundancy scrub, labels and pool opening, the
  whole check of a pool.
- `Intervals`, `Validator`, `ValidatorLoops`, `ValidatorLaws`, `Acceptance`,
  `DirectoryLaws`, `DirectoryBuild`, `Meaning`, `BitmapLaws`, `Ownership`, `Corruption`,
  `BurstLaws`: the validator as a function, its loops, and what acceptance means.
- `Loader`, `Forms`, `Format`: loading, and the packed structures on disk.
- `ImageCheck`, `SingleDevice`, `DeviceCorruption`: a device from open to verdict.
- `Packing`, `SpaceBound`, `Compaction`, `Rebalance`, `RebalanceRun`,
  `RebalanceTheorem`, `RebalanceDevice`: offline compaction.
- `Mkfs`, `MkfsRun`, `MkfsChecks`: the formatter and its own checks. `OneFile`, `Displaced`: images made from its parts.
- `Dedup`, `DedupTable`, `IntentLog`: the kernel state machines.

The main results:

1. Over every run of completed writes, a pool of any profile shows what a flat
   array of blocks would show (`PoolRefinement.RunRefinesFlat`,
   `PoolCheck.RunView`), and keeps its replicas equal and its parity rows at zero.
   Its check then accepts exactly when the flat array is a sound image and every
   used block is mapped to a row that exists on all data members
   (`PoolCheck.RunChecks`, `ScrubLaws.ScrubAfterRunExact`), as it is on equally
   large members (`ScrubLaws.EvenMembersPass`). The scrub finds every change of one
   cell of a used row or of a replicated bootstrap block (`ScrubLaws.ChangeFound`).
   Blocks are handed out to the members in order, stripe by stripe, with the parity
   member moving on by one each stripe (`Geometry.StripeOrder`, `Geometry.ParityOrder`).
   The labels that pass are exactly those written from a consistent plan of the pool,
   and the devices of such a plan open in any order as that pool
   (`PoolLabels.LabelExact`, `PoolLabels.MadePoolOpens`).
2. The validator accepts exactly the images whose structures scan and whose used
   and free intervals tile the data area; no 64-bit overflow can fool it
   (`Acceptance.ValidateExact`, `Meaning.AcceptsExactly`), down to checksum chains,
   directory records and the fixed records that loading reads
   (`ValidatorLaws.ChainExact`, `DirectoryLaws.DirectoryExact`, `Forms.LoadExact`), and
   every list of names that fits a block is a directory it accepts
   (`DirectoryBuild.DirectoryScans`). Every block of an accepted image is free or
   belongs to exactly one place of one file (`Ownership.OwnerUnique`,
   `Ownership.OwnedOrFree`).
3. One to four damaged consecutive bytes in any data block of any file make the
   next check fail, on a device of any size and on a pool of any profile, even if
   the same bytes serve other blocks, unless the checksum chain of the block itself
   wraps to them (`BurstLaws.BurstRejected`, `DeviceCorruption.BurstOnDeviceRejected`,
   `PoolCheck.BurstInPoolRejected`). With up to 2^51 blocks, and unless the superblock
   also names the block, the error is -EILSEQ
   (`DeviceCorruption.BurstOnDeviceDetected`).
4. On an accepted image of up to 2^51 blocks with the inode table in block 2 and the
   journal in a bootstrap block other than the free list, rebalance succeeds exactly
   when inode 0 is not a regular file and no file is empty, never runs out of space,
   keeps every file with its name and attributes, leaves each in one contiguous run
   with its root and its chain, loses no free space, clears a file behind the last of
   them and leaves a block device unchanged there, and can be repeated; with either of
   the two in the data area it is refused
   (`RebalanceDevice.RunRebalance`, `RebalanceDevice.RebalanceTwice`).
5. mkfs never changes an existing image unless forced, formats exactly the other
   targets of at least nine blocks that can hold them, keeps their data blocks, and
   what it formats passes every check (`MkfsRun.RunMkfs`, `MkfsRun.FormattedChecks`).

Where the code does not do what one might expect, the model follows the code:

- Byte offsets are 64-bit products, so member blocks 2^52 apart name the same
  cell, in every profile. `PoolRefinement.AliasExact` says which logical blocks
  collide and `PoolRefinement.AliasDisturbs` that they do; the run theorems hold
  for the others. Redundancy is lost exactly by writes that wrap to some replicas
  of a bootstrap block and not to others (`ScrubLaws.SplitBreaks`,
  `ScrubLaws.SplitExample`).
- The parity map bounds only two members of a row and the scrub reads all of them,
  so on members of different sizes a block can be written that the scrub rejects
  (`ScrubLaws.UnevenParityExample`).
- Rebalance gives an empty file extent root 0 and never rewrites inode 0. The
  result is then rejected by its own check (`Compaction.PackedRejected`,
  `OneFile.OneFileChecks`). It refuses images whose inode table or journal lies in
  the data area (`RebalanceDevice.DisplacedRefused`, `Displaced.DisplacedExample`).
- mkfs rejects the eight-block image it has just written (`MkfsRun.OwnChecksPass`), and
  cuts a file to the size asked for before it refuses it as too small
  (`MkfsRun.RunMkfs`).
- A deduplication count wraps at 2^32; the table then no longer matches its
  callers (`Dedup.AddRepresents`, `Dedup.OverflowExample`).
- The kernel has an `aetherfs_crc32c` of its own (kernel/aetherfs.h:463-473), without
  the entry complement and with one shift a byte. The deduplication table uses it as
  its hash; the theorems about the table hold for every hash.
- The checksum called `crc32c` uses the reflected polynomial of section 3.2.9 of
  IEEE 802.3 (`Crc.StepTimesX`), and its seed cancels (`Crc.DataChecksumStartsAtZero`).
- mkfs cuts the block count to 32 bits before it takes the group size, so groups of that
  size cover an image exactly when it is one group long or its size modulo 2^32 is
  at least a group (`Mkfs.GroupsCover`).
- A directory record shorter than its header passes with any name length up to 255,
  because the room for the name is an unsigned subtraction (`DirectoryLaws.EntryMeans`).
- Only one block of the inode table is read, so only the first eight inodes can be in use
  (`Meaning.TableExact`).

## Model

| member | source | states |
|---|---|---|
| `Crc.ComputeChecksum` | kernel/include/uapi/linux/aetherfs_format.h:383-395 | the nested byte and bit loops compute the fold of single register steps over the buffer |
| `Crc.StepTimesX` | kernel/include/uapi/linux/aetherfs_format.h:383-395 | one register step multiplies by x modulo the generator polynomial, coefficient by coefficient |
| `Crc.FeedIsBits` | kernel/include/uapi/linux/aetherfs_format.h:383-395 | feeding a byte at once equals feeding its eight bits one after the other, the lowest first |
| `Crc.ChecksumComposes` | kernel/include/uapi/linux/aetherfs_format.h:383-400 | checksumming a buffer in two pieces, the second seeded with the result of the first, equals checksumming it whole |
| `Crc.DataChecksumStartsAtZero` | kernel/include/uapi/linux/aetherfs_format.h:397-400 | the seed of the data checksum cancels: the register starts at zero |
| `Crc.FoldLinear` | kernel/include/uapi/linux/aetherfs_format.h:383-400 | the register of the exclusive-or of two buffers is the exclusive-or of their registers |
| `Crc.BurstDetected` | kernel/include/uapi/linux/aetherfs_format.h:383-400 | two buffers of the same length, of any length, that differ only within four consecutive bytes have different checksums |
| `Layout.SealSeals` | kernel/include/uapi/linux/aetherfs_format.h:402-470 | storing the checksum computed with the field zeroed makes the structure verify and changes no other byte |
| `Layout.TypesExact` | aetherfsprogs/image.c:1364-1379 | of the sixteen file types of a mode exactly one is a directory and exactly one a regular file |
| `Layout.CountSetLoop` | aetherfsprogs/image.c:642-650 | the loop counts the set bits of the bitmap |
| `BitmapLaws.CountSetExact` | aetherfsprogs/image.c:642-655 | the count is the number of inodes the bitmap marks as used |
| `BitmapLaws.ReportAddsUp` | aetherfsprogs/image.c:1557-1563 | an accepted image reports as many used inodes as files and directories |
| `Masks.SetBitsEnumerate` | aetherfsprogs/image.c:141-165 | the ordinals of a mask list each set bit once, in ascending order |
| `Masks.MaskFirst` | aetherfsprogs/image.c:141-148 | the scan finds the lowest set bit, or -1 |
| `Masks.MaskNth` | aetherfsprogs/image.c:155-165 | the scan finds the set bit of the given ordinal, or -1 |
| `Masks.EffectiveMembers` | aetherfsprogs/image.c:167-207 | a role mask cut to the members in use is never empty, names only members in use, and its population count counts just them |
| `Masks.EffectiveExact` | aetherfsprogs/image.c:167-197 | the effective members are exactly the members in use that the mask names, or member 0 if it names none |
| `Geometry.StripeThereAndBack` | aetherfsprogs/image.c:500-534 | striping has an explicit inverse on logical blocks |
| `Geometry.StripeBackAndThere` | aetherfsprogs/image.c:500-534 | every cell of the stripe grid is the image of a logical block |
| `Geometry.ParityThereAndBack` | aetherfsprogs/image.c:536-578 | rotating parity has an explicit inverse and never puts data on the parity member of its row |
| `Geometry.ParityBackAndThere` | aetherfsprogs/image.c:536-578 | every cell that is not a parity cell is the image of a logical block |
| `Geometry.ParityCapacity` | aetherfsprogs/image.c:536-578 | a logical block lies below the capacity of the full rows exactly when its cell lies in those rows |
| `Geometry.StripeCapacity` | aetherfsprogs/image.c:500-534 | a logical block lies below n times the rows exactly when its cell lies in those rows |
| `Geometry.StripeOrder` | aetherfsprogs/image.c:500-534 | consecutive logical blocks fill a stripe of one member, then the same stripe of the next, then the next row of stripes from the first member on |
| `Geometry.ParityRotates` | aetherfsprogs/image.c:536-578 | the parity member is the first in the first row of stripes and the next one in each following row |
| `Geometry.ParityOrder` | aetherfsprogs/image.c:536-578 | consecutive logical blocks fill the stripes of a row member by member, skipping the parity member, and go on with the next row |
| `PoolMap.RoleMembers` | aetherfsprogs/image.c:179-207 | which members hold data, metadata and the log: those their masks name, with the fallbacks to member 0 and to the metadata members |
| `PoolMap.BootstrapRoles` | aetherfsprogs/image.c:449-455 | the journal block is kept on the log members, every other bootstrap block on the metadata members |
| `PoolMap.DataAreaExact` | aetherfsprogs/image.c:209-225 | under a valid label the data area of a member has the stated size, or all behind the bootstrap blocks if none is stated |
| `PoolMap.UnstatedSizes` | aetherfsprogs/image.c:209-225 | where the label gives no sizes, those of the device count |
| `PoolMap.MapLinearLoop` | aetherfsprogs/image.c:457-482 | the member walk of concatenation computes the mapping |
| `PoolMap.LinearInverse` | aetherfsprogs/image.c:457-482 | concatenation maps a block exactly when it lies below the sum of the capacities, and the cell determines the block |
| `PoolMap.MappedInside` | aetherfsprogs/image.c:580-596 | a mapped block lies in the data area of a data member |
| `PoolMap.MapExact` | aetherfsprogs/image.c:484-596 | member, parity member and block of every mirror, stripe and parity mapping, and every refusal with its error |
| `PoolMap.MapInjective` | aetherfsprogs/image.c:457-596 | in every profile, blocks that map to the same cell are equal |
| `PoolMap.ParityApart` | aetherfsprogs/image.c:536-578 | blocks of one row share the parity member, and none of them lies on it |
| `PoolMap.MappedInTotal` | aetherfsprogs/image.c:289-346 | under a valid label a mapped block lies below the member's total size, except mirror blocks past it |
| `PoolMap.StripeMapsCapacity` | aetherfsprogs/image.c:500-534 | with equal stripe-aligned members, striping maps exactly the blocks below n times the member size |
| `PoolMap.ParityMapsCapacity` | aetherfsprogs/image.c:536-578 | with equal stripe-aligned members, parity maps exactly the blocks below n - 1 times the member size |
| `PoolMap.ParityReachesCell` | aetherfsprogs/image.c:536-578 | every data cell whose member and whose parity member reach it holds a mapped block |
| `PoolBlocks.AccessAnswers` | aetherfsprogs/image.c:271-287 | what reading and writing one block of a member answers and changes, whatever the number |
| `PoolBlocks.PoolImage.Read` | aetherfsprogs/image.c:814-841 | a bootstrap read takes the first readable replica, a data read its mapped cell |
| `PoolBlocks.PoolImage.WriteMembers` | aetherfsprogs/image.c:854-891 | replicas are written in mask order up to the first failure |
| `PoolBlocks.PoolImage.Write` | aetherfsprogs/image.c:843-923 | the whole new state of the members after a write in any profile, errors included |
| `PoolBlocks.NewParity` | aetherfsprogs/image.c:908-911 | the byte loop removes the old data from the parity and adds the new |
| `PoolRefinement.WriteFrame` | aetherfsprogs/image.c:843-923 | a write, failed or not, changes no cell other than those of its own block |
| `PoolRefinement.AliasExact` | aetherfsprogs/image.c:271-287 | in every profile, for bootstrap and data blocks alike, a write and a read share a cell exactly when they share a member and their member blocks agree modulo 2^52 |
| `PoolRefinement.UnwrappedApart` | aetherfsprogs/image.c:457-596 | different blocks whose member blocks lie below 2^52 are never aliased |
| `PoolRefinement.SmallMembersUnwrapped` | aetherfsprogs/image.c:457-596 | with members below 2^52 blocks, only mirror block numbers from 2^52 on wrap |
| `PoolRefinement.WriteKeepsOthers` | aetherfsprogs/image.c:843-923 | a write, failed or not, leaves every logical block that is not aliased with its own readable as before |
| `PoolRefinement.WriteReadsBack` | aetherfsprogs/image.c:814-923 | after a completed write the block reads back as long as one of its replicas can be read |
| `PoolRefinement.StepShows` | aetherfsprogs/image.c:843-923 | one completed write updates the flat array at its block and no block it is not aliased with |
| `PoolRefinement.RunRefinesFlat` | aetherfsprogs/image.c:814-923 | over every run of completed writes a pool of any profile refines a flat array, at every block that no other write of the run is aliased with |
| `PoolRefinement.UnwrappedUndisturbed` | aetherfsprogs/image.c:457-596 | where no member block wraps, that is every block |
| `PoolRefinement.AliasDisturbs` | aetherfsprogs/image.c:843-923 | the condition is exact: of two aliased blocks, a faultless write of one changes what the other reads |
| `PoolRefinement.MirrorAliasExample` | aetherfsprogs/image.c:271-287 | a write to block 2^52 of a mirror replaces block 0 |
| `PoolRefinement.LinearAliasExample` | aetherfsprogs/image.c:457-482 | a single pool with a member of more than 2^52 data blocks aliases block 8 |
| `Redundancy.RunScrub` | aetherfsprogs/image.c:1291-1308 | the scrub walks the bootstrap blocks and then, for mirror and parity, the used intervals |
| `Redundancy.RunScrubSpan` | aetherfsprogs/image.c:1195-1289 | the blocks of an interval are scrubbed in order up to the first failure |
| `Redundancy.CompareReplicas` | aetherfsprogs/image.c:1158-1240 | the replica loop compares every later replica with the first |
| `Redundancy.CheckRow` | aetherfsprogs/image.c:1242-1289 | the row loop accumulates the exclusive-or of all data members |
| `Redundancy.ScrubReplicasExact` | aetherfsprogs/image.c:1158-1240 | with readable members, replicas pass exactly when their byte offset is valid and they exist everywhere and agree |
| `Redundancy.ScrubRowExact` | aetherfsprogs/image.c:1242-1289 | with readable members, a block passes exactly when it maps, its row exists on every data member and the exclusive-or of the row is zero |
| `Redundancy.ParityWriteConserves` | aetherfsprogs/image.c:893-919 | a completed parity write keeps the exclusive-or of its row over the members that have the row |
| `Redundancy.StoppedWriteStores` | aetherfsprogs/image.c:893-919 | what a parity write leaves whose second member write does not happen |
| `Redundancy.HalfParityWriteSafe` | aetherfsprogs/image.c:893-919 | a parity write stopped between its two member writes changes no logical block that does not share the parity cell by wrapping, and the scrub of the block then fails exactly when the row is incomplete or old and new data differ |
| `Redundancy.StoppedWriteDisturbs` | aetherfsprogs/image.c:893-919 | the condition is exact: where the parity cell is shared, a stopped write changes what the other block reads |
| `Redundancy.UnwrappedParity` | aetherfsprogs/image.c:536-578 | member blocks below 2^52 never share it |
| `Redundancy.WriteKeepsRedundancy` | aetherfsprogs/image.c:843-923 | one completed write keeps replicas equal and parity rows at zero, unless its byte offset wraps to a bootstrap block of which it reaches only some replicas |
| `Redundancy.RunKeepsRedundancy` | aetherfsprogs/image.c:843-923 | so does every run of such writes, and members keep their sizes |
| `ScrubLaws.SplitBreaks` | aetherfsprogs/image.c:271-287 | the condition is exact: a faultless write that reaches only some replicas of a bootstrap block makes a redundant pool fail its scrub |
| `ScrubLaws.SplitExample` | aetherfsprogs/image.c:271-287 | on a valid mirror over two members with data on the first only, block 2^52 + 1 is such a write |
| `Redundancy.UnwrappedSplitsNone` | aetherfsprogs/image.c:271-287 | member blocks below 2^52 never do |
| `ScrubLaws.ScrubOneExact` | aetherfsprogs/image.c:1195-1289 | a used block passes exactly when it is mapped, its row exists on every data member and the row is clean |
| `ScrubLaws.ScrubExact` | aetherfsprogs/image.c:1291-1308 | the scrub accepts a redundant pool exactly when parity has three data members and no used block has an incomplete row (or wraps to an unclean one in the bootstrap area) |
| `ScrubLaws.ScrubAfterRunExact` | aetherfsprogs/image.c:1158-1308 | so it does after every run of completed writes, and the verdict is the one the member sizes gave at the start unless a used block wraps into the bootstrap area |
| `ScrubLaws.ScrubParts` | aetherfsprogs/image.c:1291-1308 | whatever reads fail, the scrub accepts exactly when every bootstrap block and every used block passes and parity has three data members |
| `ScrubLaws.ChangedRowFound` | aetherfsprogs/image.c:1195-1289 | where a used block passed, a change of its row on any one data member, parity included, makes it fail |
| `ScrubLaws.ChangeFound` | aetherfsprogs/image.c:1158-1308 | where the scrub accepted, it rejects after any change of one cell of a used row or of one of several bootstrap replicas |
| `ScrubLaws.EvenMembersPass` | aetherfsprogs/image.c:1158-1308 | with equally large data members on devices that hold them, every list of mapped used blocks passes |
| `ScrubLaws.UnevenParityExample` | aetherfsprogs/image.c:571-574 | on a valid parity pool with members of 2, 2 and 1 data blocks, a block can be written and its scrub fails with -EIO |
| `PoolOpen.ReadLabels` | aetherfsprogs/image.c:729-741 | the loop yields all labels exactly when every device has a valid one |
| `PoolOpen.PlaceDevices` | aetherfsprogs/image.c:750-773 | the loop places every device at its index exactly when the labels agree and no index repeats or is too large |
| `PoolOpen.OpenPool` | aetherfsprogs/image.c:725-788 | two to eight devices open exactly when all have valid labels that agree apart from index and checksum, their count matches and their indices are a permutation; every device is then at its index. `PoolLabels` says which labels these are |
| `PoolOpen.OpenOrderIrrelevant` | aetherfsprogs/image.c:709-797 | member table and label do not depend on the order of the device list |
| `PoolOpen.OnePoolOrderIrrelevant` | aetherfsprogs/image.c:371-388 | neither does acceptance |
| `PoolHandle.MembersExact` | aetherfsprogs/image.c:332-343 | the member loop accepts exactly when every entry has its own index and room for its data |
| `PoolHandle.KeptLabelValid` | aetherfsprogs/image.c:782-783 | clearing the index and sealing again keeps a label valid |
| `PoolHandle.OpenedPool` | aetherfsprogs/image.c:709-788 | every pool that opens keeps a valid label, has a device for every member, and meets what the address map relies on |
| `PoolLabels.LabelExact` | aetherfsprogs/image.c:289-346 | a label is valid exactly when it is the one written for some member of some consistent plan of a pool |
| `PoolLabels.MadeLabelPasses` | aetherfsprogs/image.c:289-346 | every label written from a consistent plan is valid |
| `PoolLabels.LabelErrors` | aetherfsprogs/image.c:289-346 | a label of the right magic and version with a wrong checksum is refused with -EILSEQ, every other invalid one with -EINVAL |
| `PoolLabels.ReadAnswers` | aetherfsprogs/image.c:348-369 | an empty device cannot be read, a first block without the magic is no label, any other is checked |
| `PoolLabels.LimitExact` | aetherfsprogs/image.c:323-330 | a mask stays within the member limit exactly when it is below 2 to the number of members |
| `PoolLabels.NormalizedExact` | aetherfsprogs/image.c:371-388 | two labels compare equal exactly when they agree in every byte outside index and checksum |
| `PoolLabels.MadePoolOpens` | aetherfsprogs/image.c:709-797 | devices labelled from one plan open in whatever order they are given, each at its own index, as a pool with the profile, stripe, masks and sizes of the plan |
| `PoolLabels.MadeDeviceOpens` | aetherfsprogs/image.c:667-707 | a device labelled from a plan of one member opens alone as that pool, and one of a larger plan is refused with -EXDEV |
| `PoolCheck.PoolChecks` | aetherfsprogs/image.c:1310-1569 | a redundant pool of any profile is accepted exactly when it loads and validates and no used block has an incomplete row |
| `PoolCheck.OpenedPoolChecks` | aetherfsprogs/image.c:709-797 | in particular every pool that opens from two to eight devices |
| `PoolCheck.RunView` | aetherfsprogs/image.c:814-923 | over every run of completed writes, a pool reads exactly what a flat array of blocks would hold, unreadable blocks included |
| `PoolCheck.RunChecks` | aetherfsprogs/image.c:1038-1569 | after every run of completed writes, the check of a redundant pool accepts exactly when the flat array is a sound image and no used block has an incomplete row, and gives its report |
| `PoolCheck.SameVerdict` | aetherfsprogs/image.c:1038-1569 | load and validation depend only on the blocks below the size of the image and on the two the superblock names |
| `PoolCheck.BurstInPoolRejected` | aetherfsprogs/image.c:1310-1569 | an accepted pool of any profile with one to four consecutive bytes of one cell of file data changed is rejected |
| `PoolCheck.HiddenChangeRejected` | aetherfsprogs/image.c:1195-1308 | an accepted mirror or parity pool is rejected after any change of a cell that no read shows |
| `ImageCheck.OpenMembers` | aetherfsprogs/image.c:709-797 | no device or more than eight are refused, one opens as a single image, two to eight as a pool |
| `ImageCheck.SingleReadsExact` | aetherfsprogs/image.c:814-841 | an image of one member reads, for every block number, the block of its device that the byte offset reaches |
| `ImageCheck.SingleWrites` | aetherfsprogs/image.c:843-923 | and writes it block for block |
| `ImageCheck.SingleScrub` | aetherfsprogs/image.c:1291-1308 | a single member needs no scrub, and a parity label on one is refused |
| `Intervals.SweepCoverage` | aetherfsprogs/image.c:1532-1546 | the cursor loop accepts exactly when the sorted list is contiguous from block 8 to the end |
| `Intervals.SortSorts` | aetherfsprogs/image.c:125-139 | sorting orders by start and length and is a permutation |
| `Intervals.SortedAscends` | aetherfsprogs/image.c:125-139 | the sorted list ascends by start, and by length where the start is the same |
| `Intervals.SortedPermutationUnique` | aetherfsprogs/image.c:1522-1531 | the sorted list is unique, so any sorting algorithm gives it |
| `Intervals.SweepTiles` | aetherfsprogs/image.c:1532-1546 | a contiguous list covers every block of its range once |
| `Intervals.TilesSweep` | aetherfsprogs/image.c:1532-1546 | a sorted list that covers every block once is contiguous |
| `Intervals.SortSweepExact` | aetherfsprogs/image.c:1531-1546 | with additions modulo 2^64, sort and sweep accept exactly the lists that cover [8, blocks) once, with no wrap, gap or overlap |
| `Validator.ReadLink` | aetherfsprogs/image.c:1429-1473 | an accepted chain block checks at least one and at most the remaining data blocks, and names a block of the data area unless it is the last |
| `ValidatorLoops.CheckSumsLoop` | aetherfsprogs/image.c:1449-1460 | the loop compares every data block with its sum up to the first failure |
| `ValidatorLoops.WalkChainLoop` | aetherfsprogs/image.c:1429-1474 | the loop ends on every chain, cyclic ones included, and lists the chain blocks |
| `ValidatorLoops.ScanExtentsLoop` | aetherfsprogs/image.c:1406-1479 | the loop over extents collects their intervals and chains in order |
| `ValidatorLoops.ScanFileSteps` | aetherfsprogs/image.c:1381-1492 | one file: root, extents, block count and size |
| `ValidatorLoops.ScanInodeSteps` | aetherfsprogs/image.c:1343-1492 | one inode: bitmap, mode, checksum, directory or file |
| `ValidatorLoops.ScanInodesLoop` | aetherfsprogs/image.c:1342-1493 | the loop over the inode table collects intervals and counts |
| `ValidatorLoops.ScanFreeLoop` | aetherfsprogs/image.c:1505-1519 | the loop over free extents collects them in order |
| `ValidatorLoops.ScanDirLoop` | aetherfsprogs/image.c:1105-1156 | the walk over directory records collects the referenced inodes and finds both dot entries |
| `ValidatorLoops.CoverageLoop` | aetherfsprogs/image.c:1523-1529 | the loop adds the used intervals of the data area to the free ones |
| `ValidatorLoops.RunValidate` | aetherfsprogs/image.c:1310-1569 | the stages in their order, with the first error found |
| `ValidatorLaws.ChainBounds` | aetherfsprogs/image.c:1429-1474 | an accepted chain has at least a 1020th as many blocks as it checks, all in range |
| `ValidatorLaws.ChainExact` | aetherfsprogs/image.c:1429-1474 | the walk returns a list of blocks exactly when they are sealed, linked in that order, end with link 0, and their entries are the checksums of the data blocks in order |
| `ValidatorLaws.MetadataErrors` | aetherfsprogs/image.c:598-633 | of a readable metadata block a wrong checksum is -EILSEQ, and then too many entries are -EINVAL |
| `ValidatorLaws.ChainCovers` | aetherfsprogs/image.c:1429-1474 | every used entry of an accepted chain matches the checksum of its data block |
| `ValidatorLaws.ChainChecksEachOnce` | aetherfsprogs/image.c:1429-1474 | every data block of the extent is checked by exactly one entry |
| `ValidatorLaws.ScanInodesFrame` | aetherfsprogs/image.c:1342-1493 | the inode scan depends only on blocks it lists as used |
| `Acceptance.SweepIffTiles` | aetherfsprogs/image.c:1522-1546 | the two sorts and the sweep accept exactly when free and used intervals together tile the data area, and their lengths then add up to it |
| `Acceptance.ValidateExact` | aetherfsprogs/image.c:1310-1569 | validation accepts exactly when every structure scans, used and free intervals tile [8, blocks), and the superblock counts the free blocks |
| `Acceptance.AcceptedConserves` | aetherfsprogs/image.c:1522-1551 | in an accepted image every data block is used or free but not both, and used blocks plus the free count equal blocks minus 8 |
| `Acceptance.ReportSays` | aetherfsprogs/image.c:1557-1563 | the report holds the scanned counts and the superblock's free count |
| `Ownership.OwnerUnique` | aetherfsprogs/image.c:1522-1546 | in an accepted image no block has two owners: extent nodes, data blocks and chain blocks of all files are distinct, within a file and across files |
| `Ownership.OwnedOrFree` | aetherfsprogs/image.c:1522-1551 | every block of the data area is free or has an owner, never both, and nothing else is owned |
| `Ownership.AcceptedChain` | aetherfsprogs/image.c:1429-1474 | every extent of an accepted file has a chain of at least a 1020th as many blocks as data blocks |
| `DirectoryLaws.EntryMeans` | aetherfsprogs/image.c:1119-1150 | a directory record is accepted exactly when its length is a nonzero multiple of four inside the block, its name fits the record (or the record is shorter than its header) and has at most 255 bytes, its checksum matches, and it refers to the root or to an inode not named before |
| `DirectoryLaws.MalformedRefused` | aetherfsprogs/image.c:1119-1150 | a record that is not of that shape is refused with -EINVAL whatever else it holds |
| `DirectoryLaws.EntryErrors` | aetherfsprogs/image.c:1119-1150 | a record of that shape is refused with -EILSEQ for its checksum, then -EEXIST for an inode named before, and -EINVAL otherwise |
| `DirectoryLaws.DirectoryExact` | aetherfsprogs/image.c:1105-1156 | the walk accepts exactly the blocks that consist of good records from end to end, name no inode twice and have both dot entries, and collects exactly the inodes named |
| `DirectoryBuild.DirectoryScans` | aetherfsprogs/image.c:1105-1156 | every list of names of 1 to 255 bytes with both dot entries, distinct inodes and room in the block, written as records, is accepted, and the walk finds exactly its inodes |
| `DirectoryBuild.IndicesExact` | aetherfsprogs/image.c:1105-1156 | those are the inodes of the names that are not dot entries |
| `Meaning.ScanExtentsExact` | aetherfsprogs/image.c:1406-1479 | extents are accepted exactly when each one continues the file, lies in the data area and matches its chain |
| `Meaning.ScanFileExact` | aetherfsprogs/image.c:1381-1492 | a file is accepted exactly when its root, node, extents, block count and size are good |
| `Meaning.SizeFits` | aetherfsprogs/image.c:1485-1491 | the size check accepts exactly the sizes that end in the last block, counted modulo 2^52 |
| `Meaning.TableExact` | aetherfsprogs/image.c:1038-1103 | the inodes are the eight of the one table block that is read, and all others are zero |
| `Meaning.ScanInodesExact` | aetherfsprogs/image.c:1342-1493 | the inode table is accepted exactly when free inodes have mode 0 and used ones are the root directory or named good files; files and directories are counted |
| `Meaning.ScanFreeExact` | aetherfsprogs/image.c:1495-1520 | the free list is accepted exactly when its extents are nonempty, ordered and in bounds |
| `Meaning.AcceptsExactly` | aetherfsprogs/image.c:1310-1569 | the whole verdict, condition by condition |
| `Meaning.AcceptedFile` | aetherfsprogs/image.c:1381-1492 | in an accepted image a file's extents follow each other from block 0, add up to its block count, and its size ends in its last block, counted modulo 2^52 |
| `Corruption.ValidateDetects` | aetherfsprogs/image.c:1406-1479 | a data block of any file whose checksum has changed makes validation fail with -EILSEQ |
| `Corruption.BurstInFileDetected` | aetherfsprogs/image.c:1406-1479 | so do one to four changed consecutive bytes, whatever pool the blocks come from |
| `BurstLaws.SealedBurst` | kernel/include/uapi/linux/aetherfs_format.h:402-470 | two sealed structures that differ within four bytes differ only next to their checksum field |
| `BurstLaws.BurstRejected` | aetherfsprogs/image.c:1038-1569 | damaged file data is rejected whatever else shows the damage (superblock, bitmap, inode table, directory, journal, extent nodes, other files), if the chain that holds its sum does not |
| `DeviceCorruption.FileDataPlace` | aetherfsprogs/image.c:1406-1479 | the blocks of a file of an accepted image lie in the data area and can be read |
| `DeviceCorruption.BurstOnDeviceDetected` | aetherfsprogs/image.c:1310-1569 | an accepted device of up to 2^51 blocks with one to four consecutive bytes of one file block changed is refused with -EILSEQ, unless the superblock also names that block |
| `DeviceCorruption.BurstOnDeviceRejected` | aetherfsprogs/image.c:1310-1569 | for images of any size it is refused, whatever else the changed cell is, unless the chain that holds its sum wraps to the same cell |
| `DeviceCorruption.ChainsApart` | aetherfsprogs/image.c:1406-1479 | up to 2^52 blocks no chain does |
| `Loader.LoadParts` | aetherfsprogs/image.c:1038-1103 | what an accepted load has read and checked, block by block |
| `Loader.LoadAccepts` | aetherfsprogs/image.c:1038-1103 | conversely, blocks that pass their checks load |
| `Loader.LoadFrame` | aetherfsprogs/image.c:1038-1103 | load depends only on the bootstrap blocks and the two blocks the superblock names |
| `Forms.SuperExact` | aetherfsprogs/image.c:925-958 | a superblock is valid exactly when writing the expected fields and the checksum into it changes nothing and the image has at least eight blocks |
| `Forms.SuperErrors` | aetherfsprogs/image.c:925-958 | a superblock of the right magic, version and block size with a wrong checksum is refused with -EILSEQ, every other invalid one with -EINVAL |
| `Forms.CheckpointExact` | aetherfsprogs/image.c:960-1024 | the same for the checkpoint root, with the fields its superblock demands |
| `Forms.CheckpointErrors` | aetherfsprogs/image.c:960-1024 | a checkpoint root of the right magic and version with a wrong checksum is refused with -EILSEQ, every other invalid one with -EINVAL |
| `Forms.BitmapExact` | aetherfsprogs/image.c:1026-1036 | a bitmap is valid exactly when it is sealed, covers 32640 inodes and counts the inodes it marks |
| `Forms.LoadExact` | aetherfsprogs/image.c:1038-1103 | load returns an image exactly when each of its parts is what the reader shows at its address and is valid |
| `Format.NodePlaces` | kernel/include/uapi/linux/aetherfs_format.h:204-218 | extents and the head of an extent node are read where the packed structures have them, and 102 of them fill the block |
| `Format.SumPlaces` | kernel/include/uapi/linux/aetherfs_format.h:220-225 | the same for checksum blocks and their 1020 sums |
| `Format.InodePlaces` | kernel/include/uapi/linux/aetherfs_format.h:180-202 | the same for inodes of 512 bytes |
| `Format.EntryPlaces` | kernel/include/uapi/linux/aetherfs_format.h:227-234 | the same for directory records |
| `Format.BitmapPlaces` | kernel/include/uapi/linux/aetherfs_format.h:282-288 | the same for bitmaps, bit by bit |
| `Format.SuperPlaces` | kernel/include/uapi/linux/aetherfs_format.h:151-178 | the same for superblocks |
| `Format.JournalPlaces` | kernel/include/uapi/linux/aetherfs_format.h:271-280 | the same for the journal |
| `Format.LabelPlaces` | kernel/include/uapi/linux/aetherfs_format.h:290-318 | the same for pool labels and their member entries |
| `Format.SuperFormPlaces` | kernel/include/uapi/linux/aetherfs_format.h:151-178 | what load demands of a superblock is about the members of the structure that are meant |
| `Format.CheckpointHeadPlaces` | kernel/include/uapi/linux/aetherfs_format.h:320-346 | the same for the first half of the checkpoint root |
| `Format.CheckpointTailPlaces` | kernel/include/uapi/linux/aetherfs_format.h:320-346 | and for the second |
| `Format.NewSuperPlaces` | kernel/include/uapi/linux/aetherfs_format.h:151-178 | what mkfs writes into a superblock goes to the members of the structure that are meant |
| `Format.NewSuperTailPlaces` | kernel/include/uapi/linux/aetherfs_format.h:151-178 | also behind the checksum |
| `Format.NewCheckpointPlaces` | kernel/include/uapi/linux/aetherfs_format.h:320-346 | the same for the checkpoint root |
| `Format.NewInodePlaces` | kernel/include/uapi/linux/aetherfs_format.h:180-202 | the same for the root inode |
| `Format.NewJournalPlaces` | kernel/include/uapi/linux/aetherfs_format.h:271-280 | the same for the journal |
| `SingleDevice.CheckDeviceExact` | aetherfsprogs/image.c:667-707 | a device passes exactly when it opens, loads and validates and is not labelled parity |
| `SingleDevice.OpenSame` | aetherfsprogs/image.c:667-707 | opening depends only on the size and the first block |
| `Packing.ChainPasses` | aetherfsprogs/rebalance.c:122-155 | the chain built for a run of data blocks is accepted by the validator's walk and occupies consecutive blocks |
| `Packing.PackedScans` | aetherfsprogs/rebalance.c:246-281 | a packed file scans, and uses exactly its root, its data and its chain |
| `Packing.PackedContents` | aetherfsprogs/rebalance.c:264-281 | a packed file holds the blocks it was packed from |
| `SpaceBound.SumsSubadditive` | aetherfsprogs/rebalance.c:254-255 | one chain for two runs needs no more blocks than two chains |
| `SpaceBound.ScanFileCost` | aetherfsprogs/rebalance.c:251-257 | a packed file needs no more blocks than the scanned file uses, and the file has as many blocks as its inode says |
| `SpaceBound.PlanFits` | aetherfsprogs/rebalance.c:251-262 | the layout of an accepted image fits: the out-of-space branch is never taken and free space never shrinks |
| `Compaction.PackedAccepted` | aetherfsprogs/rebalance.c:284-317 | the packed image of a compactible source validates with the same counts, and all blocks from `next_block` on are free |
| `Compaction.PackedRejected` | aetherfsprogs/rebalance.c:240-244 | the packed image of any other source is rejected |
| `Rebalance.WriteTo` | aetherfsprogs/image.c:843-923 | a reachable block of the target is replaced and no other |
| `Rebalance.CopyFileData` | aetherfsprogs/rebalance.c:97-120 | the data blocks of all extents are copied one after the other and nothing else changes |
| `Rebalance.SumChunk` | aetherfsprogs/rebalance.c:136-144 | the loop stores the checksum of every data block of the chunk |
| `Rebalance.WriteChecksumChain` | aetherfsprogs/rebalance.c:122-155 | the chain of the data blocks is written at consecutive blocks and nothing else changes |
| `RebalanceRun.PackFile` | aetherfsprogs/rebalance.c:246-281 | one file is written as root, data and chain at `next_block` and nothing else changes |
| `RebalanceRun.PackFiles` | aetherfsprogs/rebalance.c:220-282 | the layout loop puts every nonempty file at its planned place, updates its inode and keeps the reserved blocks |
| `Compaction.JournalKept` | aetherfsprogs/rebalance.c:284-309 | the journal keeps every byte but its count and its checksum |
| `RebalanceTheorem.FinishTarget` | aetherfsprogs/rebalance.c:284-309 | inode table, free list, superblock and journal are rewritten and nothing else changes |
| `RebalanceTheorem.CopyReserved` | aetherfsprogs/rebalance.c:45-66 | the bootstrap blocks are copied exactly when the device has them |
| `RebalanceTheorem.PlanReached` | aetherfsprogs/rebalance.c:220-282 | every block the layout of an accepted image uses can be read and written through its pool |
| `RebalanceTheorem.FinishedLoads` | aetherfsprogs/rebalance.c:311-313 | the finished target loads as the packed image |
| `RebalanceTheorem.FinishedJournal` | aetherfsprogs/rebalance.c:297-309 | in whichever bootstrap block but the free list the journal is, it is still there |
| `RebalanceTheorem.FinishedPacked` | aetherfsprogs/rebalance.c:220-309 | the finished target shows every file packed |
| `RebalanceTheorem.FinishedChecks` | aetherfsprogs/rebalance.c:311-317 | it validates exactly when the source is compactible, and then has the same directory, bitmap and checkpoint, the same inodes apart from extent root and checksum, and the same blocks in every file, each file in one contiguous run |
| `RebalanceTheorem.PackedPlan` | aetherfsprogs/rebalance.c:251-257 | the packed image plans the same layout again |
| `RebalanceTheorem.PackedAgain` | aetherfsprogs/rebalance.c:220-309 | packing keeps the conditions under which it works |
| `RebalanceTheorem.Rewrite` | aetherfsprogs/rebalance.c:211-317 | layout, closing records and check of the result; a target is returned only if it passes |
| `RebalanceDevice.TargetChecks` | aetherfsprogs/rebalance.c:311-317 | on a device, the finished target passes every check exactly when the source is compactible |
| `RebalanceDevice.CopyPrefix` | aetherfsprogs/rebalance.c:68-95 | the first n blocks of the target replace those of the device and no other |
| `RebalanceDevice.PrefixSuffices` | aetherfsprogs/rebalance.c:319-347 | the device with only the blocks below `next_block` replaced is as good as the whole target |
| `RebalanceDevice.RunRebalance` | aetherfsprogs/rebalance.c:157-381 | a rejected source is refused, and so is one whose superblock puts the inode table or the journal into the data area; a canonical source succeeds exactly when it is compactible, on files and block devices alike, and the result passes every check, keeps every name, attribute and block of every file, holds each file in one run, has no less free space and can be rebalanced again; from `next_block` on, a block device keeps its contents and a file is zero |
| `RebalanceDevice.DisplacedRefused` | aetherfsprogs/rebalance.c:214-316 | a target made from an image with displaced metadata reads zeros there and fails its check |
| `Displaced.DisplacedExample` | aetherfsprogs/image.c:1038-1103 | on every size from nine blocks on, a device with its inode table in block 8 passes every check |
| `OneFile.OneFileChecks` | aetherfsprogs/rebalance.c:239-244 | for every contents and every size that can hold them, a device with one file of these contents passes every check, and is compactible exactly when the file is not empty |
| `RebalanceDevice.RebalanceTwice` | aetherfsprogs/rebalance.c:157-381 | rebalancing a rebalanced device changes nothing its check reports |
| `Mkfs.InitSuperReads` | aetherfsprogs/mkfs.c:254-283 | the superblock is sealed and every field reads back, with the features of each mode |
| `Mkfs.GroupsExact` | aetherfsprogs/mkfs.c:254-283 | the group count is the least number of groups of 2097152 blocks that cover the image, modulo 2^32 |
| `Mkfs.GroupsCover` | aetherfsprogs/mkfs.c:254-283 | groups of the recorded size cover the image exactly when it is one group long or its size modulo 2^32 is at least a group |
| `Mkfs.InitCheckpointReads` | aetherfsprogs/mkfs.c:285-310 | the checkpoint root is sealed and mirrors its superblock |
| `Mkfs.InitInodeReads` | aetherfsprogs/mkfs.c:312-335 | the root inode is sealed and every field reads back |
| `Mkfs.InitJournalReads` | aetherfsprogs/mkfs.c:337-345 | the journal is sealed, its four positions are its own block, and it has nothing outstanding |
| `Mkfs.InitBitmapReads` | aetherfsprogs/mkfs.c:347-354 | the bitmap is sealed and has exactly its first bit set and counted |
| `Mkfs.InitFreeReads` | aetherfsprogs/mkfs.c:356-363 | the free list is sealed and holds one extent over the data area |
| `Mkfs.InitDirScans` | aetherfsprogs/mkfs.c:228-252 | the directory walk of the validator accepts the new root and finds no file |
| `MkfsRun.WriteAll` | aetherfsprogs/mkfs.c:76-94 | one block is written; a file grows at its end, a device does not |
| `MkfsRun.PrepareExact` | aetherfsprogs/mkfs.c:142-214 | which targets are prepared, with the error otherwise: no existing image unless forced, at least eight blocks, a valid length; and their size and contents afterwards |
| `MkfsRun.WriteBootstrap` | aetherfsprogs/mkfs.c:365-443 | the eight bootstrap blocks are written exactly when the target can hold them, and the data blocks stay; a device that ends too early is left zero |
| `MkfsRun.CheckNewFreeLoop` | aetherfsprogs/mkfs.c:651-695 | the loop checks order, bounds and total of the free extents |
| `MkfsRun.OwnChecksPass` | aetherfsprogs/mkfs.c:445-695 | mkfs accepts everything it writes, except the image of exactly eight blocks |
| `MkfsChecks.NewSuperExact` | aetherfsprogs/mkfs.c:445-484 | mkfs's own check of the superblock passes exactly when writing the expected fields and the checksum changes nothing; a wrong checksum alone is -EBADE, any wrong field -EINVAL |
| `MkfsChecks.NewCheckpointExact` | aetherfsprogs/mkfs.c:486-546 | the same for the checkpoint root |
| `MkfsChecks.NewInodeExact` | aetherfsprogs/mkfs.c:548-569 | the root inode must be sealed, a directory of mode 0755 and in block 3 |
| `MkfsChecks.NewDirExact` | aetherfsprogs/mkfs.c:571-599 | the root directory must start with a sealed record for one dot followed by one for two |
| `MkfsChecks.NewJournalExact` | aetherfsprogs/mkfs.c:601-620 | the journal must be sealed and have nothing outstanding |
| `MkfsChecks.NewBitmapExact` | aetherfsprogs/mkfs.c:622-649 | the bitmap must be sealed and mark and count exactly one inode |
| `MkfsChecks.NewFreeExact` | aetherfsprogs/mkfs.c:651-695 | the free list must be sealed and hold one to 102 ordered extents of the data area that are together as long as it |
| `MkfsRun.NewValidates` | aetherfsprogs/image.c:1310-1569 | a new image of at least nine blocks validates whatever its data blocks hold, with one directory and all data blocks free |
| `MkfsRun.NewLoads` | aetherfsprogs/image.c:1038-1103 | a formatted device loads exactly when its size is the formatted one |
| `MkfsRun.UnlabelledOpens` | aetherfsprogs/image.c:403-431 | a device whose first block does not start with the pool magic, such as a formatted one, opens as a single image of its own size |
| `MkfsRun.FormattedChecks` | aetherfsprogs/mkfs.c:365-443 | a formatted device passes open, load, validate and scrub exactly when formatted with its own size, reporting no file, one directory and blocks minus 8 free |
| `MkfsRun.FormattedRebalances` | aetherfsprogs/mkfs.c:697-755 | a formatted device can be rebalanced |
| `MkfsRun.RunMkfs` | aetherfsprogs/mkfs.c:697-755 | what mkfs answers and what the target holds afterwards, for every target: another block size, an existing image without force and an impossible length leave it as it was; fewer than eight blocks and a device too short for the bootstrap area are refused with -ENOSPC; all others get a new bootstrap area and keep their data blocks, and from nine blocks on this succeeds and passes every check |
| `Dedup.AddRepresents` | kernel/dense.c:483-530 | for any hash, adding a string adds one to the multiset the table represents, exactly when its count does not reach 2^32 |
| `Dedup.AddAnswers` | kernel/dense.c:483-530 | what an add answers, and that a refused one changes nothing |
| `Dedup.ReleaseRepresents` | kernel/dense.c:557-587 | for any hash, releasing succeeds exactly when the multiset holds the string and removes one of it |
| `Dedup.RunRepresents` | kernel/dense.c:478-587 | for any hash, over every run the table is the multiset of strings its callers hold, at every step, exactly when no count ever reaches 2^32 |
| `Dedup.OverflowExample` | kernel/dense.c:483-530 | for any hash, after 2^32 adds of one string the table no longer represents what its callers hold |
| `Dedup.ComputeHash` | kernel/aetherfs.h:463-473 | the byte loop of the hash the kernel uses, one of those |
| `DedupTable.HashTable.constructor` | kernel/dense.c:65-66 | a new table is empty |
| `DedupTable.HashTable.Locate` | kernel/dense.c:557-584 | the walk along a linked chain finds the first entry with the string and the entry before it |
| `DedupTable.HashTable.Put` | kernel/dense.c:483-530 | the linked chains after an add are those of the table as a value, and stay well linked |
| `DedupTable.HashTable.Release` | kernel/dense.c:557-587 | the same for a release, including the unlinking of the last reference |
| `IntentLog.Log.constructor` | kernel/journal.c:101-107 | a new log is empty |
| `IntentLog.Log.Add` | kernel/journal.c:131-168 | a create appends a pending intent, or is refused for a zero type or transaction or for lack of room |
| `IntentLog.CreateRecords` | kernel/journal.c:131-168 | the appended intent is pending and holds the values given; a refused create changes nothing |
| `IntentLog.Log.ApplyTxn` | kernel/journal.c:170-196 | the pending intents of the transaction become applied and are counted |
| `IntentLog.Log.CommitTxn` | kernel/journal.c:198-218 | all intents of the transaction become committed |
| `IntentLog.MarksExact` | kernel/journal.c:170-218 | apply and commit change the states of exactly these intents and nothing else |
| `IntentLog.CountsExact` | kernel/journal.c:170-280 | apply, replay and clear count the pending intents of the transaction, all that are not committed, and the committed ones of the transaction |
| `IntentLog.Log.ReplayAll` | kernel/journal.c:220-253 | everything not committed is marked replayed and counted, and the log is empty |
| `IntentLog.Log.RemoveAt` | kernel/journal.c:268-271 | shifting the later entries down in place removes one entry |
| `IntentLog.Log.ClearTxn` | kernel/journal.c:255-280 | the in-place loop leaves the filtered log and counts what it removed |
| `IntentLog.WithoutExact` | kernel/journal.c:255-280 | clear removes exactly the committed intents of the transaction |
| `IntentLog.WithoutOrdered` | kernel/journal.c:255-280 | clear keeps the order of the others |
| `IntentLog.RunFits` | kernel/journal.c:131-280 | capacity holds over every run |
| `IntentLog.StepSettled` | kernel/journal.c:131-280 | only a create of the transaction itself can undo that all its intents are committed |
| `IntentLog.CommitSettles` | kernel/journal.c:131-280 | after a commit and any operations without a create of the transaction, the log holds only committed intents of it |
| `IntentLog.CreateUnsettles` | kernel/journal.c:131-168 | an accepted create after the commit leaves a pending intent |
| `IntentLog.CommitThenClear` | kernel/journal.c:198-280 | commit then clear removes the whole transaction and nothing else |
| `IntentLog.ApplyOnce` | kernel/journal.c:170-196 | a second apply finds nothing |

## Left out

- RebalanceDevice.RunRebalance: for an accepted image whose superblock puts the inode table into another bootstrap block than 2 or the journal into the free list (or either at a block number that wraps to a bootstrap block), or that claims more than 2^51 blocks, only the refusal of rejected sources is stated. Rebalance writes the inode table to block 2 by number, so the old table stays in use and the outcome depends on what the moved files happen to leave where it points.
- RebalanceDevice.RunRebalance: reads and writes of the source and the target do not fail; temporary files, renaming and space on the host are not modelled.
- DeviceCorruption.BurstOnDeviceDetected: the error code is stated only for images of up to 2^51 blocks and for blocks that the superblock does not also name as inode table or journal; the refusal is stated for all.
- BurstLaws.BurstRejected: a block whose own checksum chain shares the damaged bytes is excluded; that takes an image of more than 2^52 blocks, and whether the two checksums then still match is left open.
- MkfsRun.RunMkfs: targets whose length is no whole number of blocks are not modelled.
- PoolOpen.OpenPool: two to eight devices; `ImageCheck.OpenMembers` dispatches on the number.
- Writes past the end of a pool member that is a regular file: member sizes are fixed.
- A directory record that reaches outside its block has no meaning in C; the model stops with the error `Undefined` there.
- Superblock, inode and other structure builders are values of a field list rather than a shared buffer filled in place.
- Memory exhaustion in userspace, retry loops around `pread` and `pwrite`, file descriptors, `fsync`.
- Class and role masks of opened members: they only add easy members.
- `main.c`, `mount.c`, `health.c`, `scrub.c`: argument parsing, processes and printing.
- Checksums of intent entries and transaction records in `kernel/journal.c`: nothing keeps them up to date.
- `aetherfs_dedup_resolve`, which copies a string onto itself.
- The rest of the kernel module: allocation, trees, directories, snapshots and copy on write.
