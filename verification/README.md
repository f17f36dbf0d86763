# A verified model of gfs2-utils

gfs2-utils makes, checks, repairs, converts and dumps GFS2 file systems. This project models the
parts of it that rearrange data structures in place, and proves what they promise.

* **The inode tree** (`RedBlackTrees`, `OsiTree`, `InodeHash`): red-black trees of nodes with parent
  pointers. The memory is a map from addresses to nodes. A ghost tree, cut anywhere into a subtree and
  its surroundings, says what the memory holds.
* **Converting GFS1 to GFS2** (`MetaPaths`, `MetaTrees`, `Blocks`, `Heights`, `TearDown`, `Rebuild`,
  `Remap`, `Rebyte`, `FullDisk`, `Convert`): an inode's tree of metadata is torn down, its blocks are freed, and it
  is built again with another fan-out, and perhaps another height, out of the freed blocks.
* **Journal recovery** (`JournalLog`, `Recovery`, `JournalSequence`): the two passes over a circular
  log with revokes, and the renumbering of log headers.
* **Bitmaps** (`FsBits`, `Bitmaps`, `ResourceGroups`, `Pass5`): searching 64-bit words of two-bit
  entries, four ways to find a block's entry, and counters that must agree with the entries.
* **Checking and undoing** (`Metawalk`): undoing exactly the work that was done before an error.
* **Directory hash tables** (`Dyadic`, `HashTable`): runs of leaf pointers, and padding a gap with them.
* **Saving and restoring metadata** (`Savemeta`): a writer that trims zeros and a reader that refills
  its buffer, and the ranges of indirect blocks.
* **Link counts and connectivity** (`Links`, `Pass3`): a counter kept in bit maps and trees, and the
  climb from every directory to a parent that was checked.
* **Hashes** (`CrcTables`, `Crc`): table-driven CRCs against their bitwise definition.

Data that the C code changes in place is a field of a class, and each method is proved against functions
of that state; the properties are lemmas about those functions. Every prompt is answered "yes".
Unsigned arithmetic that can wrap around is written with its width. Source paths are those of the
repository.

## Model

| member | source | states |
|---|---|---|
| RedBlackTrees.InOrderPlug | gfs2/include/osi_tree.h:304-378 | the order of a whole tree is what sorts before a subtree, the subtree, and what sorts after it |
| RedBlackTrees.BalancedPlug | gfs2/include/osi_tree.h:97-233 | any subtree of the right black height and root colour can be plugged into a red-black context, which is what the rebalancing loops rely on |
| RedBlackTrees.CutBalanced | gfs2/include/osi_tree.h:97-233 | conversely a red-black tree cut anywhere gives a balanced subtree and a context that fits it |
| RedBlackTrees.BlackHeightBounds | gfs2/include/osi_tree.h:12-20 | black height h means at least 2^h - 1 nodes and a height of at most 2h, or 2h + 1 below a red root |
| RedBlackTrees.HeightBound | gfs2/include/osi_tree.h:12-20 | a red-black tree of n nodes has height at most 2 * log2(n + 1) |
| OsiTree.AtPlug | gfs2/include/osi_tree.h:12-30 | the memory holds a tree cut at a subtree if and only if it holds the whole tree, parent links included |
| OsiTree.OsiRoot.RotateLeft | gfs2/include/osi_tree.h:52-73 | exactly the pointers of a left rotation change: node, right child, inner grandchild, and the parent or the root pointer |
| OsiTree.OsiRoot.RotateRight | gfs2/include/osi_tree.h:75-95 | the mirror image |
| OsiTree.LeftRotation | gfs2/include/osi_tree.h:52-73 | a left rotation is allowed at any node with a right child; the memory then holds the rotated tree in the same context, in the same order |
| OsiTree.RightRotation | gfs2/include/osi_tree.h:75-95 | the mirror image |
| OsiTree.Flipped | gfs2/include/osi_tree.h:108-116 | pushing redness from both children to their parent keeps the order and the memory consistent, in either order of the assignments |
| OsiTree.LeftChildRaised | gfs2/include/osi_tree.h:118-129 | recolouring and a right rotation raise the left child with its two subtrees where they belong |
| OsiTree.RightChildRaised | gfs2/include/osi_tree.h:141-152 | the mirror image |
| OsiTree.Parents | gfs2/include/osi_tree.h:97-107 | a red node with a red parent has a black grandparent, and the whole state can be cut there |
| OsiTree.OsiRoot.InsertColorLeft | gfs2/include/osi_tree.h:102-129 | one turn below a left parent: still balanced but for one red-red edge, which moved up, and the same order |
| OsiTree.OsiRoot.InsertColorRight | gfs2/include/osi_tree.h:130-152 | the mirror image |
| OsiTree.OsiRoot.InsertColor | gfs2/include/osi_tree.h:97-156 | the loop ends with a red-black tree in the order it began with |
| OsiTree.OsiRoot.LinkAndInsert | gfs2/include/osi_tree.h:42-156 | linking a node where a descent ended and rebalancing gives a red-black tree whose order is the old one with the node at that place |
| OsiTree.RightSiblingRaised | gfs2/include/osi_tree.h:176-188 | raising the near nephew keeps memory and order (shortage on the left) |
| OsiTree.LeftSiblingRaised | gfs2/include/osi_tree.h:211-221 | the mirror image |
| OsiTree.RightBorrowed | gfs2/include/osi_tree.h:189-195 | the final rotation, in which the sibling takes the parent's colour and place, keeps memory and order |
| OsiTree.LeftBorrowed | gfs2/include/osi_tree.h:222-228 | the mirror image |
| OsiTree.LeftShortage | gfs2/include/osi_tree.h:158-197 | a left subtree one black node short has a black sibling with two subtrees of the height that is missing |
| OsiTree.OsiRoot.EraseColorLeft | gfs2/include/osi_tree.h:164-197 | one turn with the shortage on the left: it moved up, or turned to a red node, or is gone; the order is the same |
| OsiTree.OsiRoot.EraseColorLeftBlack | gfs2/include/osi_tree.h:171-197 | the cases with a black sibling |
| OsiTree.OsiRoot.EraseColorLeftRaise | gfs2/include/osi_tree.h:176-188 | the case with only the near nephew red ends with a red far nephew |
| OsiTree.OsiRoot.EraseColorLeftBorrow | gfs2/include/osi_tree.h:189-197 | the case with a red far nephew restores the balance of the whole tree |
| OsiTree.OsiRoot.EraseColorRight | gfs2/include/osi_tree.h:198-229 | the mirror image of the whole turn |
| OsiTree.OsiRoot.EraseColorRightBlack | gfs2/include/osi_tree.h:205-229 | the mirror image |
| OsiTree.OsiRoot.EraseColorRightRaise | gfs2/include/osi_tree.h:211-221 | the mirror image |
| OsiTree.OsiRoot.EraseColorRightBorrow | gfs2/include/osi_tree.h:222-229 | the mirror image |
| OsiTree.OsiRoot.EraseColor | gfs2/include/osi_tree.h:158-233 | the loop ends with a red-black tree in the order it began with |
| OsiTree.OsiRoot.TakeOutSingle | gfs2/include/osi_tree.h:279-299 | a node with at most one child is replaced by that child: the order loses it, and the tree is at most one black node short there |
| OsiTree.OsiRoot.SpliceSuccessor | gfs2/include/osi_tree.h:244-277 | the pointer updates for a node with two children come to the same memory as taking the successor out and putting it in the node's place |
| OsiTree.DeepSpliced | gfs2/include/osi_tree.h:252-277 | that holds when the successor lies deeper in the right subtree |
| OsiTree.SuccessorOrder | gfs2/include/osi_tree.h:240-277 | the order then loses exactly the erased node, and the cut left by the successor fits |
| OsiTree.OsiRoot.TakeOutDouble | gfs2/include/osi_tree.h:240-277 | a node with two children: its successor takes its place, the order loses it, and the shortage is at the successor's old place |
| OsiTree.OsiRoot.Erase | gfs2/include/osi_tree.h:235-299 | erasing any node leaves a red-black tree with consistent parent links whose order is the old one without that node |
| OsiTree.OsiRoot.First | gfs2/include/osi_tree.h:304-314 | the first node of the order, or null |
| OsiTree.OsiRoot.Last | gfs2/include/osi_tree.h:316-326 | the last node of the order, or null |
| OsiTree.OsiRoot.Next | gfs2/include/osi_tree.h:328-354 | the node after a given one in the order, or null |
| OsiTree.OsiRoot.Prev | gfs2/include/osi_tree.h:356-378 | the node before a given one in the order, or null |
| OsiTree.OsiRoot.Visit | gfs2/include/osi_tree.h:304-354 | osi_first and then osi_next until null visit every node once, in order |
| InodeHash.InodeTree.Find | gfs2/fsck/inode_hash.c:15-30 | the record of a block if there is one, and null if and only if there is none |
| InodeHash.InodeTree.Insert | gfs2/fsck/inode_hash.c:32-61 | a new address is added with a fresh record, and an address already present gets its record back with nothing changed; the tree stays a red-black search tree |
| InodeHash.InodeTree.Delete | gfs2/fsck/inode_hash.c:63-67 | exactly this record's address is gone, and the rest is a red-black search tree |
| InodeHash.InodeTree.Addresses | gfs2/fsck/inode_hash.c:15-61 | going over the tree gives exactly the stored addresses, each once, ascending |
| InodeHash.Descend | gfs2/fsck/inode_hash.c:15-30 | comparing with a node's address says on which side of it the wanted one belongs |
| InodeHash.SearchDepth | gfs2/fsck/inode_hash.c:15-61 | a search among n records takes at most 2 * log2(n + 1) steps |
| MetaPaths.ValueDigits | gfs2/convert/gfs2_convert.c:234-266 | the path of a logical position, read as a mixed-radix number, is that position |
| MetaPaths.DigitsValue | gfs2/convert/gfs2_convert.c:234-266 | conversely a path whose digits are below the fan-out is the path of its value |
| MetaPaths.SumIsValue | gfs2/convert/gfs2_convert.c:254-257 | the sum of digits times factors is the value of the path |
| MetaPaths.PeelDigit | gfs2/convert/gfs2_convert.c:259-265 | dividing by the factor of a level gives the first digit and leaves the path of the rest |
| MetaPaths.PeelByteDigit | gfs2/convert/gfs2_convert.c:423-429 | the same when the last level counts bytes of a block |
| MetaPaths.WrapSum | gfs2/convert/gfs2_convert.c:254-257 | wrapping around at 64 bits in every step is wrapping around once |
| MetaPaths.WrappedFits | gfs2/convert/gfs2_convert.c:243-252 | if the largest factor fits into 64 bits, none of them wraps around |
| MetaPaths.FirstDigit | gfs2/convert/gfs2_convert.c:259-265 | the first digit is below the slots of the dinode exactly for positions below the capacity of the tree |
| MetaPaths.CarryValue | gfs2/convert/gfs2_convert.c:327-336 | one carry step keeps the value of the path |
| Convert.Converter.MpGfs1ToGfs2 | gfs2/convert/gfs2_convert.c:234-266 | the result is the GFS2 path of the logical block the GFS1 path stands for, in 64-bit arithmetic |
| Convert.Converter.JdataMpGfs1ToGfs2 | gfs2/convert/gfs2_convert.c:393-430 | the result is the GFS2 path and byte of the file offset the GFS1 path stands for; the length is cut at the end of the file by an unsigned difference |
| Convert.Converter.FactorsOf | gfs2/convert/gfs2_convert.c:243-252 | the factor of each level is a power of the fan-out, modulo 2^64 |
| Convert.Converter.PathSum | gfs2/convert/gfs2_convert.c:254-257 | the value of the path in units of the last level, modulo 2^64 |
| Convert.Converter.PathDigits | gfs2/convert/gfs2_convert.c:259-265 | the digits of a position, and what is left below the last level |
| Convert.Converter.Advance | gfs2/convert/gfs2_convert.c:325-337 | the carry past a full bottom block gives the path of the next one |
| Rebuild.CarryIsNext | gfs2/convert/gfs2_convert.c:325-337 | that path is the path of the next logical position |
| Convert.Converter.NextMetablock | gfs2/convert/gfs2_convert.c:325-337 | after a full bottom block the path stands for the position behind it, at slot 0 |
| Convert.Converter.BuildLevel | gfs2/convert/gfs2_convert.c:300-315 | one more block on the path exists, is the one the tree has there, and has a header; no cell of the file changed; it fails only without a free block for a missing path |
| Convert.Converter.BuildPath | gfs2/convert/gfs2_convert.c:300-315 | the block on the whole path exists; blocks were taken only for paths on the way; it fails only if one is missing and no block is free |
| Rebuild.FreshTree | gfs2/convert/gfs2_convert.c:300-315 | hanging a zeroed block into an empty slot keeps the tree a tree and changes no cell of the file |
| Rebuild.LevelBuilt | gfs2/convert/gfs2_convert.c:300-315 | all a level of building keeps: tree, headers, cells, other blocks, and what was taken |
| Rebuild.NoneMissing | gfs2/convert/gfs2_convert.c:300-315 | on the way to a block of the tree there are blocks |
| Rebuild.RunEnds | gfs2/convert/gfs2_convert.c:274-342 | a run no longer than a block lies in the blocks of its first and its last cell |
| Rebuild.DigitsFit | gfs2/convert/gfs2_convert.c:259-265 | the digits of a path for which the tree has room fit into 32 bits |
| Rebuild.WrittenBlocks | gfs2/convert/gfs2_convert.c:317-324 | writing a run into a bottom block changes exactly the cells of those logical positions |
| Convert.Converter.WriteRun | gfs2/convert/gfs2_convert.c:298-324 | as much of the run as fits into the bottom block is written, and exactly those cells change; succeeds exactly if then no block is missing on the path, and fails only when none is free |
| Convert.Converter.FixTree | gfs2/convert/gfs2_convert.c:274-342 | exactly the cells asked for are written while the tree grows out of free blocks; blocks are taken for the paths of the two ends only, and it succeeds exactly if then none is missing there |
| Convert.Converter.ListOne | gfs2/convert/gfs2_convert.c:524-579 | one block is listed with its path and pointers, wiped and freed |
| Convert.Converter.GetInodeMetablocks | gfs2/convert/gfs2_convert.c:501-583 | every metadata block of the tree is listed once with its path and pointers, the tree is wiped, and its blocks but the dinode are free |
| TearDown.NotListed | gfs2/convert/gfs2_convert.c:501-583 | no block is met twice |
| TearDown.AllListed | gfs2/convert/gfs2_convert.c:501-583 | every block of the tree is met |
| TearDown.TearOne | gfs2/convert/gfs2_convert.c:524-579 | listing, wiping and freeing one block keeps the state of the tear-down |
| TearDown.OrderedOne | gfs2/convert/gfs2_convert.c:501-583 | a block that is met comes, level by level and from left to right, after all that are listed |
| TearDown.TornFree | gfs2/convert/gfs2_convert.c:501-583 | as many blocks become free as the tree has, less the dinode |
| Convert.Converter.TrimBuffer | gfs2/convert/gfs2_convert.c:604-615 | zeros at both ends of a buffer are skipped, and only those |
| Convert.Converter.FixIndRegOrDir | gfs2/convert/gfs2_convert.c:585-625 | the pointers of one block of the old tree are written at the logical positions they had |
| Remap.SlotPosition | gfs2/convert/gfs2_convert.c:604-620 | the logical position of a slot of a bottom block, and that it is the position with that path |
| Remap.RemappedBottom | gfs2/convert/gfs2_convert.c:585-625 | after the pointers of one more block were moved, exactly the positions of the moved blocks are mapped, to what they were mapped to |
| Remap.RemappedAll | gfs2/convert/gfs2_convert.c:738-757 | when every block was moved, both trees map every position to the same block |
| Remap.FittingIsInside | gfs2/convert/gfs2_convert.c:234-342 | the paths of all mapped positions stay inside the blocks of the new tree if and only if no position at or past its room is mapped |
| Remap.OnlyFittingMaps | gfs2/convert/gfs2_convert.c:697-767 | no tree of that shape at all maps what the inode did unless that is so |
| Remap.MappedPastTheEnd | gfs2/convert/gfs2_convert.c:202-229 | an inode of ten bytes that maps logical block 53, for which the height chosen has no room |
| Remap.EnoughBlocks | gfs2/convert/gfs2_convert.c:274-342 | a tree with blocks at needed paths only has exactly one more block than there are such paths, or at most as many if one is missing |
| Remap.NeededThere | gfs2/convert/gfs2_convert.c:274-342 | a tree that maps what the old one did has a block at every needed path |
| Remap.SparseFails | gfs2/convert/gfs2_convert.c:300-311 | an inode with two pointers in one old block that needs two new blocks, where there is only one |
| Convert.Converter.NothingPastTheEnd | gfs2/convert/gfs2_convert.c:202-229 | an inode that maps nothing past its end fits the height chosen |
| Convert.Converter.AdjustBlock | gfs2/convert/gfs2_convert.c:744-763 | one block of the list is moved if it holds data block pointers |
| Convert.Converter.AdjustRegOrDir | gfs2/convert/gfs2_convert.c:697-767 | the least height that can map the size; every logical block maps to the block it was mapped to; nothing else is written; succeeds exactly if the free blocks and those of the old tree are as many as the new tree needs |
| Convert.Converter.PlaceData | gfs2/convert/gfs2_convert.c:672-685 | the bytes of one data block that are to be copied are written at the offset they had |
| Convert.Converter.MoveData | gfs2/convert/gfs2_convert.c:641-692 | one data block is freed first and rewritten then, and no byte of the file is lost; fails only if there were too few blocks for it when its turn came |
| Convert.Converter.FixIndJdata | gfs2/convert/gfs2_convert.c:627-695 | all data blocks of one block of the old tree are moved, or there were too few blocks for one of them |
| Rebyte.ByteMoved | gfs2/convert/gfs2_convert.c:627-695 | a byte before and after one more block was moved |
| Rebyte.DataMoved | gfs2/convert/gfs2_convert.c:641-692 | freeing, wiping and rewriting a block keeps the state of the whole move, although the freed block may be reused at once |
| Rebyte.MovedBefore | gfs2/convert/gfs2_convert.c:501-583 | the data blocks come in the order in which they are in the file |
| Rebyte.NeededForEnds | gfs2/convert/gfs2_convert.c:429-499 | the blocks that the bytes of one data block need are those on the way to its first and its last byte |
| Rebyte.BalanceOne | gfs2/convert/gfs2_convert.c:429-499 | moving one more data block keeps the count of free and used blocks, and fails exactly if there are too few for it |
| Rebyte.StraddlingFails | gfs2/convert/gfs2_convert.c:446-455 | a file of one data block whose bytes need two new blocks, where there is only one |
| Rebyte.DataFitsIsInside | gfs2/convert/gfs2_convert.c:393-499 | the path of every byte that is copied stays inside the blocks if and only if what is copied has room in the new tree |
| Rebyte.KeptBelow | gfs2/convert/gfs2_convert.c:418-419 | every byte below the end of the file is copied |
| Rebyte.CopiedExactly | gfs2/convert/gfs2_convert.c:418-419 | exactly the bytes below the end of the file are copied if and only if the block does not begin behind the end |
| Rebyte.CopiedBehind | gfs2/convert/gfs2_convert.c:418-419 | a file of ten bytes with a data block behind its end, which is copied whole |
| Rebyte.NothingBehind | gfs2/convert/gfs2_convert.c:418-419 | a file without data blocks behind its end has nothing there afterwards |
| Convert.Converter.NoDataPastTheEnd | gfs2/convert/gfs2_convert.c:202-229 | such a file fits the height chosen, if it is no longer than 2^63 bytes and nine levels are enough for it |
| Convert.Converter.AdjustJdata | gfs2/convert/gfs2_convert.c:627-767 | the least height that can map the size; every byte below the end of the file reads as before; only blocks of the old file and free blocks are written; succeeds exactly if for every data block there are, once it is freed, as many blocks as the bytes copied up to its end need |
| Convert.Converter.AdjustIndirectBlocks | gfs2/convert/gfs2_convert.c:697-767 | for every kind of inode: what needs no conversion is untouched, and otherwise the logical blocks or bytes of the file are the same in a GFS2 tree of the height chosen; exactly when it succeeds, and that it does on a full file system for every file without holes |
| FullDisk.ContiguousFile | gfs2/convert/gfs2_convert.c:381-391 | a regular file or directory without holes needs no block that was free before |
| FullDisk.ContiguousData | gfs2/convert/gfs2_convert.c:381-391 | neither does such a file of journaled data |
| FullDisk.OldBlocks | gfs2/convert/gfs2_convert.c:381-391 | a tree that maps the first positions and no others has a block at every path to them |
| FullDisk.FewerNodes | gfs2/convert/gfs2_convert.c:381-391 | a larger fan-out and fewer levels need fewer blocks |
| FullDisk.NoHigher | gfs2/convert/gfs2_convert.c:202-229 | the new tree of a file without holes is no higher than the old one |
| Heights.CalcGfs2TreeHeight | gfs2/convert/gfs2_convert.c:202-229 | the least height, at least 1, that can map the size |
| Heights.TenLevels | gfs2/convert/gfs2_convert.c:393-414 | that height is below ten if and only if nine levels can map the size |
| Heights.TenLevelsNeeded | gfs2/convert/gfs2_convert.c:393-414 | a size below 2^63 that needs ten levels |
| Heights.RoomFits | gfs2/convert/gfs2_convert.c:243-252 | the numbers of blocks of a tree of the height chosen fit into 64 bits |
| Heights.ByteFactorFits | gfs2/convert/gfs2_convert.c:405-414 | so do the byte factors, for files of at most 2^63 bytes |
| ResourceGroups.ResourceGroup.NextRgMeta | gfs2/convert/gfs2_convert.c:965-995 | the next block in inode state after the last one, or -1 if and only if there is none |
| ResourceGroups.ResourceGroup.FindByte | gfs2/convert/gfs2_convert.c:1083-1101 | walking over the bitmaps with the bytes left to skip finds the entry's place |
| ResourceGroups.ResourceGroup.MarkUsed | gfs2/convert/gfs2_convert.c:1083-1101 | exactly this block's state becomes "used" |
| ResourceGroups.ResourceGroup.RenumberGroup | gfs2/convert/gfs2_convert.c:1022-1111 | every block in inode state is met once, ascending; those that hold an inode are listed, and strays are marked used |
| Heights.WrapTest | gfs2/libgfs2/misc.c:26-33 | dividing the wrapped product gives back the factor exactly if it did not wrap |
| Heights.ComputeHeightsize | gfs2/libgfs2/misc.c:15-37 | the table holds the capacity of every height whose capacity fits into 64 bits, and no more |
| Convert.Converter.LookupBlock | gfs2/libgfs2/fs_ops.c:438-463 | the block a slot points to, newly allocated from the free blocks if the slot is empty, and 0 if there is none |
| Recovery.Journal.RevokeAdd | gfs2/fsck/fs_recovery.c:36-63 | the list keeps, for every block, the position of its latest revoke; the result says whether the block is new |
| Recovery.Journal.RevokeCheck | gfs2/fsck/fs_recovery.c:65-87 | true if and only if 0 < distance of the copy from the tail < distance of the block's latest revoke, counted around the journal |
| Recovery.WhereSet | gfs2/fsck/fs_recovery.c:36-63 | moving a block's entry moves no other block's |
| Recovery.Journal.RevokeBlock | gfs2/fsck/fs_recovery.c:217-229 | the revokes of one block are added, in order, until the count that is decremented before it is tested reaches zero |
| Recovery.Journal.RevokeLoScan | gfs2/fsck/fs_recovery.c:189-240 | in pass 0 the list learns all revokes of the descriptor, up to the first unreadable block; in pass 1 nothing happens |
| Recovery.Journal.ReplayCopy | gfs2/fsck/fs_recovery.c:140-184 | a logged copy is skipped if cancelled, refused if broken, and else written, with an escaped magic number put back |
| Recovery.Journal.BufLoScan | gfs2/fsck/fs_recovery.c:124-187 | in pass 1 the metadata copies of the descriptor are replayed in order, up to the first broken one; which copies these are is in JournalLog.MetadataCopies |
| Recovery.Journal.DatabufLoScan | gfs2/fsck/fs_recovery.c:242-296 | the same for journaled data with its escape flags; which copies these are is in JournalLog.DataCopies |
| Recovery.Journal.ForeachDescriptor | gfs2/fsck/fs_recovery.c:310-388 | the walk from tail to head gathers all revokes in pass 0 and replays all copies in pass 1, in log order, up to the first error |
| Recovery.Journal.ReplayJournal | gfs2/fsck/fs_recovery.c:579-588 | for a walk that ends within as many steps as the journal has blocks, the two passes leave each block holding the last logged copy that no revoke cancels, and otherwise its old contents; a second replay changes nothing. A log of one descriptor is replayed exactly if all announced copies are there, and each announced block then holds the journal block of its last announcement |
| Recovery.OneReplayed | gfs2/fsck/fs_recovery.c:124-296 | a descriptor is replayed exactly if all its copies are there; each announced block then holds the journal block of its last announcement, with an escaped magic number put back, and the other blocks what they held |
| Recovery.OrderlyCancelled | gfs2/fsck/fs_recovery.c:65-87 | in an orderly log a copy is cancelled if and only if some revoke of its block lies later in the log |
| JournalLog.ReplayIsLastLive | gfs2/fsck/fs_recovery.c:579-588 | after the first k copies a block holds the last live one among them, or its old contents |
| JournalLog.ReplayTwice | gfs2/fsck/fs_recovery.c:579-588 | replaying the log a second time changes nothing |
| JournalLog.ReplayAppend | gfs2/fsck/fs_recovery.c:124-296 | replaying two stretches one after the other is replaying their concatenation |
| JournalLog.ReplayOkExactly | gfs2/fsck/fs_recovery.c:140-184 | replaying succeeds if and only if no copy that no revoke cancels is broken |
| JournalLog.MetadataCopies | gfs2/fsck/fs_recovery.c:124-187 | copy i of a metadata descriptor lies 1 + i blocks behind it, around the journal, and belongs to the block whose number is in words 18 + 2i and 19 + 2i, high word first; there are as many as announced |
| JournalLog.DataCopies | gfs2/fsck/fs_recovery.c:242-296 | the same for journaled data, with four words for each copy, of which the last two are the escape flag |
| JournalLog.OtherKinds | gfs2/fsck/fs_recovery.c:124-296 | other descriptors announce no copies, and all but revoke descriptors no revokes |
| JournalLog.RevokesInAre | gfs2/fsck/fs_recovery.c:217-229 | revoke j read in a block is the number in words 2j and 2j + 1 behind its header, high word first |
| JournalLog.RevokeInSlot | gfs2/fsck/fs_recovery.c:189-240 | the revokes of a descriptor are its slots one after the other, block after block: which word of which journal block each of them is |
| JournalLog.RevokesAre | gfs2/fsck/fs_recovery.c:189-240 | every revoke of a descriptor is a number in one of its blocks, and says in which |
| JournalLog.NextIs | gfs2/fsck/fs_recovery.c:334-384 | from a log header the walk goes on one block, from a descriptor by its length, around the journal; anything else is an error |
| JournalLog.WalkFollows | gfs2/fsck/fs_recovery.c:310-388 | a walk over some blocks gathers what those blocks announce, in that order |
| JournalLog.FollowsExists | gfs2/fsck/fs_recovery.c:310-388 | a walk that ends without an error went from block to block to the head |
| JournalLog.CancelledByLater | gfs2/fsck/fs_recovery.c:65-87 | keeping one position per block loses nothing: it decides whether any later revoke exists |
| JournalLog.RevokesInOrder | gfs2/fsck/fs_recovery.c:189-240 | revokes come in log order and lie inside the active log |
| JournalLog.OrderlyEnds | gfs2/fsck/fs_recovery.c:310-388 | a log whose descriptors do not reach past the head is walked to its end |
| JournalLog.EndsExactly | gfs2/fsck/fs_recovery.c:370-386 | the walk over the log ends at all if and only if it ends within as many steps as the journal has blocks |
| JournalLog.VisitedOnce | gfs2/fsck/fs_recovery.c:370-386 | a walk that needs n steps is at n different positions |
| JournalLog.EmptyDescriptorLoops | gfs2/fsck/fs_recovery.c:370-386 | a descriptor of length zero is never left, whatever the number of steps |
| JournalLog.JumpingLoops | gfs2/fsck/fs_recovery.c:370-386 | a log of two descriptors of length two whose walk never ends |
| JournalLog.RevokedThough | gfs2/fsck/fs_recovery.c:205-236 | a descriptor that announces no revoke, one of whose slots is read as one |
| JournalLog.AnnouncedRevokesRead | gfs2/fsck/fs_recovery.c:205-236 | the scan reads as many revokes as announced if and only if the last block is needed for them and enough |
| JournalLog.EverySlotRead | gfs2/fsck/fs_recovery.c:205-236 | a count of zero, or one beyond all slots, makes the scan take every slot for a revoke |
| JournalSequence.CheckJournalSeqNo | gfs2/fsck/fs_recovery.c:397-450 | each reported header gets one more than the highest number seen; the others stay; the number of reports, or zero after a repair, is returned; nothing is reported if and only if the journal is healthy, and then nothing changes |
| JournalSequence.RepairedIsClean | gfs2/fsck/fs_recovery.c:397-450 | after a repair a second run without repair reports nothing, even where renumbered headers no longer count as headers |
| JournalSequence.RepairedOrder | gfs2/fsck/fs_recovery.c:397-450 | the repaired numbers increase strictly, apart from at most one drop to the lowest number seen so far |
| JournalSequence.OnlyReportedChange | gfs2/fsck/fs_recovery.c:397-450 | headers that were not reported keep their numbers; the others get higher ones than any before them |
| JournalSequence.HealthyIsClean | gfs2/fsck/fs_recovery.c:397-450 | nothing is reported if and only if the numbers increase apart from at most one drop, to a number as low as any before it; and then a repair changes nothing |
| JournalSequence.RenumberedExactly | gfs2/fsck/fs_recovery.c:397-450 | a header is renumbered if and only if it is no higher than the last header before it, as repaired, and the numbers have gone down before or some number before it was lower |
| JournalSequence.NewNumber | gfs2/fsck/fs_recovery.c:397-450 | it gets one more than the highest number read or written before, its own old one included |
| JournalLog.AdvanceDistance | gfs2/libgfs2/recovery.c:17-23 | stepping through the journal adds to the distance from the tail, across the wrap |
| JournalLog.AdvanceIs | gfs2/libgfs2/recovery.c:17-23 | k steps through the journal add k, modulo its size |
| FsBits.SearchBit | gfs2/libgfs2/fs_bits.c:41-56 | xor, shift and mask on a 64-bit word: bit 2j is set exactly if entry j is in the wanted state and the mask lets it through |
| FsBits.FirstWord | gfs2/libgfs2/fs_bits.c:76-82 | the shifted mask lets through the entries from the goal on |
| FsBits.BitFit | gfs2/libgfs2/fs_bits.c:67-99 | the first entry at or after the goal in the wanted state, or BFITNOENT if and only if there is none below 4 * len, for every len and state; 0 for a state over 3 |
| ResourceGroups.ResourceGroup.ScanBits | gfs2/libgfs2/fs_bits.c:139-145 | the scan over the bitmaps finds the byte of the block |
| ResourceGroups.ResourceGroup.SetBitmap | gfs2/libgfs2/fs_bits.c:126-160 | exactly the state of this block becomes the given one, and -1 with nothing changed for a bad state or block |
| ResourceGroups.ResourceGroup.GetBitmap | gfs2/libgfs2/fs_bits.c:177-216 | the state of the block, and -1 outside the group |
| ResourceGroups.ResourceGroup.RangeTestExact | gfs2/libgfs2/fs_bits.c:184-187 | the range test rejects every block without an entry if and only if the group starts at address 0 |
| ResourceGroups.ResourceGroup.LetThrough | gfs2/libgfs2/fs_bits.c:184-187 | exactly which blocks without an entry the range test lets through, and that there is one in every group that starts behind address 0 |
| ResourceGroups.ResourceGroup.Located | gfs2/libgfs2/fs_bits.c:189-213 | both ways of reading, in the first block and by division, end up at the entry |
| Bitmaps.PlaceIs | gfs2/libgfs2/fs_bits.c:126-216 | an entry has one place, so every locator that finds a place that fits finds this one |
| Bitmaps.OnePlace | gfs2/libgfs2/fs_bits.c:126-216 | two blocks share a place if and only if they share a byte of the whole bitmap |
| Bitmaps.DivisionSits | gfs2/libgfs2/fs_bits.c:189-213 | the locator by shift and division finds that place |
| Bitmaps.StateSet | gfs2/libgfs2/fs_bits.c:126-160 | writing one entry changes the state of that block and no other's |
| ResourceGroups.ComputeBitstructs | gfs2/libgfs2/rgrp.c:15-79 | fails exactly when the numbers disagree; the layout covers every block once when the last bitmap gets something that fits into its block |
| Bitmaps.StartIs | gfs2/libgfs2/rgrp.c:15-30 | where the bitmap of each block starts, the first one being shorter |
| Pass5.CheckBlock | gfs2/fsck/pass5.c:40-127 | one entry is counted and made to agree with the blockmap |
| Pass5.CheckBlockStatus | gfs2/fsck/pass5.c:17-127 | after one block of the bitmap all its entries agree with the blockmap and are counted |
| Pass5.UpdateRgrp | gfs2/fsck/pass5.c:129-202 | with repairs accepted every entry is the blockmap's type, but free for an unlinked inode; the counters are the numbers of free entries and inodes, and the counts sum to the blocks |
| Pass5.CountAll | gfs2/fsck/pass5.c:129-202 | the entries in the four states add up to all entries |
| Pass5.CountIsSize | gfs2/fsck/pass5.c:129-202 | the count of a state is the number of entries in it |
| Pass5.CountUpdate | gfs2/fsck/pass5.c:40-127 | changing one entry moves two counts by one |
| Pass5.CheckNFixBitmap | gfs2/fsck/metawalk.c:32-161 | which entry changes, what is returned, and that the free counter moves with the number of free entries; the inode counter drifts in exactly two cases |
| Pass5.InodeAgain | gfs2/fsck/metawalk.c:110-150 | an unlinked inode that becomes an inode again makes a counter that was right one too small |
| Pass5.CheckNFixAll | gfs2/fsck/metawalk.c:32-161 | any run of requests keeps the free counter minus the number of free entries, modulo 2^32 |
| Metawalk.Walk.ReportDataError | gfs2/fsck/metawalk.c:1344-1383 | the first error is noted, and a fatal one replaces a non-fatal one |
| Metawalk.Walk.MetawalkCheckData | gfs2/fsck/metawalk.c:1398-1435 | every pointer of the block is checked in order, up to a fatal error; the error and its place are noted |
| Metawalk.Walk.UndoCheckData | gfs2/fsck/metawalk.c:1437-1494 | the undo calls for one block stop before the pointer that failed fatally, and cover the whole block otherwise |
| Metawalk.Walk.CheckBlocks | gfs2/fsck/metawalk.c:1555-1585 | checking ends with the first block that has an error |
| Metawalk.Walk.UndoBlocks | gfs2/fsck/metawalk.c:1586-1628 | blocks are undone in order, up to the block of the error |
| Metawalk.Walk.CheckMetatree | gfs2/fsck/metawalk.c:1555-1628 | after an error the undo calls are the check calls in the same order: all of them if it is not fatal, all but the failing one if it is |
| Metawalk.CallsAre | gfs2/fsck/metawalk.c:1398-1435 | there is one call for each pointer that is not null in a block of the right type, with that block, its slot and the pointer |
| Metawalk.CallsInOrder | gfs2/fsck/metawalk.c:1398-1435 | the calls come block after block, and in each block from the first slot to the last |
| HashTable.Directory.WriteNewLeaf | gfs2/fsck/pass2.c:932-1017 | a power of two of copies gets one new leaf of matching depth, and nothing else changes; any other number is refused, and so is every number when no block is free |
| HashTable.Directory.FitLength | gfs2/fsck/pass2.c:1039-1052 | the longest aligned power of two that fits |
| HashTable.Directory.PadWithLeafblks | gfs2/fsck/pass2.c:1026-1066 | with as many free blocks as there are runs to cut, ends; the runs follow each other from the start of the gap to its end, each as long as an aligned power of two can be there, with its own new leaf of matching depth; the rest of the table is untouched |
| Dyadic.LongestExactly | gfs2/fsck/pass2.c:1039-1052 | the longest run is a power of two that fits and divides its start, and no larger one does both |
| Dyadic.GreedyIsCut | gfs2/fsck/pass2.c:1026-1066 | taking the longest run again and again is a cut of the gap |
| Dyadic.GreedyIsOnly | gfs2/fsck/pass2.c:1026-1066 | there is only one cut of that kind |
| Dyadic.GreedyIsShortest | gfs2/fsck/pass2.c:1026-1066 | no cut into aligned powers of two uses fewer leaves |
| HashTable.MeasureRun | gfs2/fsck/pass2.c:1604-1640 | the length of the run of equal pointers, and of the longest aligned power of two at its start; they agree exactly if the run is one |
| HashTable.CheckHashTbl | gfs2/fsck/pass2.c:1592-1766 | gets through without a finding if and only if every maximal run of a pointer has a power of two as its length that divides its start, the pointer is valid, and a leaf is in no other run |
| HashTable.CleanExactly | gfs2/fsck/pass2.c:1592-1766 | that the runs are so one after the other is the same as every maximal run being so |
| HashTable.CheckHashTblDups | gfs2/fsck/pass2.c:1473-1569 | something is repaired if and only if the pointer is a leaf that has another run: the hash of its first entry never fits both |
| HashTable.CheckLeafDepth | gfs2/fsck/pass2.c:247-285 | the depth becomes the table's depth less log2 of the number of references, and -1 exactly if that is negative |
| HashTable.RunStarts | gfs2/fsck/pass2.c:1592-1766 | in such a table every index lies in one run of its own pointer, and a leaf has no other |
| HashTable.HashWindow | gfs2/fsck/pass2.c:234-245 | in such a table the window of a leaf whose depth matches the length of its run accepts exactly the hashes that are looked up in it |
| HashTable.HashPrefix | gfs2/fsck/pass2.c:234-245 | these are the hashes sharing the first bits, as many as the leaf's depth |
| Savemeta.Writer.SaveBuf | gfs2/edit/savemeta.c:535-567 | the stream grows by one record, ten header bytes with address and length most significant byte first and the bytes without trailing zeros, and by nothing for an all-zero block |
| Savemeta.BigEndianBack | gfs2/edit/savemeta.c:535-567 | the numbers of a record header can be read back |
| Savemeta.BigEndianAt | gfs2/edit/savemeta.c:554-555 | byte i of an n-byte number stands for 256^(n - 1 - i) |
| Savemeta.FirstCountsMost | gfs2/edit/savemeta.c:1223-1224 | the first byte of a number that is read counts most |
| Savemeta.RecordBytes | gfs2/edit/savemeta.c:535-567 | a record byte by byte |
| Savemeta.HeaderRead | gfs2/edit/savemeta.c:1214-1250 | address and length of a record that is read, as sums of its bytes |
| Savemeta.RecordHeader | gfs2/edit/savemeta.c:535-567 | the header gives back address and length, unless the length is 65536, which does not fit |
| Savemeta.Restorer.RestoreBufNext | gfs2/edit/savemeta.c:74-90 | the next bytes of the stream, however the reads were cut; fails exactly when the buffer and one more read do not hold enough |
| Savemeta.Restorer.Refill | gfs2/edit/savemeta.c:74-90 | moving the rest to the front and reading on loses no byte |
| Savemeta.Restorer.RestoreBlock | gfs2/edit/savemeta.c:1214-1250 | the address from the first eight bytes, most significant byte first, the length from the next two, and the bytes of the next record of any stream, if it is whole and neither past the device nor longer than a block |
| Savemeta.Restorer.RestoreData | gfs2/edit/savemeta.c:1273-1325 | for any stream, every record up to the first bad or cut one is written in order, zero-padded to a block; and exactly when an error is returned; with full reads the stream alone tells whether a bad record counts as an error |
| Savemeta.ShortStream | gfs2/edit/savemeta.c:1288-1296 | the end of a stream shorter than the buffer is always seen, so that no bad record in it counts as an error |
| Savemeta.LongRest | gfs2/edit/savemeta.c:1288-1296 | it is not seen before a bad record from which on the stream could fill the buffer, so that this one does |
| Savemeta.BadRecordAtTheEnd | gfs2/edit/savemeta.c:1288-1296 | a stream of one record past the end of the device is restored without an error and without a block |
| Savemeta.RecordRead | gfs2/edit/savemeta.c:1214-1250 | a record that was saved is read back as it was |
| Savemeta.SavedIsRestored | gfs2/edit/savemeta.c:1273-1325 | from any record on, a saved stream is restored to its end |
| Savemeta.RoundTrip | gfs2/edit/savemeta.c:1273-1325 | restoring what was saved writes, for each record in order, the saved bytes padded to a block, and leaves nothing of the stream |
| Savemeta.RestoredBlocks | gfs2/edit/savemeta.c:1273-1325 | when no block is saved twice the restored device holds every saved block, and zeros elsewhere |
| Savemeta.TrimPadded | gfs2/edit/savemeta.c:535-567 | trimmed zeros come back as zeros |
| Savemeta.SaveIndirectBlocks | gfs2/edit/savemeta.c:758-797 | the ranges expand to exactly the non-zero pointers with adjacent repeats removed, so a block is in one if and only if it is pointed to, and no two ranges could be one |
| Savemeta.PointersAre | gfs2/edit/savemeta.c:765-795 | those are the non-zero pointers, and none repeats the one before |
| Savemeta.PointersKept | gfs2/edit/savemeta.c:765-795 | pointers without zeros and adjacent repeats are kept as they are |
| Savemeta.PointersWithout | gfs2/edit/savemeta.c:765-795 | a zero, or a repeat of the pointer before it, makes no difference |
| Links.Bmap.Link1Set | gfs2/fsck/link.c:21-36 | exactly this block's bit is set or cleared, and refused past the end of the map |
| Links.LinkTables.SetDiNlink | gfs2/fsck/link.c:38-71 | the count on disk is stored for this inode alone, in a record that has its numbers if there was none; all other numbers stay; exactly when each count stays in one place |
| Links.SeenTwice | gfs2/fsck/link.c:38-71 | an inode seen with two links and then with one has its count in two places |
| Links.LinkTables.IncrLinkCount | gfs2/fsck/link.c:81-147 | exactly one more reference, unless the inode does not match; a record it adds has the number on disk, no number ever changes, and no count is ever kept in two places |
| Links.LinkTables.DecrLinkCount | gfs2/fsck/link.c:155-200 | exactly one reference less, floored at zero |
| Links.LinkTables.Run | gfs2/fsck/link.c:81-200 | any run of increments and decrements acts on one plain map from inodes to counts |
| Links.LinkTables.IncrAll | gfs2/fsck/link.c:81-147 | references with the formal number of the inode are never a mismatch: any run of them adds its length to the count |
| Links.LinkTables.SeenAndReferenced | gfs2/fsck/link.c:38-147 | an inode that is seen and then referenced n times has the count n, whatever its link count |
| Links.LinkTables.ScanInodeList | gfs2/fsck/pass4.c:126-208 | exactly the inodes without references and those with another count than on disk are reported, and the latter corrected |
| Links.LinkTables.ScanNlink1List | gfs2/fsck/pass4.c:242-266 | exactly the inodes with one link and no reference are reported, short of the last block |
| Links.LinkTables.ScanNonDirectories | gfs2/fsck/pass4.c:174-266 | a non-directory that was seen is reported if and only if its count is zero or differs from its link count, but for the last block; afterwards counts and link counts agree |
| Pass3.Pass.MarkAndReturnParent | gfs2/fsck/pass3.c:57-153 | the parent is that of the tree walk exactly if it is a directory and it, or another directory in "..", is an inode; what ".." becomes, and that the directory is marked |
| Pass3.Pass.Relink | gfs2/fsck/pass3.c:231-299 | what is no inode or is empty is cleared, and leaves the directory tree exactly if it was an unlinked or an empty inode; any other directory but lost+found is relinked |
| Pass3.ClimbOn | gfs2/fsck/pass3.c:212-228 | marking a directory and going on from its parent changes neither where the climb stops nor whether it deletes that directory |
| Pass3.Pass.Climb | gfs2/fsck/pass3.c:212-302 | at most the directory at which the climb stops is relinked, cleared or deleted, and exactly when it is deleted; the start is checked at the end, and done directories stay as they are |
| Pass3.Pass.WalkTurn | gfs2/fsck/pass3.c:211-302 | one turn of the loop leaves all directories before the next one checked, and deletes the next one exactly if the climb stops there for want of a parent and it is unlinked or empty |
| Pass3.Pass.Pass3 | gfs2/fsck/pass3.c:161-309 | the walk gets through the tree exactly if no climb deletes the directory that comes next; then every directory left is checked, and is an end of a way up or agrees with a parent; one whose tree walk named no inode and whose ".." named no other directory that was one is relinked, cleared or an end, unless one of them named lost+found; directories that are each other's parents are never relinked |
| Pass3.ParentThen | gfs2/fsck/pass3.c:57-153 | a directory that has a parent when its turn comes had one when the pass began (its tree walk named an inode, or its ".." another directory that was one), or one of the two names lost+found |
| Pass3.StepOut | gfs2/fsck/pass3.c:231-302 | clearing, deleting or relinking a directory keeps all others done, and happens only where the way up was cut |
| Pass3.WayUp | gfs2/fsck/pass3.c:161-309 | every way up ends at root, the master directory, lost+found, or a relinked or cleared directory, or runs into a cycle |
| Pass3.NextIsDeleted | gfs2/fsck/pass3.c:211-212 | a tree of three directories in which the first climb deletes the directory the loop goes on with |
| Pass3.ParentIsDeleted | gfs2/fsck/pass3.c:57-153 | a directory that counts as connected to a parent that its own climb deletes |
| Pass3.OrphanIsMoved | gfs2/fsck/pass3.c:57-153 | a directory below an unlinked inode that both links name is relinked or cleared |
| Pass3.ParentsOfEachOther | gfs2/fsck/pass3.c:212-303 | two directories that are each other's parents stay where they are |
| Pass3.Pass.SetFree | gfs2/fsck/metawalk.c:70-110 | the block is free afterwards, and an inode or unlinked inode is taken out of the directory tree |
| Pass3.Pass.MakeSureLfExists | gfs2/fsck/lost_n_found.c:93-163 | lost+found counts as connected; it is added to the tree and marked an inode exactly if the root has no entry for it; nothing else changes |
| CrcTables.Crc32TabIs | gfs2/libgfs2/gfs2_disk_hash.c:6-46 | every entry is what eight bits of the reflected CRC-32 polynomial make of its index |
| Crc.Gfs2DiskHash | gfs2/libgfs2/gfs2_disk_hash.c:62-72 | the hash is the bit-at-a-time CRC-32 of the data (section 8 of RFC 1952), and 0 without any |
| Crc.Crc32Check | gfs2/libgfs2/gfs2_disk_hash.c:62-72 | the check value of CRC-32: the digits 1 to 9 hash to 0xCBF43926, and no bytes to 0 |
| Crc.Crc32Chains | gfs2/libgfs2/gfs2_disk_hash.c:62-72 | the hash of a concatenation continues from the hash of its first part |
| Crc.NoBurstCollision | gfs2/libgfs2/gfs2_disk_hash.c:62-72 | for any polynomial with its highest bit set, inputs that differ only inside four consecutive bytes have different CRCs |
| Crc.NoDiskHashCollision | gfs2/libgfs2/gfs2_disk_hash.c:62-72 | so two names that differ only inside four consecutive bytes never have the same hash |
| CrcTables.Crc32cTableIs | gfs2/libgfs2/crc32c.c:134-204 | every entry is what eight bits of the reflected CRC32C polynomial make of its index |
| Crc.Crc32cLe | gfs2/libgfs2/crc32c.c:206-212 | the result is the bit-at-a-time CRC32C register after the data (section 12.1 of RFC 3720) |
| Crc.Crc32cCheck | gfs2/libgfs2/crc32c.c:206-212 | the check value of CRC32C: the digits 1 to 9 give the complement of 0xE3069283 |
| Crc.RegisterChains | gfs2/libgfs2/crc32c.c:206-212 | continuing with the register of a first part gives the register of the whole |
| Crc.NoCrc32cCollision | gfs2/libgfs2/crc32c.c:206-212 | inputs that differ only inside four consecutive bytes never have the same CRC32C |

## Findings

Where the code does not do what it is for, the model keeps the code as it is and says exactly when it does.

* `gfs2/convert/gfs2_convert.c:202-229` chooses the height of the new tree by the size alone. A position that is mapped at or
  past the room of that tree gets a path outside the dinode, and the copy goes past the block.
  `Remap.MappedPastTheEnd` is such an inode. `Remap.FittingIsInside` says that all paths stay inside exactly if no
  such position is mapped, and `Remap.OnlyFittingMaps` that no tree of that height could map it. The block map is
  preserved for all other inodes, with blocks past the end of the file or without
  (`Convert.Converter.AdjustRegOrDir`).
* `gfs2/convert/gfs2_convert.c:418-419` subtracts unsigned, so a block of journaled data that begins behind the end of the file is
  copied whole. `Convert.Converter.AdjustJdata` says byte by byte what is in the new file; below the end of the file
  it is always the old byte. `Rebyte.CopiedExactly` says that only such blocks are copied beyond the end, and
  `Rebyte.CopiedBehind` gives a file. There is room for it exactly as `Rebyte.DataFitsIsInside` says.
* `gfs2/convert/gfs2_convert.c:393-414` indexes a table of ten factors with the new height. A file that needs ten levels uses
  entry 10. By `Heights.TenLevels` these are exactly the files that nine levels cannot map;
  `Heights.TenLevelsNeeded` gives the size of one. `Heights.ByteFactorFits` shows that the factors do not wrap around
  for files of at most 2^63 bytes.
* `gfs2/convert/gfs2_convert.c:300-311` goes on with the block above when no block is free. The conversion of a regular file or
  directory runs into this exactly if it has fewer free blocks, its own old ones included, than the new tree needs
  (`Convert.Converter.AdjustRegOrDir`). `Remap.SparseFails` is such an inode; by `FullDisk.ContiguousFile` it must have
  holes.
* `gfs2/convert/gfs2_convert.c:429-499` does the same for journaled data. It runs into this exactly if for some data block there
  are, when it was freed, fewer blocks than the bytes up to its end need (`Convert.Converter.AdjustJdata`): the blocks
  become free one by one, in the order of the file. `Rebyte.StraddlingFails` is such a file; by
  `FullDisk.ContiguousData` it must have holes. So a full file system whose files have none is converted, as the
  comment at lines 381-391 hopes for.
* `gfs2/libgfs2/fs_bits.c:184-187` compares an offset into the group with an address. The test is right if and only if the group
  starts at address 0 (`ResourceGroups.ResourceGroup.RangeTestExact`). Which blocks it lets through, and one of them
  for every other group, is in `ResourceGroups.ResourceGroup.LetThrough`.
* `gfs2/libgfs2/fs_bits.c:126-160` has no test for a block past the end of the group: the scan of the bitmaps ends at the last
  one, and the entry written is behind it. `ResourceGroups.ResourceGroup.SetBitmap` is modelled for all other blocks.
* `gfs2/fsck/fs_recovery.c:205-236` decrements the number of revokes before testing it. The scan reads as many revokes as
  announced if and only if the last block is needed for them and enough (`JournalLog.AnnouncedRevokesRead`).
  `JournalLog.RevokedThough` is a log that announces none.
* `gfs2/fsck/fs_recovery.c:370-386` walks the log from descriptor to descriptor until it is exactly at the head. It ends if and only
  if it does so within as many steps as the journal has blocks (`JournalLog.EndsExactly`); an orderly log does
  (`JournalLog.OrderlyEnds`). It never ends at a descriptor of length zero (`JournalLog.EmptyDescriptorLoops`), nor in
  the log of `JournalLog.JumpingLoops`, whose descriptors step over the head again and again.
* `gfs2/fsck/fs_recovery.c:397-450` changes the number of a header and leaves its checksum. A second run reports nothing
  whether or not such headers still count as headers (`JournalSequence.RepairedIsClean`).
* `gfs2/edit/savemeta.c:535-567` stores the length in 16 bits; it comes back unless it is 65536 (`Savemeta.RecordHeader`).
* `gfs2/edit/savemeta.c:74-90` gives up when one read delivers fewer bytes than are missing, although more may
  follow. Exactly when is in the contract of `Savemeta.Restorer.RestoreBufNext`.
* `gfs2/fsck/metawalk.c:110-150`: the inode counter of a group does not follow its entries when an unlinked inode becomes an
  inode again, or when it is zero already (`Pass5.Drift`, in the contract of `Pass5.CheckNFixBitmap`; `Pass5.InodeAgain` for any unlinked inode).
* `gfs2/edit/savemeta.c:1288-1296` takes a record that is past the device, or too long, for the end of the stream if the reader has
  seen that end already; the restore then succeeds without it, and without what follows. With reads that deliver all
  they are asked for this depends on the stream alone (`Savemeta.SeenEnd`, in the contract of
  `Savemeta.Restorer.RestoreData`): the end was seen if the buffer was refilled with
  fewer bytes to come than it has room for.
  So a bad record is never an error in a stream shorter than the buffer (`Savemeta.ShortStream`, and
  `Savemeta.BadRecordAtTheEnd` for a stream), and always one when at least the size of the buffer is left from it on
  (`Savemeta.LongRest`). A stream that ends inside a record is no error either.
* `gfs2/fsck/pass4.c:242-266` stops short of the last block of the file system (`Links.LinkTables.ScanNonDirectories`).
* `gfs2/fsck/link.c:38-71` may keep a count in two places for an inode that was seen before with another kind of count; exactly
  when is in the contract of `Links.LinkTables.SetDiNlink`, and `Links.SeenTwice` is such an inode.
* `gfs2/fsck/pass3.c:212-303`: directories that are each other's parents count as connected, and none of them is ever relinked
  (`Pass3.Pass.Pass3`; `Pass3.ParentsOfEachOther` are two).
* `gfs2/fsck/pass3.c:211-212` looks up the next directory before it climbs from this one. Clearing an unlinked or empty directory
  deletes it from the tree (`gfs2/fsck/metawalk.c:93-101`), and if it is that next one the loop reads a node that was
  freed. That happens exactly in a turn whose climb stops, for want of a parent, at the very next directory, and finds
  it unlinked or empty (`Pass3.Dangles`, in the contract of `Pass3.Pass.Pass3`); never if no directory is unlinked or
  empty. `Pass3.NextIsDeleted` is a tree in which it does.
* `gfs2/fsck/pass3.c:57-153`: where ".." and the tree walk name two directories the tree walk wins, though it may name an unlinked
  inode. The climb then deletes that one, and the directory below counts as connected to it
  (`Pass3.ParentIsDeleted`). That is why `Pass3.Done` speaks of cleared parents.
* `gfs2/fsck/pass2.c:1592-1766`: one of the alignment tests can never fail, as an assertion in `HashTable.CheckHashTbl` shows.

## Left out

- Convert.Converter.AdjustRegOrDir: what the code writes after the allocator ran out, and inodes that map positions the new tree has no room for, are not modelled; both leave the blocks the code should stay in.
- Convert.Converter.AdjustJdata: files that need ten levels, or whose byte factors wrap around, are not modelled beyond the finding above.
- Recovery.Journal.BufLoScan: the copies of resource group headers kept in memory are not refreshed.
- Recovery.Journal.ReplayJournal: walks that never end, and descriptors without room for what they announce, where the code reads past them; journal blocks are not among the replayed ones.
- Pass5.CheckNFixBitmap: blocks that the wrong range test lets through are excluded, because the code then reads outside the bitmaps.
- ResourceGroups.ResourceGroup.GetBitmap: the same, and a bitmap that was not read.
- ResourceGroups.ResourceGroup.RenumberGroup: allocations that adjusting an inode makes while the group is scanned, and that the rindex and jindex inodes are skipped.
- HashTable.CheckHashTbl: the repairs after a finding (fix_hashtable, lost_leaf, check_leaf).
- HashTable.Directory.PadWithLeafblks: padding without enough free blocks, where the code ignores the failure and uses an old or undefined block number.
- Savemeta.Restorer.RestoreData: compression, the scan for the header and superblock, and printing only.
- Metawalk.Walk.CheckMetatree: the undoing of metadata, and undo callbacks that fail.
- Links.LinkTables.IncrLinkCount: addresses past the end of the bit maps, where the code reads outside them; the same for the other operations.
- Links.LinkTables.ScanNonDirectories: directories, and what becomes of unlinked inodes.
- Pass3.Pass.Pass3: link counts of lost+found and of parents, failing to create lost+found, and what the loop does after it read a freed node.
- JournalSequence.CheckJournalSeqNo: numbers near 2^64, and blocks that cannot be read.
- OsiTree.OsiRoot: the colour packed into the low bits of the parent pointer is a field of its own.
- Blocks: metadata is in 8-byte words and data in bytes; byte order is not modelled but for the record header.
- Failing memory allocation, I/O errors, signals, skipped passes, questions answered "no", and messages.
- The goal block for the next allocation, and writing the headers of resource groups out.
- GFS1 branches of the checks, and the inline-assembly CRC.
- Log header checksums, the search for the journal head, and cleaning the journal.
