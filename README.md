# ext2 image dump and consistency check

This project models two programs with Dafny and proves properties of the models.

- **The dumper** (`lab3a.c`) reads an ext2 file-system image. It decodes:
  - the superblock;
  - the block-group descriptor table;
  - the block and inode allocation bitmaps;
  - the allocated inodes;
  - the entries of every directory.

  Each of these becomes one CSV record stream.
- **The checker** (`lab3b.py`) reads those record streams back and reports anomalies:
  - blocks that are referenced but also free;
  - blocks referenced more than once;
  - directory entries naming unallocated inodes;
  - unreferenced inodes missing from the free list;
  - wrong link counts;
  - `.` and `..` entries that link to the wrong inode.

The image is a `seq<byte>`, with `byte` a newtype of 0..255. A `pread` of `n` bytes at offset `o` is the slice `img[o..o+n]`. Each read requires that slice to lie inside the image.

The dumper's output files are sequences of record values:
- `SuperBlock`;
- `GroupDesc`;
- `FreeRow` (the bitmap id and the free number);
- `InodeRecord`;
- `DirEntry`.

The checker consumes exactly these values. Its `Inode`, `Block`, `inodeRef` and `blockRef` objects are datatypes. Its dictionaries are maps whose values are replaced on update. Each dictionary value is a fresh object reachable only from its own key, so nothing is lost by modelling them as values.

The modules follow the two programs' sections:

| module | file | models |
|---|---|---|
| `Bytes` | bytes.dfy | little-endian assembly of bytes, shifts, two's-complement reading |
| `Superblock` | superblock.dfy | the superblock fields, block and fragment sizes, `compute_offset` |
| `Groups` | groups.dfy | `DESCRIPTOR_COUNT` and the descriptor table |
| `Bitmaps` | bitmaps.dfy | the free-block and free-inode scan of both bitmaps |
| `Inodes` | inodes.dfy | the inode-bitmap scan and the decoding of an inode slot |
| `Directories` | directories.dfy | the directory walker: the entry chain of each block and the name read |
| `Checker` | checker.dfy | the checker's tables, its entry pass and its reports |

Loops of the source are methods with `while` loops. Each method is proved equal to a specification function of its inputs. The properties are lemmas about those functions.

The checker iterates Python dictionaries. This iteration order appears in the model as a parameter: `inodeOrder` and `blockOrder`, each listing every key exactly once (`Enumerates`). Report sequences depend on these orders. Membership and count lemmas are proved for every order.

## Model

| member | source | states |
|---|---|---|
| `Bytes.LE16` | lab3a.c:96 | a two-byte little-endian value is below 2^16 |
| `Bytes.LE32` | lab3a.c:107 | a four-byte little-endian value is below 2^32 |
| `Bytes.DecodeEncode16` | lab3a.c:96 | decoding the little-endian encoding of a 16-bit value gives the value back |
| `Bytes.EncodeDecode16` | lab3a.c:96 | re-encoding a decoded 16-bit field gives back the two bytes read |
| `Bytes.DecodeEncode32` | lab3a.c:107 | decoding the little-endian encoding of a 32-bit value gives the value back |
| `Bytes.EncodeDecode32` | lab3a.c:107 | re-encoding a decoded 32-bit field gives back the four bytes read |
| `Bytes.Signed32` | lab3a.c:143 | the 32-bit fragment-size field read into an `int` is its two's-complement value: in range, congruent mod 2^32, negative exactly when bit 31 is set |
| `Bytes.ShiftRightIsDivision` | lab3a.c:147 | `x >> n` is the floor of `x / 2^n` |
| `Bytes.ShiftRightOfPow2` | lab3a.c:147 | `2^a >> n == 2^(a-n)` for `n <= a` |
| `Bytes.ShiftRightSmall` | lab3a.c:147 | shifting out every set bit gives 0 |
| `Superblock.DecodeSuperblock` | lab3a.c:87-201 | the magic number fits 16 bits; the other counts fit 32 bits; the block size is a positive multiple of 1024; the fragment size is not negative |
| `Superblock.SuperblockIsLocal` | lab3a.c:87-201 | the superblock depends only on image bytes 1024 to 1081 |
| `Superblock.SuperblockFieldLayout` | lab3a.c:87-201 | each field is the little-endian value at 1024 plus its offset: the counts at 1024, 1028, 1044, 1056, 1060 and 1064, the block size from the exponent at 1048, the fragment size from the signed exponent at 1052, the magic number at 1080 |
| `Superblock.BlockSizeOf` | lab3a.c:130-131 | `1024 << s` is at least 1024 and a multiple of 1024 |
| `Superblock.FragmentSizeOf` | lab3a.c:143-147 | the fragment size is never negative, and for a non-negative exponent it is a positive multiple of 1024 |
| `Superblock.ComputeOffset` | lab3a.c:49-51 | block numbers from 1 on start at or after byte 1024; block numbers below 1 start at least one block before it |
| `Superblock.BlockSizeDoubles` | lab3a.c:131 | the block size is 1024 for exponent 0 and doubles with each increment |
| `Superblock.FragmentSizeExamples` | lab3a.c:143-147 | exponent 2 gives 4096, exponent -2 gives 256, exponent 0 gives 1024 |
| `Superblock.FragmentSizeSignRule` | lab3a.c:143-147 | a non-negative exponent shifts left like the block size; a negative one divides 1024 by 2^-s, reaching 0 below -10 |
| `Superblock.OffsetOfFirstBlock` | lab3a.c:49-51 | block 1 starts at byte 1024 |
| `Superblock.OffsetStep` | lab3a.c:49-51 | consecutive blocks start one block size apart |
| `Superblock.OffsetsDisjoint` | lab3a.c:49-51 | a block ends at or before the start of any later block |
| `Groups.GroupCount` | lab3a.c:226 | the descriptor count, computed in unsigned 32-bit arithmetic, is below 2^32 |
| `Groups.GroupCountIsCeiling` | lab3a.c:226 | for a non-empty file system the count is the ceiling of block_total / blocks_per_group, and the least number of groups covering every block |
| `Groups.GroupCountOfEmptyImage` | lab3a.c:226 | for block_total 0 the wrapped subtraction gives 0 groups when blocks_per_group is 1, and `1 + (2^32-1)/bpg` groups otherwise |
| `Groups.ContainedBlocks` | lab3a.c:242-245 | a group never contains more than blocks_per_group blocks, and every group but the last contains exactly that many |
| `Groups.DecodeGroup` | lab3a.c:241-306 | the decoded descriptor contains at most blocks_per_group blocks, its three counts fit 16 bits and its three block ids fit 32 bits; where each field is read is `Groups.DescriptorFieldOffsets` |
| `Groups.GroupTable` | lab3a.c:239-307 | one descriptor per group |
| `Groups.ReadGroupDescriptors` | lab3a.c:226-307 | the filled array is a fresh array equal to the descriptor table |
| `Groups.DescriptorFieldOffsets` | lab3a.c:251-305 | each descriptor field is read little-endian at 1024 + block_size + 32*i plus its offset (0, 4, 8, 12, 14, 16) |
| `Groups.ContainedBlocksRule` | lab3a.c:242-245 | every group but the last contains blocks_per_group blocks; the last contains block_total mod blocks_per_group, which is 0 for an exact multiple |
| `Groups.ContainedBlocksSum` | lab3a.c:242-245 | the contained blocks add up to block_total, except for an exact multiple, where one group's worth is missing |
| `Bitmaps.ClearBitsIncreasing` | lab3a.c:346-354 | the free numbers of a bitmap lie in (base, base+m] and strictly increase |
| `Bitmaps.ClearBitsMembers` | lab3a.c:346-354 | a number is listed free iff it is in range and its bit is clear |
| `Bitmaps.AllClearBitmap` | lab3a.c:346-354 | an all-zero bitmap lists every number base+1 .. base+m in order |
| `Bitmaps.ClearBitsByByte` | lab3a.c:346-354 | scanning a bitmap byte by byte appends each byte's free numbers, least significant bit first |
| `Bitmaps.ScanByte` | lab3a.c:348-353 | the bit loop over one byte lists the clear bits from mask 1 to mask 128 |
| `Bitmaps.ScanFree` | lab3a.c:346-354 | the byte loop over the bitmap block lists exactly its free numbers |
| `Bitmaps.Rows` | lab3a.c:351 | one free-list row per free number |
| `Bitmaps.BlockBytes` | lab3a.c:341 | a bitmap read is one block long |
| `Bitmaps.ReadGroupBitmaps` | lab3a.c:341-371 | a group's rows are its free blocks, numbered from blocks_per_group*i, then its free inodes, numbered from inodes_per_group*i |
| `Bitmaps.ReadBitmaps` | lab3a.c:338-373 | the free list is the concatenation of the groups' rows in group order |
| `Bitmaps.FreeRule` | lab3a.c:346-354 | number n is free iff it is in range and bit (n-1-base) mod 8 of byte (n-1-base)/8 is clear |
| `Bitmaps.FreeBlocksRule` | lab3a.c:341-355 | the same rule for a group's block bitmap |
| `Bitmaps.FreeInodesRule` | lab3a.c:358-372 | the same rule for a group's inode bitmap |
| `Inodes.FileTypeRanges` | lab3a.c:470-493 | regular, directory and symlink exactly for mode & 0xF000 equal to 0x8000, 0x4000 and 0xA000, unknown otherwise |
| `Inodes.FileTypeOf` | lab3a.c:470-493 | no ensures of its own: the `i_mode & 0xF000` switch to f/d/s/? is characterised by `Inodes.FileTypeRanges` |
| `Inodes.BlockPointers` | lab3a.c:553-562 | an inode has exactly 15 block pointers |
| `Inodes.DecodeInode` | lab3a.c:455-566 | the record carries the inode number it was given and 15 pointers |
| `Inodes.InodeFieldLayout` | lab3a.c:470-562 | each field is read little-endian at its offset in the 128-byte slot; the block count is the raw count divided (floor) by the divisor; pointer p is the 32-bit value at 40 + 4p |
| `Inodes.InodeIsLocal` | lab3a.c:462-566 | the record depends only on the 128 bytes of its slot |
| `Inodes.InodeBitmap` | lab3a.c:439 | the inode bitmap read is one block long |
| `Inodes.TakenSlotsMembers` | lab3a.c:446-455 | slot t is decoded iff its bit is set and t < inodes_per_group |
| `Inodes.TakenSlotsIncreasing` | lab3a.c:446-455 | the decoded slots strictly increase |
| `Inodes.InodesAreTakenSlots` | lab3a.c:446-462 | the k-th record of a group is decoded from the k-th taken slot and numbered inodes_per_group*i plus that slot |
| `Inodes.TakenIffNotClear` | lab3a.c:446-452 | below inodes_per_group, a slot is decoded iff its number is not listed free |
| `Inodes.DecodedIffNotFree` | lab3a.c:437-456 | an inode slot of a group is decoded iff the inode is absent from the group's free-inode rows |
| `Inodes.ByteSlotsOfTable` | lab3a.c:446-456 | every slot a bitmap byte selects lies inside the image |
| `Inodes.InodesByByte` | lab3a.c:446-567 | scanning the inode bitmap byte by byte appends each byte's records |
| `Inodes.TakenInByte` | lab3a.c:448-452 | slot 8j+c is taken iff bit c-1 of byte j is set and the slot is below inodes_per_group |
| `Inodes.ScanInodeByte` | lab3a.c:448-567 | the bit loop over one bitmap byte decodes exactly that byte's taken slots |
| `Inodes.ReadGroupInodes` | lab3a.c:439-569 | a group's records are the decodings of its taken slots, in slot order |
| `Inodes.ReadInodes` | lab3a.c:437-569 | the inode records are the groups' records in group order |
| `Directories.NameEnd` | lab3a.c:692-697 | the name length found lies between the start and 255 |
| `Directories.NameEndRun` | lab3a.c:692-697 | the bytes before the name's end are non-zero; the end is 255 or a zero byte |
| `Directories.NameEndAt` | lab3a.c:692-697 | a run of non-zero bytes ended by a zero byte or by 255 determines the name's end |
| `Directories.NameIsNulTerminated` | lab3a.c:691-697 | the name has at most 255 bytes, none zero, and is followed by a zero byte unless it is 255 long |
| `Directories.ReadName` | lab3a.c:691-697 | the copy loop returns the bytes up to the first zero byte or 255 bytes |
| `Directories.UsedOffsets` | lab3a.c:664-708 | every offset listed holds an entry with a non-zero inode |
| `Directories.DecodeEntry` | lab3a.c:668-701 | an entry record carries its directory, its sequence number and a non-zero inode |
| `Directories.DecodeAll` | lab3a.c:664-708 | one record per used offset |
| `Directories.VisitedOffset` | lab3a.c:664-708 | the chain starts at offset 0, stays inside the block, and each offset is the previous one plus its record length |
| `Directories.UsedOffsetsVisited` | lab3a.c:664-708 | every reported offset is on the record-length chain |
| `Directories.VisitedUsedOffsets` | lab3a.c:664-708 | every chain offset with a non-zero inode is reported |
| `Directories.UsedOffsetsAreVisited` | lab3a.c:664-708 | an offset is reported iff it is on the chain and its inode is non-zero |
| `Directories.WalkFromReports` | lab3a.c:664-708 | walking the chain from any offset appends the records of the used offsets from there, numbered on from the current count |
| `Directories.ReadEntry` | lab3a.c:668-701 | reads the inode, the record length, the name-length byte and the name of one entry |
| `Directories.WalkBlock` | lab3a.c:663-710 | the entry loop of one block returns the records of the block's used entries, numbered 0, 1, 2, … |
| `Directories.WalkDirectory` | lab3a.c:646-711 | a directory's records are those of its first i_blocks direct blocks, in pointer order |
| `Directories.ReadDirectories` | lab3a.c:608-719 | the entry stream is the concatenation of every directory inode's records |
| `Directories.EntriesHaveDirectoryParents` | lab3a.c:608-719 | every entry names a non-zero inode and has a directory inode as its parent |
| `Directories.DirectoryEntriesParent` | lab3a.c:646-711 | every entry of a directory has that directory as its parent and a non-zero inode |
| `Checker.SplitFreeLists` | lab3b.py:201-207 | the loop computes the free-inode and free-block lists of the row sequence |
| `Checker.FreeListsPartition` | lab3b.py:201-207 | every row lands in exactly one list: a free inode iff its bitmap is some group's inode bitmap, a free block otherwise |
| `Checker.BuildInodeTable` | lab3b.py:211-214 | the loop builds the table of allocated inodes |
| `Checker.InodeTableRule` | lab3b.py:211-214 | a number is a key iff some inode row has it; its value comes from the last such row, under its own number, with no references yet |
| `Checker.AddBlockRef` | lab3b.py:240-245 | the block gets the reference appended to its list, or a new entry holding only that reference; the key set gains the block and every other entry is unchanged |
| `Checker.AddInodeRefs` | lab3b.py:232-246 | the pointer loop of one inode adds the references of its 12 direct pointers |
| `Checker.AddPointerRefsKeyed` | lab3b.py:236-245 | every block entry stays under its own number with at least one reference |
| `Checker.AddPointerRefsList` | lab3b.py:232-246 | each block's reference list gets exactly that inode's references to it appended |
| `Checker.CollectBlockRefs` | lab3b.py:229-246 | the loop over all inodes builds the block table |
| `Checker.BlockTableRule` | lab3b.py:229-246 | a block is a key iff some reference is made to it; its list holds those references in loop order |
| `Checker.PointerRefsToMembers` | lab3b.py:232-246 | an inode's references to b are (inode, p, -1) for each p holding the non-zero block b |
| `Checker.PointerRefsToDistinct` | lab3b.py:232-246 | one inode never records the same reference twice |
| `Checker.InodeRefsToMembers` | lab3b.py:229-246 | the references of the visited inodes to b are exactly their direct pointer slots holding b |
| `Checker.InodeRefsToDistinct` | lab3b.py:229-246 | when no inode is visited twice, no reference is recorded twice |
| `Checker.BlockTableMembers` | lab3b.py:229-246 | over the whole table, block b's references are exactly the direct pointer slots (p < 12, non-zero) of allocated inodes that hold b, each once; the entry is under b's number |
| `Checker.MultiplyReferencedRule` | lab3b.py:296-298 | a block has more than one reference iff two different pointer slots hold it |
| `Checker.ProcessEntries` | lab3b.py:252-271 | the entry loop, stopped by the failed lookup, computes the entry-pass state |
| `Checker.EntryStep` | lab3b.py:252-271 | one entry: a crashed state is left unchanged, the set of allocated inodes is kept, and reports are only appended; the whole pass is characterised by `Checker.EntryRunRule` and `Checker.CrashRule` |
| `Checker.CrashIsFinal` | lab3b.py:270-271 | once the lookup has failed, no later entry changes the state |
| `Checker.ParentMapRule` | lab3b.py:259-260 | an inode has a recorded parent iff some entry naming it is not a self-link or lies in the root; the parent comes from the last such entry |
| `Checker.EntryRefsToMembers` | lab3b.py:262-263 | an inode's references are the (directory, entry number) pairs of the entries naming it |
| `Checker.EntryRunRule` | lab3b.py:252-271 | until a crash, the allocated set is unchanged; the parent map and reports follow the reference definitions; each inode gains exactly the references of the entries naming it |
| `Checker.CrashRule` | lab3b.py:270-271 | the run stops iff some `..` entry's directory has no recorded parent after that entry |
| `Checker.UnallocatedInodeRule` | lab3b.py:262-265 | UNALLOCATED INODE (c, d, k) is reported iff c is not allocated and some entry of directory d, number k, names c |
| `Checker.IncorrectEntryRule` | lab3b.py:267-271 | INCORRECT ENTRY is reported exactly for a `.` entry not linking to its directory, with the directory as the correct link, and for a `..` entry not linking to its directory's recorded parent, with that parent as the correct link |
| `Checker.FirstFreeList` | lab3b.py:279-286 | the group found is an index of the table at or after the start |
| `Checker.FirstFreeListRule` | lab3b.py:279-286 | the group found is the least whose running free-inode total exceeds the inode number; none is found iff no running total does |
| `Checker.FindFreeList` | lab3b.py:280-286 | the running-sum loop with `break` finds that group |
| `Checker.LinkReport` | lab3b.py:276-289 | one inode gives at most one report; unless it is a non-reserved inode with no references, it is reported exactly when its reference count differs from its link count |
| `Checker.CheckLinkCounts` | lab3b.py:274-289 | the loop over the inodes produces the link-count reports |
| `Checker.LinkReportsRule` | lab3b.py:274-289 | MISSING INODE for an unreferenced inode above 10 with a group found, carrying that group's inode bitmap; LINKCOUNT (recorded, actual) for any other inode whose counts differ |
| `Checker.LinkCountsOfRun` | lab3b.py:252-289 | over a whole run, an inode's actual link count is the number of entries naming it; MISSING INODE and LINKCOUNT follow from that and the inode row |
| `Checker.CheckMultiplyReferenced` | lab3b.py:296-298 | the loop over the blocks produces the duplicate-block reports |
| `Checker.MultiplyReportsRule` | lab3b.py:296-298 | MULTIPLY REFERENCED is reported for exactly the blocks of the table with more than one reference |
| `Checker.CheckUnallocatedBlocks` | lab3b.py:301-303 | the loop over the free blocks produces the free-block reports |
| `Checker.UnallocatedReportsRule` | lab3b.py:301-303 | every report is UNALLOCATED BLOCK for a referenced block on the free list; a referenced block is reported once per occurrence on the free list |
| `Checker.FinalInodes` | lab3b.py:252-265 | the entry pass keeps the set of allocated inodes |
| `Checker.Check` | lab3b.py:161-306 | the main line: the run stops iff the entry pass crashes, and then reports what the pass reported; otherwise it reports the entry, link-count, duplicate-block and free-block reports, in that order |

## Left out

- File and stream handling, error exits and CSV text are left out: `open`/`fopen`/`fclose`/`perror`/`exit`, the `printf` formats, and `csv` parsing with `int(...)`. Records are values.
- The checker's base-10 parsing of bitmap ids that the dumper writes in hexadecimal is left out. Bitmap ids are numbers, compared only for equality.
- Short reads and failing `pread` calls are left out. Every read requires its bytes to lie inside the image.
- Inodes.DecodeInode: the block count divides by `2 << block_size`. In the source this shift uses the derived block size (1024 or more), so on the hardware it is a shift by that amount modulo the word width. The model takes the divisor as a positive parameter `divisor` and does not model the shift.
- Directories.ReadEntry: the record length is read from a 2-byte buffer but assembled from four bytes (`recl[2]`, `recl[3]`), which reads past the buffer. The model uses the two bytes read, as a 16-bit little-endian value.
- Directories.WalkDirectory: the walker indexes `i_block` for i_blocks pointers. The model requires i_blocks <= 15, so it does not model reads beyond the 60 bytes read.
- Directories.WalkBlock: the walker loops forever on a zero record length, or runs past the image. The model requires a record-length chain that advances and stays inside the image (`ChainOK`).
- The name-length byte does not bound the name. In ext2 a directory entry's name is the `name_len` bytes after the header, with no terminating zero. The code reads the name length but stops only at a zero byte or after 255 bytes. The model follows the code.
- The number of block groups of an ext2 file system is the ceiling of block_total / blocks_per_group. The code computes `1 + (block_total - 1) / blocks_per_group` in unsigned arithmetic. The two differ only when block_total is 0 and blocks_per_group > 1. The model follows the code (`Groups.GroupCountOfEmptyImage`).
- Groups.GroupCount: a zero blocks_per_group divides by zero in the source (lab3a.c:226 and the `%` of lab3a.c:243), which stops the dumper before it writes any group row. The model requires blocks_per_group to be positive, here and in `Groups.ContainedBlocks`, `Groups.DecodeGroup` and `Groups.DescriptorsReadable`.
- 32-bit wrap-around is modelled only in `Groups.GroupCount`. Elsewhere sizes, offsets and inode numbers are unbounded naturals.
- `lab3a.h` declarations become the datatypes `SuperBlock` and `GroupDesc`.
- Indirect blocks (pointers 12 to 14) are never followed. The checker never reads an indirect-block file.
- The message strings of the six report functions (lab3b.py:97-150) are left out. Each report is a `Report` value carrying the printed numbers. For blocks, it carries the `Block` with its reference list.
- The group-row loop (lab3b.py:193-197) is left out as a separate list. The checker reads `freeInodes` and `inodeBitmapBlock` directly from the `GroupDesc` values, which hold the same columns.
- Checker.ProcessEntries: the `KeyError` raised by the `..` lookup ends the run. It is modelled as the flag `crashed`, and the later phases do not run. The reports made before the crash are kept.
- Python 2 dictionary iteration order is not modelled. It is a parameter (`inodeOrder`, `blockOrder`), required to list every key once.
- The directory pass reuses the inode pass's records for the directory inodes. The source re-scans the inode bitmap and re-reads the same slot bytes, so the records and their order are identical (`Inodes.InodeIsLocal`).
- The superblock's `first_data_block`, `fragments_per_group`, `inode_total`, fragment size and magic number are decoded but not used by any later step. `blocks_per_group`, `inodes_per_group` and the block size are used throughout.
