/** The consistency checker, run over the records the dumper emits: it splits
    the free list into free inodes and free blocks, builds the table of
    allocated inodes, the table of referenced blocks and the child-to-parent
    map, and derives the anomaly reports from them. */
module Checker {
  import opened Bytes
  import opened Groups
  import opened Bitmaps
  import opened Inodes
  import opened Directories

  /** The root directory; its `..` entry names the root itself. */
  const ROOT_INODE: nat := 2
  /** Inodes up to this number are reserved and never reported missing. */
  const LAST_RESERVED_INODE: nat := 10
  /** Only the direct block pointers are followed. */
  const DIRECT_POINTERS: nat := 12
  /** The checker reads this many block pointers per inode. */
  const INODE_POINTERS: nat := 15
  /** The indirect-block number of a reference made by a direct pointer. */
  const NO_INDIRECT: int := -1

  /** A directory entry naming an inode: the directory and the entry number. */
  datatype InodeRef = InodeRef(parentInode: nat, entryNumber: nat)

  /** A block pointer naming a block: the inode and the pointer's index. */
  datatype BlockRef = BlockRef(inodeNumber: nat, entryNumber: nat, indirectNumber: int)

  /** An allocated inode: its recorded link count, its pointers and the
      directory entries found to name it. */
  datatype Inode = Inode(inodeNumber: nat, linkCount: nat, referenceList: seq<InodeRef>, blockPointers: seq<nat>)

  /** A referenced block and the pointers found to name it. */
  datatype Block = Block(blockNumber: nat, referenceList: seq<BlockRef>)

  datatype Option<T> = None | Some(value: T)

  /** One anomaly, with the numbers its message prints. */
  datatype Report =
    | UnallocatedBlock(block: Block)
    | MultiplyReferencedBlock(block: Block)
    | UnallocatedInode(inode: nat, directory: nat, entry: nat)
    | MissingInode(inode: nat, freeList: nat)
    | IncorrectLinkCount(inode: nat, linkCount: nat, references: nat)
    | IncorrectEntry(directory: nat, name: seq<byte>, link: nat, correctLink: nat)

  // ---------------------------------------------------------------------
  // The free lists.

  /** Whether `id` is the inode bitmap of one of the groups. */
  predicate IsInodeBitmap(groups: seq<GroupDesc>, id: nat)
  {
    exists c :: 0 <= c < |groups| && groups[c].inodeBitmapBlock == id
  }

  /** The numbers of the first `n` free-list rows that come from an inode
      bitmap, in row order. */
  function FreeInodeList(rows: seq<FreeRow>, groups: seq<GroupDesc>, n: nat): seq<nat>
    requires n <= |rows|
  {
    if n == 0 then []
    else
      var tail := if IsInodeBitmap(groups, rows[n - 1].bitmapBlock) then [rows[n - 1].number] else [];
      FreeInodeList(rows, groups, n - 1) + tail
  }

  /** The numbers of the first `n` free-list rows from any other bitmap. */
  function FreeBlockList(rows: seq<FreeRow>, groups: seq<GroupDesc>, n: nat): seq<nat>
    requires n <= |rows|
  {
    if n == 0 then []
    else
      var tail := if IsInodeBitmap(groups, rows[n - 1].bitmapBlock) then [] else [rows[n - 1].number];
      FreeBlockList(rows, groups, n - 1) + tail
  }

  /** Appends each row's number to one of the two lists. */
  method SplitFreeLists(rows: seq<FreeRow>, groups: seq<GroupDesc>) returns (freeInodes: seq<nat>, freeBlocks: seq<nat>)
    ensures freeInodes == FreeInodeList(rows, groups, |rows|)
    ensures freeBlocks == FreeBlockList(rows, groups, |rows|)
  {
    freeInodes, freeBlocks := [], [];
    var k := 0;
    while k < |rows|
      invariant k <= |rows|
      invariant freeInodes == FreeInodeList(rows, groups, k)
      invariant freeBlocks == FreeBlockList(rows, groups, k)
    {
      if IsInodeBitmap(groups, rows[k].bitmapBlock) {
        freeInodes := freeInodes + [rows[k].number];
      } else {
        freeBlocks := freeBlocks + [rows[k].number];
      }
      k := k + 1;
    }
  }

  /** Every row lands in exactly one list: the free inodes are the numbers of
      the rows from an inode bitmap, the free blocks those of the others. */
  lemma {:induction false} FreeListsPartition(rows: seq<FreeRow>, groups: seq<GroupDesc>, n: nat, x: nat)
    requires n <= |rows|
    ensures |FreeInodeList(rows, groups, n)| + |FreeBlockList(rows, groups, n)| == n
    ensures x in FreeInodeList(rows, groups, n) <==>
      exists k :: 0 <= k < n && rows[k].number == x && IsInodeBitmap(groups, rows[k].bitmapBlock)
    ensures x in FreeBlockList(rows, groups, n) <==>
      exists k :: 0 <= k < n && rows[k].number == x && !IsInodeBitmap(groups, rows[k].bitmapBlock)
  {
    if n > 0 {
      FreeListsPartition(rows, groups, n - 1, x);
      var last := rows[n - 1];
      if IsInodeBitmap(groups, last.bitmapBlock) && last.number == x {
        assert x in FreeInodeList(rows, groups, n);
      }
      if !IsInodeBitmap(groups, last.bitmapBlock) && last.number == x {
        assert x in FreeBlockList(rows, groups, n);
      }
    }
  }

  // ---------------------------------------------------------------------
  // The table of allocated inodes.

  /** Every inode row carries the 15 block pointers the checker reads. */
  predicate RecordsComplete(records: seq<InodeRecord>)
  {
    forall k :: 0 <= k < |records| ==> |records[k].pointers| == INODE_POINTERS
  }

  /** The checker's record of an inode row: number, link count and the 15
      pointers, with no references yet. */
  function NewInode(r: InodeRecord): Inode
  {
    Inode(r.number, r.linkCount, [], r.pointers)
  }

  /** The table after the first `n` inode rows; a later row with the same
      number replaces an earlier one. */
  function InodeTable(records: seq<InodeRecord>, n: nat): map<nat, Inode>
    requires n <= |records|
  {
    if n == 0 then map[]
    else InodeTable(records, n - 1)[records[n - 1].number := NewInode(records[n - 1])]
  }

  /** Stores each inode row under its number. */
  method BuildInodeTable(records: seq<InodeRecord>) returns (table: map<nat, Inode>)
    ensures table == InodeTable(records, |records|)
  {
    table := map[];
    var k := 0;
    while k < |records|
      invariant k <= |records|
      invariant table == InodeTable(records, k)
    {
      var r := records[k];
      table := table[r.number := Inode(r.number, r.linkCount, [], r.pointers)];
      k := k + 1;
    }
  }

  /** An inode number is in the table iff some row has it; its entry is the
      last such row's, under its own number, with an empty reference list. */
  lemma {:induction false} InodeTableRule(records: seq<InodeRecord>, n: nat, inum: nat)
    requires n <= |records|
    ensures inum in InodeTable(records, n) <==> exists k :: 0 <= k < n && records[k].number == inum
    ensures inum in InodeTable(records, n) ==>
      exists k :: 0 <= k < n && records[k].number == inum
        && InodeTable(records, n)[inum] == NewInode(records[k])
        && (forall k' :: k < k' < n ==> records[k'].number != inum)
    ensures inum in InodeTable(records, n) ==>
      InodeTable(records, n)[inum].inodeNumber == inum && InodeTable(records, n)[inum].referenceList == []
  {
    if n > 0 {
      InodeTableRule(records, n - 1, inum);
      if records[n - 1].number == inum {
        assert InodeTable(records, n)[inum] == NewInode(records[n - 1]);
      }
    }
  }

  // ---------------------------------------------------------------------
  // Dictionary iteration order.

  predicate NoRepeats<T(==)>(s: seq<T>)
  {
    forall i, j :: 0 <= i < j < |s| ==> s[i] != s[j]
  }

  /** `order` lists every key of a dictionary exactly once; the checker's
      loops over a dictionary visit its keys in such an order. */
  predicate Enumerates(order: seq<nat>, keys: set<nat>)
  {
    && NoRepeats(order)
    && (forall k :: 0 <= k < |order| ==> order[k] in keys)
    && (forall x :: x in keys ==> x in order)
  }

  // ---------------------------------------------------------------------
  // The table of referenced blocks.

  /** Every inode of the table carries the 15 pointers read from its row. */
  predicate InodesComplete(inodes: map<nat, Inode>)
  {
    forall i :: i in inodes ==> |inodes[i].blockPointers| == INODE_POINTERS
  }

  /** Every block of the table is stored under its own number and is named
      by at least one reference. */
  predicate BlocksKeyed(blocks: map<nat, Block>)
  {
    forall b :: b in blocks ==> blocks[b].blockNumber == b && blocks[b].referenceList != []
  }

  /** The references recorded for block `b`, none when it has no entry. */
  function RefsOf(blocks: map<nat, Block>, b: nat): seq<BlockRef>
  {
    if b in blocks then blocks[b].referenceList else []
  }

  /** `add_ref` on the block's entry, or a new entry holding only `ref`. */
  function AddBlockRef(blocks: map<nat, Block>, b: nat, ref: BlockRef): (r: map<nat, Block>)
    ensures r.Keys == blocks.Keys + {b}
    ensures r[b].referenceList == (if b in blocks then blocks[b].referenceList else []) + [ref]
    ensures b !in blocks ==> r[b].blockNumber == b
    ensures forall k :: k in blocks && k != b ==> r[k] == blocks[k]
  {
    if b in blocks then blocks[b := Block(blocks[b].blockNumber, blocks[b].referenceList + [ref])]
    else blocks[b := Block(b, [ref])]
  }

  /** The table after the first `n` direct pointers of inode `inum`: each
      non-zero pointer `p` adds the reference (inum, p). */
  function AddPointerRefs(blocks: map<nat, Block>, inum: nat, ptrs: seq<nat>, n: nat): map<nat, Block>
    requires n <= DIRECT_POINTERS <= |ptrs|
  {
    if n == 0 then blocks
    else
      var before := AddPointerRefs(blocks, inum, ptrs, n - 1);
      if ptrs[n - 1] == 0 then before
      else AddBlockRef(before, ptrs[n - 1], BlockRef(inum, n - 1, NO_INDIRECT))
  }

  /** The references the first `n` pointers of inode `inum` make to `b`, in
      pointer order. */
  function PointerRefsTo(inum: nat, ptrs: seq<nat>, b: nat, n: nat): seq<BlockRef>
    requires n <= |ptrs|
  {
    if n == 0 then []
    else
      var tail := if ptrs[n - 1] == b && b != 0 then [BlockRef(inum, n - 1, NO_INDIRECT)] else [];
      PointerRefsTo(inum, ptrs, b, n - 1) + tail
  }

  /** Records the direct pointers of one inode; `entryNum` counts every
      pointer, zero or not, so it always equals the pointer's index. */
  method AddInodeRefs(blocks: map<nat, Block>, inum: nat, ptrs: seq<nat>) returns (updated: map<nat, Block>)
    requires |ptrs| == INODE_POINTERS
    ensures updated == AddPointerRefs(blocks, inum, ptrs, DIRECT_POINTERS)
  {
    updated := blocks;
    var entryNum := 0;
    var pointer := 0;
    while pointer < DIRECT_POINTERS
      invariant pointer <= DIRECT_POINTERS
      invariant entryNum == pointer
      invariant updated == AddPointerRefs(blocks, inum, ptrs, pointer)
    {
      var blockPointer := ptrs[pointer];
      if blockPointer != 0 {
        var reference := BlockRef(inum, entryNum, NO_INDIRECT);
        if blockPointer in updated {
          var block := updated[blockPointer];
          updated := updated[blockPointer := Block(block.blockNumber, block.referenceList + [reference])];
        } else {
          updated := updated[blockPointer := Block(blockPointer, [reference])];
        }
      }
      entryNum := entryNum + 1;
      pointer := pointer + 1;
    }
  }

  /** Recording an inode's pointers keeps every block under its number. */
  lemma {:induction false} AddPointerRefsKeyed(blocks: map<nat, Block>, inum: nat, ptrs: seq<nat>, n: nat)
    requires n <= DIRECT_POINTERS <= |ptrs|
    requires BlocksKeyed(blocks)
    ensures BlocksKeyed(AddPointerRefs(blocks, inum, ptrs, n))
  {
    if n > 0 {
      AddPointerRefsKeyed(blocks, inum, ptrs, n - 1);
    }
  }

  /** Recording an inode's pointers appends, to each block's reference
      list, exactly the references its pointers make to that block. */
  lemma {:induction false} AddPointerRefsList(blocks: map<nat, Block>, inum: nat, ptrs: seq<nat>, n: nat, b: nat)
    requires n <= DIRECT_POINTERS <= |ptrs|
    ensures RefsOf(AddPointerRefs(blocks, inum, ptrs, n), b) == RefsOf(blocks, b) + PointerRefsTo(inum, ptrs, b, n)
  {
    if n > 0 {
      AddPointerRefsList(blocks, inum, ptrs, n - 1, b);
      var before := AddPointerRefs(blocks, inum, ptrs, n - 1);
      if ptrs[n - 1] == b && b != 0 {
        var ref := BlockRef(inum, n - 1, NO_INDIRECT);
        assert RefsOf(AddPointerRefs(blocks, inum, ptrs, n), b) == RefsOf(before, b) + [ref];
        assert RefsOf(blocks, b) + PointerRefsTo(inum, ptrs, b, n)
          == (RefsOf(blocks, b) + PointerRefsTo(inum, ptrs, b, n - 1)) + [ref];
      } else {
        assert RefsOf(AddPointerRefs(blocks, inum, ptrs, n), b) == RefsOf(before, b);
        assert PointerRefsTo(inum, ptrs, b, n) == PointerRefsTo(inum, ptrs, b, n - 1);
      }
    }
  }

  /** The inodes of `order` all have entries with their 15 pointers. */
  predicate OrderedInodes(inodes: map<nat, Inode>, order: seq<nat>)
  {
    forall k :: 0 <= k < |order| ==> order[k] in inodes && |inodes[order[k]].blockPointers| == INODE_POINTERS
  }

  /** The block table after the pointer loop has visited the first `n`
      inodes of `order`. */
  function BlockTable(inodes: map<nat, Inode>, order: seq<nat>, n: nat): map<nat, Block>
    requires n <= |order|
    requires OrderedInodes(inodes, order)
  {
    if n == 0 then map[]
    else AddPointerRefs(BlockTable(inodes, order, n - 1), order[n - 1], inodes[order[n - 1]].blockPointers, DIRECT_POINTERS)
  }

  /** The references made to `b` by the first `n` inodes of `order`, in the
      order the pointer loop makes them. */
  function InodeRefsTo(inodes: map<nat, Inode>, order: seq<nat>, b: nat, n: nat): seq<BlockRef>
    requires n <= |order|
    requires OrderedInodes(inodes, order)
  {
    if n == 0 then []
    else InodeRefsTo(inodes, order, b, n - 1) + PointerRefsTo(order[n - 1], inodes[order[n - 1]].blockPointers, b, DIRECT_POINTERS)
  }

  /** The pointer loop over every allocated inode, in dictionary order. */
  method CollectBlockRefs(inodes: map<nat, Inode>, order: seq<nat>) returns (blocks: map<nat, Block>)
    requires OrderedInodes(inodes, order)
    ensures blocks == BlockTable(inodes, order, |order|)
  {
    blocks := map[];
    var k := 0;
    while k < |order|
      invariant k <= |order|
      invariant blocks == BlockTable(inodes, order, k)
    {
      var inum := order[k];
      blocks := AddInodeRefs(blocks, inum, inodes[inum].blockPointers);
      k := k + 1;
    }
  }

  /** After the pointer loop, a block has an entry iff some pointer names
      it, the entry is stored under the block's number, and its reference
      list holds the references to it in loop order. */
  lemma {:induction false} BlockTableRule(inodes: map<nat, Inode>, order: seq<nat>, n: nat, b: nat)
    requires n <= |order|
    requires OrderedInodes(inodes, order)
    ensures BlocksKeyed(BlockTable(inodes, order, n))
    ensures RefsOf(BlockTable(inodes, order, n), b) == InodeRefsTo(inodes, order, b, n)
    ensures b in BlockTable(inodes, order, n) <==> InodeRefsTo(inodes, order, b, n) != []
  {
    if n > 0 {
      BlockTableRule(inodes, order, n - 1, b);
      var before := BlockTable(inodes, order, n - 1);
      var inum := order[n - 1];
      AddPointerRefsKeyed(before, inum, inodes[inum].blockPointers, DIRECT_POINTERS);
      AddPointerRefsList(before, inum, inodes[inum].blockPointers, DIRECT_POINTERS, b);
    }
  }

  /** Reference `ref` is one the pointer loop makes to block `b`: a direct
      pointer of an allocated inode, at index `ref.entryNumber`, holding the
      non-zero number `b`. */
  predicate PointsTo(inodes: map<nat, Inode>, ref: BlockRef, b: nat)
  {
    && ref.inodeNumber in inodes
    && |inodes[ref.inodeNumber].blockPointers| == INODE_POINTERS
    && ref.entryNumber < DIRECT_POINTERS
    && ref.indirectNumber == NO_INDIRECT
    && b != 0
    && inodes[ref.inodeNumber].blockPointers[ref.entryNumber] == b
  }

  lemma NoRepeatsConcat<T>(a: seq<T>, c: seq<T>)
    requires NoRepeats(a) && NoRepeats(c)
    requires forall x :: x in a ==> x !in c
    ensures NoRepeats(a + c)
  {
    forall i, j | 0 <= i < j < |a + c|
      ensures (a + c)[i] != (a + c)[j]
    {
      if j >= |a| && i < |a| {
        assert (a + c)[i] in a && (a + c)[j] in c;
      }
    }
  }

  /** The references one inode makes to `b` are those at a pointer index
      below `n` holding `b`, each once. */
  lemma {:induction false} PointerRefsToMembers(inum: nat, ptrs: seq<nat>, b: nat, n: nat, ref: BlockRef)
    requires n <= |ptrs|
    ensures ref in PointerRefsTo(inum, ptrs, b, n) <==>
      && ref.inodeNumber == inum
      && ref.entryNumber < n
      && ref.indirectNumber == NO_INDIRECT
      && b != 0
      && ptrs[ref.entryNumber] == b
  {
    if n > 0 {
      PointerRefsToMembers(inum, ptrs, b, n - 1, ref);
    }
  }

  lemma {:induction false} PointerRefsToDistinct(inum: nat, ptrs: seq<nat>, b: nat, n: nat)
    requires n <= |ptrs|
    ensures NoRepeats(PointerRefsTo(inum, ptrs, b, n))
  {
    if n > 0 {
      PointerRefsToDistinct(inum, ptrs, b, n - 1);
      if ptrs[n - 1] == b && b != 0 {
        var ref := BlockRef(inum, n - 1, NO_INDIRECT);
        PointerRefsToMembers(inum, ptrs, b, n - 1, ref);
        NoRepeatsConcat(PointerRefsTo(inum, ptrs, b, n - 1), [ref]);
      } else {
        assert PointerRefsTo(inum, ptrs, b, n) == PointerRefsTo(inum, ptrs, b, n - 1);
      }
    }
  }

  /** The references the first `n` inodes make to `b` are exactly the
      pointer slots of those inodes that hold `b`. */
  lemma {:induction false} InodeRefsToMembers(inodes: map<nat, Inode>, order: seq<nat>, b: nat, n: nat, ref: BlockRef)
    requires n <= |order|
    requires OrderedInodes(inodes, order)
    ensures ref in InodeRefsTo(inodes, order, b, n) <==> ref.inodeNumber in order[..n] && PointsTo(inodes, ref, b)
  {
    if n > 0 {
      InodeRefsToMembers(inodes, order, b, n - 1, ref);
      var inum := order[n - 1];
      PointerRefsToMembers(inum, inodes[inum].blockPointers, b, DIRECT_POINTERS, ref);
      assert order[..n] == order[..n - 1] + [inum];
    }
  }

  /** When no inode is visited twice, no reference is recorded twice. */
  lemma {:induction false} InodeRefsToDistinct(inodes: map<nat, Inode>, order: seq<nat>, b: nat, n: nat)
    requires n <= |order|
    requires OrderedInodes(inodes, order)
    requires NoRepeats(order)
    ensures NoRepeats(InodeRefsTo(inodes, order, b, n))
  {
    if n > 0 {
      InodeRefsToDistinct(inodes, order, b, n - 1);
      var inum := order[n - 1];
      var ptrs := inodes[inum].blockPointers;
      PointerRefsToDistinct(inum, ptrs, b, DIRECT_POINTERS);
      forall x | x in InodeRefsTo(inodes, order, b, n - 1)
        ensures x !in PointerRefsTo(inum, ptrs, b, DIRECT_POINTERS)
      {
        InodeRefsToMembers(inodes, order, b, n - 1, x);
        PointerRefsToMembers(inum, ptrs, b, DIRECT_POINTERS, x);
      }
      NoRepeatsConcat(InodeRefsTo(inodes, order, b, n - 1), PointerRefsTo(inum, ptrs, b, DIRECT_POINTERS));
    }
  }

  /** A list without repeats has more than one element iff it holds two
      different values. */
  lemma TwoDistinct<T>(s: seq<T>)
    requires NoRepeats(s)
    ensures |s| > 1 <==> exists x, y :: x in s && y in s && x != y
  {
    if |s| > 1 {
      assert s[0] in s && s[1] in s;
    }
    if exists x, y :: x in s && y in s && x != y {
      var x, y :| x in s && y in s && x != y;
      assert |s| != 0 && |s| != 1;
    }
  }

  /** Over the whole table: block `b` has an entry iff some direct pointer of
      an allocated inode holds it, and its reference list holds exactly the
      references (inode, pointer index) of those pointers, each once. */
  lemma BlockTableMembers(inodes: map<nat, Inode>, order: seq<nat>, b: nat, ref: BlockRef)
    requires Enumerates(order, inodes.Keys)
    requires InodesComplete(inodes)
    ensures OrderedInodes(inodes, order)
    ensures ref in RefsOf(BlockTable(inodes, order, |order|), b) <==> PointsTo(inodes, ref, b)
    ensures NoRepeats(RefsOf(BlockTable(inodes, order, |order|), b))
    ensures b in BlockTable(inodes, order, |order|) ==> BlockTable(inodes, order, |order|)[b].blockNumber == b
  {
    BlockTableRule(inodes, order, |order|, b);
    InodeRefsToMembers(inodes, order, b, |order|, ref);
    InodeRefsToDistinct(inodes, order, b, |order|);
    assert order[..|order|] == order;
  }

  /** A block is multiply referenced, that is its entry holds more than one
      reference, iff two different direct pointer slots hold it. */
  lemma MultiplyReferencedRule(inodes: map<nat, Inode>, order: seq<nat>, b: nat)
    requires Enumerates(order, inodes.Keys)
    requires InodesComplete(inodes)
    ensures OrderedInodes(inodes, order)
    ensures |RefsOf(BlockTable(inodes, order, |order|), b)| > 1 <==>
      exists r1, r2 :: r1 != r2 && PointsTo(inodes, r1, b) && PointsTo(inodes, r2, b)
  {
    var refs := RefsOf(BlockTable(inodes, order, |order|), b);
    BlockTableMembers(inodes, order, b, BlockRef(0, 0, 0));
    TwoDistinct(refs);
    forall r | true
      ensures r in refs <==> PointsTo(inodes, r, b)
    {
      BlockTableMembers(inodes, order, b, r);
    }
  }

  // ---------------------------------------------------------------------
  // The directory-entry pass.

  /** The state of the entry loop. `crashed` records the lookup of a
      directory with no recorded parent, which raises and ends the run. */
  datatype EntryPass = EntryPass(inodes: map<nat, Inode>, parentOf: map<nat, nat>, reports: seq<Report>, crashed: bool)

  /** `add_ref` on an inode. */
  function AddInodeRef(inode: Inode, ref: InodeRef): Inode
  {
    inode.(referenceList := inode.referenceList + [ref])
  }

  /** Whether the entry records its directory as the parent of its inode:
      every entry except a self-link, and every entry of the root. */
  predicate SetsParent(e: DirEntry)
  {
    e.inode != e.parent || e.parent == ROOT_INODE
  }

  /** The reports one entry produces, given the allocated inode numbers and
      the parent map after the entry's own update: an unallocated child, a
      `.` entry that does not link to its directory, and a `..` entry that
      does not link to the directory's recorded parent. */
  function EntryReports(allocatedNumbers: set<nat>, parentOf: map<nat, nat>, e: DirEntry): seq<Report>
  {
    var unallocated := if e.inode in allocatedNumbers then [] else [UnallocatedInode(e.inode, e.parent, e.entryNumber)];
    var dot := if e.entryNumber == 0 && e.inode != e.parent then [IncorrectEntry(e.parent, e.name, e.inode, e.parent)] else [];
    var dotDot :=
      if e.entryNumber == 1 && e.parent in parentOf && e.inode != parentOf[e.parent]
      then [IncorrectEntry(e.parent, e.name, e.inode, parentOf[e.parent])]
      else [];
    unallocated + dot + dotDot
  }

  /** One iteration of the entry loop; a crashed run stays as it is. */
  function EntryStep(s: EntryPass, e: DirEntry): (r: EntryPass)
    ensures s.crashed ==> r == s
    ensures r.inodes.Keys == s.inodes.Keys
    ensures s.reports <= r.reports
  {
    if s.crashed then s
    else
      var parentOf := if SetsParent(e) then s.parentOf[e.inode := e.parent] else s.parentOf;
      var inodes :=
        if e.inode in s.inodes then s.inodes[e.inode := AddInodeRef(s.inodes[e.inode], InodeRef(e.parent, e.entryNumber))]
        else s.inodes;
      EntryPass(inodes, parentOf, s.reports + EntryReports(s.inodes.Keys, parentOf, e),
        e.entryNumber == 1 && e.parent !in parentOf)
  }

  /** The state after the first `n` entries, from the allocated inodes. */
  function EntryRun(allocatedInodes: map<nat, Inode>, entries: seq<DirEntry>, n: nat): EntryPass
    requires n <= |entries|
  {
    if n == 0 then EntryPass(allocatedInodes, map[], [], false)
    else EntryStep(EntryRun(allocatedInodes, entries, n - 1), entries[n - 1])
  }

  /** The entry loop: updates the parent map, records each entry on its
      child or reports the child unallocated, and checks the `.` and `..`
      entries; the `..` check of a directory with no parent entry ends the
      run. */
  method ProcessEntries(allocatedInodes: map<nat, Inode>, entries: seq<DirEntry>)
    returns (inodes: map<nat, Inode>, parentOf: map<nat, nat>, reports: seq<Report>, crashed: bool)
    ensures EntryPass(inodes, parentOf, reports, crashed) == EntryRun(allocatedInodes, entries, |entries|)
  {
    inodes, parentOf, reports, crashed := allocatedInodes, map[], [], false;
    var k := 0;
    while k < |entries|
      invariant k <= |entries|
      invariant !crashed
      invariant EntryPass(inodes, parentOf, reports, crashed) == EntryRun(allocatedInodes, entries, k)
    {
      var entry := entries[k];
      var parentNum, entryNum, childNum, entryName := entry.parent, entry.entryNumber, entry.inode, entry.name;
      var allocatedNow := inodes.Keys;
      if childNum != parentNum || parentNum == ROOT_INODE {
        parentOf := parentOf[childNum := parentNum];
      }
      var found := [];
      if childNum in inodes {
        var inode := inodes[childNum];
        inodes := inodes[childNum := inode.(referenceList := inode.referenceList + [InodeRef(parentNum, entryNum)])];
      } else {
        found := found + [UnallocatedInode(childNum, parentNum, entryNum)];
      }
      if entryNum == 0 && childNum != parentNum {
        found := found + [IncorrectEntry(parentNum, entryName, childNum, parentNum)];
      }
      if entryNum == 1 {
        if parentNum !in parentOf {
          assert found == EntryReports(allocatedNow, parentOf, entry);
          reports := reports + found;
          crashed := true;
          k := k + 1;
          break;
        }
        if childNum != parentOf[parentNum] {
          found := found + [IncorrectEntry(parentNum, entryName, childNum, parentOf[parentNum])];
        }
      }
      assert found == EntryReports(allocatedNow, parentOf, entry);
      reports := reports + found;
      k := k + 1;
    }
    CrashIsFinal(allocatedInodes, entries, k, |entries|);
  }

  /** Once the run has crashed no later entry changes anything. */
  lemma {:induction false} CrashIsFinal(allocatedInodes: map<nat, Inode>, entries: seq<DirEntry>, m: nat, n: nat)
    requires m <= n <= |entries|
    ensures EntryRun(allocatedInodes, entries, m).crashed ==> EntryRun(allocatedInodes, entries, n) == EntryRun(allocatedInodes, entries, m)
  {
    if m < n {
      CrashIsFinal(allocatedInodes, entries, m, n - 1);
    }
  }

  /** The parent map after the first `n` entries, whatever their `..`
      checks do: each entry that sets a parent overwrites its child's. */
  function ParentMap(entries: seq<DirEntry>, n: nat): map<nat, nat>
    requires n <= |entries|
  {
    if n == 0 then map[]
    else
      var e := entries[n - 1];
      if SetsParent(e) then ParentMap(entries, n - 1)[e.inode := e.parent] else ParentMap(entries, n - 1)
  }

  /** An inode has a recorded parent iff some entry naming it sets one, and
      the recorded parent is the directory of the last such entry. */
  lemma {:induction false} ParentMapRule(entries: seq<DirEntry>, n: nat, c: nat)
    requires n <= |entries|
    ensures c in ParentMap(entries, n) <==> exists j :: 0 <= j < n && entries[j].inode == c && SetsParent(entries[j])
    ensures c in ParentMap(entries, n) ==>
      exists j :: 0 <= j < n && entries[j].inode == c && SetsParent(entries[j])
        && ParentMap(entries, n)[c] == entries[j].parent
        && (forall j' :: j < j' < n ==> !(entries[j'].inode == c && SetsParent(entries[j'])))
  {
    if n > 0 {
      ParentMapRule(entries, n - 1, c);
    }
  }

  /** The references the first `n` entries make to inode `inum`, in order. */
  function EntryRefsTo(entries: seq<DirEntry>, inum: nat, n: nat): seq<InodeRef>
    requires n <= |entries|
  {
    if n == 0 then []
    else
      var e := entries[n - 1];
      var tail := if e.inode == inum then [InodeRef(e.parent, e.entryNumber)] else [];
      EntryRefsTo(entries, inum, n - 1) + tail
  }

  /** An inode's references are the (directory, entry number) pairs of the
      entries naming it. */
  lemma {:induction false} EntryRefsToMembers(entries: seq<DirEntry>, inum: nat, n: nat, ref: InodeRef)
    requires n <= |entries|
    ensures ref in EntryRefsTo(entries, inum, n) <==>
      exists j :: 0 <= j < n && entries[j].inode == inum && ref == InodeRef(entries[j].parent, entries[j].entryNumber)
  {
    if n > 0 {
      EntryRefsToMembers(entries, inum, n - 1, ref);
    }
  }

  /** The reports of the first `n` entries, each entry judged against the
      allocated numbers and the parent map after its own update. */
  function AllEntryReports(allocatedNumbers: set<nat>, entries: seq<DirEntry>, n: nat): seq<Report>
    requires n <= |entries|
  {
    if n == 0 then []
    else AllEntryReports(allocatedNumbers, entries, n - 1) + EntryReports(allocatedNumbers, ParentMap(entries, n), entries[n - 1])
  }

  /** Until the run crashes, the entry loop keeps the set of allocated
      inodes, its parent map is `ParentMap`, its reports are
      `AllEntryReports`, and each allocated inode's references are those of
      the entries naming it, appended to what it had. */
  lemma {:induction false} EntryRunRule(allocatedInodes: map<nat, Inode>, entries: seq<DirEntry>, n: nat, inum: nat)
    requires n <= |entries|
    ensures !EntryRun(allocatedInodes, entries, n).crashed ==>
      && EntryRun(allocatedInodes, entries, n).parentOf == ParentMap(entries, n)
      && EntryRun(allocatedInodes, entries, n).reports == AllEntryReports(allocatedInodes.Keys, entries, n)
      && EntryRun(allocatedInodes, entries, n).inodes.Keys == allocatedInodes.Keys
      && (inum in allocatedInodes ==>
            EntryRun(allocatedInodes, entries, n).inodes[inum]
              == allocatedInodes[inum].(referenceList := allocatedInodes[inum].referenceList + EntryRefsTo(entries, inum, n)))
  {
    if n > 0 {
      EntryRunRule(allocatedInodes, entries, n - 1, inum);
      var s := EntryRun(allocatedInodes, entries, n - 1);
      var e := entries[n - 1];
      if !s.crashed && e.inode == inum && inum in allocatedInodes {
        var inode := allocatedInodes[inum];
        var ref := InodeRef(e.parent, e.entryNumber);
        assert EntryRefsTo(entries, inum, n) == EntryRefsTo(entries, inum, n - 1) + [ref];
        assert inode.referenceList + EntryRefsTo(entries, inum, n)
          == (inode.referenceList + EntryRefsTo(entries, inum, n - 1)) + [ref];
      }
    }
  }

  /** The run crashes iff some `..` entry names a directory that has no
      recorded parent once that entry has been processed. */
  lemma {:induction false} CrashRule(allocatedInodes: map<nat, Inode>, entries: seq<DirEntry>, n: nat)
    requires n <= |entries|
    ensures EntryRun(allocatedInodes, entries, n).crashed <==>
      exists j :: 0 <= j < n && entries[j].entryNumber == 1 && entries[j].parent !in ParentMap(entries, j + 1)
  {
    if n > 0 {
      CrashRule(allocatedInodes, entries, n - 1);
      EntryRunRule(allocatedInodes, entries, n - 1, 0);
    }
  }

  /** UNALLOCATED INODE is reported for an entry iff its inode is not
      allocated; the report carries the entry's directory and number. */
  lemma {:induction false} UnallocatedInodeRule(allocatedNumbers: set<nat>, entries: seq<DirEntry>, n: nat, c: nat, d: nat, k: nat)
    requires n <= |entries|
    ensures UnallocatedInode(c, d, k) in AllEntryReports(allocatedNumbers, entries, n) <==>
      c !in allocatedNumbers
      && exists j :: 0 <= j < n && entries[j].inode == c && entries[j].parent == d && entries[j].entryNumber == k
  {
    if n > 0 {
      UnallocatedInodeRule(allocatedNumbers, entries, n - 1, c, d, k);
    }
  }

  /** The link an entry should have: a `.` entry links to its directory, a
      `..` entry to its directory's recorded parent. */
  predicate WrongLink(parentOf: map<nat, nat>, e: DirEntry, correct: nat)
  {
    || (e.entryNumber == 0 && e.inode != e.parent && correct == e.parent)
    || (e.entryNumber == 1 && e.parent in parentOf && correct == parentOf[e.parent] && e.inode != correct)
  }

  /** INCORRECT ENTRY is reported exactly for the `.` and `..` entries whose
      link differs from the one they should have. */
  lemma {:induction false} IncorrectEntryRule(allocatedNumbers: set<nat>, entries: seq<DirEntry>, n: nat,
                                             d: nat, name: seq<byte>, link: nat, correct: nat)
    requires n <= |entries|
    ensures IncorrectEntry(d, name, link, correct) in AllEntryReports(allocatedNumbers, entries, n) <==>
      exists j :: 0 <= j < n && entries[j].parent == d && entries[j].name == name && entries[j].inode == link
        && WrongLink(ParentMap(entries, j + 1), entries[j], correct)
  {
    if n > 0 {
      IncorrectEntryRule(allocatedNumbers, entries, n - 1, d, name, link, correct);
    }
  }

  // ---------------------------------------------------------------------
  // Link counts and missing inodes.

  /** The free-inode counts of the first `n` groups added up. */
  function FreeUpTo(groups: seq<GroupDesc>, n: nat): nat
    requires n <= |groups|
  {
    if n == 0 then 0 else FreeUpTo(groups, n - 1) + groups[n - 1].freeInodes
  }

  /** The first group from `c` on whose running free-inode total exceeds
      `inum`, if any. */
  function FirstFreeList(groups: seq<GroupDesc>, inum: nat, c: nat): (r: Option<nat>)
    requires c <= |groups|
    decreases |groups| - c
    ensures r.Some? ==> c <= r.value < |groups|
  {
    if c == |groups| then None
    else if inum < FreeUpTo(groups, c + 1) then Some(c)
    else FirstFreeList(groups, inum, c + 1)
  }

  /** The group found is the least at or after `c` whose running total
      exceeds `inum` (the total of group `g` counts groups 0 to `g`), and
      none is found iff no such group exists. */
  lemma {:induction false} FirstFreeListRule(groups: seq<GroupDesc>, inum: nat, c: nat)
    requires c <= |groups|
    decreases |groups| - c
    ensures FirstFreeList(groups, inum, c).Some? ==>
      && inum < FreeUpTo(groups, FirstFreeList(groups, inum, c).value + 1)
      && forall m :: c < m <= FirstFreeList(groups, inum, c).value ==> FreeUpTo(groups, m) <= inum
    ensures FirstFreeList(groups, inum, c).None? ==> forall m :: c < m <= |groups| ==> FreeUpTo(groups, m) <= inum
  {
    if c < |groups| && FreeUpTo(groups, c + 1) <= inum {
      FirstFreeListRule(groups, inum, c + 1);
    }
  }

  /** The search for a missing inode's free list: a running sum of the
      groups' free-inode counts, stopping at the first that exceeds `inum`. */
  method FindFreeList(groups: seq<GroupDesc>, inum: nat) returns (found: Option<nat>)
    ensures found == FirstFreeList(groups, inum, 0)
  {
    found := None;
    var inodes := 0;
    var counter := 0;
    while counter < |groups|
      invariant counter <= |groups|
      invariant inodes == FreeUpTo(groups, counter)
      invariant FirstFreeList(groups, inum, counter) == FirstFreeList(groups, inum, 0)
    {
      inodes := inodes + groups[counter].freeInodes;
      if inum < inodes {
        found := Some(counter);
        break;
      }
      counter := counter + 1;
    }
  }

  /** The report for one allocated inode: MISSING INODE for an unreferenced
      non-reserved inode, with the inode bitmap of the group found; otherwise
      LINKCOUNT when the references differ from the recorded link count. */
  function LinkReport(groups: seq<GroupDesc>, inum: nat, inode: Inode): (r: seq<Report>)
    ensures |r| <= 1
    ensures inum <= LAST_RESERVED_INODE || |inode.referenceList| > 0 ==>
      (r != [] <==> |inode.referenceList| != inode.linkCount)
  {
    var links := |inode.referenceList|;
    if inum > LAST_RESERVED_INODE && links == 0 then
      match FirstFreeList(groups, inum, 0)
      case None => []
      case Some(c) => [MissingInode(inum, groups[c].inodeBitmapBlock)]
    else if links != inode.linkCount then [IncorrectLinkCount(inum, inode.linkCount, links)]
    else []
  }

  predicate InTable<T>(table: map<nat, T>, order: seq<nat>)
  {
    forall k :: 0 <= k < |order| ==> order[k] in table
  }

  /** The reports of the link-count loop over the first `n` inodes of `order`. */
  function LinkReports(groups: seq<GroupDesc>, inodes: map<nat, Inode>, order: seq<nat>, n: nat): seq<Report>
    requires n <= |order|
    requires InTable(inodes, order)
  {
    if n == 0 then []
    else LinkReports(groups, inodes, order, n - 1) + LinkReport(groups, order[n - 1], inodes[order[n - 1]])
  }

  /** The link-count loop over every allocated inode, in dictionary order. */
  method CheckLinkCounts(groups: seq<GroupDesc>, inodes: map<nat, Inode>, order: seq<nat>) returns (reports: seq<Report>)
    requires InTable(inodes, order)
    ensures reports == LinkReports(groups, inodes, order, |order|)
  {
    reports := [];
    var k := 0;
    while k < |order|
      invariant k <= |order|
      invariant reports == LinkReports(groups, inodes, order, k)
    {
      var inum := order[k];
      var inode := inodes[inum];
      var linkCount := |inode.referenceList|;
      if inum > LAST_RESERVED_INODE && linkCount == 0 {
        var found := FindFreeList(groups, inum);
        if found.Some? {
          reports := reports + [MissingInode(inum, groups[found.value].inodeBitmapBlock)];
        }
      } else if linkCount != inode.linkCount {
        reports := reports + [IncorrectLinkCount(inum, inode.linkCount, linkCount)];
      }
      k := k + 1;
    }
  }

  /** MISSING INODE names an unreferenced inode above the reserved ones, with
      the inode bitmap of the first group whose running free-inode total
      exceeds its number; LINKCOUNT names any other inode whose reference
      count differs from its recorded link count. */
  lemma {:induction false} LinkReportsRule(groups: seq<GroupDesc>, inodes: map<nat, Inode>, order: seq<nat>, n: nat,
                                          inum: nat, x: nat, y: nat)
    requires n <= |order|
    requires InTable(inodes, order)
    ensures MissingInode(inum, x) in LinkReports(groups, inodes, order, n) <==>
      && inum in order[..n]
      && inum > LAST_RESERVED_INODE
      && |inodes[inum].referenceList| == 0
      && FirstFreeList(groups, inum, 0).Some?
      && x == groups[FirstFreeList(groups, inum, 0).value].inodeBitmapBlock
    ensures IncorrectLinkCount(inum, x, y) in LinkReports(groups, inodes, order, n) <==>
      && inum in order[..n]
      && !(inum > LAST_RESERVED_INODE && |inodes[inum].referenceList| == 0)
      && x == inodes[inum].linkCount
      && y == |inodes[inum].referenceList|
      && x != y
  {
    if n > 0 {
      LinkReportsRule(groups, inodes, order, n - 1, inum, x, y);
      assert order[..n] == order[..n - 1] + [order[n - 1]];
    }
  }

  // ---------------------------------------------------------------------
  // Multiply referenced and unallocated blocks.

  /** The reports of the duplicate-block loop over the first `n` blocks. */
  function MultiplyReports(blocks: map<nat, Block>, order: seq<nat>, n: nat): seq<Report>
    requires n <= |order|
    requires InTable(blocks, order)
  {
    if n == 0 then []
    else
      var block := blocks[order[n - 1]];
      var tail := if |block.referenceList| > 1 then [MultiplyReferencedBlock(block)] else [];
      MultiplyReports(blocks, order, n - 1) + tail
  }

  /** Reports every block with more than one reference, in dictionary order. */
  method CheckMultiplyReferenced(blocks: map<nat, Block>, order: seq<nat>) returns (reports: seq<Report>)
    requires InTable(blocks, order)
    ensures reports == MultiplyReports(blocks, order, |order|)
  {
    reports := [];
    var k := 0;
    while k < |order|
      invariant k <= |order|
      invariant reports == MultiplyReports(blocks, order, k)
    {
      var block := blocks[order[k]];
      if |block.referenceList| > 1 {
        reports := reports + [MultiplyReferencedBlock(block)];
      }
      k := k + 1;
    }
  }

  /** MULTIPLY REFERENCED is reported for exactly the blocks of the table
      whose reference list has more than one element. */
  lemma {:induction false} MultiplyReportsRule(blocks: map<nat, Block>, order: seq<nat>, n: nat, block: Block)
    requires n <= |order|
    requires InTable(blocks, order)
    requires BlocksKeyed(blocks)
    ensures MultiplyReferencedBlock(block) in MultiplyReports(blocks, order, n) <==>
      && block.blockNumber in order[..n]
      && blocks[block.blockNumber] == block
      && |block.referenceList| > 1
  {
    if n > 0 {
      MultiplyReportsRule(blocks, order, n - 1, block);
      assert order[..n] == order[..n - 1] + [order[n - 1]];
    }
  }

  /** The reports of the free-block loop over the first `n` free blocks. */
  function UnallocatedReports(freeBlocks: seq<nat>, blocks: map<nat, Block>, n: nat): seq<Report>
    requires n <= |freeBlocks|
  {
    if n == 0 then []
    else
      var b := freeBlocks[n - 1];
      var tail := if b in blocks then [UnallocatedBlock(blocks[b])] else [];
      UnallocatedReports(freeBlocks, blocks, n - 1) + tail
  }

  /** Reports every free block that some pointer references. */
  method CheckUnallocatedBlocks(freeBlocks: seq<nat>, blocks: map<nat, Block>) returns (reports: seq<Report>)
    ensures reports == UnallocatedReports(freeBlocks, blocks, |freeBlocks|)
  {
    reports := [];
    var k := 0;
    while k < |freeBlocks|
      invariant k <= |freeBlocks|
      invariant reports == UnallocatedReports(freeBlocks, blocks, k)
    {
      var block := freeBlocks[k];
      if block in blocks {
        reports := reports + [UnallocatedBlock(blocks[block])];
      }
      k := k + 1;
    }
  }

  /** Each report of the free-block loop is an UNALLOCATED BLOCK for a
      referenced block, and a referenced block is reported once for each
      time it occurs in the free list. */
  lemma {:induction false} UnallocatedReportsRule(freeBlocks: seq<nat>, blocks: map<nat, Block>, n: nat, b: nat, r: Report)
    requires n <= |freeBlocks|
    requires BlocksKeyed(blocks)
    ensures r in UnallocatedReports(freeBlocks, blocks, n) <==>
      exists k :: 0 <= k < n && freeBlocks[k] in blocks && r == UnallocatedBlock(blocks[freeBlocks[k]])
    ensures b in blocks ==>
      multiset(UnallocatedReports(freeBlocks, blocks, n))[UnallocatedBlock(blocks[b])] == multiset(freeBlocks[..n])[b]
  {
    if n > 0 {
      UnallocatedReportsRule(freeBlocks, blocks, n - 1, b, r);
      assert freeBlocks[..n] == freeBlocks[..n - 1] + [freeBlocks[n - 1]];
    }
  }

  // ---------------------------------------------------------------------
  // The whole check.

  /** The allocated inodes after an uncrashed entry pass: each one's
      references are those of the entries naming it. */
  function FinalInodes(allocatedInodes: map<nat, Inode>, entries: seq<DirEntry>): (final: map<nat, Inode>)
    ensures final.Keys == allocatedInodes.Keys
  {
    map i | i in allocatedInodes ::
      allocatedInodes[i].(referenceList := allocatedInodes[i].referenceList + EntryRefsTo(entries, i, |entries|))
  }

  /** The checker's main line: free lists, allocated inodes, block
      references, the entry pass and, unless it crashed, the link-count,
      duplicate-block and free-block checks, reporting in that order.
      `inodeOrder` and `blockOrder` are the orders in which the loops over
      the two dictionaries visit their keys. */
  method Check(groups: seq<GroupDesc>, rows: seq<FreeRow>, records: seq<InodeRecord>, entries: seq<DirEntry>,
               inodeOrder: seq<nat>, blockOrder: seq<nat>)
    returns (reports: seq<Report>, crashed: bool)
    requires RecordsComplete(records)
    requires Enumerates(inodeOrder, InodeTable(records, |records|).Keys)
    requires OrderedInodes(InodeTable(records, |records|), inodeOrder)
    requires Enumerates(blockOrder, BlockTable(InodeTable(records, |records|), inodeOrder, |inodeOrder|).Keys)
    ensures crashed == EntryRun(InodeTable(records, |records|), entries, |entries|).crashed
    ensures crashed ==> reports == EntryRun(InodeTable(records, |records|), entries, |entries|).reports
    ensures !crashed ==> (reports ==
      AllEntryReports(InodeTable(records, |records|).Keys, entries, |entries|)
      + LinkReports(groups, FinalInodes(InodeTable(records, |records|), entries), inodeOrder, |inodeOrder|)
      + MultiplyReports(BlockTable(InodeTable(records, |records|), inodeOrder, |inodeOrder|), blockOrder, |blockOrder|)
      + UnallocatedReports(FreeBlockList(rows, groups, |rows|),
          BlockTable(InodeTable(records, |records|), inodeOrder, |inodeOrder|), |FreeBlockList(rows, groups, |rows|)|))
  {
    var freeInodes, freeBlocks := SplitFreeLists(rows, groups);
    var allocatedInodes := BuildInodeTable(records);
    var allocatedBlocks := CollectBlockRefs(allocatedInodes, inodeOrder);
    var inodes, parentOf, entryReports;
    inodes, parentOf, entryReports, crashed := ProcessEntries(allocatedInodes, entries);
    reports := entryReports;
    if !crashed {
      EntryRunRule(allocatedInodes, entries, |entries|, 0);
      forall inum | inum in allocatedInodes
        ensures inodes[inum] == FinalInodes(allocatedInodes, entries)[inum]
      {
        EntryRunRule(allocatedInodes, entries, |entries|, inum);
      }
      assert inodes == FinalInodes(allocatedInodes, entries);
      var linkReports := CheckLinkCounts(groups, inodes, inodeOrder);
      var multiplyReports := CheckMultiplyReferenced(allocatedBlocks, blockOrder);
      var unallocatedReports := CheckUnallocatedBlocks(freeBlocks, allocatedBlocks);
      reports := reports + linkReports + multiplyReports + unallocatedReports;
    }
  }

  /** Over a whole run: an allocated inode's actual link count is the number
      of entries naming it. MISSING INODE is reported for a non-reserved
      inode that no entry names. LINKCOUNT is reported for any other inode
      whose recorded link count differs from the entries naming it. */
  lemma LinkCountsOfRun(groups: seq<GroupDesc>, records: seq<InodeRecord>, entries: seq<DirEntry>, inodeOrder: seq<nat>,
                        inum: nat, x: nat, y: nat)
    requires Enumerates(inodeOrder, InodeTable(records, |records|).Keys)
    ensures InTable(FinalInodes(InodeTable(records, |records|), entries), inodeOrder)
    ensures MissingInode(inum, x) in LinkReports(groups, FinalInodes(InodeTable(records, |records|), entries), inodeOrder, |inodeOrder|) <==>
      && inum in InodeTable(records, |records|)
      && inum > LAST_RESERVED_INODE
      && EntryRefsTo(entries, inum, |entries|) == []
      && FirstFreeList(groups, inum, 0).Some?
      && x == groups[FirstFreeList(groups, inum, 0).value].inodeBitmapBlock
    ensures IncorrectLinkCount(inum, x, y) in LinkReports(groups, FinalInodes(InodeTable(records, |records|), entries), inodeOrder, |inodeOrder|) <==>
      && inum in InodeTable(records, |records|)
      && !(inum > LAST_RESERVED_INODE && EntryRefsTo(entries, inum, |entries|) == [])
      && x == InodeTable(records, |records|)[inum].linkCount
      && y == |EntryRefsTo(entries, inum, |entries|)|
      && x != y
  {
    var table := InodeTable(records, |records|);
    var final := FinalInodes(table, entries);
    InodeTableRule(records, |records|, inum);
    LinkReportsRule(groups, final, inodeOrder, |inodeOrder|, inum, x, y);
    assert inodeOrder[..|inodeOrder|] == inodeOrder;
  }
}
