/** The directory walker: for every inode decoded as a directory it visits
    the first `block count` block pointers in order and parses each data
    block as a chain of variable-length entries, `rec_len` being the stride
    from one entry to the next. */
module Directories {
  import opened Bytes
  import opened Superblock
  import opened Inodes

  // Offsets within a directory entry.
  const ENTRY_INODE_OFFSET: nat := 0
  const REC_LEN_OFFSET: nat := 4
  const NAME_LEN_OFFSET: nat := 6
  const NAME_OFFSET: nat := 8
  /** The walker reads this many name bytes and stops at the first 0. */
  const NAME_READ: nat := 255

  /** One reported entry: the directory's inode, the entry's index among the
      non-zero entries of its block, its record length, its name length, the
      inode it names and the name bytes. */
  datatype DirEntry = DirEntry(
    parent: nat,
    entryNumber: nat,
    recLen: nat,
    nameLen: nat,
    inode: nat,
    name: seq<byte>)

  /** Where the name read at `start` ends, searching from index `h` of the
      255 bytes: the index of the first 0, or 255 when there is none. */
  function NameEnd(img: seq<byte>, start: nat, h: nat): (n: nat)
    requires start + NAME_READ <= |img|
    requires h <= NAME_READ
    decreases NAME_READ - h
    ensures h <= n <= NAME_READ
  {
    if h == NAME_READ || img[start + h] == 0 then h else NameEnd(img, start, h + 1)
  }

  /** The printed name of the entry whose name field starts at `start`. */
  function Name(img: seq<byte>, start: nat): seq<byte>
    requires start + NAME_READ <= |img|
  {
    img[start..start + NameEnd(img, start, 0)]
  }

  /** The name is the longest run of non-zero bytes at `start`, cut at 255
      bytes: it is a prefix of the bytes there, holds no 0, and unless it is
      255 bytes long the byte after it is 0. The name-length field plays no
      part. */
  lemma NameIsNulTerminated(img: seq<byte>, start: nat)
    requires start + NAME_READ <= |img|
    ensures |Name(img, start)| <= NAME_READ
    ensures forall k :: 0 <= k < |Name(img, start)| ==> Name(img, start)[k] != 0
    ensures |Name(img, start)| < NAME_READ ==> img[start + |Name(img, start)|] == 0
  {
    NameEndRun(img, start, 0);
    var name := Name(img, start);
    assert |name| == NameEnd(img, start, 0);
    forall k | 0 <= k < |name|
      ensures name[k] != 0
    {
      assert name[k] == img[start + k] && start <= start + k < start + NameEnd(img, start, 0);
    }
  }

  lemma {:induction false} NameEndRun(img: seq<byte>, start: nat, h: nat)
    requires start + NAME_READ <= |img|
    requires h <= NAME_READ
    decreases NAME_READ - h
    ensures forall j :: start + h <= j < start + NameEnd(img, start, h) ==> img[j] != 0
    ensures NameEnd(img, start, h) < NAME_READ ==> img[start + NameEnd(img, start, h)] == 0
  {
    if h < NAME_READ && img[start + h] != 0 {
      NameEndRun(img, start, h + 1);
    }
  }

  /** A run of non-zero bytes from index `h` up to `n` that ends at a 0 or at
      the 255th byte ends the name. */
  lemma {:induction false} NameEndAt(img: seq<byte>, start: nat, h: nat, n: nat)
    requires start + NAME_READ <= |img|
    requires h <= n <= NAME_READ
    requires forall j :: start + h <= j < start + n ==> img[j] != 0
    requires n == NAME_READ || img[start + n] == 0
    decreases n - h
    ensures NameEnd(img, start, h) == n
  {
    if h < n {
      assert img[start + h] != 0;
      NameEndAt(img, start, h + 1, n);
    }
  }

  /** Copies the name out byte by byte, stopping at the first 0. */
  method ReadName(img: seq<byte>, start: nat) returns (name: seq<byte>)
    requires start + NAME_READ <= |img|
    ensures name == Name(img, start)
  {
    name := [];
    var h := 0;
    while h < NAME_READ
      invariant h <= NAME_READ
      invariant forall j :: start <= j < start + h ==> img[j] != 0
      invariant name == img[start..start + h]
      decreases NAME_READ - h
    {
      if img[start + h] == 0 {
        break;
      }
      assert img[start..start + h + 1] == img[start..start + h] + [img[start + h]];
      name := name + [img[start + h]];
      h := h + 1;
    }
    NameEndAt(img, start, 0, h);
  }

  /** The record length of the entry at byte `at`. */
  function RecLen(img: seq<byte>, at: nat): nat
    requires at + REC_LEN_OFFSET + 2 <= |img|
  {
    LE16(img, at + REC_LEN_OFFSET)
  }

  /** The inode number of the entry at byte `at`; 0 marks an unused entry. */
  function EntryInode(img: seq<byte>, at: nat): nat
    requires at + ENTRY_INODE_OFFSET + 4 <= |img|
  {
    LE32(img, at + ENTRY_INODE_OFFSET)
  }

  /** Every field the walker reads from the entry at byte `at` lies inside
      the image: the fixed fields, and the 255 name bytes of a used entry.
      For an unused entry the walker reads only the inode and the record
      length (up to `at + 6`); requiring the two name-header bytes as well
      is a slight over-approximation. */
  predicate EntryReadable(img: seq<byte>, at: nat)
  {
    && at + NAME_OFFSET <= |img|
    && (EntryInode(img, at) != 0 ==> at + NAME_OFFSET + NAME_READ <= |img|)
  }

  /** From offset `eo` of the block at byte `bo` on, every entry visited
      before the offset reaches `bs` is readable and has a positive record
      length, so the walk ends. */
  predicate ChainOK(img: seq<byte>, bo: nat, bs: nat, eo: nat)
    decreases bs - eo
  {
    eo >= bs ||
      (&& EntryReadable(img, bo + eo)
       && RecLen(img, bo + eo) > 0
       && ChainOK(img, bo, bs, eo + RecLen(img, bo + eo)))
  }

  /** The offsets the walk visits from `eo` on. */
  function ChainOffsets(img: seq<byte>, bo: nat, bs: nat, eo: nat): seq<nat>
    requires ChainOK(img, bo, bs, eo)
    decreases bs - eo
  {
    if eo >= bs then [] else [eo] + ChainOffsets(img, bo, bs, eo + RecLen(img, bo + eo))
  }

  /** The entry at offset `o` of the block at `bo` is readable and names a
      non-zero inode. */
  predicate UsedAt(img: seq<byte>, bo: nat, o: nat)
  {
    EntryReadable(img, bo + o) && EntryInode(img, bo + o) != 0
  }

  /** The visited offsets of used entries from `eo` on; unused entries are
      skipped but still advance the offset by their record length. */
  function UsedOffsets(img: seq<byte>, bo: nat, bs: nat, eo: nat): (us: seq<nat>)
    requires ChainOK(img, bo, bs, eo)
    decreases bs - eo
    ensures forall k :: 0 <= k < |us| ==> UsedAt(img, bo, us[k])
  {
    if eo >= bs then []
    else (if UsedAt(img, bo, eo) then [eo] else []) + UsedOffsets(img, bo, bs, eo + RecLen(img, bo + eo))
  }

  /** The reported fields of the used entry at byte `at`, numbered `count`. */
  function DecodeEntry(img: seq<byte>, at: nat, parent: nat, count: nat): (e: DirEntry)
    requires EntryReadable(img, at) && EntryInode(img, at) != 0
    ensures e.parent == parent && e.entryNumber == count && e.inode != 0
  {
    DirEntry(
      parent := parent,
      entryNumber := count,
      recLen := RecLen(img, at),
      nameLen := img[at + NAME_LEN_OFFSET] as nat,
      inode := EntryInode(img, at),
      name := Name(img, at + NAME_OFFSET))
  }

  /** The used entries at the offsets `us` of the block at byte `bo`, the
      k-th numbered `count + k`. */
  function DecodeAll(img: seq<byte>, parent: nat, bo: nat, us: seq<nat>, count: nat): (es: seq<DirEntry>)
    requires forall k :: 0 <= k < |us| ==> UsedAt(img, bo, us[k])
    ensures |es| == |us|
  {
    seq(|us|, k requires 0 <= k < |us| && UsedAt(img, bo, us[k]) => DecodeEntry(img, bo + us[k], parent, count + k))
  }

  /** The entries reported for the block at byte `bo`: the k-th is the used
      entry at the k-th used offset, numbered k, so the numbering counts used
      entries only. */
  function BlockEntries(img: seq<byte>, parent: nat, bo: nat, bs: nat): seq<DirEntry>
    requires ChainOK(img, bo, bs, 0)
  {
    DecodeAll(img, parent, bo, UsedOffsets(img, bo, bs, 0), 0)
  }

  /** The visited offsets start at `eo` and stay below the block size; the
      walk can go on from each of them, and each is the previous one plus the
      previous entry's record length. */
  lemma {:induction false} VisitedOffset(img: seq<byte>, bo: nat, bs: nat, eo: nat, k: nat)
    requires ChainOK(img, bo, bs, eo)
    requires k < |ChainOffsets(img, bo, bs, eo)|
    decreases bs - eo
    ensures k == 0 ==> ChainOffsets(img, bo, bs, eo)[k] == eo
    ensures eo <= ChainOffsets(img, bo, bs, eo)[k] < bs
    ensures ChainOK(img, bo, bs, ChainOffsets(img, bo, bs, eo)[k])
    ensures k + 1 < |ChainOffsets(img, bo, bs, eo)| ==>
      ChainOffsets(img, bo, bs, eo)[k + 1]
        == ChainOffsets(img, bo, bs, eo)[k] + RecLen(img, bo + ChainOffsets(img, bo, bs, eo)[k])
  {
    var next := eo + RecLen(img, bo + eo);
    if k > 0 {
      VisitedOffset(img, bo, bs, next, k - 1);
    } else if k + 1 < |ChainOffsets(img, bo, bs, eo)| {
      VisitedOffset(img, bo, bs, next, 0);
    }
  }

  /** A used offset is a visited one. */
  lemma {:induction false} UsedOffsetsVisited(img: seq<byte>, bo: nat, bs: nat, eo: nat, o: nat)
    requires ChainOK(img, bo, bs, eo)
    requires o in UsedOffsets(img, bo, bs, eo)
    decreases bs - eo
    ensures o in ChainOffsets(img, bo, bs, eo)
  {
    var next := eo + RecLen(img, bo + eo);
    if o != eo {
      UsedOffsetsVisited(img, bo, bs, next, o);
    }
  }

  /** A visited offset whose entry is used is a used offset. */
  lemma {:induction false} VisitedUsedOffsets(img: seq<byte>, bo: nat, bs: nat, eo: nat, o: nat)
    requires ChainOK(img, bo, bs, eo)
    requires o in ChainOffsets(img, bo, bs, eo) && UsedAt(img, bo, o)
    decreases bs - eo
    ensures o in UsedOffsets(img, bo, bs, eo)
  {
    var next := eo + RecLen(img, bo + eo);
    if o != eo {
      VisitedUsedOffsets(img, bo, bs, next, o);
    }
  }

  /** An offset is a used one iff the walk visits it and the entry there
      names a non-zero inode. */
  lemma UsedOffsetsAreVisited(img: seq<byte>, bo: nat, bs: nat, eo: nat, o: nat)
    requires ChainOK(img, bo, bs, eo)
    ensures o in UsedOffsets(img, bo, bs, eo) <==> o in ChainOffsets(img, bo, bs, eo) && UsedAt(img, bo, o)
  {
    if o in UsedOffsets(img, bo, bs, eo) {
      UsedOffsetsVisited(img, bo, bs, eo, o);
    }
    if o in ChainOffsets(img, bo, bs, eo) && UsedAt(img, bo, o) {
      VisitedUsedOffsets(img, bo, bs, eo, o);
    }
  }

  /** The result of the walk from offset `eo` on, `acc` having been reported
      already and the next used entry being numbered `count`; it follows the
      loop of `WalkBlock` step by step. */
  ghost function WalkFrom(img: seq<byte>, parent: nat, bo: nat, bs: nat, eo: nat,
                          acc: seq<DirEntry>, count: nat): seq<DirEntry>
    requires ChainOK(img, bo, bs, eo)
    decreases bs - eo
  {
    if eo >= bs then acc
    else
      var next := eo + RecLen(img, bo + eo);
      if UsedAt(img, bo, eo) then WalkFrom(img, parent, bo, bs, next, acc + [DecodeEntry(img, bo + eo, parent, count)], count + 1)
      else WalkFrom(img, parent, bo, bs, next, acc, count)
  }

  /** Decoding a used offset in front of others. */
  lemma DecodeAllCons(img: seq<byte>, parent: nat, bo: nat, o: nat, us: seq<nat>, count: nat)
    requires UsedAt(img, bo, o)
    requires forall k :: 0 <= k < |us| ==> UsedAt(img, bo, us[k])
    ensures forall k :: 0 <= k < |[o] + us| ==> UsedAt(img, bo, ([o] + us)[k])
    ensures DecodeAll(img, parent, bo, [o] + us, count)
      == [DecodeEntry(img, bo + o, parent, count)] + DecodeAll(img, parent, bo, us, count + 1)
  {
    assert forall k :: 0 <= k < |[o] + us| ==> UsedAt(img, bo, ([o] + us)[k]) by {
      forall k | 0 <= k < |[o] + us|
        ensures UsedAt(img, bo, ([o] + us)[k])
      {
        if k > 0 {
          assert ([o] + us)[k] == us[k - 1];
        }
      }
    }
  }

  /** The step-by-step walk reports `acc` followed by the used entries from
      `eo` on, numbered from `count`. */
  lemma {:induction false} WalkFromReports(img: seq<byte>, parent: nat, bo: nat, bs: nat, eo: nat,
                                           acc: seq<DirEntry>, count: nat)
    requires ChainOK(img, bo, bs, eo)
    decreases bs - eo
    ensures WalkFrom(img, parent, bo, bs, eo, acc, count)
      == acc + DecodeAll(img, parent, bo, UsedOffsets(img, bo, bs, eo), count)
  {
    if eo < bs {
      var next := eo + RecLen(img, bo + eo);
      if UsedAt(img, bo, eo) {
        var e := DecodeEntry(img, bo + eo, parent, count);
        WalkFromReports(img, parent, bo, bs, next, acc + [e], count + 1);
        UsedStep(img, parent, bo, bs, eo, acc, count);
      } else {
        WalkFromReports(img, parent, bo, bs, next, acc, count);
        assert UsedOffsets(img, bo, bs, eo) == UsedOffsets(img, bo, bs, next);
      }
    } else {
      assert DecodeAll(img, parent, bo, [], count) == [];
    }
  }

  /** The step of `WalkFromReports` at a used entry. */
  lemma UsedStep(img: seq<byte>, parent: nat, bo: nat, bs: nat, eo: nat, acc: seq<DirEntry>, count: nat)
    requires ChainOK(img, bo, bs, eo) && eo < bs && UsedAt(img, bo, eo)
    requires WalkFrom(img, parent, bo, bs, eo + RecLen(img, bo + eo), acc + [DecodeEntry(img, bo + eo, parent, count)], count + 1)
      == acc + [DecodeEntry(img, bo + eo, parent, count)]
         + DecodeAll(img, parent, bo, UsedOffsets(img, bo, bs, eo + RecLen(img, bo + eo)), count + 1)
    ensures WalkFrom(img, parent, bo, bs, eo, acc, count)
      == acc + DecodeAll(img, parent, bo, UsedOffsets(img, bo, bs, eo), count)
  {
    var next := eo + RecLen(img, bo + eo);
    var rest := UsedOffsets(img, bo, bs, next);
    var e := DecodeEntry(img, bo + eo, parent, count);
    assert UsedOffsets(img, bo, bs, eo) == [eo] + rest;
    DecodeAllCons(img, parent, bo, eo, rest, count);
    assert acc + [e] + DecodeAll(img, parent, bo, rest, count + 1)
      == acc + ([e] + DecodeAll(img, parent, bo, rest, count + 1));
  }

  /** Reads the fields of the used entry at byte `at`. */
  method ReadEntry(img: seq<byte>, at: nat, parent: nat, count: nat) returns (e: DirEntry)
    requires EntryReadable(img, at) && EntryInode(img, at) != 0
    ensures e == DecodeEntry(img, at, parent, count)
  {
    var inNum := EntryInode(img, at);
    var recLen := RecLen(img, at);
    var nameLen := img[at + NAME_LEN_OFFSET] as nat;
    var name := ReadName(img, at + NAME_OFFSET);
    e := DirEntry(parent, count, recLen, nameLen, inNum, name);
  }

  /** Walks one data block from offset 0, as the `while (entry_offset <
      block_size)` loop does, with `count` numbering the used entries. */
  method WalkBlock(img: seq<byte>, parent: nat, bo: nat, bs: nat) returns (entries: seq<DirEntry>)
    requires ChainOK(img, bo, bs, 0)
    ensures entries == BlockEntries(img, parent, bo, bs)
  {
    WalkFromReports(img, parent, bo, bs, 0, [], 0);
    entries := [];
    var entryOffset := 0;
    var count := 0;
    while entryOffset < bs
      invariant ChainOK(img, bo, bs, entryOffset)
      invariant WalkFrom(img, parent, bo, bs, entryOffset, entries, count) == WalkFrom(img, parent, bo, bs, 0, [], 0)
      decreases bs - entryOffset
    {
      var at := bo + entryOffset;
      var recLen := RecLen(img, at);
      if EntryInode(img, at) != 0 {
        var entry := ReadEntry(img, at, parent, count);
        entries := entries + [entry];
        count := count + 1;
      }
      entryOffset := entryOffset + recLen;
    }
  }

  /** The data block that block pointer `ptr` names, walkable from offset 0. */
  predicate BlockWalkable(img: seq<byte>, sb: SuperBlock, ptr: nat)
  {
    ComputeOffset(sb, ptr) >= 0 && ChainOK(img, ComputeOffset(sb, ptr), sb.blockSize, 0)
  }

  /** A directory inode reports at most 15 blocks, and each of those blocks
      is walkable. */
  predicate DirectoryWalkable(img: seq<byte>, sb: SuperBlock, r: InodeRecord)
  {
    && r.blockCount <= POINTER_COUNT
    && |r.pointers| == POINTER_COUNT
    && forall p :: 0 <= p < r.blockCount ==> BlockWalkable(img, sb, r.pointers[p])
  }

  /** The entries of the first `n` blocks of directory `r`, in pointer
      order; the numbering restarts at 0 in every block. */
  function DirectoryEntries(img: seq<byte>, sb: SuperBlock, r: InodeRecord, n: nat): seq<DirEntry>
    requires DirectoryWalkable(img, sb, r)
    requires n <= r.blockCount
  {
    if n == 0 then []
    else
      var blockOffset := ComputeOffset(sb, r.pointers[n - 1]);
      DirectoryEntries(img, sb, r, n - 1) + BlockEntries(img, r.number, blockOffset, sb.blockSize)
  }

  /** Walks the first `block count` pointers of a directory inode. */
  method WalkDirectory(img: seq<byte>, sb: SuperBlock, r: InodeRecord) returns (entries: seq<DirEntry>)
    requires DirectoryWalkable(img, sb, r)
    ensures entries == DirectoryEntries(img, sb, r, r.blockCount)
  {
    entries := [];
    var p := 0;
    while p < r.blockCount
      invariant p <= r.blockCount
      invariant entries == DirectoryEntries(img, sb, r, p)
    {
      var blockOffset := ComputeOffset(sb, r.pointers[p]);
      var blockEntries := WalkBlock(img, r.number, blockOffset, sb.blockSize);
      entries := entries + blockEntries;
      p := p + 1;
    }
  }

  /** Every directory inode among the records can be walked. */
  predicate DirectoriesWalkable(img: seq<byte>, sb: SuperBlock, records: seq<InodeRecord>)
  {
    forall k :: 0 <= k < |records| && records[k].fileType == Directory ==> DirectoryWalkable(img, sb, records[k])
  }

  /** The entries of the directories among the first `n` records, in record
      order; other inodes contribute nothing. */
  function AllEntries(img: seq<byte>, sb: SuperBlock, records: seq<InodeRecord>, n: nat): seq<DirEntry>
    requires n <= |records|
    requires DirectoriesWalkable(img, sb, records)
  {
    if n == 0 then []
    else
      var r := records[n - 1];
      AllEntries(img, sb, records, n - 1)
        + (if r.fileType == Directory then DirectoryEntries(img, sb, r, r.blockCount) else [])
  }

  /** The directory pass over the records of the inode pass. */
  method ReadDirectories(img: seq<byte>, sb: SuperBlock, records: seq<InodeRecord>) returns (entries: seq<DirEntry>)
    requires DirectoriesWalkable(img, sb, records)
    ensures entries == AllEntries(img, sb, records, |records|)
  {
    entries := [];
    var k := 0;
    while k < |records|
      invariant k <= |records|
      invariant entries == AllEntries(img, sb, records, k)
    {
      var r := records[k];
      if r.fileType == Directory {
        var dirEntries := WalkDirectory(img, sb, r);
        entries := entries + dirEntries;
      }
      k := k + 1;
    }
  }

  /** Every reported entry belongs to a directory record and names a
      non-zero inode. */
  lemma {:induction false} EntriesHaveDirectoryParents(img: seq<byte>, sb: SuperBlock, records: seq<InodeRecord>, n: nat)
    requires n <= |records|
    requires DirectoriesWalkable(img, sb, records)
    ensures forall e :: e in AllEntries(img, sb, records, n) ==>
      e.inode != 0 && exists k :: 0 <= k < n && records[k].fileType == Directory && records[k].number == e.parent
  {
    if n > 0 {
      EntriesHaveDirectoryParents(img, sb, records, n - 1);
      var r := records[n - 1];
      if r.fileType == Directory {
        forall e | e in DirectoryEntries(img, sb, r, r.blockCount)
          ensures e.inode != 0 && e.parent == r.number
        {
          DirectoryEntriesParent(img, sb, r, r.blockCount, e);
        }
      }
    }
  }

  lemma {:induction false} DirectoryEntriesParent(img: seq<byte>, sb: SuperBlock, r: InodeRecord, n: nat, e: DirEntry)
    requires DirectoryWalkable(img, sb, r)
    requires n <= r.blockCount
    requires e in DirectoryEntries(img, sb, r, n)
    ensures e.inode != 0 && e.parent == r.number
  {
    var prev := DirectoryEntries(img, sb, r, n - 1);
    var bo := ComputeOffset(sb, r.pointers[n - 1]);
    if e in prev {
      DirectoryEntriesParent(img, sb, r, n - 1, e);
    } else {
      var es := BlockEntries(img, r.number, bo, sb.blockSize);
      var k :| 0 <= k < |es| && es[k] == e;
    }
  }
}
