/** The inode table reader: for every group it re-reads the inode bitmap,
    takes every set bit whose one-based table index is strictly below
    inodes_per_group, and decodes the 128-byte inode slot at that index. */
module Inodes {
  import opened Bytes
  import opened Superblock
  import opened Groups
  import opened Bitmaps

  const INODE_SIZE: nat := 128
  // Offsets of the fields the reader decodes, from the start of an inode slot.
  const I_MODE_OFFSET: nat := 0
  const I_UID_OFFSET: nat := 2
  const I_SIZE_OFFSET: nat := 4
  const I_ACCESS_OFFSET: nat := 8
  const I_CREATE_OFFSET: nat := 12
  const I_MOD_OFFSET: nat := 16
  const I_GID_OFFSET: nat := 24
  const I_LINK_COUNT_OFFSET: nat := 26
  const I_BLOCK_OFFSET: nat := 28
  const B_PTRS_OFFSET: nat := 40
  /** Number of block-pointer slots in an inode: 12 direct and 3 indirect. */
  const POINTER_COUNT: nat := 15

  /** The type of an inode, from the file-type bits of its mode. */
  datatype FileType = Regular | Directory | Symlink | Unknown

  /** `mode & 0xF000`. */
  function TypeBits(mode: nat): nat
  {
    mode / 0x1000 % 0x10 * 0x1000
  }

  /** The reported type character: f for 0x8000, d for 0x4000, s for 0xA000,
      ? for anything else. */
  function FileTypeOf(mode: nat): FileType
  {
    var bits := TypeBits(mode);
    if bits == 0x8000 then Regular
    else if bits == 0x4000 then Directory
    else if bits == 0xA000 then Symlink
    else Unknown
  }

  /** For a 16-bit mode, the type is decided by the range the mode falls in:
      the four high bits are the value's leading hexadecimal digit. */
  lemma FileTypeRanges(mode: nat)
    requires mode < TWO_16
    ensures FileTypeOf(mode) == Regular <==> 0x8000 <= mode < 0x9000
    ensures FileTypeOf(mode) == Directory <==> 0x4000 <= mode < 0x5000
    ensures FileTypeOf(mode) == Symlink <==> 0xA000 <= mode < 0xB000
    ensures FileTypeOf(mode) == Unknown <==>
      !(0x8000 <= mode < 0x9000 || 0x4000 <= mode < 0x5000 || 0xA000 <= mode < 0xB000)
  {
    var d := mode / 0x1000;
    assert d < 0x10;
    assert d * 0x1000 <= mode < (d + 1) * 0x1000;
    assert TypeBits(mode) == d * 0x1000;
  }

  /** One decoded inode slot with the fields in report order. `blockCount`
      is the stored count already divided by the dumper's divisor. */
  datatype InodeRecord = InodeRecord(
    number: nat,
    fileType: FileType,
    mode: nat,
    owner: nat,
    group: nat,
    linkCount: nat,
    ctime: nat,
    mtime: nat,
    atime: nat,
    size: nat,
    blockCount: nat,
    pointers: seq<nat>)

  /** The 15 block ids at `off + 40 + 4 * p`. */
  function BlockPointers(img: seq<byte>, off: nat): (ptrs: seq<nat>)
    requires off + INODE_SIZE <= |img|
    ensures |ptrs| == POINTER_COUNT
  {
    seq(POINTER_COUNT, p requires 0 <= p < POINTER_COUNT => LE32(img, off + B_PTRS_OFFSET + 4 * p))
  }

  /** Decodes the slot at byte `off` as inode `number`. The stored block
      count is divided by `divisor`, which stands for `2 << block_size`. */
  function DecodeInode(img: seq<byte>, off: nat, number: nat, divisor: nat): (r: InodeRecord)
    requires off + INODE_SIZE <= |img|
    requires divisor >= 1
    ensures r.number == number
    ensures |r.pointers| == POINTER_COUNT
  {
    var mode := LE16(img, off + I_MODE_OFFSET);
    InodeRecord(
      number := number,
      fileType := FileTypeOf(mode),
      mode := mode,
      owner := LE16(img, off + I_UID_OFFSET),
      group := LE16(img, off + I_GID_OFFSET),
      linkCount := LE16(img, off + I_LINK_COUNT_OFFSET),
      ctime := LE32(img, off + I_CREATE_OFFSET),
      mtime := LE32(img, off + I_MOD_OFFSET),
      atime := LE32(img, off + I_ACCESS_OFFSET),
      size := LE32(img, off + I_SIZE_OFFSET),
      blockCount := LE32(img, off + I_BLOCK_OFFSET) / divisor,
      pointers := BlockPointers(img, off))
  }

  /** Where each field is read within the 128-byte slot, and what the
      stored block count becomes: the largest multiple of `divisor` that
      does not exceed it, divided by `divisor`. */
  lemma InodeFieldLayout(img: seq<byte>, off: nat, number: nat, divisor: nat)
    requires off + INODE_SIZE <= |img|
    requires divisor >= 1
    ensures var r := DecodeInode(img, off, number, divisor);
      && r.fileType == FileTypeOf(r.mode)
      && r.mode == LE16(img, off) && r.owner == LE16(img, off + 2)
      && r.group == LE16(img, off + 24) && r.linkCount == LE16(img, off + 26)
      && r.atime == LE32(img, off + 8) && r.ctime == LE32(img, off + 12)
      && r.mtime == LE32(img, off + 16) && r.size == LE32(img, off + 4)
      && r.mode < TWO_16 && r.linkCount < TWO_16
      && r.blockCount * divisor <= LE32(img, off + 28) < (r.blockCount + 1) * divisor
      && forall p :: 0 <= p < POINTER_COUNT ==> r.pointers[p] == LE32(img, off + 40 + 4 * p)
  {
    var stored := LE32(img, off + I_BLOCK_OFFSET);
    var q := stored / divisor;
    assert stored == q * divisor + stored % divisor;
    assert (q + 1) * divisor == q * divisor + divisor;
  }

  /** The inode is decoded from its own 128 bytes alone. */
  lemma InodeIsLocal(img1: seq<byte>, img2: seq<byte>, off: nat, number: nat, divisor: nat)
    requires off + INODE_SIZE <= |img1| && off + INODE_SIZE <= |img2|
    requires divisor >= 1
    requires img1[off..off + INODE_SIZE] == img2[off..off + INODE_SIZE]
    ensures DecodeInode(img1, off, number, divisor) == DecodeInode(img2, off, number, divisor)
  {
    forall k | off <= k < off + INODE_SIZE
      ensures img1[k] == img2[k]
    {
      assert img1[k] == img1[off..off + INODE_SIZE][k - off];
    }
  }

  /** Byte offset of one-based table index `ti` in group `g`'s inode table. */
  function SlotOffset(sb: SuperBlock, g: GroupDesc, ti: nat): int
  {
    ComputeOffset(sb, g.inodeTableStartBlock) + INODE_SIZE * (ti - 1)
  }

  predicate SlotReadable(img: seq<byte>, sb: SuperBlock, g: GroupDesc, ti: nat)
  {
    0 <= SlotOffset(sb, g, ti) && SlotOffset(sb, g, ti) + INODE_SIZE <= |img|
  }

  /** The inode bitmap block of group `g`. */
  function InodeBitmap(img: seq<byte>, sb: SuperBlock, g: GroupDesc): (bm: seq<byte>)
    requires BlockReadable(img, sb, g.inodeBitmapBlock)
    ensures |bm| == sb.blockSize
  {
    BlockBytes(img, sb, g.inodeBitmapBlock)
  }

  /** Table index `ti` is taken: its bit `ti - 1` is set and it lies strictly
      below inodes_per_group. */
  predicate Taken(bm: seq<byte>, ipg: nat, ti: nat)
    requires 1 <= ti <= 8 * |bm|
  {
    BitmapBit(bm, ti - 1) && ti < ipg
  }

  /** The bitmap and every slot the reader decodes lie inside the image. */
  predicate InodeTableReadable(img: seq<byte>, sb: SuperBlock, g: GroupDesc)
  {
    && BlockReadable(img, sb, g.inodeBitmapBlock)
    && forall ti :: 1 <= ti <= 8 * sb.blockSize && Taken(InodeBitmap(img, sb, g), sb.inodesPerGroup, ti) ==>
         SlotReadable(img, sb, g, ti)
  }

  /** The taken table indices among the first `m` bits, in scan order. */
  function TakenSlots(bm: seq<byte>, ipg: nat, m: nat): seq<nat>
    requires m <= 8 * |bm|
  {
    if m == 0 then []
    else TakenSlots(bm, ipg, m - 1) + (if Taken(bm, ipg, m) then [m] else [])
  }

  /** The slot at table index `ti` of group `i`, decoded as inode
      `inodes_per_group * i + ti`. */
  function DecodeSlot(img: seq<byte>, sb: SuperBlock, g: GroupDesc, i: nat, ti: nat, divisor: nat): InodeRecord
    requires SlotReadable(img, sb, g, ti)
    requires divisor >= 1
  {
    DecodeInode(img, SlotOffset(sb, g, ti), sb.inodesPerGroup * i + ti, divisor)
  }

  /** The records decoded from the first `m` bits of group `i`'s bitmap. */
  function InodesUpTo(img: seq<byte>, sb: SuperBlock, g: GroupDesc, i: nat, divisor: nat, m: nat): seq<InodeRecord>
    requires InodeTableReadable(img, sb, g)
    requires divisor >= 1
    requires m <= 8 * sb.blockSize
  {
    if m == 0 then []
    else
      var next := if Taken(InodeBitmap(img, sb, g), sb.inodesPerGroup, m) then [DecodeSlot(img, sb, g, i, m, divisor)] else [];
      InodesUpTo(img, sb, g, i, divisor, m - 1) + next
  }

  /** The records of group `i`, over all `8 * block_size` bits. */
  function GroupInodes(img: seq<byte>, sb: SuperBlock, g: GroupDesc, i: nat, divisor: nat): seq<InodeRecord>
    requires InodeTableReadable(img, sb, g)
    requires divisor >= 1
  {
    InodesUpTo(img, sb, g, i, divisor, 8 * sb.blockSize)
  }

  /** `ti` is taken among the first `m` bits iff it is one of them, its bit
      is set and it is strictly below inodes_per_group. */
  lemma {:induction false} TakenSlotsMembers(bm: seq<byte>, ipg: nat, m: nat, ti: nat)
    requires m <= 8 * |bm|
    ensures ti in TakenSlots(bm, ipg, m) <==> 1 <= ti <= m && BitmapBit(bm, ti - 1) && ti < ipg
  {
    if m > 0 {
      TakenSlotsMembers(bm, ipg, m - 1, ti);
    }
  }

  /** The taken indices strictly increase, so inode numbers do too. */
  lemma {:induction false} TakenSlotsIncreasing(bm: seq<byte>, ipg: nat, m: nat)
    requires m <= 8 * |bm|
    ensures forall k :: 0 <= k < |TakenSlots(bm, ipg, m)| ==> 1 <= TakenSlots(bm, ipg, m)[k] <= m
    ensures forall a, b :: 0 <= a < b < |TakenSlots(bm, ipg, m)| ==>
      TakenSlots(bm, ipg, m)[a] < TakenSlots(bm, ipg, m)[b]
  {
    if m > 0 {
      TakenSlotsIncreasing(bm, ipg, m - 1);
      var prev := TakenSlots(bm, ipg, m - 1);
      var r := TakenSlots(bm, ipg, m);
      forall k | 0 <= k < |r|
        ensures 1 <= r[k] <= m
      {
        if k < |prev| {
          assert r[k] == prev[k];
        }
      }
      forall a, b | 0 <= a < b < |r|
        ensures r[a] < r[b]
      {
        assert r[a] == prev[a];
        if b < |prev| {
          assert r[b] == prev[b];
        }
      }
    }
  }

  /** The k-th record is the slot at the k-th taken index: one record per
      set bit below inodes_per_group, numbered `inodes_per_group * i + ti`
      and read from `compute_offset(inode_table) + 128 * (ti - 1)`. */
  lemma {:induction false} InodesAreTakenSlots(img: seq<byte>, sb: SuperBlock, g: GroupDesc, i: nat, divisor: nat, m: nat)
    requires InodeTableReadable(img, sb, g)
    requires divisor >= 1
    requires m <= 8 * sb.blockSize
    ensures var slots := TakenSlots(InodeBitmap(img, sb, g), sb.inodesPerGroup, m);
      && |InodesUpTo(img, sb, g, i, divisor, m)| == |slots|
      && forall k :: 0 <= k < |slots| ==>
           && SlotReadable(img, sb, g, slots[k])
           && InodesUpTo(img, sb, g, i, divisor, m)[k] == DecodeSlot(img, sb, g, i, slots[k], divisor)
           && InodesUpTo(img, sb, g, i, divisor, m)[k].number == sb.inodesPerGroup * i + slots[k]
  {
    if m > 0 {
      InodesAreTakenSlots(img, sb, g, i, divisor, m - 1);
      var bm := InodeBitmap(img, sb, g);
      var prev, slotsPrev := InodesUpTo(img, sb, g, i, divisor, m - 1), TakenSlots(bm, sb.inodesPerGroup, m - 1);
      var cur, slots := InodesUpTo(img, sb, g, i, divisor, m), TakenSlots(bm, sb.inodesPerGroup, m);
      forall k | 0 <= k < |slots|
        ensures SlotReadable(img, sb, g, slots[k])
        ensures cur[k] == DecodeSlot(img, sb, g, i, slots[k], divisor)
      {
        if k < |slotsPrev| {
          assert slots[k] == slotsPrev[k] && cur[k] == prev[k];
        }
      }
    }
  }

  /** On one bitmap, an index below inodes_per_group is taken exactly when
      its number is not among the clear bits. */
  lemma TakenIffNotClear(bm: seq<byte>, ipg: nat, base: nat, ti: nat)
    requires 1 <= ti <= 8 * |bm| && ti < ipg
    ensures ti in TakenSlots(bm, ipg, 8 * |bm|) <==> base + ti !in ClearBits(bm, base, 8 * |bm|)
  {
    TakenSlotsMembers(bm, ipg, 8 * |bm|, ti);
    ClearBitsMembers(bm, base, 8 * |bm|, base + ti);
  }

  /** An index below inodes_per_group is decoded by the inode pass exactly
      when the bitmap pass does not list its number as free. */
  lemma DecodedIffNotFree(img: seq<byte>, sb: SuperBlock, g: GroupDesc, i: nat, ti: nat)
    requires BlockReadable(img, sb, g.inodeBitmapBlock)
    requires 1 <= ti <= 8 * sb.blockSize && ti < sb.inodesPerGroup
    ensures ti in TakenSlots(InodeBitmap(img, sb, g), sb.inodesPerGroup, 8 * sb.blockSize)
        <==> sb.inodesPerGroup * i + ti !in FreeInodesOf(img, sb, g, i)
  {
    TakenIffNotClear(InodeBitmap(img, sb, g), sb.inodesPerGroup, sb.inodesPerGroup * i, ti);
  }

  /** Every slot that byte `b` of the bitmap, at index `j`, makes the reader
      decode lies inside the image. */
  predicate ByteSlotsReadable(img: seq<byte>, sb: SuperBlock, g: GroupDesc, j: nat, b: byte)
  {
    forall ti :: 8 * j < ti <= 8 * j + 8 && ti < sb.inodesPerGroup && BitSet(b, ti - 1 - 8 * j) ==>
      SlotReadable(img, sb, g, ti)
  }

  /** The records decoded from the first `c` bits of byte `j`, whose value
      is `b`: table index `8 * j + c` for a set bit `c - 1`. */
  function ByteInodes(img: seq<byte>, sb: SuperBlock, g: GroupDesc, i: nat, divisor: nat, j: nat, b: byte, c: nat)
    : seq<InodeRecord>
    requires ByteSlotsReadable(img, sb, g, j, b)
    requires divisor >= 1
    requires c <= 8
  {
    if c == 0 then []
    else
      var ti := 8 * j + c;
      var next := if BitSet(b, c - 1) && ti < sb.inodesPerGroup then [DecodeSlot(img, sb, g, i, ti, divisor)] else [];
      ByteInodes(img, sb, g, i, divisor, j, b, c - 1) + next
  }

  /** The slots of byte `j` are among those the table must hold. */
  lemma ByteSlotsOfTable(img: seq<byte>, sb: SuperBlock, g: GroupDesc, j: nat)
    requires InodeTableReadable(img, sb, g)
    requires j < sb.blockSize
    ensures ByteSlotsReadable(img, sb, g, j, InodeBitmap(img, sb, g)[j])
  {
    var bm := InodeBitmap(img, sb, g);
    forall ti | 8 * j < ti <= 8 * j + 8 && ti < sb.inodesPerGroup && BitSet(bm[j], ti - 1 - 8 * j)
      ensures SlotReadable(img, sb, g, ti)
    {
      assert (ti - 1) / 8 == j && (ti - 1) % 8 == ti - 1 - 8 * j;
      assert Taken(bm, sb.inodesPerGroup, ti);
    }
  }

  /** Decoding byte `j` continues the records of the bytes before it. */
  lemma {:induction false} InodesByByte(img: seq<byte>, sb: SuperBlock, g: GroupDesc, i: nat, divisor: nat, j: nat, c: nat)
    requires InodeTableReadable(img, sb, g)
    requires divisor >= 1
    requires j < sb.blockSize && c <= 8
    ensures ByteSlotsReadable(img, sb, g, j, InodeBitmap(img, sb, g)[j])
    ensures InodesUpTo(img, sb, g, i, divisor, 8 * j + c)
      == InodesUpTo(img, sb, g, i, divisor, 8 * j) + ByteInodes(img, sb, g, i, divisor, j, InodeBitmap(img, sb, g)[j], c)
  {
    ByteSlotsOfTable(img, sb, g, j);
    if c > 0 {
      InodesByByte(img, sb, g, i, divisor, j, c - 1);
      TakenInByte(InodeBitmap(img, sb, g), sb.inodesPerGroup, j, c);
    }
  }

  /** Index `8 * j + c` is taken iff bit `c - 1` of byte `j` is set and the
      index is below inodes_per_group. */
  lemma TakenInByte(bm: seq<byte>, ipg: nat, j: nat, c: nat)
    requires j < |bm| && 1 <= c <= 8
    ensures Taken(bm, ipg, 8 * j + c) <==> BitSet(bm[j], c - 1) && 8 * j + c < ipg
  {
    var t := 8 * j + c - 1;
    assert t / 8 == j && t % 8 == c - 1;
  }

  /** The inner loop of the inode pass for byte `j`: for each mask `k` the
      table index is `8 * j + counter`; a set bit whose index is below
      inodes_per_group decodes that slot. */
  method ScanInodeByte(img: seq<byte>, sb: SuperBlock, g: GroupDesc, i: nat, divisor: nat, j: nat, bitmapByte: byte)
    returns (records: seq<InodeRecord>)
    requires ByteSlotsReadable(img, sb, g, j, bitmapByte)
    requires divisor >= 1
    ensures records == ByteInodes(img, sb, g, i, divisor, j, bitmapByte, 8)
  {
    records := [];
    var counter := 1;
    var k := 1;
    while k <= 128
      invariant 1 <= counter <= 9
      invariant k == Pow2(counter - 1)
      invariant records == ByteInodes(img, sb, g, i, divisor, j, bitmapByte, counter - 1)
    {
      Pow2InByte(counter - 1);
      var bitFree := !MaskTest(bitmapByte, k);
      if !bitFree {
        var tableIndex := 8 * j + counter;
        if tableIndex < sb.inodesPerGroup {
          records := records + [DecodeSlot(img, sb, g, i, tableIndex, divisor)];
        }
      }
      counter := counter + 1;
      k := k * 2;
    }
    Pow2InByte(counter - 1);
  }

  /** The inode pass over one group: the bitmap bytes in order. */
  method ReadGroupInodes(img: seq<byte>, sb: SuperBlock, g: GroupDesc, i: nat, divisor: nat)
    returns (records: seq<InodeRecord>)
    requires InodeTableReadable(img, sb, g)
    requires divisor >= 1
    ensures records == GroupInodes(img, sb, g, i, divisor)
  {
    var off := ComputeOffset(sb, g.inodeBitmapBlock);
    var bitmapBlock := img[off..off + sb.blockSize];
    assert bitmapBlock == InodeBitmap(img, sb, g);
    records := [];
    var j := 0;
    while j < sb.blockSize
      invariant j <= sb.blockSize
      invariant records == InodesUpTo(img, sb, g, i, divisor, 8 * j)
    {
      var bitmapByte := bitmapBlock[j];
      InodesByByte(img, sb, g, i, divisor, j, 8);
      var byteRecords := ScanInodeByte(img, sb, g, i, divisor, j, bitmapByte);
      records := records + byteRecords;
      j := j + 1;
    }
  }

  predicate TablesReadable(img: seq<byte>, sb: SuperBlock, gds: seq<GroupDesc>)
  {
    forall i :: 0 <= i < |gds| ==> InodeTableReadable(img, sb, gds[i])
  }

  /** The records of the first `n` groups, in group order. */
  function AllInodes(img: seq<byte>, sb: SuperBlock, gds: seq<GroupDesc>, divisor: nat, n: nat): seq<InodeRecord>
    requires n <= |gds|
    requires TablesReadable(img, sb, gds)
    requires divisor >= 1
  {
    if n == 0 then [] else AllInodes(img, sb, gds, divisor, n - 1) + GroupInodes(img, sb, gds[n - 1], n - 1, divisor)
  }

  /** The inode pass over all groups. */
  method ReadInodes(img: seq<byte>, sb: SuperBlock, gd: array<GroupDesc>, divisor: nat)
    returns (records: seq<InodeRecord>)
    requires TablesReadable(img, sb, gd[..])
    requires divisor >= 1
    ensures records == AllInodes(img, sb, gd[..], divisor, gd.Length)
  {
    records := [];
    var i := 0;
    while i < gd.Length
      invariant i <= gd.Length
      invariant records == AllInodes(img, sb, gd[..], divisor, i)
    {
      var g := gd[i];
      assert g == gd[..][i];
      var groupRecords := ReadGroupInodes(img, sb, g, i, divisor);
      records := records + groupRecords;
      i := i + 1;
    }
  }
}
