/** The bitmap scanner: for every group it reads one block's worth of the
    block bitmap and of the inode bitmap and reports the number of every
    clear (free) bit, least significant bit first within each byte. */
module Bitmaps {
  import opened Bytes
  import opened Superblock
  import opened Groups

  /** Bit `t` of a bitmap: bit `t % 8` of byte `t / 8`. */
  predicate BitmapBit(bm: seq<byte>, t: nat)
    requires t < 8 * |bm|
  {
    BitSet(bm[t / 8], t % 8)
  }

  /** The numbers `base + t + 1` of the clear bits `t < m` of `bm`, in scan
      order. */
  function ClearBits(bm: seq<byte>, base: nat, m: nat): seq<nat>
    requires m <= 8 * |bm|
  {
    if m == 0 then []
    else ClearBits(bm, base, m - 1) + (if BitmapBit(bm, m - 1) then [] else [base + m])
  }

  /** The reported numbers lie in `(base, base + m]` and strictly increase. */
  lemma {:induction false} ClearBitsIncreasing(bm: seq<byte>, base: nat, m: nat)
    requires m <= 8 * |bm|
    ensures forall k :: 0 <= k < |ClearBits(bm, base, m)| ==> base < ClearBits(bm, base, m)[k] <= base + m
    ensures forall a, b :: 0 <= a < b < |ClearBits(bm, base, m)| ==>
      ClearBits(bm, base, m)[a] < ClearBits(bm, base, m)[b]
  {
    if m > 0 {
      ClearBitsIncreasing(bm, base, m - 1);
      var prev := ClearBits(bm, base, m - 1);
      var tail := if BitmapBit(bm, m - 1) then [] else [base + m];
      var r := prev + tail;
      forall k | 0 <= k < |r|
        ensures base < r[k] <= base + m
      {
        if k < |prev| {
          assert r[k] == prev[k];
          assert base < prev[k] <= base + m - 1;
        } else {
          assert r[k] == tail[k - |prev|] == base + m;
        }
      }
      forall a, b | 0 <= a < b < |r|
        ensures r[a] < r[b]
      {
        if b < |prev| {
          assert r[a] == prev[a] && r[b] == prev[b];
        } else {
          assert r[a] == prev[a] <= base + m - 1;
          assert r[b] == base + m;
        }
      }
    }
  }

  /** `n` is reported iff it is one of the `m` numbers after `base` and its bit
      `n - 1 - base` is clear. */
  lemma {:induction false} ClearBitsMembers(bm: seq<byte>, base: nat, m: nat, n: nat)
    requires m <= 8 * |bm|
    ensures n in ClearBits(bm, base, m) <==>
      base < n <= base + m && !BitmapBit(bm, n - 1 - base)
  {
    if m > 0 {
      ClearBitsMembers(bm, base, m - 1, n);
    }
  }

  /** The scan is bounded by the bitmap block alone: an all-zero bitmap makes
      every one of its `8 * |bm|` numbers free, whatever the group holds. */
  lemma {:induction false} AllClearBitmap(bm: seq<byte>, base: nat, m: nat)
    requires m <= 8 * |bm|
    requires forall k :: 0 <= k < |bm| ==> bm[k] == 0
    ensures |ClearBits(bm, base, m)| == m
    ensures forall k :: 0 <= k < m ==> ClearBits(bm, base, m)[k] == base + k + 1
  {
    if m > 0 {
      AllClearBitmap(bm, base, m - 1);
      assert bm[(m - 1) / 8] == 0;
      assert !BitmapBit(bm, m - 1);
    }
  }

  /** The numbers `first + p + 1` of the clear bits `p < c` of one byte. */
  function ByteClearBits(b: byte, first: nat, c: nat): seq<nat>
    requires c <= 8
  {
    if c == 0 then []
    else ByteClearBits(b, first, c - 1) + (if BitSet(b, c - 1) then [] else [first + c])
  }

  /** Scanning the bits of byte `j` continues the scan of the bytes before it. */
  lemma {:induction false} ClearBitsByByte(bm: seq<byte>, base: nat, j: nat, c: nat)
    requires j < |bm| && c <= 8
    ensures ClearBits(bm, base, 8 * j + c) == ClearBits(bm, base, 8 * j) + ByteClearBits(bm[j], base + 8 * j, c)
  {
    if c > 0 {
      ClearBitsByByte(bm, base, j, c - 1);
      var t := 8 * j + c - 1;
      assert t / 8 == j && t % 8 == c - 1;
    }
  }

  /** The inner loop of the scan: tests the byte with the masks `k` = 1, 2,
      ..., 128 while `counter` runs through the one-based bit positions, and
      collects `first + counter` for every clear bit. */
  method ScanByte(bitmapByte: byte, first: nat) returns (free: seq<nat>)
    ensures free == ByteClearBits(bitmapByte, first, 8)
  {
    free := [];
    var counter := 1;
    var k := 1;
    while k <= 128
      invariant 1 <= counter <= 9
      invariant k == Pow2(counter - 1)
      invariant free == ByteClearBits(bitmapByte, first, counter - 1)
    {
      Pow2InByte(counter - 1);
      var bitFree := !MaskTest(bitmapByte, k);
      if bitFree {
        free := free + [first + counter];
      }
      counter := counter + 1;
      k := k * 2;
    }
    Pow2InByte(counter - 1);
  }

  /** Scans a bitmap block that has been read into a buffer and collects
      `base + 8 * j + counter` for every clear bit `counter` of byte `j`. */
  method ScanFree(bitmapBlock: seq<byte>, base: nat) returns (free: seq<nat>)
    ensures free == ClearBits(bitmapBlock, base, 8 * |bitmapBlock|)
  {
    free := [];
    var j := 0;
    while j < |bitmapBlock|
      invariant j <= |bitmapBlock|
      invariant free == ClearBits(bitmapBlock, base, 8 * j)
    {
      var bitmapByte := bitmapBlock[j];
      var inByte := ScanByte(bitmapByte, base + 8 * j);
      ClearBitsByByte(bitmapBlock, base, j, 8);
      free := free + inByte;
      j := j + 1;
    }
  }

  /** One row of the free list: the bitmap's block id and a free number. */
  datatype FreeRow = FreeRow(bitmapBlock: nat, number: nat)

  function Rows(bitmapBlock: nat, numbers: seq<nat>): (rows: seq<FreeRow>)
    ensures |rows| == |numbers|
  {
    seq(|numbers|, k requires 0 <= k < |numbers| => FreeRow(bitmapBlock, numbers[k]))
  }

  /** A whole block lies inside the image. */
  predicate BlockReadable(img: seq<byte>, sb: SuperBlock, block: nat)
  {
    0 <= ComputeOffset(sb, block) && ComputeOffset(sb, block) + sb.blockSize <= |img|
  }

  /** The bytes of block `block`. */
  function BlockBytes(img: seq<byte>, sb: SuperBlock, block: nat): (bytes: seq<byte>)
    requires BlockReadable(img, sb, block)
    ensures |bytes| == sb.blockSize
  {
    var off := ComputeOffset(sb, block);
    img[off..off + sb.blockSize]
  }

  predicate BitmapsReadable(img: seq<byte>, sb: SuperBlock, gds: seq<GroupDesc>)
  {
    forall i :: 0 <= i < |gds| ==>
      BlockReadable(img, sb, gds[i].blockBitmapBlock) && BlockReadable(img, sb, gds[i].inodeBitmapBlock)
  }

  /** The free-block numbers of group `i`, numbered from `blocks_per_group * i`. */
  function FreeBlocksOf(img: seq<byte>, sb: SuperBlock, g: GroupDesc, i: nat): seq<nat>
    requires BlockReadable(img, sb, g.blockBitmapBlock)
  {
    ClearBits(BlockBytes(img, sb, g.blockBitmapBlock), sb.blocksPerGroup * i, 8 * sb.blockSize)
  }

  /** The free-inode numbers of group `i`, numbered from `inodes_per_group * i`. */
  function FreeInodesOf(img: seq<byte>, sb: SuperBlock, g: GroupDesc, i: nat): seq<nat>
    requires BlockReadable(img, sb, g.inodeBitmapBlock)
  {
    ClearBits(BlockBytes(img, sb, g.inodeBitmapBlock), sb.inodesPerGroup * i, 8 * sb.blockSize)
  }

  /** The rows of group `i`: its free blocks, then its free inodes. */
  function GroupFreeRows(img: seq<byte>, sb: SuperBlock, g: GroupDesc, i: nat): seq<FreeRow>
    requires BlockReadable(img, sb, g.blockBitmapBlock) && BlockReadable(img, sb, g.inodeBitmapBlock)
  {
    Rows(g.blockBitmapBlock, FreeBlocksOf(img, sb, g, i))
      + Rows(g.inodeBitmapBlock, FreeInodesOf(img, sb, g, i))
  }

  /** The rows of the first `n` groups, in group order. */
  function FreeRows(img: seq<byte>, sb: SuperBlock, gds: seq<GroupDesc>, n: nat): seq<FreeRow>
    requires n <= |gds|
    requires BitmapsReadable(img, sb, gds)
  {
    if n == 0 then [] else FreeRows(img, sb, gds, n - 1) + GroupFreeRows(img, sb, gds[n - 1], n - 1)
  }

  /** Scans the two bitmaps of group `i`. */
  method ReadGroupBitmaps(img: seq<byte>, sb: SuperBlock, g: GroupDesc, i: nat) returns (rows: seq<FreeRow>)
    requires BlockReadable(img, sb, g.blockBitmapBlock) && BlockReadable(img, sb, g.inodeBitmapBlock)
    ensures rows == GroupFreeRows(img, sb, g, i)
  {
    var off := ComputeOffset(sb, g.blockBitmapBlock);
    var bitmapBlock := img[off..off + sb.blockSize];
    var blocks := ScanFree(bitmapBlock, sb.blocksPerGroup * i);
    off := ComputeOffset(sb, g.inodeBitmapBlock);
    bitmapBlock := img[off..off + sb.blockSize];
    var inodes := ScanFree(bitmapBlock, sb.inodesPerGroup * i);
    rows := Rows(g.blockBitmapBlock, blocks) + Rows(g.inodeBitmapBlock, inodes);
  }

  /** The bitmap pass over all groups, in group order. */
  method ReadBitmaps(img: seq<byte>, sb: SuperBlock, gd: array<GroupDesc>) returns (rows: seq<FreeRow>)
    requires BitmapsReadable(img, sb, gd[..])
    ensures rows == FreeRows(img, sb, gd[..], gd.Length)
  {
    rows := [];
    var i := 0;
    while i < gd.Length
      invariant i <= gd.Length
      invariant rows == FreeRows(img, sb, gd[..], i)
    {
      var g := gd[i];
      assert g == gd[..][i];
      var groupRows := ReadGroupBitmaps(img, sb, g, i);
      rows := rows + groupRows;
      i := i + 1;
    }
  }

  /** On one bitmap: `n` is reported iff it is one of the `8 * |bm|`
      numbers after `base` and bit `(n - 1 - base) % 8` of byte
      `(n - 1 - base) / 8` is clear. */
  lemma FreeRule(bm: seq<byte>, base: nat, n: nat)
    ensures n in ClearBits(bm, base, 8 * |bm|) <==>
      base < n <= base + 8 * |bm| && !BitSet(bm[(n - 1 - base) / 8], (n - 1 - base) % 8)
  {
    ClearBitsMembers(bm, base, 8 * |bm|, n);
  }

  /** The block numbers reported for group `i` are exactly those whose bit
      `(n - 1 - blocks_per_group * i)` is clear in the block bitmap, over all
      `8 * block_size` bits, with no bound by the group's contained blocks. */
  lemma FreeBlocksRule(img: seq<byte>, sb: SuperBlock, g: GroupDesc, i: nat, n: nat)
    requires BlockReadable(img, sb, g.blockBitmapBlock)
    ensures var bm, base := BlockBytes(img, sb, g.blockBitmapBlock), sb.blocksPerGroup * i;
      n in FreeBlocksOf(img, sb, g, i) <==>
        base < n <= base + 8 * sb.blockSize && !BitSet(bm[(n - 1 - base) / 8], (n - 1 - base) % 8)
  {
    FreeRule(BlockBytes(img, sb, g.blockBitmapBlock), sb.blocksPerGroup * i, n);
  }

  /** The inode bitmap follows the same rule with inodes_per_group. */
  lemma FreeInodesRule(img: seq<byte>, sb: SuperBlock, g: GroupDesc, i: nat, n: nat)
    requires BlockReadable(img, sb, g.inodeBitmapBlock)
    ensures var bm, base := BlockBytes(img, sb, g.inodeBitmapBlock), sb.inodesPerGroup * i;
      n in FreeInodesOf(img, sb, g, i) <==>
        base < n <= base + 8 * sb.blockSize && !BitSet(bm[(n - 1 - base) / 8], (n - 1 - base) % 8)
  {
    FreeRule(BlockBytes(img, sb, g.inodeBitmapBlock), sb.inodesPerGroup * i, n);
  }
}
