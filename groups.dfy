/** The block-group descriptor table reader. The number of groups is derived
    from the superblock; the 32-byte descriptors start right after the first
    block that follows the superblock's offset. */
module Groups {
  import opened Bytes
  import opened Superblock

  // Offsets of the fields the dumper reads, from the start of a descriptor.
  const B_BITMAP_OFFSET: nat := 0
  const I_BITMAP_OFFSET: nat := 4
  const I_TABLE_OFFSET: nat := 8
  const B_FREE_OFFSET: nat := 12
  const I_FREE_OFFSET: nat := 14
  const D_USED_OFFSET: nat := 16
  const GROUP_DESC_SIZE: nat := 32
  /** The highest byte of a descriptor the reader reads, plus one. */
  const DESC_READ_END: nat := D_USED_OFFSET + 2

  /** One group's reported fields; the counts and block ids as read. */
  datatype GroupDesc = GroupDesc(
    containedBlocks: nat,
    freeBlocks: nat,
    freeInodes: nat,
    directories: nat,
    inodeBitmapBlock: nat,
    blockBitmapBlock: nat,
    inodeTableStartBlock: nat)

  /** `END_OF_SUPER`: where the descriptor table starts. */
  function EndOfSuper(sb: SuperBlock): nat
  {
    SUPER_OFFSET + sb.blockSize
  }

  function DescriptorOffset(sb: SuperBlock, i: nat): nat
  {
    EndOfSuper(sb) + i * GROUP_DESC_SIZE
  }

  /** `1 + (block_total - 1) / blocks_per_group` evaluated in unsigned 32-bit
      arithmetic, as `DESCRIPTOR_COUNT` is: the subtraction wraps for an
      empty file system and so may the final increment. */
  function GroupCount(sb: SuperBlock): (n: nat)
    requires sb.blocksPerGroup >= 1
    ensures n < TWO_32
  {
    (1 + ((sb.blockTotal + TWO_32 - 1) % TWO_32) / sb.blocksPerGroup) % TWO_32
  }

  /** For a non-empty file system the group count is the ceiling of
      block_total / blocks_per_group. */
  lemma GroupCountIsCeiling(sb: SuperBlock)
    requires sb.blocksPerGroup >= 1
    requires 1 <= sb.blockTotal < TWO_32
    ensures GroupCount(sb) == 1 + (sb.blockTotal - 1) / sb.blocksPerGroup
    ensures (GroupCount(sb) - 1) * sb.blocksPerGroup < sb.blockTotal
    ensures sb.blockTotal <= GroupCount(sb) * sb.blocksPerGroup
    ensures GroupCount(sb) == (sb.blockTotal + sb.blocksPerGroup - 1) / sb.blocksPerGroup
  {
    var total, bpg := sb.blockTotal, sb.blocksPerGroup;
    DivUnique(total + TWO_32 - 1, TWO_32, 1, total - 1);
    DivMonotone(total - 1, 1, bpg);
    var q := (total - 1) / bpg;
    DivUnique(1 + q, TWO_32, 0, 1 + q);
    CeilingDivision(total, bpg);
  }

  /** `1 + (total - 1) / d` is the least `n` with `total <= n * d`. */
  lemma CeilingDivision(total: nat, d: nat)
    requires total >= 1 && d >= 1
    ensures var n := 1 + (total - 1) / d;
      && (n - 1) * d < total <= n * d
      && n == (total + d - 1) / d
  {
    var q, r := (total - 1) / d, (total - 1) % d;
    assert total - 1 == q * d + r;
    assert (q + 1) * d == q * d + d;
    DivUnique(total + d - 1, d, q + 1, r);
  }

  /** An empty file system with one block per group wraps the count to 0;
      with more blocks per group the wrapped subtraction yields a large count. */
  lemma GroupCountOfEmptyImage(sb: SuperBlock)
    requires sb.blockTotal == 0 && sb.blocksPerGroup >= 1
    ensures sb.blocksPerGroup == 1 ==> GroupCount(sb) == 0
    ensures sb.blocksPerGroup > 1 ==> GroupCount(sb) == 1 + (TWO_32 - 1) / sb.blocksPerGroup
  {
    if sb.blocksPerGroup > 1 {
      assert (TWO_32 - 1) / sb.blocksPerGroup <= (TWO_32 - 1) / 2 by {
        DivMonotone(TWO_32 - 1, 2, sb.blocksPerGroup);
      }
    }
  }

  /** Blocks contained in group `i` of `n`: every group but the last holds
      blocks_per_group, the last holds block_total % blocks_per_group. */
  function ContainedBlocks(sb: SuperBlock, i: nat, n: nat): (c: nat)
    requires sb.blocksPerGroup >= 1
    ensures c <= sb.blocksPerGroup
    ensures i != n - 1 ==> c == sb.blocksPerGroup
  {
    if i == n - 1 then sb.blockTotal % sb.blocksPerGroup else sb.blocksPerGroup
  }

  /** Descriptor `i` of `n`, read from `END_OF_SUPER + 32 * i`. */
  function DecodeGroup(img: seq<byte>, sb: SuperBlock, i: nat, n: nat): (g: GroupDesc)
    requires sb.blocksPerGroup >= 1
    requires DescriptorOffset(sb, i) + DESC_READ_END <= |img|
    ensures g.containedBlocks <= sb.blocksPerGroup
    ensures g.freeBlocks < TWO_16 && g.freeInodes < TWO_16 && g.directories < TWO_16
    ensures g.inodeBitmapBlock < TWO_32 && g.blockBitmapBlock < TWO_32
    ensures g.inodeTableStartBlock < TWO_32
  {
    var base := DescriptorOffset(sb, i);
    GroupDesc(
      containedBlocks := ContainedBlocks(sb, i, n),
      freeBlocks := LE16(img, base + B_FREE_OFFSET),
      freeInodes := LE16(img, base + I_FREE_OFFSET),
      directories := LE16(img, base + D_USED_OFFSET),
      inodeBitmapBlock := LE32(img, base + I_BITMAP_OFFSET),
      blockBitmapBlock := LE32(img, base + B_BITMAP_OFFSET),
      inodeTableStartBlock := LE32(img, base + I_TABLE_OFFSET))
  }

  /** Every descriptor the reader visits lies inside the image. */
  predicate DescriptorsReadable(img: seq<byte>, sb: SuperBlock)
  {
    && sb.blocksPerGroup >= 1
    && (GroupCount(sb) >= 1 ==>
          DescriptorOffset(sb, GroupCount(sb) - 1) + DESC_READ_END <= |img|)
  }

  /** The descriptor table as the reader builds it, one entry per group. */
  function GroupTable(img: seq<byte>, sb: SuperBlock): (gds: seq<GroupDesc>)
    requires DescriptorsReadable(img, sb)
    ensures |gds| == GroupCount(sb)
  {
    var n := GroupCount(sb);
    seq(n, i requires 0 <= i < n => DecodeGroup(img, sb, i, n))
  }

  /** Fills the `gd` array by index, as the reader's loop does. */
  method ReadGroupDescriptors(img: seq<byte>, sb: SuperBlock) returns (gd: array<GroupDesc>)
    requires DescriptorsReadable(img, sb)
    ensures fresh(gd)
    ensures gd[..] == GroupTable(img, sb)
  {
    var count := GroupCount(sb);
    gd := new GroupDesc[count];
    var i := 0;
    while i < count
      invariant 0 <= i <= count
      invariant forall k :: 0 <= k < i ==> gd[k] == GroupTable(img, sb)[k]
    {
      var contained := if i == count - 1 then sb.blockTotal % sb.blocksPerGroup else sb.blocksPerGroup;
      var base := EndOfSuper(sb) + i * GROUP_DESC_SIZE;
      gd[i] := GroupDesc(
        containedBlocks := contained,
        freeBlocks := LE16(img, base + B_FREE_OFFSET),
        freeInodes := LE16(img, base + I_FREE_OFFSET),
        directories := LE16(img, base + D_USED_OFFSET),
        inodeBitmapBlock := LE32(img, base + I_BITMAP_OFFSET),
        blockBitmapBlock := LE32(img, base + B_BITMAP_OFFSET),
        inodeTableStartBlock := LE32(img, base + I_TABLE_OFFSET));
      i := i + 1;
    }
  }

  /** Where each field of descriptor `i` is read: 1024 + block_size + 32 * i
      plus the field's offset, with the two-byte counts and four-byte ids.
      This unfolds `DecodeGroup` at the table's index, stated in the
      dumper's byte offsets. */
  lemma DescriptorFieldOffsets(img: seq<byte>, sb: SuperBlock, i: nat)
    requires DescriptorsReadable(img, sb)
    requires i < GroupCount(sb)
    ensures var g := GroupTable(img, sb)[i];
      var base := 1024 + sb.blockSize + 32 * i;
      && base + 18 <= |img|
      && g.blockBitmapBlock == LE32(img, base)
      && g.inodeBitmapBlock == LE32(img, base + 4)
      && g.inodeTableStartBlock == LE32(img, base + 8)
      && g.freeBlocks == LE16(img, base + 12)
      && g.freeInodes == LE16(img, base + 14)
      && g.directories == LE16(img, base + 16)
  {
    assert DescriptorOffset(sb, i) <= DescriptorOffset(sb, GroupCount(sb) - 1);
  }

  /** Every group except the last contains blocks_per_group blocks; the last
      contains block_total % blocks_per_group, which is 0 when the total is an
      exact multiple. This unfolds `ContainedBlocks` at the table's index;
      what the counts add up to is `ContainedBlocksSum`. */
  lemma ContainedBlocksRule(img: seq<byte>, sb: SuperBlock, i: nat)
    requires DescriptorsReadable(img, sb)
    requires i < GroupCount(sb)
    ensures i < GroupCount(sb) - 1 ==> GroupTable(img, sb)[i].containedBlocks == sb.blocksPerGroup
    ensures i == GroupCount(sb) - 1 ==>
      GroupTable(img, sb)[i].containedBlocks == sb.blockTotal % sb.blocksPerGroup
    ensures i == GroupCount(sb) - 1 && sb.blockTotal % sb.blocksPerGroup == 0 ==>
      GroupTable(img, sb)[i].containedBlocks == 0
  {
  }

  function SumContained(gds: seq<GroupDesc>): nat
  {
    if gds == [] then 0 else SumContained(gds[..|gds| - 1]) + gds[|gds| - 1].containedBlocks
  }

  /** The contained blocks of all groups add up to block_total, except when
      block_total is an exact multiple of blocks_per_group: then the last
      group reports 0 and one group's worth of blocks is missing. */
  lemma ContainedBlocksSum(img: seq<byte>, sb: SuperBlock)
    requires DescriptorsReadable(img, sb)
    requires 1 <= sb.blockTotal < TWO_32
    ensures sb.blockTotal % sb.blocksPerGroup != 0 ==> SumContained(GroupTable(img, sb)) == sb.blockTotal
    ensures sb.blockTotal % sb.blocksPerGroup == 0 ==>
      SumContained(GroupTable(img, sb)) == sb.blockTotal - sb.blocksPerGroup
  {
    GroupCountIsCeiling(sb);
    TableSum(img, sb);
    RemainderGroup(sb.blockTotal, sb.blocksPerGroup);
  }

  lemma RemainderGroup(total: nat, bpg: nat)
    requires total >= 1 && bpg >= 1
    ensures total % bpg != 0 ==> (total - 1) / bpg * bpg + total % bpg == total
    ensures total % bpg == 0 ==> (total - 1) / bpg * bpg + total % bpg == total - bpg
  {
    var q, r := (total - 1) / bpg, (total - 1) % bpg;
    assert total == q * bpg + (r + 1);
    if r + 1 < bpg {
      DivUnique(total, bpg, q, r + 1);
    } else {
      assert total == (q + 1) * bpg + 0;
      DivUnique(total, bpg, q + 1, 0);
    }
  }

  /** The sum of the table: all full groups plus the remainder group. */
  lemma TableSum(img: seq<byte>, sb: SuperBlock)
    requires DescriptorsReadable(img, sb)
    requires GroupCount(sb) >= 1
    ensures SumContained(GroupTable(img, sb))
      == (GroupCount(sb) - 1) * sb.blocksPerGroup + sb.blockTotal % sb.blocksPerGroup
  {
    var gds := GroupTable(img, sb);
    var n := |gds|;
    PrefixSum(gds, n - 1, sb.blocksPerGroup);
    assert gds[..n] == gds;
  }

  lemma {:induction false} PrefixSum(gds: seq<GroupDesc>, k: nat, bpg: nat)
    requires k < |gds|
    requires forall j :: 0 <= j < |gds| - 1 ==> gds[j].containedBlocks == bpg
    ensures SumContained(gds[..k]) == k * bpg
  {
    if k > 0 {
      PrefixSum(gds, k - 1, bpg);
      assert gds[..k][..k - 1] == gds[..k - 1];
    }
  }
}
