/** The superblock decoder of the image dumper and the block-offset resolver
    that every later pass uses. The superblock lies at byte 1024 of the
    image; its fields are little-endian and the block and fragment sizes are
    stored as shift exponents. */
module Superblock {
  import opened Bytes

  const SUPER_OFFSET: nat := 1024
  // Offsets of the fields the dumper reads, from the start of the superblock.
  const I_CNT_OFFSET: nat := 0
  const B_CNT_OFFSET: nat := 4
  const FIRST_DATA_BLOCK_OFFSET: nat := 20
  const B_SIZ_OFFSET: nat := 24
  const F_SIZ_OFFSET: nat := 28
  const B_GRP_OFFSET: nat := 32
  const F_GRP_OFFSET: nat := 36
  const I_GRP_OFFSET: nat := 40
  const MAGIC_OFFSET: nat := 56
  /** Every byte the decoder reads lies below this offset of the image. */
  const SUPER_END: nat := SUPER_OFFSET + MAGIC_OFFSET + 2

  /** The nine reported file-system parameters. `blockSize` and
      `fragmentSize` hold the derived sizes, not the stored exponents. */
  datatype SuperBlock = SuperBlock(
    magicNumber: nat,
    inodeTotal: nat,
    blockTotal: nat,
    blockSize: nat,
    fragmentSize: int,
    blocksPerGroup: nat,
    inodesPerGroup: nat,
    fragmentsPerGroup: nat,
    firstDataBlock: nat)

  /** `1024 << shift`. */
  function BlockSizeOf(shift: nat): (size: nat)
    ensures size >= 1024 && size % 1024 == 0
  {
    ShiftLeft(1024, shift)
  }

  /** `1024 << shift` for a non-negative signed exponent, `1024 >> -shift`
      for a negative one. */
  function FragmentSizeOf(shift: int): (size: int)
    ensures size >= 0
    ensures shift >= 0 ==> size >= 1024 && size % 1024 == 0
  {
    if shift >= 0 then ShiftLeft(1024, shift) else ShiftRight(1024, -shift)
  }

  function DecodeSuperblock(img: seq<byte>): (sb: SuperBlock)
    requires SUPER_END <= |img|
    ensures sb.magicNumber < TWO_16
    ensures sb.inodeTotal < TWO_32 && sb.blockTotal < TWO_32
    ensures sb.blocksPerGroup < TWO_32 && sb.inodesPerGroup < TWO_32
    ensures sb.fragmentsPerGroup < TWO_32 && sb.firstDataBlock < TWO_32
    ensures sb.blockSize >= 1024 && sb.blockSize % 1024 == 0
    ensures sb.fragmentSize >= 0
  {
    var blockShift := LE32(img, SUPER_OFFSET + B_SIZ_OFFSET);
    var fragmentShift := Signed32(LE32(img, SUPER_OFFSET + F_SIZ_OFFSET));
    SuperBlock(
      magicNumber := LE16(img, SUPER_OFFSET + MAGIC_OFFSET),
      inodeTotal := LE32(img, SUPER_OFFSET + I_CNT_OFFSET),
      blockTotal := LE32(img, SUPER_OFFSET + B_CNT_OFFSET),
      blockSize := BlockSizeOf(blockShift),
      fragmentSize := FragmentSizeOf(fragmentShift),
      blocksPerGroup := LE32(img, SUPER_OFFSET + B_GRP_OFFSET),
      inodesPerGroup := LE32(img, SUPER_OFFSET + I_GRP_OFFSET),
      fragmentsPerGroup := LE32(img, SUPER_OFFSET + F_GRP_OFFSET),
      firstDataBlock := LE32(img, SUPER_OFFSET + FIRST_DATA_BLOCK_OFFSET))
  }

  /** The superblock is decoded from bytes 1024 up to `SUPER_END` alone. */
  lemma SuperblockIsLocal(img1: seq<byte>, img2: seq<byte>)
    requires SUPER_END <= |img1| && SUPER_END <= |img2|
    requires img1[SUPER_OFFSET..SUPER_END] == img2[SUPER_OFFSET..SUPER_END]
    ensures DecodeSuperblock(img1) == DecodeSuperblock(img2)
  {
    forall k | SUPER_OFFSET <= k < SUPER_END
      ensures img1[k] == img2[k]
    {
      assert img1[k] == img1[SUPER_OFFSET..SUPER_END][k - SUPER_OFFSET];
    }
  }

  /** Where each decoded field comes from: the little-endian field at
      1024 plus its offset, with the block size `1024 << s_log_block_size`
      and the fragment size from the signed `s_log_frag_size`. */
  lemma SuperblockFieldLayout(img: seq<byte>)
    requires SUPER_END <= |img|
    ensures var sb := DecodeSuperblock(img);
      && sb.inodeTotal == LE32(img, 1024)
      && sb.blockTotal == LE32(img, 1028)
      && sb.firstDataBlock == LE32(img, 1044)
      && sb.blockSize == BlockSizeOf(LE32(img, 1048))
      && sb.fragmentSize == FragmentSizeOf(Signed32(LE32(img, 1052)))
      && sb.blocksPerGroup == LE32(img, 1056)
      && sb.fragmentsPerGroup == LE32(img, 1060)
      && sb.inodesPerGroup == LE32(img, 1064)
      && sb.magicNumber == LE16(img, 1080)
  {
  }

  /** Each increment of the block-size exponent doubles the block size,
      starting from 1024. */
  lemma {:induction false} BlockSizeDoubles(shift: nat)
    ensures BlockSizeOf(0) == 1024
    ensures BlockSizeOf(shift + 1) == 2 * BlockSizeOf(shift)
  {
  }

  lemma FragmentSizeExamples()
    ensures FragmentSizeOf(2) == 4096
    ensures FragmentSizeOf(-2) == 256
    ensures FragmentSizeOf(0) == 1024
  {
  }

  /** The sign rule of the fragment size: a non-negative exponent gives the
      same size as the block-size rule; a negative exponent down to -10
      divides 1024 exactly by 2^-shift; below -10 the size is 0. */
  lemma FragmentSizeSignRule(shift: int)
    ensures shift >= 0 ==> FragmentSizeOf(shift) == BlockSizeOf(shift)
    ensures -10 <= shift < 0 ==> FragmentSizeOf(shift) * Pow2(-shift) == 1024
    ensures shift < -10 ==> FragmentSizeOf(shift) == 0
  {
    if -10 <= shift < 0 {
      var n: nat := -shift;
      assert Pow2(10) == 1024;
      ShiftRightOfPow2(10, n);
      Pow2Add(10 - n, n);
    } else if shift < -10 {
      Pow2Monotone(11, -shift);
      assert Pow2(11) == 2048;
      ShiftRightSmall(1024, -shift);
    }
  }

  /** Byte offset in the image of one-based block `blockNum`
      (`SUPER_OFFSET + (blockNum - 1) * block_size`). */
  function ComputeOffset(sb: SuperBlock, blockNum: int): (off: int)
    ensures blockNum >= 1 ==> off >= SUPER_OFFSET
    ensures blockNum < 1 && sb.blockSize > 0 ==> off <= SUPER_OFFSET - sb.blockSize
  {
    SUPER_OFFSET + (blockNum - 1) * sb.blockSize
  }

  lemma OffsetOfFirstBlock(sb: SuperBlock)
    ensures ComputeOffset(sb, 1) == SUPER_OFFSET
  {
  }

  lemma OffsetStep(sb: SuperBlock, blockNum: int)
    ensures ComputeOffset(sb, blockNum + 1) - ComputeOffset(sb, blockNum) == sb.blockSize
  {
  }

  /** Distinct blocks occupy disjoint byte ranges, in block-number order. */
  lemma OffsetsDisjoint(sb: SuperBlock, b1: int, b2: int)
    requires b1 < b2
    ensures ComputeOffset(sb, b1) + sb.blockSize <= ComputeOffset(sb, b2)
  {
    var d := b2 - b1;
    assert ComputeOffset(sb, b2) - ComputeOffset(sb, b1) == d * sb.blockSize;
    assert d * sb.blockSize >= sb.blockSize by {
      assert d * sb.blockSize == (d - 1) * sb.blockSize + sb.blockSize;
    }
  }
}
