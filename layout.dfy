/**
 * Geometry of an xv6 file-system image: block 0 is the boot block, block 1
 * the superblock, then the inode blocks, then the bitmap blocks, then the
 * data blocks. The headers that fix these numbers (types.h and fs.h) are not
 * part of this model; the values below are xv6's and are assumptions.
 */
module Layout {

  /** Block size in bytes. The derived constants below are written out as literals. */
  const BSIZE: nat := 512
  /** rsect always reads 512-byte sectors, whatever BSIZE is. */
  const SECTOR_SIZE: nat := 512
  const NDIRECT: nat := 12
  /** Block numbers held by an indirect block: BSIZE / sizeof(uint) = 512 / 4. */
  const NINDIRECT: nat := 128
  /** Inodes per block: BSIZE / sizeof(struct dinode) = 512 / 64. */
  const IPB: nat := 8
  /** Bitmap bits per block: BSIZE * 8. */
  const BPB: nat := 4096
  const ROOTINO: nat := 1
  const DIRSIZ: nat := 14
  /** sizeof(struct dirent): a 2-byte inode number and a DIRSIZ-byte name. */
  const DIRENT_SIZE: nat := 16
  /** DIR_ENTRY_PER_BLOCK: BSIZE / sizeof(struct dirent) = 512 / 16. */
  const DPB: nat := 32

  const T_DIR: int := 1
  const T_FILE: int := 2
  const T_DEV: int := 3

  /** IBLOCK: the block that holds inode i. */
  function IBlock(i: nat): nat
  {
    i / IPB + 2
  }

  /** BBLOCK: the bitmap block that holds the bit of block b. */
  function BBlock(b: nat, ninodes: nat): nat
  {
    b / BPB + ninodes / IPB + 3
  }

  /**
   * `first_block` of fcheck's main: one past the bitmap block of the last
   * block. Everything below it is metadata: the boot block, the superblock,
   * every inode block and every bitmap block.
   */
  function FirstDataBlock(size: nat, ninodes: nat): (first: nat)
    ensures 1 < first
    ensures forall i :: 0 <= i < ninodes ==> 1 < IBlock(i) < first
    ensures forall b :: 0 <= b <= size ==> IBlock(ninodes) < BBlock(b, ninodes) < first
  {
    BBlock(size, ninodes) + 1
  }
}
