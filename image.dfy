/**
 * The file-system image as the checker sees it: the superblock and the inode
 * table as decoded values, and the whole image as bytes (the read-only
 * mapping), from which directory entries, bitmap bits and indirect blocks are
 * read at the offsets fcheck computes.
 */
module DiskImage {
  import opened Layout
  import opened Wrappers

  type byte = x: int | 0 <= x < 0x100
  type uint16 = x: int | 0 <= x < 0x1_0000
  type uint32 = x: int | 0 <= x < 0x1_0000_0000
  type int16 = x: int | -0x8000 <= x < 0x8000
  type int32 = x: int | -0x8000_0000 <= x < 0x8000_0000

  /** The superblock fields the checker reads. */
  datatype Superblock = Superblock(size: uint32, nblocks: uint32, ninodes: uint32)

  /** NDIRECT direct block addresses followed by the indirect block's address. */
  type Addrs = s: seq<uint32> | |s| == NDIRECT + 1 witness seq(NDIRECT + 1, _ => 0)

  /**
   * An on-disk inode (struct dinode). `kind` is its `type` field, a short
   * like `nlink`; `size` is taken as a signed 32-bit int so that the
   * checker's `size < 0` test can fail.
   */
  datatype Inode = Inode(kind: int16, nlink: int16, size: int32, addrs: Addrs)

  /** A directory entry's fixed-width name field. */
  type Name = s: seq<byte> | |s| == DIRSIZ witness seq(DIRSIZ, _ => 0)

  /** struct dirent. */
  datatype DirEntry = DirEntry(inum: uint16, name: Name)

  datatype Image = Image(sb: Superblock, inodes: seq<Inode>, disk: seq<byte>)

  // ---------------------------------------------------------------------
  // Byte order

  /** The four bytes of x, least significant first. */
  function Pack32(x: uint32): (s: seq<byte>)
    ensures |s| == 4
  {
    var q1 := x / 0x100;
    var q2 := q1 / 0x100;
    [x % 0x100, q1 % 0x100, q2 % 0x100, q2 / 0x100]
  }

  /** A 4-byte word read on a little-endian host. */
  function Le32(s: seq<byte>): (x: uint32)
    requires |s| == 4
  {
    s[0] as int + 0x100 * (s[1] as int + 0x100 * (s[2] as int + 0x100 * s[3] as int))
  }

  /** A 2-byte word read on a little-endian host. */
  function Le16(lo: byte, hi: byte): (x: uint16)
  {
    lo as int + 0x100 * hi as int
  }

  /**
   * xint: x stored byte by byte, least significant first, then read back as
   * a native word. On a little-endian host this is the identity.
   */
  function Xint(x: uint32): (r: uint32)
    ensures r == x
  {
    Le32OfPack32(x);
    Le32(Pack32(x))
  }

  lemma Le32OfPack32(x: uint32)
    ensures Le32(Pack32(x)) == x
  {
    var q1 := x / 0x100;
    var q2 := q1 / 0x100;
    ByteSplit(x);
    ByteSplit(q1);
    ByteSplit(q2);
  }

  /** The other half of the round trip: packing a word read back yields its bytes. */
  lemma Pack32OfLe32(s: seq<byte>)
    requires |s| == 4
    ensures Pack32(Le32(s)) == s
  {
    var q2 := s[2] as int + 0x100 * s[3] as int;
    var q1 := s[1] as int + 0x100 * q2;
    ByteJoin(s[0], q1);
    ByteJoin(s[1], q2);
    ByteJoin(s[2], s[3]);
  }

  lemma ByteSplit(x: nat)
    ensures x == x % 0x100 + 0x100 * (x / 0x100)
  {
  }

  lemma ByteJoin(lo: nat, hi: nat)
    requires lo < 0x100
    ensures (lo + 0x100 * hi) % 0x100 == lo && (lo + 0x100 * hi) / 0x100 == hi
  {
  }

  // ---------------------------------------------------------------------
  // Directory entries

  const DOT: byte := 0x2E

  /** strcmp(name, ".") == 0 */
  predicate IsDot(name: Name)
  {
    name[0] == DOT && name[1] == 0
  }

  /** strcmp(name, "..") == 0 */
  predicate IsDotDot(name: Name)
  {
    name[0] == DOT && name[1] == DOT && name[2] == 0
  }

  /** An entry that names the directory itself or its parent. */
  predicate SelfOrParent(e: DirEntry)
  {
    IsDot(e.name) || IsDotDot(e.name)
  }

  /** The directory entry stored at byte offset `off` of the image. */
  function DirEntryAt(img: Image, off: nat): (e: DirEntry)
    requires off + DIRENT_SIZE <= |img.disk|
  {
    DirEntry(Le16(img.disk[off], img.disk[off + 1]), img.disk[off + 2 .. off + DIRENT_SIZE])
  }

  /** Bytes covered by `size / sizeof(struct dirent)` whole entries. */
  function EntryBytes(size: int): int
  {
    size / DIRENT_SIZE * DIRENT_SIZE
  }

  // ---------------------------------------------------------------------
  // Bitmap

  /** Image offset of the byte fcheck tests for block b: byte b/8 of block BBLOCK(b). */
  function BitmapByteIndex(b: nat, ninodes: nat): nat
  {
    BBlock(b, ninodes) * BSIZE + b / 8
  }

  /** Bit b % 8 of that byte. */
  predicate BitmapMarked(img: Image, b: nat)
    requires BitmapByteIndex(b, img.sb.ninodes) < |img.disk|
  {
    (img.disk[BitmapByteIndex(b, img.sb.ninodes)] as bv8) & (1 << (b % 8)) != 0
  }

  // ---------------------------------------------------------------------
  // Indirect blocks

  /**
   * rsect into `uint indirect[NINDIRECT]`: the 512-byte sector `sec` of the
   * image read as little-endian words; None when the read comes up short.
   */
  function IndirectEntries(img: Image, sec: nat): (r: Option<seq<uint32>>)
    ensures r.Some? <==> (sec + 1) * SECTOR_SIZE <= |img.disk|
    ensures r.Some? ==> |r.value| == NINDIRECT
  {
    if (sec + 1) * SECTOR_SIZE <= |img.disk| then
      Some(seq(NINDIRECT, k requires 0 <= k < NINDIRECT =>
        Le32(img.disk[sec * SECTOR_SIZE + 4 * k .. sec * SECTOR_SIZE + 4 * k + 4])))
    else
      None
  }

  /** Every entry read from an indirect block re-encodes to the bytes it came from. */
  lemma IndirectEntriesEncode(img: Image, sec: nat, k: nat)
    requires IndirectEntries(img, sec).Some? && k < NINDIRECT
    ensures Pack32(IndirectEntries(img, sec).value[k])
         == img.disk[sec * SECTOR_SIZE + 4 * k .. sec * SECTOR_SIZE + 4 * k + 4]
  {
    Pack32OfLe32(img.disk[sec * SECTOR_SIZE + 4 * k .. sec * SECTOR_SIZE + 4 * k + 4]);
  }

  // ---------------------------------------------------------------------
  // What the checker needs of an image so that every read it makes is defined

  /**
   * The inode view covers the superblock's inodes and the root, the block
   * tables fit below `size`, every block below `size` is mapped, and so is
   * the bitmap byte of every such block.
   */
  predicate Geometry(img: Image)
  {
    && |img.inodes| == img.sb.ninodes
    && ROOTINO < img.sb.ninodes
    && FirstDataBlock(img.sb.size, img.sb.ninodes) + img.sb.nblocks <= img.sb.size
    && img.sb.size * BSIZE <= |img.disk|
    && forall b :: 0 <= b < img.sb.size ==> BitmapByteIndex(b, img.sb.ninodes) < |img.disk|
  }

  /** The root's entries that main reads from its first block are mapped. */
  predicate RootWindowMapped(img: Image)
    requires Geometry(img)
  {
    var root := img.inodes[ROOTINO];
    root.size > 0 ==> root.addrs[0] * BSIZE + EntryBytes(root.size) <= |img.disk|
  }

  /**
   * When `ino` is a directory and b is an in-range direct block of it, the
   * `size / sizeof(struct dirent)` entries the formatting loop reads from b
   * are mapped.
   */
  predicate WindowMapped(img: Image, ino: Inode, b: uint32)
  {
    ino.kind == T_DIR && ino.size > 0 && 0 < b <= img.sb.nblocks ==>
      b * BSIZE + EntryBytes(ino.size) <= |img.disk|
  }

  /** So is every such window of every directory. */
  predicate DirWindowsMapped(img: Image)
  {
    forall i, k :: 0 <= i < |img.inodes| && 0 <= k < NDIRECT ==>
      WindowMapped(img, img.inodes[i], img.inodes[i].addrs[k])
  }
}
