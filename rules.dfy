/**
 * The consistency rules of fcheck.c, one function per check_rule_* routine
 * (check_rule_6, a loop, is the bitmap sweep in BlockScan). Each returns None
 * when its condition holds and Some(kind) where the C code prints that
 * kind's message and exits.
 */
module Rules {
  import opened Layout
  import opened Wrappers
  import opened DiskImage

  /** One kind per distinct message fcheck prints. */
  datatype Violation =
    | BadInode               // "bad inode"
    | BadDirectAddress       // "bad direct address in inode"
    | BadIndirectAddress     // "bad indirect address in inode"
    | RootDirMissing         // "root directory does not exist"
    | DirNotFormatted        // "directory not properly formatted"
    | AddressMarkedFree      // "address used by inode but marked free in bitmap"
    | MarkedButNotInUse      // "bitmap marks block in use but it is not in use"
    | DirectAddressReused    // "direct address used more than once"
    | IndirectAddressReused  // "indirect address used more than once"
    | InUseNotInDirectory    // "inode marked use but not found in a directory"
    | FreeButReferenced      // "inode referred to in directory but marked free"
    | BadFileRefCount        // "bad reference count for file"
    | DirectoryLinkedTwice   // "directory appears more than once in file system"
    | SectorReadFailed       // rsect's lseek or read came up short

  /** The three types an allocated inode may have. */
  predicate AllocatedKind(kind: int)
  {
    kind == T_DIR || kind == T_FILE || kind == T_DEV
  }

  /** Rule 1: an inode in use has a non-negative size and an allocated type. */
  function CheckRule1(ino: Inode): (r: Option<Violation>)
    ensures r.None? <==> ino.size >= 0 && AllocatedKind(ino.kind)
    ensures r.Some? ==> r.value == BadInode
  {
    if ino.size < 0 || ino.kind < T_DIR || ino.kind > T_DEV then Some(BadInode) else None
  }

  /** Rule 2, direct slots: the address, unsigned, is at most nblocks. */
  function CheckRule2Direct(addr: uint32, nblocks: uint32): (r: Option<Violation>)
    ensures r.None? <==> addr <= nblocks
    ensures r.Some? ==> r.value == BadDirectAddress
  {
    if addr < 0 || addr > nblocks then Some(BadDirectAddress) else None
  }

  /** A 32-bit word converted to a C `int` (two's complement). */
  function AsInt32(w: uint32): int
  {
    if w < 0x8000_0000 then w else w - 0x1_0000_0000
  }

  /**
   * Rule 2, indirect entries. The entry is passed as an `int`, so a word at
   * or above 2^31 is negative and rejected even when nblocks is larger.
   */
  function CheckRule2Indirect(entry: uint32, nblocks: uint32): (r: Option<Violation>)
    ensures r.None? <==> entry < 0x8000_0000 && entry <= nblocks
    ensures r.Some? ==> r.value == BadIndirectAddress
  {
    var n := AsInt32(entry);
    if n < 0 || n > nblocks then Some(BadIndirectAddress) else None
  }

  /** Rule 3, first half: the root inode has a positive size. */
  function CheckRule3ForSize(size: int): (r: Option<Violation>)
    ensures r.None? <==> size > 0
    ensures r.Some? ==> r.value == RootDirMissing
  {
    if size <= 0 then Some(RootDirMissing) else None
  }

  /** Rule 3, second half: a "." or ".." entry of the root names the root. */
  function CheckRule3ForRootInode(inum: int): (r: Option<Violation>)
    ensures r.None? <==> inum == ROOTINO
    ensures r.Some? ==> r.value == RootDirMissing
  {
    if inum != ROOTINO then Some(RootDirMissing) else None
  }

  /** Rule 4, per entry: a "." entry of directory `dir` names `dir`; the tally grows by one. */
  function CheckRule4ForPresentDirLink(e: DirEntry, dir: nat, tally: nat): (r: Result<nat, Violation>)
    ensures r.Ok? <==> e.inum == dir
    ensures r.Ok? ==> r.value == tally + 1
    ensures r.Err? ==> r.error == DirNotFormatted
  {
    if e.inum == dir then Ok(tally + 1) else Err(DirNotFormatted)
  }

  /** Rule 4, per directory: after its direct blocks, a directory has seen both "." and "..". */
  function CheckRule4ForDirTypeAndFormat(kind: int, tally: int): (r: Option<Violation>)
    ensures r.None? <==> kind != T_DIR || tally == 2
    ensures r.Some? ==> r.value == DirNotFormatted
  {
    if kind == T_DIR && tally != 2 then Some(DirNotFormatted) else None
  }

  /** Rule 5: an address an inode uses has its bitmap bit set. */
  function CheckRule5(img: Image, b: nat): (r: Option<Violation>)
    requires BitmapByteIndex(b, img.sb.ninodes) < |img.disk|
    ensures r.None? <==> BitmapMarked(img, b)
    ensures r.Some? ==> r.value == AddressMarkedFree
  {
    if !BitmapMarked(img, b) then Some(AddressMarkedFree) else None
  }

  /** Rule 7: a direct address is not claimed yet (the flag is not 1). */
  function CheckRule7(isUsed: nat): (r: Option<Violation>)
    ensures r.None? <==> isUsed != 1
    ensures r.Some? ==> r.value == DirectAddressReused
  {
    if isUsed == 1 then Some(DirectAddressReused) else None
  }

  /** Rule 8: an indirect entry is not claimed yet (the flag is zero). */
  function CheckRule8(isUsed: nat): (r: Option<Violation>)
    ensures r.None? <==> isUsed == 0
    ensures r.Some? ==> r.value == IndirectAddressReused
  {
    if isUsed != 0 then Some(IndirectAddressReused) else None
  }

  /** Rule 9: an inode in use is referred to by some directory. */
  function CheckRule9(ref: int): (r: Option<Violation>)
    ensures r.None? <==> ref != 0
    ensures r.Some? ==> r.value == InUseNotInDirectory
  {
    if ref == 0 then Some(InUseNotInDirectory) else None
  }

  /** Rule 10: a free inode is referred to by no directory. */
  function CheckRule10(ref: int): (r: Option<Violation>)
    ensures r.None? <==> ref == 0
    ensures r.Some? ==> r.value == FreeButReferenced
  {
    if ref != 0 then Some(FreeButReferenced) else None
  }

  /** Rule 11: a file is referred to exactly as often as its link count says. */
  function CheckRule11(kind: int, ref: int, nlink: int): (r: Option<Violation>)
    ensures r.None? <==> kind != T_FILE || ref == nlink
    ensures r.Some? ==> r.value == BadFileRefCount
  {
    if kind == T_FILE && ref != nlink then Some(BadFileRefCount) else None
  }

  /** Rule 12: a directory is referred to at most once. */
  function CheckRule12(kind: int, ref: int): (r: Option<Violation>)
    ensures r.None? <==> kind != T_DIR || ref <= 1
    ensures r.Some? ==> r.value == DirectoryLinkedTwice
  {
    if kind == T_DIR && ref > 1 then Some(DirectoryLinkedTwice) else None
  }
}
