/**
 * The block-claim scan of fcheck's main (the loop over every inode) and the
 * bitmap sweep of check_rule_6. Each step returns the updated used-blocks
 * table or the violation that stops the run, checking in the C code's order.
 */
module BlockScan {
  import opened Layout
  import opened Wrappers
  import opened DiskImage
  import opened Rules
  import opened Directories

  /** used_blocks_arr: one flag per block below `size`, 1 once the block is claimed. */
  type UsedTable = seq<nat>

  /** first_block of main. */
  function First(img: Image): nat
  {
    FirstDataBlock(img.sb.size, img.sb.ninodes)
  }

  /** The table after main's two initialisation loops: exactly the blocks below first_block are claimed. */
  function InitialUsed(img: Image): UsedTable
    requires Geometry(img)
  {
    seq(img.sb.size, j => if j < First(img) then 1 else 0)
  }

  /** What the scan needs of the image for every read it makes to be defined. */
  predicate Scannable(img: Image)
  {
    Geometry(img) && DirWindowsMapped(img)
  }

  // ---------------------------------------------------------------------
  // One address

  /**
   * A nonzero direct address b, in the C code's order: range (rule 2), then
   * bitmap (rule 5), then reuse (rule 7). Only when all three pass is b
   * claimed, and no other flag changes.
   */
  function ClaimDirect(img: Image, used: UsedTable, b: uint32): (r: Result<UsedTable, Violation>)
    requires Geometry(img) && |used| == img.sb.size
    ensures b > img.sb.nblocks ==> r == Err(BadDirectAddress)
    ensures b <= img.sb.nblocks && !BitmapMarked(img, b) ==> r == Err(AddressMarkedFree)
    ensures b <= img.sb.nblocks && BitmapMarked(img, b) && used[b] == 1 ==> r == Err(DirectAddressReused)
    ensures b <= img.sb.nblocks && BitmapMarked(img, b) && used[b] != 1 ==> r == Ok(used[b := 1])
  {
    match CheckRule2Direct(b, img.sb.nblocks)
    case Some(v) => Err(v)
    case None =>
      match CheckRule5(img, b)
      case Some(v) => Err(v)
      case None =>
        match CheckRule7(used[b])
        case Some(v) => Err(v)
        case None => Ok(used[b := 1])
  }

  /**
   * A nonzero entry of an indirect block: the same range and bitmap checks
   * (the range check on the entry read as a C int) and the same shared
   * table, but a reuse is reported as an indirect one.
   */
  function ClaimIndirect(img: Image, used: UsedTable, b: uint32): (r: Result<UsedTable, Violation>)
    requires Geometry(img) && |used| == img.sb.size
    ensures !(b < 0x8000_0000 && b <= img.sb.nblocks) ==> r == Err(BadIndirectAddress)
    ensures b < 0x8000_0000 && b <= img.sb.nblocks && !BitmapMarked(img, b) ==> r == Err(AddressMarkedFree)
    ensures b < 0x8000_0000 && b <= img.sb.nblocks && BitmapMarked(img, b) && used[b] != 0
      ==> r == Err(IndirectAddressReused)
    ensures b < 0x8000_0000 && b <= img.sb.nblocks && BitmapMarked(img, b) && used[b] == 0
      ==> r == Ok(used[b := 1])
  {
    match CheckRule2Indirect(b, img.sb.nblocks)
    case Some(v) => Err(v)
    case None =>
      match CheckRule5(img, b)
      case Some(v) => Err(v)
      case None =>
        match CheckRule8(used[b])
        case Some(v) => Err(v)
        case None => Ok(used[b := 1])
  }

  // ---------------------------------------------------------------------
  // One inode

  /** The direct slots of `ino`. */
  function DirectSlots(ino: Inode): seq<uint32>
  {
    ino.addrs[..NDIRECT]
  }

  /**
   * The loop over the direct slots of inode i that remain in `slots`, with
   * the directory tally of "." / ".." entries carried across its blocks.
   */
  function ScanDirect(img: Image, i: nat, slots: seq<uint32>, used: UsedTable, tally: nat)
    : (r: Result<(UsedTable, nat), Violation>)
    requires Geometry(img) && i < |img.inodes| && img.inodes[i].size > 0 && |used| == img.sb.size
    requires forall m :: 0 <= m < |slots| ==> WindowMapped(img, img.inodes[i], slots[m])
    ensures r.Ok? ==> |r.value.0| == |used|
    ensures r.Err? ==> (r.error.BadDirectAddress? || r.error.AddressMarkedFree? || r.error.DirectAddressReused?
                       || r.error.DirNotFormatted?)
    decreases |slots|
  {
    if |slots| == 0 then Ok((used, tally))
    else
      var ino := img.inodes[i];
      var b := slots[0];
      if b == 0 then ScanDirect(img, i, slots[1..], used, tally)
      else
        match ClaimDirect(img, used, b)
        case Err(v) => Err(v)
        case Ok(used1) =>
          if ino.kind == T_DIR then
            assert WindowMapped(img, ino, slots[0]);
            match FormatEntries(img, i, b * BSIZE, ino.size / DIRENT_SIZE, tally)
            case Err(v) => Err(v)
            case Ok(t) => ScanDirect(img, i, slots[1..], used1, t)
          else
            ScanDirect(img, i, slots[1..], used1, tally)
  }

  /** One step of the loop over direct slots, as main takes it. */
  lemma ScanDirectCons(img: Image, i: nat, slots: seq<uint32>, used: UsedTable, tally: nat)
    requires Geometry(img) && i < |img.inodes| && img.inodes[i].size > 0 && |used| == img.sb.size
    requires forall m :: 0 <= m < |slots| ==> WindowMapped(img, img.inodes[i], slots[m])
    requires |slots| > 0
    ensures WindowMapped(img, img.inodes[i], slots[0])
    ensures forall m :: 0 <= m < |slots[1..]| ==> WindowMapped(img, img.inodes[i], slots[1..][m])
    ensures slots[0] == 0 ==> ScanDirect(img, i, slots, used, tally) == ScanDirect(img, i, slots[1..], used, tally)
    ensures slots[0] != 0 ==>
      match ClaimDirect(img, used, slots[0])
      case Err(v) => ScanDirect(img, i, slots, used, tally) == Err(v)
      case Ok(used1) =>
        if img.inodes[i].kind == T_DIR then
          match FormatEntries(img, i, slots[0] * BSIZE, img.inodes[i].size / DIRENT_SIZE, tally)
          case Err(v) => ScanDirect(img, i, slots, used, tally) == Err(v)
          case Ok(t) => ScanDirect(img, i, slots, used, tally) == ScanDirect(img, i, slots[1..], used1, t)
        else
          ScanDirect(img, i, slots, used, tally) == ScanDirect(img, i, slots[1..], used1, tally)
  {
  }

  /** The loop over the remaining entries of an inode's indirect block. */
  function ScanIndirect(img: Image, entries: seq<uint32>, used: UsedTable)
    : (r: Result<UsedTable, Violation>)
    requires Geometry(img) && |used| == img.sb.size
    ensures r.Ok? ==> |r.value| == |used|
    ensures r.Err? ==> r.error.BadIndirectAddress? || r.error.AddressMarkedFree? || r.error.IndirectAddressReused?
    decreases |entries|
  {
    if |entries| == 0 then Ok(used)
    else if entries[0] == 0 then ScanIndirect(img, entries[1..], used)
    else
      match ClaimIndirect(img, used, entries[0])
      case Err(v) => Err(v)
      case Ok(used1) => ScanIndirect(img, entries[1..], used1)
  }

  /**
   * The indirect pointer p of an inode: never range-, bitmap- or
   * reuse-checked, flagged only when 0 < p < size; then its block is read
   * and its entries are claimed.
   */
  function ScanIndirectBlock(img: Image, p: uint32, used: UsedTable): (r: Result<UsedTable, Violation>)
    requires Geometry(img) && |used| == img.sb.size
    ensures r.Ok? ==> |r.value| == |used|
    ensures r.Err? ==> (r.error.SectorReadFailed? || r.error.BadIndirectAddress? || r.error.AddressMarkedFree?
                       || r.error.IndirectAddressReused?)
  {
    if p == 0 then Ok(used)
    else
      var used1 := if 0 < p < img.sb.size then used[p := 1] else used;
      match IndirectEntries(img, Xint(p))
      case None => Err(SectorReadFailed)
      case Some(entries) => ScanIndirect(img, entries, used1)
  }

  /**
   * One iteration of the inode loop. An inode of size 0 is skipped; any
   * other fails rule 1 first, then its direct slots are claimed (with the
   * formatting loop for directories), then rule 4's tally is checked, then
   * its indirect block is walked.
   */
  function ScanInode(img: Image, i: nat, used: UsedTable): (r: Result<UsedTable, Violation>)
    requires Scannable(img) && i < |img.inodes| && |used| == img.sb.size
    ensures r.Ok? ==> |r.value| == |used|
    ensures img.inodes[i].size == 0 ==> r == Ok(used)
    ensures r == Err(BadInode) <==>
      img.inodes[i].size != 0 && (img.inodes[i].size < 0 || !AllocatedKind(img.inodes[i].kind))
  {
    var ino := img.inodes[i];
    if ino.size == 0 then Ok(used)
    else
      match CheckRule1(ino)
      case Some(v) => Err(v)
      case None =>
        match ScanDirect(img, i, DirectSlots(ino), used, 0)
        case Err(v) => Err(v)
        case Ok((used1, tally)) =>
          match CheckRule4ForDirTypeAndFormat(ino.kind, tally)
          case Some(v) => Err(v)
          case None => ScanIndirectBlock(img, ino.addrs[NDIRECT], used1)
  }

  /** The inode loop from inode i on. */
  function ScanFrom(img: Image, i: nat, used: UsedTable): (r: Result<UsedTable, Violation>)
    requires Scannable(img) && i <= |img.inodes| && |used| == img.sb.size
    ensures r.Ok? ==> |r.value| == |used|
    decreases |img.inodes| - i
  {
    if i == |img.inodes| then Ok(used)
    else
      match ScanInode(img, i, used)
      case Err(v) => Err(v)
      case Ok(used1) => ScanFrom(img, i + 1, used1)
  }

  /** The whole scan, from the initial table. */
  function ScanAll(img: Image): (r: Result<UsedTable, Violation>)
    requires Scannable(img)
    ensures r.Ok? ==> |r.value| == img.sb.size
  {
    ScanFrom(img, 0, InitialUsed(img))
  }

  // ---------------------------------------------------------------------
  // check_rule_6

  /**
   * The sweep over blocks below first_block + nblocks: it fails when some
   * block is marked in the bitmap but its flag is 0.
   */
  function SweepViolation(img: Image, used: UsedTable): Option<Violation>
    requires Geometry(img) && |used| == img.sb.size
  {
    if exists j :: 0 <= j < First(img) + img.sb.nblocks && BitmapMarked(img, j) && used[j] == 0
    then Some(MarkedButNotInUse)
    else None
  }
}
