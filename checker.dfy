/**
 * fcheck's loops as it runs them: the used-blocks table and the reference
 * counters are arrays updated in place, and each routine is proved to
 * compute what the functions of BlockScan, References and Fsck specify.
 */
module Checker {
  import opened Layout
  import opened Wrappers
  import opened DiskImage
  import opened Rules
  import opened Directories
  import opened BlockScan
  import opened References
  import opened Fsck

  // ---------------------------------------------------------------------
  // Root check

  /** Rule 3 at the top of main: the root's size, then its "." / ".." entries. */
  method CheckRoot(img: Image) returns (r: Option<Violation>)
    requires Geometry(img) && RootWindowMapped(img)
    ensures r == RootCheck(img)
  {
    r := CheckRule3ForSize(img.inodes[ROOTINO].size);
    if r.Some? {
      return;
    }
    r := CheckRootEntries(img, RootBase(img), RootCount(img));
  }

  /** The loop over the root's n entries from byte `base` on. */
  method CheckRootEntries(img: Image, base: nat, n: nat) returns (r: Option<Violation>)
    requires base + n * DIRENT_SIZE <= |img.disk|
    ensures r == RootLoop(img, base, n, 0)
  {
    var tally := 0;
    var entry := base;
    var k := 0;
    while k < n
      invariant 0 <= k <= n && entry == base + k * DIRENT_SIZE
      invariant RootLoop(img, entry, n - k, tally) == RootLoop(img, base, n, 0)
    {
      var e := DirEntryAt(img, entry);
      if tally < 2 && SelfOrParent(e) {
        r := CheckRule3ForRootInode(e.inum);
        if r.Some? {
          return;
        }
        tally := tally + 1;
      }
      entry := entry + DIRENT_SIZE;
      k := k + 1;
    }
    r := None;
  }

  // ---------------------------------------------------------------------
  // Block scan

  /** used_blocks_arr after its two initialisation loops. */
  method InitUsedBlocks(img: Image) returns (used: array<nat>)
    requires Geometry(img)
    ensures fresh(used) && used[..] == InitialUsed(img)
  {
    used := new nat[img.sb.size];
    var j := 0;
    while j < img.sb.size
      invariant 0 <= j <= img.sb.size
      invariant forall m :: 0 <= m < j ==> used[m] == 0
    {
      used[j] := 0;
      j := j + 1;
    }
    var first := First(img);
    j := 0;
    while j < first
      invariant 0 <= j <= first
      invariant forall m :: 0 <= m < img.sb.size ==> used[m] == if m < j then 1 else 0
    {
      used[j] := 1;
      j := j + 1;
    }
  }

  /** The formatting loop over the n entries of one directory block from byte `base` on. */
  method FormatBlock(img: Image, dir: nat, base: nat, n: nat, tally0: nat) returns (r: Result<nat, Violation>)
    requires base + n * DIRENT_SIZE <= |img.disk|
    ensures r == FormatEntries(img, dir, base, n, tally0)
  {
    var tally := tally0;
    var entry := base;
    var k := 0;
    while k < n
      invariant 0 <= k <= n && entry == base + k * DIRENT_SIZE
      invariant FormatEntries(img, dir, entry, n - k, tally) == FormatEntries(img, dir, base, n, tally0)
    {
      var e := DirEntryAt(img, entry);
      if tally < 2 {
        if IsDot(e.name) {
          var c := CheckRule4ForPresentDirLink(e, dir, tally);
          if c.Err? {
            return c;
          }
          tally := c.value;
        } else if IsDotDot(e.name) {
          tally := tally + 1;
        }
      }
      entry := entry + DIRENT_SIZE;
      k := k + 1;
    }
    r := Ok(tally);
  }

  /** The loop over the direct slots of inode i, returning rule 4's tally. */
  method ClaimDirectSlots(img: Image, i: nat, used: array<nat>) returns (r: Option<Violation>, tally: nat)
    requires Geometry(img) && i < |img.inodes| && img.inodes[i].size > 0 && used.Length == img.sb.size
    requires forall m :: 0 <= m < NDIRECT ==> WindowMapped(img, img.inodes[i], img.inodes[i].addrs[m])
    modifies used
    ensures match ScanDirect(img, i, DirectSlots(img.inodes[i]), old(used[..]), 0)
      case Err(v) => r == Some(v)
      case Ok((u, t)) => r.None? && used[..] == u && tally == t
  {
    var ino := img.inodes[i];
    var rest := DirectSlots(ino);
    assert forall m :: 0 <= m < |rest| ==> WindowMapped(img, ino, rest[m]);
    tally := 0;
    while |rest| > 0
      invariant forall m :: 0 <= m < |rest| ==> WindowMapped(img, ino, rest[m])
      invariant ScanDirect(img, i, rest, used[..], tally) == ScanDirect(img, i, DirectSlots(ino), old(used[..]), 0)
    {
      ScanDirectCons(img, i, rest, used[..], tally);
      var b := rest[0];
      rest := rest[1..];
      if b == 0 {
        continue;
      }
      r := CheckRule2Direct(b, img.sb.nblocks);
      if r.Some? {
        return;
      }
      r := CheckRule5(img, b);
      if r.Some? {
        return;
      }
      r := CheckRule7(used[b]);
      if r.Some? {
        return;
      }
      used[b] := 1;
      if ino.kind == T_DIR {
        var f := FormatBlock(img, i, b * BSIZE, ino.size / DIRENT_SIZE, tally);
        if f.Err? {
          return Some(f.error), tally;
        }
        tally := f.value;
      }
    }
    r := None;
  }

  /**
   * The indirect pointer p: flagged when 0 < p < size, its block read with
   * rsect, then the loop over its entries.
   */
  method ClaimIndirectBlock(img: Image, p: uint32, used: array<nat>) returns (r: Option<Violation>)
    requires Geometry(img) && used.Length == img.sb.size
    modifies used
    ensures match ScanIndirectBlock(img, p, old(used[..]))
      case Err(v) => r == Some(v)
      case Ok(u) => r.None? && used[..] == u
  {
    if p == 0 {
      return None;
    }
    if 0 < p < img.sb.size {
      used[p] := 1;
    }
    var indirect := IndirectEntries(img, Xint(p));
    if indirect.None? {
      return Some(SectorReadFailed);
    }
    r := ClaimIndirectEntries(img, indirect.value, used);
  }

  /** The loop over the entries of an indirect block. */
  method ClaimIndirectEntries(img: Image, es: seq<uint32>, used: array<nat>) returns (r: Option<Violation>)
    requires Geometry(img) && used.Length == img.sb.size
    modifies used
    ensures match ScanIndirect(img, es, old(used[..]))
      case Err(v) => r == Some(v)
      case Ok(u) => r.None? && used[..] == u
  {
    var k := 0;
    assert es[k..] == es;
    while k < |es|
      invariant 0 <= k <= |es|
      invariant ScanIndirect(img, es[k..], used[..]) == ScanIndirect(img, es, old(used[..]))
    {
      assert es[k..][1..] == es[k + 1..];
      var b := es[k];
      if b == 0 {
        k := k + 1;
        continue;
      }
      r := CheckRule2Indirect(b, img.sb.nblocks);
      if r.Some? {
        return;
      }
      r := CheckRule5(img, b);
      if r.Some? {
        return;
      }
      r := CheckRule8(used[b]);
      if r.Some? {
        return;
      }
      used[b] := 1;
      k := k + 1;
    }
    r := None;
  }

  /** One iteration of main's inode loop. */
  method ScanOneInode(img: Image, i: nat, used: array<nat>) returns (r: Option<Violation>)
    requires Scannable(img) && i < |img.inodes| && used.Length == img.sb.size
    modifies used
    ensures match ScanInode(img, i, old(used[..]))
      case Err(v) => r == Some(v)
      case Ok(u) => r.None? && used[..] == u
  {
    var ino := img.inodes[i];
    if ino.size == 0 {
      return None;
    }
    r := CheckRule1(ino);
    if r.Some? {
      return;
    }
    var tally;
    r, tally := ClaimDirectSlots(img, i, used);
    if r.Some? {
      return;
    }
    r := CheckRule4ForDirTypeAndFormat(ino.kind, tally);
    if r.Some? {
      return;
    }
    r := ClaimIndirectBlock(img, ino.addrs[NDIRECT], used);
  }

  /** main's loop over every inode. */
  method ScanInodes(img: Image, used: array<nat>) returns (r: Option<Violation>)
    requires Scannable(img) && used.Length == img.sb.size
    modifies used
    ensures match ScanFrom(img, 0, old(used[..]))
      case Err(v) => r == Some(v)
      case Ok(u) => r.None? && used[..] == u
  {
    var i := 0;
    while i < |img.inodes|
      invariant 0 <= i <= |img.inodes|
      invariant ScanFrom(img, i, used[..]) == ScanFrom(img, 0, old(used[..]))
    {
      r := ScanOneInode(img, i, used);
      if r.Some? {
        return;
      }
      i := i + 1;
    }
    r := None;
  }

  /** check_rule_6: the sweep over every block below first_block + nblocks. */
  method CheckRule6(img: Image, used: array<nat>) returns (r: Option<Violation>)
    requires Geometry(img) && used.Length == img.sb.size
    ensures r == SweepViolation(img, used[..])
  {
    var bound := First(img) + img.sb.nblocks;
    var j := 0;
    while j < bound
      invariant 0 <= j <= bound
      invariant forall m :: 0 <= m < j ==> !(BitmapMarked(img, m) && used[m] == 0)
    {
      if BitmapMarked(img, j) && used[j] == 0 {
        assert used[..][j] == 0;
        return Some(MarkedButNotInUse);
      }
      j := j + 1;
    }
    r := None;
  }

  // ---------------------------------------------------------------------
  // Reference pass

  /** get_dir_entries: fills `nums` with the slot values of block b. */
  method GetDirEntries(img: Image, b: nat, nums: array<nat>)
    requires (b + 1) * BSIZE <= |img.disk| && nums.Length == DPB
    modifies nums
    ensures nums[..] == BlockSlots(img, b)
  {
    var k := 0;
    while k < DPB
      invariant 0 <= k <= DPB
      invariant forall m :: 0 <= m < k ==> nums[m] == BlockSlots(img, b)[m]
    {
      var e := DirEntryAt(img, b * BSIZE + k * DIRENT_SIZE);
      if IsDot(e.name) || IsDotDot(e.name) {
        nums[k] := 0;
        k := k + 1;
        continue;
      }
      nums[k] := e.inum;
      k := k + 1;
    }
  }

  /**
   * One block of is_inode_in_dir: every nonzero slot adds 1 to its
   * counter and takes 1 off the budget. `done` is the trace counted so far.
   */
  method CountBlock(img: Image, b: nat, refs: array<nat>, budget0: int, ghost done: seq<nat>)
    returns (budget: int)
    requires (b + 1) * BSIZE <= |img.disk|
    requires refs[..] == Counts(done, refs.Length)
    requires forall x :: x in Referenced(BlockSlots(img, b)) ==> x < refs.Length
    modifies refs
    ensures refs[..] == Counts(done + Referenced(BlockSlots(img, b)), refs.Length)
    ensures budget == budget0 - |Referenced(BlockSlots(img, b))|
  {
    var nums := new nat[DPB];
    GetDirEntries(img, b, nums);
    ReferencedBound(nums[..], refs.Length);
    budget := CountSlots(nums, refs, budget0, done);
  }

  /** The inner loop of is_inode_in_dir over the values get_dir_entries stored. */
  method CountSlots(nums: array<nat>, refs: array<nat>, budget0: int, ghost done: seq<nat>)
    returns (budget: int)
    requires nums != refs
    requires refs[..] == Counts(done, refs.Length)
    requires forall m :: 0 <= m < nums.Length && nums[m] != 0 ==> nums[m] < refs.Length
    modifies refs
    ensures refs[..] == Counts(done + Referenced(nums[..]), refs.Length)
    ensures budget == budget0 - |Referenced(nums[..])|
  {
    ghost var vs := nums[..];
    budget := budget0;
    var k := 0;
    assert done + Referenced(vs[..k]) == done by {
      assert vs[..k] == [];
    }
    while k < nums.Length
      invariant 0 <= k <= nums.Length
      invariant refs[..] == Counts(done + Referenced(vs[..k]), refs.Length)
      invariant budget == budget0 - |Referenced(vs[..k])|
      modifies refs
    {
      CountsSlot(done, vs, k, refs.Length);
      if nums[k] != 0 {
        refs[nums[k]] := refs[nums[k]] + 1;
        budget := budget - 1;
      }
      k := k + 1;
    }
    assert vs[..k] == vs;
  }

  /** One directory's loop over `blocks` (its direct slots or its indirect entries). */
  method CountBlocks(img: Image, blocks: seq<uint32>, budget0: int, refs: array<nat>, ghost done: seq<nat>)
    returns (budget: int)
    requires Geometry(img)
    requires budget0 > 0 ==> forall m :: 0 <= m < |blocks| ==> blocks[m] <= img.sb.nblocks
    requires refs[..] == Counts(done, refs.Length)
    requires forall x :: x in DirBlocks(img, blocks, budget0).0 ==> x < refs.Length
    modifies refs
    ensures refs[..] == Counts(done + DirBlocks(img, blocks, budget0).0, refs.Length)
    ensures budget == DirBlocks(img, blocks, budget0).1
  {
    ghost var total := DirBlocks(img, blocks, budget0);
    ghost var acc: seq<nat> := [];
    budget := budget0;
    var rest := blocks;
    assert acc + total.0 == total.0 && done + acc == done;
    while |rest| > 0
      invariant budget > 0 ==> forall m :: 0 <= m < |rest| ==> rest[m] <= img.sb.nblocks
      invariant acc + DirBlocks(img, rest, budget).0 == total.0
      invariant DirBlocks(img, rest, budget).1 == total.1
      invariant forall x :: x in DirBlocks(img, rest, budget).0 ==> x < refs.Length
      invariant refs[..] == Counts(done + acc, refs.Length)
    {
      var b := rest[0];
      if b != 0 && budget > 0 {
        DirBlocksCounted(img, rest, budget);
        BlockMapped(img, b);
        ghost var t := Referenced(BlockSlots(img, b));
        ghost var tail := DirBlocks(img, rest[1..], budget - |t|);
        AppendAssoc(acc, t, tail.0);
        AppendAssoc(done, acc, t);
        budget := CountBlock(img, b, refs, budget, done + acc);
        acc := acc + t;
      } else {
        DirBlocksSkip(img, rest, budget);
      }
      rest := rest[1..];
    }
    assert acc + [] == acc;
  }

  /** The indirect half of one directory; true when rsect fails. */
  method CountIndirect(img: Image, p: uint32, budget: int, refs: array<nat>, ghost done: seq<nat>)
    returns (failed: bool)
    requires Geometry(img) && (budget > 0 ==> IndirectSound(img, p))
    requires refs[..] == Counts(done, refs.Length)
    requires forall x :: x in IndirectRefs(img, p, budget).trace ==> x < refs.Length
    modifies refs
    ensures refs[..] == Counts(done + IndirectRefs(img, p, budget).trace, refs.Length)
    ensures failed == IndirectRefs(img, p, budget).readFailed
  {
    assert done + [] == done;
    if p == 0 {
      return false;
    }
    var indirect := IndirectEntries(img, Xint(p));
    if indirect.None? {
      return true;
    }
    var left := CountBlocks(img, indirect.value, budget, refs, done);
    return false;
  }

  /** One iteration of is_inode_in_dir's outer loop; true when rsect fails. */
  method CountDirectory(img: Image, i: nat, refs: array<nat>, ghost done: seq<nat>) returns (failed: bool)
    requires Sound(img) && i < |img.inodes|
    requires refs[..] == Counts(done, refs.Length)
    requires forall x :: x in DirRefs(img, i).trace ==> x < refs.Length
    modifies refs
    ensures refs[..] == Counts(done + DirRefs(img, i).trace, refs.Length)
    ensures failed == DirRefs(img, i).readFailed
  {
    var ino := img.inodes[i];
    if ino.kind != T_DIR {
      assert done + [] == done;
      return false;
    }
    DirRefsSplit(img, i);
    ghost var direct := DirBlocks(img, DirectSlots(ino), ino.size / DIRENT_SIZE);
    ghost var indirect := IndirectRefs(img, ino.addrs[NDIRECT], direct.1);
    var budget := CountBlocks(img, DirectSlots(ino), ino.size / DIRENT_SIZE, refs, done);
    failed := CountIndirect(img, ino.addrs[NDIRECT], budget, refs, done + direct.0);
    AppendAssoc(done, direct.0, indirect.trace);
  }

  /** is_inode_in_dir: the counter table, and whether an rsect came up short. */
  method IsInodeInDir(img: Image) returns (refs: array<nat>, failed: bool)
    requires Sound(img) && forall x :: x in RefPass(img).trace ==> x < |img.inodes|
    ensures fresh(refs) && refs.Length == |img.inodes|
    ensures refs[..] == Counts(RefPass(img).trace, |img.inodes|)
    ensures failed == RefPass(img).readFailed
  {
    refs := new nat[|img.inodes|](_ => 0);
    ghost var done: seq<nat> := [];
    assert refs[..] == Counts(done, refs.Length);
    var i := 0;
    while i < |img.inodes|
      invariant 0 <= i <= |img.inodes| && refs.Length == |img.inodes|
      invariant refs[..] == Counts(done, refs.Length)
      invariant RefPass(img).trace == done + RefsFrom(img, i).trace
      invariant RefPass(img).readFailed == RefsFrom(img, i).readFailed
    {
      RefsFromStep(img, i, done);
      failed := CountDirectory(img, i, refs, done);
      if failed {
        return;
      }
      done := done + DirRefs(img, i).trace;
      i := i + 1;
    }
    assert done + [] == done;
    failed := false;
  }

  /** The final loop of main: rules 10, 9, 11 and 12 for every inode from 2 on. */
  method CheckReferenceRules(img: Image, refs: array<nat>) returns (r: Option<Violation>)
    requires refs.Length == |img.inodes| && 2 <= |img.inodes|
    ensures r == FinalFrom(img, refs[..], 2)
  {
    var i := 2;
    while i < |img.inodes|
      invariant 2 <= i <= |img.inodes|
      invariant FinalFrom(img, refs[..], i) == FinalFrom(img, refs[..], 2)
    {
      var ino := img.inodes[i];
      if ino.kind == 0 {
        r := CheckRule10(refs[i]);
        if r.Some? {
          return;
        }
        i := i + 1;
        continue;
      }
      r := CheckRule9(refs[i]);
      if r.Some? {
        return;
      }
      r := CheckRule11(ino.kind, refs[i], ino.nlink);
      if r.Some? {
        return;
      }
      r := CheckRule12(ino.kind, refs[i]);
      if r.Some? {
        return;
      }
      i := i + 1;
    }
    r := None;
  }

  // ---------------------------------------------------------------------
  // main

  /** The validation body of main: its verdict is Check's. */
  method Run(img: Image) returns (r: Option<Violation>)
    requires Checkable(img)
    ensures r == Check(img)
  {
    r := CheckRoot(img);
    if r.Some? {
      return;
    }
    var used := InitUsedBlocks(img);
    r := ScanInodes(img, used);
    if r.Some? {
      return;
    }
    r := CheckRule6(img, used);
    if r.Some? {
      return;
    }
    var refs, failed := IsInodeInDir(img);
    if failed {
      return Some(SectorReadFailed);
    }
    r := CheckReferenceRules(img, refs);
  }
}
