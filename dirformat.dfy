/**
 * Rule 4 across a whole directory: the tally the formatting loop carries
 * from block to block, and what a directory that gets through the block
 * scan is then known to contain.
 */
module DirFormat {
  import opened Layout
  import opened Wrappers
  import opened DiskImage
  import opened Rules
  import opened Directories
  import opened BlockScan

  /** What the formatting loop needs of directory i and the slots left to scan. */
  predicate DirSlots(img: Image, i: nat, slots: seq<uint32>)
  {
    && i < |img.inodes|
    && img.inodes[i].kind == T_DIR && img.inodes[i].size > 0
    && forall m :: 0 <= m < |slots| ==> WindowMapped(img, img.inodes[i], slots[m])
  }

  /**
   * The "." / ".." entries of directory i, in scan order, over the direct
   * blocks in `slots` that pass the range check (the scan stops at any
   * other nonzero block before reading it).
   */
  function DirLinks(img: Image, i: nat, slots: seq<uint32>): seq<DirEntry>
    requires DirSlots(img, i, slots)
    decreases |slots|
  {
    if |slots| == 0 then []
    else
      var ino := img.inodes[i];
      var b := slots[0];
      assert WindowMapped(img, ino, b);
      (if 0 < b <= img.sb.nblocks then SelfParentEntries(img, b * BSIZE, ino.size / DIRENT_SIZE) else [])
        + DirLinks(img, i, slots[1..])
  }

  /**
   * The formatting loop alone, run over the in-range blocks in `slots` with
   * the tally carried from block to block, as the direct-slot loop runs it
   * when no block is refused.
   */
  function FormatBlocks(img: Image, i: nat, slots: seq<uint32>, tally: nat): Result<nat, Violation>
    requires DirSlots(img, i, slots)
    decreases |slots|
  {
    if |slots| == 0 then Ok(tally)
    else
      var ino := img.inodes[i];
      var b := slots[0];
      assert WindowMapped(img, ino, b);
      if 0 < b <= img.sb.nblocks then
        match FormatEntries(img, i, b * BSIZE, ino.size / DIRENT_SIZE, tally)
        case Err(v) => Err(v)
        case Ok(t) => FormatBlocks(img, i, slots[1..], t)
      else
        FormatBlocks(img, i, slots[1..], tally)
  }

  /** Counting over a + c is counting over a, then over c from where a left off. */
  lemma {:induction false} LinkTallyAppend(a: seq<DirEntry>, c: seq<DirEntry>, dir: nat, tally: nat)
    ensures LinkTally(a + c, dir, tally)
         == match LinkTally(a, dir, tally)
            case Err(v) => Err(v)
            case Ok(t) => LinkTally(c, dir, t)
    decreases |a|
  {
    if |a| == 0 {
      assert a + c == c;
    } else {
      assert (a + c)[0] == a[0];
      assert (a + c)[1..] == a[1..] + c;
      LinkTallyAppend(a[1..], c, dir, if tally < 2 then tally + 1 else tally);
    }
  }

  /** Across a directory's blocks, the formatting loop is one count over all its links. */
  lemma {:induction false} FormatBlocksTally(img: Image, i: nat, slots: seq<uint32>, tally: nat)
    requires DirSlots(img, i, slots)
    ensures FormatBlocks(img, i, slots, tally) == LinkTally(DirLinks(img, i, slots), i, tally)
    decreases |slots|
  {
    if |slots| == 0 {
      assert DirLinks(img, i, slots) == [];
    } else {
      var ino := img.inodes[i];
      var b := slots[0];
      assert WindowMapped(img, ino, b);
      var rest := DirLinks(img, i, slots[1..]);
      if 0 < b <= img.sb.nblocks {
        var base := b * BSIZE;
        var n := ino.size / DIRENT_SIZE;
        var w := SelfParentEntries(img, base, n);
        FormatEntriesTally(img, i, base, n, tally);
        assert DirLinks(img, i, slots) == w + rest;
        LinkTallyAppend(w, rest, i, tally);
        match LinkTally(w, i, tally)
        case Err(v) =>
        case Ok(t) => FormatBlocksTally(img, i, slots[1..], t);
      } else {
        assert DirLinks(img, i, slots) == rest;
        FormatBlocksTally(img, i, slots[1..], tally);
      }
    }
  }

  /**
   * Starting from 0, the count ends at 2 exactly when there are at least
   * two links and neither of the first two is a "." naming another inode.
   */
  lemma LinkTallyReachesTwo(ls: seq<DirEntry>, dir: nat)
    ensures LinkTally(ls, dir, 0) == Ok(2) <==>
      |ls| >= 2
      && (IsDot(ls[0].name) ==> ls[0].inum == dir)
      && (IsDot(ls[1].name) ==> ls[1].inum == dir)
  {
    if |ls| >= 2 {
      assert ls[1..][0] == ls[1];
      LinkTallyFull(ls[2..], dir, 2);
      assert ls[1..][1..] == ls[2..];
    } else if |ls| == 1 {
      assert ls[1..] == [];
    }
  }

  /** Once the count is full, it never fails and never moves. */
  lemma {:induction false} LinkTallyFull(ls: seq<DirEntry>, dir: nat, tally: nat)
    requires tally >= 2
    ensures LinkTally(ls, dir, tally) == Ok(tally)
    decreases |ls|
  {
    if |ls| > 0 {
      LinkTallyFull(ls[1..], dir, tally);
    }
  }

  /**
   * When the direct-slot loop gets through a directory's slots, its tally
   * is the one the formatting loop alone computes over them.
   */
  lemma {:induction false} ScanDirectFormats(img: Image, i: nat, slots: seq<uint32>, used: UsedTable, tally: nat)
    requires Geometry(img) && DirSlots(img, i, slots) && |used| == img.sb.size
    requires ScanDirect(img, i, slots, used, tally).Ok?
    ensures FormatBlocks(img, i, slots, tally) == Ok(ScanDirect(img, i, slots, used, tally).value.1)
    decreases |slots|
  {
    if |slots| > 0 {
      var ino := img.inodes[i];
      var b := slots[0];
      if b == 0 {
        ScanDirectFormats(img, i, slots[1..], used, tally);
      } else {
        var used1 := ClaimDirect(img, used, b).value;
        assert WindowMapped(img, ino, b);
        var t := FormatEntries(img, i, b * BSIZE, ino.size / DIRENT_SIZE, tally).value;
        ScanDirectFormats(img, i, slots[1..], used1, t);
      }
    }
  }

  /**
   * A directory that gets through its scan step has at least two "." / ".."
   * entries over its in-range direct blocks, and each of the first two that
   * is a "." names the directory itself.
   */
  lemma DirectoryFormatted(img: Image, i: nat, used: UsedTable)
    requires Scannable(img) && i < |img.inodes| && |used| == img.sb.size
    requires img.inodes[i].kind == T_DIR && img.inodes[i].size > 0
    requires ScanInode(img, i, used).Ok?
    ensures DirSlots(img, i, DirectSlots(img.inodes[i]))
    ensures var ls := DirLinks(img, i, DirectSlots(img.inodes[i]));
      && |ls| >= 2
      && (IsDot(ls[0].name) ==> ls[0].inum == i)
      && (IsDot(ls[1].name) ==> ls[1].inum == i)
  {
    var slots := DirectSlots(img.inodes[i]);
    assert ScanDirect(img, i, slots, used, 0).Ok? && ScanDirect(img, i, slots, used, 0).value.1 == 2;
    ScanDirectFormats(img, i, slots, used, 0);
    FormatBlocksTally(img, i, slots, 0);
    LinkTallyReachesTwo(DirLinks(img, i, slots), i);
  }
}
