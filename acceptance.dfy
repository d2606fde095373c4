/**
 * When the block scan gets through: the converse of ScanClaims and
 * DirFormat. Each step of main's inode loop succeeds exactly when a
 * condition on the image and the table at that point holds, and so does
 * the whole loop.
 */
module ScanAccepts {
  import opened Layout
  import opened Wrappers
  import opened DiskImage
  import opened Rules
  import opened Directories
  import opened BlockScan
  import opened ScanClaims
  import opened DirFormat

  // ---------------------------------------------------------------------
  // Direct slots

  /**
   * When the nonzero slots are pairwise distinct, in range, marked and
   * unclaimed, and (for a directory) the formatting loop alone gets
   * through the slots' blocks, the direct-slot loop gets through.
   */
  lemma {:induction false} ScanDirectAccepts(img: Image, i: nat, slots: seq<uint32>, used: UsedTable, tally: nat)
    requires Geometry(img) && i < |img.inodes| && img.inodes[i].size > 0 && |used| == img.sb.size
    requires forall m :: 0 <= m < |slots| ==> WindowMapped(img, img.inodes[i], slots[m])
    requires NoDup(NonZero(slots)) && Fresh(img, used, NonZero(slots))
    requires img.inodes[i].kind == T_DIR ==> FormatBlocks(img, i, slots, tally).Ok?
    ensures ScanDirect(img, i, slots, used, tally).Ok?
    decreases |slots|, 1
  {
    if |slots| > 0 {
      if slots[0] == 0 {
        ScanDirectCons(img, i, slots, used, tally);
        assert NonZero(slots) == NonZero(slots[1..]);
        ScanDirectAccepts(img, i, slots[1..], used, tally);
      } else {
        ScanDirectAcceptsClaimed(img, i, slots, used, tally);
      }
    }
  }

  /** ScanDirectAccepts when the first slot is nonzero and so is claimed. */
  lemma {:induction false} ScanDirectAcceptsClaimed(img: Image, i: nat, slots: seq<uint32>, used: UsedTable, tally: nat)
    requires Geometry(img) && i < |img.inodes| && img.inodes[i].size > 0 && |used| == img.sb.size
    requires forall m :: 0 <= m < |slots| ==> WindowMapped(img, img.inodes[i], slots[m])
    requires |slots| > 0 && slots[0] != 0
    requires NoDup(NonZero(slots)) && Fresh(img, used, NonZero(slots))
    requires img.inodes[i].kind == T_DIR ==> FormatBlocks(img, i, slots, tally).Ok?
    ensures ScanDirect(img, i, slots, used, tally).Ok?
    decreases |slots|, 0
  {
    var ino := img.inodes[i];
    var b := slots[0];
    var rest := NonZero(slots[1..]);
    assert NonZero(slots) == [b as int] + rest;
    assert b as int in NonZero(slots);
    NoDupCons(b, rest);
    FreshTail(img, used, b, rest);
    assert forall x :: x in rest ==> x in NonZero(slots);
    ScanDirectCons(img, i, slots, used, tally);
    assert ClaimDirect(img, used, b) == Ok(used[b := 1]);
    if ino.kind == T_DIR {
      var t := FormatEntries(img, i, b * BSIZE, ino.size / DIRENT_SIZE, tally);
      assert t.Ok? && FormatBlocks(img, i, slots, tally) == FormatBlocks(img, i, slots[1..], t.value);
      ScanDirectAccepts(img, i, slots[1..], used[b := 1], t.value);
    } else {
      ScanDirectAccepts(img, i, slots[1..], used[b := 1], tally);
    }
  }

  // ---------------------------------------------------------------------
  // One inode

  /**
   * What one iteration of the inode loop needs, on the table it starts
   * from: the inode is free (size 0), or it has a positive size and an
   * allocated type, its nonzero direct slots are pairwise distinct, in
   * range, marked and unclaimed, a directory's "." / ".." links bring
   * rule 4's tally to 2, and the indirect step is accepted on the table
   * with the direct slots claimed.
   */
  predicate InodeAccepted(img: Image, i: nat, used: UsedTable)
    requires Scannable(img) && i < |img.inodes| && |used| == img.sb.size
  {
    var ino := img.inodes[i];
    var ds := NonZero(DirectSlots(ino));
    || ino.size == 0
    || (&& ino.size > 0 && AllocatedKind(ino.kind)
        && NoDup(ds) && Fresh(img, used, ds)
        && (ino.kind == T_DIR ==> LinkTally(DirLinks(img, i, DirectSlots(ino)), i, 0) == Ok(2))
        && IndirectAccepted(img, ino.addrs[NDIRECT], Mark(used, ds)))
  }

  /** One iteration of the inode loop succeeds exactly when InodeAccepted holds. */
  lemma ScanInodeAccepts(img: Image, i: nat, used: UsedTable)
    requires Scannable(img) && i < |img.inodes| && |used| == img.sb.size && Flags(used)
    ensures ScanInode(img, i, used).Ok? <==> InodeAccepted(img, i, used)
  {
    var ino := img.inodes[i];
    if ino.size != 0 && CheckRule1(ino).None? {
      var slots := DirectSlots(ino);
      var ds := NonZero(slots);
      assert forall m :: 0 <= m < |slots| ==> WindowMapped(img, ino, slots[m]);
      if ino.kind == T_DIR {
        FormatBlocksTally(img, i, slots, 0);
      }
      if NoDup(ds) && Fresh(img, used, ds)
         && (ino.kind == T_DIR ==> LinkTally(DirLinks(img, i, slots), i, 0) == Ok(2)) {
        ScanDirectAccepts(img, i, slots, used, 0);
      }
      if ScanDirect(img, i, slots, used, 0).Ok? {
        ScanDirectClaims(img, i, slots, used, 0);
        if ino.kind == T_DIR {
          ScanDirectFormats(img, i, slots, used, 0);
        }
        FlagsMark(used, ds);
        ScanIndirectBlockAccepts(img, ino.addrs[NDIRECT], Mark(used, ds));
      }
    }
  }

  // ---------------------------------------------------------------------
  // The inode loop

  /** The flags inodes i .. j - 1 set, in order. */
  function MarksBetween(img: Image, i: nat, j: nat): seq<int>
    requires i <= j <= |img.inodes|
    decreases j - i
  {
    if i == j then [] else InodeMarks(img, i) + MarksBetween(img, i + 1, j)
  }

  /**
   * Inodes i onwards are each accepted on the table the inodes before
   * them leave, starting from used.
   */
  predicate AcceptedFrom(img: Image, i: nat, used: UsedTable)
    requires Scannable(img) && i <= |img.inodes| && |used| == img.sb.size
    decreases |img.inodes| - i
  {
    || i == |img.inodes|
    || (&& InodeAccepted(img, i, used)
        && AcceptedFrom(img, i + 1, Mark(used, InodeMarks(img, i))))
  }

  /** The inode loop from inode i succeeds exactly when AcceptedFrom holds. */
  lemma {:induction false} ScanFromAccepts(img: Image, i: nat, used: UsedTable)
    requires Scannable(img) && i <= |img.inodes| && |used| == img.sb.size && Flags(used)
    ensures ScanFrom(img, i, used).Ok? <==> AcceptedFrom(img, i, used)
    decreases |img.inodes| - i
  {
    if i < |img.inodes| {
      ScanInodeAccepts(img, i, used);
      if ScanInode(img, i, used).Ok? {
        ScanInodeClaims(img, i, used);
        FlagsMark(used, InodeMarks(img, i));
        ScanFromAccepts(img, i + 1, Mark(used, InodeMarks(img, i)));
      }
    }
  }

  /**
   * Inode j is accepted on the table used with the flags of inodes
   * i .. j - 1 set.
   */
  predicate AcceptedAfter(img: Image, i: nat, j: nat, used: UsedTable)
    requires Scannable(img) && i <= j < |img.inodes| && |used| == img.sb.size
  {
    InodeAccepted(img, j, Mark(used, MarksBetween(img, i, j)))
  }

  /** Setting inode i's flags first and then those of i + 1 .. j - 1 is one step. */
  lemma AcceptedAfterShift(img: Image, i: nat, j: nat, used: UsedTable)
    requires Scannable(img) && i < j < |img.inodes| && |used| == img.sb.size
    ensures AcceptedAfter(img, i, j, used) == AcceptedAfter(img, i + 1, j, Mark(used, InodeMarks(img, i)))
  {
    MarkAppend(used, InodeMarks(img, i), MarksBetween(img, i + 1, j));
  }

  /** With no inodes before it, inode i is judged on the table as given. */
  lemma AcceptedAfterFirst(img: Image, i: nat, used: UsedTable)
    requires Scannable(img) && i < |img.inodes| && |used| == img.sb.size
    ensures AcceptedAfter(img, i, i, used) == InodeAccepted(img, i, used)
  {
    assert MarksBetween(img, i, i) == [];
    MarkNil(used);
  }

  /**
   * AcceptedFrom in closed form: every inode j from i on is accepted on
   * the table with the flags of inodes i .. j - 1 set.
   */
  lemma {:induction false} AcceptedFromEach(img: Image, i: nat, used: UsedTable)
    requires Scannable(img) && i <= |img.inodes| && |used| == img.sb.size
    ensures AcceptedFrom(img, i, used) <==>
      forall j :: i <= j < |img.inodes| ==> AcceptedAfter(img, i, j, used)
    decreases |img.inodes| - i
  {
    if i < |img.inodes| {
      var used1 := Mark(used, InodeMarks(img, i));
      var next := i + 1;
      AcceptedFromEach(img, next, used1);
      AcceptedAfterFirst(img, i, used);
      forall j | next <= j < |img.inodes|
        ensures AcceptedAfter(img, i, j, used) == AcceptedAfter(img, next, j, used1)
      {
        AcceptedAfterShift(img, i, j, used);
      }
      assert AcceptedFrom(img, i, used) == (InodeAccepted(img, i, used) && AcceptedFrom(img, next, used1));
      if AcceptedFrom(img, i, used) {
        forall j | i <= j < |img.inodes|
          ensures AcceptedAfter(img, i, j, used)
        {
          if j > i {
            assert AcceptedAfter(img, next, j, used1);
          }
        }
      }
      if forall j :: i <= j < |img.inodes| ==> AcceptedAfter(img, i, j, used) {
        assert AcceptedAfter(img, i, i, used);
        forall j | next <= j < |img.inodes|
          ensures AcceptedAfter(img, next, j, used1)
        {
          assert AcceptedAfter(img, i, j, used);
        }
      }
    }
  }

  /**
   * The whole scan succeeds exactly when every inode is accepted on the
   * initial table with the flags of the inodes before it set.
   */
  lemma ScanAllAccepts(img: Image)
    requires Scannable(img)
    ensures ScanAll(img).Ok? <==>
      forall j :: 0 <= j < |img.inodes| ==> AcceptedAfter(img, 0, j, InitialUsed(img))
  {
    ScanFromAccepts(img, 0, InitialUsed(img));
    AcceptedFromEach(img, 0, InitialUsed(img));
  }
}
