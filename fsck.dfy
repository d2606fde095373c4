/**
 * The whole run of fcheck on one image: the root check, the block scan,
 * the bitmap sweep, the reference pass and the final rules, in that order,
 * stopping at the first violation. None means the checker exits with 0.
 */
module Fsck {
  import opened Layout
  import opened Wrappers
  import opened DiskImage
  import opened Rules
  import opened Directories
  import opened BlockScan
  import opened ScanClaims
  import opened DirFormat
  import opened ScanAccepts
  import opened References

  /** The run gets as far as the reference pass. */
  predicate ReachesRefs(img: Image)
    requires Scannable(img) && RootWindowMapped(img)
  {
    && RootCheck(img).None?
    && ScanAll(img).Ok?
    && SweepViolation(img, ScanAll(img).value).None?
  }

  /**
   * What the C code needs of an image for every read and write it makes to
   * be defined: the geometry and the directory windows it reads, and, once
   * the run reaches the reference pass, that every inode number it counts
   * indexes referenced_inodes_arr (the pass reaches only sound inodes,
   * ScanAllSound).
   */
  predicate Checkable(img: Image)
  {
    && Scannable(img) && RootWindowMapped(img)
    && (ReachesRefs(img) ==>
          Sound(img) && forall x :: x in RefPass(img).trace ==> x < |img.inodes|)
  }

  /** The counter table after the reference pass. */
  function RefTable(img: Image): seq<nat>
    requires Sound(img)
  {
    Counts(RefPass(img).trace, |img.inodes|)
  }

  /** The checker's verdict: None for a consistent image, else the first violation met. */
  function Check(img: Image): (r: Option<Violation>)
    requires Checkable(img)
  {
    match RootCheck(img)
    case Some(v) => Some(v)
    case None =>
      match ScanAll(img)
      case Err(v) => Some(v)
      case Ok(used) =>
        match SweepViolation(img, used)
        case Some(v) => Some(v)
        case None =>
          if RefPass(img).readFailed then Some(SectorReadFailed)
          else FinalFrom(img, RefTable(img), 2)
  }

  /**
   * An image passes exactly when: the root has a positive size and its
   * first two "." / ".." entries name the root; every inode is accepted
   * (InodeAccepted) on the table the inodes before it leave; every data block the bitmap marks below
   * first_block + nblocks was claimed; every directory's indirect block can
   * be read; and every inode from 2 on meets rules 9 to 12 against its
   * count.
   */
  lemma CheckPasses(img: Image)
    requires Checkable(img)
    ensures Check(img).None? <==>
      && img.inodes[ROOTINO].size > 0
      && (var es := SelfParentEntries(img, RootBase(img), RootCount(img));
          forall m :: 0 <= m < Min(2, |es|) ==> es[m].inum == ROOTINO)
      && (forall j :: 0 <= j < |img.inodes| ==> AcceptedAfter(img, 0, j, InitialUsed(img)))
      && (forall j :: First(img) <= j < First(img) + img.sb.nblocks && BitmapMarked(img, j)
            ==> j in MarksFrom(img, 0))
      && Sound(img)
      && (forall i :: 0 <= i < |img.inodes| ==> !DirRefs(img, i).readFailed)
      && (forall i :: 2 <= i < |img.inodes| ==> InodeRefViolation(img.inodes[i], RefTable(img)[i]).None?)
  {
    RootCheckPasses(img);
    ScanAllAccepts(img);
    if RootCheck(img).None? && ScanAll(img).Ok? {
      SweepPasses(img);
      ScanAllSound(img);
      RefsFromFails(img, 0);
      FinalFromFirst(img, RefTable(img), 2);
    }
  }

  /** The loop from inode i on gets past inode j, for every j from i on. */
  lemma {:induction false} ScanFromEach(img: Image, i: nat, used: UsedTable, j: nat)
    requires Scannable(img) && i <= j < |img.inodes| && |used| == img.sb.size
    requires ScanFrom(img, i, used).Ok?
    ensures exists u: UsedTable :: |u| == img.sb.size && ScanInode(img, j, u).Ok?
    decreases j - i
  {
    if i == j {
      assert ScanInode(img, j, used).Ok?;
    } else {
      ScanFromEach(img, i + 1, ScanInode(img, i, used).value, j);
    }
  }

  /**
   * What a consistent image is known to satisfy: no data block belongs to
   * two places; every directory of positive size has at least two "." /
   * ".." entries over its in-range direct blocks, any "." among the first
   * two naming the directory itself (two ".." entries also pass); and from
   * inode 2 on, a free inode is never referred to, every other inode is
   * referred to at least once, every file nlink times and every directory
   * exactly once.
   */
  lemma CheckConsequences(img: Image)
    requires Checkable(img) && Check(img).None?
    ensures NoDup(ClaimsFrom(img, 0))
    ensures forall i :: 0 <= i < |img.inodes| && img.inodes[i].kind == T_DIR && img.inodes[i].size > 0 ==>
      var ls := DirLinks(img, i, DirectSlots(img.inodes[i]));
      |ls| >= 2 && (IsDot(ls[0].name) ==> ls[0].inum == i) && (IsDot(ls[1].name) ==> ls[1].inum == i)
    ensures Sound(img)
    ensures forall i :: 2 <= i < |img.inodes| ==>
      var ino := img.inodes[i];
      var c := RefTable(img)[i];
      && (ino.kind == 0 ==> c == 0)
      && (ino.kind != 0 ==> c >= 1)
      && (ino.kind == T_FILE ==> c == ino.nlink)
      && (ino.kind == T_DIR ==> c == 1)
  {
    CheckPasses(img);
    ScanAllClaims(img);
    forall i | 0 <= i < |img.inodes| && img.inodes[i].kind == T_DIR && img.inodes[i].size > 0
      ensures DirSlots(img, i, DirectSlots(img.inodes[i]))
      ensures var ls := DirLinks(img, i, DirectSlots(img.inodes[i]));
        |ls| >= 2 && (IsDot(ls[0].name) ==> ls[0].inum == i) && (IsDot(ls[1].name) ==> ls[1].inum == i)
    {
      ScanFromEach(img, 0, InitialUsed(img), i);
      var u: UsedTable :| |u| == img.sb.size && ScanInode(img, i, u).Ok?;
      DirectoryFormatted(img, i, u);
    }
    forall i | 2 <= i < |img.inodes|
      ensures InodeRefViolation(img.inodes[i], RefTable(img)[i]).None?
    {
    }
  }
}
