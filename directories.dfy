/**
 * The directory checks of the first pass: the root check at the top of
 * main and the "." / ".." formatting loop run over each direct block of a
 * directory during the block scan.
 */
module Directories {
  import opened Layout
  import opened Wrappers
  import opened DiskImage
  import opened Rules

  function Min(a: int, b: int): int
  {
    if a <= b then a else b
  }

  /**
   * The entries named "." or "..", in order, among the n entries stored
   * from byte `base` on.
   */
  function SelfParentEntries(img: Image, base: nat, n: nat): seq<DirEntry>
    requires base + n * DIRENT_SIZE <= |img.disk|
    decreases n
  {
    if n == 0 then []
    else
      var e := DirEntryAt(img, base);
      (if SelfOrParent(e) then [e] else []) + SelfParentEntries(img, base + DIRENT_SIZE, n - 1)
  }

  /** Some entry among `es` names an inode other than `target`. */
  predicate HasStray(es: seq<DirEntry>, target: nat)
  {
    exists m :: 0 <= m < |es| && es[m].inum != target
  }

  /** Some "." entry among `es` names an inode other than `dir`. */
  predicate HasStrayDot(es: seq<DirEntry>, dir: nat)
  {
    exists m :: 0 <= m < |es| && IsDot(es[m].name) && es[m].inum != dir
  }

  // ---------------------------------------------------------------------
  // Root check (main, before the block scan)

  /**
   * The loop over the root's entries, n of them left from byte `base` on:
   * while fewer than two "." / ".." entries have been seen, each such entry
   * must name the root.
   */
  function RootLoop(img: Image, base: nat, n: nat, tally: nat): Option<Violation>
    requires base + n * DIRENT_SIZE <= |img.disk|
    decreases n
  {
    if n == 0 then None
    else
      var e := DirEntryAt(img, base);
      if tally < 2 && SelfOrParent(e) then
        match CheckRule3ForRootInode(e.inum)
        case Some(v) => Some(v)
        case None => RootLoop(img, base + DIRENT_SIZE, n - 1, tally + 1)
      else
        RootLoop(img, base + DIRENT_SIZE, n - 1, tally)
  }

  /** Where the root's entries start and how many main reads. */
  function RootBase(img: Image): nat
    requires Geometry(img)
  {
    img.inodes[ROOTINO].addrs[0] * BSIZE
  }

  function RootCount(img: Image): nat
    requires Geometry(img) && img.inodes[ROOTINO].size > 0
  {
    img.inodes[ROOTINO].size / DIRENT_SIZE
  }

  /** Rule 3 as main applies it: size first, then the entries. */
  function RootCheck(img: Image): Option<Violation>
    requires Geometry(img) && RootWindowMapped(img)
  {
    match CheckRule3ForSize(img.inodes[ROOTINO].size)
    case Some(v) => Some(v)
    case None => RootLoop(img, RootBase(img), RootCount(img), 0)
  }

  /**
   * With `tally` "." / ".." entries already seen, the loop fails exactly
   * when one of the next 2 - tally such entries does not name the root.
   */
  lemma {:induction false} RootLoopClosedForm(img: Image, base: nat, n: nat, tally: nat)
    requires base + n * DIRENT_SIZE <= |img.disk| && tally <= 2
    ensures var es := SelfParentEntries(img, base, n);
      var checked := es[..Min(2 - tally, |es|)];
      RootLoop(img, base, n, tally)
        == if HasStray(checked, ROOTINO) then Some(RootDirMissing) else None
    decreases n
  {
    if n > 0 {
      var e := DirEntryAt(img, base);
      var rest := SelfParentEntries(img, base + DIRENT_SIZE, n - 1);
      var es := SelfParentEntries(img, base, n);
      if tally < 2 && SelfOrParent(e) {
        RootLoopClosedForm(img, base + DIRENT_SIZE, n - 1, tally + 1);
        var rc := rest[..Min(2 - (tally + 1), |rest|)];
        var checked := es[..Min(2 - tally, |es|)];
        TakeCons(e, rest, Min(2 - (tally + 1), |rest|));
        assert checked == [e] + rc;
        StrayCons(e, rc, ROOTINO);
      } else {
        RootLoopClosedForm(img, base + DIRENT_SIZE, n - 1, tally);
        SkipEntry(img, base, n, tally);
      }
    }
  }

  /** Taking n + 1 entries of e :: rest takes e and n entries of rest. */
  lemma TakeCons(e: DirEntry, rest: seq<DirEntry>, n: nat)
    requires n <= |rest|
    ensures ([e] + rest)[..n + 1] == [e] + rest[..n]
  {
  }

  lemma StrayCons(e: DirEntry, es: seq<DirEntry>, target: nat)
    ensures HasStray([e] + es, target) <==> e.inum != target || HasStray(es, target)
  {
    assert ([e] + es)[0] == e;
    if HasStray(es, target) {
      var m :| 0 <= m < |es| && es[m].inum != target;
      assert ([e] + es)[m + 1] == es[m];
    }
    if HasStray([e] + es, target) && e.inum == target {
      var m :| 0 <= m < |[e] + es| && ([e] + es)[m].inum != target;
      assert es[m - 1] == ([e] + es)[m];
    }
  }

  lemma StrayDotCons(e: DirEntry, es: seq<DirEntry>, dir: nat)
    ensures HasStrayDot([e] + es, dir) <==> (IsDot(e.name) && e.inum != dir) || HasStrayDot(es, dir)
  {
    assert ([e] + es)[0] == e;
    if HasStrayDot(es, dir) {
      var m :| 0 <= m < |es| && IsDot(es[m].name) && es[m].inum != dir;
      assert ([e] + es)[m + 1] == es[m];
    }
    if HasStrayDot([e] + es, dir) && !(IsDot(e.name) && e.inum != dir) {
      var m :| 0 <= m < |[e] + es| && IsDot(([e] + es)[m].name) && ([e] + es)[m].inum != dir;
      assert es[m - 1] == ([e] + es)[m];
    }
  }

  /**
   * An entry the loops do not look at (not "." / "..", or the tally is
   * full) leaves the checked prefix as it is.
   */
  lemma SkipEntry(img: Image, base: nat, n: nat, tally: nat)
    requires base + n * DIRENT_SIZE <= |img.disk| && n > 0 && tally <= 2
    requires !(tally < 2 && SelfOrParent(DirEntryAt(img, base)))
    ensures var es := SelfParentEntries(img, base, n);
      var rest := SelfParentEntries(img, base + DIRENT_SIZE, n - 1);
      es[..Min(2 - tally, |es|)] == rest[..Min(2 - tally, |rest|)]
      && (tally < 2 ==> |es| == |rest|)
  {
  }

  /**
   * The root check passes exactly when the root has a positive size and the
   * first two "." / ".." entries among its first size / sizeof(dirent)
   * entries (as many as there are) both name ROOTINO.
   */
  lemma RootCheckPasses(img: Image)
    requires Geometry(img) && RootWindowMapped(img)
    ensures RootCheck(img).Some? ==> RootCheck(img).value == RootDirMissing
    ensures RootCheck(img).None? <==>
      img.inodes[ROOTINO].size > 0 &&
      var es := SelfParentEntries(img, RootBase(img), RootCount(img));
      forall m :: 0 <= m < Min(2, |es|) ==> es[m].inum == ROOTINO
  {
    if img.inodes[ROOTINO].size > 0 {
      RootLoopClosedForm(img, RootBase(img), RootCount(img), 0);
    }
  }

  // ---------------------------------------------------------------------
  // Formatting loop (block scan, one direct block of a directory)

  /**
   * The formatting loop over one direct block of directory `dir`, n
   * entries left from byte `base` on, with `tally` "." / ".." entries
   * counted so far for this directory.
   */
  function FormatEntries(img: Image, dir: nat, base: nat, n: nat, tally: nat)
    : (r: Result<nat, Violation>)
    requires base + n * DIRENT_SIZE <= |img.disk|
    ensures r.Err? ==> r.error == DirNotFormatted
    decreases n
  {
    if n == 0 then Ok(tally)
    else
      var e := DirEntryAt(img, base);
      var next := base + DIRENT_SIZE;
      if tally < 2 && IsDot(e.name) then
        match CheckRule4ForPresentDirLink(e, dir, tally)
        case Err(v) => Err(v)
        case Ok(t) => FormatEntries(img, dir, next, n - 1, t)
      else if tally < 2 && IsDotDot(e.name) then
        FormatEntries(img, dir, next, n - 1, tally + 1)
      else
        FormatEntries(img, dir, next, n - 1, tally)
  }

  /**
   * The loop fails exactly when a "." entry among the next 2 - tally
   * "." / ".." entries names another inode; otherwise the tally becomes
   * the number of such entries seen, capped at 2.
   */
  lemma {:induction false} FormatEntriesClosedForm(img: Image, dir: nat, base: nat, n: nat, tally: nat)
    requires base + n * DIRENT_SIZE <= |img.disk| && tally <= 2
    ensures var es := SelfParentEntries(img, base, n);
      FormatEntries(img, dir, base, n, tally)
        == if HasStrayDot(es[..Min(2 - tally, |es|)], dir) then Err(DirNotFormatted)
           else Ok(Min(2, tally + |es|))
    decreases n
  {
    if n > 0 {
      var e := DirEntryAt(img, base);
      var rest := SelfParentEntries(img, base + DIRENT_SIZE, n - 1);
      var es := SelfParentEntries(img, base, n);
      if tally < 2 && SelfOrParent(e) {
        FormatEntriesClosedForm(img, dir, base + DIRENT_SIZE, n - 1, tally + 1);
        var rc := rest[..Min(2 - (tally + 1), |rest|)];
        TakeCons(e, rest, Min(2 - (tally + 1), |rest|));
        assert es[..Min(2 - tally, |es|)] == [e] + rc;
        StrayDotCons(e, rc, dir);
      } else {
        FormatEntriesClosedForm(img, dir, base + DIRENT_SIZE, n - 1, tally);
        SkipEntry(img, base, n, tally);
      }
    }
  }

  /**
   * Rule 4's count run over a list of "." / ".." entries of directory
   * `dir`: while fewer than two have been counted, a "." naming another
   * inode fails, and every other entry is counted.
   */
  function LinkTally(ls: seq<DirEntry>, dir: nat, tally: nat): Result<nat, Violation>
    decreases |ls|
  {
    if |ls| == 0 then Ok(tally)
    else if tally < 2 && IsDot(ls[0].name) && ls[0].inum != dir then Err(DirNotFormatted)
    else LinkTally(ls[1..], dir, if tally < 2 then tally + 1 else tally)
  }

  /**
   * The formatting loop over one block is that count run over the block's
   * "." / ".." entries: every other entry leaves the tally alone.
   */
  lemma {:induction false} FormatEntriesTally(img: Image, dir: nat, base: nat, n: nat, tally: nat)
    requires base + n * DIRENT_SIZE <= |img.disk|
    ensures FormatEntries(img, dir, base, n, tally)
         == LinkTally(SelfParentEntries(img, base, n), dir, tally)
    decreases n
  {
    if n > 0 {
      var e := DirEntryAt(img, base);
      var next := base + DIRENT_SIZE;
      var rest := SelfParentEntries(img, next, n - 1);
      if SelfOrParent(e) {
        assert SelfParentEntries(img, base, n) == [e] + rest;
        assert ([e] + rest)[1..] == rest;
        FormatEntriesTally(img, dir, next, n - 1, if tally < 2 then tally + 1 else tally);
      } else {
        assert SelfParentEntries(img, base, n) == rest;
        FormatEntriesTally(img, dir, next, n - 1, tally);
      }
    }
  }
}
