/**
 * What the block scan establishes when it gets through every inode: the
 * final used-blocks table is the initial one with exactly the scanned
 * blocks set, no block is claimed twice, and every claimed block is in the
 * data area, within nblocks and marked in the bitmap. The sweep of rule 6
 * then passes exactly when every marked data block was claimed.
 */
module ScanClaims {
  import opened Layout
  import opened Wrappers
  import opened DiskImage
  import opened Rules
  import opened Directories
  import opened BlockScan

  // ---------------------------------------------------------------------
  // Block lists and tables

  /** The nonzero words of s, in order. */
  function NonZero(s: seq<uint32>): (r: seq<int>)
    ensures forall x :: x in r <==> x != 0 && x in s
  {
    if |s| == 0 then []
    else (if s[0] == 0 then [] else [s[0] as int]) + NonZero(s[1..])
  }

  /** No block appears twice. */
  predicate NoDup(s: seq<int>)
  {
    forall p, q :: 0 <= p < q < |s| ==> s[p] != s[q]
  }

  /** Every flag is 0 or 1. */
  predicate Flags(used: UsedTable)
  {
    forall j :: 0 <= j < |used| ==> used[j] <= 1
  }

  /** `used` with the flag of every block in `bs` set. */
  function Mark(used: UsedTable, bs: seq<int>): UsedTable
  {
    seq(|used|, j requires 0 <= j < |used| => if j in bs then 1 else used[j])
  }

  /**
   * Each block of `bs` passed the range and bitmap checks and was still
   * unclaimed in `used`.
   */
  predicate Fresh(img: Image, used: UsedTable, bs: seq<int>)
    requires Geometry(img)
  {
    forall b :: b in bs ==>
      0 < b <= img.sb.nblocks && b < img.sb.size && BitmapMarked(img, b) && b < |used| && used[b] == 0
  }

  // ---------------------------------------------------------------------
  // What each inode claims

  /** The flag main sets for an indirect pointer without checking it. */
  function PointerMark(img: Image, p: uint32): seq<int>
  {
    if 0 < p < img.sb.size then [p as int] else []
  }

  /** The nonzero entries of the block an indirect pointer names. */
  function IndirectClaims(img: Image, p: uint32): seq<int>
  {
    if p == 0 then []
    else
      match IndirectEntries(img, p)
      case None => []
      case Some(es) => NonZero(es)
  }

  /** The blocks inode i claims: its nonzero direct slots, then its indirect entries. */
  function InodeClaims(img: Image, i: nat): seq<int>
    requires i < |img.inodes|
  {
    var ino := img.inodes[i];
    if ino.size == 0 then []
    else NonZero(DirectSlots(ino)) + IndirectClaims(img, ino.addrs[NDIRECT])
  }

  /** The flags the scan of inode i sets: its claims and its indirect pointer. */
  function InodeMarks(img: Image, i: nat): seq<int>
    requires i < |img.inodes|
  {
    var ino := img.inodes[i];
    if ino.size == 0 then []
    else
      NonZero(DirectSlots(ino)) + PointerMark(img, ino.addrs[NDIRECT])
        + IndirectClaims(img, ino.addrs[NDIRECT])
  }

  function ClaimsFrom(img: Image, i: nat): seq<int>
    requires i <= |img.inodes|
    decreases |img.inodes| - i
  {
    if i == |img.inodes| then [] else InodeClaims(img, i) + ClaimsFrom(img, i + 1)
  }

  function MarksFrom(img: Image, i: nat): seq<int>
    requires i <= |img.inodes|
    decreases |img.inodes| - i
  {
    if i == |img.inodes| then [] else InodeMarks(img, i) + MarksFrom(img, i + 1)
  }

  // ---------------------------------------------------------------------
  // Algebra of tables

  lemma MarkNil(used: UsedTable)
    ensures Mark(used, []) == used
  {
  }

  lemma MarkAppend(used: UsedTable, a: seq<int>, c: seq<int>)
    ensures Mark(Mark(used, a), c) == Mark(used, a + c)
  {
  }

  lemma MarkOne(used: UsedTable, b: int, c: seq<int>)
    requires 0 <= b < |used|
    ensures Mark(used[b := 1], c) == Mark(used, [b] + c)
  {
  }

  lemma FlagsMark(used: UsedTable, bs: seq<int>)
    requires Flags(used)
    ensures Flags(Mark(used, bs))
  {
  }

  /** A block still unclaimed after `a` was set is not in `a`, and was unclaimed before. */
  lemma FreshAfterMark(img: Image, used: UsedTable, a: seq<int>, c: seq<int>)
    requires Geometry(img) && Fresh(img, Mark(used, a), c)
    ensures Fresh(img, used, c)
    ensures forall x :: x in c ==> x !in a
  {
  }

  lemma FreshAppend(img: Image, used: UsedTable, a: seq<int>, c: seq<int>)
    requires Geometry(img) && Fresh(img, used, a) && Fresh(img, used, c)
    ensures Fresh(img, used, a + c)
  {
  }

  lemma NoDupAppend(a: seq<int>, c: seq<int>)
    requires NoDup(a) && NoDup(c) && forall x :: x in c ==> x !in a
    ensures NoDup(a + c)
  {
    forall p, q | 0 <= p < q < |a + c|
      ensures (a + c)[p] != (a + c)[q]
    {
      if p < |a| && |a| <= q {
        assert (a + c)[q] == c[q - |a|];
        assert c[q - |a|] in c;
      }
    }
  }

  // ---------------------------------------------------------------------
  // The scan, step by step

  /**
   * Walking the entries of an indirect block sets exactly the nonzero
   * entries, each of them distinct, in range, marked and unclaimed before.
   */
  lemma {:induction false} ScanIndirectClaims(img: Image, es: seq<uint32>, used: UsedTable)
    requires Geometry(img) && |used| == img.sb.size && Flags(used)
    requires ScanIndirect(img, es, used).Ok?
    ensures var cs := NonZero(es);
      ScanIndirect(img, es, used).value == Mark(used, cs) && NoDup(cs) && Fresh(img, used, cs)
    ensures forall x :: x in NonZero(es) ==> x < 0x8000_0000
    decreases |es|, 1
  {
    if |es| == 0 {
      MarkNil(used);
    } else if es[0] == 0 {
      ScanIndirectClaims(img, es[1..], used);
    } else {
      ScanIndirectClaimsClaimed(img, es, used);
    }
  }

  /** ScanIndirectClaims when the first entry is nonzero and so is claimed. */
  lemma {:induction false} ScanIndirectClaimsClaimed(img: Image, es: seq<uint32>, used: UsedTable)
    requires Geometry(img) && |used| == img.sb.size && Flags(used) && |es| > 0 && es[0] != 0
    requires ScanIndirect(img, es, used).Ok?
    ensures var cs := NonZero(es);
      ScanIndirect(img, es, used).value == Mark(used, cs) && NoDup(cs) && Fresh(img, used, cs)
    ensures forall x :: x in NonZero(es) ==> x < 0x8000_0000
    decreases |es|, 0
  {
    var b := es[0];
    var used1 := used[b := 1];
    assert ClaimIndirect(img, used, b) == Ok(used1);
    ScanIndirectClaims(img, es[1..], used1);
    var rest := NonZero(es[1..]);
    assert NonZero(es) == [b as int] + rest;
    MarkOne(used, b, rest);
    assert b !in rest;
    NoDupAppend([b as int], rest);
  }

  /** A list without duplicates stays so without its head, and its head does not recur. */
  lemma NoDupCons(b: int, rest: seq<int>)
    requires NoDup([b] + rest)
    ensures NoDup(rest) && b !in rest
  {
    forall p, q | 0 <= p < q < |rest|
      ensures rest[p] != rest[q]
    {
      assert rest[p] == ([b] + rest)[p + 1] && rest[q] == ([b] + rest)[q + 1];
    }
    forall k | 0 <= k < |rest|
      ensures rest[k] != b
    {
      assert ([b] + rest)[k + 1] == rest[k] && ([b] + rest)[0] == b;
    }
  }

  /** Claiming the head of a fresh list leaves its tail fresh. */
  lemma FreshTail(img: Image, used: UsedTable, b: int, rest: seq<int>)
    requires Geometry(img) && Fresh(img, used, [b] + rest) && b !in rest && 0 <= b < |used|
    ensures Fresh(img, used[b := 1], rest)
  {
    forall x | x in rest
      ensures 0 < x <= img.sb.nblocks && x < img.sb.size && BitmapMarked(img, x)
      ensures x < |used| && used[b := 1][x] == 0
    {
      assert x in [b] + rest;
    }
  }

  /**
   * The converse of ScanIndirectClaims: when the nonzero entries are
   * pairwise distinct, read as non-negative C ints, and are in range,
   * marked and unclaimed, the walk gets through every entry.
   */
  lemma {:induction false} ScanIndirectAccepts(img: Image, es: seq<uint32>, used: UsedTable)
    requires Geometry(img) && |used| == img.sb.size
    requires NoDup(NonZero(es)) && Fresh(img, used, NonZero(es))
    requires forall x :: x in NonZero(es) ==> x < 0x8000_0000
    ensures ScanIndirect(img, es, used).Ok?
    decreases |es|, 1
  {
    if |es| > 0 {
      if es[0] == 0 {
        assert NonZero(es) == NonZero(es[1..]);
        ScanIndirectAccepts(img, es[1..], used);
      } else {
        ScanIndirectAcceptsClaimed(img, es, used);
      }
    }
  }

  /** ScanIndirectAccepts when the first entry is nonzero and so is claimed. */
  lemma {:induction false} ScanIndirectAcceptsClaimed(img: Image, es: seq<uint32>, used: UsedTable)
    requires Geometry(img) && |used| == img.sb.size && |es| > 0 && es[0] != 0
    requires NoDup(NonZero(es)) && Fresh(img, used, NonZero(es))
    requires forall x :: x in NonZero(es) ==> x < 0x8000_0000
    ensures ScanIndirect(img, es, used).Ok?
    decreases |es|, 0
  {
    var b := es[0];
    var rest := NonZero(es[1..]);
    assert NonZero(es) == [b as int] + rest;
    assert b as int in NonZero(es);
    NoDupCons(b, rest);
    FreshTail(img, used, b, rest);
    assert forall x :: x in rest ==> x in NonZero(es);
    assert ClaimIndirect(img, used, b) == Ok(used[b := 1]);
    ScanIndirectAccepts(img, es[1..], used[b := 1]);
  }

  /**
   * A nonzero direct slot the loop gets past was claimed, and the loop goes
   * on from the next slot with the updated table and some tally.
   */
  lemma ScanDirectStep(img: Image, i: nat, slots: seq<uint32>, used: UsedTable, tally: nat) returns (t: nat)
    requires Geometry(img) && i < |img.inodes| && img.inodes[i].size > 0 && |used| == img.sb.size
    requires forall m :: 0 <= m < |slots| ==> WindowMapped(img, img.inodes[i], slots[m])
    requires |slots| > 0 && slots[0] != 0 && ScanDirect(img, i, slots, used, tally).Ok?
    ensures ClaimDirect(img, used, slots[0]) == Ok(used[slots[0] := 1])
    ensures ScanDirect(img, i, slots[1..], used[slots[0] := 1], t) == ScanDirect(img, i, slots, used, tally)
  {
    var ino := img.inodes[i];
    var b := slots[0];
    t := tally;
    if ino.kind == T_DIR {
      assert WindowMapped(img, ino, b);
      t := FormatEntries(img, i, b * BSIZE, ino.size / DIRENT_SIZE, tally).value;
    }
  }

  /** The same for the direct slots of inode i that remain in `slots`. */
  lemma {:induction false} ScanDirectClaims(img: Image, i: nat, slots: seq<uint32>, used: UsedTable, tally: nat)
    requires Geometry(img) && i < |img.inodes| && img.inodes[i].size > 0 && |used| == img.sb.size
    requires forall m :: 0 <= m < |slots| ==> WindowMapped(img, img.inodes[i], slots[m])
    requires Flags(used) && ScanDirect(img, i, slots, used, tally).Ok?
    ensures var cs := NonZero(slots);
      ScanDirect(img, i, slots, used, tally).value.0 == Mark(used, cs) && NoDup(cs) && Fresh(img, used, cs)
    decreases |slots|, 1
  {
    if |slots| == 0 {
      MarkNil(used);
    } else if slots[0] == 0 {
      ScanDirectClaims(img, i, slots[1..], used, tally);
    } else {
      ScanDirectClaimsClaimed(img, i, slots, used, tally);
    }
  }

  /** ScanDirectClaims when the first slot is nonzero and so is claimed. */
  lemma {:induction false} ScanDirectClaimsClaimed(img: Image, i: nat, slots: seq<uint32>, used: UsedTable, tally: nat)
    requires Geometry(img) && i < |img.inodes| && img.inodes[i].size > 0 && |used| == img.sb.size
    requires forall m :: 0 <= m < |slots| ==> WindowMapped(img, img.inodes[i], slots[m])
    requires Flags(used) && |slots| > 0 && slots[0] != 0 && ScanDirect(img, i, slots, used, tally).Ok?
    ensures var cs := NonZero(slots);
      ScanDirect(img, i, slots, used, tally).value.0 == Mark(used, cs) && NoDup(cs) && Fresh(img, used, cs)
    decreases |slots|, 0
  {
    var b := slots[0];
    var t := ScanDirectStep(img, i, slots, used, tally);
    ScanDirectClaims(img, i, slots[1..], used[b := 1], t);
    var rest := NonZero(slots[1..]);
    MarkOne(used, b, rest);
    assert b !in rest;
    NoDupAppend([b as int], rest);
  }

  /** An indirect pointer adds its own flag and its block's claims. */
  lemma ScanIndirectBlockClaims(img: Image, p: uint32, used: UsedTable)
    requires Geometry(img) && |used| == img.sb.size && Flags(used)
    requires ScanIndirectBlock(img, p, used).Ok?
    ensures var cs := IndirectClaims(img, p);
      ScanIndirectBlock(img, p, used).value == Mark(used, PointerMark(img, p) + cs)
      && NoDup(cs) && Fresh(img, used, cs)
  {
    if p == 0 {
      MarkNil(used);
    } else {
      var used1 := if 0 < p < img.sb.size then used[p := 1] else used;
      assert used1 == Mark(used, PointerMark(img, p));
      FlagsMark(used, PointerMark(img, p));
      var es := IndirectEntries(img, p).value;
      ScanIndirectClaims(img, es, used1);
      var cs := NonZero(es);
      MarkAppend(used, PointerMark(img, p), cs);
      FreshAfterMark(img, used, PointerMark(img, p), cs);
    }
  }

  /**
   * What the indirect step needs: the pointer is 0, or its block can be
   * read and the block's nonzero entries are pairwise distinct, read as
   * non-negative C ints, and are in range, marked and unclaimed once the
   * pointer's own flag is set. The pointer enters only through its block
   * and its flag: it is never range-, bitmap- or reuse-checked itself.
   */
  predicate IndirectAccepted(img: Image, p: uint32, used: UsedTable)
    requires Geometry(img)
  {
    || p == 0
    || (&& IndirectEntries(img, p).Some?
        && NoDup(IndirectClaims(img, p))
        && Fresh(img, Mark(used, PointerMark(img, p)), IndirectClaims(img, p))
        && forall x :: x in IndirectClaims(img, p) ==> x < 0x8000_0000)
  }

  /** The indirect step succeeds exactly when IndirectAccepted holds. */
  lemma ScanIndirectBlockAccepts(img: Image, p: uint32, used: UsedTable)
    requires Geometry(img) && |used| == img.sb.size && Flags(used)
    ensures ScanIndirectBlock(img, p, used).Ok? <==> IndirectAccepted(img, p, used)
  {
    if p != 0 && IndirectEntries(img, p).Some? {
      var used1 := Mark(used, PointerMark(img, p));
      assert used1 == if 0 < p < img.sb.size then used[p := 1] else used;
      var es := IndirectEntries(img, p).value;
      assert IndirectClaims(img, p) == NonZero(es);
      FlagsMark(used, PointerMark(img, p));
      if ScanIndirect(img, es, used1).Ok? {
        ScanIndirectClaims(img, es, used1);
      } else if NoDup(NonZero(es)) && Fresh(img, used1, NonZero(es))
             && forall x :: x in NonZero(es) ==> x < 0x8000_0000 {
        ScanIndirectAccepts(img, es, used1);
      }
    }
  }

  /** One inode: its flags are set, and its claims are distinct and were free. */
  lemma ScanInodeClaims(img: Image, i: nat, used: UsedTable)
    requires Scannable(img) && i < |img.inodes| && |used| == img.sb.size && Flags(used)
    requires ScanInode(img, i, used).Ok?
    ensures ScanInode(img, i, used).value == Mark(used, InodeMarks(img, i))
    ensures NoDup(InodeClaims(img, i)) && Fresh(img, used, InodeClaims(img, i))
  {
    var ino := img.inodes[i];
    if ino.size == 0 {
      MarkNil(used);
    } else {
      var (used1, tally) := ScanDirect(img, i, DirectSlots(ino), used, 0).value;
      ScanDirectClaims(img, i, DirectSlots(ino), used, 0);
      var ds := NonZero(DirectSlots(ino));
      var p := ino.addrs[NDIRECT];
      FlagsMark(used, ds);
      ScanIndirectBlockClaims(img, p, used1);
      var cs := IndirectClaims(img, p);
      MarkAppend(used, ds, PointerMark(img, p) + cs);
      assert ds + (PointerMark(img, p) + cs) == InodeMarks(img, i);
      FreshAfterMark(img, used, ds, cs);
      FreshAppend(img, used, ds, cs);
      NoDupAppend(ds, cs);
    }
  }

  /**
   * The inode loop from inode i: the final table is `used` with every flag
   * of inodes i .. set, and the blocks those inodes claim are pairwise
   * distinct and were all unclaimed, in range and marked.
   */
  lemma {:induction false} ScanFromClaims(img: Image, i: nat, used: UsedTable)
    requires Scannable(img) && i <= |img.inodes| && |used| == img.sb.size && Flags(used)
    requires ScanFrom(img, i, used).Ok?
    ensures ScanFrom(img, i, used).value == Mark(used, MarksFrom(img, i))
    ensures NoDup(ClaimsFrom(img, i)) && Fresh(img, used, ClaimsFrom(img, i))
    decreases |img.inodes| - i
  {
    if i == |img.inodes| {
      MarkNil(used);
    } else {
      var used1 := ScanInode(img, i, used).value;
      ScanInodeClaims(img, i, used);
      FlagsMark(used, InodeMarks(img, i));
      ScanFromClaims(img, i + 1, used1);
      var ms := InodeMarks(img, i);
      var cs := InodeClaims(img, i);
      var rest := ClaimsFrom(img, i + 1);
      MarkAppend(used, ms, MarksFrom(img, i + 1));
      FreshAfterMark(img, used, ms, rest);
      assert forall x :: x in cs ==> x in ms;
      FreshAppend(img, used, cs, rest);
      NoDupAppend(cs, rest);
    }
  }

  /**
   * A scan that gets through every inode leaves the metadata blocks and the
   * scanned blocks claimed and nothing else; no data block is claimed twice,
   * and each claimed one lies in [first_block, nblocks] and is marked in use.
   */
  lemma ScanAllClaims(img: Image)
    requires Scannable(img) && ScanAll(img).Ok?
    ensures ScanAll(img).value == Mark(InitialUsed(img), MarksFrom(img, 0))
    ensures NoDup(ClaimsFrom(img, 0))
    ensures forall b :: b in ClaimsFrom(img, 0) ==>
      First(img) <= b <= img.sb.nblocks && BitmapMarked(img, b)
  {
    ScanFromClaims(img, 0, InitialUsed(img));
  }

  /**
   * After a complete scan, the sweep of rule 6 passes exactly when every
   * data block below first_block + nblocks that the bitmap marks was set by
   * the scan; metadata blocks never trip it.
   */
  lemma SweepPasses(img: Image)
    requires Scannable(img) && ScanAll(img).Ok?
    ensures SweepViolation(img, ScanAll(img).value).None? <==>
      forall j :: First(img) <= j < First(img) + img.sb.nblocks && BitmapMarked(img, j)
        ==> j in MarksFrom(img, 0)
  {
    ScanFromClaims(img, 0, InitialUsed(img));
  }
}
