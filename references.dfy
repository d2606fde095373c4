/**
 * The reference pass (is_inode_in_dir with get_dir_entries) and the final
 * per-inode rules 9 to 12 that read its counts. The pass walks the blocks
 * of every directory and produces the trace of inode numbers it counts, in
 * order; the table referenced_inodes_arr is the multiplicity of each
 * number in that trace.
 */
module References {
  import opened Layout
  import opened Wrappers
  import opened DiskImage
  import opened Rules
  import opened Directories
  import opened BlockScan

  // ---------------------------------------------------------------------
  // What a complete block scan guarantees the reference pass

  /** An indirect pointer that is 0, or whose block reads back with in-range entries. */
  predicate IndirectSound(img: Image, p: uint32)
  {
    p == 0 ||
    match IndirectEntries(img, Xint(p))
    case None => false
    case Some(es) => forall k :: 0 <= k < |es| ==> es[k] <= img.sb.nblocks
  }

  /**
   * Inode i is free (size 0), or it has a positive size, an allocated type,
   * direct addresses within nblocks and a sound indirect pointer.
   */
  predicate InodeSound(img: Image, i: nat)
    requires i < |img.inodes|
  {
    var ino := img.inodes[i];
    ino.size == 0 ||
    (&& ino.size > 0 && AllocatedKind(ino.kind)
     && (forall k :: 0 <= k < NDIRECT ==> ino.addrs[k] <= img.sb.nblocks)
     && IndirectSound(img, ino.addrs[NDIRECT]))
  }

  predicate Sound(img: Image)
  {
    Geometry(img) && forall i :: 0 <= i < |img.inodes| ==> InodeSound(img, i)
  }

  lemma {:induction false} ScanDirectInRange(img: Image, i: nat, slots: seq<uint32>, used: UsedTable, tally: nat)
    requires Geometry(img) && i < |img.inodes| && img.inodes[i].size > 0 && |used| == img.sb.size
    requires forall m :: 0 <= m < |slots| ==> WindowMapped(img, img.inodes[i], slots[m])
    requires ScanDirect(img, i, slots, used, tally).Ok?
    ensures forall m :: 0 <= m < |slots| ==> slots[m] <= img.sb.nblocks
    decreases |slots|
  {
    if |slots| > 0 {
      var ino := img.inodes[i];
      var b := slots[0];
      if b == 0 {
        ScanDirectInRange(img, i, slots[1..], used, tally);
      } else {
        var used1 := ClaimDirect(img, used, b).value;
        var t := tally;
        if ino.kind == T_DIR {
          assert WindowMapped(img, ino, b);
          t := FormatEntries(img, i, b * BSIZE, ino.size / DIRENT_SIZE, tally).value;
        }
        ScanDirectInRange(img, i, slots[1..], used1, t);
      }
      assert forall m :: 1 <= m < |slots| ==> slots[m] == slots[1..][m - 1];
    }
  }

  lemma {:induction false} ScanIndirectInRange(img: Image, es: seq<uint32>, used: UsedTable)
    requires Geometry(img) && |used| == img.sb.size
    requires ScanIndirect(img, es, used).Ok?
    ensures forall k :: 0 <= k < |es| ==> es[k] <= img.sb.nblocks
    decreases |es|
  {
    if |es| > 0 {
      if es[0] == 0 {
        ScanIndirectInRange(img, es[1..], used);
      } else {
        ScanIndirectInRange(img, es[1..], ClaimIndirect(img, used, es[0]).value);
      }
      assert forall k :: 1 <= k < |es| ==> es[k] == es[1..][k - 1];
    }
  }

  /** An inode the scan gets past is sound. */
  lemma ScanInodeSound(img: Image, i: nat, used: UsedTable)
    requires Scannable(img) && i < |img.inodes| && |used| == img.sb.size
    requires ScanInode(img, i, used).Ok?
    ensures InodeSound(img, i)
  {
    var ino := img.inodes[i];
    if ino.size != 0 {
      var slots := DirectSlots(ino);
      var used1 := ScanDirect(img, i, slots, used, 0).value.0;
      ScanDirectInRange(img, i, slots, used, 0);
      assert forall k :: 0 <= k < NDIRECT ==> ino.addrs[k] == slots[k];
      var p := ino.addrs[NDIRECT];
      if p != 0 {
        var used2 := if 0 < p < img.sb.size then used1[p := 1] else used1;
        ScanIndirectInRange(img, IndirectEntries(img, Xint(p)).value, used2);
      }
    }
  }

  lemma {:induction false} ScanFromSound(img: Image, i: nat, used: UsedTable)
    requires Scannable(img) && i <= |img.inodes| && |used| == img.sb.size
    requires ScanFrom(img, i, used).Ok?
    ensures forall j :: i <= j < |img.inodes| ==> InodeSound(img, j)
    decreases |img.inodes| - i
  {
    if i < |img.inodes| {
      var step := ScanInode(img, i, used);
      assert step.Ok? && ScanFrom(img, i, used) == ScanFrom(img, i + 1, step.value);
      ScanInodeSound(img, i, used);
      ScanFromSound(img, i + 1, step.value);
    }
  }

  /**
   * A scan that gets through every inode leaves only free inodes and sound
   * ones: every block the reference pass later reads lies within nblocks.
   */
  lemma ScanAllSound(img: Image)
    requires Scannable(img) && ScanAll(img).Ok?
    ensures Sound(img)
  {
    ScanFromSound(img, 0, InitialUsed(img));
  }

  // ---------------------------------------------------------------------
  // get_dir_entries

  /** The value get_dir_entries stores for entry e: 0 for "." and "..", its inode number otherwise. */
  function SlotTarget(e: DirEntry): nat
  {
    if SelfOrParent(e) then 0 else e.inum
  }

  /** A block within nblocks lies wholly inside the image. */
  lemma BlockMapped(img: Image, b: nat)
    requires Geometry(img) && b <= img.sb.nblocks
    ensures (b + 1) * BSIZE <= |img.disk|
  {
  }

  /** The DIR_ENTRY_PER_BLOCK values get_dir_entries stores for block b. */
  function BlockSlots(img: Image, b: nat): (vs: seq<nat>)
    requires (b + 1) * BSIZE <= |img.disk|
    ensures |vs| == DPB
  {
    seq(DPB, k requires 0 <= k < DPB => SlotTarget(DirEntryAt(img, b * BSIZE + k * DIRENT_SIZE)))
  }

  /**
   * get_dir_entries skips exactly the "." and ".." entries: a slot is zero
   * when its entry is one of them or names inode 0, and otherwise holds the
   * entry's inode number.
   */
  lemma BlockSlotsSkipLinks(img: Image, b: nat, k: nat)
    requires (b + 1) * BSIZE <= |img.disk| && k < DPB
    ensures var e := DirEntryAt(img, b * BSIZE + k * DIRENT_SIZE);
      && (BlockSlots(img, b)[k] == 0 <==> SelfOrParent(e) || e.inum == 0)
      && (!SelfOrParent(e) ==> BlockSlots(img, b)[k] == e.inum)
  {
  }

  // ---------------------------------------------------------------------
  // is_inode_in_dir

  /** The nonzero slot values, in order: the numbers the pass counts for one block. */
  function Referenced(vs: seq<nat>): (r: seq<nat>)
    ensures 0 !in r && |r| <= |vs|
    decreases |vs|
  {
    if |vs| == 0 then []
    else (if vs[0] == 0 then [] else [vs[0]]) + Referenced(vs[1..])
  }

  /** Each nonzero number is counted exactly as often as it occurs among the slots. */
  lemma {:induction false} ReferencedCounts(vs: seq<nat>)
    ensures forall x :: x != 0 ==> multiset(Referenced(vs))[x] == multiset(vs)[x]
    decreases |vs|
  {
    if |vs| > 0 {
      ReferencedCounts(vs[1..]);
      assert vs == [vs[0]] + vs[1..];
    }
  }

  lemma {:induction false} ReferencedAppend(a: seq<nat>, c: seq<nat>)
    ensures Referenced(a + c) == Referenced(a) + Referenced(c)
    decreases |a|
  {
    if |a| == 0 {
      assert a + c == c;
    } else {
      assert (a + c)[0] == a[0];
      assert (a + c)[1..] == a[1..] + c;
      ReferencedAppend(a[1..], c);
    }
  }

  /** Extending the slots read by one extends the counted numbers by that slot, when nonzero. */
  lemma ReferencedSnoc(vs: seq<nat>, k: nat)
    requires k < |vs|
    ensures Referenced(vs[..k + 1]) == Referenced(vs[..k]) + (if vs[k] == 0 then [] else [vs[k]])
  {
    assert vs[..k + 1] == vs[..k] + [vs[k]];
    ReferencedAppend(vs[..k], [vs[k]]);
    assert [vs[k]][1..] == [];
  }

  /** Every nonzero slot is counted. */
  lemma ReferencedHas(vs: seq<nat>, k: nat)
    requires k < |vs| && vs[k] != 0
    ensures vs[k] in Referenced(vs)
  {
    ReferencedCounts(vs);
    assert vs[k] in multiset(vs);
  }

  /** A bound on every counted number bounds every nonzero slot. */
  lemma ReferencedBound(vs: seq<nat>, n: nat)
    requires forall x :: x in Referenced(vs) ==> x < n
    ensures forall m :: 0 <= m < |vs| && vs[m] != 0 ==> vs[m] < n
  {
    forall m | 0 <= m < |vs| && vs[m] != 0
      ensures vs[m] < n
    {
      ReferencedHas(vs, m);
    }
  }

  /**
   * The loop over one directory's blocks (its direct slots, or the entries
   * of its indirect block) with the entry budget `budget`: a block is read
   * only when its address is nonzero and the budget is still positive, and
   * each number counted takes one off the budget. Returns the numbers
   * counted and the budget left.
   */
  function DirBlocks(img: Image, blocks: seq<uint32>, budget: int): (r: (seq<nat>, int))
    requires Geometry(img)
    requires budget > 0 ==> forall m :: 0 <= m < |blocks| ==> blocks[m] <= img.sb.nblocks
    ensures r.1 == budget - |r.0|
    ensures budget <= 0 ==> r.0 == []
    decreases |blocks|
  {
    if |blocks| == 0 then ([], budget)
    else if blocks[0] == 0 || budget <= 0 then DirBlocks(img, blocks[1..], budget)
    else
      BlockMapped(img, blocks[0]);
      var t := Referenced(BlockSlots(img, blocks[0]));
      var rest := DirBlocks(img, blocks[1..], budget - |t|);
      (t + rest.0, rest.1)
  }

  /** One step of the walk past a block that is not read: address 0, or no budget left. */
  lemma DirBlocksSkip(img: Image, blocks: seq<uint32>, budget: int)
    requires Geometry(img) && |blocks| > 0 && (blocks[0] == 0 || budget <= 0)
    requires budget > 0 ==> forall m :: 0 <= m < |blocks| ==> blocks[m] <= img.sb.nblocks
    ensures budget > 0 ==> forall m :: 0 <= m < |blocks[1..]| ==> blocks[1..][m] <= img.sb.nblocks
    ensures DirBlocks(img, blocks, budget) == DirBlocks(img, blocks[1..], budget)
  {
  }

  /** One step of the walk past a block that is read: its numbers, then the rest's. */
  lemma DirBlocksCounted(img: Image, blocks: seq<uint32>, budget: int)
    requires Geometry(img) && |blocks| > 0 && blocks[0] != 0 && budget > 0
    requires forall m :: 0 <= m < |blocks| ==> blocks[m] <= img.sb.nblocks
    ensures forall m :: 0 <= m < |blocks[1..]| ==> blocks[1..][m] <= img.sb.nblocks
    ensures (
      BlockMapped(img, blocks[0]);
      var t := Referenced(BlockSlots(img, blocks[0]));
      var rest := DirBlocks(img, blocks[1..], budget - |t|);
      && DirBlocks(img, blocks, budget) == (t + rest.0, rest.1)
      && (forall x :: x in t ==> x in DirBlocks(img, blocks, budget).0)
      && (forall x :: x in rest.0 ==> x in DirBlocks(img, blocks, budget).0))
  {
    BlockMapped(img, blocks[0]);
  }

  /** Everything the blocks in `blocks` would contribute with an unlimited budget. */
  function AllRefs(img: Image, blocks: seq<uint32>): seq<nat>
    requires Geometry(img)
    requires forall m :: 0 <= m < |blocks| ==> blocks[m] <= img.sb.nblocks
    decreases |blocks|
  {
    if |blocks| == 0 then []
    else if blocks[0] == 0 then AllRefs(img, blocks[1..])
    else
      BlockMapped(img, blocks[0]);
      Referenced(BlockSlots(img, blocks[0])) + AllRefs(img, blocks[1..])
  }

  /**
   * The budget only cuts the walk short: what is counted is a prefix of
   * what the blocks hold, and it falls short of all of it only when the
   * budget has run out.
   */
  lemma {:induction false} DirBlocksBudget(img: Image, blocks: seq<uint32>, budget: int)
    requires Geometry(img)
    requires forall m :: 0 <= m < |blocks| ==> blocks[m] <= img.sb.nblocks
    ensures var r := DirBlocks(img, blocks, budget);
      && r.0 <= AllRefs(img, blocks)
      && (r.0 != AllRefs(img, blocks) ==> r.1 <= 0)
    decreases |blocks|, 1
  {
    if |blocks| > 0 && budget > 0 {
      if blocks[0] == 0 {
        DirBlocksSkip(img, blocks, budget);
        assert AllRefs(img, blocks) == AllRefs(img, blocks[1..]);
        DirBlocksBudget(img, blocks[1..], budget);
      } else {
        DirBlocksBudgetCounted(img, blocks, budget);
      }
    }
  }

  /** DirBlocksBudget when the first block is counted. */
  lemma {:induction false} DirBlocksBudgetCounted(img: Image, blocks: seq<uint32>, budget: int)
    requires Geometry(img) && |blocks| > 0 && blocks[0] != 0 && budget > 0
    requires forall m :: 0 <= m < |blocks| ==> blocks[m] <= img.sb.nblocks
    ensures var r := DirBlocks(img, blocks, budget);
      && r.0 <= AllRefs(img, blocks)
      && (r.0 != AllRefs(img, blocks) ==> r.1 <= 0)
    decreases |blocks|, 0
  {
    DirBlocksCounted(img, blocks, budget);
    BlockMapped(img, blocks[0]);
    var t := Referenced(BlockSlots(img, blocks[0]));
    var counted := DirBlocks(img, blocks[1..], budget - |t|);
    var all := AllRefs(img, blocks[1..]);
    assert AllRefs(img, blocks) == t + all;
    DirBlocksBudget(img, blocks[1..], budget - |t|);
    PrefixAppend(t, counted.0, all, counted.1);
  }

  /** A common head keeps one sequence a prefix of another, and a proper one proper. */
  lemma PrefixAppend(t: seq<nat>, a: seq<nat>, b: seq<nat>, left: int)
    requires a <= b && (a != b ==> left <= 0)
    ensures t + a <= t + b && (t + a != t + b ==> left <= 0)
  {
    assert b == a + b[|a|..];
    assert t + b == (t + a) + b[|a|..];
  }

  /** The result of the pass: the numbers counted, and whether an rsect came up short. */
  datatype RefScan = RefScan(trace: seq<nat>, readFailed: bool)

  /**
   * The indirect half of one directory: a nonzero pointer is always read
   * with rsect, even when the budget is spent; a short read ends the run,
   * otherwise the entries are walked with the budget left.
   */
  function IndirectRefs(img: Image, p: uint32, budget: int): (r: RefScan)
    requires Geometry(img) && (budget > 0 ==> IndirectSound(img, p))
    ensures r.readFailed <==> p != 0 && IndirectEntries(img, p).None?
    ensures budget <= 0 ==> r.trace == []
  {
    if p == 0 then RefScan([], false)
    else
      match IndirectEntries(img, Xint(p))
      case None => RefScan([], true)
      case Some(es) => RefScan(DirBlocks(img, es, budget).0, false)
  }

  /**
   * One iteration of is_inode_in_dir's outer loop. Only directories are
   * walked; the budget is size / sizeof(struct dirent), spent first on the
   * direct blocks and then on the indirect ones.
   */
  function DirRefs(img: Image, i: nat): (r: RefScan)
    requires Sound(img) && i < |img.inodes|
    ensures img.inodes[i].kind != T_DIR ==> r == RefScan([], false)
    ensures r.readFailed ==> img.inodes[i].kind == T_DIR && img.inodes[i].size == 0
  {
    var ino := img.inodes[i];
    if ino.kind != T_DIR then RefScan([], false)
    else
      assert InodeSound(img, i);
      var direct := DirBlocks(img, DirectSlots(ino), ino.size / DIRENT_SIZE);
      var indirect := IndirectRefs(img, ino.addrs[NDIRECT], direct.1);
      RefScan(direct.0 + indirect.trace, indirect.readFailed)
  }

  /** The outer loop from inode i on; a short read stops it. */
  function RefsFrom(img: Image, i: nat): (r: RefScan)
    requires Sound(img) && i <= |img.inodes|
    decreases |img.inodes| - i
  {
    if i == |img.inodes| then RefScan([], false)
    else
      var d := DirRefs(img, i);
      if d.readFailed then d
      else
        var rest := RefsFrom(img, i + 1);
        RefScan(d.trace + rest.trace, rest.readFailed)
  }

  /** A directory's part of the trace: its direct blocks', then its indirect block's. */
  lemma DirRefsSplit(img: Image, i: nat)
    requires Sound(img) && i < |img.inodes| && img.inodes[i].kind == T_DIR
    ensures InodeSound(img, i)
    ensures var ino := img.inodes[i];
      var direct := DirBlocks(img, DirectSlots(ino), ino.size / DIRENT_SIZE);
      var indirect := IndirectRefs(img, ino.addrs[NDIRECT], direct.1);
      && (direct.1 > 0 ==> IndirectSound(img, ino.addrs[NDIRECT]))
      && DirRefs(img, i).trace == direct.0 + indirect.trace
      && DirRefs(img, i).readFailed == indirect.readFailed
      && (forall x :: x in direct.0 ==> x in DirRefs(img, i).trace)
      && (forall x :: x in indirect.trace ==> x in DirRefs(img, i).trace)
  {
    assert InodeSound(img, i);
  }

  lemma AppendAssoc(a: seq<nat>, b: seq<nat>, c: seq<nat>)
    ensures a + b + c == a + (b + c)
  {
  }

  /** Inode i's part of the trace comes first in the pass from i on. */
  lemma RefsFromHead(img: Image, i: nat)
    requires Sound(img) && i < |img.inodes|
    ensures DirRefs(img, i).trace <= RefsFrom(img, i).trace
    ensures !DirRefs(img, i).readFailed ==>
      RefsFrom(img, i).trace == DirRefs(img, i).trace + RefsFrom(img, i + 1).trace
      && RefsFrom(img, i).readFailed == RefsFrom(img, i + 1).readFailed
    ensures DirRefs(img, i).readFailed ==> RefsFrom(img, i) == DirRefs(img, i)
  {
  }

  /**
   * One step of the pass, seen from the whole pass: with `done` counted
   * before inode i, inode i's part is in the whole trace, and either the
   * pass stops at i or it goes on from i + 1 with i's part counted.
   */
  lemma RefsFromStep(img: Image, i: nat, done: seq<nat>)
    requires Sound(img) && i < |img.inodes|
    requires RefPass(img).trace == done + RefsFrom(img, i).trace
    requires RefPass(img).readFailed == RefsFrom(img, i).readFailed
    ensures forall x :: x in DirRefs(img, i).trace ==> x in RefPass(img).trace
    ensures DirRefs(img, i).readFailed ==>
      RefPass(img).readFailed && RefPass(img).trace == done + DirRefs(img, i).trace
    ensures !DirRefs(img, i).readFailed ==>
      && RefPass(img).trace == (done + DirRefs(img, i).trace) + RefsFrom(img, i + 1).trace
      && RefPass(img).readFailed == RefsFrom(img, i + 1).readFailed
  {
    RefsFromHead(img, i);
    PrefixIn(DirRefs(img, i).trace, RefsFrom(img, i).trace);
    if !DirRefs(img, i).readFailed {
      AppendAssoc(done, DirRefs(img, i).trace, RefsFrom(img, i + 1).trace);
    }
  }

  /** A prefix holds nothing its sequence does not. */
  lemma PrefixIn(a: seq<nat>, b: seq<nat>)
    requires a <= b
    ensures forall x :: x in a ==> x in b
  {
    assert b == a + b[|a|..];
  }

  /** The whole pass. */
  function RefPass(img: Image): RefScan
    requires Sound(img)
  {
    RefsFrom(img, 0)
  }

  /**
   * A nonzero indirect pointer of a directory is read, whatever its
   * budget: the pass can fail on a directory of size 0.
   */
  lemma RefsReadFailure(img: Image, i: nat)
    requires Sound(img) && i < |img.inodes|
    ensures DirRefs(img, i).readFailed <==>
      img.inodes[i].kind == T_DIR && img.inodes[i].addrs[NDIRECT] != 0
      && IndirectEntries(img, img.inodes[i].addrs[NDIRECT]).None?
  {
  }

  /** The pass fails exactly when some directory's indirect block cannot be read. */
  lemma {:induction false} RefsFromFails(img: Image, i: nat)
    requires Sound(img) && i <= |img.inodes|
    ensures RefsFrom(img, i).readFailed <==> exists j :: i <= j < |img.inodes| && DirRefs(img, j).readFailed
    decreases |img.inodes| - i
  {
    if RefsFrom(img, i).readFailed {
      var j := RefsFromFailedAt(img, i);
    }
    if exists j :: i <= j < |img.inodes| && DirRefs(img, j).readFailed {
      var j :| i <= j < |img.inodes| && DirRefs(img, j).readFailed;
      RefsFromStopsAt(img, i, j);
    }
  }

  /** A pass that fails fails on some directory from i on. */
  lemma {:induction false} RefsFromFailedAt(img: Image, i: nat) returns (j: nat)
    requires Sound(img) && i <= |img.inodes| && RefsFrom(img, i).readFailed
    ensures i <= j < |img.inodes| && DirRefs(img, j).readFailed
    decreases |img.inodes| - i
  {
    RefsFromHead(img, i);
    if DirRefs(img, i).readFailed {
      j := i;
    } else {
      j := RefsFromFailedAt(img, i + 1);
    }
  }

  /** A directory from i on whose indirect block cannot be read fails the pass. */
  lemma {:induction false} RefsFromStopsAt(img: Image, i: nat, j: nat)
    requires Sound(img) && i <= j < |img.inodes| && DirRefs(img, j).readFailed
    ensures RefsFrom(img, i).readFailed
    decreases j - i
  {
    RefsFromHead(img, i);
    if i < j && !DirRefs(img, i).readFailed {
      RefsFromStopsAt(img, i + 1, j);
    }
  }

  // ---------------------------------------------------------------------
  // referenced_inodes_arr

  /**
   * The table of n counters after the increments in `trace`, made in
   * order; a number outside the table is not counted (the pass never
   * produces one for an image it can check).
   */
  function Counts(trace: seq<nat>, n: nat): (c: seq<nat>)
    ensures |c| == n
    decreases |trace|
  {
    if |trace| == 0 then seq(n, _ => 0)
    else
      var c := Counts(trace[..|trace| - 1], n);
      var v := trace[|trace| - 1];
      if v < n then c[v := c[v] + 1] else c
  }

  /** Each counter ends up holding how often its number occurs in the trace. */
  lemma {:induction false} CountsMultiplicity(trace: seq<nat>, n: nat)
    ensures forall x :: 0 <= x < n ==> Counts(trace, n)[x] == multiset(trace)[x]
    decreases |trace|
  {
    if |trace| > 0 {
      var init := trace[..|trace| - 1];
      CountsMultiplicity(init, n);
      assert trace == init + [trace[|trace| - 1]];
    }
  }

  /**
   * One more slot of a block: a nonzero slot adds 1 to its counter and 1 to
   * the numbers counted, a zero slot changes neither.
   */
  lemma CountsSlot(done: seq<nat>, vs: seq<nat>, k: nat, n: nat)
    requires k < |vs| && (vs[k] != 0 ==> vs[k] < n)
    ensures var before := Counts(done + Referenced(vs[..k]), n);
      var after := Counts(done + Referenced(vs[..k + 1]), n);
      && |Referenced(vs[..k + 1])| == |Referenced(vs[..k])| + (if vs[k] == 0 then 0 else 1)
      && (vs[k] == 0 ==> after == before)
      && (vs[k] != 0 ==> vs[k] < n && after == before[vs[k] := before[vs[k]] + 1])
  {
    ReferencedSnoc(vs, k);
    if vs[k] != 0 {
      CountsSlotCounted(done, vs, k, n);
    } else {
      assert done + Referenced(vs[..k + 1]) == done + Referenced(vs[..k]);
    }
  }

  /** CountsSlot for a nonzero slot. */
  lemma CountsSlotCounted(done: seq<nat>, vs: seq<nat>, k: nat, n: nat)
    requires k < |vs| && 0 != vs[k] < n
    ensures var before := Counts(done + Referenced(vs[..k]), n);
      Counts(done + Referenced(vs[..k + 1]), n) == before[vs[k] := before[vs[k]] + 1]
  {
    ReferencedSnoc(vs, k);
    var prior := done + Referenced(vs[..k]);
    assert done + Referenced(vs[..k + 1]) == prior + [vs[k]];
    CountsStep(prior, n, vs[k]);
  }

  /** Counting one more number adds exactly 1 to its counter and changes no other. */
  lemma CountsStep(trace: seq<nat>, n: nat, v: nat)
    requires v < n
    ensures Counts(trace + [v], n) == Counts(trace, n)[v := Counts(trace, n)[v] + 1]
  {
    assert (trace + [v])[..|trace|] == trace;
  }

  /** Counters never decrease as the pass goes on. */
  lemma CountsGrow(trace: seq<nat>, more: seq<nat>, n: nat)
    ensures forall x :: 0 <= x < n ==> Counts(trace, n)[x] <= Counts(trace + more, n)[x]
  {
    CountsMultiplicity(trace, n);
    CountsMultiplicity(trace + more, n);
    assert multiset(trace + more) == multiset(trace) + multiset(more);
  }

  // ---------------------------------------------------------------------
  // Final rules (main, after is_inode_in_dir)

  /**
   * Rules 10, 9, 11 and 12 for one inode with `ref` references, in the C
   * code's order: a free inode (type 0) is checked against rule 10 only.
   */
  function InodeRefViolation(ino: Inode, ref: int): (r: Option<Violation>)
    ensures r.None? <==>
      if ino.kind == 0 then ref == 0
      else ref != 0 && (ino.kind == T_FILE ==> ref == ino.nlink) && (ino.kind == T_DIR ==> ref <= 1)
    ensures r == Some(FreeButReferenced) <==> ino.kind == 0 && ref != 0
    ensures r == Some(InUseNotInDirectory) <==> ino.kind != 0 && ref == 0
    ensures r == Some(BadFileRefCount) <==> ino.kind == T_FILE && ref != 0 && ref != ino.nlink
    ensures r == Some(DirectoryLinkedTwice) <==> ino.kind == T_DIR && ref > 1
  {
    if ino.kind == 0 then CheckRule10(ref)
    else
      match CheckRule9(ref)
      case Some(v) => Some(v)
      case None =>
        match CheckRule11(ino.kind, ref, ino.nlink)
        case Some(v) => Some(v)
        case None => CheckRule12(ino.kind, ref)
  }

  /** The final loop from inode i on, over the counter table `refs`. */
  function FinalFrom(img: Image, refs: seq<int>, i: nat): Option<Violation>
    requires |refs| == |img.inodes| && i <= |img.inodes|
    decreases |img.inodes| - i
  {
    if i == |img.inodes| then None
    else
      match InodeRefViolation(img.inodes[i], refs[i])
      case Some(v) => Some(v)
      case None => FinalFrom(img, refs, i + 1)
  }

  /**
   * The final loop reports the violation of the lowest failing inode at
   * or after i, and passes exactly when no such inode fails.
   */
  lemma {:induction false} FinalFromFirst(img: Image, refs: seq<int>, i: nat)
    requires |refs| == |img.inodes| && i <= |img.inodes|
    ensures FinalFrom(img, refs, i).None? <==>
      forall j :: i <= j < |img.inodes| ==> InodeRefViolation(img.inodes[j], refs[j]).None?
    ensures FinalFrom(img, refs, i).Some? ==>
      exists j :: i <= j < |img.inodes|
        && FinalFrom(img, refs, i) == InodeRefViolation(img.inodes[j], refs[j])
        && forall k :: i <= k < j ==> InodeRefViolation(img.inodes[k], refs[k]).None?
    decreases |img.inodes| - i
  {
    if i < |img.inodes| {
      FinalFromFirst(img, refs, i + 1);
    }
  }
}
