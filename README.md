# fcheck: a verified model of an xv6 file-system image checker

`fcheck` reads an xv6 file-system image and stops at the first
inconsistency it finds. It prints one `ERROR:` line for that inconsistency
and exits with 1; a consistent image exits with 0. This project models its
validation engine and proves properties of it. It does not model argument
handling or the mapping of the file.

- **Image** (`image.dfy`, module `DiskImage`). An `Image` holds three parts:
  - the superblock fields (`size`, `nblocks`, `ninodes`);
  - the inode table as decoded `dinode` values;
  - the whole image as bytes, the read-only mapping.

  Directory entries, bitmap bits and indirect blocks are read from those
  bytes at the offsets `fcheck` computes. A formatting loop that runs past
  its block therefore reads the bytes that follow it. `rsect` becomes
  `IndirectEntries`, which returns `None` when the sector lies past the end
  of the image. `xint` becomes a little-endian pack followed by a native
  read, which is the identity.
- **Rules** (`rules.dfy`). There is one function per `check_rule_*`
  routine. Each returns `None` or the `Violation` whose message the C code
  prints.
- **Root check and formatting loop** (`directories.dfy`). These are the
  rule 3 loop at the top of `main` and the rule 4 loop over a directory's
  direct blocks. Both are proved equal to closed forms over the directory's
  "." / ".." entries.
- **Block scan and bitmap sweep** (`scan.dfy`, `claims.dfy`,
  `dirformat.dfy`, `acceptance.dfy`).
  - The inode loop of `main` is a function over the used-blocks table
    (`used_blocks_arr`).
  - `check_rule_6` is a predicate over that table.
  - Lemmas prove what a complete scan leaves behind. Exactly the metadata
    blocks and the scanned blocks are flagged. No data block is claimed
    twice. Every claimed block is in range and marked in the bitmap. Every
    directory of positive size has at least two "." / ".." entries among
    its in-range direct blocks, and any "." among the first two names the
    directory itself.
  - Conversely, the indirect step succeeds exactly when its block can be
    read and its entries are distinct, in range, marked and unclaimed. The
    pointer itself plays no part beyond that. One inode's step, the inode
    loop and the whole scan each succeed exactly when every inode is
    accepted: it is free, or it has a valid size and type, its direct
    blocks are distinct, in range, marked and unclaimed, a directory's
    links bring rule 4's tally to 2, and its indirect step is accepted on
    the table the inodes before it leave.
- **Reference pass** (`references.dfy`). `get_dir_entries` and
  `is_inode_in_dir` are modelled as follows:
  - The pass produces the trace of inode numbers it counts.
  - `referenced_inodes_arr` is the multiplicity of each number in that
    trace.
  - The final rules 9 to 12 are checked against those counts.
- **The whole run** (`fsck.dfy`). `Check` composes the stages in `main`'s
  order. `CheckPasses` characterises exactly when an image passes, and
  `CheckConsequences` lists what a passing image is then known to satisfy.
- **The C code's own shape** (`checker.dfy`). The loops of `main`,
  `get_dir_entries`, `is_inode_in_dir` and `check_rule_6` are methods that
  update arrays in place: `used_blocks_arr`, `num_inodes` and
  `referenced_inodes_arr`. Each method is proved to compute what the
  functions above specify, and `Run` is proved to return `Check`'s verdict.

Constants come from xv6's `types.h` and `fs.h`, which are not part of this
model. The model assumes xv6's values: `BSIZE` 512, `NDIRECT` 12,
`NINDIRECT` 128, `IPB` 8, `BPB` 4096, `ROOTINO` 1, `DIRSIZ` 14,
`IBLOCK(i) = i / IPB + 2` and `BBLOCK(b, n) = b / BPB + n / IPB + 3`. The
inode's `size` field is taken as a signed 32-bit `int`, so rule 1's
`size < 0` test can fail.

Behaviours of the code worth knowing, all modelled as written:
- A direct address equal to `nblocks` is accepted. Only `address > nblocks`
  is rejected (`fcheck.c:222-230`).
- The indirect pointer `addrs[NDIRECT]` is never range-, bitmap- or
  reuse-checked. It is flagged only when `0 < p < size`
  (`fcheck.c:604-615`). An indirect entry equal to the pointer is then
  reported as reused when it also passes the range and bitmap checks.
- `check_rule_2_indirect` takes an `int` (`fcheck.c:237-245`). An indirect
  entry at or above 2^31 is therefore negative and rejected, even when
  `nblocks` is larger.
- The tested bitmap byte for block `b` is byte `b / 8` of block
  `BBLOCK(b, ninodes)` (`fcheck.c:323`, `342-344`), with no reduction of
  `b` modulo `BPB`.
- The formatting check counts ".." entries without looking at their inode
  number (`fcheck.c:591-594`). A directory whose first two "." / ".."
  entries are both ".." therefore passes rule 4, with no "." entry at all.
- The final rules treat an inode as free when its `type` is 0
  (`fcheck.c:669`), and start from inode 2 (`fcheck.c:667`). The root
  (inode 1) is never checked against rules 9 to 12.

## Model

| member | source | states |
|---|---|---|
| Layout.FirstDataBlock | Operating_Systems_File_System_Checking/fcheck.c:520-533 | `first_block` lies above the boot block and the superblock, above every inode block, and above every bitmap block of a block below `size`, so everything below it is metadata |
| DiskImage.Xint | Operating_Systems_File_System_Checking/fcheck.c:37-46 | packing a word into four bytes, least significant first, and reading it back natively gives the word back |
| DiskImage.Le32OfPack32 | Operating_Systems_File_System_Checking/fcheck.c:37-46 | reading the four packed bytes of x as a little-endian word gives x |
| DiskImage.Pack32OfLe32 | Operating_Systems_File_System_Checking/fcheck.c:37-46 | the other round trip: packing a word read from four bytes gives those bytes |
| DiskImage.IndirectEntries | Operating_Systems_File_System_Checking/fcheck.c:56-69 | the sector read succeeds exactly when the whole 512-byte sector lies inside the image, and then yields NINDIRECT words |
| DiskImage.IndirectEntriesEncode | Operating_Systems_File_System_Checking/fcheck.c:56-69 | each word read from an indirect block re-encodes to the four bytes it was read from |
| Rules.CheckRule1 | Operating_Systems_File_System_Checking/fcheck.c:207-215 | passes exactly when the size is non-negative and the type is T_DIR, T_FILE or T_DEV; otherwise "bad inode" |
| Rules.CheckRule2Direct | Operating_Systems_File_System_Checking/fcheck.c:222-230 | passes exactly when the address is at most nblocks, so nblocks itself is accepted |
| Rules.CheckRule2Indirect | Operating_Systems_File_System_Checking/fcheck.c:237-245 | passes exactly when the entry, read as a C int, is non-negative and at most nblocks |
| Rules.CheckRule3ForSize | Operating_Systems_File_System_Checking/fcheck.c:252-260 | passes exactly when the root's size is positive |
| Rules.CheckRule3ForRootInode | Operating_Systems_File_System_Checking/fcheck.c:267-275 | passes exactly when the entry names ROOTINO |
| Rules.CheckRule4ForPresentDirLink | Operating_Systems_File_System_Checking/fcheck.c:282-298 | a "." entry naming the directory itself adds one to the tally; any other inode number is "directory not properly formatted" |
| Rules.CheckRule4ForDirTypeAndFormat | Operating_Systems_File_System_Checking/fcheck.c:305-313 | passes exactly when the inode is not a directory or its tally is 2 |
| Rules.CheckRule5 | Operating_Systems_File_System_Checking/fcheck.c:320-328 | passes exactly when bit b % 8 of the bitmap byte for b is set |
| Rules.CheckRule7 | Operating_Systems_File_System_Checking/fcheck.c:360-367 | passes exactly when the block's flag is not 1 |
| Rules.CheckRule8 | Operating_Systems_File_System_Checking/fcheck.c:374-382 | passes exactly when the block's flag is 0 |
| Rules.CheckRule9 | Operating_Systems_File_System_Checking/fcheck.c:389-397 | passes exactly when the count is nonzero |
| Rules.CheckRule10 | Operating_Systems_File_System_Checking/fcheck.c:404-413 | passes exactly when the count is zero |
| Rules.CheckRule11 | Operating_Systems_File_System_Checking/fcheck.c:420-429 | passes exactly when the inode is not a file or its count equals nlink |
| Rules.CheckRule12 | Operating_Systems_File_System_Checking/fcheck.c:436-445 | passes exactly when the inode is not a directory or its count is at most 1 |
| Directories.RootLoopClosedForm | Operating_Systems_File_System_Checking/fcheck.c:504-515 | the root loop fails exactly when one of the next 2 - tally "." / ".." entries names an inode other than ROOTINO; every other entry is ignored |
| Directories.RootCheckPasses | Operating_Systems_File_System_Checking/fcheck.c:497-515 | the root check passes exactly when the root's size is positive and the first two "." / ".." entries among its first size / 16 entries (as many as exist) name ROOTINO; it can only fail with "root directory does not exist" |
| Directories.FormatEntries | Operating_Systems_File_System_Checking/fcheck.c:578-596 | the formatting loop over one block fails only with "directory not properly formatted" |
| Directories.FormatEntriesClosedForm | Operating_Systems_File_System_Checking/fcheck.c:582-596 | the loop fails exactly when a "." among the next 2 - tally "." / ".." entries names another inode; otherwise the tally becomes the number of such entries seen, capped at 2 |
| Directories.FormatEntriesTally | Operating_Systems_File_System_Checking/fcheck.c:582-596 | the loop over one block is rule 4's count run over that block's "." / ".." entries alone; ".." entries are counted without a check |
| BlockScan.ClaimDirect | Operating_Systems_File_System_Checking/fcheck.c:558-573 | a nonzero direct address is checked for range, then bitmap, then reuse, with each failure reported as its own violation; only when all three pass is its flag set, and no other flag changes |
| BlockScan.ClaimIndirect | Operating_Systems_File_System_Checking/fcheck.c:627-648 | an indirect entry gets the same range and bitmap checks against the same table; a reuse is reported as "indirect address used more than once"; only its own flag is set |
| BlockScan.ScanDirect | Operating_Systems_File_System_Checking/fcheck.c:550-598 | the direct-slot loop keeps the table's length and can fail only with a range, bitmap, direct-reuse or formatting violation |
| BlockScan.ScanIndirect | Operating_Systems_File_System_Checking/fcheck.c:624-649 | the loop over an indirect block's entries keeps the table's length and can fail only with an indirect-range, bitmap or indirect-reuse violation |
| BlockScan.ScanIndirectBlock | Operating_Systems_File_System_Checking/fcheck.c:604-621 | the indirect pointer itself is never checked; the step fails only on a short sector read or on one of its entries |
| ScanClaims.ScanIndirectBlockAccepts | Operating_Systems_File_System_Checking/fcheck.c:604-649 | the indirect step succeeds exactly when IndirectAccepted holds: the pointer is 0, or its block can be read and the block's nonzero entries are pairwise distinct, below 2^31, in range, marked and unclaimed once the pointer's own flag is set; the pointer enters only through p == 0, its block and its flag, so it is never range-, bitmap- or reuse-checked |
| BlockScan.ScanInode | Operating_Systems_File_System_Checking/fcheck.c:536-606 | an inode of size 0 leaves the table unchanged; any other inode fails with "bad inode" exactly when its size is negative or its type is not T_DIR, T_FILE or T_DEV |
| BlockScan.ScanFrom | Operating_Systems_File_System_Checking/fcheck.c:536-650 | the inode loop keeps one flag per block below size |
| BlockScan.ScanAll | Operating_Systems_File_System_Checking/fcheck.c:517-650 | the scan from the initial table keeps one flag per block below size |
| ScanClaims.ScanIndirectClaims | Operating_Systems_File_System_Checking/fcheck.c:624-649 | a successful walk of an indirect block sets exactly its nonzero entries; these are pairwise distinct, below 2^31, in range, marked in the bitmap and unclaimed before |
| ScanClaims.ScanIndirectAccepts | Operating_Systems_File_System_Checking/fcheck.c:624-649 | the converse: when the nonzero entries are pairwise distinct, below 2^31, in range, marked and unclaimed, the walk gets through every entry |
| ScanClaims.ScanDirectClaims | Operating_Systems_File_System_Checking/fcheck.c:550-573 | a successful direct-slot loop sets exactly the nonzero slots; these are pairwise distinct, in range, marked and unclaimed before |
| ScanClaims.ScanIndirectBlockClaims | Operating_Systems_File_System_Checking/fcheck.c:604-649 | the indirect step sets the pointer's own flag (when 0 < p < size) and its entries' flags, and no others |
| ScanClaims.ScanInodeClaims | Operating_Systems_File_System_Checking/fcheck.c:536-650 | one inode's step sets exactly its flags; the blocks it claims are distinct and were free |
| ScanClaims.ScanFromClaims | Operating_Systems_File_System_Checking/fcheck.c:536-650 | the inode loop from inode i sets exactly the flags of inodes i onwards; all blocks those inodes claim are pairwise distinct and were unclaimed, in range and marked |
| ScanClaims.ScanAllClaims | Operating_Systems_File_System_Checking/fcheck.c:517-650 | after a complete scan the table is the initial one with exactly the scanned flags set; no data block is claimed twice; every claimed block lies in [first_block, nblocks] and is marked in the bitmap |
| ScanClaims.SweepPasses | Operating_Systems_File_System_Checking/fcheck.c:335-353 | after a complete scan, rule 6 passes exactly when every data block below first_block + nblocks that the bitmap marks was set by the scan; metadata blocks never trip it |
| DirFormat.LinkTallyAppend | Operating_Systems_File_System_Checking/fcheck.c:547-598 | the tally carried across a directory's blocks: counting over a + c is counting over a, then over c from where a left off |
| DirFormat.FormatBlocksTally | Operating_Systems_File_System_Checking/fcheck.c:547-598 | across all of a directory's direct blocks, the formatting loop is one rule 4 count over all its "." / ".." entries |
| DirFormat.LinkTallyReachesTwo | Operating_Systems_File_System_Checking/fcheck.c:600-601 | starting from 0, the tally ends at 2 exactly when there are at least two links and neither of the first two is a "." naming another inode |
| DirFormat.LinkTallyFull | Operating_Systems_File_System_Checking/fcheck.c:584 | once the tally reaches 2, later entries are neither checked nor counted |
| DirFormat.ScanDirectFormats | Operating_Systems_File_System_Checking/fcheck.c:550-598 | when the direct-slot loop gets through a directory, its tally is what the formatting loop alone computes over the directory's in-range blocks |
| DirFormat.DirectoryFormatted | Operating_Systems_File_System_Checking/fcheck.c:547-601 | a directory that gets through its scan step has at least two "." / ".." entries, and each of the first two that is a "." names the directory itself |
| ScanAccepts.ScanDirectAccepts | Operating_Systems_File_System_Checking/fcheck.c:550-598 | the converse of ScanDirectClaims: when the nonzero slots are pairwise distinct, in range, marked and unclaimed, and for a directory the formatting loop alone gets through its in-range blocks, the direct-slot loop gets through |
| ScanAccepts.ScanInodeAccepts | Operating_Systems_File_System_Checking/fcheck.c:536-650 | one inode's step succeeds exactly when it is free (size 0), or has a positive size and an allocated type, its nonzero direct slots are pairwise distinct, in range, marked and unclaimed, a directory's "." / ".." links bring rule 4's tally to 2, and the indirect step is accepted with the direct slots flagged |
| ScanAccepts.ScanFromAccepts | Operating_Systems_File_System_Checking/fcheck.c:536-650 | the inode loop from inode i succeeds exactly when each inode from i on is accepted on the table the inodes before it leave |
| ScanAccepts.AcceptedFromEach | Operating_Systems_File_System_Checking/fcheck.c:536-650 | the same condition in closed form: every inode j from i on is accepted on the starting table with exactly the flags of inodes i .. j - 1 set |
| ScanAccepts.ScanAllAccepts | Operating_Systems_File_System_Checking/fcheck.c:517-650 | the whole scan succeeds exactly when every inode is accepted on the initial table with exactly the flags of the inodes before it set |
| References.ScanInodeSound | Operating_Systems_File_System_Checking/fcheck.c:536-650 | an inode the scan gets past is free (size 0), or has a positive size, a valid type, direct addresses within nblocks and a readable indirect block with entries within nblocks |
| References.ScanFromSound | Operating_Systems_File_System_Checking/fcheck.c:536-650 | every inode that the loop from inode i gets past is sound |
| References.ScanAllSound | Operating_Systems_File_System_Checking/fcheck.c:536-650 | after a complete scan, every block the reference pass reads lies within nblocks |
| References.BlockSlots | Operating_Systems_File_System_Checking/fcheck.c:79-96 | get_dir_entries stores one value per entry of the block, DIR_ENTRY_PER_BLOCK in all |
| References.BlockSlotsSkipLinks | Operating_Systems_File_System_Checking/fcheck.c:84-95 | a slot is 0 exactly when its entry is "." or ".." or names inode 0; otherwise it holds the entry's inode number |
| References.Referenced | Operating_Systems_File_System_Checking/fcheck.c:142-150 | the numbers counted for one block never include 0 and are at most as many as the slots |
| References.ReferencedCounts | Operating_Systems_File_System_Checking/fcheck.c:142-150 | each nonzero number is counted exactly as often as it occurs among the slots |
| References.ReferencedAppend | Operating_Systems_File_System_Checking/fcheck.c:142-150 | counting the slots of a + c counts those of a, then those of c |
| References.DirBlocks | Operating_Systems_File_System_Checking/fcheck.c:117-152 | the budget left equals the starting budget less the numbers counted; with no budget nothing is counted |
| References.DirBlocksBudget | Operating_Systems_File_System_Checking/fcheck.c:117-152 | the budget only cuts the walk short: the numbers counted are a prefix of everything the blocks hold, and fall short of it only when the budget has run out |
| References.IndirectRefs | Operating_Systems_File_System_Checking/fcheck.c:154-197 | a nonzero indirect pointer is always read, even with the budget spent; the read fails exactly when the sector lies past the image; with no budget nothing is counted |
| References.DirRefs | Operating_Systems_File_System_Checking/fcheck.c:111-198 | an inode that is not a directory contributes nothing; a read failure can only come from a directory of size 0 once the scan has passed |
| References.DirRefsSplit | Operating_Systems_File_System_Checking/fcheck.c:117-197 | a directory's part of the trace is its direct blocks' numbers followed by its indirect block's, with the budget carried over |
| References.RefsFromHead | Operating_Systems_File_System_Checking/fcheck.c:111-198 | inode i's part comes first in the pass from i on; a read failure at i ends the pass there |
| References.RefsFromStep | Operating_Systems_File_System_Checking/fcheck.c:111-198 | seen from the whole pass, inode i either stops it (after counting its part) or adds its part and hands over to inode i + 1 |
| References.RefsReadFailure | Operating_Systems_File_System_Checking/fcheck.c:154-162 | a directory's read fails exactly when its indirect pointer is nonzero and its sector lies past the image, whatever its size |
| References.RefsFromFails | Operating_Systems_File_System_Checking/fcheck.c:105-200 | the pass fails exactly when some directory from i on has an unreadable indirect block |
| References.Counts | Operating_Systems_File_System_Checking/fcheck.c:147 | the counter table has one counter per inode |
| References.CountsMultiplicity | Operating_Systems_File_System_Checking/fcheck.c:147 | each counter holds how often its inode number occurs in the trace |
| References.CountsStep | Operating_Systems_File_System_Checking/fcheck.c:191 | counting one more number adds exactly 1 to its counter and changes no other |
| References.CountsGrow | Operating_Systems_File_System_Checking/fcheck.c:105-200 | counters never decrease as the pass goes on |
| References.CountsSlot | Operating_Systems_File_System_Checking/fcheck.c:142-150 | one more slot of a block: a nonzero slot adds 1 to its counter and takes 1 off the budget; a zero slot changes neither |
| References.InodeRefViolation | Operating_Systems_File_System_Checking/fcheck.c:669-685 | a free inode (type 0) passes exactly when its count is 0; any other inode passes exactly when its count is nonzero, a file's count equals nlink and a directory's count is at most 1; each violation is reported exactly when the rules before it pass and it fails |
| References.FinalFromFirst | Operating_Systems_File_System_Checking/fcheck.c:666-688 | the final loop passes exactly when every inode from i on passes; otherwise it reports the violation of the lowest failing inode |
| Fsck.CheckPasses | Operating_Systems_File_System_Checking/fcheck.c:488-688 | an image passes exactly when all of the following hold: the root check holds; every inode is accepted (as in ScanInodeAccepts) on the initial table with the flags of the inodes before it set; every data block the bitmap marks below first_block + nblocks was claimed; every directory's indirect block can be read; and every inode from 2 on meets rules 9 to 12 |
| Fsck.CheckConsequences | Operating_Systems_File_System_Checking/fcheck.c:488-688 | a passing image has: no data block claimed twice; every directory of positive size with at least two "." / ".." entries over its in-range direct blocks, any "." among the first two naming the directory itself (two ".." entries also pass); and from inode 2 on, every free inode unreferenced, every other inode referenced at least once, every file referenced nlink times and every directory referenced exactly once |
| Checker.CheckRoot | Operating_Systems_File_System_Checking/fcheck.c:497-515 | the root check as main runs it returns RootCheck's verdict |
| Checker.CheckRootEntries | Operating_Systems_File_System_Checking/fcheck.c:504-515 | the loop over the root's entries computes RootLoop |
| Checker.InitUsedBlocks | Operating_Systems_File_System_Checking/fcheck.c:517-533 | the fresh table flags exactly the blocks below first_block |
| Checker.FormatBlock | Operating_Systems_File_System_Checking/fcheck.c:578-596 | the formatting loop over one block computes FormatEntries |
| Checker.ClaimDirectSlots | Operating_Systems_File_System_Checking/fcheck.c:550-598 | the in-place direct-slot loop reports ScanDirect's violation, or leaves the table and tally that ScanDirect computes |
| Checker.ClaimIndirectBlock | Operating_Systems_File_System_Checking/fcheck.c:604-621 | the in-place indirect step agrees with ScanIndirectBlock |
| Checker.ClaimIndirectEntries | Operating_Systems_File_System_Checking/fcheck.c:623-649 | the in-place loop over indirect entries agrees with ScanIndirect |
| Checker.ScanOneInode | Operating_Systems_File_System_Checking/fcheck.c:536-650 | one iteration of the inode loop agrees with ScanInode |
| Checker.ScanInodes | Operating_Systems_File_System_Checking/fcheck.c:536-650 | the inode loop agrees with ScanFrom from inode 0 |
| Checker.CheckRule6 | Operating_Systems_File_System_Checking/fcheck.c:335-353 | the sweep returns SweepViolation's verdict on the table |
| Checker.GetDirEntries | Operating_Systems_File_System_Checking/fcheck.c:79-96 | fills the caller's array with the block's slot values |
| Checker.CountBlock | Operating_Systems_File_System_Checking/fcheck.c:129-151 | one block adds its counted numbers to the counter table and takes them off the budget |
| Checker.CountSlots | Operating_Systems_File_System_Checking/fcheck.c:140-150 | the inner loop adds 1 to the counter of each nonzero slot and takes one off the budget for each |
| Checker.CountBlocks | Operating_Systems_File_System_Checking/fcheck.c:120-152 | the loop over a directory's blocks updates the counters and the budget as DirBlocks specifies |
| Checker.CountIndirect | Operating_Systems_File_System_Checking/fcheck.c:154-197 | the indirect half updates the counters as IndirectRefs specifies and reports its read failure |
| Checker.CountDirectory | Operating_Systems_File_System_Checking/fcheck.c:113-198 | one iteration of the outer loop updates the counters as DirRefs specifies |
| Checker.IsInodeInDir | Operating_Systems_File_System_Checking/fcheck.c:105-200 | the counter table holds each inode number's multiplicity in the pass's trace, and a read failure is reported exactly when the pass fails |
| Checker.CheckReferenceRules | Operating_Systems_File_System_Checking/fcheck.c:666-688 | the final loop over the in-place counters returns FinalFrom's verdict from inode 2 |
| Checker.Run | Operating_Systems_File_System_Checking/fcheck.c:488-688 | the validation body of main returns Check's verdict |

## Left out

- Argument handling, `open`, `fstat` and `mmap`, with their messages (`fcheck.c:452-486`): the image is a value given to the model.
- The I/O inside `rsect` (`fcheck.c:56-69`) is not modelled. `IndirectEntries` reads the sector from the image's bytes instead. The model assumes that a short `lseek`/`read` happens exactly when the sector lies past the end of the image, and reports it as `SectorReadFailed`.
- `calloc`, `free`, `perror` and the allocation-failure exits (`fcheck.c:129-135`, `173-179`, `655-661`) are memory management with nothing to prove.
- Message texts and exit codes: the model has one `Violation` kind per distinct message, and `None` means exit 0.
- Decoding the superblock and the inode table from bytes: both are given as decoded values. `types.h` and `fs.h` are not part of this model, and their constants are assumed to be xv6's.
- The model requires the following of an image. Some of these exclude undefined behaviour in the C code; some exclude images on which the C code is well defined.
  - `Geometry`, part 1: the inode table has exactly `ninodes` entries and `ninodes > 1`. This excludes images with `ninodes <= 1`, on which the C code still reads inode 1 from the inode block. The model's inode table is sized by `ninodes`.
  - `Geometry`, part 2: `first_block + nblocks <= size`. Every index the sweep and the claim checks use is then within `used_blocks_arr`. Images where the C code would index past it are excluded.
  - `Geometry`, part 3: the image holds at least `size` blocks, and the bitmap byte of every block below `size` is mapped.
  - `RootWindowMapped`: the root entries the root loop reads are mapped.
  - `DirWindowsMapped`: for every directory inode of positive size and every direct slot within `nblocks`, the `size / 16` entries from that block are mapped. This is wider than what the C code reads. The model therefore says nothing about images whose unread windows are unmapped, for example a later directory after the run has already stopped at an earlier violation, or a block refused by rule 5 or rule 7.
  - `Checkable`: every inode number the reference pass counts indexes `referenced_inodes_arr`.
- 32-bit overflow of the loop counters and of the `int` reference counters is not modelled; the counters are unbounded naturals.
- A host that is not little-endian: `xint` and the indirect-block reads assume little-endian byte order.
- `References.Counts`: skips a number outside the table. The C code would write out of bounds there; `Checkable` rules that case out.
- `Checker.ClaimDirectSlots` and `Checker.CountBlocks`: these walk the slots as a shrinking sequence value rather than indexing `addrs` with a counter. The order and the effects are the same.
- `Checker.CountBlock`: the `num_inodes` buffer is a fresh array for each block, as with `calloc`; its zero-fill is not modelled, because `get_dir_entries` overwrites every slot.
