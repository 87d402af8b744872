# VMsep in Dafny

VMsep is a variant of the Linux 4.13 journaling layer (jbd2) and of ext4 in which a commit logs only the
buffers of one inode, the disk image of one virtual machine, and passes every other buffer on to the next
transaction. This project models that commit, the recovery that has to undo its interruptions, and the
algorithms in the kernel headers the tree carries along: division by multiplication, lock words, atomic
retry loops, block chaining, hash framing, page-table stepping, field arithmetic, scatter lists and the
word-wise search for a zero byte.

`dafny verify dfyconfig.toml` checks everything.

## What is proved

**Journal.** `JournalFormat` is the log format in 32-bit words: descriptor, revoke and commit blocks, with
the escaping of blocks that start with the magic number. `JournalRecovery` is `do_one_pass` and
`jbd2_journal_recover` over a circular log, with transaction ids that wrap at 2^32. `JournalTheorem`
says what the three passes mean: the disk overlaid with the committed transactions, oldest first, where
a revoke removes a block from everything up to its own transaction. `JournalCrash` writes transactions into
the ring over what older transactions left there, drops any subset of the blocks of the one in progress, and
mounts again. `JournalCommit` is the commit loop with VMsep's split.

`JournalSync`, `JournalFsync` and `JournalVm` are the journal at work: inodes change, blocks are dirtied and freed,
fsync and the timer request commits, the commit thread runs, the power fails. The reference is an automaton for a
single block with three fields: its unlogged content and the inode that dirtied it first, whether a revoke is pending,
and what a mount would find. `RunIsCells` shows that over every run the journal does to each block what the automaton
does to that block alone; `VmJournal` is the same state kept in fields, with a log that grows by one transaction per
commit; and `PowerLoss` shows that after a power failure, also one inside a commit that would have succeeded, a mount
finds every block as the automaton says.

What one would expect of a commit or an fsync is often false under the split. Each time the failing inputs and the
exact condition are proved:

- A commit does not always reach the log. If a passed-over buffer comes after the last logged one while a
  descriptor is open, that descriptor is never submitted. Its buffers are still shadowed in phase 3, so the
  assertion at kernel/fs/jbd2/commit.c:834 stops the commit before the abort at line 868. And the assertion at
  line 562 stops a commit whose transaction has more buffers than credits. `CommitTransaction` commits if and only if
  there are no more buffers than credits, and the last buffer belongs to the synced inode or the number of logged
  buffers is a multiple of the descriptor's capacity.
- A buffer that is passed over brings no credit to the next transaction, and neither dirtying it again nor freeing it
  changes the balance. So the first commit that passes a buffer over is the last one (`NoCommitAfterPassOver`):
  what it passed over stays in memory and is never logged. `CommitsAgainIff`: some run goes on to another commit if
  and only if the last one passed nothing over. `OnlyLastPassesOver`: in every run all commits but the last logged
  their whole transaction.
- A transaction is not atomic under the split. `SplitIsWholeIff`: what a commit does, revokes included, equals what
  the whole transaction would do, for every earlier content, if and only if all buffers belong to the synced inode.
  What does hold is that no content changes on the way: the newest content of a block is in memory or is what a mount
  finds (`NothingLost`), and while in memory it waits for a commit for the inode that dirtied the clean block, and for
  nothing else (`DirtyIffAwaits`).
- A write that was committed can be lost again, because every commit logs all revokes whatever inode it is for.
  `LostIffRevoked`: it is lost if and only if a later commit carries a revoke of its block and no commit after
  that logs the block anew.
- An fsync may return with the inode's blocks in memory only (`FsyncLeavesUnlogged`): after the inode was passed over
  by a commit, since its transaction id is then an old one; when the inode is not on the list of VM inodes; when a
  commit is already requested for another inode; and when another inode dirtied the block first. If the inode is
  changed again after it was passed over, its fsync stops the journal (`SecondCommitStops`).
  `FsyncKeepsPromiseIff`: nothing the inode wrote stays unlogged if and only if, for every block it still owes, the
  inode was read in, created or changed in the running transaction, that transaction has a credit for each buffer,
  no descriptor will be left open, and the block's first writer is the inode the pending or the new request is for.
  `SyncThenPowerLoss` carries this to the disk.
- A checkpoint that finds a buffer in the running transaction asks for a commit without an inode and tries again. For
  a buffer of any inode that never ends (`RetryNeverEnds`).

**Division.** `Div64` is `__div64_const32`, `__arch_xprod_64` and `do_div` in 32-bit and 64-bit words. One test
dividend decides between three schemes; `TestDecides` shows that the test is equivalent to exactness on all
2^64 dividends, `DivConst32` that every scheme is exact, and `XProd64` that no carry is lost.

**Locks.** `Rwsem`, `Qrwlock` and `Atomic` are state machines of any number of threads that take atomic steps in
any order. A thread that enters a slow path is parked: it keeps its bias until it withdraws it. Their classes
run the code of each function on the word and tie it to a step of the machine. The number of threads matters:
`Rwsem.ExclusionIffHalf` and `Qrwlock.ExclusionIffBounded` say exactly up to which number a writer never shares
the lock, and build the run that breaks it one thread later, when the word wraps.

**The rest.** `Sha1`: any cutting of a message into updates folds the padded message, and padding loses nothing; an
update of 2^31 bytes or more can read its last bytes from the wrong place, and `TakenIffFits` says exactly when; one
whose length and partial count wrap 32 bits runs past the buffer.
`Cbc`: in place or not, forward or backward, in any split of the walk, one pass of CBC, and decryption under
another split gives the message back. `Pgtable`: nested range stepping partitions the range even when a boundary
wraps to 0. `Gf128`: `k` multiplications by X are multiplication by X^k modulo the field polynomial. `Scatterwalk`:
every byte once, in order, in chunks inside one page of one entry. `WordAtATime`: the first zero byte, in both
byte orders.

`Bits` holds words as natural numbers with every C operator written out, and `Sets` one fact about set sizes.

## Where the code and its comments differ

- The commit path allocates the next running transaction before the current one is detached
  (kernel/fs/jbd2/commit.c:412-413), while setting one up asserts that there is no running transaction
  (kernel/fs/jbd2/transaction.c:104). The model takes the commit past that assertion.
- Passing a buffer over first takes it off the committing transaction (kernel/fs/jbd2/commit.c:577), which drops that
  transaction's reference on the journal head (kernel/fs/jbd2/transaction.c:1908-1913). For a buffer on no checkpoint
  list that is the last one, so the head is detached and freed (kernel/fs/jbd2/journal.c:2530-2549) before line 578
  files it again. The model's plain move is right only for buffers that also hold a checkpoint reference.
- The comment at kernel/fs/ext4/fsync.c:94-104 says that an fsync kicks off a commit that snapshots the inode to disk,
  and the one at kernel/fs/jbd2/journal.c:742-748 that a stale transaction id is by definition completed. Under the
  split neither holds, as described above.
- The comment at include/asm-generic/div64.h:117 calls setting bit 31 unavoidable when no reduction bit is left;
  `Reduce` proves the sense in which it is: all bits that could have moved there are set.
- The semaphore's mask allows for `RWSEM_ACTIVE_MASK` holders, but the word wraps at half as many writers.

## Model

| member | source | states |
|---|---|---|
| `JournalFormat.FlagsRoundTrip` | include/linux/jbd2.h:114-210 | the three tag flags are independent bits of a 16-bit word |
| `JournalFormat.ReadTagWords` | kernel/fs/jbd2/recovery.c:419-811 | a tag read where it was written is that tag, in the 32-bit and the 64-bit format |
| `JournalFormat.ParseEncodedTags` | kernel/fs/jbd2/recovery.c:200-225 | walking an encoded tag area gives the tags back, whatever follows it in the block |
| `JournalFormat.DescriptorRoundTrip` | kernel/fs/jbd2/commit.c:605-704 | recovery reads from a descriptor exactly the tags the commit put there |
| `JournalFormat.EscapeRoundTrip` | kernel/fs/jbd2/journal.c:358-492 | a logged block comes back unchanged and its log copy never passes for a journal block |
| `JournalFormat.RevokeRoundTrip` | kernel/fs/jbd2/revoke.c:564-620 | the records of a revoke block are read back in order and its byte count passes the bound check |
| `JournalFormat.StaleBlocksEndScan` | kernel/fs/jbd2/recovery.c:419-811 | whatever one transaction leaves in the log stops a pass that expects another one there |
| `JournalRecovery.TidOrder` | include/linux/jbd2.h:1418-1428 | within half the id space the wrapped comparisons are the order of the transactions |
| `JournalRecovery.Ring.WrapPos` | kernel/fs/jbd2/recovery.c:229-233 | one conditional subtraction is the position on the ring, for any step up to its size |
| `JournalRecovery.Ring.PosClosed` | kernel/fs/jbd2/journal.c:777-793 | stepping block by block around the ring is the remainder |
| `JournalRecovery.Recovery.CountTags` | kernel/fs/jbd2/recovery.c:200-225 | the number of tags the walk of the descriptor finds |
| `JournalRecovery.Recovery.ScanRevokeRecords` | kernel/fs/jbd2/recovery.c:815-855 | every record enters the table with its id; a byte count beyond the block is refused and changes nothing |
| `JournalRecovery.Recovery.ReplayTags` | kernel/fs/jbd2/recovery.c:419-811 | the tag loop writes every unrevoked block home, unescaped, and ends after the data blocks, across the wrap |
| `JournalRecovery.Recovery.ProcessBlock` | kernel/fs/jbd2/recovery.c:419-811 | the switch consumes exactly one unit of the log in each of the three passes |
| `JournalRecovery.Recovery.ReadUnit` | kernel/fs/jbd2/recovery.c:419-811 | a round of the loop stops only where no complete unit is left, and otherwise advances by one unit |
| `JournalRecovery.Recovery.DoOnePass` | kernel/fs/jbd2/recovery.c:419-811 | each pass ends at the id after the last committed transaction, whatever part of an interrupted one follows; only its own table or disk changes |
| `JournalRecovery.Recovery.Recover` | kernel/fs/jbd2/recovery.c:247-297 | the three passes in order; the revoke table is cleared and the next id is past every id in the log |
| `JournalRecovery.HeadParses` | kernel/fs/jbd2/journal.c:834-860 | the first block of a unit is accepted under its own id and parses to the unit |
| `JournalRecovery.EndReached` | kernel/fs/jbd2/recovery.c:419-811 | the end id is reached exactly when every complete unit has been read, with wrapping ids |
| `JournalTheorem.TableFrom` | kernel/fs/jbd2/revoke.c:678-694 | after the revoke pass the table lists, for every block, the newest transaction that revokes it |
| `JournalTheorem.ReplayWritesEffect` | kernel/fs/jbd2/revoke.c:703-714 | a transaction's writes reach a block unless it is revoked at or after that transaction |
| `JournalTheorem.RecoveryIsOverlay` | kernel/fs/jbd2/recovery.c:247-297 | revoke and replay together give the disk overlaid with the committed transactions, oldest first, revokes deleting |
| `JournalTheorem.FlattenCommits` | kernel/fs/jbd2/recovery.c:419-811 | a log of complete transactions has one commit block for each |
| `JournalTheorem.MountAfterCrash` | kernel/fs/jbd2/recovery.c:247-297 | mounting yields every committed transaction whole and nothing of the interrupted one |
| `JournalCommit.AddTag` | kernel/fs/jbd2/commit.c:605-704 | the space and buffer counters of the open descriptor; it is submitted when full or when the list is done |
| `JournalCommit.FullTest` | kernel/fs/jbd2/commit.c:699-701 | the buffer-count test and the space test together mean that the capacity is reached |
| `JournalCommit.LogOne` | kernel/fs/jbd2/commit.c:605-733 | one buffer joins the open batch; nothing logged is lost or reordered |
| `JournalCommit.LogBuffers` | kernel/fs/jbd2/commit.c:568-736 | the loop passes on exactly the other inodes' buffers, in order, logs the rest in order, and leaves a computed number in a descriptor it never submits |
| `JournalCommit.WriteOneRecord` | kernel/fs/jbd2/revoke.c:564-620 | a full revoke block is closed before the next record |
| `JournalCommit.WriteRevokeRecords` | kernel/fs/jbd2/revoke.c:523-557 | every record is written once, in order, in blocks that recovery accepts |
| `JournalCommit.CommitTransaction` | kernel/fs/jbd2/commit.c:541-891 | the commit block is written if and only if there are no more buffers than credits and no descriptor is left open; a committed transaction is complete, logs exactly the synced inode's writes and all revokes |
| `JournalCommit.AssembleTxn` | kernel/fs/jbd2/commit.c:118-162 | revoke blocks, descriptors and commit block in this order form a complete transaction |
| `JournalCommit.OpenDescriptorExample` | kernel/fs/jbd2/commit.c:574-580 | two buffers in one order are never committed, in the other order they are |
| `JournalCommit.SplitConserves` | kernel/fs/jbd2/commit.c:574-580 | one commit loses no buffer and duplicates none |
| `JournalCrash.StaleLogEndsScan` | kernel/fs/jbd2/recovery.c:419-811 | a log left by fewer than 2^32 older transactions has nothing a scan for a newer one would take for its own |
| `JournalCrash.LostBlocksTorn` | kernel/fs/jbd2/recovery.c:419-811 | whatever subset of an uncommitted transaction's blocks is on the log, a scan stops inside it |
| `JournalCrash.WrittenHolds` | kernel/fs/jbd2/recovery.c:419-811 | a log that has the blocks of complete transactions is read as those transactions |
| `JournalCrash.WriteLog` | kernel/fs/jbd2/journal.c:777-793 | blocks go to consecutive places of the ring, in place, wrapping at its end |
| `JournalCrash.CrashAndMount` | kernel/fs/jbd2/recovery.c:247-297 | over a log of older transactions commit any transactions, lose any blocks of the next, mount: the disk is the overlay of the committed ones |
| `JournalSync.FindFile` | kernel/fs/jbd2/transaction.c:1370-1429 | dirtying a block keeps every other block, and keeps the inode of the block's first writer |
| `JournalSync.StepInv` | kernel/fs/jbd2/journal.c:504-540 | every event keeps ids consecutive, a request only for the running transaction, no block twice on the list, none both dirty and revoked, and the buffers without a credit equal to those the last commit passed over |
| `JournalSync.StepCell` | kernel/fs/jbd2/commit.c:541-580 | every event does to each block what the one-block automaton does |
| `JournalSync.RunIsCells` | kernel/fs/jbd2/commit.c:541-580 | so does every run |
| `JournalSync.NoCommitAfterPassOver` | kernel/fs/jbd2/commit.c:562-580 | after a commit that passed a buffer over, no run has another commit, and a mount finds every block as that commit left it |
| `JournalSync.CommitsAgainIff` | kernel/fs/jbd2/commit.c:562-580 | some run goes on to a commit if and only if the journal runs and its last commit passed nothing over |
| `JournalSync.OnlyLastPassesOver` | kernel/fs/jbd2/commit.c:562-580 | in every run all commits but the last are for the inode of every buffer of their transaction |
| `JournalSync.RetryNeverEnds` | kernel/fs/jbd2/checkpoint.c:266-284 | no number of commits requested without an inode takes a block of an inode off the list |
| `JournalSync.NothingLost` | kernel/fs/jbd2/commit.c:574-580 | the newest content of a block that was not freed since is in memory or is what a mount finds; of a freed block nothing is left but a pending revoke |
| `JournalSync.DirtyIffAwaits` | kernel/fs/jbd2/commit.c:574-580 | content is in memory for an inode if and only if that inode dirtied the block when clean and no free of the block and no commit for the inode came since |
| `JournalSync.LostIffRevoked` | kernel/fs/jbd2/commit.c:541 | a logged write is lost again if and only if a later commit, for whatever inode, revokes its block and none after it logs the block |
| `JournalSync.RevokeOutrunsInode` | kernel/fs/jbd2/commit.c:541-580 | the next commit gives up a freed block, while the block of another inode that goes with it is passed over |
| `JournalSync.MatchingShows` | kernel/fs/jbd2/commit.c:574-580 | what a commit logs for a block: its content if its inode is the synced one, else nothing |
| `JournalSync.OverlayShows` | kernel/fs/jbd2/recovery.c:247-297 | the recovered overlay has for every block what the commits, revokes included, have left of it |
| `JournalSync.SplitIsWholeIff` | kernel/fs/jbd2/commit.c:541-580 | with revokes too, the commit does what the whole transaction would, to every earlier overlay, if and only if all buffers belong to the synced inode |
| `JournalFsync.RequestSticks` | kernel/fs/jbd2/journal.c:504-540 | until the commit nothing takes back a request or changes its inode, and blocks no call names stay as they are |
| `JournalFsync.FsyncDurableIff` | kernel/fs/ext4/fsync.c:162-168 | whatever happens before the awaited commit, a dirty block is logged by it if and only if its first writer is the inode served, each buffer has a credit at the call, and no descriptor stays open |
| `JournalFsync.FsyncSettlesIff` | kernel/fs/ext4/fsync.c:162-168 | after any run an fsync settles what the inode owes a block if and only if the commit it waits for logs the block |
| `JournalFsync.FsyncKeepsPromiseIff` | kernel/fs/ext4/fsync.c:106-178 | after any run an fsync leaves nothing of the inode unlogged if and only if every block it owes meets the condition of the awaited commit |
| `JournalFsync.SyncTidIsLastTouch` | kernel/fs/ext4/ext4_jbd2.h:384-395 | over every run the inode's id is that of the transaction it was last read in, created or changed in |
| `JournalFsync.WaitsIffTouched` | kernel/fs/jbd2/journal.c:749-770 | an fsync waits if and only if no commit came since the inode was last read in, created or changed, modulo 2^32 commits |
| `JournalFsync.CommitEndsWaits` | kernel/fs/jbd2/journal.c:749-770 | after a commit every inode read in, created or changed before it has an old id, and its fsync does nothing |
| `JournalFsync.FsyncAfterPassedOver` | kernel/fs/jbd2/journal.c:749-770 | the block of an inode passed over stays unlogged although its fsync returns |
| `JournalFsync.FsyncNotListed` | kernel/fs/ext4/fsync.c:166-168 | the commit an unlisted inode asks for logs none of its blocks |
| `JournalFsync.FsyncAfterRequest` | kernel/fs/jbd2/journal.c:504-508 | an fsync that finds a request for another inode does not get its blocks logged |
| `JournalFsync.FsyncOfSecondWriter` | kernel/fs/jbd2/transaction.c:1370-1429 | a block dirtied first by another inode is not logged by the fsync of the one that changed it last |
| `JournalFsync.FsyncAfterPassOverStops` | kernel/fs/jbd2/commit.c:562-563 | after a commit that passed a buffer over, an fsync that waits stops the journal and logs nothing |
| `JournalFsync.TwoDirtyReached` | kernel/fs/jbd2/transaction.c:1339-1477 | four calls lead from a loaded journal to two inodes with a dirty block each |
| `JournalFsync.FsyncLeavesUnlogged` | kernel/fs/ext4/fsync.c:162-168 | from there all four failures: the journal runs on and the block is in memory only |
| `JournalFsync.SecondCommitStops` | kernel/fs/jbd2/commit.c:562-563 | from there also: an inode passed over, changed again and synced waits for its own commit, which stops |
| `JournalVm.CommitRound` | kernel/fs/jbd2/commit.c:541-891 | a commit is stopped by missing credits or an open descriptor, or writes all revokes and the synced inode's buffers |
| `JournalVm.Interrupted` | kernel/fs/jbd2/commit.c:541-891 | what that commit has written just before its commit block |
| `JournalVm.VmJournal.constructor` | kernel/fs/jbd2/journal.c:1295-1313 | after loading, the ids before the first are used up and nothing is requested |
| `JournalVm.VmJournal.UpdateInodeFsyncTrans` | kernel/fs/ext4/ext4_jbd2.h:384-395 | the inode takes the running id, as it also does when read in or created; the invariant is kept |
| `JournalVm.VmJournal.DirtyMetadata` | kernel/fs/jbd2/transaction.c:1339-1477 | the machine's dirty event: first writer kept, a credit taken for a new buffer only, pending revoke cancelled, invariant kept |
| `JournalVm.VmJournal.Revoke` | kernel/fs/jbd2/revoke.c:325-399 | the machine's free event: block forgotten and its credit given back, revoke recorded once, invariant kept |
| `JournalVm.VmJournal.IsVmCommit` | kernel/fs/ext4/fsync.c:82-92 | found exactly when the inode is on the list |
| `JournalVm.VmJournal.Kjournald` | kernel/fs/jbd2/journal.c:222-237 | the machine's commit event; the log grows by the transaction of that round or the journal stops |
| `JournalVm.VmJournal.CompleteTransaction` | kernel/fs/jbd2/journal.c:749-773 | an old id changes nothing; the running one ends with its commit, for the inode of the first request |
| `JournalVm.VmJournal.SyncFile` | kernel/fs/ext4/fsync.c:106-178 | the machine's fsync event followed by the commit it waits for, if it waits |
| `JournalVm.VmJournal.PowerLoss` | kernel/fs/jbd2/recovery.c:247-297 | power lost at any point of the next commit: a mount gives the overlay of the log, and every block as the automaton says |
| `JournalVm.FsyncSurvives` | kernel/fs/ext4/fsync.c:162-168 | what a mount finds of the blocks dirty before an fsync, in terms of the condition before the call |
| `JournalVm.VmJournal.SyncThenPowerLoss` | kernel/fs/ext4/fsync.c:106-178 | fsync, power loss and mount: a dirty block is on the disk if and only if the fsync reached it, else as before |
| `Div64.Schoolbook` | include/asm-generic/div64.h:160-194 | the high word of a biased product is the sum of three base-2^32 columns |
| `Div64.LowColumn` | include/asm-generic/div64.h:168-177 | the carry of the lowest column, with and without headroom |
| `Div64.MiddleColumn` | include/asm-generic/div64.h:179-189 | the middle column; the one sum that can wrap is repaired by its carry |
| `Div64.Headroom` | include/asm-generic/div64.h:170-183 | clear bits 31 and 63 of the multiplier bound every partial product |
| `Div64.XProd64` | include/asm-generic/div64.h:160-194 | the result is `((bias ? m : 0) + m * n) >> 64` for all 64-bit inputs |
| `Div64.Multipliers` | include/asm-generic/div64.h:68-73 | nothing wraps, the two multipliers are neighbours around `p * 2^64 / b` and their errors add up to `b` |
| `Div64.RoundUpAt` | include/asm-generic/div64.h:71-85 | the round-up multiplier is exact at `n` if and only if its error stays below the gap to the next multiple |
| `Div64.TestSuffices` | include/asm-generic/div64.h:75-94 | if the one test dividend comes out right, every dividend does |
| `Div64.TestDecides` | include/asm-generic/div64.h:75-94 | the one test holds if and only if the round-up multiplier is exact on all 64-bit dividends |
| `Div64.FailureBoundsError` | include/asm-generic/div64.h:94-106 | when the test fails, the round-down error is at most `p` |
| `Div64.BiasedExact` | include/asm-generic/div64.h:95-106 | a round-down error of at most `p` is repaired by the bias |
| `Div64.MersenneExact` | include/asm-generic/div64.h:88-93 | a divisor of 2^64 - 1 is exact with bias and no shift |
| `Div64.ReductionBit` | include/asm-generic/div64.h:113-115 | a bit of `___bits` is set exactly when shifting by it is exact and clears bit 31 |
| `Div64.BestShift` | include/asm-generic/div64.h:125-128 | the top bit of `___bits` is an exact shift that clears bits 31 and 63 |
| `Div64.LowBitBelowP` | include/asm-generic/div64.h:122-124 | the lowest set bit of the multiplier never exceeds `p` |
| `Div64.Reduce` | include/asm-generic/div64.h:107-131 | both shrink by the same power of two, exactly, `p` stays positive, and bit 31 stays only when unavoidable |
| `Div64.ReductionPreserves` | include/asm-generic/div64.h:107-131 | the reduction does not change the quotient |
| `Div64.TestProduct` | include/asm-generic/div64.h:79-84 | the hand-made carry of the test computes the high word |
| `Div64.TestScheme` | include/asm-generic/div64.h:75-94 | the test compares the quotient at the worst dividend |
| `Div64.ChooseScheme` | include/asm-generic/div64.h:54-131 | each of the three schemes yields `n / b` |
| `Div64.DivConst32` | include/asm-generic/div64.h:54-147 | equals `n / b` for every 64-bit `n` and every 32-bit `b` that is not 0 or a power of two |
| `Div64.LowWordRemainder` | include/asm-generic/div64.h:215-219 | the remainder formed in 32-bit registers is `n % base` |
| `Div64.PowerOfTwoTest` | include/asm-generic/div64.h:208-209 | `x & (x - 1)` vanishes exactly for powers of two |
| `Div64.DoDiv` | include/asm-generic/div64.h:204-226 | quotient and remainder on every branch of the macro; the external routine is taken as given |
| `Sha1.BigEndianDigit` | include/crypto/sha1_base.h:89 | every byte is the digit of its place, most significant first |
| `Sha1.PadFillsBlocks` | include/crypto/sha1_base.h:74-93 | the padded message is a whole number of blocks |
| `Sha1.PadInjective` | include/crypto/sha1_base.h:74-93 | two messages of any lengths with the same padding are equal |
| `Sha1.State.constructor` | include/crypto/sha1_base.h:20-32 | the initial context has absorbed the empty message |
| `Sha1.State.ConsumeBlocks` | include/crypto/sha1_base.h:44-64 | whole blocks are folded, the first from the buffer; what is left is read where the `int` product puts the pointer |
| `Sha1.State.Update` | include/crypto/sha1_base.h:34-69 | a context that absorbed a message absorbs the message followed by what the pointer arithmetic takes; the copy runs past the buffer if and only if length and partial count wrap 32 bits |
| `Sha1.TakenIffFits` | include/crypto/sha1_base.h:44-67 | an update takes its own data, whatever lies before it in memory, if and only if its whole blocks are below 2^31 bytes or no byte is left over |
| `Sha1.FitsExamples` | include/crypto/sha1_base.h:62 | every length below 2^31 is right; 2^31 + 1 is not |
| `Sha1.State.LastBlock` | include/crypto/sha1_base.h:88-90 | zeros, the bit count and one more block |
| `Sha1.LastBlocks` | include/crypto/sha1_base.h:74-93 | the one or two last blocks the code assembles fold to the padded message |
| `Sha1.State.Finalize` | include/crypto/sha1_base.h:71-93 | the state is the fold over the message padded as in section 5.1.1 of FIPS 180-4 |
| `Sha1.State.Finish` | include/crypto/sha1_base.h:95-106 | the digest big-endian, and a cleared context |
| `Sha1.Hash` | include/crypto/sha1_base.h:20-106 | however a message is cut into updates whose pointers fit, and whatever lies in memory before them, the digest is that of the padded message |
| `Rwsem.Decode` | include/asm-generic/rwsem.h:19-29 | up to half the mask the sign tells a waiting or write bias and the masked part counts the holders |
| `Rwsem.StepAccounted` | include/asm-generic/rwsem.h:34-126 | every step keeps the word equal to the biases handed out |
| `Rwsem.Acquire` | include/asm-generic/rwsem.h:34-85 | a reader that gets the lock finds no write bias, a writer finds no bias at all |
| `Rwsem.StepExclusive` | include/asm-generic/rwsem.h:34-126 | every step keeps a writer alone |
| `Rwsem.RunsSound` | include/asm-generic/rwsem.h:34-126 | both hold in every state of every run |
| `Rwsem.CountDecodes` | include/asm-generic/rwsem.h:19-29 | in every run the word is the active biases minus the waiting ones times the mask plus one, if and only if the pool has at most half as many threads as the mask allows |
| `Rwsem.ExclusionIffHalf` | include/asm-generic/rwsem.h:19-126 | no run lets a writer share the lock if and only if the pool has at most half the mask plus one threads |
| `Rwsem.Overflow` | include/asm-generic/rwsem.h:56-64 | with one thread more, a run in which parked writers wrap the word and a reader joins a writer |
| `Rwsem.ReadWake` | include/asm-generic/rwsem.h:90-97 | the test of the read release means: no active bias left and the queue bias set |
| `Rwsem.MaskedLow` | include/asm-generic/rwsem.h:95 | the bitwise mask of a negative word is its remainder |
| `Rwsem.Semaphore.DownRead` | include/asm-generic/rwsem.h:34-38 | to the slow path exactly when a write or queue bias is there |
| `Rwsem.Semaphore.DownReadTrylock` | include/asm-generic/rwsem.h:40-51 | under any interference of other threads before each look and each swap it takes the lock in one step of the machine in a state without write or queue bias, or gives up in a state with one |
| `Rwsem.Semaphore.DownWrite` | include/asm-generic/rwsem.h:56-64 | to the slow path exactly when any bias is there |
| `Rwsem.Semaphore.DownWriteKillable` | include/asm-generic/rwsem.h:66-76 | the error exactly when the slow path was taken and interrupted |
| `Rwsem.Semaphore.DownWriteTrylock` | include/asm-generic/rwsem.h:78-85 | succeeds exactly on a word without bias, and otherwise changes nothing |
| `Rwsem.Semaphore.UpRead` | include/asm-generic/rwsem.h:90-97 | wakes exactly when no active bias is left and the queue is not empty |
| `Rwsem.Semaphore.UpWrite` | include/asm-generic/rwsem.h:102-107 | wakes exactly when the queue or another writer's bias is left |
| `Rwsem.Semaphore.DowngradeWrite` | include/asm-generic/rwsem.h:112-126 | one write bias becomes one read bias; wakes exactly as a write release does |
| `Qrwlock.Decode` | include/asm-generic/qrwlock.h:30-34 | the low nine bits are the writer part, and the word is zero exactly when nobody is there |
| `Qrwlock.Reads` | include/asm-generic/qrwlock.h:46-58 | what the two tests on the word mean in terms of the threads |
| `Qrwlock.StepSound` | include/asm-generic/qrwlock.h:65-143 | every step keeps the word decoded and the lock exclusive |
| `Qrwlock.RunsSound` | include/asm-generic/qrwlock.h:65-143 | so does every run |
| `Qrwlock.CountDecodes` | include/asm-generic/qrwlock.h:30-34 | in every run the word is biased readers, waiting bit and writer byte, and 0 exactly when all are absent, if and only if there are fewer than 2^23 threads |
| `Qrwlock.ExclusionIffBounded` | include/asm-generic/qrwlock.h:65-143 | no run lets a writer share the lock if and only if there are at most 2^23 threads |
| `Qrwlock.WlockedIsLow` | include/asm-generic/qrwlock_types.h:11-25 | in either layout storing 0 to the writer byte clears the low eight bits and nothing else |
| `Qrwlock.StoreLoad` | include/asm-generic/qrwlock_types.h:11-25 | a word stored in four bytes of either order is read back |
| `Qrwlock.Lock.ReadCanLock` | include/asm-generic/qrwlock.h:46-49 | no writer and none waiting |
| `Qrwlock.Lock.WriteCanLock` | include/asm-generic/qrwlock.h:55-58 | nobody at all |
| `Qrwlock.Lock.ReadTrylock` | include/asm-generic/qrwlock.h:65-77 | succeeds exactly when both looks find no writer, with other threads in between; a late add is taken back |
| `Qrwlock.Lock.WriteTrylock` | include/asm-generic/qrwlock.h:84-94 | succeeds exactly when the lock is free at both looks |
| `Qrwlock.Lock.ReadLock` | include/asm-generic/qrwlock.h:99-109 | to the slow path exactly when a writer is there or waiting |
| `Qrwlock.Lock.WriteLock` | include/asm-generic/qrwlock.h:115-122 | to the slow path, having added nothing, unless the lock is free |
| `Qrwlock.Lock.ReadUnlock` | include/asm-generic/qrwlock.h:128-134 | one reader less and nothing else |
| `Qrwlock.Lock.WriteUnlock` | include/asm-generic/qrwlock.h:140-143 | the byte store keeps every reader bias and the waiting bit |
| `Atomic.ApplySums` | include/asm-generic/atomic.h:119-133 | add and sub are modulo 2^32 and undo each other |
| `Atomic.ApplyBits` | include/asm-generic/atomic.h:135-157 | and, or and xor work bit by bit on two's complement patterns |
| `Atomic.Counter.Loop` | include/asm-generic/atomic.h:42-50 | under any interference the operation is applied once, to the value at the exchange |
| `Atomic.Counter.OpReturn` | include/asm-generic/atomic.h:52-62 | returns the value just after |
| `Atomic.Counter.FetchOp` | include/asm-generic/atomic.h:64-74 | returns the value just before |
| `Atomic.Counter.AddUnless` | include/asm-generic/atomic.h:226-234 | returns the value found and moves only when it is not the excluded one |
| `Atomic.StepSerial` | include/asm-generic/atomic.h:42-74 | every step keeps the run equal to the serial run of its history |
| `Atomic.InterleavingsSerial` | include/asm-generic/atomic.h:42-74 | in every interleaving each completed operation took effect once, with the return value of its own place, and a skipped one returns the counter's value at its place |
| `Atomic.OneSeesZero` | include/asm-generic/atomic.h:216-221 | of `n` threads counting down from `n`, a thread sees zero if and only if it is the last |
| `Atomic.RefStepCounted` | include/asm-generic/atomic.h:226-234 | every step keeps the counter equal to the number of references |
| `Atomic.ZeroIsFinal` | include/asm-generic/atomic.h:216-234 | once zero the counter never rises again, and exactly one drop saw it |
| `Cbc.EncryptUnique` | include/crypto/cbc.h:20-40 | a plaintext has one ciphertext |
| `Cbc.DecryptEncrypt` | include/crypto/cbc.h:85-107 | a text is the decryption of the ciphertext if and only if it is the plaintext |
| `Cbc.EncryptsConcat` | include/crypto/cbc.h:64-83 | two pieces chained through the vector are one |
| `Cbc.Walk.EncryptSegment` | include/crypto/cbc.h:20-40 | every whole block is chained as in section 6.2 of NIST SP 800-38A; vector and leftover count |
| `Cbc.Walk.EncryptInPlace` | include/crypto/cbc.h:42-62 | in place: the same blocks, vector and leftover |
| `Cbc.Walk.DecryptSegment` | include/crypto/cbc.h:85-107 | every whole block is deciphered and combined with the ciphertext before it |
| `Cbc.DecryptBackward` | include/crypto/cbc.h:122-130 | the backward loop in place gives the forward result |
| `Cbc.Walk.DecryptInPlace` | include/crypto/cbc.h:109-134 | backward in place: the same blocks, vector and leftover as forward into another buffer |
| `Cbc.LastBlock` | include/crypto/cbc.h:118-119 | for a power of two the masked count finds the last whole block |
| `Cbc.EncryptWalk` | include/crypto/cbc.h:64-83 | any split into steps, each in place or not, is one pass |
| `Cbc.DecryptBlocks` | include/crypto/cbc.h:136-144 | both branches decrypt the step |
| `Cbc.DecryptWalk` | include/crypto/cbc.h:136-144 | any split into steps is one pass |
| `Cbc.RoundTrip` | include/crypto/cbc.h:64-144 | encrypting under one split and decrypting under any other gives the message back |
| `Pgtable.Boundary` | include/asm-generic/pgtable.h:441-444 | the rounded boundary is the next multiple, wrapped to 0 at the top |
| `Pgtable.AddrEndIsNext` | include/asm-generic/pgtable.h:441-471 | the step ends at the smaller of the next multiple and the end, although both may be 0 |
| `Pgtable.FoldedIsGeneral` | include/asm-generic/pgtable-nopud.h:62-63 | the general formula is the folded one if and only if the range lies inside one entry |
| `Pgtable.CoversOnce` | include/asm-generic/pgtable.h:441-471 | every address of a partitioned range is in exactly one piece |
| `Pgtable.EntryEnd` | include/asm-generic/pgtable.h:441-471 | one step moves on, does not pass the end and stays inside one entry, folded or not |
| `Pgtable.WalkRange` | include/asm-generic/pgtable.h:441-471 | the nested loops end, partition the range, and no piece crosses an entry of any level |
| `Gf128.MaskIsBit` | include/crypto/gf128mul.h:176-180 | the shifted sign is all ones exactly when the bit is set |
| `Gf128.RemainderUnique` | include/crypto/gf128mul.h:167-218 | a residue class has one polynomial of degree below 128 |
| `Gf128.LleStep` | include/crypto/gf128mul.h:182-193 | the coefficients move up by one and X^128 folds into X^7 + X^2 + X + 1, in the reflected order of NIST SP 800-38D |
| `Gf128.BbeStep` | include/crypto/gf128mul.h:195-218 | the same in the big-endian and little-endian block orders |
| `Gf128.MulXCongruent` | include/crypto/gf128mul.h:182-218 | one call multiplies by X modulo the field polynomial |
| `Gf128.IterateMultiplies` | include/crypto/gf128mul.h:182-218 | `k` calls multiply by X^k, for every `k`, and stay reduced |
| `Gf128.Linear` | include/crypto/gf128mul.h:182-218 | multiplication by X distributes over `u128_xor` |
| `Gf128.Invertible` | include/crypto/gf128mul.h:182-218 | every element has exactly one preimage |
| `Gf128.LleMirrorsBbe` | include/crypto/gf128mul.h:182-205 | one routine is the other between two reversals of all 128 bits |
| `Scatterwalk.LeftInPage` | include/crypto/scatterwalk.h:49 | the complement's offset plus one is what is left of the page |
| `Scatterwalk.Walk.PageLen` | include/crypto/scatterwalk.h:46-51 | the longest chunk inside this page of this entry |
| `Scatterwalk.Walk.Clamp` | include/crypto/scatterwalk.h:53-58 | a chunk inside one page of one entry, empty only at the entry's end |
| `Scatterwalk.Walk.Advance` | include/crypto/scatterwalk.h:60-64 | exactly the bytes of the chunk leave the rest of the walk |
| `Scatterwalk.Walk.PageDone` | include/crypto/scatterwalk.h:95-112 | on to the next entry when this one is used up and more is wanted; no byte is skipped |
| `Scatterwalk.Walk.Done` | include/crypto/scatterwalk.h:114-120 | the same, although the test before it lets other cases through |
| `Scatterwalk.WalkBytes` | include/crypto/scatterwalk.h:46-120 | the loop ends and visits the addresses in order and once, zero-length entries included |
| `WordAtATime.LeFlags` | include/asm-generic/word-at-a-time.h:92-97 | a byte is flagged exactly when it is zero or a 1 on top of a flagged byte |
| `WordAtATime.FalseFlagExample` | include/asm-generic/word-at-a-time.h:92-97 | a word with a false flag |
| `WordAtATime.LeHasZero` | include/asm-generic/word-at-a-time.h:92-97 | the flag word is non-zero exactly when some byte is zero |
| `WordAtATime.LeMask` | include/asm-generic/word-at-a-time.h:73-108 | the mask below the first flag, counted by one multiplication |
| `WordAtATime.LeFindsFirstZero` | include/asm-generic/word-at-a-time.h:92-116 | the little-endian chain returns the first zero byte in memory order |
| `WordAtATime.FirstZeroLe` | include/asm-generic/word-at-a-time.h:63-116 | found exactly when there is one, and then the first |
| `WordAtATime.BeFlags` | include/asm-generic/word-at-a-time.h:16-20 | the big-endian mask flags exactly the zero bytes |
| `WordAtATime.BeHasZero` | include/asm-generic/word-at-a-time.h:40-45 | the verdict is true exactly when some byte is zero |
| `WordAtATime.FindZeroBe` | include/asm-generic/word-at-a-time.h:24-38 | the result is the first byte in memory order that the mask flags |
| `WordAtATime.FirstZeroBe` | include/asm-generic/word-at-a-time.h:13-45 | found exactly when there is one, and then the first in memory order |

## Left out

- Journal checksums (all versions), asynchronous commit, external journals, and I/O errors during recovery: the model reads and writes every block it asks for.
- Checkpointing, log-tail movement, ordered-data writeback, discard and the ext4 layer above the journal: none of it changes what a commit or a recovery does to the log.
- Handles: a handle has a credit left for each block it dirties, and credits reserved for later handles come to nothing at the commit. What a transaction has used is modelled.
- JournalCommit.SplitConserves: the release of the journal head between taking a buffer off and filing it again is not modelled, as described above.
- The set-up of the next running transaction during a commit (kernel/fs/jbd2/commit.c:412-413): its assertion is not modelled, as described above.
- Handles that run while a transaction is committing: a commit is one event, so a block is not dirtied for the next transaction during it. The journal starts with its first transaction running.
- The id of the data-only sync, data journaling and the flush of the disk cache in fsync: the first is the same code on another field, the others do not depend on the inode.
- JournalRecovery.Recovery.ScanRevokeRecords: the allocation failure of a revoke record is not modelled.
- JournalRecovery.Recovery.ReplayTags: read errors, tag checksums and failing allocations are not modelled.
- JournalRecovery.Recovery.ProcessBlock: the checksum branches of the switch are not modelled.
- JournalRecovery.Recovery.ReadUnit: a failing block read is not modelled.
- JournalRecovery.Recovery.DoOnePass: I/O and checksum failures are not modelled.
- JournalRecovery.Recovery.Recover: errors of the final sync and flush are not modelled.
- JournalCommit.LogBuffers: the branches for an already aborted journal and for a failing block mapping are not modelled.
- JournalCommit.CommitTransaction: a commit in an already aborted journal, which only discards its buffers, is not modelled, and an assertion the commit runs into is the result that nothing is committed.
- JournalVm.VmJournal.Kjournald: after the commit that an assertion stops, nothing more happens to the journal, and no handle runs during a commit.
- JournalVm.VmJournal.CompleteTransaction: the wait is the commit itself; other calls between the request and the commit are in `JournalFsync.FsyncDurableIff`.
- JournalVm.VmJournal.SyncFile: the data-only id, data journaling and the disk flush are not modelled.
- JournalVm.VmJournal.PowerLoss: checkpointing is not modelled, so transactions that do not fit the ring are reported instead of mounted.
- Slow paths of the locks, their wakers and the memory-ordering suffixes: steps are sequentially consistent, and a parked thread never gets the lock.
- Div64.DoDiv: the external 64-by-32 division is a parameter.
- Sha1.State.Update: what the copy past the buffer overwrites is not modelled, only when it happens; the SHA-1 block function is a parameter; signed overflow is taken to wrap.
- Sha1.Hash: updates that overrun or whose pointer does not fit are excluded; `Sha1.State.Update` says what they absorb.
- Cbc.Walk.EncryptSegment: buffers hold whole blocks, not single bytes, so overlap of source and destination by part of a block is not captured; the walk's page mapping is a list of steps.
- Cache flushing, page mapping and sg_chain in the scatter walk; 32-bit wrap-around of an entry's offset plus length.
- Byte-order conversion around the field multiplication: elements are host-order words, and the 4k-table multiplication is not modelled.
- The 32-bit variant of the zero-byte search and `zero_bytemask`.
- Other kernel headers in the tree (ACPI tables, device I/O, crypto API dispatch, termios, fixmap): tables or thin wrappers.
