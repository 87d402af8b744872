/** The journal as the code keeps it: fields updated by the calls, a log that grows by one transaction per commit,
    and what a mount finds after the power fails. */
module JournalVm {
  import opened JournalFormat
  import opened JournalRecovery
  import opened JournalTheorem
  import opened JournalCommit
  import opened JournalCrash
  import opened JournalSync
  import opened JournalFsync

  /** The journal after a commit that passed the buffers `deferred` over. */
  ghost function After(s: Journal, deferred: seq<Buffer>): Journal {
    Journal(Tid(s.tid, 1), deferred, 0, [], 0, s.request, s.tid, s.syncTid,
            s.rounds + [Round(s.inoSync, s.running, s.revokes)], false)
  }

  lemma KjournaldStep(g: Geometry, vm: set<nat>, first: nat, s: Journal)
    requires g.Valid() && Inv(g, first, s)
    ensures var t := Step(g, vm, s, Kjournald);
            && Inv(g, first, t)
            && t == if s.stopped || s.request == s.sequence then s
                    else if Admits(g, s, s.inoSync) then After(s, Others(s.running, s.inoSync)) else s.(stopped := true)
  {
    CommitInv(g, vm, first, s);
  }

  lemma AllWroteSnoc(g: Geometry, rounds: seq<Round>, log: seq<Txn>, r: Round, txn: Txn)
    requires AllWrote(g, rounds, log) && JournalSync.Wrote(g, r, txn)
    ensures AllWrote(g, rounds + [r], log + [txn])
  {
  }

  /** The commit of one round: it is stopped by missing credits or an open descriptor, or it writes the round's
      transaction. */
  method CommitRound(g: Geometry, r: Round, credits: int, time: (nat, nat))
    returns (committed: bool, txn: Txn, deferred: seq<Buffer>)
    requires g.Valid() && ValidBuffers(g, r.buffers) && ValidRecords(g, r.revokes)
    ensures committed <==> |r.buffers| <= credits && LeftOpen(g, r.buffers, r.sync) == 0
    ensures committed ==> JournalSync.Wrote(g, r, txn) && deferred == Others(r.buffers, r.sync)
  {
    committed, txn, deferred := CommitTransaction(g, r.revokes, r.buffers, credits, r.sync, time);
  }

  /** What that commit has written just before its commit block. */
  method Interrupted(g: Geometry, r: Round, credits: int, time: (nat, nat)) returns (torn: seq<LogUnit>)
    requires g.Valid() && ValidBuffers(g, r.buffers) && ValidRecords(g, r.revokes)
    ensures Uncommitted(torn) && forall i :: 0 <= i < |torn| ==> ValidUnit(g, torn[i])
    ensures RevokedBlocks(torn) == r.revokes
    ensures |r.buffers| <= credits && LeftOpen(g, r.buffers, r.sync) == 0 ==> Logged(torn) == Matching(r.buffers, r.sync)
  {
    var committed, deferred;
    committed, torn, deferred := CommitTransaction(g, r.revokes, r.buffers, credits, r.sync, time);
    if committed {
      var n := |torn| - 1;
      UnitsSnoc(torn[..n], torn[n]);
      assert torn[..n] + [torn[n]] == torn;
      torn := torn[..n];
    }
  }

  /** After the mount the disk has for block `b` what `d` says. */
  predicate Finds(fs: Disk, fs': Disk, b: nat, d: Durable) {
    if d.InLog? then b in fs' && fs'[b] == d.data else (b in fs' <==> b in fs) && (b in fs ==> fs'[b] == fs[b])
  }

  ghost predicate FindsAll(fs: Disk, fs': Disk, s: Journal) { forall b :: Finds(fs, fs', b, CellOf(s, b).durable) }

  lemma {:induction false} UnitsFit(units: seq<LogUnit>, i: nat)
    requires i < |units|
    ensures UnitSize(units[i]) <= Total(units)
  {
    if i > 0 { UnitsFit(units[1..], i - 1); }
  }

  lemma {:induction false} FlattenFrom(g: Geometry, rounds: seq<Round>, txns: seq<Txn>)
    requires AllWrote(g, rounds, txns)
    ensures AllComplete(txns) && forall i :: 0 <= i < |Flatten(txns)| ==> ValidUnit(g, Flatten(txns)[i])
  {
    if txns != [] {
      assert forall i :: 0 <= i < |txns[1..]| ==> JournalSync.Wrote(g, rounds[1..][i], txns[1..][i]);
      FlattenFrom(g, rounds[1..], txns[1..]);
      assert JournalSync.Wrote(g, rounds[0], txns[0]);
    }
  }

  lemma LogFits(g: Geometry, ring: Ring, rounds: seq<Round>, txns: seq<Txn>, torn: seq<LogUnit>)
    requires ring.Valid() && AllWrote(g, rounds, txns) && Total(Flatten(txns)) + Total(torn) < ring.Size()
    requires forall i :: 0 <= i < |torn| ==> ValidUnit(g, torn[i])
    ensures AllComplete(txns) && ValidUnits(g, ring, Flatten(txns)) && ValidUnits(g, ring, torn)
  {
    FlattenFrom(g, rounds, txns);
    forall i | 0 <= i < |torn| ensures UnitSize(torn[i]) <= ring.Size() { UnitsFit(torn, i); }
    var done := Flatten(txns);
    forall i | 0 <= i < |done| ensures UnitSize(done[i]) <= ring.Size() { UnitsFit(done, i); }
  }

  /** The journal after an fsync in state `s` has returned. */
  function Synced(g: Geometry, vm: set<nat>, s: Journal, ino: nat): Journal
    requires g.Valid()
  {
    if Waits(s, ino) then Step(g, vm, Step(g, vm, s, Fsync(ino)), Kjournald) else s
  }

  /** Blocks dirty in state `s` are on the disk exactly if an fsync of `ino` then reaches them, and else as before. */
  ghost predicate SurvivesIffReached(g: Geometry, vm: set<nat>, s: Journal, ino: nat, fs: Disk, fs': Disk)
    requires g.Valid()
  {
    forall b :: Find(s.running, b).Dirt? ==>
      Finds(fs, fs', b, if Reaches(g, vm, s, ino, b) then InLog(Find(s.running, b).data) else DurableAt(s.rounds, b))
  }

  lemma FsyncSurvives(g: Geometry, vm: set<nat>, first: nat, s: Journal, ino: nat, fs: Disk, fs': Disk)
    requires g.Valid() && Inv(g, first, s) && !s.stopped
    requires FindsAll(fs, fs', Synced(g, vm, s, ino))
    ensures SurvivesIffReached(g, vm, s, ino, fs, fs')
  {
    forall b: nat | Find(s.running, b).Dirt?
      ensures Finds(fs, fs', b, if Reaches(g, vm, s, ino, b) then InLog(Find(s.running, b).data) else DurableAt(s.rounds, b))
    {
      assert Finds(fs, fs', b, CellOf(Synced(g, vm, s, ino), b).durable);
      if Waits(s, ino) { FsyncDurableIff(g, vm, first, s, ino, [], b); }
    }
  }

  class VmJournal {
    const g: Geometry
    const vmInodes: seq<nat>
    var tid: nat
    var running: seq<Buffer>
    var credits: int
    var revokes: seq<nat>
    var inoSync: nat
    var request: nat
    var sequence: nat
    var syncTid: map<nat, nat>
    var stopped: bool
    var log: seq<Txn>
    ghost var rounds: seq<Round>

    ghost function State(): Journal
      reads this
    {
      Journal(tid, running, credits, revokes, inoSync, request, sequence, syncTid, rounds, stopped)
    }

    /** What the fields keep, whatever id the journal started with. */
    ghost predicate Valid(first: nat)
      reads this
    {
      g.Valid() && Inv(g, first, State()) && AllWrote(g, rounds, log)
    }

    ghost function Vm(): set<nat> { set i | 0 <= i < |vmInodes| :: vmInodes[i] }

    /** The journal after loading: all ids up to `first` are used up. */
    constructor (g: Geometry, vmInodes: seq<nat>, first: nat)
      requires g.Valid() && first < TIDS
      ensures Valid(first) && State() == Loaded(first) && log == []
      ensures this.g == g && this.vmInodes == vmInodes
    {
      this.g, this.vmInodes := g, vmInodes;
      tid, running, credits, revokes, inoSync := Tid(first, 0), [], 0, [], 0;
      request, sequence := Tid(first, TIDS - 1), Tid(first, TIDS - 1);
      syncTid, stopped, log, rounds := map[], false, [], [];
      new;
      LoadedInv(g, first);
    }

    /** `ext4_update_inode_fsync_trans`. */
    method UpdateInodeFsyncTrans(ino: nat, ghost first: nat)
      requires Valid(first)
      modifies this`syncTid
      ensures Valid(first) && State() == Step(g, Vm(), old(State()), Touch(ino))
    {
      if !stopped { syncTid := syncTid[ino := tid]; }
    }

    /** `jbd2_journal_dirty_metadata`: a buffer of the running transaction keeps its inode, another one is filed for
        `ino` and takes a credit; a pending revoke of the block is cancelled. */
    method DirtyMetadata(ino: nat, w: Write, ghost first: nat)
      requires Valid(first) && ValidWrite(g, w)
      modifies this`running, this`credits, this`revokes
      ensures Valid(first) && State() == Step(g, Vm(), old(State()), Dirty(ino, w))
    {
      if stopped { return; }
      DirtyInv(g, Vm(), first, State(), ino, w);
      if Find(running, w.blocknr).Clean? {
        SetLists(running + [Buffer(ino, w)], credits + 1, Remove(revokes, w.blocknr));
      } else {
        SetLists(Rewrite(running, w), credits, Remove(revokes, w.blocknr));
      }
    }

    method SetLists(running': seq<Buffer>, credits': int, revokes': seq<nat>)
      modifies this`running, this`credits, this`revokes
      ensures State() == old(State()).(running := running', credits := credits', revokes := revokes')
    {
      running, credits, revokes := running', credits', revokes';
    }

    /** `jbd2_journal_revoke`: the block is forgotten, its credit is given back, and its revoke is recorded once. */
    method Revoke(b: nat, ghost first: nat)
      requires Valid(first) && b < g.MaxBlockNr()
      modifies this`running, this`credits, this`revokes
      ensures Valid(first) && State() == Step(g, Vm(), old(State()), Forget(b))
    {
      if stopped { return; }
      ForgetInv(g, Vm(), first, State(), b);
      var listed := Find(running, b).Dirt?;
      SetLists(Unfile(running, b), if listed then credits - 1 else credits, if b in revokes then revokes else revokes + [b]);
    }

    /** `__jbd2_log_start_commit`. A pending request and its inode stay; a new one is for the running id. */
    method LogStartCommit(target: nat, ino: nat, ghost first: nat)
      requires Valid(first)
      modifies this`request, this`inoSync
      ensures Valid(first)
      ensures old(request) == tid || target != tid ==> State() == old(State())
      ensures target == tid ==> request == tid && (old(request) == sequence ==> inoSync == ino)
    {
      if request == target { return; }
      if tid == target {
        request := target;
        inoSync := ino;
      }
    }

    /** `is_vm_commit`. */
    method IsVmCommit(ino: nat) returns (found: bool)
      ensures found <==> ino in Vm()
    {
      for i := 0 to |vmInodes|
        invariant forall k :: 0 <= k < i ==> vmInodes[k] != ino
      {
        if vmInodes[i] == ino { return true; }
      }
      return false;
    }

    /** One turn of `kjournald2`: commit the running transaction if that is requested. */
    method Kjournald(time: (nat, nat), ghost first: nat)
      requires Valid(first)
      modifies this`tid, this`running, this`credits, this`revokes, this`inoSync, this`sequence, this`rounds, this`log, this`stopped
      ensures Valid(first) && State() == Step(g, Vm(), old(State()), JournalSync.Kjournald)
    {
      ghost var s := State();
      KjournaldStep(g, Vm(), first, s);
      if stopped || request == sequence { return; }
      ghost var r := Round(inoSync, running, revokes);
      var committed, txn, deferred := CommitRound(g, Round(inoSync, running, revokes), credits, time);
      if !committed {
        stopped := true;
        return;
      }
      AllWroteSnoc(g, rounds, log, r, txn);
      NextTransaction(txn, deferred);
    }

    /** The end of a commit: the log has one more transaction, and the next one runs with the passed-over buffers. */
    method NextTransaction(txn: Txn, deferred: seq<Buffer>)
      requires !stopped
      modifies this`tid, this`running, this`credits, this`revokes, this`inoSync, this`sequence, this`rounds, this`log
      ensures State() == After(old(State()), deferred) && log == old(log) + [txn]
    {
      log, rounds := log + [txn], rounds + [Round(inoSync, running, revokes)];
      tid, sequence := Tid(tid, 1), tid;
      running, credits, revokes, inoSync := deferred, 0, [], 0;
    }

    /** `jbd2_complete_transaction` with `jbd2_log_wait_commit`. Returns false if the journal stopped. */
    method CompleteTransaction(target: nat, ino: nat, time: (nat, nat), ghost first: nat) returns (ok: bool)
      requires Valid(first) && !stopped
      modifies this
      ensures Valid(first) && ok == !stopped && syncTid == old(syncTid)
      ensures State() == if target != old(tid) then old(State())
                         else Step(g, Vm(), StartCommit(old(State()), target, ino), JournalSync.Kjournald)
    {
      if tid == target {
        if request != target { LogStartCommit(target, ino, first); }
      } else {
        return true;
      }
      Kjournald(time, first);
      ok := !stopped;
    }

    /** `ext4_sync_file`. */
    method SyncFile(ino: nat, time: (nat, nat), ghost first: nat) returns (ok: bool)
      requires Valid(first) && ino in syncTid
      modifies this
      ensures Valid(first) && ok == !stopped && syncTid == old(syncTid)
      ensures State() == if old(syncTid)[ino] != old(tid) then old(State())
                         else Step(g, Vm(), Step(g, Vm(), old(State()), Fsync(ino)), JournalSync.Kjournald)
    {
      if stopped { return false; }
      var isVm := IsVmCommit(ino);
      ok := CompleteTransaction(syncTid[ino], if isVm then ino else 0, time, first);
    }

    /** The power fails, now or during the commit of the running transaction before its commit block is written: of
        the `torn` blocks that commit adds, only those `keep` selects survive. The next mount finds every block as
        the commits so far have left it. */
    method PowerLoss(uuid: Block, ring: Ring, disk: array<Block>, head: nat, first: nat, ghost age: nat,
                     fs: Disk, time: (nat, nat), keep: nat -> bool)
      returns (torn: seq<LogUnit>, fits: bool, fs': Disk)
      requires Valid(first) && first < TIDS && |log| < HALF && age + |log| < TIDS
      requires |uuid| == UUID_WORDS && ring.Valid() && ring.first <= head < ring.last <= disk.Length
      requires StaleLog(g, uuid, disk[..], first, age)
      modifies disk
      ensures Uncommitted(torn) && RevokedBlocks(torn) == revokes
      ensures Admits(g, State(), inoSync) ==> Logged(torn) == Matching(running, inoSync)
      ensures fits <==> Total(Flatten(log)) + Total(torn) < ring.Size()
      ensures fits ==> fs' == fs + Overlay(log)
      ensures fits ==> FindsAll(fs, fs', State())
    {
      torn := Interrupted(g, Round(inoSync, running, revokes), credits, time);
      fits, fs' := Total(Flatten(log)) + Total(torn) < ring.Size(), fs;
      if fits {
        LogFits(g, ring, rounds, log, torn);
        var next;
        fs', next := CrashAndMount(g, uuid, ring, disk, head, first, age, fs, log, torn, keep);
        forall b ensures Finds(fs, fs', b, DurableAt(rounds, b)) { OverlayShows(g, rounds, log, b); }
      }
    }

    /** An fsync, then a power failure at any point of the next commit, then a mount: a block that was dirty at the
        call is found with that content exactly when the awaited commit reaches it, and else as it was before. */
    method SyncThenPowerLoss(ino: nat, uuid: Block, ring: Ring, disk: array<Block>, head: nat, first: nat, ghost age: nat,
                             fs: Disk, time: (nat, nat), keep: nat -> bool)
      returns (fits: bool, fs': Disk)
      requires Valid(first) && !stopped && ino in syncTid
      requires first < TIDS && |log| + 1 < HALF && age + |log| + 1 < TIDS
      requires |uuid| == UUID_WORDS && ring.Valid() && ring.first <= head < ring.last <= disk.Length
      requires StaleLog(g, uuid, disk[..], first, age)
      modifies this, disk
      ensures fits ==> SurvivesIffReached(g, Vm(), old(State()), ino, fs, fs')
    {
      ghost var s := State();
      var ok := SyncFile(ino, time, first);
      assert State() == Synced(g, Vm(), s, ino) && |log| <= |s.rounds| + 1;
      ghost var synced := State();
      var torn;
      torn, fits, fs' := PowerLoss(uuid, ring, disk, head, first, age, fs, time, keep);
      assert State() == synced;
      if fits { FsyncSurvives(g, Vm(), first, s, ino, fs, fs'); }
    }
  }
}
