/** What an fsync promises: which of an inode's blocks are in the log when it returns. */
module JournalFsync {
  import opened JournalFormat
  import opened JournalRecovery
  import opened JournalCommit
  import opened JournalSync

  // ---------- what a call decides ----------

  /** The inode was last read in, created or changed in the running transaction; else the call returns at once. */
  predicate Waits(s: Journal, ino: nat) { ino in s.syncTid && s.syncTid[ino] == s.tid }

  /** The inode whose buffers the awaited commit will log: that of the first request. */
  function Serves(vm: set<nat>, s: Journal, ino: nat): nat { if s.request == s.tid then s.inoSync else SyncIno(vm, ino) }

  predicate NoCommit(es: seq<Event>) { forall i :: 0 <= i < |es| ==> !es[i].Kjournald? }

  predicate Names(e: Event, b: nat) {
    (e.Dirty? && e.write.blocknr == b) || (e.Forget? && e.blocknr == b)
  }

  predicate Mentions(es: seq<Event>, b: nat) {
    exists i :: 0 <= i < |es| && Names(es[i], b)
  }

  /** Nothing but the commit itself takes back a request or changes the inode it is for. */
  lemma {:induction false} RequestSticks(g: Geometry, vm: set<nat>, first: nat, s: Journal, es: seq<Event>, b: nat)
    requires g.Valid() && Inv(g, first, s) && ValidEvents(g, es) && !s.stopped && s.request == s.tid && NoCommit(es)
    ensures var t := Run(g, vm, s, es);
            && !t.stopped && t.tid == t.request == s.tid && t.inoSync == s.inoSync
            && t.sequence == s.sequence && t.rounds == s.rounds
            && (!Mentions(es, b) ==> CellOf(t, b) == CellOf(s, b))
  {
    if es != [] {
      var front, e := es[..|es| - 1], es[|es| - 1];
      RequestSticks(g, vm, first, s, front, b);
      RunInv(g, vm, first, s, front);
      StepCell(g, vm, first, Run(g, vm, s, front), e, b);
      if Mentions(front, b) {
        var i :| 0 <= i < |front| && Names(front[i], b);
        assert es[i] == front[i];
      }
    }
  }

  /** Whatever else happens before the commit, a block dirty at the time of the call is logged by the commit the
      call waits for exactly when the block's inode is the one that commit serves, the last commit passed nothing over
      and no descriptor is left open; otherwise the block stays as it was. */
  lemma FsyncDurableIff(g: Geometry, vm: set<nat>, first: nat, s: Journal, ino: nat, es: seq<Event>, b: nat)
    requires g.Valid() && Inv(g, first, s) && ValidEvents(g, es) && !s.stopped && NoCommit(es) && !Mentions(es, b)
    requires Waits(s, ino) && CellOf(s, b).dirt.Dirt?
    ensures var was, t, k := CellOf(s, b), Run(g, vm, Step(g, vm, s, Fsync(ino)), es), Serves(vm, s, ino);
            CellOf(Step(g, vm, t, Kjournald), b)
            == if was.dirt.ino == k && |s.running| <= s.credits && LeftOpen(g, t.running, k) == 0
               then Cell(Clean, false, InLog(was.dirt.data)) else was
  {
    var s1 := Step(g, vm, s, Fsync(ino));
    AfterRequest(g, vm, first, s, ino);
    RequestSticks(g, vm, first, s1, es, b);
    RunInv(g, vm, first, s1, es);
    AwaitedCommit(g, vm, first, Run(g, vm, s1, es), b);
  }

  lemma AfterRequest(g: Geometry, vm: set<nat>, first: nat, s: Journal, ino: nat)
    requires g.Valid() && Inv(g, first, s) && !s.stopped && Waits(s, ino)
    ensures var t := Step(g, vm, s, Fsync(ino));
            && Inv(g, first, t) && !t.stopped && t.request == t.tid && t.inoSync == Serves(vm, s, ino)
            && t.running == s.running && t.credits == s.credits && t.revokes == s.revokes && t.rounds == s.rounds
  {
    StepInv(g, vm, first, s, Fsync(ino));
  }

  lemma AwaitedCommit(g: Geometry, vm: set<nat>, first: nat, t: Journal, b: nat)
    requires g.Valid() && Inv(g, first, t) && !t.stopped && t.request == t.tid && CellOf(t, b).dirt.Dirt?
    ensures var was := CellOf(t, b);
            CellOf(Step(g, vm, t, Kjournald), b)
            == if was.dirt.ino == t.inoSync && PassedOver(t.rounds) == 0 && LeftOpen(g, t.running, t.inoSync) == 0
               then Cell(Clean, false, InLog(was.dirt.data)) else was
  {
    CommitCell(g, vm, first, t, b);
  }

  // ---------- the promise ----------

  /** Inode `ino` has given block `b` content that no commit has logged since and no call has freed. */
  predicate Owes(acts: seq<Act>, b: nat, ino: nat) {
    acts != [] &&
    var front, a := acts[..|acts| - 1], acts[|acts| - 1];
    if a.Put? && a.write.blocknr == b then a.ino == ino || Owes(front, b, ino)
    else CellRun(Cell(Clean, false, InPlace), b, acts).dirt.Dirt? && Owes(front, b, ino)
  }

  lemma OwesSnoc(acts: seq<Act>, a: Act, b: nat, ino: nat)
    requires a.NoAct? || a.CommitFor?
    ensures var c := CellRun(Cell(Clean, false, InPlace), b, acts + [a]);
            c == CellStep(CellRun(Cell(Clean, false, InPlace), b, acts), b, a)
            && (Owes(acts + [a], b, ino) <==> Owes(acts, b, ino) && c.dirt.Dirt?)
  {
    assert (acts + [a])[..|acts|] == acts;
  }

  lemma OwesDirty(acts: seq<Act>, b: nat, ino: nat)
    ensures Owes(acts, b, ino) ==> CellRun(Cell(Clean, false, InPlace), b, acts).dirt.Dirt?
  {
  }

  /** The events of an fsync: it waits for the commit it needs, or returns. */
  function FsyncEvents(s: Journal, ino: nat): seq<Event> {
    if Waits(s, ino) then [Fsync(ino), Kjournald] else [Fsync(ino)]
  }

  /** The commit an fsync waits for logs block `b`. */
  predicate Reaches(g: Geometry, vm: set<nat>, s: Journal, ino: nat, b: nat)
    requires g.Valid()
  {
    && Waits(s, ino) && Admits(g, s, Serves(vm, s, ino))
    && Find(s.running, b).Dirt? && Find(s.running, b).ino == Serves(vm, s, ino)
  }

  lemma FsyncActs(g: Geometry, vm: set<nat>, first: nat, s: Journal, ino: nat)
    requires g.Valid() && Inv(g, first, s) && !s.stopped && Waits(s, ino)
    ensures ActOf(g, Step(g, vm, s, Fsync(ino)), Kjournald)
         == if Admits(g, s, Serves(vm, s, ino)) then CommitFor(Serves(vm, s, ino)) else NoAct
  {
  }

  lemma FsyncActsOf(g: Geometry, vm: set<nat>, first: nat, s0: Journal, es: seq<Event>, ino: nat)
    requires g.Valid() && Inv(g, first, Run(g, vm, s0, es)) && !Run(g, vm, s0, es).stopped
    ensures var s, acts, k := Run(g, vm, s0, es), ActsOf(g, vm, s0, es), Serves(vm, Run(g, vm, s0, es), ino);
            ActsOf(g, vm, s0, es + FsyncEvents(s, ino))
            == if !Waits(s, ino) then acts + [NoAct]
               else acts + [NoAct] + [if Admits(g, s, k) then CommitFor(k) else NoAct]
  {
    var s := Run(g, vm, s0, es);
    RunSnoc(g, vm, s0, es, Fsync(ino));
    if Waits(s, ino) {
      FsyncActs(g, vm, first, s, ino);
      RunSnoc(g, vm, s0, es + [Fsync(ino)], Kjournald);
      assert es + FsyncEvents(s, ino) == es + [Fsync(ino)] + [Kjournald];
    }
  }

  /** After any run, an fsync settles what the inode owes a block exactly when the commit it waits for logs the block. */
  lemma FsyncSettlesIff(g: Geometry, vm: set<nat>, first: nat, es: seq<Event>, ino: nat, b: nat)
    requires g.Valid() && first < TIDS && ValidEvents(g, es) && !Run(g, vm, Loaded(first), es).stopped
    ensures var s0, s := Loaded(first), Run(g, vm, Loaded(first), es);
            Owes(ActsOf(g, vm, s0, es + FsyncEvents(s, ino)), b, ino)
            <==> Owes(ActsOf(g, vm, s0, es), b, ino) && !Reaches(g, vm, s, ino, b)
  {
    var s0, s, acts := Loaded(first), Run(g, vm, Loaded(first), es), ActsOf(g, vm, Loaded(first), es);
    LoadedInv(g, first);
    RunInv(g, vm, first, s0, es);
    RunIsCells(g, vm, first, s0, es, b);
    assert CellOf(s0, b) == Cell(Clean, false, InPlace);
    FsyncActsOf(g, vm, first, s0, es, ino);
    OwesSnoc(acts, NoAct, b, ino);
    if Waits(s, ino) {
      var k := Serves(vm, s, ino);
      OwesSnoc(acts + [NoAct], if Admits(g, s, k) then CommitFor(k) else NoAct, b, ino);
    }
    OwesDirty(acts, b, ino);
  }

  /** An fsync leaves nothing of what the inode wrote before the call unlogged if and only if every block the inode
      still owes is logged by the commit it waits for. */
  lemma FsyncKeepsPromiseIff(g: Geometry, vm: set<nat>, first: nat, es: seq<Event>, ino: nat)
    requires g.Valid() && first < TIDS && ValidEvents(g, es) && !Run(g, vm, Loaded(first), es).stopped
    ensures var s0, s := Loaded(first), Run(g, vm, Loaded(first), es);
            (forall b :: !Owes(ActsOf(g, vm, s0, es + FsyncEvents(s, ino)), b, ino))
            <==> (forall b :: Owes(ActsOf(g, vm, s0, es), b, ino) ==> Reaches(g, vm, s, ino, b))
  {
    var s := Run(g, vm, Loaded(first), es);
    var before, after := ActsOf(g, vm, Loaded(first), es), ActsOf(g, vm, Loaded(first), es + FsyncEvents(s, ino));
    if forall b :: !Owes(after, b, ino) {
      forall b | Owes(before, b, ino) ensures Reaches(g, vm, s, ino, b) {
        FsyncSettlesIff(g, vm, first, es, ino, b);
        assert !Owes(after, b, ino);
      }
    } else {
      var b :| Owes(after, b, ino);
      FsyncSettlesIff(g, vm, first, es, ino, b);
    }
  }

  // ---------- who waits ----------

  /** How many commits there had been when the inode was last read in, created or changed; -1 if it never was. */
  function LastTouch(g: Geometry, vm: set<nat>, s: Journal, es: seq<Event>, ino: nat): int
    requires g.Valid()
  {
    if es == [] then -1
    else
      var front, e := es[..|es| - 1], es[|es| - 1];
      var t := Run(g, vm, s, front);
      if e == Touch(ino) && !t.stopped then |t.rounds| else LastTouch(g, vm, s, front, ino)
  }

  /** An inode keeps the id the running transaction had when it was last read in, created or changed. */
  lemma {:induction false} SyncTidIsLastTouch(g: Geometry, vm: set<nat>, first: nat, es: seq<Event>, ino: nat)
    requires g.Valid() && first < TIDS && ValidEvents(g, es)
    ensures var s, n := Run(g, vm, Loaded(first), es), LastTouch(g, vm, Loaded(first), es, ino);
            n <= |s.rounds| && (n >= 0 <==> ino in s.syncTid) && (n >= 0 ==> s.syncTid[ino] == Tid(first, n))
  {
    if es != [] {
      var s0, front := Loaded(first), es[..|es| - 1];
      SyncTidIsLastTouch(g, vm, first, front, ino);
      LoadedInv(g, first);
      RunInv(g, vm, first, s0, front);
      TouchStep(g, vm, first, Run(g, vm, s0, front), es[|es| - 1], ino);
    }
  }

  lemma TouchStep(g: Geometry, vm: set<nat>, first: nat, s: Journal, e: Event, ino: nat)
    requires g.Valid() && Inv(g, first, s)
    ensures var t := Step(g, vm, s, e);
            && |s.rounds| <= |t.rounds|
            && if e == Touch(ino) && !s.stopped then ino in t.syncTid && t.syncTid[ino] == Tid(first, |s.rounds|)
               else (ino in t.syncTid <==> ino in s.syncTid) && (ino in s.syncTid ==> t.syncTid[ino] == s.syncTid[ino])
  {
  }

  /** An fsync waits exactly when no commit has come since the inode was last read in, created or changed, counted
      modulo 2^32. */
  lemma WaitsIffTouched(g: Geometry, vm: set<nat>, first: nat, es: seq<Event>, ino: nat)
    requires g.Valid() && first < TIDS && ValidEvents(g, es)
    ensures var s, n := Run(g, vm, Loaded(first), es), LastTouch(g, vm, Loaded(first), es, ino);
            n <= |s.rounds| && (Waits(s, ino) <==> n >= 0 && (|s.rounds| - n) % TIDS == 0)
  {
    var s0 := Loaded(first);
    LoadedInv(g, first);
    RunInv(g, vm, first, s0, es);
    SyncTidIsLastTouch(g, vm, first, es, ino);
    SameTid(first, |Run(g, vm, s0, es).rounds|, LastTouch(g, vm, s0, es, ino));
  }

  lemma SameTid(first: nat, m: nat, n: int)
    ensures n >= 0 ==> (Tid(first, m) == Tid(first, n) <==> (m - n) % TIDS == 0)
  {
  }

  /** A commit ends the wait of every inode read in, created or changed before it, whether or not it logged that inode's buffers. */
  lemma CommitEndsWaits(g: Geometry, vm: set<nat>, s: Journal, ino: nat)
    requires g.Valid() && s.tid < TIDS && WillCommit(g, s) && Waits(s, ino)
    ensures var t := Step(g, vm, s, Kjournald); !Waits(t, ino) && Step(g, vm, t, Fsync(ino)) == t
  {
  }

  // ---------- four calls that return without their data in the log ----------

  ghost predicate Ready(g: Geometry, first: nat, s: Journal)
    requires g.Valid()
  {
    Inv(g, first, s) && !s.stopped
  }

  /** Inode `j`'s dirty block is passed over by the commit for `i`; an fsync of `j` after it asks for nothing. */
  lemma FsyncAfterPassedOver(g: Geometry, vm: set<nat>, first: nat, s: Journal, i: nat, j: nat, b: nat)
    requires g.Valid() && Ready(g, first, s) && i in vm && i != j
    requires s.request == s.sequence && Admits(g, s, i)
    requires Waits(s, i) && Waits(s, j) && Find(s.running, b).Dirt? && Find(s.running, b).ino == j
    ensures var t := Step(g, vm, Step(g, vm, s, Fsync(i)), Kjournald);
            !t.stopped && t.request == t.sequence && CellOf(t, b) == CellOf(s, b) && Step(g, vm, t, Fsync(j)) == t
  {
    var s1 := Step(g, vm, s, Fsync(i));
    StepCell(g, vm, first, s1, Kjournald, b);
    CommitEndsWaits(g, vm, s1, j);
  }

  /** An inode that is not listed asks for a commit that logs none of its blocks. */
  lemma FsyncNotListed(g: Geometry, vm: set<nat>, first: nat, s: Journal, j: nat, b: nat)
    requires g.Valid() && Ready(g, first, s) && j !in vm && j != 0
    requires s.request == s.sequence && Admits(g, s, 0)
    requires Waits(s, j) && Find(s.running, b).Dirt? && Find(s.running, b).ino == j
    ensures var t := Step(g, vm, Step(g, vm, s, Fsync(j)), Kjournald); !t.stopped && CellOf(t, b) == CellOf(s, b)
  {
    PassesOver(g, vm, first, s, j, b);
  }

  /** An fsync that finds the commit requested for another inode waits for that one. */
  lemma FsyncAfterRequest(g: Geometry, vm: set<nat>, first: nat, s: Journal, j: nat, b: nat)
    requires g.Valid() && Ready(g, first, s)
    requires s.request == s.tid && s.inoSync != j && Admits(g, s, s.inoSync)
    requires Waits(s, j) && Find(s.running, b).Dirt? && Find(s.running, b).ino == j
    ensures var t := Step(g, vm, Step(g, vm, s, Fsync(j)), Kjournald); !t.stopped && CellOf(t, b) == CellOf(s, b)
  {
    PassesOver(g, vm, first, s, j, b);
  }

  /** A block that another inode dirtied first is not logged by the fsync of the inode that changed it last. */
  lemma FsyncOfSecondWriter(g: Geometry, vm: set<nat>, first: nat, s: Journal, j: nat, w: Write)
    requires g.Valid() && Ready(g, first, s) && ValidWrite(g, w) && j in vm && s.request == s.sequence && Waits(s, j)
    requires Find(s.running, w.blocknr).Dirt? && Find(s.running, w.blocknr).ino != j
    requires |s.running| <= s.credits && LeftOpen(g, File(s.running, j, w), j) == 0
    ensures var t := Step(g, vm, Step(g, vm, Step(g, vm, s, Dirty(j, w)), Fsync(j)), Kjournald);
            && !t.stopped
            && CellOf(t, w.blocknr) == CellOf(s, w.blocknr).(dirt := Dirt(Find(s.running, w.blocknr).ino, w.data))
  {
    var s1 := Step(g, vm, s, Dirty(j, w));
    DirtyInv(g, vm, first, s, j, w);
    StepCell(g, vm, first, s, Dirty(j, w), w.blocknr);
    PassesOver(g, vm, first, s1, j, w.blocknr);
  }

  /** An fsync whose commit serves another inode than the block's. */
  lemma PassesOver(g: Geometry, vm: set<nat>, first: nat, s: Journal, j: nat, b: nat)
    requires g.Valid() && Ready(g, first, s) && Waits(s, j) && Find(s.running, b).Dirt?
    requires Find(s.running, b).ino != Serves(vm, s, j) && Admits(g, s, Serves(vm, s, j))
    ensures var t := Step(g, vm, Step(g, vm, s, Fsync(j)), Kjournald); !t.stopped && CellOf(t, b) == CellOf(s, b)
  {
    FsyncActs(g, vm, first, s, j);
    FsyncDurableIff(g, vm, first, s, j, [], b);
  }

  /** After a commit that passed a buffer over, an fsync that waits stops the journal and logs nothing. */
  lemma FsyncAfterPassOverStops(g: Geometry, vm: set<nat>, first: nat, s: Journal, j: nat, b: nat)
    requires g.Valid() && Ready(g, first, s) && PassedOver(s.rounds) > 0 && Waits(s, j)
    ensures var t := Step(g, vm, Step(g, vm, s, Fsync(j)), Kjournald); t.stopped && CellOf(t, b) == CellOf(s, b)
  {
    AfterRequest(g, vm, first, s, j);
  }

  /** Two inodes, 1 and 2, with a dirty block each, 2's filed first. */
  function TwoDirty(first: nat, w1: Write, w2: Write): Journal {
    var s := Loaded(first);
    s.(running := [Buffer(2, w2), Buffer(1, w1)], credits := 2, syncTid := map[1 := s.tid, 2 := s.tid])
  }

  lemma RunFour(g: Geometry, vm: set<nat>, s: Journal, e1: Event, e2: Event, e3: Event, e4: Event)
    requires g.Valid()
    ensures Run(g, vm, s, [e1, e2, e3, e4]) == Step(g, vm, Step(g, vm, Step(g, vm, Step(g, vm, s, e1), e2), e3), e4)
  {
    assert [e1] + [e2] == [e1, e2] && [e1, e2] + [e3] == [e1, e2, e3] && [e1, e2, e3] + [e4] == [e1, e2, e3, e4];
    RunSnoc(g, vm, s, [e1], e2);
    RunSnoc(g, vm, s, [e1, e2], e3);
    RunSnoc(g, vm, s, [e1, e2, e3], e4);
  }

  lemma TwoDirtyReached(g: Geometry, vm: set<nat>, first: nat, w1: Write, w2: Write)
    requires g.Valid() && w1.blocknr != w2.blocknr
    ensures Run(g, vm, Loaded(first), [Touch(1), Touch(2), Dirty(2, w2), Dirty(1, w1)]) == TwoDirty(first, w1, w2)
  {
    var s := Loaded(first);
    var s2 := s.(syncTid := map[1 := s.tid, 2 := s.tid]);
    FindSnoc([], Buffer(2, w2), w1.blocknr);
    assert [] + [Buffer(2, w2)] == [Buffer(2, w2)];
    assert Step(g, vm, s2, Dirty(2, w2)) == s2.(running := [Buffer(2, w2)], credits := 1);
    RunFour(g, vm, s, Touch(1), Touch(2), Dirty(2, w2), Dirty(1, w1));
  }

  lemma TwoDirtyLists(g: Geometry, w1: Write, w2: Write)
    requires g.Valid() && ValidWrite(g, w1) && ValidWrite(g, w2) && w1.blocknr != w2.blocknr
    ensures var bs := [Buffer(2, w2), Buffer(1, w1)];
            && Distinct(bs) && Find(bs, w2.blocknr) == Dirt(2, w2.data) && ValidBuffers(g, bs)
            && LeftOpen(g, bs, 1) == 0 == LeftOpen(g, bs, 0)
  {
    var a, c := Buffer(2, w2), Buffer(1, w1);
    assert [a] + [c] == [a, c] && [] + [a] == [a];
    FindSnoc([a], c, w2.blocknr);
    FindSnoc([], a, w2.blocknr);
    FindSnoc([], a, w1.blocknr);
    assert Matching([a, c], 0) == [] by { assert [a, c][..1] == [a] && Matching([a], 0) == []; }
  }

  lemma TwoDirtyReady(g: Geometry, first: nat, w1: Write, w2: Write)
    requires g.Valid() && first < TIDS && ValidWrite(g, w1) && ValidWrite(g, w2) && w1.blocknr != w2.blocknr
    ensures var s := TwoDirty(first, w1, w2);
            && Ready(g, first, s) && s.request == s.sequence && Waits(s, 1) && Waits(s, 2)
            && Admits(g, s, 1) && Admits(g, s, 0)
            && Find(s.running, w2.blocknr) == Dirt(2, w2.data) && DurableAt(s.rounds, w2.blocknr) == InPlace
  {
    LoadedInv(g, first);
    TwoDirtyLists(g, w1, w2);
  }

  /** From the same four calls: inode 2's block after an fsync of 1 and one of 2; after an fsync of 2 when only 1 is
      listed; after an fsync of 2 while the commit for 1 is pending; and after inode 1 changes it and calls fsync. */
  lemma FsyncLeavesUnlogged(g: Geometry, first: nat, w1: Write, w2: Write, v: Write)
    requires g.Valid() && first < TIDS && ValidWrite(g, w1) && ValidWrite(g, w2) && ValidWrite(g, v)
    requires w1.blocknr != w2.blocknr == v.blocknr
    ensures var s, b := TwoDirty(first, w1, w2), w2.blocknr;
            && Unlogged(Do3(g, {1, 2}, s, Fsync(1), Kjournald, Fsync(2)), b, w2.data)
            && Unlogged(Do3(g, {1}, s, Fsync(2), Kjournald, Fsync(2)), b, w2.data)
            && Unlogged(Do3(g, {1, 2}, s, Fsync(1), Fsync(2), Kjournald), b, w2.data)
            && Unlogged(Do3(g, {1, 2}, s, Dirty(1, v), Fsync(1), Kjournald), b, v.data)
  {
    var s, b := TwoDirty(first, w1, w2), w2.blocknr;
    TwoDirtyReady(g, first, w1, w2);
    FsyncAfterPassedOver(g, {1, 2}, first, s, 1, 2, b);
    FsyncNotListed(g, {1}, first, s, 2, b);
    StepInv(g, {1, 2}, first, s, Fsync(1));
    FsyncAfterRequest(g, {1, 2}, first, Step(g, {1, 2}, s, Fsync(1)), 2, b);
    FsyncOfSecondWriter(g, {1, 2}, first, s, 1, v);
  }

  /** And after an fsync of 1, a change of inode 2 and an fsync of 2: the inode waits, its block is the only one on the
      list, and the second commit stops. */
  lemma SecondCommitStops(g: Geometry, first: nat, w1: Write, w2: Write)
    requires g.Valid() && first < TIDS && ValidWrite(g, w1) && ValidWrite(g, w2) && w1.blocknr != w2.blocknr
    ensures var s, b := TwoDirty(first, w1, w2), w2.blocknr;
            var u := Do3(g, {1, 2}, s, Fsync(1), Kjournald, Touch(2));
            var t := Step(g, {1, 2}, Step(g, {1, 2}, u, Fsync(2)), Kjournald);
            && !u.stopped && Waits(u, 2) && Find(u.running, b) == Dirt(2, w2.data) && Serves({1, 2}, u, 2) == 2
            && t.stopped && Find(t.running, b) == Dirt(2, w2.data) && DurableAt(t.rounds, b) == InPlace
  {
    var s, b := TwoDirty(first, w1, w2), w2.blocknr;
    TwoDirtyReady(g, first, w1, w2);
    FsyncAfterPassedOver(g, {1, 2}, first, s, 1, 2, b);
    var s1 := Step(g, {1, 2}, s, Fsync(1));
    StepInv(g, {1, 2}, first, s, Fsync(1));
    CommitInv(g, {1, 2}, first, s1);
    var s2 := Step(g, {1, 2}, s1, Kjournald);
    StepInv(g, {1, 2}, first, s2, Touch(2));
    assert s2.running != [] && s2.credits == 0;
    FsyncAfterPassOverStops(g, {1, 2}, first, Step(g, {1, 2}, s2, Touch(2)), 2, b);
  }

  function Do3(g: Geometry, vm: set<nat>, s: Journal, e1: Event, e2: Event, e3: Event): Journal
    requires g.Valid()
  {
    Step(g, vm, Step(g, vm, Step(g, vm, s, e1), e2), e3)
  }

  /** The journal runs on, and block `b` has the content only in memory. */
  predicate Unlogged(s: Journal, b: nat, data: Block) {
    !s.stopped && Find(s.running, b).Dirt? && Find(s.running, b).data == data && DurableAt(s.rounds, b) == InPlace
  }
}
