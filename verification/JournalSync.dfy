/** A journal at work: blocks are dirtied and freed, commits for one inode or another write the log, the power
    fails, and the next mount reads the log back. The reference is a small automaton for one block alone. */
module JournalSync {
  import opened JournalFormat
  import opened JournalRecovery
  import opened JournalTheorem
  import opened JournalCommit

  // ---------- the reference: one block on its own ----------

  /** The newest content of a block that no commit has logged yet, and the inode whose commit will. */
  datatype Dirt = Clean | Dirt(ino: nat, data: Block)

  /** What a mount would find: the block as it is in place, or a newer copy from the log. */
  datatype Durable = InPlace | InLog(data: Block)

  datatype Cell = Cell(dirt: Dirt, revoked: bool, durable: Durable)

  datatype Act = NoAct | Put(ino: nat, write: Write) | Free(blocknr: nat) | CommitFor(ino: nat)

  /** A block keeps the inode that dirtied it first. Only a commit for that inode logs it; any commit makes a
      pending revoke final. */
  function CellStep(c: Cell, b: nat, act: Act): Cell {
    match act
    case NoAct => c
    case Put(ino, w) =>
      if w.blocknr != b then c else c.(dirt := Dirt(if c.dirt.Dirt? then c.dirt.ino else ino, w.data), revoked := false)
    case Free(blocknr) => if blocknr != b then c else c.(dirt := Clean, revoked := true)
    case CommitFor(ino) =>
      if c.revoked then c.(revoked := false, durable := InPlace)
      else if c.dirt.Dirt? && c.dirt.ino == ino then c.(dirt := Clean, durable := InLog(c.dirt.data))
      else c
  }

  function CellRun(c: Cell, b: nat, acts: seq<Act>): Cell {
    if acts == [] then c else CellStep(CellRun(c, b, acts[..|acts| - 1]), b, acts[|acts| - 1])
  }

  // ---------- the journal ----------

  /** A commit: for which inode, of which buffers, with which revoke records. */
  datatype Round = Round(sync: nat, buffers: seq<Buffer>, revokes: seq<nat>)

  /** The running transaction with its buffers, the credits its handles have used, its revoke records and requested
      inode; the last requested and the last committed id; per inode the transaction it was last read in, created
      or changed in; and the commits so far. A commit that runs into an assertion stops the journal. */
  datatype Journal = Journal(tid: nat, running: seq<Buffer>, credits: int, revokes: seq<nat>, inoSync: nat,
                             request: nat, sequence: nat, syncTid: map<nat, nat>, rounds: seq<Round>, stopped: bool)

  datatype Event = Touch(ino: nat) | Dirty(ino: nat, write: Write) | Forget(blocknr: nat)
                 | Fsync(ino: nat) | Request | Kjournald

  /** The buffer of block `b` on a list. */
  function Find(bs: seq<Buffer>, b: nat): Dirt {
    if bs == [] then Clean
    else
      var x := bs[|bs| - 1];
      if x.write.blocknr == b then Dirt(x.ino, x.write.data) else Find(bs[..|bs| - 1], b)
  }

  /** A block that is on the list keeps its place and its inode; a new one goes to the end. */
  function File(bs: seq<Buffer>, ino: nat, w: Write): seq<Buffer> {
    if Find(bs, w.blocknr).Clean? then bs + [Buffer(ino, w)] else Rewrite(bs, w)
  }

  function Rewrite(bs: seq<Buffer>, w: Write): seq<Buffer> {
    if bs == [] then []
    else
      var x := bs[|bs| - 1];
      Rewrite(bs[..|bs| - 1], w) + [if x.write.blocknr == w.blocknr then Buffer(x.ino, w) else x]
  }

  function Unfile(bs: seq<Buffer>, b: nat): seq<Buffer> {
    if bs == [] then []
    else
      var front, x := Unfile(bs[..|bs| - 1], b), bs[|bs| - 1];
      if x.write.blocknr == b then front else front + [x]
  }

  function Remove(ns: seq<nat>, n: nat): seq<nat> {
    if ns == [] then []
    else
      var front, m := Remove(ns[..|ns| - 1], n), ns[|ns| - 1];
      if m == n then front else front + [m]
  }

  /** `__jbd2_log_start_commit`: only the running transaction, and only when it is not requested yet. */
  function StartCommit(s: Journal, target: nat, ino: nat): Journal {
    if s.request != target && s.tid == target then s.(request := target, inoSync := ino) else s
  }

  /** The inode an fsync asks a commit for: its own if it is listed, else none. */
  function SyncIno(vm: set<nat>, ino: nat): nat { if ino in vm then ino else 0 }

  /** A commit for `ino` passes both assertions: no more buffers than credits, and no descriptor left open. */
  predicate Admits(g: Geometry, s: Journal, ino: nat)
    requires g.Valid()
  {
    |s.running| <= s.credits && LeftOpen(g, s.running, ino) == 0
  }

  predicate WillCommit(g: Geometry, s: Journal)
    requires g.Valid()
  {
    !s.stopped && s.request != s.sequence && Admits(g, s, s.inoSync)
  }

  function Step(g: Geometry, vm: set<nat>, s: Journal, e: Event): Journal
    requires g.Valid()
  {
    if s.stopped then s
    else match e
      case Touch(ino) => s.(syncTid := s.syncTid[ino := s.tid])
      case Dirty(ino, w) =>
        s.(running := File(s.running, ino, w), revokes := Remove(s.revokes, w.blocknr),
           credits := if Find(s.running, w.blocknr).Clean? then s.credits + 1 else s.credits)
      case Forget(b) =>
        s.(running := Unfile(s.running, b), revokes := if b in s.revokes then s.revokes else s.revokes + [b],
           credits := if Find(s.running, b).Dirt? then s.credits - 1 else s.credits)
      case Fsync(ino) =>
        if ino in s.syncTid && s.syncTid[ino] == s.tid then StartCommit(s, s.tid, SyncIno(vm, ino)) else s
      case Request => StartCommit(s, s.tid, 0)
      case Kjournald =>
        if s.request == s.sequence then s
        else if !WillCommit(g, s) then s.(stopped := true)
        else s.(tid := Tid(s.tid, 1), running := Others(s.running, s.inoSync), credits := 0, revokes := [], inoSync := 0,
                sequence := s.tid, rounds := s.rounds + [Round(s.inoSync, s.running, s.revokes)])
  }

  function ActOf(g: Geometry, s: Journal, e: Event): Act
    requires g.Valid()
  {
    if s.stopped then NoAct
    else match e
      case Dirty(ino, w) => Put(ino, w)
      case Forget(b) => Free(b)
      case Kjournald => if WillCommit(g, s) then CommitFor(s.inoSync) else NoAct
      case _ => NoAct
  }

  function Run(g: Geometry, vm: set<nat>, s: Journal, es: seq<Event>): Journal
    requires g.Valid()
  {
    if es == [] then s else Step(g, vm, Run(g, vm, s, es[..|es| - 1]), es[|es| - 1])
  }

  function ActsOf(g: Geometry, vm: set<nat>, s: Journal, es: seq<Event>): seq<Act>
    requires g.Valid()
  {
    if es == [] then []
    else ActsOf(g, vm, s, es[..|es| - 1]) + [ActOf(g, Run(g, vm, s, es[..|es| - 1]), es[|es| - 1])]
  }

  /** What the commits so far have left of block `b`. */
  function DurableAt(rounds: seq<Round>, b: nat): Durable {
    if rounds == [] then InPlace
    else
      var r := rounds[|rounds| - 1];
      if b in r.revokes then InPlace
      else
        var d := Find(r.buffers, b);
        if d.Dirt? && d.ino == r.sync then InLog(d.data) else DurableAt(rounds[..|rounds| - 1], b)
  }

  function CellOf(s: Journal, b: nat): Cell { Cell(Find(s.running, b), b in s.revokes, DurableAt(s.rounds, b)) }

  // ---------- lists of buffers ----------

  /** No block is on the list twice. */
  predicate Distinct(bs: seq<Buffer>) {
    bs == [] || (Distinct(bs[..|bs| - 1]) && Find(bs[..|bs| - 1], bs[|bs| - 1].write.blocknr).Clean?)
  }

  lemma FindSnoc(bs: seq<Buffer>, x: Buffer, b: nat)
    ensures Find(bs + [x], b) == if x.write.blocknr == b then Dirt(x.ino, x.write.data) else Find(bs, b)
    ensures Distinct(bs + [x]) <==> Distinct(bs) && Find(bs, x.write.blocknr).Clean?
  {
    assert (bs + [x])[..|bs|] == bs;
  }

  lemma {:induction false} FindRewrite(bs: seq<Buffer>, w: Write, b: nat)
    ensures Find(Rewrite(bs, w), b)
         == if b == w.blocknr && Find(bs, b).Dirt? then Dirt(Find(bs, b).ino, w.data) else Find(bs, b)
  {
    if bs != [] {
      var front, x := bs[..|bs| - 1], bs[|bs| - 1];
      FindRewrite(front, w, b);
      FindSnoc(Rewrite(front, w), if x.write.blocknr == w.blocknr then Buffer(x.ino, w) else x, b);
    }
  }

  lemma {:induction false} DistinctRewrite(bs: seq<Buffer>, w: Write)
    requires Distinct(bs)
    ensures Distinct(Rewrite(bs, w))
  {
    if bs != [] {
      var front, x := bs[..|bs| - 1], bs[|bs| - 1];
      DistinctRewrite(front, w);
      FindRewrite(front, w, x.write.blocknr);
      FindSnoc(Rewrite(front, w), if x.write.blocknr == w.blocknr then Buffer(x.ino, w) else x, 0);
    }
  }

  lemma FindFile(bs: seq<Buffer>, ino: nat, w: Write, b: nat)
    requires Distinct(bs)
    ensures Distinct(File(bs, ino, w))
    ensures Find(File(bs, ino, w), b)
         == if b != w.blocknr then Find(bs, b) else Dirt(if Find(bs, b).Dirt? then Find(bs, b).ino else ino, w.data)
  {
    FindSnoc(bs, Buffer(ino, w), b);
    FindRewrite(bs, w, b);
    DistinctRewrite(bs, w);
  }

  lemma {:induction false} FindUnfile(bs: seq<Buffer>, n: nat, b: nat)
    ensures Find(Unfile(bs, n), b) == if b == n then Clean else Find(bs, b)
  {
    if bs != [] {
      var front, x := bs[..|bs| - 1], bs[|bs| - 1];
      FindUnfile(front, n, b);
      FindSnoc(Unfile(front, n), x, b);
    }
  }

  lemma {:induction false} DistinctUnfile(bs: seq<Buffer>, n: nat)
    requires Distinct(bs)
    ensures Distinct(Unfile(bs, n))
  {
    if bs != [] {
      var front, x := bs[..|bs| - 1], bs[|bs| - 1];
      DistinctUnfile(front, n);
      FindUnfile(front, n, x.write.blocknr);
      FindSnoc(Unfile(front, n), x, 0);
    }
  }

  lemma {:induction false} RewriteLength(bs: seq<Buffer>, w: Write)
    ensures |Rewrite(bs, w)| == |bs|
  {
    if bs != [] { RewriteLength(bs[..|bs| - 1], w); }
  }

  lemma {:induction false} UnfileLength(bs: seq<Buffer>, b: nat)
    requires Distinct(bs)
    ensures |Unfile(bs, b)| == if Find(bs, b).Dirt? then |bs| - 1 else |bs|
  {
    if bs != [] { UnfileLength(bs[..|bs| - 1], b); }
  }

  lemma {:induction false} FindOthers(bs: seq<Buffer>, ino: nat, b: nat)
    requires Distinct(bs)
    ensures Distinct(Others(bs, ino))
    ensures Find(Others(bs, ino), b) == if Find(bs, b).Dirt? && Find(bs, b).ino == ino then Clean else Find(bs, b)
  {
    if bs != [] {
      var front, x := bs[..|bs| - 1], bs[|bs| - 1];
      FindOthers(front, ino, b);
      FindOthers(front, ino, x.write.blocknr);
      if x.ino == ino {
        assert Others(bs, ino) == Others(front, ino);
      } else {
        FindSnoc(Others(front, ino), x, b);
      }
    }
  }

  lemma {:induction false} RemoveMembers(ns: seq<nat>, n: nat, m: nat)
    ensures m in Remove(ns, n) <==> m in ns && m != n
  {
    if ns != [] {
      RemoveMembers(ns[..|ns| - 1], n, m);
      assert ns == ns[..|ns| - 1] + [ns[|ns| - 1]];
    }
  }

  // ---------- the journal is its blocks ----------

  predicate ValidBuffers(g: Geometry, bs: seq<Buffer>) { forall i :: 0 <= i < |bs| ==> ValidWrite(g, bs[i].write) }

  predicate ValidRecords(g: Geometry, ns: seq<nat>) { forall i :: 0 <= i < |ns| ==> ns[i] < g.MaxBlockNr() }

  ghost predicate Apart(bs: seq<Buffer>, revokes: seq<nat>) {
    Distinct(bs) && forall b :: b in revokes ==> Find(bs, b).Clean?
  }

  ghost predicate ValidRound(g: Geometry, r: Round)
    requires g.Valid()
  {
    && ValidBuffers(g, r.buffers) && ValidRecords(g, r.revokes) && Apart(r.buffers, r.revokes)
    && LeftOpen(g, r.buffers, r.sync) == 0
  }

  /** How many buffers the last commit passed over. */
  function PassedOver(rounds: seq<Round>): nat {
    if rounds == [] then 0 else |Others(rounds[|rounds| - 1].buffers, rounds[|rounds| - 1].sync)|
  }

  /** A passed-over buffer brings no credit, and nothing gives it one later. So all commits but the last passed
      nothing over. */
  ghost predicate Budget(s: Journal) {
    && |s.running| - s.credits == PassedOver(s.rounds)
    && forall i :: 0 <= i < |s.rounds| - 1 ==> PassedOver([s.rounds[i]]) == 0
  }

  /** Whatever `first` was, ids are handed out one by one, and a commit is requested for the running one or not at all. */
  ghost predicate Inv(g: Geometry, first: nat, s: Journal)
    requires g.Valid()
  {
    && s.tid == Tid(first, |s.rounds|) == Tid(s.sequence, 1) && s.sequence < TIDS
    && (s.request == s.sequence || s.request == s.tid) && (s.request == s.sequence ==> s.inoSync == 0)
    && ValidBuffers(g, s.running) && ValidRecords(g, s.revokes) && Apart(s.running, s.revokes)
    && (forall i :: 0 <= i < |s.rounds| ==> ValidRound(g, s.rounds[i]))
    && Budget(s)
  }

  predicate ValidEvent(g: Geometry, e: Event) {
    (e.Dirty? ==> ValidWrite(g, e.write)) && (e.Forget? ==> e.blocknr < g.MaxBlockNr())
  }

  /** A journal just loaded, its first transaction running. */
  function Loaded(first: nat): Journal
  {
    Journal(Tid(first, 0), [], 0, [], 0, Tid(first, TIDS - 1), Tid(first, TIDS - 1), map[], [], false)
  }

  /** One event does to every block what the reference does to that block alone. */
  lemma StepCell(g: Geometry, vm: set<nat>, first: nat, s: Journal, e: Event, b: nat)
    requires g.Valid() && Inv(g, first, s)
    ensures CellOf(Step(g, vm, s, e), b) == CellStep(CellOf(s, b), b, ActOf(g, s, e))
  {
    match e
    case Dirty(ino, w) => DirtyCell(g, vm, first, s, ino, w, b);
    case Forget(n) => ForgetCell(g, vm, first, s, n, b);
    case Kjournald => CommitCell(g, vm, first, s, b);
    case _ =>
  }

  lemma DirtyCell(g: Geometry, vm: set<nat>, first: nat, s: Journal, ino: nat, w: Write, b: nat)
    requires g.Valid() && Inv(g, first, s)
    ensures CellOf(Step(g, vm, s, Dirty(ino, w)), b) == CellStep(CellOf(s, b), b, ActOf(g, s, Dirty(ino, w)))
  {
    FindFile(s.running, ino, w, b);
    RemoveMembers(s.revokes, w.blocknr, b);
  }

  lemma ForgetCell(g: Geometry, vm: set<nat>, first: nat, s: Journal, n: nat, b: nat)
    requires g.Valid() && Inv(g, first, s)
    ensures CellOf(Step(g, vm, s, Forget(n)), b) == CellStep(CellOf(s, b), b, ActOf(g, s, Forget(n)))
  {
    FindUnfile(s.running, n, b);
  }

  lemma CommitCell(g: Geometry, vm: set<nat>, first: nat, s: Journal, b: nat)
    requires g.Valid() && Inv(g, first, s)
    ensures CellOf(Step(g, vm, s, Kjournald), b) == CellStep(CellOf(s, b), b, ActOf(g, s, Kjournald))
  {
    FindOthers(s.running, s.inoSync, b);
    DurableSnoc(s.rounds, Round(s.inoSync, s.running, s.revokes), b);
  }

  lemma DurableSnoc(rounds: seq<Round>, r: Round, b: nat)
    ensures DurableAt(rounds + [r], b) == if b in r.revokes then InPlace
                                          else if Logs(r, b) then InLog(Find(r.buffers, b).data)
                                          else DurableAt(rounds, b)
  {
    assert (rounds + [r])[..|rounds|] == rounds;
  }

  lemma {:induction false} ValidSublists(g: Geometry, bs: seq<Buffer>, ino: nat, w: Write, b: nat)
    requires ValidBuffers(g, bs) && ValidWrite(g, w)
    ensures ValidBuffers(g, Others(bs, ino)) && ValidBuffers(g, Rewrite(bs, w)) && ValidBuffers(g, Unfile(bs, b))
  {
    if bs != [] { ValidSublists(g, bs[..|bs| - 1], ino, w, b); }
  }

  lemma {:induction false} ValidRemove(g: Geometry, ns: seq<nat>, n: nat)
    requires ValidRecords(g, ns)
    ensures ValidRecords(g, Remove(ns, n))
  {
    if ns != [] { ValidRemove(g, ns[..|ns| - 1], n); }
  }

  lemma ValidOthers(g: Geometry, bs: seq<Buffer>, ino: nat)
    requires ValidBuffers(g, bs)
    ensures ValidBuffers(g, Others(bs, ino))
  {
    if bs != [] { ValidSublists(g, bs, ino, bs[0].write, 0); }
  }

  lemma DirtyInv(g: Geometry, vm: set<nat>, first: nat, s: Journal, ino: nat, w: Write)
    requires g.Valid() && Inv(g, first, s) && ValidWrite(g, w)
    ensures Inv(g, first, Step(g, vm, s, Dirty(ino, w)))
  {
    ValidSublists(g, s.running, ino, w, 0);
    ValidRemove(g, s.revokes, w.blocknr);
    DirtyApart(s.running, s.revokes, ino, w);
    RewriteLength(s.running, w);
  }

  lemma DirtyApart(bs: seq<Buffer>, revokes: seq<nat>, ino: nat, w: Write)
    requires Apart(bs, revokes)
    ensures Apart(File(bs, ino, w), Remove(revokes, w.blocknr))
  {
    FindFile(bs, ino, w, 0);
    forall b | b in Remove(revokes, w.blocknr) ensures Find(File(bs, ino, w), b).Clean? {
      RemoveMembers(revokes, w.blocknr, b);
      FindFile(bs, ino, w, b);
    }
  }

  lemma ForgetInv(g: Geometry, vm: set<nat>, first: nat, s: Journal, n: nat)
    requires g.Valid() && Inv(g, first, s) && n < g.MaxBlockNr()
    ensures Inv(g, first, Step(g, vm, s, Forget(n)))
  {
    UnfileLength(s.running, n);
    ForgetApart(s.running, s.revokes, n);
    if s.running != [] { ValidSublists(g, s.running, 0, s.running[0].write, n); }
  }

  lemma ForgetApart(bs: seq<Buffer>, revokes: seq<nat>, n: nat)
    requires Apart(bs, revokes)
    ensures Apart(Unfile(bs, n), if n in revokes then revokes else revokes + [n])
  {
    DistinctUnfile(bs, n);
    forall b: nat ensures Find(Unfile(bs, n), b) == if b == n then Clean else Find(bs, b) { FindUnfile(bs, n, b); }
  }

  lemma CommitInv(g: Geometry, vm: set<nat>, first: nat, s: Journal)
    requires g.Valid() && Inv(g, first, s)
    ensures Inv(g, first, Step(g, vm, s, Kjournald))
  {
    if WillCommit(g, s) {
      CommitLists(g, s);
      TidStep(first, |s.rounds|);
      CommitBudget(g, vm, s);
    }
  }

  lemma CommitLists(g: Geometry, s: Journal)
    requires g.Valid() && ValidBuffers(g, s.running) && Apart(s.running, s.revokes)
    ensures ValidBuffers(g, Others(s.running, s.inoSync)) && Apart(Others(s.running, s.inoSync), [])
  {
    FindOthers(s.running, s.inoSync, 0);
    ValidOthers(g, s.running, s.inoSync);
  }

  lemma CommitBudget(g: Geometry, vm: set<nat>, s: Journal)
    requires g.Valid() && Budget(s) && WillCommit(g, s)
    ensures Budget(Step(g, vm, s, Kjournald))
  {
    if s.rounds != [] { assert [s.rounds[|s.rounds| - 1]][0] == s.rounds[|s.rounds| - 1]; }
  }

  lemma StepInv(g: Geometry, vm: set<nat>, first: nat, s: Journal, e: Event)
    requires g.Valid() && Inv(g, first, s) && ValidEvent(g, e)
    ensures Inv(g, first, Step(g, vm, s, e))
  {
    match e
    case Dirty(ino, w) => DirtyInv(g, vm, first, s, ino, w);
    case Forget(n) => ForgetInv(g, vm, first, s, n);
    case Kjournald => CommitInv(g, vm, first, s);
    case _ =>
  }

  predicate ValidEvents(g: Geometry, es: seq<Event>) { forall i :: 0 <= i < |es| ==> ValidEvent(g, es[i]) }

  lemma LoadedInv(g: Geometry, first: nat)
    requires g.Valid() && first < TIDS
    ensures Inv(g, first, Loaded(first))
  {
  }

  lemma {:induction false} RunInv(g: Geometry, vm: set<nat>, first: nat, s: Journal, es: seq<Event>)
    requires g.Valid() && Inv(g, first, s) && ValidEvents(g, es)
    ensures Inv(g, first, Run(g, vm, s, es))
  {
    if es != [] {
      RunInv(g, vm, first, s, es[..|es| - 1]);
      StepInv(g, vm, first, Run(g, vm, s, es[..|es| - 1]), es[|es| - 1]);
    }
  }

  /** Over every run the journal does to each block what the reference does to that block alone. */
  lemma {:induction false} RunIsCells(g: Geometry, vm: set<nat>, first: nat, s: Journal, es: seq<Event>, b: nat)
    requires g.Valid() && Inv(g, first, s) && ValidEvents(g, es)
    ensures CellOf(Run(g, vm, s, es), b) == CellRun(CellOf(s, b), b, ActsOf(g, vm, s, es))
  {
    if es != [] {
      var front := es[..|es| - 1];
      RunIsCells(g, vm, first, s, front, b);
      RunInv(g, vm, first, s, front);
      StepCell(g, vm, first, Run(g, vm, s, front), es[|es| - 1], b);
      var acts := ActsOf(g, vm, s, es);
      assert acts[..|acts| - 1] == ActsOf(g, vm, s, front);
    }
  }

  // ---------- the first commit that passes a buffer over is the last ----------

  /** After a commit that passed a buffer over, no run has another commit: what was passed over stays in memory, and
      a mount finds every block as that commit left it. */
  lemma {:induction false} NoCommitAfterPassOver(g: Geometry, vm: set<nat>, first: nat, s: Journal, es: seq<Event>, b: nat)
    requires g.Valid() && Inv(g, first, s) && ValidEvents(g, es) && PassedOver(s.rounds) > 0
    ensures Run(g, vm, s, es).rounds == s.rounds && CellOf(Run(g, vm, s, es), b).durable == CellOf(s, b).durable
  {
    if es != [] {
      NoCommitAfterPassOver(g, vm, first, s, es[..|es| - 1], b);
      RunInv(g, vm, first, s, es[..|es| - 1]);
    }
  }

  /** A run that forgets every dirty block. */
  lemma {:induction false} ForgetAll(g: Geometry, vm: set<nat>, first: nat, s: Journal) returns (es: seq<Event>)
    requires g.Valid() && Inv(g, first, s) && !s.stopped
    ensures ValidEvents(g, es)
    ensures var t := Run(g, vm, s, es); Inv(g, first, t) && !t.stopped && t.running == [] && t.rounds == s.rounds
    decreases |s.running|
  {
    es := [];
    if s.running != [] {
      var b := s.running[0].write.blocknr;
      FindMember(s.running, 0);
      UnfileLength(s.running, b);
      ForgetInv(g, vm, first, s, b);
      var rest := ForgetAll(g, vm, first, Step(g, vm, s, Forget(b)));
      es := [Forget(b)] + rest;
      RunCons(g, vm, s, Forget(b), rest);
    }
    RunInv(g, vm, first, s, es);
  }

  lemma {:induction false} RunCons(g: Geometry, vm: set<nat>, s: Journal, e: Event, es: seq<Event>)
    requires g.Valid()
    ensures Run(g, vm, s, [e] + es) == Run(g, vm, Step(g, vm, s, e), es)
  {
    if es == [] {
      RunSnoc(g, vm, s, [], e);
      assert [e] + es == [] + [e];
    } else {
      var front, last := es[..|es| - 1], es[|es| - 1];
      RunCons(g, vm, s, e, front);
      RunSnoc(g, vm, s, [e] + front, last);
      RunSnoc(g, vm, Step(g, vm, s, e), front, last);
      assert [e] + es == ([e] + front) + [last] && es == front + [last];
    }
  }

  lemma RunSnoc(g: Geometry, vm: set<nat>, s: Journal, es: seq<Event>, e: Event)
    requires g.Valid()
    ensures Run(g, vm, s, es + [e]) == Step(g, vm, Run(g, vm, s, es), e)
    ensures ActsOf(g, vm, s, es + [e]) == ActsOf(g, vm, s, es) + [ActOf(g, Run(g, vm, s, es), e)]
  {
    assert (es + [e])[..|es|] == es;
  }

  /** Some run goes on to a commit exactly when the journal runs and its last commit passed nothing over. */
  lemma CommitsAgainIff(g: Geometry, vm: set<nat>, first: nat, s: Journal)
    requires g.Valid() && Inv(g, first, s)
    ensures (exists es :: ValidEvents(g, es) && |Run(g, vm, s, es).rounds| > |s.rounds|)
            <==> !s.stopped && PassedOver(s.rounds) == 0
  {
    if !s.stopped && PassedOver(s.rounds) == 0 {
      var es := ForgetAll(g, vm, first, s);
      RunSnoc(g, vm, s, es, Request);
      RunSnoc(g, vm, s, es + [Request], Kjournald);
      EmptyCommits(g, vm, first, Run(g, vm, s, es));
      assert |Run(g, vm, s, es + [Request] + [Kjournald]).rounds| > |s.rounds|;
    } else {
      forall es | ValidEvents(g, es) ensures |Run(g, vm, s, es).rounds| == |s.rounds| {
        if s.stopped { StoppedStays(g, vm, s, es); } else { NoCommitAfterPassOver(g, vm, first, s, es, 0); }
      }
    }
  }

  lemma EmptyCommits(g: Geometry, vm: set<nat>, first: nat, s: Journal)
    requires g.Valid() && Inv(g, first, s) && !s.stopped && s.running == [] && PassedOver(s.rounds) == 0
    ensures |Step(g, vm, Step(g, vm, s, Request), Kjournald).rounds| == |s.rounds| + 1
  {
  }

  lemma {:induction false} StoppedStays(g: Geometry, vm: set<nat>, s: Journal, es: seq<Event>)
    requires g.Valid() && s.stopped
    ensures Run(g, vm, s, es) == s
  {
    if es != [] { StoppedStays(g, vm, s, es[..|es| - 1]); }
  }

  /** So in every run all commits but the last logged their whole transaction. */
  lemma OnlyLastPassesOver(g: Geometry, vm: set<nat>, first: nat, es: seq<Event>, i: nat, j: nat)
    requires g.Valid() && first < TIDS && ValidEvents(g, es)
    requires var rounds := Run(g, vm, Loaded(first), es).rounds; i < |rounds| - 1 && j < |rounds[i].buffers|
    ensures var r := Run(g, vm, Loaded(first), es).rounds[i]; r.buffers[j].ino == r.sync
  {
    LoadedInv(g, first);
    RunInv(g, vm, first, Loaded(first), es);
    var r := Run(g, vm, Loaded(first), es).rounds[i];
    assert PassedOver([r]) == 0;
    NoOthers(r.buffers, r.sync);
  }

  predicate Retry(e: Event) { e.Request? || e.Kjournald? }

  /** A checkpoint that asks for commits without an inode, and waits for them, never gets a block of an inode off the
      list. */
  lemma {:induction false} RetryNeverEnds(g: Geometry, vm: set<nat>, first: nat, s: Journal, es: seq<Event>, b: nat)
    requires g.Valid() && Inv(g, first, s) && forall i :: 0 <= i < |es| ==> Retry(es[i])
    requires Find(s.running, b).Dirt? && Find(s.running, b).ino != 0
    requires s.request == s.tid ==> s.inoSync != Find(s.running, b).ino
    ensures var t := Run(g, vm, s, es);
            Find(t.running, b) == Find(s.running, b) && (t.request == t.tid ==> t.inoSync != Find(s.running, b).ino)
  {
    if es != [] {
      var front := es[..|es| - 1];
      RetryNeverEnds(g, vm, first, s, front, b);
      RetryRun(g, vm, first, s, front);
      RetryStep(g, vm, first, Run(g, vm, s, front), es[|es| - 1], b);
    }
  }

  lemma RetryRun(g: Geometry, vm: set<nat>, first: nat, s: Journal, es: seq<Event>)
    requires g.Valid() && Inv(g, first, s) && forall i :: 0 <= i < |es| ==> Retry(es[i])
    ensures Inv(g, first, Run(g, vm, s, es))
  {
    RunInv(g, vm, first, s, es);
  }

  lemma RetryStep(g: Geometry, vm: set<nat>, first: nat, s: Journal, e: Event, b: nat)
    requires g.Valid() && Inv(g, first, s) && Retry(e) && Find(s.running, b).Dirt? && Find(s.running, b).ino != 0
    requires s.request == s.tid ==> s.inoSync != Find(s.running, b).ino
    ensures var t := Step(g, vm, s, e);
            Find(t.running, b) == Find(s.running, b) && (t.request == t.tid ==> t.inoSync != Find(s.running, b).ino)
  {
    if e.Kjournald? { CommitCell(g, vm, first, s, b); }
  }

  // ---------- what the automaton promises ----------

  /** The newest content given to a block that has not been freed since. */
  function Newest(acts: seq<Act>, b: nat): Durable {
    if acts == [] then InPlace
    else
      var a := acts[|acts| - 1];
      if a.Put? && a.write.blocknr == b then InLog(a.write.data)
      else if a.Free? && a.blocknr == b then InPlace
      else Newest(acts[..|acts| - 1], b)
  }

  /** The newest content of a block is never lost: it waits for its inode's commit or is in the log. */
  lemma {:induction false} NothingLost(acts: seq<Act>, b: nat)
    ensures var c := CellRun(Cell(Clean, false, InPlace), b, acts);
            if Newest(acts, b).InLog? then !c.revoked && (c.dirt.Clean? || InLog(c.dirt.data) == Newest(acts, b))
                                           && (c.dirt.Dirt? || c.durable == Newest(acts, b))
            else c.dirt.Clean? && (c.revoked || c.durable == InPlace)
  {
    if acts != [] { NothingLost(acts[..|acts| - 1], b); }
  }

  /** Act `j` gave a clean block content for inode `i`, and no free of the block and no commit for `i` came since. */
  predicate Awaits(acts: seq<Act>, b: nat, i: nat, j: nat) {
    && j < |acts| && acts[j].Put? && acts[j].write.blocknr == b && acts[j].ino == i
    && CellRun(Cell(Clean, false, InPlace), b, acts[..j]).dirt.Clean?
    && forall k :: j < k < |acts| ==> acts[k] != Free(b) && acts[k] != CommitFor(i)
  }

  /** Unlogged content waits for a commit for the inode that dirtied the clean block, and only for that. */
  lemma {:induction false} DirtyIffAwaits(acts: seq<Act>, b: nat, i: nat)
    ensures var c := CellRun(Cell(Clean, false, InPlace), b, acts);
            c.dirt.Dirt? && c.dirt.ino == i <==> exists j :: Awaits(acts, b, i, j)
  {
    if acts != [] {
      var n := |acts| - 1;
      var front, a := acts[..n], acts[n];
      var was, now := CellRun(Cell(Clean, false, InPlace), b, front), CellRun(Cell(Clean, false, InPlace), b, acts);
      DirtyIffAwaits(front, b, i);
      NothingLost(front, b);
      if now.dirt.Dirt? && now.dirt.ino == i {
        if was.dirt.Dirt? {
          var j: nat :| Awaits(front, b, i, j);
          assert front[..j] == acts[..j];
          assert Awaits(acts, b, i, j);
        } else {
          assert Awaits(acts, b, i, n);
        }
      }
      if j: nat :| Awaits(acts, b, i, j) {
        if j < n {
          assert front[..j] == acts[..j];
          assert Awaits(front, b, i, j);
        }
      }
    }
  }

  /** Round `r` logs block `b`. */
  predicate Logs(r: Round, b: nat) { b !in r.revokes && Find(r.buffers, b).Dirt? && Find(r.buffers, b).ino == r.sync }

  /** A write that a round logged is lost again exactly when a later commit, for whatever inode, carries a revoke
      record of its block and no commit after it logs the block anew. */
  lemma {:induction false} LostIffRevoked(rounds: seq<Round>, b: nat, i: nat)
    requires i < |rounds| && Logs(rounds[i], b) && forall j :: i < j < |rounds| ==> !Logs(rounds[j], b)
    ensures DurableAt(rounds, b) == InPlace <==> exists j :: i < j < |rounds| && b in rounds[j].revokes
    ensures DurableAt(rounds, b).InLog? ==> DurableAt(rounds, b).data == Find(rounds[i].buffers, b).data
  {
    var n := |rounds| - 1;
    if i < n && b !in rounds[n].revokes {
      var front := rounds[..n];
      assert forall j :: i < j < n ==> !Logs(front[j], b);
      LostIffRevoked(front, b, i);
      if j :| i < j < |rounds| && b in rounds[j].revokes { assert b in front[j].revokes; }
    }
  }

  /** A freed block is given up by the next commit, for whatever inode, while another inode's block `c`, which may
      say that `b` is free, is passed over. */
  lemma RevokeOutrunsInode(g: Geometry, vm: set<nat>, first: nat, s: Journal, b: nat, c: nat)
    requires g.Valid() && Inv(g, first, s) && WillCommit(g, s) && b in s.revokes
    requires Find(s.running, c).Dirt? && Find(s.running, c).ino != s.inoSync
    ensures var t := Step(g, vm, s, Kjournald); CellOf(t, b).durable == InPlace && CellOf(t, c) == CellOf(s, c)
  {
    CommitCell(g, vm, first, s, b);
    CommitCell(g, vm, first, s, c);
  }

  // ---------- what the log says about a block ----------

  /** Transaction `t` is what the commit of round `r` wrote. */
  ghost predicate Wrote(g: Geometry, r: Round, t: Txn) {
    && Complete(t) && RevokedBlocks(t) == r.revokes && Logged(t) == Matching(r.buffers, r.sync)
    && forall i :: 0 <= i < |t| ==> ValidUnit(g, t[i])
  }

  ghost predicate AllWrote(g: Geometry, rounds: seq<Round>, txns: seq<Txn>) {
    |txns| == |rounds| && forall i :: 0 <= i < |txns| ==> Wrote(g, rounds[i], txns[i])
  }

  lemma {:induction false} WriteMapSnoc(ws: seq<Write>, w: Write)
    ensures WriteMap(ws + [w]) == WriteMap(ws)[w.blocknr := w.data]
  {
    if ws == [] {
      assert ws + [w] == [w] && [w][1..] == [];
    } else {
      assert (ws + [w])[1..] == ws[1..] + [w] && (ws + [w])[0] == ws[0];
      WriteMapSnoc(ws[1..], w);
    }
  }

  /** Map `m` has for block `b` what `d` says. */
  predicate Shows(m: Disk, b: nat, d: Durable) { if d.InLog? then b in m && m[b] == d.data else b !in m }

  function Selected(d: Dirt, ino: nat): Durable { if d.Dirt? && d.ino == ino then InLog(d.data) else InPlace }

  lemma {:induction false} MatchingShows(bs: seq<Buffer>, ino: nat, b: nat)
    requires Distinct(bs)
    ensures Shows(WriteMap(Matching(bs, ino)), b, Selected(Find(bs, b), ino))
  {
    if bs != [] {
      var front, x := bs[..|bs| - 1], bs[|bs| - 1];
      MatchingShows(front, ino, b);
      if x.ino == ino {
        WriteMapSnoc(Matching(front, ino), x.write);
      } else {
        assert Matching(bs, ino) == Matching(front, ino);
      }
    }
  }

  /** Recovery's overlay has for every block what the rounds left of it. */
  lemma {:induction false} OverlayShows(g: Geometry, rounds: seq<Round>, txns: seq<Txn>, b: nat)
    requires g.Valid() && AllWrote(g, rounds, txns) && forall i :: 0 <= i < |rounds| ==> ValidRound(g, rounds[i])
    ensures Shows(Overlay(txns), b, DurableAt(rounds, b))
  {
    if rounds != [] {
      var n := |rounds| - 1;
      var r, t := rounds[n], txns[n];
      OverlayShows(g, rounds[..n], txns[..n], b);
      assert Wrote(g, r, t) && ValidRound(g, r);
      MatchingShows(r.buffers, r.sync, b);
      assert b in Revoked(t) <==> b in r.revokes;
    }
  }

  /** The commit, revoke records included, does to every earlier overlay what the undivided commit would do exactly
      when all buffers belong to the synced inode. */
  lemma SplitIsWholeIff(bs: seq<Buffer>, revokes: seq<nat>, ino: nat)
    requires Apart(bs, revokes)
    ensures (forall o: Disk :: (o + WriteMap(Matching(bs, ino))) - Members(revokes)
                             == (o + WriteMap(AllWrites(bs))) - Members(revokes))
            <==> (forall i :: 0 <= i < |bs| ==> bs[i].ino == ino)
  {
    NoOthers(bs, ino);
    if i :| 0 <= i < |bs| && bs[i].ino != ino {
      var b, empty: Disk := bs[i].write.blocknr, map[];
      FindMember(bs, i);
      MatchingShows(bs, ino, b);
      assert AllWrites(bs)[i].blocknr == b;
      WriteMapKeys(AllWrites(bs), b);
      assert b !in (empty + WriteMap(Matching(bs, ino))) - Members(revokes);
      assert b in (empty + WriteMap(AllWrites(bs))) - Members(revokes);
    }
  }

  function Members(ns: seq<nat>): set<nat> { set n | n in ns }

  lemma {:induction false} FindMember(bs: seq<Buffer>, i: nat)
    requires Distinct(bs) && i < |bs|
    ensures Find(bs, bs[i].write.blocknr) == Dirt(bs[i].ino, bs[i].write.data)
  {
    var n := |bs| - 1;
    if i < n {
      FindMember(bs[..n], i);
      assert bs[..n][i] == bs[i];
    }
  }
}
