/** What recovery means: the file system after recovery is the old one overlaid with the committed
    transactions, where a revoke removes what this or an earlier transaction logged for a block. */
module JournalTheorem {
  import opened JournalFormat
  import opened JournalRecovery

  // ---------- the reference ----------

  type Txn = seq<LogUnit>

  /** A committed transaction: any units, closed by its only commit block. */
  predicate Complete(t: Txn) {
    t != [] && forall i :: 0 <= i < |t| ==> (t[i].Commit? <==> i == |t| - 1)
  }

  predicate AllComplete(txns: seq<Txn>) {
    forall i :: 0 <= i < |txns| ==> Complete(txns[i])
  }

  function Flatten(txns: seq<Txn>): seq<LogUnit> {
    if txns == [] then [] else txns[0] + Flatten(txns[1..])
  }

  /** The blocks a transaction logged, in log order. */
  function Logged(t: Txn): seq<Write> {
    if t == [] then [] else (if t[0].Writes? then t[0].writes else []) + Logged(t[1..])
  }

  function RevokedBlocks(t: Txn): seq<nat> {
    if t == [] then [] else (if t[0].Revokes? then t[0].blocks else []) + RevokedBlocks(t[1..])
  }

  function Revoked(t: Txn): set<nat> { set b | b in RevokedBlocks(t) }

  /** The last write to a block wins. */
  function WriteMap(ws: seq<Write>): Disk {
    if ws == [] then map[] else map[ws[0].blocknr := ws[0].data] + WriteMap(ws[1..])
  }

  /** What the log says, transaction by transaction: writes add, revokes delete. */
  function Overlay(txns: seq<Txn>): Disk {
    if txns == [] then map[]
    else
      var t := txns[|txns| - 1];
      (Overlay(txns[..|txns| - 1]) + WriteMap(Logged(t))) - Revoked(t)
  }

  /** The newest transaction that revokes `b`, or -1. */
  function LastRevoke(txns: seq<Txn>, b: nat): (r: int)
    ensures -1 <= r < |txns|
  {
    if txns == [] then -1
    else if b in Revoked(txns[|txns| - 1]) then |txns| - 1
    else LastRevoke(txns[..|txns| - 1], b)
  }

  predicate Same(m: Disk, n: Disk, b: nat) {
    (b in m <==> b in n) && (b in m ==> m[b] == n[b])
  }

  // ---------- a pass over one transaction ----------

  lemma {:induction false} SetRevokesAppend(t: Table, a: seq<nat>, b: seq<nat>, tid: nat)
    ensures SetRevokes(t, a + b, tid) == SetRevokes(SetRevokes(t, a, tid), b, tid)
    decreases a
  {
    if a == [] {
      assert a + b == b;
    } else {
      assert (a + b)[1..] == a[1..] + b;
      SetRevokesAppend(SetRevoke(t, a[0], tid), a[1..], b, tid);
    }
  }

  lemma {:induction false} ReplayWritesAppend(fs: Disk, t: Table, tid: nat, a: seq<Write>, b: seq<Write>)
    ensures ReplayWrites(fs, t, tid, a + b) == ReplayWrites(ReplayWrites(fs, t, tid, a), t, tid, b)
    decreases a
  {
    if a == [] {
      assert a + b == b;
    } else {
      assert (a + b)[1..] == a[1..] + b;
      ReplayWritesAppend(ReplayWrite(fs, t, tid, a[0]), t, tid, a[1..], b);
    }
  }

  lemma {:induction false} RevokePassTxn(t: Table, tid: nat, txn: Txn, rest: seq<LogUnit>)
    requires Complete(txn)
    ensures RevokePass(t, tid, txn + rest) == RevokePass(SetRevokes(t, RevokedBlocks(txn), tid), Tid(tid, 1), rest)
    decreases txn
  {
    assert (txn + rest)[1..] == txn[1..] + rest;
    if |txn| == 1 {
      assert txn[1..] + rest == rest;
    } else {
      var own := if txn[0].Revokes? then txn[0].blocks else [];
      RevokePassTxn(SetRevokes(t, own, tid), tid, txn[1..], rest);
      SetRevokesAppend(t, own, RevokedBlocks(txn[1..]), tid);
    }
  }

  lemma {:induction false} ReplayPassTxn(fs: Disk, t: Table, tid: nat, txn: Txn, rest: seq<LogUnit>)
    requires Complete(txn)
    ensures ReplayPass(fs, t, tid, txn + rest) == ReplayPass(ReplayWrites(fs, t, tid, Logged(txn)), t, Tid(tid, 1), rest)
    decreases txn
  {
    assert (txn + rest)[1..] == txn[1..] + rest;
    if |txn| == 1 {
      assert txn[1..] + rest == rest;
    } else {
      var own := if txn[0].Writes? then txn[0].writes else [];
      ReplayPassTxn(ReplayWrites(fs, t, tid, own), t, tid, txn[1..], rest);
      ReplayWritesAppend(fs, t, tid, own, Logged(txn[1..]));
    }
  }

  // ---------- the revoke table ----------

  lemma {:induction false} SetRevokesEffect(t: Table, blocks: seq<nat>, tid: nat, b: nat)
    requires b in t ==> TidGt(tid, t[b]) || t[b] == tid
    ensures b in SetRevokes(t, blocks, tid) <==> b in t || b in blocks
    ensures b in blocks ==> SetRevokes(t, blocks, tid)[b] == tid
    ensures b !in blocks && b in t ==> SetRevokes(t, blocks, tid)[b] == t[b]
    decreases blocks
  {
    if blocks != [] {
      SetRevokesEffect(SetRevoke(t, blocks[0], tid), blocks[1..], tid, b);
    }
  }

  /** The table lists for every block the id of the newest of the transactions seen that revokes it. */
  ghost predicate TableFor(t: Table, start: nat, txns: seq<Txn>) {
    forall b: nat :: (b in t <==> LastRevoke(txns, b) >= 0)
                     && (b in t ==> t[b] == Tid(start, LastRevoke(txns, b)))
  }

  lemma TableStep(t: Table, start: nat, txns: seq<Txn>, i: nat)
    requires i < |txns| < HALF && TableFor(t, start, txns[..i])
    ensures TableFor(SetRevokes(t, RevokedBlocks(txns[i]), Tid(start, i)), start, txns[..i + 1])
  {
    var blocks := RevokedBlocks(txns[i]);
    var t' := SetRevokes(t, blocks, Tid(start, i));
    assert txns[..i + 1][..i] == txns[..i];
    forall b: nat
      ensures (b in t' <==> LastRevoke(txns[..i + 1], b) >= 0)
              && (b in t' ==> t'[b] == Tid(start, LastRevoke(txns[..i + 1], b)))
    {
      var r := LastRevoke(txns[..i], b);
      if b in t { TidOrder(start, i, r); }
      SetRevokesEffect(t, blocks, Tid(start, i), b);
    }
  }

  lemma {:induction false} TableFrom(t: Table, start: nat, txns: seq<Txn>, i: nat)
    requires AllComplete(txns) && i <= |txns| < HALF && start < TIDS && TableFor(t, start, txns[..i])
    ensures TableFor(RevokePass(t, Tid(start, i), Flatten(txns[i..])), start, txns)
    decreases |txns| - i
  {
    if i == |txns| {
      assert txns[..i] == txns && Flatten(txns[i..]) == [];
    } else {
      assert txns[i..][0] == txns[i] && txns[i..][1..] == txns[i + 1..];
      RevokePassTxn(t, Tid(start, i), txns[i], Flatten(txns[i + 1..]));
      TableStep(t, start, txns, i);
      TidStep(start, i);
      TableFrom(SetRevokes(t, RevokedBlocks(txns[i]), Tid(start, i)), start, txns, i + 1);
    }
  }

  // ---------- the replay ----------

  lemma {:induction false} ReplayWritesEffect(fs: Disk, t: Table, tid: nat, ws: seq<Write>, b: nat)
    ensures Same(ReplayWrites(fs, t, tid, ws), if TestRevoke(t, b, tid) then fs else fs + WriteMap(ws), b)
    decreases ws
  {
    if ws != [] {
      ReplayWritesEffect(ReplayWrite(fs, t, tid, ws[0]), t, tid, ws[1..], b);
    }
  }

  /** After the first `i` transactions: a block still to be revoked is untouched, any other is overlaid. */
  ghost predicate ReplayedTo(fs: Disk, fs0: Disk, txns: seq<Txn>, i: nat)
    requires i <= |txns|
  {
    forall b: nat :: Same(fs, if LastRevoke(txns, b) >= i then fs0 else fs0 + Overlay(txns[..i]), b)
  }

  lemma {:induction false} LastRevokeIn(txns: seq<Txn>, b: nat, i: nat)
    requires i < |txns|
    ensures LastRevoke(txns, b) == i ==> b in Revoked(txns[i])
    ensures LastRevoke(txns, b) < i ==> b !in Revoked(txns[i])
  {
    if i < |txns| - 1 && b !in Revoked(txns[|txns| - 1]) {
      LastRevokeIn(txns[..|txns| - 1], b, i);
    }
  }

  /** A block is taken as revoked in transaction `i` exactly when `i` or a later one revokes it. */
  lemma RevokeTested(t: Table, start: nat, txns: seq<Txn>, i: nat, b: nat)
    requires i < |txns| < HALF && TableFor(t, start, txns)
    ensures TestRevoke(t, b, Tid(start, i)) <==> LastRevoke(txns, b) >= i
  {
    var r := LastRevoke(txns, b);
    assert b in t <==> r >= 0;
    if r >= 0 { TidOrder(start, i, r); }
  }

  lemma OverlayStep(fs: Disk, fs': Disk, fs0: Disk, txns: seq<Txn>, i: nat, b: nat)
    requires i < |txns|
    requires Same(fs, if LastRevoke(txns, b) >= i then fs0 else fs0 + Overlay(txns[..i]), b)
    requires Same(fs', if LastRevoke(txns, b) >= i then fs else fs + WriteMap(Logged(txns[i])), b)
    ensures Same(fs', if LastRevoke(txns, b) >= i + 1 then fs0 else fs0 + Overlay(txns[..i + 1]), b)
  {
    assert txns[..i + 1][..i] == txns[..i];
    LastRevokeIn(txns, b, i);
  }

  lemma ReplayStep(fs: Disk, fs0: Disk, t: Table, start: nat, txns: seq<Txn>, i: nat)
    requires i < |txns| < HALF && TableFor(t, start, txns) && ReplayedTo(fs, fs0, txns, i)
    ensures ReplayedTo(ReplayWrites(fs, t, Tid(start, i), Logged(txns[i])), fs0, txns, i + 1)
  {
    forall b: nat ensures Same(ReplayWrites(fs, t, Tid(start, i), Logged(txns[i])),
                               if LastRevoke(txns, b) >= i + 1 then fs0 else fs0 + Overlay(txns[..i + 1]), b) {
      assert Same(fs, if LastRevoke(txns, b) >= i then fs0 else fs0 + Overlay(txns[..i]), b);
      RevokeTested(t, start, txns, i, b);
      ReplayWritesEffect(fs, t, Tid(start, i), Logged(txns[i]), b);
      OverlayStep(fs, ReplayWrites(fs, t, Tid(start, i), Logged(txns[i])), fs0, txns, i, b);
    }
  }

  lemma {:induction false} ReplayFrom(fs: Disk, fs0: Disk, t: Table, start: nat, txns: seq<Txn>, i: nat)
    requires AllComplete(txns) && i <= |txns| < HALF && start < TIDS
    requires TableFor(t, start, txns) && ReplayedTo(fs, fs0, txns, i)
    ensures ReplayPass(fs, t, Tid(start, i), Flatten(txns[i..])) == fs0 + Overlay(txns)
    decreases |txns| - i
  {
    if i == |txns| {
      assert txns[..i] == txns && Flatten(txns[i..]) == [];
      forall b: nat ensures Same(fs, fs0 + Overlay(txns), b) {
        assert LastRevoke(txns, b) < i;
      }
      SameEverywhere(fs, fs0 + Overlay(txns));
    } else {
      assert txns[i..][0] == txns[i] && txns[i..][1..] == txns[i + 1..];
      ReplayPassTxn(fs, t, Tid(start, i), txns[i], Flatten(txns[i + 1..]));
      ReplayStep(fs, fs0, t, start, txns, i);
      TidStep(start, i);
      ReplayFrom(ReplayWrites(fs, t, Tid(start, i), Logged(txns[i])), fs0, t, start, txns, i + 1);
    }
  }

  lemma SameEverywhere(m: Disk, n: Disk)
    requires forall b: nat :: Same(m, n, b)
    ensures m == n
  {
    forall b: nat ensures (b in m <==> b in n) && (b in m ==> m[b] == n[b]) {
      assert Same(m, n, b);
    }
  }

  /** The three passes together compute the overlay. */
  lemma RecoveryIsOverlay(fs: Disk, start: nat, txns: seq<Txn>)
    requires AllComplete(txns) && |txns| < HALF && start < TIDS
    ensures var done := Flatten(txns);
            ReplayPass(fs, RevokePass(map[], start, done), start, done) == fs + Overlay(txns)
  {
    var t := RevokePass(map[], start, Flatten(txns));
    assert txns[..0] == [] && txns[0..] == txns && Tid(start, 0) == start;
    TableFrom(map[], start, txns, 0);
    ReplayFrom(fs, fs, t, start, txns, 0);
  }

  lemma {:induction false} FlattenCommits(txns: seq<Txn>)
    requires AllComplete(txns)
    ensures Commits(Flatten(txns)) == |txns| && Closed(Flatten(txns))
  {
    if txns != [] {
      var t, rest := txns[0], Flatten(txns[1..]);
      FlattenCommits(txns[1..]);
      CommitsAppend(t, rest);
      CommitsComplete(t);
      if rest != [] { assert (t + rest)[|t + rest| - 1] == rest[|rest| - 1]; }
    }
  }

  lemma {:induction false} CommitsAppend(a: seq<LogUnit>, b: seq<LogUnit>)
    ensures Commits(a + b) == Commits(a) + Commits(b)
  {
    if a == [] {
      assert a + b == b;
    } else {
      assert (a + b)[1..] == a[1..] + b;
      CommitsAppend(a[1..], b);
    }
  }

  lemma {:induction false} CommitsComplete(t: Txn)
    requires Complete(t)
    ensures Commits(t) == 1
  {
    if |t| > 1 { CommitsComplete(t[1..]); }
  }

  /** Mounting after a crash: whatever part of the interrupted transaction reached the log, the file system
      ends up with exactly the committed transactions applied. */
  method MountAfterCrash(medium: Medium, sequence: nat, fs: Disk, ghost txns: seq<Txn>, ghost torn: seq<LogUnit>)
    returns (fs': Disk, nextSequence: nat)
    requires medium.Valid() && sequence < TIDS && AllComplete(txns) && |txns| < HALF
    requires medium.Holds(0, sequence, Flatten(txns), torn)
    ensures fs' == fs + Overlay(txns)
    ensures nextSequence == Tid(sequence, |txns| + 1)
  {
    FlattenCommits(txns);
    var r := new Recovery(medium, sequence, fs);
    var status := r.Recover(false, Flatten(txns), torn);
    RecoveryIsOverlay(fs, sequence, txns);
    fs', nextSequence := r.fs, r.transactionSequence;
  }
}
