/** The commit of a transaction as this tree changes it: only the buffers of the inode being synced
    are logged, the others move to the next transaction. */
module JournalCommit {
  import opened JournalFormat
  import opened JournalRecovery
  import opened JournalTheorem
  import Bits

  /** A journaled buffer with the inode it was dirtied for. */
  datatype Buffer = Buffer(ino: nat, write: Write)

  // ---------- what a commit should do with the buffers ----------

  function Matching(bs: seq<Buffer>, ino: nat): seq<Write> {
    if bs == [] then []
    else Matching(bs[..|bs| - 1], ino) + if bs[|bs| - 1].ino == ino then [bs[|bs| - 1].write] else []
  }

  function Others(bs: seq<Buffer>, ino: nat): seq<Buffer> {
    if bs == [] then []
    else Others(bs[..|bs| - 1], ino) + if bs[|bs| - 1].ino == ino then [] else [bs[|bs| - 1]]
  }

  function AllWrites(bs: seq<Buffer>): seq<Write> {
    seq(|bs|, i requires 0 <= i < |bs| => bs[i].write)
  }

  function Concat(batches: seq<seq<Write>>): seq<Write> {
    if batches == [] then [] else Concat(batches[..|batches| - 1]) + batches[|batches| - 1]
  }

  /** `j_wbufsize`: block size over the size of a tag. */
  function WbufSize(g: Geometry): nat { 4 * g.blockWords / 12 }

  /** How many buffers one descriptor takes before it is submitted. */
  function Capacity(g: Geometry): (c: nat)
    requires g.Valid()
    ensures c > 0 && HEADER_WORDS + UUID_WORDS + g.TagSpan(c) <= g.blockWords
  {
    var bySpace := (4 * g.blockWords - 44) / (4 * g.TagWords());
    if WbufSize(g) - 1 <= bySpace then WbufSize(g) - 1 else bySpace
  }

  // ---------- the code ----------

  /** The counters of an open descriptor that holds `n` tags; with none it is not open yet. */
  ghost predicate Counters(g: Geometry, n: nat, spaceLeft: int, bufs: nat) {
    n > 0 ==> bufs == n + 1 && spaceLeft == 4 * g.blockWords - 28 - 4 * g.TagSpan(n)
  }

  /** Lines 605-704: open a descriptor when there is none, account for one more tag, and decide whether to submit. */
  method AddTag(g: Geometry, spaceLeft: int, bufs: nat, open: bool, more: bool, ghost n: nat)
    returns (spaceLeft': int, bufs': nat, submit: bool)
    requires g.Valid() && open == (n > 0) && n < Capacity(g) && Counters(g, n, spaceLeft, bufs)
    ensures Counters(g, n + 1, spaceLeft', bufs')
    ensures submit <==> !more || n + 1 == Capacity(g)
  {
    var tagBytes := 4 * g.TagWords();
    spaceLeft', bufs' := spaceLeft, bufs;
    if !open { spaceLeft', bufs' := 4 * g.blockWords - 12, 1; }
    spaceLeft', bufs' := spaceLeft' - tagBytes, bufs' + 1;
    if !open { spaceLeft' := spaceLeft' - 16; }
    FullTest(g, n + 1);
    submit := bufs' == WbufSize(g) || !more || spaceLeft' < tagBytes + 16;
  }

  predicate Batched(g: Geometry, submitted: seq<seq<Write>>, pending: seq<Write>)
    requires g.Valid()
  {
    && (forall i :: 0 <= i < |submitted| ==> ValidBatch(g, submitted[i]))
    && (forall j :: 0 <= j < |pending| ==> ValidWrite(g, pending[j]))
    && |pending| < Capacity(g)
  }

  /** One logged buffer: it joins the open batch, which is submitted when it is full or the list is done. */
  method LogOne(g: Geometry, submitted: seq<seq<Write>>, pending: seq<Write>, spaceLeft: nat, bufs: nat, w: Write, more: bool)
    returns (submitted': seq<seq<Write>>, pending': seq<Write>, spaceLeft': nat, bufs': nat)
    requires g.Valid() && ValidWrite(g, w)
    requires Batched(g, submitted, pending) && Counters(g, |pending|, spaceLeft, bufs)
    ensures Batched(g, submitted', pending') && Counters(g, |pending'|, spaceLeft', bufs')
    ensures Concat(submitted') + pending' == Concat(submitted) + pending + [w]
    ensures |pending'| == if !more || |pending| + 1 == Capacity(g) then 0 else |pending| + 1
  {
    var submit;
    spaceLeft', bufs', submit := AddTag(g, spaceLeft, bufs, pending != [], more, |pending|);
    submitted', pending' := submitted, pending + [w];
    if submit {
      SubmitBatch(g, submitted, pending, w);
      submitted', pending' := submitted + [pending'], [];
    }
  }

  lemma SubmitBatch(g: Geometry, submitted: seq<seq<Write>>, pending: seq<Write>, w: Write)
    requires g.Valid() && ValidWrite(g, w) && Batched(g, submitted, pending)
    ensures Batched(g, submitted + [pending + [w]], [])
    ensures Concat(submitted + [pending + [w]]) == Concat(submitted) + pending + [w]
  {
    BatchFits(g, |pending| + 1);
    ConcatSnoc(submitted, pending + [w]);
  }

  /** Lines 568-738 of the commit: the buffer loop, its batches, and what it leaves behind.
      `pending` is a descriptor the loop opened and never submitted. */
  method LogBuffers(g: Geometry, buffers: seq<Buffer>, inoSync: nat)
    returns (submitted: seq<seq<Write>>, pending: seq<Write>, deferred: seq<Buffer>)
    requires g.Valid()
    requires forall i :: 0 <= i < |buffers| ==> ValidWrite(g, buffers[i].write)
    ensures deferred == Others(buffers, inoSync)
    ensures Concat(submitted) + pending == Matching(buffers, inoSync)
    ensures forall i :: 0 <= i < |submitted| ==> ValidBatch(g, submitted[i])
    ensures |pending| == LeftOpen(g, buffers, inoSync)
  {
    submitted, pending, deferred := [], [], [];
    var spaceLeft, bufs: nat := 0, 0;
    var i := 0;
    assert buffers[..0] == [];
    while i < |buffers|
      invariant 0 <= i <= |buffers|
      invariant deferred == Others(buffers[..i], inoSync)
      invariant Concat(submitted) + pending == Matching(buffers[..i], inoSync)
      invariant Batched(g, submitted, pending) && Counters(g, |pending|, spaceLeft, bufs)
      invariant |pending| == if i == |buffers| then LeftOpen(g, buffers, inoSync)
                             else |Matching(buffers[..i], inoSync)| % Capacity(g)
    {
      var jh := buffers[i];
      assert buffers[..i + 1][..i] == buffers[..i];
      i := i + 1;
      assert i == |buffers| ==> buffers[..i] == buffers;
      if jh.ino != inoSync {
        deferred := deferred + [jh];
      } else {
        NextCount(|Matching(buffers[..i - 1], inoSync)|, Capacity(g));
        submitted, pending, spaceLeft, bufs := LogOne(g, submitted, pending, spaceLeft, bufs, jh.write, i < |buffers|);
      }
    }
    assert buffers[..|buffers|] == buffers;
  }

  /** How many logged buffers end up in a descriptor that is never submitted. */
  function LeftOpen(g: Geometry, buffers: seq<Buffer>, inoSync: nat): nat
    requires g.Valid()
  {
    if buffers == [] || buffers[|buffers| - 1].ino == inoSync then 0
    else |Matching(buffers, inoSync)| % Capacity(g)
  }

  lemma ConcatSnoc(batches: seq<seq<Write>>, b: seq<Write>)
    ensures Concat(batches + [b]) == Concat(batches) + b
  {
    assert (batches + [b])[..|batches|] == batches;
  }

  /** The two tests in the code together mean: the descriptor has reached its capacity. */
  lemma FullTest(g: Geometry, n: nat)
    requires g.Valid() && 1 <= n <= Capacity(g)
    ensures (n + 1 == WbufSize(g) || 4 * g.blockWords - 28 - 4 * g.TagSpan(n) < 4 * g.TagWords() + 16)
            <==> n == Capacity(g)
  {
    var tb := 4 * g.TagWords();
    var q, r := Bits.DivMod(4 * g.blockWords - 44, tb);
    if n < q { Bits.MulGe(q - n, tb); } else { assert (n - q) * tb >= 0; }
  }

  lemma BatchFits(g: Geometry, n: nat)
    requires g.Valid() && n <= Capacity(g)
    ensures HEADER_WORDS + UUID_WORDS + g.TagSpan(n) <= g.blockWords
  {
  }

  lemma NextCount(n: nat, c: nat)
    requires c > 0
    ensures (n + 1) % c == if n % c + 1 == c then 0 else n % c + 1
  {
    ModStep(n, 1, c);
  }

  /** `jbd2_journal_write_revoke_records`: pack the records into as few revoke blocks as they fit. */
  method WriteRevokeRecords(g: Geometry, records: seq<nat>) returns (units: seq<LogUnit>)
    requires g.Valid() && forall i :: 0 <= i < |records| ==> records[i] < g.MaxBlockNr()
    ensures RevokedBlocks(units) == records && Logged(units) == []
    ensures AllRevokes(g, units)
  {
    var open, offset;
    units, open, offset := PackRecords(g, records);
    ClosePacked(g, units, open, offset, records);
    if open != [] {
      units := units + [Revokes(open)];
    }
  }

  method PackRecords(g: Geometry, records: seq<nat>) returns (units: seq<LogUnit>, open: seq<nat>, offset: nat)
    requires g.Valid() && forall i :: 0 <= i < |records| ==> records[i] < g.MaxBlockNr()
    ensures Packed(g, units, open, offset, records)
  {
    units, open, offset := [], [], 0;
    ghost var done: seq<nat> := [];
    for i := 0 to |records|
      invariant done == records[..i] && Packed(g, units, open, offset, done)
    {
      units, open, offset := WriteOneRecord(g, units, open, offset, records[i], done);
      done := done + [records[i]];
    }
  }

  lemma ClosePacked(g: Geometry, units: seq<LogUnit>, open: seq<nat>, offset: nat, records: seq<nat>)
    requires g.Valid() && Packed(g, units, open, offset, records)
    ensures var all := if open == [] then units else units + [Revokes(open)];
            RevokedBlocks(all) == records && Logged(all) == [] && AllRevokes(g, all)
  {
    if open != [] { CloseRevokes(g, units, open); }
  }

  /** `records` are in the closed revoke blocks `units` and in the open one, which is filled up to `offset`. */
  predicate Packed(g: Geometry, units: seq<LogUnit>, open: seq<nat>, offset: nat, records: seq<nat>)
    requires g.Valid()
  {
    && RevokedBlocks(units) + open == records && Logged(units) == [] && AllRevokes(g, units) && ValidRevokes(g, open)
    && (open != [] ==> offset == RevokeBytes(g, |open|))
  }

  /** `write_one_revoke_record`: a full descriptor is flushed and a new one started. */
  method WriteOneRecord(g: Geometry, units: seq<LogUnit>, open: seq<nat>, offset: nat, r: nat, ghost records: seq<nat>)
    returns (units': seq<LogUnit>, open': seq<nat>, offset': nat)
    requires g.Valid() && r < g.MaxBlockNr() && Packed(g, units, open, offset, records)
    ensures Packed(g, units', open', offset', records + [r]) && open' != []
  {
    units', open', offset' := units, open, offset;
    var size := 4 * g.RecordWords();
    if open != [] && offset + size > 4 * g.blockWords {
      CloseRevokes(g, units, open);
      units', open' := units + [Revokes(open)], [];
    }
    if open' == [] { offset' := RevokeBytes(g, 0); }
    OneMoreRecord(g, open', r, offset');
    open', offset' := open' + [r], offset' + size;
  }

  predicate AllRevokes(g: Geometry, units: seq<LogUnit>)
    requires g.Valid()
  {
    forall i :: 0 <= i < |units| ==> units[i].Revokes? && ValidUnit(g, units[i])
  }

  lemma CloseRevokes(g: Geometry, units: seq<LogUnit>, open: seq<nat>)
    requires g.Valid() && AllRevokes(g, units) && open != [] && ValidRevokes(g, open)
    ensures AllRevokes(g, units + [Revokes(open)])
    ensures RevokedBlocks(units + [Revokes(open)]) == RevokedBlocks(units) + open
    ensures Logged(units + [Revokes(open)]) == Logged(units)
  {
    UnitsSnoc(units, Revokes(open));
  }

  lemma OneMoreRecord(g: Geometry, open: seq<nat>, r: nat, offset: nat)
    requires g.Valid() && ValidRevokes(g, open) && r < g.MaxBlockNr()
    requires offset == RevokeBytes(g, |open|)
    requires open == [] || offset + 4 * g.RecordWords() <= 4 * g.blockWords
    ensures ValidRevokes(g, open + [r])
    ensures RevokeBytes(g, |open + [r]|) == offset + 4 * g.RecordWords()
  {
  }

  lemma {:induction false} LoggedAppend(a: seq<LogUnit>, b: seq<LogUnit>)
    ensures Logged(a + b) == Logged(a) + Logged(b)
  {
    if a == [] {
      assert a + b == b;
    } else {
      assert (a + b)[1..] == a[1..] + b && (a + b)[0] == a[0];
      LoggedAppend(a[1..], b);
    }
  }

  lemma {:induction false} RevokedAppend(a: seq<LogUnit>, b: seq<LogUnit>)
    ensures RevokedBlocks(a + b) == RevokedBlocks(a) + RevokedBlocks(b)
  {
    if a == [] {
      assert a + b == b;
    } else {
      assert (a + b)[1..] == a[1..] + b && (a + b)[0] == a[0];
      RevokedAppend(a[1..], b);
    }
  }

  lemma UnitsAppend(a: seq<LogUnit>, b: seq<LogUnit>)
    ensures Logged(a + b) == Logged(a) + Logged(b)
    ensures RevokedBlocks(a + b) == RevokedBlocks(a) + RevokedBlocks(b)
  {
    LoggedAppend(a, b);
    RevokedAppend(a, b);
  }

  lemma UnitsSnoc(a: seq<LogUnit>, u: LogUnit)
    ensures Logged(a + [u]) == Logged(a) + if u.Writes? then u.writes else []
    ensures RevokedBlocks(a + [u]) == RevokedBlocks(a) + if u.Revokes? then u.blocks else []
  {
    UnitsAppend(a, [u]);
  }

  function WriteUnits(batches: seq<seq<Write>>): (us: seq<LogUnit>)
    ensures |us| == |batches|
  {
    seq(|batches|, i requires 0 <= i < |batches| => Writes(batches[i]))
  }

  lemma {:induction false} WriteUnitsLogged(batches: seq<seq<Write>>)
    ensures Logged(WriteUnits(batches)) == Concat(batches) && RevokedBlocks(WriteUnits(batches)) == []
  {
    if batches != [] {
      var front, last := batches[..|batches| - 1], batches[|batches| - 1];
      WriteUnitsLogged(front);
      assert WriteUnits(batches) == WriteUnits(front) + [Writes(last)];
      UnitsSnoc(WriteUnits(front), Writes(last));
    }
  }

  /** A commit of `buffers` for `inoSync`. It stops at an assertion after the revoke records if the transaction has more
      buffers than credits, and at another in phase 3 if a descriptor was opened and never submitted, because the
      buffers of that one are still shadowed. Either way no commit block is written. */
  method CommitTransaction(g: Geometry, revokes: seq<nat>, buffers: seq<Buffer>, credits: int, inoSync: nat, time: (nat, nat))
    returns (committed: bool, txn: Txn, deferred: seq<Buffer>)
    requires g.Valid() && forall i :: 0 <= i < |revokes| ==> revokes[i] < g.MaxBlockNr()
    requires forall i :: 0 <= i < |buffers| ==> ValidWrite(g, buffers[i].write)
    ensures committed <==> |buffers| <= credits && LeftOpen(g, buffers, inoSync) == 0
    ensures forall i :: 0 <= i < |txn| ==> ValidUnit(g, txn[i])
    ensures RevokedBlocks(txn) == revokes
    ensures committed ==> Complete(txn) && Logged(txn) == Matching(buffers, inoSync) && deferred == Others(buffers, inoSync)
    ensures !committed ==> forall i :: 0 <= i < |txn| ==> !txn[i].Commit?
  {
    txn := WriteRevokeRecords(g, revokes);
    if |buffers| > credits { return false, txn, []; }
    var heads, submitted, pending := txn, [], [];
    submitted, pending, deferred := LogBuffers(g, buffers, inoSync);
    txn := heads + WriteUnits(submitted);
    committed := pending == [];
    AssembleTxn(g, heads, submitted, Commit(time.0, time.1));
    if committed {
      txn := txn + [Commit(time.0, time.1)];
    }
  }

  /** Revoke blocks, then descriptors, then the commit block: the shape of a transaction in the log. */
  lemma AssembleTxn(g: Geometry, heads: seq<LogUnit>, batches: seq<seq<Write>>, c: LogUnit)
    requires c.Commit? && Logged(heads) == []
    requires forall i :: 0 <= i < |heads| ==> heads[i].Revokes? && ValidUnit(g, heads[i])
    requires forall i :: 0 <= i < |batches| ==> ValidBatch(g, batches[i])
    ensures var body := heads + WriteUnits(batches);
            && RevokedBlocks(body) == RevokedBlocks(body + [c]) == RevokedBlocks(heads)
            && Logged(body + [c]) == Concat(batches) && Complete(body + [c])
            && (forall i :: 0 <= i < |body| ==> !body[i].Commit? && ValidUnit(g, body[i]))
  {
    var ws := WriteUnits(batches);
    var body := heads + ws;
    WriteUnitsLogged(batches);
    UnitsAppend(heads, ws);
    UnitsSnoc(body, c);
    forall i | 0 <= i < |body| ensures !body[i].Commit? && ValidUnit(g, body[i]) {
      if i >= |heads| { assert body[i] == ws[i - |heads|]; }
    }
  }

  // ---------- when the split commit keeps its promises ----------

  /** Every buffer list can be committed whole for inode 7 except when a later buffer of another inode
      leaves the descriptor open. */
  lemma OpenDescriptorExample(g: Geometry, w: Write)
    requires g.Valid() && ValidWrite(g, w)
    ensures LeftOpen(g, [Buffer(7, w), Buffer(8, w)], 7) == 1
    ensures LeftOpen(g, [Buffer(8, w), Buffer(7, w)], 7) == 0
  {
    var a, b := Buffer(7, w), Buffer(8, w);
    assert [a, b][..1] == [a] && [a][..0] == [];
    assert Matching([a], 7) == [w];
    assert Matching([a, b], 7) == [w];
    assert Capacity(g) > 1;
    Bits.DivUnique(1, Capacity(g), 0, 1);
  }

  lemma {:induction false} WriteMapKeys(ws: seq<Write>, b: nat)
    ensures b in WriteMap(ws) <==> exists i :: 0 <= i < |ws| && ws[i].blocknr == b
  {
    if ws != [] {
      WriteMapKeys(ws[1..], b);
      if b in WriteMap(ws[1..]) {
        var i :| 0 <= i < |ws[1..]| && ws[1..][i].blocknr == b;
        assert ws[i + 1].blocknr == b;
      }
      if i :| 0 <= i < |ws| && ws[i].blocknr == b {
        if i > 0 { assert ws[1..][i - 1].blocknr == b; }
      }
    }
  }

  lemma {:induction false} NoOthers(bs: seq<Buffer>, ino: nat)
    ensures Others(bs, ino) == [] <==> forall i :: 0 <= i < |bs| ==> bs[i].ino == ino
    ensures Others(bs, ino) == [] ==> Matching(bs, ino) == AllWrites(bs)
  {
    if bs != [] {
      var front := bs[..|bs| - 1];
      NoOthers(front, ino);
      assert bs == front + [bs[|bs| - 1]];
      if Others(bs, ino) == [] {
        assert forall i :: 0 <= i < |bs| ==> bs[i].ino == ino;
        assert AllWrites(bs) == AllWrites(front) + [bs[|bs| - 1].write];
      } else if Others(front, ino) != [] {
        var i :| 0 <= i < |front| && front[i].ino != ino;
        assert bs[i].ino != ino;
      }
    }
  }

  /** One commit loses no buffer and duplicates none. */
  lemma {:induction false} SplitConserves(bs: seq<Buffer>, ino: nat)
    ensures multiset(AllWrites(bs)) == multiset(Matching(bs, ino)) + multiset(AllWrites(Others(bs, ino)))
  {
    if bs != [] {
      var front, last := bs[..|bs| - 1], bs[|bs| - 1];
      SplitConserves(front, ino);
      AllWritesSnoc(front, last);
      assert bs == front + [last];
      if last.ino != ino {
        AllWritesSnoc(Others(front, ino), last);
        CountSnoc(AllWrites(Others(front, ino)), last.write);
        assert Matching(bs, ino) == Matching(front, ino);
      } else {
        assert Others(bs, ino) == Others(front, ino);
        CountSnoc(Matching(front, ino), last.write);
      }
      CountSnoc(AllWrites(front), last.write);
    }
  }

  lemma AllWritesSnoc(bs: seq<Buffer>, x: Buffer)
    ensures AllWrites(bs + [x]) == AllWrites(bs) + [x.write]
  {
  }

  lemma CountSnoc(ws: seq<Write>, w: Write)
    ensures multiset(ws + [w]) == multiset(ws) + multiset{w}
  {
  }
}
