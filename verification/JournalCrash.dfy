/** Writing transactions into the circular log, losing power in the middle of one, and mounting again. */
module JournalCrash {
  import opened JournalFormat
  import opened JournalRecovery
  import opened JournalTheorem

  predicate ValidUnits(g: Geometry, ring: Ring, units: seq<LogUnit>)
    requires ring.Valid()
  {
    forall i :: 0 <= i < |units| ==> ValidUnit(g, units[i]) && UnitSize(units[i]) <= ring.Size()
  }

  predicate Uncommitted(units: seq<LogUnit>) {
    forall i :: 0 <= i < |units| ==> !units[i].Commit?
  }

  function TidAfterAll(tid: nat, units: seq<LogUnit>): nat
    decreases units
  {
    if units == [] then tid else TidAfterAll(TidAfter(tid, units[0]), units[1..])
  }

  /** Every block of a run of units, in log order. */
  function EncodeAll(g: Geometry, uuid: Block, ring: Ring, tid: nat, units: seq<LogUnit>): (bs: seq<Block>)
    requires g.Valid() && |uuid| == UUID_WORDS && ring.Valid() && ValidUnits(g, ring, units)
    ensures |bs| == Total(units)
    decreases units
  {
    if units == [] then []
    else EncodeUnit(g, uuid, tid, units[0]) + EncodeAll(g, uuid, ring, TidAfter(tid, units[0]), units[1..])
  }

  lemma {:induction false} EncodeAllSizes(g: Geometry, uuid: Block, ring: Ring, tid: nat, units: seq<LogUnit>)
    requires g.Valid() && |uuid| == UUID_WORDS && ring.Valid() && ValidUnits(g, ring, units)
    ensures forall i :: 0 <= i < Total(units) ==> |EncodeAll(g, uuid, ring, tid, units)[i]| == g.blockWords
    decreases units
  {
    if units != [] {
      EncodeAllSizes(g, uuid, ring, TidAfter(tid, units[0]), units[1..]);
      var u, bs := units[0], EncodeUnit(g, uuid, tid, units[0]);
      forall i | 0 <= i < |bs| ensures |bs[i]| == g.blockWords {
        if i > 0 { assert ValidWrite(g, u.writes[i - 1]); }
      }
    }
  }

  lemma OnLogSplit(m: Medium, k: nat, a: seq<Block>, b: seq<Block>)
    requires m.Valid() && m.OnLog(k, a + b)
    ensures m.OnLog(k, a) && m.OnLog(k + |a|, b)
  {
    forall i | 0 <= i < |a| ensures m.At(k + i) == a[i] {
      assert (a + b)[i] == a[i];
    }
    forall i | 0 <= i < |b| ensures m.At(k + |a| + i) == b[i] {
      assert m.At(k + (|a| + i)) == (a + b)[|a| + i];
    }
  }

  /** Some of the blocks `bs` lie at place `k` and after it; where one is missing, a scan for `tid` stops. */
  predicate PartlyOnLog(m: Medium, k: nat, tid: nat, bs: seq<Block>)
    requires m.Valid()
  {
    forall i :: 0 <= i < |bs| ==> m.At(k + i) == bs[i] || EndsScan(m.At(k + i), tid)
  }

  lemma PartlyOnLogSplit(m: Medium, k: nat, tid: nat, a: seq<Block>, b: seq<Block>)
    requires m.Valid() && PartlyOnLog(m, k, tid, a + b)
    ensures PartlyOnLog(m, k, tid, a) && PartlyOnLog(m, k + |a|, tid, b)
  {
    forall i | 0 <= i < |a| ensures m.At(k + i) == a[i] || EndsScan(m.At(k + i), tid) {
      assert (a + b)[i] == a[i];
    }
    forall i | 0 <= i < |b| ensures m.At(k + |a| + i) == b[i] || EndsScan(m.At(k + |a| + i), tid) {
      assert m.At(k + (|a| + i)) == (a + b)[|a| + i] || EndsScan(m.At(k + (|a| + i)), tid);
    }
  }

  /** A log that has the blocks of the complete units holds them. */
  lemma {:induction false} WrittenHolds(m: Medium, k: nat, tid: nat, done: seq<LogUnit>, torn: seq<LogUnit>)
    requires m.Valid() && ValidUnits(m.g, m.ring, done)
    requires m.OnLog(k, EncodeAll(m.g, m.uuid, m.ring, tid, done))
    requires m.Torn(k + Total(done), TidAfterAll(tid, done), torn)
    ensures m.Holds(k, tid, done, torn)
    decreases done
  {
    if done != [] {
      var bs := EncodeUnit(m.g, m.uuid, tid, done[0]);
      OnLogSplit(m, k, bs, EncodeAll(m.g, m.uuid, m.ring, TidAfter(tid, done[0]), done[1..]));
      WrittenHolds(m, k + |bs|, TidAfter(tid, done[0]), done[1..], torn);
    }
  }

  /** Whatever subset of an uncommitted transaction's blocks is on the log, a scan stops inside it. */
  lemma {:induction false} LostBlocksTorn(m: Medium, k: nat, tid: nat, torn: seq<LogUnit>)
    requires m.Valid() && ValidUnits(m.g, m.ring, torn) && Uncommitted(torn)
    requires PartlyOnLog(m, k, tid, EncodeAll(m.g, m.uuid, m.ring, tid, torn))
    requires EndsScan(m.At(k + Total(torn)), tid)
    ensures m.Torn(k, tid, torn)
    decreases torn
  {
    if torn != [] {
      var bs := EncodeUnit(m.g, m.uuid, tid, torn[0]);
      PartlyOnLogSplit(m, k, tid, bs, EncodeAll(m.g, m.uuid, m.ring, tid, torn[1..]));
      assert m.At(k + 0) == bs[0] || EndsScan(m.At(k + 0), tid);
      LostBlocksTorn(m, k + |bs|, tid, torn[1..]);
    }
  }

  lemma {:induction false} TidAfterFlatten(tid: nat, txns: seq<Txn>, i: nat)
    requires AllComplete(txns) && i <= |txns|
    ensures TidAfterAll(Tid(tid, i), Flatten(txns[i..])) == Tid(tid, |txns|)
    decreases |txns| - i
  {
    if i < |txns| {
      assert txns[i..][0] == txns[i] && txns[i..][1..] == txns[i + 1..];
      TidAfterTxn(Tid(tid, i), txns[i], Flatten(txns[i + 1..]));
      TidStep(tid, i);
      TidAfterFlatten(tid, txns, i + 1);
    }
  }

  lemma {:induction false} TidAfterTxn(tid: nat, t: Txn, rest: seq<LogUnit>)
    requires Complete(t)
    ensures TidAfterAll(tid, t + rest) == TidAfterAll(Tid(tid, 1), rest)
    decreases t
  {
    assert (t + rest)[1..] == t[1..] + rest;
    if |t| == 1 { assert t[1..] + rest == rest; } else { TidAfterTxn(tid, t[1..], rest); }
  }

  lemma PosDistinct(ring: Ring, start: nat, i: nat, j: nat)
    requires ring.Valid() && ring.first <= start < ring.last && i < j < ring.Size()
    ensures ring.Pos(start, i) != ring.Pos(start, j)
  {
    ring.PosClosed(start, i);
    ring.PosClosed(start, j);
    ModStep(start - ring.first + i, j - i, ring.Size());
  }

  /** `to` is `was` with those of the blocks `bs` that `keep` selects written from place `k` on. */
  ghost predicate Wrote(was: seq<Block>, to: seq<Block>, ring: Ring, start: nat, k: nat, bs: seq<Block>, keep: nat -> bool)
    requires ring.Valid() && ring.first <= start < ring.last <= |was|
  {
    && |to| == |was|
    && (forall i :: 0 <= i < |bs| ==>
          to[ring.Pos(start, k + i)] == if keep(i) then bs[i] else was[ring.Pos(start, k + i)])
    && (forall i :: 0 <= i < ring.Size() && !(k <= i < k + |bs|) ==> to[ring.Pos(start, i)] == was[ring.Pos(start, i)])
  }

  lemma WroteOne(was: seq<Block>, ring: Ring, start: nat, k: nat, bs: seq<Block>, b: Block, keep: nat -> bool, mid: seq<Block>)
    requires ring.Valid() && ring.first <= start < ring.last <= |was| && k + |bs| < ring.Size()
    requires Wrote(was, mid, ring, start, k, bs, keep)
    ensures Wrote(was, if keep(|bs|) then mid[ring.Pos(start, k + |bs|) := b] else mid, ring, start, k, bs + [b], keep)
  {
    forall i | 0 <= i < ring.Size() && i != k + |bs| ensures ring.Pos(start, i) != ring.Pos(start, k + |bs|) {
      if i < k + |bs| { PosDistinct(ring, start, i, k + |bs|); } else { PosDistinct(ring, start, k + |bs|, i); }
    }
  }

  /** The log after writing `bs` from place `k` on; `keep(i)` tells whether block `i` reaches the disk. */
  ghost function Written(was: seq<Block>, ring: Ring, start: nat, k: nat, bs: seq<Block>, keep: nat -> bool): (to: seq<Block>)
    requires ring.Valid() && ring.first <= start < ring.last <= |was|
    ensures |to| == |was|
    decreases bs
  {
    if bs == [] then was
    else
      var n := |bs| - 1;
      var mid := Written(was, ring, start, k, bs[..n], keep);
      if keep(n) then mid[ring.Pos(start, k + n) := bs[n]] else mid
  }

  lemma {:induction false} WrittenWrote(was: seq<Block>, ring: Ring, start: nat, k: nat, bs: seq<Block>, keep: nat -> bool)
    requires ring.Valid() && ring.first <= start < ring.last <= |was| && k + |bs| < ring.Size()
    ensures Wrote(was, Written(was, ring, start, k, bs, keep), ring, start, k, bs, keep)
    decreases bs
  {
    if bs != [] {
      var front, b := bs[..|bs| - 1], bs[|bs| - 1];
      WrittenWrote(was, ring, start, k, front, keep);
      WroteOne(was, ring, start, k, front, b, keep, Written(was, ring, start, k, front, keep));
      assert front + [b] == bs;
    }
  }

  lemma {:induction false} WrittenSizes(was: seq<Block>, ring: Ring, start: nat, k: nat, bs: seq<Block>, keep: nat -> bool, n: nat)
    requires ring.Valid() && ring.first <= start < ring.last <= |was|
    requires forall p :: 0 <= p < |was| ==> |was[p]| == n
    requires forall i :: 0 <= i < |bs| ==> |bs[i]| == n
    ensures forall p :: 0 <= p < |was| ==> |Written(was, ring, start, k, bs, keep)[p]| == n
    decreases bs
  {
    if bs != [] { WrittenSizes(was, ring, start, k, bs[..|bs| - 1], keep, n); }
  }

  /** `jbd2_journal_next_log_block`, once per block: write `bs` from `head` on, wrapping at the end of the log. */
  method WriteLog(log: array<Block>, ring: Ring, ghost start: nat, ghost k: nat, head: nat, bs: seq<Block>, keep: nat -> bool)
    returns (head': nat)
    requires ring.Valid() && ring.first <= start < ring.last <= log.Length
    requires head == ring.Pos(start, k)
    modifies log
    ensures head' == ring.Pos(start, k + |bs|)
    ensures log[..] == Written(old(log[..]), ring, start, k, bs, keep)
  {
    head' := head;
    for j := 0 to |bs|
      invariant head' == ring.Pos(start, k + j)
      invariant log[..] == Written(old(log[..]), ring, start, k, bs[..j], keep)
    {
      var blocknr := head';
      head' := head' + 1;
      if head' == ring.last { head' := ring.first; }
      assert head' == ring.Pos(start, k + (j + 1));
      if keep(j) { log[blocknr] := bs[j]; }
      assert bs[..j + 1][..j] == bs[..j];
    }
    assert bs[..|bs|] == bs;
  }

  // ---------- what an old log holds ----------

  /** Block `b` is block `i` of a unit that transaction `tid` left in the log. */
  ghost predicate LeftBy(g: Geometry, uuid: Block, b: Block, tid: nat, u: LogUnit, i: nat)
    requires g.Valid() && |uuid| == UUID_WORDS
  {
    ValidUnit(g, u) && i < UnitSize(u) && b == EncodeUnit(g, uuid, tid, u)[i]
  }

  /** A block that is no journal block at all, or one of the `age` transactions before `first`. */
  ghost predicate StaleBlock(g: Geometry, uuid: Block, b: Block, first: nat, age: nat)
    requires g.Valid() && |uuid| == UUID_WORDS
  {
    |b| == g.blockWords && (b[0] != MAGIC || exists j, u, i :: 1 <= j <= age && LeftBy(g, uuid, b, Before(first, j), u, i))
  }

  /** The id `j` transactions before `first`. */
  function Before(first: nat, j: nat): nat { (first - j) % TIDS }

  ghost predicate StaleLog(g: Geometry, uuid: Block, log: seq<Block>, first: nat, age: nat)
    requires g.Valid() && |uuid| == UUID_WORDS
  {
    forall p :: 0 <= p < |log| ==> StaleBlock(g, uuid, log[p], first, age)
  }

  lemma BeforeDiffers(first: nat, j: nat, n: nat)
    requires 1 <= j && j + n < TIDS
    ensures Before(first, j) != Tid(first, n)
  {
  }

  /** A log of older transactions has nothing in it that a scan for a newer one would take for its own. */
  lemma StaleLogEndsScan(g: Geometry, uuid: Block, log: seq<Block>, first: nat, age: nat, n: nat)
    requires g.Valid() && |uuid| == UUID_WORDS && StaleLog(g, uuid, log, first, age) && age + n < TIDS
    ensures forall p :: 0 <= p < |log| ==> |log[p]| == g.blockWords && EndsScan(log[p], Tid(first, n))
  {
    forall p | 0 <= p < |log| ensures |log[p]| == g.blockWords && EndsScan(log[p], Tid(first, n)) {
      var b := log[p];
      assert StaleBlock(g, uuid, b, first, age);
      if b[0] == MAGIC {
        var j, u, i :| 1 <= j <= age && LeftBy(g, uuid, b, Before(first, j), u, i);
        BeforeDiffers(first, j, n);
        StaleBlocksEndScan(g, uuid, Before(first, j), u, i, Tid(first, n));
      }
    }
  }

  /** Every block reaches the disk. */
  predicate Always(i: nat) { true }

  /** After the second of two writes the blocks of the first are still in place, those of the second partly. */
  lemma AfterBothWrites(m: Medium, l0: seq<Block>, l1: seq<Block>, tid: nat, written: seq<Block>, lost: seq<Block>, keep: nat -> bool)
    requires m.Valid() && |l0| == |l1| == |m.log| && |written| + |lost| < m.ring.Size()
    requires Wrote(l0, l1, m.ring, m.start, 0, written, Always)
    requires Wrote(l1, m.log, m.ring, m.start, |written|, lost, keep)
    requires forall p :: 0 <= p < |l0| ==> EndsScan(l0[p], tid)
    ensures m.OnLog(0, written)
    ensures PartlyOnLog(m, |written|, tid, lost)
    ensures EndsScan(m.At(|written| + |lost|), tid)
  {
    forall i | 0 <= i < |written| ensures m.At(0 + i) == written[i] {
      assert l1[m.ring.Pos(m.start, 0 + i)] == written[i];
      assert m.log[m.ring.Pos(m.start, i)] == l1[m.ring.Pos(m.start, i)];
    }
    forall i | 0 <= i < |lost| ensures m.At(|written| + i) == lost[i] || EndsScan(m.At(|written| + i), tid) {
      assert l1[m.ring.Pos(m.start, |written| + i)] == l0[m.ring.Pos(m.start, |written| + i)];
    }
  }

  /** Write the blocks of the committed transactions, then those of the interrupted one that survive. */
  method WriteBoth(g: Geometry, uuid: Block, ring: Ring, log: array<Block>, head: nat, tid: nat,
                   written: seq<Block>, lost: seq<Block>, keep: nat -> bool)
    returns (m: Medium)
    requires g.Valid() && |uuid| == UUID_WORDS && ring.Valid() && ring.first <= head < ring.last <= log.Length
    requires forall p :: 0 <= p < log.Length ==> |log[p]| == g.blockWords && EndsScan(log[p], tid)
    requires forall i :: 0 <= i < |written| ==> |written[i]| == g.blockWords
    requires forall i :: 0 <= i < |lost| ==> |lost[i]| == g.blockWords
    requires |written| + |lost| < ring.Size()
    modifies log
    ensures m.Valid() && m.g == g && m.uuid == uuid && m.ring == ring && m.start == head
    ensures m.OnLog(0, written) && PartlyOnLog(m, |written|, tid, lost) && EndsScan(m.At(|written| + |lost|), tid)
  {
    ghost var l0 := log[..];
    var h := WriteLog(log, ring, head, 0, head, written, Always);
    ghost var l1 := log[..];
    WrittenSizes(l0, ring, head, 0, written, Always, g.blockWords);
    h := WriteLog(log, ring, head, |written|, h, lost, keep);
    WrittenSizes(l1, ring, head, |written|, lost, keep, g.blockWords);
    m := Medium(g, uuid, ring, log[..], head);
    assert Wrote(l0, l1, ring, head, 0, written, Always) by { WrittenWrote(l0, ring, head, 0, written, Always); }
    assert Wrote(l1, m.log, ring, head, |written|, lost, keep) by { WrittenWrote(l1, ring, head, |written|, lost, keep); }
    AfterBothWrites(m, l0, l1, tid, written, lost, keep);
  }

  /** Commit `txns` one after the other, lose power while `torn` is being written so that only the blocks `keep`
      selects survive, and mount. The file system holds exactly the committed transactions. */
  method CrashAndMount(g: Geometry, uuid: Block, ring: Ring, log: array<Block>, head: nat, sequence: nat, ghost age: nat,
                       fs: Disk, txns: seq<Txn>, torn: seq<LogUnit>, keep: nat -> bool)
    returns (fs': Disk, nextSequence: nat)
    requires g.Valid() && |uuid| == UUID_WORDS && ring.Valid() && ring.first <= head < ring.last <= log.Length
    requires StaleLog(g, uuid, log[..], sequence, age) && age + |txns| < TIDS
    requires sequence < TIDS && |txns| < HALF && AllComplete(txns)
    requires ValidUnits(g, ring, Flatten(txns)) && ValidUnits(g, ring, torn) && Uncommitted(torn)
    requires Total(Flatten(txns)) + Total(torn) < ring.Size()
    modifies log
    ensures fs' == fs + Overlay(txns) && nextSequence == Tid(sequence, |txns| + 1)
  {
    var last := Tid(sequence, |txns|);
    StaleLogEndsScan(g, uuid, log[..], sequence, age, |txns|);
    assert forall p :: 0 <= p < log.Length ==> log[p] == log[..][p];
    EncodeAllSizes(g, uuid, ring, sequence, Flatten(txns));
    EncodeAllSizes(g, uuid, ring, last, torn);
    var m := WriteBoth(g, uuid, ring, log, head, last, EncodeAll(g, uuid, ring, sequence, Flatten(txns)),
                       EncodeAll(g, uuid, ring, last, torn), keep);
    TidAfterTxns(sequence, txns);
    CrashHolds(m, sequence, last, Flatten(txns), torn);
    fs', nextSequence := MountAfterCrash(m, sequence, fs, txns, torn);
  }

  lemma CrashHolds(m: Medium, sequence: nat, last: nat, done: seq<LogUnit>, torn: seq<LogUnit>)
    requires m.Valid() && last == TidAfterAll(sequence, done)
    requires ValidUnits(m.g, m.ring, done) && ValidUnits(m.g, m.ring, torn) && Uncommitted(torn)
    requires m.OnLog(0, EncodeAll(m.g, m.uuid, m.ring, sequence, done))
    requires PartlyOnLog(m, Total(done), last, EncodeAll(m.g, m.uuid, m.ring, last, torn))
    requires EndsScan(m.At(Total(done) + Total(torn)), last)
    ensures m.Holds(0, sequence, done, torn)
  {
    LostBlocksTorn(m, Total(done), last, torn);
    WrittenHolds(m, 0, sequence, done, torn);
  }

  lemma TidAfterTxns(tid: nat, txns: seq<Txn>)
    requires tid < TIDS && AllComplete(txns)
    ensures TidAfterAll(tid, Flatten(txns)) == Tid(tid, |txns|)
  {
    TidAfterFlatten(tid, txns, 0);
    assert txns[0..] == txns && Tid(tid, 0) == tid;
  }
}
