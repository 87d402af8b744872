/** Journal recovery: three passes over the circular log that find its end, collect the revoke
    records and replay what was not revoked. Block reads and writes cannot fail here. */
module JournalRecovery {
  import opened JournalFormat
  import Bits

  const TIDS: nat := 0x1_0000_0000
  const HALF: nat := 0x8000_0000

  // ---------- transaction ids ----------

  /** `tid_gt`: the 32-bit difference, read as signed, is positive. */
  predicate TidGt(x: nat, y: nat) { 0 < (x - y) % TIDS < HALF }

  predicate TidGeq(x: nat, y: nat) { (x - y) % TIDS < HALF }

  function Tid(start: nat, i: nat): nat { (start + i) % TIDS }

  /** Within half the id space the wrapped comparison is the order of the transactions. */
  lemma TidOrder(start: nat, i: nat, j: nat)
    requires i < HALF && j < HALF
    ensures TidGt(Tid(start, i), Tid(start, j)) <==> i > j
    ensures TidGeq(Tid(start, i), Tid(start, j)) <==> i >= j
    ensures Tid(start, i) == Tid(start, j) <==> i == j
  {
    assert (Tid(start, i) - Tid(start, j)) % TIDS == (i - j) % TIDS;
  }

  // ---------- the ring ----------

  /** The log occupies blocks `first` up to `last`, used in a circle. */
  datatype Ring = Ring(first: nat, last: nat) {
    predicate Valid() { 0 < first < last }

    function Size(): nat
      requires Valid()
    {
      last - first
    }

    /** The block `k` places after `start`. */
    function Pos(start: nat, k: nat): (p: nat)
      requires Valid() && first <= start < last
      ensures first <= p < last
      decreases k
    {
      if k == 0 then start else if Pos(start, k - 1) + 1 == last then first else Pos(start, k - 1) + 1
    }

    /** `wrap`: one subtraction. */
    function Wrap(p: nat): nat
      requires Valid()
    {
      if p >= last then p - Size() else p
    }

    lemma {:induction false} PosClosed(start: nat, k: nat)
      requires Valid() && first <= start < last
      ensures Pos(start, k) == first + (start - first + k) % Size()
      decreases k
    {
      if k == 0 {
        Bits.DivUnique(start - first, Size(), 0, start - first);
      } else {
        PosClosed(start, k - 1);
        ModStep(start - first + k - 1, 1, Size());
      }
    }

    lemma WrapPos(start: nat, k: nat, n: nat)
      requires Valid() && first <= start < last && n <= Size()
      ensures Wrap(Pos(start, k) + n) == Pos(start, k + n)
    {
      PosClosed(start, k);
      PosClosed(start, k + n);
      ModStep(start - first + k, n, Size());
    }
  }

  lemma ModStep(x: nat, n: nat, m: nat)
    requires m > 0 && n <= m
    ensures (x + n) % m == if x % m + n >= m then x % m + n - m else x % m + n
  {
    var q, r := x / m, x % m;
    assert x == q * m + r;
    if r + n >= m {
      assert x + n == (q + 1) * m + (r + n - m);
      if n < m || r == 0 { Bits.DivUnique(x + n, m, q + 1, r + n - m); }
      else { Bits.DivUnique(x + n, m, q + 1, r); }
    } else {
      Bits.DivUnique(x + n, m, q, r + n);
    }
  }

  // ---------- what a log holds ----------

  function Total(units: seq<LogUnit>): nat {
    if units == [] then 0 else UnitSize(units[0]) + Total(units[1..])
  }

  function Commits(units: seq<LogUnit>): nat {
    if units == [] then 0 else (if units[0].Commit? then 1 else 0) + Commits(units[1..])
  }

  predicate Closed(units: seq<LogUnit>) {
    units == [] || units[|units| - 1].Commit?
  }

  /** The part of a journal that recovery only reads. */
  datatype Medium = Medium(g: Geometry, uuid: Block, ring: Ring, log: seq<Block>, start: nat) {
    predicate Valid() {
      && g.Valid() && |uuid| == UUID_WORDS && ring.Valid()
      && ring.first <= start < ring.last <= |log|
      && forall i :: 0 <= i < |log| ==> |log[i]| == g.blockWords
    }

    function At(k: nat): (b: Block)
      requires Valid()
      ensures |b| == g.blockWords
    {
      log[ring.Pos(start, k)]
    }

    /** The blocks `bs` lie at place `k` and after it. */
    predicate OnLog(k: nat, bs: seq<Block>)
      requires Valid()
    {
      forall i :: 0 <= i < |bs| ==> At(k + i) == bs[i]
    }

    predicate HoldsUnit(k: nat, tid: nat, u: LogUnit)
      requires Valid()
    {
      ValidUnit(g, u) && UnitSize(u) <= ring.Size() && OnLog(k, EncodeUnit(g, uuid, tid, u))
    }

    /** From place `k` on the log holds the complete units `done`, whose first transaction is `tid`,
        and then an interrupted transaction. */
    predicate Holds(k: nat, tid: nat, done: seq<LogUnit>, torn: seq<LogUnit>)
      requires Valid()
      decreases |done|
    {
      if done == [] then Torn(k, tid, torn)
      else
        && HoldsUnit(k, tid, done[0])
        && Holds(k + UnitSize(done[0]), TidAfter(tid, done[0]), done[1..], torn)
    }

    /** An interrupted transaction: any of its blocks may have missed the disk, and its commit block did.
        Where the head of a unit is missing, the older contents do not pass for transaction `tid`. */
    predicate Torn(k: nat, tid: nat, torn: seq<LogUnit>)
      requires Valid()
      decreases |torn|
    {
      || EndsScan(At(k), tid)
      || (&& torn != [] && !torn[0].Commit?
          && ValidUnit(g, torn[0]) && UnitSize(torn[0]) <= ring.Size()
          && At(k) == UnitHead(g, uuid, tid, torn[0])
          && Torn(k + UnitSize(torn[0]), tid, torn[1..]))
    }
  }

  // ---------- what the passes compute ----------

  type Table = map<nat, nat>

  function SetRevoke(t: Table, blocknr: nat, tid: nat): Table {
    if blocknr in t && !TidGt(tid, t[blocknr]) then t else t[blocknr := tid]
  }

  predicate TestRevoke(t: Table, blocknr: nat, tid: nat) {
    blocknr in t && !TidGt(tid, t[blocknr])
  }

  function SetRevokes(t: Table, blocks: seq<nat>, tid: nat): Table
    decreases blocks
  {
    if blocks == [] then t else SetRevokes(SetRevoke(t, blocks[0], tid), blocks[1..], tid)
  }

  /** The id expected after a unit. */
  function TidAfter(tid: nat, u: LogUnit): nat { if u.Commit? then Tid(tid, 1) else tid }

  function RevokeUnit(t: Table, tid: nat, u: LogUnit): Table {
    if u.Revokes? then SetRevokes(t, u.blocks, tid) else t
  }

  function RevokePass(t: Table, tid: nat, units: seq<LogUnit>): Table
    decreases units
  {
    if units == [] then t else RevokePass(RevokeUnit(t, tid, units[0]), TidAfter(tid, units[0]), units[1..])
  }

  type Disk = map<nat, Block>

  function ReplayWrite(fs: Disk, t: Table, tid: nat, w: Write): Disk {
    if TestRevoke(t, w.blocknr, tid) then fs else fs[w.blocknr := w.data]
  }

  function ReplayWrites(fs: Disk, t: Table, tid: nat, ws: seq<Write>): Disk
    decreases ws
  {
    if ws == [] then fs else ReplayWrites(ReplayWrite(fs, t, tid, ws[0]), t, tid, ws[1..])
  }

  function ReplayUnit(fs: Disk, t: Table, tid: nat, u: LogUnit): Disk {
    if u.Writes? then ReplayWrites(fs, t, tid, u.writes) else fs
  }

  function ReplayPass(fs: Disk, t: Table, tid: nat, units: seq<LogUnit>): Disk
    decreases units
  {
    if units == [] then fs else ReplayPass(ReplayUnit(fs, t, tid, units[0]), t, TidAfter(tid, units[0]), units[1..])
  }

  // ---------- the code ----------

  datatype Pass = Scan | Revoke | Replay

  datatype Status = Ok | IoError | Invalid

  class Recovery {
    const medium: Medium
    const sequence: nat
    var fs: Disk
    var revoke: Table
    var endTransaction: nat
    var transactionSequence: nat

    constructor (medium: Medium, sequence: nat, fs: Disk)
      ensures this.medium == medium && this.sequence == sequence
      ensures this.fs == fs && revoke == map[] && endTransaction == 0
    {
      this.medium, this.sequence, this.fs := medium, sequence, fs;
      revoke, endTransaction, transactionSequence := map[], 0, 0;
    }

    /** `count_tags`. */
    method CountTags(b: Block) returns (nr: nat)
      requires medium.Valid()
      ensures nr == |ParseTags(medium.g, b, HEADER_WORDS)|
    {
      nr := 0;
      var off := HEADER_WORDS;
      ghost var all := ParseTags(medium.g, b, HEADER_WORDS);
      while off + medium.g.TagWords() <= |b|
        invariant HEADER_WORDS <= off
        invariant nr + |ParseTags(medium.g, b, off)| == |all|
      {
        var tag := ReadTag(medium.g, b, off);
        nr := nr + 1;
        off := off + medium.g.TagWords() + if IsSameUuid(tag.flags) then 0 else UUID_WORDS;
        if IsLast(tag.flags) { return; }
      }
    }

    /** `scan_revoke_records`. */
    method ScanRevokeRecords(b: Block, tid: nat) returns (status: Status)
      requires medium.Valid() && |b| == medium.g.blockWords
      modifies this`revoke
      ensures status.Ok? <==> b[3] <= 4 * medium.g.blockWords
      ensures status.Ok? ==>
                revoke == SetRevokes(old(revoke), ParseRecords(medium.g, b, 4 * (HEADER_WORDS + 1), b[3]), tid)
      ensures !status.Ok? ==> revoke == old(revoke) && status == Invalid
    {
      var offset, max := 4 * (HEADER_WORDS + 1), b[3];
      if max > 4 * medium.g.blockWords { return Invalid; }
      var recordLen := 4 * medium.g.RecordWords();
      ghost var target := SetRevokes(revoke, ParseRecords(medium.g, b, offset, max), tid);
      while offset + recordLen <= max
        invariant offset % 4 == 0
        invariant SetRevokes(revoke, ParseRecords(medium.g, b, offset, max), tid) == target
      {
        revoke := SetRevoke(revoke, ReadRecord(medium.g, b, offset / 4), tid);
        offset := offset + recordLen;
      }
      status := Ok;
    }

    /** One tag of the replay pass: unless revoked, the logged block goes back to its home. */
    method ReplayTag(tag: Tag, obh: Block, tid: nat, ghost w: Write, ghost first: bool, ghost last: bool)
      requires tag == TagFor(w, first, last) && obh == Escape(w.data)
      modifies this`fs
      ensures fs == ReplayWrite(old(fs), revoke, tid, w)
    {
      EscapeRoundTrip(w, first, last);
      if !TestRevoke(revoke, tag.blocknr, tid) {
        fs := fs[tag.blocknr := Unescape(obh, tag.flags)];
      }
    }

    /** One turn of the tag loop: tag `j` of the descriptor `b`, with its data at `here`. */
    method ReplayNext(b: Block, tid: nat, off: nat, here: nat, ghost k: nat, ghost ws: seq<Write>, ghost j: nat)
      returns (off': nat, next: nat, last: bool)
      requires medium.Valid() && j < |ws| < medium.ring.Size() && DataAt(medium, k, ws)
      requires off + medium.g.TagWords() <= |b| && ParseTags(medium.g, b, off) == TagsFor(ws)[j..]
      requires here == medium.ring.Pos(medium.start, k + j)
      modifies this`fs
      ensures fs == ReplayWrite(old(fs), revoke, tid, ws[j])
      ensures next == medium.ring.Pos(medium.start, k + j + 1)
      ensures (last <==> j == |ws| - 1) && (!last ==> ParseTags(medium.g, b, off') == TagsFor(ws)[j + 1..])
    {
      var tag := ReadTag(medium.g, b, off);
      TagsTail(ws, j);
      DataStep(medium, k, ws, j, here);
      ReplayTag(tag, medium.log[here], tid, ws[j], j == 0, j == |ws| - 1);
      next := medium.ring.Wrap(here + 1);
      off' := off + medium.g.TagWords() + if IsSameUuid(tag.flags) then 0 else UUID_WORDS;
      last := IsLast(tag.flags);
    }

    /** The tag loop of the replay pass: `b` is the descriptor at place `k - 1`. */
    method ReplayTags(b: Block, tid: nat, nextLogBlock: nat, ghost k: nat, ghost ws: seq<Write>) returns (next: nat)
      requires medium.Valid() && ws != [] && |ws| < medium.ring.Size()
      requires ParseTags(medium.g, b, HEADER_WORDS) == TagsFor(ws)
      requires nextLogBlock == medium.ring.Pos(medium.start, k)
      requires DataAt(medium, k, ws)
      modifies this`fs
      ensures fs == ReplayWrites(old(fs), revoke, tid, ws)
      ensures next == medium.ring.Pos(medium.start, k + |ws|)
    {
      next := nextLogBlock;
      var off: nat, last := HEADER_WORDS, false;
      ghost var j: nat, tags := 0, TagsFor(ws);
      ghost var goal := ReplayWrites(fs, revoke, tid, ws);
      while off + medium.g.TagWords() <= |b|
        invariant j < |ws| == |tags| && ParseTags(medium.g, b, off) == tags[j..]
        invariant next == medium.ring.Pos(medium.start, k + j)
        invariant ReplayWrites(fs, revoke, tid, ws[j..]) == goal
        decreases |ws| - j
      {
        ReplayTail(fs, revoke, tid, ws, j);
        off, next, last := ReplayNext(b, tid, off, next, k, ws, j);
        j := j + 1;
        if last { return; }
      }
      assert false;
    }

    /** The `switch` of `do_one_pass`, for a block that opens unit `u` at place `k`. */
    method ProcessBlock(pass: Pass, b: Block, tid: nat, nextLogBlock: nat, ghost k: nat, ghost u: LogUnit)
      returns (tid': nat, next: nat, status: Status)
      requires medium.Valid() && ValidUnit(medium.g, u) && UnitSize(u) <= medium.ring.Size()
      requires ParsesTo(medium.g, b, u)
      requires pass.Replay? && u.Writes? ==> DataAt(medium, k + 1, u.writes)
      requires nextLogBlock == medium.ring.Pos(medium.start, k + 1)
      modifies this`fs, this`revoke
      ensures status == Ok && tid' == TidAfter(tid, u)
      ensures next == medium.ring.Pos(medium.start, k + UnitSize(u))
      ensures fs == if pass.Replay? then ReplayUnit(old(fs), revoke, tid, u) else old(fs)
      ensures revoke == if pass.Revoke? then RevokeUnit(old(revoke), tid, u) else old(revoke)
    {
      tid', next, status := tid, nextLogBlock, Ok;
      if b[1] == DESCRIPTOR_BLOCK {
        if !pass.Replay? {
          var n := CountTags(b);
          medium.ring.WrapPos(medium.start, k + 1, n);
          next := medium.ring.Wrap(next + n);
        } else {
          next := ReplayTags(b, tid, next, k + 1, u.writes);
        }
      } else if b[1] == COMMIT_BLOCK {
        tid' := (tid + 1) % TIDS;
      } else {
        if pass.Revoke? {
          status := ScanRevokeRecords(b, tid);
        }
      }
    }

    /** One round of the loop of `do_one_pass`: the header checks, then the `switch`. */
    method ReadUnit(pass: Pass, tid: nat, nextLogBlock: nat, ghost total: nat, ghost k: nat,
                    ghost rest: seq<LogUnit>, ghost after: seq<LogUnit>)
      returns (stop: bool, tid': nat, next: nat)
      requires medium.Valid() && nextLogBlock == medium.ring.Pos(medium.start, k)
      requires Progress(medium, sequence, total, k, tid, rest, after) && (pass.Replay? ==> rest != [])
      modifies this`fs, this`revoke
      ensures stop ==> rest == [] && tid' == tid
      ensures !stop ==>
                && (rest != [] || after != [])
                && var u := NextUnit(rest, after);
                   && next == medium.ring.Pos(medium.start, k + UnitSize(u)) && tid' == TidAfter(tid, u)
                   && Progress(medium, sequence, total, k + UnitSize(u), tid', RestAfter(rest), TornAfter(rest, after))
                   && fs == (if pass.Replay? then ReplayUnit(old(fs), revoke, tid, u) else old(fs))
                   && revoke == (if pass.Revoke? then RevokeUnit(old(revoke), tid, u) else old(revoke))
      ensures stop ==> fs == old(fs) && revoke == old(revoke)
    {
      var b := medium.log[nextLogBlock];
      medium.ring.WrapPos(medium.start, k, 1);
      next := medium.ring.Wrap(nextLogBlock + 1);
      Ahead(medium, sequence, total, k, tid, rest, after);
      if EndsScan(b, tid) { return true, tid, next; }
      var status;
      tid', next, status := ProcessBlock(pass, b, tid, next, k, NextUnit(rest, after));
      stop := false;
    }

    /** A round, with what it leaves of the passes over `rest`. */
    method PassRound(pass: Pass, tid: nat, nextLogBlock: nat, ghost total: nat, ghost k: nat,
                     ghost rest: seq<LogUnit>, ghost after: seq<LogUnit>)
      returns (stop: bool, tid': nat, next: nat, ghost k': nat, ghost rest': seq<LogUnit>, ghost after': seq<LogUnit>)
      requires medium.Valid() && nextLogBlock == medium.ring.Pos(medium.start, k)
      requires Progress(medium, sequence, total, k, tid, rest, after) && (!pass.Scan? ==> rest != [])
      modifies this`fs, this`revoke
      ensures Progress(medium, sequence, total, k', tid', rest', after')
      ensures if stop then tid' == tid && rest == rest' == []
              else next == medium.ring.Pos(medium.start, k') && |rest'| + |after'| < |rest| + |after|
      ensures PassKept(pass, old(fs), old(revoke), tid, rest, fs, revoke, tid', rest')
    {
      stop, tid', next := ReadUnit(pass, tid, nextLogBlock, total, k, rest, after);
      k', rest', after' := k, rest, after;
      if !stop {
        k' := k + UnitSize(NextUnit(rest, after));
        rest', after' := RestAfter(rest), TornAfter(rest, after);
      }
    }

    /** `do_one_pass`. `done` and `torn` name what the log holds. */
    method DoOnePass(pass: Pass, ghost done: seq<LogUnit>, ghost torn: seq<LogUnit>) returns (status: Status)
      requires medium.Valid() && sequence < TIDS
      requires Closed(done) && Commits(done) < HALF && medium.Holds(0, sequence, done, torn)
      requires endTransaction == if pass.Scan? then 0 else Tid(sequence, Commits(done))
      modifies this`fs, this`revoke, this`endTransaction
      ensures status == Ok && endTransaction == Tid(sequence, Commits(done))
      ensures fs == if pass.Replay? then ReplayPass(old(fs), revoke, sequence, done) else old(fs)
      ensures revoke == if pass.Revoke? then RevokePass(old(revoke), sequence, done) else old(revoke)
    {
      var nextCommit: nat, next: nat := sequence, medium.start;
      ghost var k: nat, rest, after := 0, done, torn;
      while true
        invariant next == medium.ring.Pos(medium.start, k)
        invariant Progress(medium, sequence, Commits(done), k, nextCommit, rest, after)
        invariant endTransaction == old(endTransaction)
        invariant PassKept(pass, old(fs), old(revoke), sequence, done, fs, revoke, nextCommit, rest)
        decreases |rest| + |after|
      {
        EndReached(medium, sequence, Commits(done), k, nextCommit, rest, after);
        if !pass.Scan? && TidGeq(nextCommit, endTransaction) { break; }
        var stop;
        stop, nextCommit, next, k, rest, after := PassRound(pass, nextCommit, next, Commits(done), k, rest, after);
        if stop { break; }
      }
      if pass.Scan? {
        if endTransaction == 0 { endTransaction := nextCommit; }
        status := Ok;
      } else {
        status := if endTransaction != nextCommit then IoError else Ok;
      }
    }

    /** `jbd2_journal_recover`. `start == 0` marks a cleanly unmounted journal. */
    method Recover(clean: bool, ghost done: seq<LogUnit>, ghost torn: seq<LogUnit>) returns (status: Status)
      requires sequence < TIDS && endTransaction == 0 && revoke == map[]
      requires !clean ==> medium.Valid() && Closed(done) && Commits(done) < HALF && medium.Holds(0, sequence, done, torn)
      modifies this
      ensures status == Ok && revoke == map[]
      ensures clean ==> fs == old(fs) && transactionSequence == Tid(sequence, 1)
      ensures !clean ==> transactionSequence == Tid(sequence, Commits(done) + 1)
      ensures !clean ==> fs == ReplayPass(old(fs), RevokePass(map[], sequence, done), sequence, done)
    {
      if clean {
        transactionSequence := (sequence + 1) % TIDS;
        return Ok;
      }
      status := DoOnePass(Scan, done, torn);
      if status.Ok? { status := DoOnePass(Revoke, done, torn); }
      if status.Ok? { status := DoOnePass(Replay, done, torn); }
      TidStep(sequence, Commits(done));
      endTransaction := (endTransaction + 1) % TIDS;
      transactionSequence := endTransaction;
      revoke := map[];
    }
  }

  /** What a pass still has to do with `rest` is what it had to do with `units`; the other passes' state is unchanged. */
  predicate PassKept(pass: Pass, fs0: Disk, t0: Table, tid0: nat, units: seq<LogUnit>,
                     fs: Disk, t: Table, tid: nat, rest: seq<LogUnit>)
  {
    && (if pass.Replay? then ReplayPass(fs, t, tid, rest) == ReplayPass(fs0, t, tid0, units) else fs == fs0)
    && (if pass.Revoke? then RevokePass(t, tid, rest) == RevokePass(t0, tid0, units) else t == t0)
  }

  lemma {:induction false} ClosedHasCommit(units: seq<LogUnit>)
    requires Closed(units)
    ensures units != [] ==> Commits(units) > 0 && Closed(units[1..])
    ensures units == [] ==> Commits(units) == 0
  {
    if |units| > 1 { ClosedHasCommit(units[1..]); }
  }

  lemma TidStep(start: nat, i: nat)
    ensures (Tid(start, i) + 1) % TIDS == Tid(start, i + 1) == Tid(Tid(start, i), 1)
  {
  }

  function UnitType(u: LogUnit): nat {
    match u
    case Revokes(_) => REVOKE_BLOCK
    case Writes(_) => DESCRIPTOR_BLOCK
    case Commit(_, _) => COMMIT_BLOCK
  }

  /** A head block parses to the unit it was written for. */
  predicate ParsesTo(g: Geometry, b: Block, u: LogUnit) {
    && |b| == g.blockWords && |b| > 3 && b[1] == UnitType(u)
    && (u.Writes? ==> ParseTags(g, b, HEADER_WORDS) == TagsFor(u.writes))
    && (u.Revokes? ==> b[3] <= 4 * |b| && ParseRecords(g, b, 4 * (HEADER_WORDS + 1), b[3]) == u.blocks)
  }

  lemma HeadParses(g: Geometry, uuid: Block, tid: nat, u: LogUnit)
    requires g.Valid() && |uuid| == UUID_WORDS && ValidUnit(g, u)
    ensures var b := UnitHead(g, uuid, tid, u); !EndsScan(b, tid) && ParsesTo(g, b, u)
  {
    var b := UnitHead(g, uuid, tid, u);
    assert b[0] == b[..HEADER_WORDS][0] && b[1] == b[..HEADER_WORDS][1] && b[2] == b[..HEADER_WORDS][2];
    match u
    case Revokes(blocks) => RevokeRoundTrip(g, tid, blocks);
    case Writes(ws) => DescriptorRoundTrip(g, uuid, tid, ws);
    case Commit(_, _) =>
  }

  predicate DataAt(m: Medium, k: nat, ws: seq<Write>)
    requires m.Valid()
  {
    forall i :: 0 <= i < |ws| ==> m.At(k + i) == Escape(ws[i].data)
  }

  /** Block `j` of the logged data, and the position after it. */
  lemma DataStep(m: Medium, k: nat, ws: seq<Write>, j: nat, here: nat)
    requires m.Valid() && j < |ws| < m.ring.Size() && DataAt(m, k, ws) && here == m.ring.Pos(m.start, k + j)
    ensures here < |m.log| && m.log[here] == Escape(ws[j].data)
    ensures m.ring.Wrap(here + 1) == m.ring.Pos(m.start, k + j + 1)
  {
    assert m.At(k + j) == m.log[here];
    m.ring.WrapPos(m.start, k + j, 1);
  }

  /** One write, and then the rest. */
  lemma ReplayTail(fs: Disk, t: Table, tid: nat, ws: seq<Write>, j: nat)
    requires j < |ws|
    ensures ReplayWrites(fs, t, tid, ws[j..])
         == if j + 1 == |ws| then ReplayWrite(fs, t, tid, ws[j])
            else ReplayWrites(ReplayWrite(fs, t, tid, ws[j]), t, tid, ws[j + 1..])
  {
    assert ws[j..][0] == ws[j] && ws[j..][1..] == ws[j + 1..];
  }

  lemma TagsTail(ws: seq<Write>, j: nat)
    requires j < |ws|
    ensures TagsFor(ws)[j..] != [] && TagsFor(ws)[j..][1..] == TagsFor(ws)[j + 1..]
    ensures TagsFor(ws)[j..][0] == TagFor(ws[j], j == 0, j == |ws| - 1)
    ensures IsLast(TagFor(ws[j], j == 0, j == |ws| - 1).flags) <==> j == |ws| - 1
  {
    FlagsRoundTrip(NeedsEscape(ws[j].data), j != 0, j == |ws| - 1);
  }

  /** What a pass finds at a place where the log holds a unit. */
  lemma PeekDone(m: Medium, k: nat, tid: nat, u: LogUnit)
    requires m.Valid() && m.HoldsUnit(k, tid, u)
    ensures !EndsScan(m.At(k), tid) && ParsesTo(m.g, m.At(k), u)
    ensures u.Writes? ==> DataAt(m, k + 1, u.writes)
  {
    var bs := EncodeUnit(m.g, m.uuid, tid, u);
    assert m.At(k + 0) == bs[0];
    HeadParses(m.g, m.uuid, tid, u);
    if u.Writes? {
      forall i | 0 <= i < |u.writes| ensures m.At(k + 1 + i) == Escape(u.writes[i].data) {
        assert m.At(k + (1 + i)) == bs[1 + i];
      }
    }
  }

  function NextUnit(rest: seq<LogUnit>, after: seq<LogUnit>): LogUnit
    requires rest != [] || after != []
  {
    if rest != [] then rest[0] else after[0]
  }

  function RestAfter(rest: seq<LogUnit>): seq<LogUnit> {
    if rest != [] then rest[1..] else []
  }

  function TornAfter(rest: seq<LogUnit>, after: seq<LogUnit>): seq<LogUnit>
    requires rest != [] || after != []
  {
    if rest != [] then after else after[1..]
  }

  /** Where a pass stands: at place `k`, expecting transaction `tid`, with `rest` and `after` still to read. */
  ghost predicate Progress(m: Medium, start: nat, total: nat, k: nat, tid: nat, rest: seq<LogUnit>, after: seq<LogUnit>)
    requires m.Valid()
  {
    && Closed(rest) && m.Holds(k, tid, rest, after)
    && Commits(rest) <= total < HALF && tid == Tid(start, total - Commits(rest))
  }

  /** The id of the end of the log is reached exactly when every complete unit has been read. */
  lemma EndReached(m: Medium, start: nat, total: nat, k: nat, tid: nat, rest: seq<LogUnit>, after: seq<LogUnit>)
    requires m.Valid() && Progress(m, start, total, k, tid, rest, after)
    ensures TidGeq(tid, Tid(start, total)) <==> rest == []
    ensures tid == Tid(start, total) <==> rest == []
  {
    ClosedHasCommit(rest);
    TidOrder(start, total - Commits(rest), total);
  }

  lemma Advance(m: Medium, start: nat, total: nat, k: nat, tid: nat, rest: seq<LogUnit>, after: seq<LogUnit>)
    requires m.Valid() && Progress(m, start, total, k, tid, rest, after) && !EndsScan(m.At(k), tid)
    ensures rest == [] ==> after != [] && !after[0].Commit?
    ensures var u := NextUnit(rest, after);
            Progress(m, start, total, k + UnitSize(u), TidAfter(tid, u),
                     RestAfter(rest), TornAfter(rest, after))
  {
    ClosedHasCommit(rest);
    TidStep(start, total - Commits(rest));
  }

  /** The next unit of a pass, where there is one. */
  lemma Peek(m: Medium, k: nat, tid: nat, rest: seq<LogUnit>, after: seq<LogUnit>)
    requires m.Valid() && m.Holds(k, tid, rest, after)
    ensures EndsScan(m.At(k), tid) ==> rest == []
    ensures !EndsScan(m.At(k), tid) ==>
              && (rest == [] ==> after != [] && !after[0].Commit? && m.Torn(k + UnitSize(after[0]), tid, after[1..]))
              && var u := NextUnit(rest, after);
                 ValidUnit(m.g, u) && UnitSize(u) <= m.ring.Size() && ParsesTo(m.g, m.At(k), u)
    ensures rest != [] && rest[0].Writes? ==> DataAt(m, k + 1, rest[0].writes)
  {
    if rest != [] {
      PeekDone(m, k, tid, rest[0]);
    } else if !EndsScan(m.At(k), tid) {
      HeadParses(m.g, m.uuid, tid, after[0]);
    }
  }

  /** Both together, for a scan that goes on. */
  lemma Ahead(m: Medium, start: nat, total: nat, k: nat, tid: nat, rest: seq<LogUnit>, after: seq<LogUnit>)
    requires m.Valid() && Progress(m, start, total, k, tid, rest, after)
    ensures EndsScan(m.At(k), tid) ==> rest == []
    ensures !EndsScan(m.At(k), tid) ==>
              && (rest != [] || after != [])
              && var u := NextUnit(rest, after);
                 && ValidUnit(m.g, u) && UnitSize(u) <= m.ring.Size() && ParsesTo(m.g, m.At(k), u)
                 && Progress(m, start, total, k + UnitSize(u), TidAfter(tid, u), RestAfter(rest), TornAfter(rest, after))
    ensures rest != [] && rest[0].Writes? ==> DataAt(m, k + 1, rest[0].writes)
  {
    Peek(m, k, tid, rest, after);
    if !EndsScan(m.At(k), tid) { Advance(m, start, total, k, tid, rest, after); }
  }
}
