/** The read/write semaphore: one signed word that counts holders, writers and waiters, changed by any
    number of threads one atomic step at a time. A thread that enters a slow path is parked: it keeps
    the bias it added until it withdraws it. */
module Rwsem {
  import Bits
  import opened Sets

  /** `RWSEM_ACTIVE_MASK + 1` on a 32-bit and on a 64-bit machine. */
  predicate Word(k: int) { k == 0x1_0000 || k == 0x1_0000_0000 }

  /** Half the range of a signed word, which has twice as many bits as the mask. */
  function Half(k: int): int { if k == 0x1_0000 then 0x8000_0000 else 0x8000_0000_0000_0000 }

  /** Two's complement wrap-around of the sum of two words. */
  function Wrap(k: int, x: int): int {
    if x >= Half(k) then x - 2 * Half(k) else if x < -Half(k) then x + 2 * Half(k) else x
  }

  function WaitingBias(k: int): int { -k }

  function WriteBias(k: int): int { WaitingBias(k) + 1 }

  const READ_BIAS := 1

  function AddReturn(k: int, count: int, d: int): int
  {
    Wrap(k, count + d)
  }

  /** `w * k`. */
  function Scaled(k: int, w: int): int { if k == 0x1_0000 then w * 0x1_0000 else w * 0x1_0000_0000 }

  /** The word for `active` holders or would-be holders and `waiting` write and queue biases. */
  function Encode(k: int, active: int, waiting: int): int
  {
    Wrap(k, active - Scaled(k, waiting))
  }

  /** Up to half the mask, nothing wraps: the sign says whether a waiting or write bias is there, and the
      masked low part is the number of holders. */
  lemma Decode(k: int, a: int, w: int)
    requires Word(k) && 0 <= a <= k / 2 && 0 <= w <= k / 2
    ensures Encode(k, a, w) == a - w * k
    ensures Encode(k, a, w) >= 0 <==> w == 0
    ensures Encode(k, a, w) % k == a
  {
    if k == 0x1_0000 { DecodeMod(a, w); } else { DecodeModWide(a, w); }
  }

  lemma DecodeMod(a: int, w: int)
    requires 0 <= a < 0x1_0000
    ensures (a - w * 0x1_0000) % 0x1_0000 == a
  {
  }

  lemma DecodeModWide(a: int, w: int)
    requires 0 <= a < 0x1_0000_0000
    ensures (a - w * 0x1_0000_0000) % 0x1_0000_0000 == a
  {
  }

  predicate Fits(k: int, a: int, w: int) { 0 <= a <= k / 2 && 0 <= w <= k / 2 + 1 }

  lemma AddEncoded(k: int, a: int, w: int, da: int, dw: int)
    requires Word(k) && Fits(k, a, w) && Fits(k, a + da, w + dw) && -1 <= da <= 1 && -1 <= dw <= 1
    ensures AddReturn(k, Encode(k, a, w), da - Scaled(k, dw)) == Encode(k, a + da, w + dw)
  {
    if k == 0x1_0000 {} else {}
  }

  // ---------- the lock and its threads ----------

  datatype State = State(count: int, queued: bool, readers: set<nat>, writers: set<nat>,
                         parkedReaders: set<nat>, parkedWriters: set<nat>, tries: map<nat, int>)
  {
    function Active(): nat { |readers| + |writers| + |parkedReaders| + |parkedWriters| }

    function Waiting(): nat { |writers| + |parkedWriters| + if queued then 1 else 0 }

    function Biased(): set<nat> { readers + writers + parkedReaders + parkedWriters }

    /** Each thread of the pool is in one place at most. */
    predicate Within(pool: set<nat>) {
      && readers <= pool && writers <= pool && parkedReaders <= pool && parkedWriters <= pool
      && readers !! writers && readers !! parkedReaders && readers !! parkedWriters
      && writers !! parkedReaders && writers !! parkedWriters && parkedReaders !! parkedWriters
      && forall t :: t in tries ==> t in pool && Unbiased(t) && tries[t] >= 0
    }

    predicate Unbiased(t: nat) { t !in readers && t !in writers && t !in parkedReaders && t !in parkedWriters }

    predicate Idle(t: nat) { Unbiased(t) && t !in tries }

    function AddReader(t: nat, word: int, slow: bool): State {
      if slow then this.(count := word, parkedReaders := parkedReaders + {t})
      else this.(count := word, readers := readers + {t})
    }

    function AddWriter(t: nat, word: int, slow: bool): State {
      if slow then this.(count := word, parkedWriters := parkedWriters + {t})
      else this.(count := word, writers := writers + {t})
    }

    /** A writer that got the lock is alone with it. */
    predicate Exclusive() { writers != {} ==> |writers| == 1 && readers == {} }
  }

  const INITIAL := State(0, false, {}, {}, {}, {}, map[])

  /** `TryReadLoad` and `TryReadSwap` are the two steps of the read trylock loop; the four last
      operations are what the slow paths do. */
  datatype Op = DownRead | TryReadLoad | TryReadSwap | DownWrite | TryWrite | UpRead | UpWrite | Downgrade
              | WithdrawRead | WithdrawWrite | Enqueue | Dequeue

  predicate Enabled(pool: set<nat>, s: State, t: nat, op: Op) {
    t in pool && match op
      case DownRead | TryReadLoad | DownWrite | TryWrite => s.Idle(t)
      case TryReadSwap => t in s.tries
      case UpRead => t in s.readers
      case UpWrite | Downgrade => t in s.writers
      case WithdrawRead => t in s.parkedReaders
      case WithdrawWrite => t in s.parkedWriters
      case Enqueue => !s.queued
      case Dequeue => s.queued
  }

  function Step(k: int, pool: set<nat>, s: State, t: nat, op: Op): State
    requires Word(k) && Enabled(pool, s, t, op)
  {
    match op
    case DownRead =>
      var tmp := AddReturn(k, s.count, READ_BIAS);
      s.AddReader(t, tmp, tmp <= 0)
    case TryReadLoad => if s.count < 0 then s else s.(tries := s.tries[t := s.count])
    case TryReadSwap =>
      if s.count == s.tries[t] then
        s.(count := AddReturn(k, s.count, READ_BIAS), readers := s.readers + {t}, tries := s.tries - {t})
      else s.(tries := s.tries - {t})
    case DownWrite =>
      var tmp := AddReturn(k, s.count, WriteBias(k));
      s.AddWriter(t, tmp, tmp != WriteBias(k))
    case TryWrite => if s.count != 0 then s else s.(count := WriteBias(k), writers := s.writers + {t})
    case UpRead => s.(count := AddReturn(k, s.count, -READ_BIAS), readers := s.readers - {t})
    case UpWrite => s.(count := AddReturn(k, s.count, -WriteBias(k)), writers := s.writers - {t})
    case Downgrade =>
      s.(count := AddReturn(k, s.count, -WaitingBias(k)), writers := s.writers - {t}, readers := s.readers + {t})
    case WithdrawRead => s.(count := AddReturn(k, s.count, -READ_BIAS), parkedReaders := s.parkedReaders - {t})
    case WithdrawWrite => s.(count := AddReturn(k, s.count, -WriteBias(k)), parkedWriters := s.parkedWriters - {t})
    case Enqueue => s.(count := AddReturn(k, s.count, WaitingBias(k)), queued := true)
    case Dequeue => s.(count := AddReturn(k, s.count, -WaitingBias(k)), queued := false)
  }

  /** The word is what the biases handed out add up to. */
  predicate Accounted(k: int, pool: set<nat>, s: State) {
    s.Within(pool) && s.count == Encode(k, s.Active(), s.Waiting())
  }

  lemma Sizes(pool: set<nat>, s: State)
    requires s.Within(pool)
    ensures s.Active() <= |pool| && s.Waiting() <= |pool| + 1
  {
    SubsetSize(s.Biased(), pool);
    assert |s.readers + s.writers| == |s.readers| + |s.writers|;
    assert |s.readers + s.writers + s.parkedReaders| == |s.readers| + |s.writers| + |s.parkedReaders|;
  }

  lemma Change(k: int, pool: set<nat>, s: State, s': State, da: int, dw: int)
    requires Word(k) && |pool| <= k / 2 && Accounted(k, pool, s) && s'.Within(pool)
    requires s'.Active() == s.Active() + da && s'.Waiting() == s.Waiting() + dw && -1 <= da <= 1 && -1 <= dw <= 1
    requires s'.count == AddReturn(k, s.count, da - Scaled(k, dw))
    ensures Accounted(k, pool, s')
  {
    Sizes(pool, s);
    Sizes(pool, s');
    AddEncoded(k, s.Active(), s.Waiting(), da, dw);
  }

  lemma AddReaderSets(pool: set<nat>, s: State, t: nat, word: int, slow: bool)
    requires s.Within(pool) && t in pool && s.Idle(t)
    ensures var s' := s.AddReader(t, word, slow);
            s'.Within(pool) && s'.Active() == s.Active() + 1 && s'.Waiting() == s.Waiting()
  {
  }

  lemma AddWriterSets(pool: set<nat>, s: State, t: nat, word: int, slow: bool)
    requires s.Within(pool) && t in pool && s.Idle(t)
    ensures var s' := s.AddWriter(t, word, slow);
            s'.Within(pool) && s'.Active() == s.Active() + 1 && s'.Waiting() == s.Waiting() + 1
  {
  }

  /** Adding one bias to the word keeps it accounted for, whichever way the test on it goes. */
  lemma DownReadAccounted(k: int, pool: set<nat>, s: State, t: nat, slow: bool)
    requires Word(k) && |pool| <= k / 2 && Accounted(k, pool, s) && t in pool && s.Idle(t)
    ensures Accounted(k, pool, s.AddReader(t, AddReturn(k, s.count, READ_BIAS), slow))
  {
    AddReaderSets(pool, s, t, AddReturn(k, s.count, READ_BIAS), slow);
    Change(k, pool, s, s.AddReader(t, AddReturn(k, s.count, READ_BIAS), slow), 1, 0);
  }

  lemma DownWriteAccounted(k: int, pool: set<nat>, s: State, t: nat, slow: bool)
    requires Word(k) && |pool| <= k / 2 && Accounted(k, pool, s) && t in pool && s.Idle(t)
    ensures Accounted(k, pool, s.AddWriter(t, AddReturn(k, s.count, WriteBias(k)), slow))
  {
    AddWriterSets(pool, s, t, AddReturn(k, s.count, WriteBias(k)), slow);
    Change(k, pool, s, s.AddWriter(t, AddReturn(k, s.count, WriteBias(k)), slow), 1, 1);
  }

  lemma TrySets(k: int, pool: set<nat>, s: State, t: nat)
    requires Word(k) && s.Within(pool) && t in s.tries
    ensures var s' := Step(k, pool, s, t, TryReadSwap);
            && s'.Within(pool) && s'.Waiting() == s.Waiting()
            && s'.Active() == if s.tries[t] == s.count then s.Active() + 1 else s.Active()
  {
  }

  lemma TryReadAccounted(k: int, pool: set<nat>, s: State, t: nat)
    requires Word(k) && |pool| <= k / 2 && Accounted(k, pool, s) && t in s.tries
    ensures Accounted(k, pool, Step(k, pool, s, t, TryReadSwap))
  {
    TrySets(k, pool, s, t);
    if s.tries[t] == s.count { Change(k, pool, s, Step(k, pool, s, t, TryReadSwap), 1, 0); }
  }

  lemma TryLoadAccounted(k: int, pool: set<nat>, s: State, t: nat)
    requires Word(k) && Accounted(k, pool, s) && t in pool && s.Idle(t)
    ensures Accounted(k, pool, Step(k, pool, s, t, TryReadLoad))
  {
  }

  lemma TryWriteAccounted(k: int, pool: set<nat>, s: State, t: nat)
    requires Word(k) && |pool| <= k / 2 && Accounted(k, pool, s) && t in pool && s.Idle(t)
    ensures Accounted(k, pool, Step(k, pool, s, t, TryWrite))
  {
    if s.count == 0 { Change(k, pool, s, Step(k, pool, s, t, TryWrite), 1, 1); }
  }

  lemma LeaveAccounted(k: int, pool: set<nat>, s: State, t: nat, op: Op)
    requires Word(k) && |pool| <= k / 2 && Accounted(k, pool, s) && Enabled(pool, s, t, op)
    requires op == UpRead || op == UpWrite || op == WithdrawRead || op == WithdrawWrite
    ensures Accounted(k, pool, Step(k, pool, s, t, op))
  {
    if op == UpRead {
      Change(k, pool, s, Step(k, pool, s, t, UpRead), -1, 0);
    } else if op == UpWrite {
      Change(k, pool, s, Step(k, pool, s, t, UpWrite), -1, -1);
    } else if op == WithdrawRead {
      Change(k, pool, s, Step(k, pool, s, t, WithdrawRead), -1, 0);
    } else {
      Change(k, pool, s, Step(k, pool, s, t, WithdrawWrite), -1, -1);
    }
  }

  lemma WaitAccounted(k: int, pool: set<nat>, s: State, t: nat, op: Op)
    requires Word(k) && |pool| <= k / 2 && Accounted(k, pool, s) && Enabled(pool, s, t, op)
    requires op == Downgrade || op == Enqueue || op == Dequeue
    ensures Accounted(k, pool, Step(k, pool, s, t, op))
  {
    if op == Downgrade {
      Change(k, pool, s, Step(k, pool, s, t, Downgrade), 0, -1);
    } else if op == Enqueue {
      Change(k, pool, s, Step(k, pool, s, t, Enqueue), 0, 1);
    } else {
      Change(k, pool, s, Step(k, pool, s, t, Dequeue), 0, -1);
    }
  }

  lemma StepAccounted(k: int, pool: set<nat>, s: State, t: nat, op: Op)
    requires Word(k) && |pool| <= k / 2 && Accounted(k, pool, s) && Enabled(pool, s, t, op)
    ensures Accounted(k, pool, Step(k, pool, s, t, op))
  {
    match op
    case DownRead => DownReadAccounted(k, pool, s, t, AddReturn(k, s.count, READ_BIAS) <= 0);
    case DownWrite => DownWriteAccounted(k, pool, s, t, AddReturn(k, s.count, WriteBias(k)) != WriteBias(k));
    case TryReadLoad => TryLoadAccounted(k, pool, s, t);
    case TryReadSwap => TryReadAccounted(k, pool, s, t);
    case TryWrite => TryWriteAccounted(k, pool, s, t);
    case UpRead | UpWrite | WithdrawRead | WithdrawWrite => LeaveAccounted(k, pool, s, t, op);
    case Downgrade | Enqueue | Dequeue => WaitAccounted(k, pool, s, t, op);
  }

  /** A thread of the pool without a write bias leaves room for the queue bias, so the word is exact. */
  lemma Exact(k: int, pool: set<nat>, s: State, t: nat)
    requires Word(k) && |pool| <= k / 2 && Accounted(k, pool, s) && t in pool && t !in s.writers + s.parkedWriters
    ensures s.count == s.Active() - s.Waiting() * k && s.count % k == s.Active() <= k / 2
    ensures s.count >= 0 <==> s.Waiting() == 0
  {
    Sizes(pool, s);
    SubsetSize(s.writers + s.parkedWriters, pool - {t});
    Decode(k, s.Active(), s.Waiting());
  }

  /** The word is zero exactly when it carries no bias. */
  lemma Zero(k: int, pool: set<nat>, s: State)
    requires Word(k) && |pool| <= k / 2 && Accounted(k, pool, s)
    ensures s.count == 0 <==> s.Active() == s.Waiting() == 0
    ensures -Half(k) <= s.count < Half(k)
  {
    Sizes(pool, s);
    ZeroEncoded(k, s.Active(), s.Waiting());
  }

  lemma ZeroEncoded(k: int, a: int, w: int)
    requires Word(k) && Fits(k, a, w)
    ensures Encode(k, a, w) == 0 <==> a == w == 0
    ensures -Half(k) <= Encode(k, a, w) < Half(k)
  {
    if k == 0x1_0000 {} else {}
  }

  /** The test `__down_write` makes on the sum is the test for zero on the word before. */
  lemma SumTest(k: int, count: int)
    requires Word(k) && -Half(k) <= count < Half(k)
    ensures AddReturn(k, count, WriteBias(k)) == WriteBias(k) <==> count == 0
  {
    if k == 0x1_0000 {} else {}
  }

  lemma AcquireRead(k: int, pool: set<nat>, s: State, t: nat, op: Op)
    requires Word(k) && |pool| <= k / 2 && Accounted(k, pool, s) && Enabled(pool, s, t, op)
    requires op == DownRead || op == TryReadSwap
    ensures t in Step(k, pool, s, t, op).readers ==> s.Waiting() == 0
  {
    if op == DownRead {
      StepAccounted(k, pool, s, t, op);
      Exact(k, pool, Step(k, pool, s, t, op), t);
    } else {
      Exact(k, pool, s, t);
    }
  }

  lemma AcquireWrite(k: int, pool: set<nat>, s: State, t: nat, op: Op)
    requires Word(k) && |pool| <= k / 2 && Accounted(k, pool, s) && Enabled(pool, s, t, op)
    requires op == DownWrite || op == TryWrite
    ensures t in Step(k, pool, s, t, op).writers ==> s.Active() == s.Waiting() == 0
  {
    Zero(k, pool, s);
    SumTest(k, s.count);
  }

  /** Whoever gets the lock for reading finds no write bias, and whoever gets it for writing finds no bias at all. */
  lemma Acquire(k: int, pool: set<nat>, s: State, t: nat, op: Op)
    requires Word(k) && |pool| <= k / 2 && Accounted(k, pool, s) && Enabled(pool, s, t, op)
    ensures var s' := Step(k, pool, s, t, op);
            && (t in s'.readers - s.readers && op != Downgrade ==> s.Waiting() == 0)
            && (t in s'.writers - s.writers ==> s.Active() == s.Waiting() == 0)
  {
    if op == DownRead || op == TryReadSwap {
      AcquireRead(k, pool, s, t, op);
    } else if op == DownWrite || op == TryWrite {
      AcquireWrite(k, pool, s, t, op);
    }
  }

  /** The word after a release, in terms of who is left. */
  lemma ReadWake(k: int, pool: set<nat>, s: State, t: nat)
    requires Word(k) && |pool| <= k / 2 && Accounted(k, pool, s) && t in s.readers
    ensures var s' := Step(k, pool, s, t, UpRead);
            s'.count < -1 && s'.count % k == 0 <==> s'.Biased() == {} && s'.queued
  {
    var s' := Step(k, pool, s, t, UpRead);
    LeaveAccounted(k, pool, s, t, UpRead);
    Exact(k, pool, s', t);
  }

  /** Sets only: a step whose acquisitions find the lock free keeps the lock exclusive. */
  lemma ExclusiveKept(k: int, pool: set<nat>, s: State, t: nat, op: Op)
    requires Word(k) && s.Within(pool) && s.Exclusive() && Enabled(pool, s, t, op)
    requires var s' := Step(k, pool, s, t, op);
             && (t in s'.readers - s.readers && op != Downgrade ==> s.writers == {})
             && (t in s'.writers - s.writers ==> s.readers == s.writers == {})
    ensures Step(k, pool, s, t, op).Exclusive()
  {
  }

  lemma StepExclusive(k: int, pool: set<nat>, s: State, t: nat, op: Op)
    requires Word(k) && |pool| <= k / 2 && Accounted(k, pool, s) && s.Exclusive() && Enabled(pool, s, t, op)
    ensures Step(k, pool, s, t, op).Exclusive()
  {
    Acquire(k, pool, s, t, op);
    ExclusiveKept(k, pool, s, t, op);
  }

  lemma StepSound(k: int, pool: set<nat>, s: State, t: nat, op: Op)
    requires Sound(k, pool, s) && Enabled(pool, s, t, op)
    ensures Sound(k, pool, Step(k, pool, s, t, op))
  {
    StepAccounted(k, pool, s, t, op);
    StepExclusive(k, pool, s, t, op);
  }

  /** Sets only: a write attempt on a word that is zero exactly when it carries no bias. */
  lemma AloneThen(k: int, pool: set<nat>, s: State, t: nat, op: Op)
    requires Word(k) && s.Within(pool) && Enabled(pool, s, t, op) && (op == DownWrite || op == TryWrite)
    requires s.count == 0 <==> s.Biased() == {} && !s.queued
    requires AddReturn(k, s.count, WriteBias(k)) == WriteBias(k) <==> s.count == 0
    ensures var s' := Step(k, pool, s, t, op);
            && (t in s'.writers <==> s.Biased() == {} && !s.queued)
            && (t in s'.writers ==> s'.writers == {t} && s'.Biased() == {t})
  {
    Empty(s);
  }

  /** A write attempt gets the lock exactly when the word carries no bias. */
  lemma Alone(k: int, pool: set<nat>, s: State, t: nat, op: Op)
    requires Sound(k, pool, s) && Enabled(pool, s, t, op) && (op == DownWrite || op == TryWrite)
    ensures var s' := Step(k, pool, s, t, op);
            && (t in s'.writers <==> s.Biased() == {} && !s.queued)
            && (t in s'.writers ==> s'.writers == {t} && s'.Biased() == {t})
  {
    Zero(k, pool, s);
    SumTest(k, s.count);
    Empty(s);
    AloneThen(k, pool, s, t, op);
  }

  lemma Empty(s: State)
    ensures s.Active() == 0 <==> s.Biased() == {}
    ensures s.Biased() == {} ==> s.readers == s.writers == s.parkedReaders == s.parkedWriters == {}
  {
    assert s.readers <= s.Biased() && s.writers <= s.Biased() && s.parkedReaders <= s.Biased() && s.parkedWriters <= s.Biased();
  }

  datatype Event = Event(t: nat, op: Op)

  ghost predicate Run(k: int, pool: set<nat>, s: State, run: seq<Event>, s': State)
    requires Word(k)
    decreases run
  {
    if run == [] then s == s'
    else Enabled(pool, s, run[0].t, run[0].op) && Run(k, pool, Step(k, pool, s, run[0].t, run[0].op), run[1..], s')
  }

  predicate Sound(k: int, pool: set<nat>, s: State) {
    Word(k) && |pool| <= k / 2 && Accounted(k, pool, s) && s.Exclusive()
  }

  lemma {:induction false} RunsSound(k: int, pool: set<nat>, s: State, run: seq<Event>, s': State)
    requires Sound(k, pool, s) && Run(k, pool, s, run, s')
    ensures Sound(k, pool, s')
    decreases run
  {
    if run != [] {
      StepSound(k, pool, s, run[0].t, run[0].op);
      RunsSound(k, pool, Step(k, pool, s, run[0].t, run[0].op), run[1..], s');
    }
  }

  /** The word is the active biases minus the waiting ones, weighed by the mask plus one. */
  predicate Decodes(k: int, s: State) { s.count == s.Active() - s.Waiting() * k }

  /** The word decodes in every run exactly when the pool has at most half as many threads as the mask allows. */
  lemma CountDecodes(k: int, pool: set<nat>)
    requires Word(k)
    ensures (forall run, s :: Run(k, pool, INITIAL, run, s) ==> Decodes(k, s)) <==> |pool| <= (k - 1) / 2
  {
    if |pool| <= (k - 1) / 2 {
      forall run, s | Run(k, pool, INITIAL, run, s) ensures Decodes(k, s) {
        RunsSound(k, pool, INITIAL, run, s);
        SmallPool(k, pool, s);
      }
    } else {
      var run, s := Undecodable(k, pool);
      assert exists r, e :: Run(k, pool, INITIAL, r, e) && !Decodes(k, e);
    }
  }

  /** Half a mask of writers and one queue bias wrap the word. */
  lemma Undecodable(k: int, pool: set<nat>) returns (run: seq<Event>, s: State)
    requires Word(k) && |pool| >= k / 2
    ensures Run(k, pool, INITIAL, run, s) && !Decodes(k, s)
  {
    run, s := Gather(k, pool, k / 2);
    var t :| t in s.writers;
    Wrapped(k);
    RunSnoc(k, pool, INITIAL, run, s, Event(t, Enqueue));
    run, s := run + [Event(t, Enqueue)], Step(k, pool, s, t, Enqueue);
    assert s.count > 0 && s.Waiting() == s.Active() + 1;
    Negative(k, s.Active());
  }

  lemma Negative(k: int, a: int)
    requires Word(k) && a >= 0
    ensures a - (a + 1) * k < 0
  {
    if k == 0x1_0000 {} else {}
  }

  lemma SmallPool(k: int, pool: set<nat>, s: State)
    requires Word(k) && |pool| <= (k - 1) / 2 && Accounted(k, pool, s)
    ensures Decodes(k, s)
  {
    Sizes(pool, s);
    Decode(k, s.Active(), s.Waiting());
  }

  /** No run lets a writer share the lock exactly when the pool has at most `(RWSEM_ACTIVE_MASK + 1) / 2`
      threads: one more, and enough parked writers wrap the word. */
  lemma ExclusionIffHalf(k: int, pool: set<nat>)
    requires Word(k)
    ensures (forall run, s :: Run(k, pool, INITIAL, run, s) ==> s.Exclusive()) <==> |pool| <= k / 2
  {
    if |pool| <= k / 2 {
      forall run, s | Run(k, pool, INITIAL, run, s) ensures s.Exclusive() {
        RunsSound(k, pool, INITIAL, run, s);
      }
    } else {
      var run, s := Overflow(k, pool);
      assert exists r, e :: Run(k, pool, INITIAL, r, e) && !e.Exclusive();
    }
  }

  lemma {:induction false} RunSnoc(k: int, pool: set<nat>, s: State, run: seq<Event>, s': State, e: Event)
    requires Word(k) && Run(k, pool, s, run, s') && Enabled(pool, s', e.t, e.op)
    ensures Run(k, pool, s, run + [e], Step(k, pool, s', e.t, e.op))
    decreases run
  {
    if run != [] {
      assert (run + [e])[1..] == run[1..] + [e];
      RunSnoc(k, pool, Step(k, pool, s, run[0].t, run[0].op), run[1..], s', e);
    }
  }

  /** One writer holds the lock and `n - 1` others are parked. */
  predicate Crowd(k: int, pool: set<nat>, s: State, n: nat) {
    && s == State(n - n * k, false, {}, s.writers, {}, s.parkedWriters, map[])
    && |s.writers| == 1 && |s.parkedWriters| == n - 1 && s.writers !! s.parkedWriters
    && s.writers + s.parkedWriters <= pool
  }

  lemma Unused(pool: set<nat>, s: State) returns (t: nat)
    requires |pool| > |s.writers| + |s.parkedWriters| && s.writers !! s.parkedWriters
    requires s.readers == s.parkedReaders == {} && s.tries == map[]
    ensures t in pool && s.Idle(t)
  {
    var used := s.writers + s.parkedWriters;
    if pool <= used { SubsetSize(pool, used); }
    t :| t in pool && t !in used;
  }

  lemma ParkStep(k: int, n: int)
    requires Word(k) && 1 <= n <= k / 2
    ensures AddReturn(k, n - 1 - (n - 1) * k, WriteBias(k)) == n - n * k
    ensures n - n * k == WriteBias(k) <==> n == 1
  {
    if k == 0x1_0000 {} else {}
  }

  lemma {:induction false} Gather(k: int, pool: set<nat>, n: nat) returns (run: seq<Event>, s: State)
    requires Word(k) && 1 <= n <= k / 2 && n <= |pool|
    ensures Run(k, pool, INITIAL, run, s) && Crowd(k, pool, s, n)
    decreases n
  {
    run, s := [], INITIAL;
    if n > 1 { run, s := Gather(k, pool, n - 1); }
    var t := Unused(pool, s);
    CrowdStep(k, pool, s, n, t);
    RunSnoc(k, pool, INITIAL, run, s, Event(t, DownWrite));
    run, s := run + [Event(t, DownWrite)], Step(k, pool, s, t, DownWrite);
  }

  lemma CrowdStep(k: int, pool: set<nat>, s: State, n: nat, t: nat)
    requires Word(k) && 1 <= n <= k / 2 && t in pool && s.Idle(t)
    requires if n == 1 then s == INITIAL else Crowd(k, pool, s, n - 1)
    ensures Enabled(pool, s, t, DownWrite) && Crowd(k, pool, Step(k, pool, s, t, DownWrite), n)
  {
    ParkStep(k, n);
  }

  lemma Wrapped(k: int)
    requires Word(k)
    ensures AddReturn(k, k / 2 - k / 2 * k, WaitingBias(k)) > 0
    ensures AddReturn(k, AddReturn(k, k / 2 - k / 2 * k, WaitingBias(k)), READ_BIAS) > 0
  {
    if k == 0x1_0000 {} else {}
  }

  lemma Overflow(k: int, pool: set<nat>) returns (run: seq<Event>, s: State)
    requires Word(k) && |pool| > k / 2
    ensures Run(k, pool, INITIAL, run, s) && !s.Exclusive()
  {
    run, s := Gather(k, pool, k / 2);
    var t := Unused(pool, s);
    Wrapped(k);
    RunSnoc(k, pool, INITIAL, run, s, Event(t, Enqueue));
    run, s := run + [Event(t, Enqueue)], Step(k, pool, s, t, Enqueue);
    RunSnoc(k, pool, INITIAL, run, s, Event(t, DownRead));
    run, s := run + [Event(t, DownRead)], Step(k, pool, s, t, DownRead);
    assert t in s.readers;
  }

  // ---------- the code ----------

  /** The bits of a signed word, masked with `RWSEM_ACTIVE_MASK`. */
  function Masked(k: int, x: int): nat
    requires Word(k) && -Half(k) <= x < Half(k)
  {
    Bits.And(if x < 0 then x + 2 * Half(k) else x, k - 1)
  }

  lemma MaskedLow(k: int, x: int)
    requires Word(k) && -Half(k) <= x < Half(k)
    ensures Masked(k, x) == x % k
  {
    if k == 0x1_0000 { Masked32(x); } else { Masked64(x); }
  }

  lemma Masked32(x: int)
    requires -0x8000_0000 <= x < 0x8000_0000
    ensures Masked(0x1_0000, x) == x % 0x1_0000
  {
    Bits.Pow2Values();
    Bits.Pow2Add(8, 8);
    var u := if x < 0 then x + 0x1_0000_0000 else x;
    Bits.AndLowMask(u, 16);
    SameLow(x, u);
  }

  lemma SameLow(x: int, u: int)
    requires u == x || u == x + 0x1_0000_0000
    ensures u % 0x1_0000 == x % 0x1_0000
  {
    var q, r := x / 0x1_0000, x % 0x1_0000;
    assert x + 0x1_0000_0000 == (q + 0x1_0000) * 0x1_0000 + r;
  }

  lemma Masked64(x: int)
    requires -0x8000_0000_0000_0000 <= x < 0x8000_0000_0000_0000
    ensures Masked(0x1_0000_0000, x) == x % 0x1_0000_0000
  {
    Bits.Pow2Values();
    var u := if x < 0 then x + 0x1_0000_0000_0000_0000 else x;
    Bits.AndLowMask(u, 32);
    SameLowWide(x, u);
  }

  lemma SameLowWide(x: int, u: int)
    requires u == x || u == x + 0x1_0000_0000_0000_0000
    ensures u % 0x1_0000_0000 == x % 0x1_0000_0000
  {
    var q, r := x / 0x1_0000_0000, x % 0x1_0000_0000;
    assert x + 0x1_0000_0000_0000_0000 == (q + 0x1_0000_0000) * 0x1_0000_0000 + r;
  }

  const EINTR := 4

  /** Thread `t` looks at the word in state `s` and swaps at once. */
  ghost function Locked(k: int, pool: set<nat>, s: State, t: nat): State
    requires Word(k) && t in pool && s.Idle(t)
  {
    var loaded := Step(k, pool, s, t, TryReadLoad);
    if t in loaded.tries then Step(k, pool, loaded, t, TryReadSwap) else s
  }

  lemma TryLocks(k: int, pool: set<nat>, s: State, t: nat)
    requires Sound(k, pool, s) && t in pool && s.Idle(t)
    ensures Sound(k, pool, Locked(k, pool, s, t))
    ensures s.count >= 0 ==> var s' := Locked(k, pool, s, t);
                             t in s'.readers && s'.count == AddReturn(k, s.count, READ_BIAS) && s'.writers == s.writers
  {
    StepSound(k, pool, s, t, TryReadLoad);
    var loaded := Step(k, pool, s, t, TryReadLoad);
    if t in loaded.tries { StepSound(k, pool, loaded, t, TryReadSwap); }
  }

  class Semaphore {
    const k: int
    var count: int

    constructor (k: int)
      requires Word(k)
      ensures this.k == k && count == 0 && forall pool :: |pool| <= k / 2 ==> Sound(k, pool, INITIAL)
    {
      this.k, count := k, 0;
    }

    /** This word is the one of `s`. */
    ghost predicate Is(pool: set<nat>, s: State)
      reads this
    {
      Sound(k, pool, s) && count == s.count
    }

    method AtomicAddReturn(d: int) returns (r: int)
      modifies this
      ensures r == count == AddReturn(k, old(count), d)
    {
      count := AddReturn(k, count, d);
      r := count;
    }

    method AtomicCmpxchg(expected: int, new_: int) returns (seen: int)
      modifies this
      ensures seen == old(count) && count == if seen == expected then new_ else old(count)
    {
      seen := count;
      if seen == expected { count := new_; }
    }

    /** `__down_read`: to the slow path exactly when a write or queue bias is on the word. */
    method DownRead(ghost pool: set<nat>, ghost s: State, ghost t: nat) returns (slow: bool, ghost s': State)
      requires Is(pool, s) && t in pool && s.Idle(t)
      modifies this
      ensures s' == Step(k, pool, s, t, Op.DownRead) && Is(pool, s')
      ensures (slow <==> s.Waiting() > 0) && if slow then t in s'.parkedReaders else t in s'.readers && s'.writers == {}
    {
      s' := Step(k, pool, s, t, Op.DownRead);
      StepSound(k, pool, s, t, Op.DownRead);
      Exact(k, pool, s', t);
      var tmp := AtomicAddReturn(READ_BIAS);
      slow := tmp <= 0;
    }

    /** `__down_read_trylock`. Before each swap and each further look other threads may run, reaching the next of `mids`,
        which leaves the word at the next of `env`. It takes the lock at once in a state `at` without write or queue bias, or gives up
        in a state with one. */
    method DownReadTrylock(ghost pool: set<nat>, ghost s: State, ghost t: nat, env: seq<int>, ghost mids: seq<State>)
      returns (ok: bool, ghost at: State, ghost s': State)
      requires Is(pool, s) && t in pool && s.Idle(t) && |mids| == |env|
      requires forall i :: 0 <= i < |env| ==> Sound(k, pool, mids[i]) && mids[i].Idle(t) && mids[i].count == env[i]
      modifies this
      ensures at in [s] + mids && Is(pool, s') && (ok <==> at.Waiting() == 0)
      ensures s' == if ok then Locked(k, pool, at, t) else at
      ensures ok ==> t in s'.readers && s'.writers == {}
    {
      at, s' := s, s;
      var i := 0;
      Exact(k, pool, at, t);
      var tmp := count;
      while tmp >= 0
        invariant 0 <= i <= |env| && at in [s] + mids && at.Idle(t) && Is(pool, at) && tmp == count
        invariant tmp >= 0 <==> at.Waiting() == 0
        decreases |env| - i, tmp >= 0
      {
        if i < |env| {
          count, at, i := env[i], mids[i], i + 1;
          Exact(k, pool, at, t);
        }
        TryLocks(k, pool, at, t);
        var seen := AtomicCmpxchg(tmp, AddReturn(k, tmp, READ_BIAS));
        if seen == tmp { return true, at, Locked(k, pool, at, t); }
        if i < |env| {
          count, at, i := env[i], mids[i], i + 1;
          Exact(k, pool, at, t);
        }
        tmp := count;
      }
      return false, at, at;
    }

    /** `__down_write`: to the slow path exactly when any bias is on the word. */
    method DownWrite(ghost pool: set<nat>, ghost s: State, ghost t: nat) returns (slow: bool, ghost s': State)
      requires Is(pool, s) && t in pool && s.Idle(t)
      modifies this
      ensures s' == Step(k, pool, s, t, Op.DownWrite) && Is(pool, s')
      ensures (slow <==> s.Biased() != {} || s.queued)
      ensures if slow then t in s'.parkedWriters else s'.writers == {t} && s'.Biased() == {t}
    {
      s' := Step(k, pool, s, t, Op.DownWrite);
      StepSound(k, pool, s, t, Op.DownWrite);
      Alone(k, pool, s, t, Op.DownWrite);
      var tmp := AtomicAddReturn(WriteBias(k));
      slow := tmp != WriteBias(k);
    }

    /** `__down_write_killable`: `interrupted` is what the slow path reports. */
    method DownWriteKillable(interrupted: bool, ghost pool: set<nat>, ghost s: State, ghost t: nat)
      returns (err: int, ghost s': State)
      requires Is(pool, s) && t in pool && s.Idle(t)
      modifies this
      ensures s' == Step(k, pool, s, t, Op.DownWrite) && Is(pool, s')
      ensures err == if interrupted && (s.Biased() != {} || s.queued) then -EINTR else 0
    {
      var slow;
      slow, s' := DownWrite(pool, s, t);
      err := if slow && interrupted then -EINTR else 0;
    }

    /** `__down_write_trylock`: succeeds exactly on a word without any bias. */
    method DownWriteTrylock(ghost pool: set<nat>, ghost s: State, ghost t: nat) returns (ok: bool, ghost s': State)
      requires Is(pool, s) && t in pool && s.Idle(t)
      modifies this
      ensures s' == Step(k, pool, s, t, TryWrite) && Is(pool, s')
      ensures (ok <==> s.Biased() == {} && !s.queued) && (ok ==> s'.writers == {t}) && (!ok ==> s' == s)
    {
      s' := Step(k, pool, s, t, TryWrite);
      StepSound(k, pool, s, t, TryWrite);
      Alone(k, pool, s, t, TryWrite);
      var tmp := AtomicCmpxchg(0, WriteBias(k));
      ok := tmp == 0;
    }

    /** `__up_read`: wakes exactly when no active bias is left and the queue is not empty. */
    method UpRead(ghost pool: set<nat>, ghost s: State, ghost t: nat) returns (wake: bool, ghost s': State)
      requires Is(pool, s) && t in s.readers
      modifies this
      ensures s' == Step(k, pool, s, t, Op.UpRead) && Is(pool, s')
      ensures wake <==> s'.Biased() == {} && s'.queued
    {
      s' := Step(k, pool, s, t, Op.UpRead);
      StepSound(k, pool, s, t, Op.UpRead);
      ReadWake(k, pool, s, t);
      var tmp := AtomicAddReturn(-READ_BIAS);
      MaskedLow(k, tmp);
      wake := tmp < -1 && Masked(k, tmp) == 0;
    }

    /** `__up_write`: wakes exactly when the queue or another writer's bias is left. */
    method UpWrite(ghost pool: set<nat>, ghost s: State, ghost t: nat) returns (wake: bool, ghost s': State)
      requires Is(pool, s) && t in s.writers
      modifies this
      ensures s' == Step(k, pool, s, t, Op.UpWrite) && Is(pool, s')
      ensures wake <==> s'.queued || s'.parkedWriters != {}
    {
      s' := Step(k, pool, s, t, Op.UpWrite);
      StepSound(k, pool, s, t, Op.UpWrite);
      Exact(k, pool, s', t);
      var tmp := AtomicAddReturn(-WriteBias(k));
      wake := tmp < 0;
    }

    /** `__downgrade_write`: one write bias becomes one read bias; wakes as `__up_write` does. */
    method DowngradeWrite(ghost pool: set<nat>, ghost s: State, ghost t: nat) returns (wake: bool, ghost s': State)
      requires Is(pool, s) && t in s.writers
      modifies this
      ensures s' == Step(k, pool, s, t, Downgrade) && Is(pool, s')
      ensures s'.readers == {t} && s'.writers == {} && s'.Active() == s.Active() && s'.Waiting() == s.Waiting() - 1
      ensures wake <==> s'.queued || s'.parkedWriters != {}
    {
      s' := Step(k, pool, s, t, Downgrade);
      StepSound(k, pool, s, t, Downgrade);
      Exact(k, pool, s', t);
      var tmp := AtomicAddReturn(-WaitingBias(k));
      wake := tmp < 0;
    }
  }
}
