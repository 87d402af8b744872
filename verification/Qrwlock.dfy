/** The queued read/write lock: a 32-bit word with a reader count, a waiting bit and a writer byte, changed
    by any number of threads one atomic step at a time. A reader that enters the slow path is parked: it
    keeps its bias until it withdraws it. A writer that enters the slow path has added nothing. */
module Qrwlock {
  import Bits
  import opened Sets

  const WAITING: nat := 0x100
  const LOCKED: nat := 0x0ff
  const WMASK: nat := 0x1ff
  const READER_BIAS: nat := 512
  const RANGE: nat := 0x1_0000_0000

  /** As many readers as it takes to wrap the word. */
  const MAX_READERS: nat := 0x80_0000

  function Add(c: nat, d: nat): nat { if c + d >= RANGE then c + d - RANGE else c + d }

  function Sub(c: nat, d: nat): nat
    requires d < RANGE
  {
    if c < d then c + RANGE - d else c - d
  }

  /** The word for `b` biased readers, with or without the waiting bit, and `w` writers. */
  function Encode(b: nat, waiting: bool, w: nat): int {
    var x := READER_BIAS * b + (if waiting then WAITING else 0) + LOCKED * w;
    if x >= RANGE then x - RANGE else x
  }

  predicate Fits(b: nat, w: nat) { b <= MAX_READERS && w <= 1 }

  lemma Decode(b: nat, waiting: bool, w: nat)
    requires Fits(b, w)
    ensures Encode(b, waiting, w) % READER_BIAS == (if waiting then WAITING else 0) + LOCKED * w
    ensures 0 <= Encode(b, waiting, w) < RANGE
    ensures b < MAX_READERS ==> (Encode(b, waiting, w) == 0 <==> b == 0 && !waiting && w == 0)
  {
  }

  lemma EncodeSteps(b: nat, waiting: bool, w: nat)
    requires Fits(b, w)
    ensures b < MAX_READERS ==> Encode(b + 1, waiting, w) == Add(Encode(b, waiting, w), READER_BIAS)
    ensures b > 0 ==> Encode(b - 1, waiting, w) == Sub(Encode(b, waiting, w), READER_BIAS)
    ensures !waiting ==> Encode(b, true, w) == Add(Encode(b, waiting, w), WAITING)
    ensures waiting ==> Encode(b, false, w) == Sub(Encode(b, waiting, w), WAITING)
  {
  }

  /** Storing 0 to the writer byte. */
  function ClearLow(c: nat): nat { c - c % 256 }

  lemma EncodeUnlock(b: nat, waiting: bool)
    requires b <= MAX_READERS
    ensures Encode(b, waiting, 0) == ClearLow(Encode(b, waiting, 1))
  {
    var h := 2 * b + (if waiting then 1 else 0) - (if b == MAX_READERS then 0x100_0000 else 0);
    assert Encode(b, waiting, 0) == 256 * h && Encode(b, waiting, 1) == h * 256 + 255;
    Bits.DivUnique(h * 256 + 255, 256, h, 255);
  }

  /** `cnts & _QW_WMASK`. */
  function WriterPart(c: nat): nat { Bits.And(c, WMASK) }

  lemma WriterPartLow(c: nat)
    ensures WriterPart(c) == c % READER_BIAS
  {
    Bits.Pow2Values();
    Bits.AndLowMask(c, 9);
  }

  // ---------- the lock and its threads ----------

  datatype State = State(cnts: nat, waiting: bool, readers: set<nat>, failing: set<nat>, parked: set<nat>,
                         writers: set<nat>, readTries: set<nat>, writeTries: set<nat>)
  {
    function Biased(): nat { |readers| + |failing| + |parked| }

    predicate Unbiased(t: nat) { t !in readers && t !in failing && t !in parked && t !in writers }

    predicate Idle(t: nat) { Unbiased(t) && t !in readTries && t !in writeTries }

    /** Each thread of the pool is in one place at most. */
    predicate Within(pool: set<nat>) {
      && readers <= pool && failing <= pool && parked <= pool && writers <= pool
      && readers !! failing && readers !! parked && readers !! writers
      && failing !! parked && failing !! writers && parked !! writers
      && (forall t :: t in readTries ==> t in pool && Unbiased(t) && t !in writeTries)
      && (forall t :: t in writeTries ==> t in pool && Unbiased(t))
    }

    /** No writer with a reader or a second writer. */
    predicate Exclusive() { |writers| <= 1 && (writers != {} ==> readers == {}) }
  }

  const INITIAL := State(0, false, {}, {}, {}, {}, {}, {})

  /** The read trylock is `TryReadLoad`, then `TryReadAdd`, then `TryReadBack` when the add came too late;
      the write trylock is `TryWriteLoad`, then `TryWriteSwap`. The last three operations belong to the
      slow paths. */
  datatype Op = ReadLock | TryReadLoad | TryReadAdd | TryReadBack | WriteLock | TryWriteLoad | TryWriteSwap
              | ReadUnlock | WriteUnlock | Withdraw | SetWaiting | ClearWaiting

  predicate Enabled(pool: set<nat>, s: State, t: nat, op: Op) {
    t in pool && match op
      case ReadLock | TryReadLoad | WriteLock | TryWriteLoad => s.Idle(t)
      case TryReadAdd => t in s.readTries
      case TryReadBack => t in s.failing
      case TryWriteSwap => t in s.writeTries
      case ReadUnlock => t in s.readers
      case WriteUnlock => t in s.writers
      case Withdraw => t in s.parked
      case SetWaiting => !s.waiting
      case ClearWaiting => s.waiting
  }

  function Step(pool: set<nat>, s: State, t: nat, op: Op): State
    requires Enabled(pool, s, t, op)
  {
    match op
    case ReadLock =>
      var c := Add(s.cnts, READER_BIAS);
      if WriterPart(c) == 0 then s.(cnts := c, readers := s.readers + {t}) else s.(cnts := c, parked := s.parked + {t})
    case TryReadLoad => if WriterPart(s.cnts) == 0 then s.(readTries := s.readTries + {t}) else s
    case TryReadAdd =>
      var c := Add(s.cnts, READER_BIAS);
      if WriterPart(c) == 0 then s.(cnts := c, readers := s.readers + {t}, readTries := s.readTries - {t})
      else s.(cnts := c, failing := s.failing + {t}, readTries := s.readTries - {t})
    case TryReadBack => s.(cnts := Sub(s.cnts, READER_BIAS), failing := s.failing - {t})
    case WriteLock => if s.cnts == 0 then s.(cnts := LOCKED, writers := s.writers + {t}) else s
    case TryWriteLoad => if s.cnts == 0 then s.(writeTries := s.writeTries + {t}) else s
    case TryWriteSwap =>
      if s.cnts == 0 then s.(cnts := Bits.Or(0, LOCKED), writers := s.writers + {t}, writeTries := s.writeTries - {t})
      else s.(writeTries := s.writeTries - {t})
    case ReadUnlock => s.(cnts := Sub(s.cnts, READER_BIAS), readers := s.readers - {t})
    case WriteUnlock => s.(cnts := ClearLow(s.cnts), writers := s.writers - {t})
    case Withdraw => s.(cnts := Sub(s.cnts, READER_BIAS), parked := s.parked - {t})
    case SetWaiting => s.(cnts := Add(s.cnts, WAITING), waiting := true)
    case ClearWaiting => s.(cnts := Sub(s.cnts, WAITING), waiting := false)
  }

  /** The word is what the threads have put into it, and the lock is exclusive. */
  predicate Sound(pool: set<nat>, s: State) {
    && |pool| <= MAX_READERS && s.Within(pool) && s.Exclusive()
    && s.cnts == Encode(s.Biased(), s.waiting, |s.writers|)
  }

  lemma Sizes(pool: set<nat>, s: State, t: nat)
    requires s.Within(pool)
    ensures s.Biased() <= |pool|
    ensures t in pool && s.Unbiased(t) ==> s.Biased() < |pool|
  {
    var all := s.readers + s.failing + s.parked;
    assert |s.readers + s.failing| == |s.readers| + |s.failing|;
    SubsetSize(all, pool);
    if t in pool && s.Unbiased(t) { SubsetSize(all, pool - {t}); }
  }

  /** A word that shows no writer part has no writer, and a word seen as zero by a thread without a bias
      has no bias at all. */
  lemma Reads(pool: set<nat>, s: State, t: nat)
    requires Sound(pool, s)
    ensures WriterPart(s.cnts) == 0 <==> !s.waiting && s.writers == {}
    ensures t in pool && s.Unbiased(t) ==> (s.cnts == 0 <==> s.Biased() == 0 && !s.waiting && s.writers == {})
    ensures WriterPart(Add(s.cnts, READER_BIAS)) == WriterPart(s.cnts)
  {
    Sizes(pool, s, t);
    Decode(s.Biased(), s.waiting, |s.writers|);
    WriterPartLow(s.cnts);
    WriterPartLow(Add(s.cnts, READER_BIAS));
    AddKeepsLow(s.cnts);
  }

  lemma AddKeepsLow(c: nat)
    requires c < RANGE
    ensures Add(c, READER_BIAS) % READER_BIAS == c % READER_BIAS
  {
  }

  lemma StepWithin(pool: set<nat>, s: State, t: nat, op: Op)
    requires s.Within(pool) && Enabled(pool, s, t, op)
    ensures Step(pool, s, t, op).Within(pool)
  {
  }

  lemma StepExclusive(pool: set<nat>, s: State, t: nat, op: Op)
    requires Sound(pool, s) && Enabled(pool, s, t, op)
    ensures Step(pool, s, t, op).Exclusive()
  {
    Reads(pool, s, t);
  }

  predicate EnterOp(op: Op) { op == ReadLock || op == TryReadAdd }

  predicate LeaveOp(op: Op) { op == TryReadBack || op == ReadUnlock || op == Withdraw }

  lemma EnterCounted(pool: set<nat>, s: State, t: nat, op: Op)
    requires Sound(pool, s) && Enabled(pool, s, t, op) && EnterOp(op)
    ensures var s' := Step(pool, s, t, op); s'.cnts == Encode(s'.Biased(), s'.waiting, |s'.writers|)
  {
    Sizes(pool, s, t);
    EncodeSteps(s.Biased(), s.waiting, |s.writers|);
    EnterBiased(pool, s, t, op);
  }

  lemma EnterBiased(pool: set<nat>, s: State, t: nat, op: Op)
    requires s.Within(pool) && Enabled(pool, s, t, op) && EnterOp(op)
    ensures var s' := Step(pool, s, t, op);
            s'.Biased() == s.Biased() + 1 && s'.waiting == s.waiting && s'.writers == s.writers
            && s'.cnts == Add(s.cnts, READER_BIAS)
  {
  }

  lemma LeaveCounted(pool: set<nat>, s: State, t: nat, op: Op)
    requires Sound(pool, s) && Enabled(pool, s, t, op) && LeaveOp(op)
    ensures var s' := Step(pool, s, t, op); s'.cnts == Encode(s'.Biased(), s'.waiting, |s'.writers|)
  {
    Sizes(pool, s, t);
    EncodeSteps(s.Biased(), s.waiting, |s.writers|);
  }

  lemma OtherCounted(pool: set<nat>, s: State, t: nat, op: Op)
    requires Sound(pool, s) && Enabled(pool, s, t, op) && !EnterOp(op) && !LeaveOp(op)
    ensures var s' := Step(pool, s, t, op); s'.cnts == Encode(s'.Biased(), s'.waiting, |s'.writers|)
  {
    if op == SetWaiting || op == ClearWaiting {
      Sizes(pool, s, t);
      EncodeSteps(s.Biased(), s.waiting, |s.writers|);
    } else {
      WriteCounted(pool, s, t, op);
    }
  }

  /** The loads and the write operations. */
  lemma WriteCounted(pool: set<nat>, s: State, t: nat, op: Op)
    requires Sound(pool, s) && Enabled(pool, s, t, op) && !EnterOp(op) && !LeaveOp(op)
    requires op != SetWaiting && op != ClearWaiting
    ensures var s' := Step(pool, s, t, op); s'.cnts == Encode(s'.Biased(), s'.waiting, |s'.writers|)
  {
    Sizes(pool, s, t);
    if op == WriteUnlock {
      EncodeUnlock(s.Biased(), s.waiting);
      assert |s.writers| == 1 && |s.writers - {t}| == 0;
    } else {
      Reads(pool, s, t);
    }
  }

  lemma StepSound(pool: set<nat>, s: State, t: nat, op: Op)
    requires Sound(pool, s) && Enabled(pool, s, t, op)
    ensures Sound(pool, Step(pool, s, t, op))
  {
    StepWithin(pool, s, t, op);
    StepExclusive(pool, s, t, op);
    if EnterOp(op) {
      EnterCounted(pool, s, t, op);
    } else if LeaveOp(op) {
      LeaveCounted(pool, s, t, op);
    } else {
      OtherCounted(pool, s, t, op);
    }
  }

  // ---------- whole runs ----------

  datatype Event = Event(t: nat, op: Op)

  ghost predicate Run(pool: set<nat>, s: State, run: seq<Event>, s': State)
    decreases run
  {
    if run == [] then s == s'
    else Enabled(pool, s, run[0].t, run[0].op) && Run(pool, Step(pool, s, run[0].t, run[0].op), run[1..], s')
  }

  lemma {:induction false} RunsSound(pool: set<nat>, s: State, run: seq<Event>, s': State)
    requires Sound(pool, s) && Run(pool, s, run, s')
    ensures Sound(pool, s')
    decreases run
  {
    if run != [] {
      StepSound(pool, s, run[0].t, run[0].op);
      RunsSound(pool, Step(pool, s, run[0].t, run[0].op), run[1..], s');
    }
  }

  /** The word is the sum of its three parts, and zero only when all are. */
  predicate Decodes(s: State) {
    && s.cnts == READER_BIAS * s.Biased() + (if s.waiting then WAITING else 0) + LOCKED * |s.writers|
    && (s.cnts == 0 <==> s.Biased() == 0 && !s.waiting && s.writers == {})
  }

  /** The word decodes in every run exactly when there are fewer than 2^23 threads. */
  lemma CountDecodes(pool: set<nat>)
    ensures (forall run, s :: Run(pool, INITIAL, run, s) ==> Decodes(s)) <==> |pool| < MAX_READERS
  {
    if |pool| < MAX_READERS {
      forall run, s | Run(pool, INITIAL, run, s) ensures Decodes(s) {
        RunsSound(pool, INITIAL, run, s);
        Sizes(pool, s, 0);
        Decode(s.Biased(), s.waiting, |s.writers|);
      }
    } else {
      var run, s := Gather(pool, MAX_READERS);
      assert s.cnts == 0 && s.Biased() == MAX_READERS;
      assert exists r, e :: Run(pool, INITIAL, r, e) && !Decodes(e);
    }
  }

  /** No run lets a writer share the lock exactly when there are at most 2^23 threads. */
  lemma ExclusionIffBounded(pool: set<nat>)
    ensures (forall run, s :: Run(pool, INITIAL, run, s) ==> s.Exclusive()) <==> |pool| <= MAX_READERS
  {
    if |pool| <= MAX_READERS {
      forall run, s | Run(pool, INITIAL, run, s) ensures s.Exclusive() {
        RunsSound(pool, INITIAL, run, s);
      }
    } else {
      var run, s := Overflow(pool);
      assert exists r, e :: Run(pool, INITIAL, r, e) && !e.Exclusive();
    }
  }

  lemma {:induction false} RunSnoc(pool: set<nat>, s: State, run: seq<Event>, s': State, e: Event)
    requires Run(pool, s, run, s') && Enabled(pool, s', e.t, e.op)
    ensures Run(pool, s, run + [e], Step(pool, s', e.t, e.op))
    decreases run
  {
    if run != [] {
      assert (run + [e])[1..] == run[1..] + [e];
      RunSnoc(pool, Step(pool, s, run[0].t, run[0].op), run[1..], s', e);
    }
  }

  /** `n` readers hold the lock and nobody else does anything. */
  predicate Crowd(pool: set<nat>, s: State, n: nat) {
    s == INITIAL.(cnts := Encode(n, false, 0), readers := s.readers) && |s.readers| == n && s.readers <= pool
  }

  lemma {:induction false} Gather(pool: set<nat>, n: nat) returns (run: seq<Event>, s: State)
    requires n <= MAX_READERS && n <= |pool|
    ensures Run(pool, INITIAL, run, s) && Crowd(pool, s, n)
  {
    run, s := [], INITIAL;
    if n > 0 {
      run, s := Gather(pool, n - 1);
      var t := Unused(pool, s.readers);
      EncodeSteps(n - 1, false, 0);
      Decode(n, false, 0);
      WriterPartLow(Encode(n, false, 0));
      RunSnoc(pool, INITIAL, run, s, Event(t, ReadLock));
      run, s := run + [Event(t, ReadLock)], Step(pool, s, t, ReadLock);
    }
  }

  lemma Unused(pool: set<nat>, used: set<nat>) returns (t: nat)
    requires |pool| > |used|
    ensures t in pool && t !in used
  {
    if pool <= used { SubsetSize(pool, used); }
    t :| t in pool && t !in used;
  }

  lemma Overflow(pool: set<nat>) returns (run: seq<Event>, s: State)
    requires |pool| > MAX_READERS
    ensures Run(pool, INITIAL, run, s) && !s.Exclusive()
  {
    run, s := Gather(pool, MAX_READERS);
    var t := Unused(pool, s.readers);
    RunSnoc(pool, INITIAL, run, s, Event(t, WriteLock));
    run, s := run + [Event(t, WriteLock)], Step(pool, s, t, WriteLock);
    assert t in s.writers && |s.readers| > 0;
  }

  // ---------- the code, on the bytes of the lock ----------

  type Byte = x: int | 0 <= x < 256

  /** The word held by four bytes, in either byte order. */
  function Load(little: bool, b: seq<Byte>): nat
    requires |b| == 4
  {
    if little then Quad(b[0], b[1], b[2], b[3]) else Quad(b[3], b[2], b[1], b[0])
  }

  function Quad(b0: int, b1: int, b2: int, b3: int): int { b0 + 256 * b1 + 65536 * b2 + 16777216 * b3 }

  function Store(little: bool, c: nat): (b: seq<Byte>)
    requires c < RANGE
    ensures |b| == 4
  {
    var b0, b1, b2, b3 := c % 256, c / 256 % 256, c / 65536 % 256, c / 16777216;
    if little then [b0, b1, b2, b3] else [b3, b2, b1, b0]
  }

  lemma StoreLoad(little: bool, c: nat)
    requires c < RANGE
    ensures Load(little, Store(little, c)) == c
  {
    assert c / 65536 == c / 256 / 256 && c / 16777216 == c / 65536 / 256;
  }

  /** Where the `wlocked` byte lies. */
  function WlockedAt(little: bool): nat { if little then 0 else 3 }

  /** In either layout the writer byte is the low byte of the word. */
  lemma WlockedIsLow(little: bool, b: seq<Byte>)
    requires |b| == 4
    ensures Load(little, b[WlockedAt(little) := 0]) == ClearLow(Load(little, b))
  {
    assert Load(little, b) % 256 == b[WlockedAt(little)];
  }

  class Lock {
    const little: bool
    const bytes: array<Byte>

    /** These bytes hold the word of `s`. */
    ghost predicate Is(pool: set<nat>, s: State)
      reads this, bytes
    {
      bytes.Length == 4 && Sound(pool, s) && Load(little, bytes[..]) == s.cnts
    }

    constructor (little: bool)
      ensures this.little == little && fresh(bytes) && forall pool :: |pool| <= MAX_READERS ==> Is(pool, INITIAL)
    {
      this.little := little;
      bytes := new Byte[4](i => 0);
    }

    method Read() returns (c: nat)
      requires bytes.Length == 4
      ensures c == Load(little, bytes[..]) < RANGE
    {
      c := Load(little, bytes[..]);
    }

    method Write(c: nat)
      requires bytes.Length == 4 && c < RANGE
      modifies bytes
      ensures Load(little, bytes[..]) == c
    {
      var b := Store(little, c);
      StoreLoad(little, c);
      bytes[0], bytes[1], bytes[2], bytes[3] := b[0], b[1], b[2], b[3];
      assert bytes[..] == b;
    }

    method AddReturn(d: nat) returns (c: nat)
      requires bytes.Length == 4 && d < RANGE
      modifies bytes
      ensures c == Load(little, bytes[..]) == Add(old(Load(little, bytes[..])), d)
    {
      c := Read();
      c := Add(c, d);
      Write(c);
    }

    method SubReturn(d: nat) returns (c: nat)
      requires bytes.Length == 4 && d < RANGE
      modifies bytes
      ensures c == Load(little, bytes[..]) == Sub(old(Load(little, bytes[..])), d)
    {
      c := Read();
      c := Sub(c, d);
      Write(c);
    }

    method Cmpxchg(expected: nat, new_: nat) returns (seen: nat)
      requires bytes.Length == 4 && new_ < RANGE
      modifies bytes
      ensures seen == old(Load(little, bytes[..]))
      ensures Load(little, bytes[..]) == if seen == expected then new_ else seen
    {
      seen := Read();
      if seen == expected { Write(new_); }
    }

    /** `queued_read_can_lock`: no writer and none waiting. */
    method ReadCanLock(ghost pool: set<nat>, ghost s: State) returns (ok: bool)
      requires Is(pool, s)
      ensures ok <==> !s.waiting && s.writers == {}
    {
      var c := Read();
      Reads(pool, s, 0);
      ok := WriterPart(c) == 0;
    }

    /** `queued_write_can_lock`, for a thread that holds no bias: nobody has one and nobody waits. */
    method WriteCanLock(ghost pool: set<nat>, ghost s: State, ghost t: nat) returns (ok: bool)
      requires Is(pool, s) && t in pool && s.Idle(t)
      ensures ok <==> Free(s)
    {
      var c := Read();
      Reads(pool, s, t);
      ok := c == 0;
    }

    /** `queued_read_lock`: to the slow path exactly when a writer is there or waiting. */
    method ReadLock(ghost pool: set<nat>, ghost s: State, ghost t: nat) returns (slow: bool, ghost s': State)
      requires Is(pool, s) && t in pool && s.Idle(t)
      modifies bytes
      ensures s' == Step(pool, s, t, Op.ReadLock) && Is(pool, s')
      ensures (slow <==> s.waiting || s.writers != {}) && if slow then t in s'.parked else t in s'.readers
    {
      s' := Step(pool, s, t, Op.ReadLock);
      StepSound(pool, s, t, Op.ReadLock);
      Reads(pool, s, t);
      var c := AddReturn(READER_BIAS);
      slow := WriterPart(c) != 0;
    }

    /** `queued_read_trylock`. Other threads may run after the load, reaching `mid`, and after a late add,
        reaching `end`. */
    method ReadTrylock(ghost pool: set<nat>, ghost s: State, ghost t: nat,
                       atAdd: nat, ghost mid: State, atBack: nat, ghost end: State)
      returns (ok: bool, ghost s': State)
      requires Is(pool, s) && t in pool && s.Idle(t)
      requires Sound(pool, mid) && t in mid.readTries && mid.cnts == atAdd < RANGE
      requires Sound(pool, end) && t in end.failing && end.cnts == atBack < RANGE
      modifies bytes
      ensures Is(pool, s')
      ensures ok <==> !s.waiting && s.writers == {} && !mid.waiting && mid.writers == {}
      ensures if s.waiting || s.writers != {} then s' == s
              else if ok then s' == Step(pool, mid, t, TryReadAdd) && t in s'.readers
              else s' == Step(pool, end, t, TryReadBack)
    {
      s' := s;
      Reads(pool, s, t);
      var c := Read();
      if WriterPart(c) == 0 {
        Write(atAdd);
        Reads(pool, mid, t);
        StepSound(pool, mid, t, TryReadAdd);
        c := AddReturn(READER_BIAS);
        if WriterPart(c) == 0 { return true, Step(pool, mid, t, TryReadAdd); }
        Write(atBack);
        s' := Step(pool, end, t, TryReadBack);
        StepSound(pool, end, t, TryReadBack);
        c := SubReturn(READER_BIAS);
      }
      ok := false;
    }

    /** `queued_write_trylock`. Other threads may run after the load, reaching `mid`. */
    method WriteTrylock(ghost pool: set<nat>, ghost s: State, ghost t: nat, atSwap: nat, ghost mid: State)
      returns (ok: bool, ghost s': State)
      requires Is(pool, s) && t in pool && s.Idle(t)
      requires Sound(pool, mid) && t in mid.writeTries && mid.cnts == atSwap < RANGE
      modifies bytes
      ensures Is(pool, s')
      ensures ok <==> Free(s) && Free(mid)
      ensures s' == if Free(s) then Step(pool, mid, t, TryWriteSwap) else s
      ensures ok ==> s'.writers == {t}
    {
      s' := s;
      Reads(pool, s, t);
      var c := Read();
      if c != 0 { return false, s; }
      Write(atSwap);
      Reads(pool, mid, t);
      StepSound(pool, mid, t, TryWriteSwap);
      s' := Step(pool, mid, t, TryWriteSwap);
      OrZero();
      var seen := Cmpxchg(c, Bits.Or(c, LOCKED));
      ok := seen == c;
    }

    /** `queued_write_lock`: to the slow path, having added nothing, unless the lock is free. */
    method WriteLock(ghost pool: set<nat>, ghost s: State, ghost t: nat) returns (slow: bool, ghost s': State)
      requires Is(pool, s) && t in pool && s.Idle(t)
      modifies bytes
      ensures s' == Step(pool, s, t, Op.WriteLock) && Is(pool, s')
      ensures (slow <==> !Free(s)) && if slow then s' == s else s'.writers == {t}
    {
      s' := Step(pool, s, t, Op.WriteLock);
      StepSound(pool, s, t, Op.WriteLock);
      Reads(pool, s, t);
      var seen := Cmpxchg(0, LOCKED);
      slow := seen != 0;
    }

    /** `queued_read_unlock`. */
    method ReadUnlock(ghost pool: set<nat>, ghost s: State, ghost t: nat) returns (ghost s': State)
      requires Is(pool, s) && t in s.readers
      modifies bytes
      ensures s' == Step(pool, s, t, Op.ReadUnlock) && Is(pool, s')
      ensures s'.readers == s.readers - {t} && s'.waiting == s.waiting && s'.writers == s.writers
    {
      s' := Step(pool, s, t, Op.ReadUnlock);
      StepSound(pool, s, t, Op.ReadUnlock);
      var _ := SubReturn(READER_BIAS);
    }

    /** `queued_write_unlock`: one byte is stored; every reader bias and the waiting bit stay. */
    method WriteUnlock(ghost pool: set<nat>, ghost s: State, ghost t: nat) returns (ghost s': State)
      requires Is(pool, s) && t in s.writers
      modifies bytes
      ensures s' == Step(pool, s, t, Op.WriteUnlock) && Is(pool, s')
      ensures s'.writers == {} && s'.Biased() == s.Biased() && s'.waiting == s.waiting
    {
      s' := Step(pool, s, t, Op.WriteUnlock);
      StepSound(pool, s, t, Op.WriteUnlock);
      WlockedIsLow(little, bytes[..]);
      ghost var before := bytes[..];
      bytes[WlockedAt(little)] := 0;
      assert bytes[..] == before[WlockedAt(little) := 0];
    }
  }

  /** No bias, no waiter, no writer. */
  predicate Free(s: State) { s.Biased() == 0 && !s.waiting && s.writers == {} }

  lemma OrZero()
    ensures Bits.Or(0, LOCKED) == LOCKED
  {
    forall i: nat ensures Bits.Bit(Bits.Or(0, LOCKED), i) == Bits.Bit(LOCKED, i) {
      Bits.BitOr(0, LOCKED, i);
      Bits.BitZero(i);
    }
    Bits.BitsEqual(Bits.Or(0, LOCKED), LOCKED);
  }
}
