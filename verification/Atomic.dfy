/** Atomic operations built from compare-and-exchange retry loops, run by any number of threads. */
module Atomic {
  import Bits
  import opened Sets

  predicate Int32(x: int) { -0x8000_0000 <= x < 0x8000_0000 }

  /** Two's complement wrap-around of the sum or difference of two 32-bit values. */
  function Wrap(x: int): int {
    if x >= 0x8000_0000 then x - 0x1_0000_0000 else if x < -0x8000_0000 then x + 0x1_0000_0000 else x
  }

  function Pattern(x: int): nat
    requires Int32(x)
  {
    if x < 0 then x + 0x1_0000_0000 else x
  }

  datatype COp = Plus | Minus | BitAnd | BitOr | BitXor

  /** `c c_op i` on 32-bit integers. */
  function Apply(op: COp, c: int, i: int): int
    requires Int32(c) && Int32(i)
  {
    match op
    case Plus => Wrap(c + i)
    case Minus => Wrap(c - i)
    case BitAnd => Wrap(Bits.And(Pattern(c), Pattern(i)))
    case BitOr => Wrap(Bits.Or(Pattern(c), Pattern(i)))
    case BitXor => Wrap(Bits.Xor(Pattern(c), Pattern(i)))
  }

  /** Sums and differences are modulo 2^32. */
  lemma ApplySums(c: int, i: int)
    requires Int32(c) && Int32(i)
    ensures Int32(Apply(Plus, c, i)) && (Apply(Plus, c, i) - (c + i)) % 0x1_0000_0000 == 0
    ensures Int32(Apply(Minus, c, i)) && (Apply(Minus, c, i) - (c - i)) % 0x1_0000_0000 == 0
    ensures Apply(Minus, Apply(Plus, c, i), i) == c
  {
  }

  lemma PatternOfWrap(x: nat)
    requires x < 0x1_0000_0000
    ensures Int32(Wrap(x)) && Pattern(Wrap(x)) == x
  {
  }

  /** The other operators work bit by bit on the patterns. */
  lemma ApplyBits(c: int, i: int, k: nat)
    requires Int32(c) && Int32(i) && k < 32
    ensures Int32(Apply(BitAnd, c, i)) && Int32(Apply(BitOr, c, i)) && Int32(Apply(BitXor, c, i))
    ensures var x, y := Pattern(c), Pattern(i);
            && Bits.Bit(Pattern(Apply(BitAnd, c, i)), k) == (Bits.Bit(x, k) && Bits.Bit(y, k))
            && Bits.Bit(Pattern(Apply(BitOr, c, i)), k) == (Bits.Bit(x, k) || Bits.Bit(y, k))
            && Bits.Bit(Pattern(Apply(BitXor, c, i)), k) == (Bits.Bit(x, k) != Bits.Bit(y, k))
  {
    var x, y := Pattern(c), Pattern(i);
    Bits.Pow2Values();
    Bits.AndBelow(x, y, 32);
    Bits.OrBelow(x, y, 32);
    Bits.XorBelow(x, y, 32);
    PatternOfWrap(Bits.And(x, y));
    PatternOfWrap(Bits.Or(x, y));
    PatternOfWrap(Bits.Xor(x, y));
    Bits.BitAnd(x, y, k);
    Bits.BitOr(x, y, k);
    Bits.BitXor(x, y, k);
  }

  // ---------- the code ----------

  class Counter {
    var counter: int

    constructor (i: int)
      ensures counter == i
    {
      counter := i;
    }

    method Cmpxchg(expected: int, new_: int) returns (seen: int)
      modifies this
      ensures seen == old(counter) && counter == if seen == expected then new_ else old(counter)
    {
      seen := counter;
      if seen == expected { counter := new_; }
    }

    /** The retry loop shared by `ATOMIC_OP`, `ATOMIC_OP_RETURN` and `ATOMIC_FETCH_OP`. `env` holds the
        values other threads leave in the counter before each exchange. The operation is applied once,
        to `c`, the value the counter has at that moment. */
    method Loop(op: COp, i: int, env: seq<int>) returns (c: int)
      requires Int32(counter) && Int32(i) && forall k :: 0 <= k < |env| ==> Int32(env[k])
      modifies this
      ensures Int32(c) && c in [old(counter)] + env && counter == Apply(op, c, i)
    {
      c := counter;
      var n := 0;
      if n < |env| { counter := env[n]; n := n + 1; }
      var seen := Cmpxchg(c, Apply(op, c, i));
      while seen != c
        invariant 0 <= n <= |env| && Int32(c) && c in [old(counter)] + env
        invariant Int32(seen) && seen in [old(counter)] + env
        invariant counter == if seen == c then Apply(op, c, i) else seen
        decreases |env| - n, seen != c
      {
        c := seen;
        if n < |env| { counter := env[n]; n := n + 1; }
        seen := Cmpxchg(c, Apply(op, c, i));
      }
    }

    /** `atomic_<op>_return`: the value just after. */
    method OpReturn(op: COp, i: int, env: seq<int>) returns (ret: int)
      requires Int32(counter) && Int32(i) && forall k :: 0 <= k < |env| ==> Int32(env[k])
      modifies this
      ensures ret == counter
      ensures exists c :: Int32(c) && c in [old(counter)] + env && ret == Apply(op, c, i)
    {
      var c := Loop(op, i, env);
      ret := Apply(op, c, i);
    }

    /** `atomic_fetch_<op>`: the value just before. */
    method FetchOp(op: COp, i: int, env: seq<int>) returns (ret: int)
      requires Int32(counter) && Int32(i) && forall k :: 0 <= k < |env| ==> Int32(env[k])
      modifies this
      ensures Int32(ret) && ret in [old(counter)] + env && counter == Apply(op, ret, i)
    {
      ret := Loop(op, i, env);
    }

    /** `__atomic_add_unless`: the value found; the counter moves only when that value is not `u`. */
    method AddUnless(a: int, u: int, env: seq<int>) returns (c: int)
      requires Int32(counter) && Int32(a) && forall k :: 0 <= k < |env| ==> Int32(env[k])
      modifies this
      ensures c in [old(counter)] + env && counter == if c == u then c else Wrap(c + a)
    {
      c := counter;
      var n, done := 0, false;
      while c != u && !done
        invariant 0 <= n <= |env| && Int32(c) && c in [old(counter)] + env
        invariant counter == if done then Wrap(c + a) else c
        invariant done ==> c != u
        decreases |env| - n, !done
      {
        if n < |env| { counter := env[n]; n := n + 1; }
        var seen := Cmpxchg(c, Wrap(c + a));
        if seen == c { done := true; } else { c := seen; }
      }
    }
  }

  // ---------- any number of threads ----------

  datatype Kind = ReturnAfter | ReturnBefore

  /** What a thread sets out to do: apply `f`, unless it finds a value that `skip` rejects. */
  datatype Task = Task(kind: Kind, f: int -> int, skip: int -> bool)

  datatype Pc = Loaded(seen: int) | Applied(ret: int, at: nat) | Skipped(ret: int, at: nat)

  /** `history` lists the threads whose exchange succeeded, in order; `at` is an operation's place in it. */
  datatype State = State(counter: int, pc: map<nat, Pc>, history: seq<nat>)

  function Look(task: Task, s: State): Pc {
    if task.skip(s.counter) then Skipped(s.counter, |s.history|) else Loaded(s.counter)
  }

  /** The next atomic step of thread `t`: its load, or one exchange. */
  function Step(tasks: map<nat, Task>, s: State, t: nat): State
    requires t in tasks
  {
    if t !in s.pc then s.(pc := s.pc[t := Look(tasks[t], s)])
    else match s.pc[t]
      case Loaded(c) =>
        if s.counter != c then s.(pc := s.pc[t := Look(tasks[t], s)])
        else
          var new_ := tasks[t].f(c);
          var ret := if tasks[t].kind == ReturnAfter then new_ else c;
          State(new_, s.pc[t := Applied(ret, |s.history|)], s.history + [t])
      case _ => s
  }

  function Exec(tasks: map<nat, Task>, s: State, run: seq<nat>): State
    requires forall t :: t in run ==> t in tasks
  {
    if run == [] then s else Step(tasks, Exec(tasks, s, run[..|run| - 1]), run[|run| - 1])
  }

  /** The counter after the tasks of `history`, one whole task at a time. */
  function Value(tasks: map<nat, Task>, init: int, history: seq<nat>): int
    requires forall t :: t in history ==> t in tasks
  {
    if history == [] then init
    else tasks[history[|history| - 1]].f(Value(tasks, init, history[..|history| - 1]))
  }

  /** The run so far is the serial run of its history. */
  ghost predicate Serial(tasks: map<nat, Task>, init: int, s: State) {
    && s.pc.Keys <= tasks.Keys
    && (forall i :: 0 <= i < |s.history| ==> s.history[i] in s.pc && s.pc[s.history[i]].Applied? && s.pc[s.history[i]].at == i)
    && s.counter == Value(tasks, init, s.history)
    && forall t :: t in s.pc ==> Settled(tasks, init, s, t)
  }

  ghost predicate Settled(tasks: map<nat, Task>, init: int, s: State, t: nat)
    requires t in s.pc && s.pc.Keys <= tasks.Keys
    requires forall i :: 0 <= i < |s.history| ==> s.history[i] in s.pc
  {
    match s.pc[t]
    case Loaded(c) => !tasks[t].skip(c)
    case Skipped(c, at) => tasks[t].skip(c) && at <= |s.history| && c == Value(tasks, init, s.history[..at])
    case Applied(ret, at) =>
      && at < |s.history| && s.history[at] == t && !tasks[t].skip(Value(tasks, init, s.history[..at]))
      && ret == if tasks[t].kind == ReturnAfter then Value(tasks, init, s.history[..at + 1])
                else Value(tasks, init, s.history[..at])
  }

  lemma SettledLater(tasks: map<nat, Task>, init: int, s: State, s': State, t: nat)
    requires s.pc.Keys <= tasks.Keys && s'.pc.Keys <= tasks.Keys && t in s.pc && t in s'.pc && s.pc[t] == s'.pc[t]
    requires |s.history| <= |s'.history| && s'.history[..|s.history|] == s.history
    requires forall i :: 0 <= i < |s.history| ==> s.history[i] in s.pc
    requires forall i :: 0 <= i < |s'.history| ==> s'.history[i] in s'.pc
    requires Settled(tasks, init, s, t)
    ensures Settled(tasks, init, s', t)
  {
    if s.pc[t].Applied? {
      var at := s.pc[t].at;
      assert s'.history[at] == s.history[at];
      assert s'.history[..at] == s.history[..at] && s'.history[..at + 1] == s.history[..at + 1];
    } else if s.pc[t].Skipped? {
      assert s'.history[..s.pc[t].at] == s.history[..s.pc[t].at];
    }
  }

  /** A successful exchange is the next entry of the history. */
  lemma SwapSerial(tasks: map<nat, Task>, init: int, s: State, t: nat)
    requires t in tasks && Serial(tasks, init, s) && t in s.pc && s.pc[t] == Loaded(s.counter)
    ensures Serial(tasks, init, Step(tasks, s, t))
  {
    var s' := Step(tasks, s, t);
    var n := |s.history|;
    assert s'.history[..n] == s.history && s'.history[..n + 1] == s'.history;
    forall i | 0 <= i < |s'.history|
      ensures s'.history[i] in s'.pc && s'.pc[s'.history[i]].Applied? && s'.pc[s'.history[i]].at == i
    {
      if i < n { assert s'.history[i] == s.history[i] != t; }
    }
    assert Settled(tasks, init, s, t);
    forall t' | t' in s'.pc ensures Settled(tasks, init, s', t') {
      if t' != t { SettledLater(tasks, init, s, s', t'); }
    }
  }

  lemma StepSerial(tasks: map<nat, Task>, init: int, s: State, t: nat)
    requires t in tasks && Serial(tasks, init, s)
    ensures Serial(tasks, init, Step(tasks, s, t))
  {
    var s' := Step(tasks, s, t);
    if t in s.pc && s.pc[t] == Loaded(s.counter) {
      SwapSerial(tasks, init, s, t);
    } else {
      forall t' | t' in s'.pc ensures Settled(tasks, init, s', t') {
        assert s.history[..|s.history|] == s.history;
        if t' in s.pc && s.pc[t'] == s'.pc[t'] { SettledLater(tasks, init, s, s', t'); }
      }
    }
  }

  /** Every interleaving of the loops is serial: each completed operation took effect exactly once, at its
      place in the history; `_return` gives the value just after its own step, `fetch_` the one just before, and an
      operation that was skipped gives the value the counter had at its place. */
  lemma {:induction false} InterleavingsSerial(tasks: map<nat, Task>, init: int, run: seq<nat>)
    requires forall t :: t in run ==> t in tasks
    ensures Serial(tasks, init, Exec(tasks, State(init, map[], []), run))
  {
    if run != [] {
      InterleavingsSerial(tasks, init, run[..|run| - 1]);
      StepSerial(tasks, init, Exec(tasks, State(init, map[], []), run[..|run| - 1]), run[|run| - 1]);
    }
  }

  // ---------- counting down ----------

  function Never(c: int): bool { false }

  function Decrement(c: int): int { if Int32(c) then Apply(Minus, c, 1) else c }

  /** `atomic_dec_return`. */
  const DEC := Task(ReturnAfter, Decrement, Never)

  lemma {:induction false} CountDown(tasks: map<nat, Task>, init: int, history: seq<nat>)
    requires forall t :: t in history ==> t in tasks && tasks[t] == DEC
    requires 0 <= init < 0x8000_0000 && |history| <= init + 0x8000_0000
    ensures Value(tasks, init, history) == init - |history|
  {
    if history != [] { CountDown(tasks, init, history[..|history| - 1]); }
  }

  /** The history names each completed thread once. */
  lemma HistoryFits(tasks: map<nat, Task>, init: int, s: State)
    requires Serial(tasks, init, s)
    ensures |s.history| <= |tasks.Keys|
    ensures |s.history| == |tasks.Keys| ==> forall t :: t in tasks ==> t in s.history
  {
    var done := Elems(s.history);
    forall i, j | 0 <= i < j < |s.history| ensures s.history[i] != s.history[j] {
      assert s.pc[s.history[i]].at == i && s.pc[s.history[j]].at == j;
    }
    Distinct(s.history);
    SubsetSize(done, tasks.Keys);
    if |s.history| == |tasks.Keys| {
      forall t | t in tasks ensures t in s.history {
        if t !in done { SubsetSize(done, tasks.Keys - {t}); }
      }
    }
  }

  function Elems(xs: seq<nat>): set<nat> { set x | x in xs }

  lemma {:induction false} Distinct(xs: seq<nat>)
    requires forall i, j :: 0 <= i < j < |xs| ==> xs[i] != xs[j]
    ensures |Elems(xs)| == |xs|
  {
    if xs != [] {
      var front, last := xs[..|xs| - 1], xs[|xs| - 1];
      Distinct(front);
      assert xs == front + [last] && last !in front;
      assert Elems(xs) == Elems(front) + {last};
    }
  }

  /** `n` threads each decrement a counter that starts at `n`: a thread sees zero exactly when it is the
      last of the `n` to take effect, so no two see it, and once all are done one has. */
  lemma OneSeesZero(tasks: map<nat, Task>, run: seq<nat>, t: nat)
    requires forall t' :: t' in tasks ==> tasks[t'] == DEC
    requires |tasks| < 0x8000_0000 && t in tasks && forall t' :: t' in run ==> t' in tasks
    ensures var s := Exec(tasks, State(|tasks|, map[], []), run);
            && (t in s.pc && s.pc[t].Applied? && s.pc[t].ret == 0 <==> |s.history| == |tasks| && s.history[|tasks| - 1] == t)
            && (s.counter == 0 <==> |s.history| == |tasks|) && s.counter >= 0
  {
    var n := |tasks|;
    var s := Exec(tasks, State(n, map[], []), run);
    InterleavingsSerial(tasks, n, run);
    HistoryFits(tasks, n, s);
    CountDown(tasks, n, s.history);
    if t in s.pc && s.pc[t].Applied? {
      assert Settled(tasks, n, s, t);
      CountDown(tasks, n, s.history[..s.pc[t].at + 1]);
    }
  }

  // ---------- reference counting ----------

  /** A reference is taken with `__atomic_add_unless(v, 1, 0)` and dropped with `atomic_dec_and_test`.
      `zeros` counts the drops that saw zero. */
  datatype Refs = Refs(counter: int, getting: map<nat, int>, holding: set<nat>, putting: map<nat, int>, zeros: nat)

  datatype RefOp = GetLoad | GetSwap | PutLoad | PutSwap

  predicate RefEnabled(pool: set<nat>, s: Refs, t: nat, op: RefOp) {
    t in pool && match op
      case GetLoad => t !in s.getting && t !in s.holding && t !in s.putting
      case GetSwap => t in s.getting
      case PutLoad => t in s.holding
      case PutSwap => t in s.putting
  }

  function RefStep(pool: set<nat>, s: Refs, t: nat, op: RefOp): Refs
    requires RefEnabled(pool, s, t, op)
  {
    match op
    case GetLoad => if s.counter == 0 then s else s.(getting := s.getting[t := s.counter])
    case GetSwap =>
      if s.counter == s.getting[t] then
        s.(counter := Wrap(s.counter + 1), getting := s.getting - {t}, holding := s.holding + {t})
      else if s.counter == 0 then s.(getting := s.getting - {t})
      else s.(getting := s.getting[t := s.counter])
    case PutLoad => s.(holding := s.holding - {t}, putting := s.putting[t := s.counter])
    case PutSwap =>
      if s.counter == s.putting[t] then
        var c := Wrap(s.counter - 1);
        s.(counter := c, putting := s.putting - {t}, zeros := if c == 0 then s.zeros + 1 else s.zeros)
      else s.(putting := s.putting[t := s.counter])
  }

  /** The counter is the number of references, and zero was seen once exactly when none is left. */
  ghost predicate Counted(pool: set<nat>, s: Refs) {
    && |pool| < 0x8000_0000
    && s.holding <= pool && s.putting.Keys <= pool && s.getting.Keys <= pool
    && s.holding !! s.putting.Keys && s.holding !! s.getting.Keys && s.putting.Keys !! s.getting.Keys
    && s.counter == |s.holding| + |s.putting.Keys|
    && (forall t :: t in s.getting ==> s.getting[t] != 0)
    && s.zeros == if s.counter == 0 then 1 else 0
  }

  lemma RefRoom(pool: set<nat>, s: Refs, t: nat)
    requires Counted(pool, s) && t in s.getting
    ensures s.counter < |pool|
  {
    assert |s.holding + s.putting.Keys| == |s.holding| + |s.putting.Keys|;
    SubsetSize(s.holding + s.putting.Keys, pool - {t});
  }

  lemma GetLoadCounted(pool: set<nat>, s: Refs, t: nat)
    requires Counted(pool, s) && RefEnabled(pool, s, t, GetLoad)
    ensures Counted(pool, RefStep(pool, s, t, GetLoad))
  {
    var s' := RefStep(pool, s, t, GetLoad);
    assert s'.getting.Keys <= s.getting.Keys + {t};
  }

  lemma GetSwapCounted(pool: set<nat>, s: Refs, t: nat)
    requires Counted(pool, s) && t in s.getting
    ensures Counted(pool, RefStep(pool, s, t, GetSwap))
    ensures s.counter == 0 ==> RefStep(pool, s, t, GetSwap).counter == 0
  {
    var s' := RefStep(pool, s, t, GetSwap);
    RefRoom(pool, s, t);
    if s.counter == s.getting[t] {
      assert s'.getting.Keys == s.getting.Keys - {t};
    } else {
      assert s'.getting.Keys <= s.getting.Keys;
    }
  }

  lemma PutLoadCounted(pool: set<nat>, s: Refs, t: nat)
    requires Counted(pool, s) && t in s.holding
    ensures Counted(pool, RefStep(pool, s, t, PutLoad))
  {
    var s' := RefStep(pool, s, t, PutLoad);
    assert s'.putting.Keys == s.putting.Keys + {t};
  }

  lemma PutSwapCounted(pool: set<nat>, s: Refs, t: nat)
    requires Counted(pool, s) && t in s.putting
    ensures Counted(pool, RefStep(pool, s, t, PutSwap))
  {
    var s' := RefStep(pool, s, t, PutSwap);
    if s.counter == s.putting[t] {
      assert s'.putting.Keys == s.putting.Keys - {t};
      SubsetSize(s.holding + s.putting.Keys, pool);
      assert |s.holding + s.putting.Keys| == |s.holding| + |s.putting.Keys|;
    } else {
      assert s'.putting.Keys == s.putting.Keys;
    }
  }

  lemma RefStepCounted(pool: set<nat>, s: Refs, t: nat, op: RefOp)
    requires Counted(pool, s) && RefEnabled(pool, s, t, op)
    ensures Counted(pool, RefStep(pool, s, t, op))
    ensures s.counter == 0 ==> RefStep(pool, s, t, op).counter == 0
  {
    match op
    case GetLoad => GetLoadCounted(pool, s, t);
    case GetSwap => GetSwapCounted(pool, s, t);
    case PutLoad => PutLoadCounted(pool, s, t);
    case PutSwap => PutSwapCounted(pool, s, t);
  }

  datatype RefEvent = RefEvent(t: nat, op: RefOp)

  ghost predicate RefRun(pool: set<nat>, s: Refs, run: seq<RefEvent>, s': Refs)
    decreases run
  {
    if run == [] then s == s'
    else RefEnabled(pool, s, run[0].t, run[0].op)
         && RefRun(pool, RefStep(pool, s, run[0].t, run[0].op), run[1..], s')
  }

  /** Over every interleaving the counter is the number of references. Once it is zero it never rises
      again, and exactly one drop saw it become zero. */
  lemma {:induction false} ZeroIsFinal(pool: set<nat>, s: Refs, run: seq<RefEvent>, s': Refs)
    requires Counted(pool, s) && RefRun(pool, s, run, s')
    ensures Counted(pool, s')
    ensures s.counter == 0 ==> s'.counter == 0 && s'.holding == {} && s'.zeros == 1
    decreases run
  {
    if run != [] {
      RefStepCounted(pool, s, run[0].t, run[0].op);
      ZeroIsFinal(pool, RefStep(pool, s, run[0].t, run[0].op), run[1..], s');
    }
  }
}
