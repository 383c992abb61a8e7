/** Reading and writing the HPET main counter from several threads (kernel/src/hpet.cpp:131-196).

    The counter is 64 bits wide but is accessed as two 32-bit registers.  `get` stops it, takes the
    lock and reads high, low, high until the high half is stable; between its stop and its lock any
    other thread may start the counter again.  Every register access, lock and unlock is one step
    of the machine below; the device itself may count between any two steps while it is enabled. */
module Hpet {

  const HALF: nat := 0x1_0000_0000
  const FULL: nat := 0x1_0000_0000_0000_0000

  function High(c: nat): nat {
    c / HALF
  }

  function Low(c: nat): nat {
    c % HALF
  }

  datatype Op = Get | Set(value: nat) | Start | Stop

  /** Where a thread is: the step it takes next. */
  datatype Point =
    | Idle
    | StopLock | StopRead | StopWrite | StopUnlock
    | BodyLock
    | FirstHigh | ReadLow | SecondHigh | ReadNarrow
    | WriteLow | WriteHigh
    | BodyUnlock
    | StartLock | StartRead | StartWrite | StartUnlock

  /** General configuration register: bit 0 enables counting; the other 31 bits are none of this protocol's business. */
  datatype Config = Config(enabled: bool, others: nat)

  /** `high`, `low`, `config` and `result` are the locals of the running call.  The rest records its
      history: the counter when `high` and `low` were last read, when the body took the lock, the
      first high half read and the number of further rounds. */
  datatype Thread = Thread(
    op: Op, at: Point, config: Config, high: nat, low: nat, result: nat,
    highSeen: nat, lowSeen: nat, lockSeen: nat, stoppedAtLock: bool, firstHigh: nat, rounds: nat)

  datatype Lock = Free | Held(holder: nat)

  datatype State = State(large: bool, counter: nat, config: Config, lock: Lock, threads: seq<Thread>)

  datatype Action = Tick(n: nat) | Call(t: nat, op: Op) | Step(t: nat)

  // -------------------------------------------------------------------- steps

  /** Between lock and unlock. */
  predicate Inside(p: Point) {
    p.StopRead? || p.StopWrite? || p.StopUnlock? || InsideBody(p) || p.StartRead? || p.StartWrite? || p.StartUnlock?
  }

  predicate InsideBody(p: Point) {
    p.FirstHigh? || p.ReadLow? || p.SecondHigh? || p.ReadNarrow? || p.WriteLow? || p.WriteHigh? || p.BodyUnlock?
  }

  predicate Acquires(p: Point) {
    p.StopLock? || p.BodyLock? || p.StartLock?
  }

  predicate CanAct(s: State, a: Action) {
    match a
    case Tick(n) => s.config.enabled && s.counter + n < FULL
    case Call(t, op) => t < |s.threads| && s.threads[t].at.Idle? && (op.Set? ==> op.value < FULL)
    case Step(t) => t < |s.threads| && !s.threads[t].at.Idle? && (Acquires(s.threads[t].at) ==> s.lock.Free?)
  }

  function Begin(op: Op): Point {
    if op.Start? then StartLock else StopLock
  }

  /** What the thread does to itself in one step. */
  function StepThread(s: State, th: Thread): Thread {
    match th.at
    case Idle => th
    case StopLock => th.(at := StopRead)
    case StopRead => th.(at := StopWrite, config := s.config)
    case StopWrite => th.(at := StopUnlock)
    case StopUnlock => th.(at := if th.op.Stop? then Idle else BodyLock)
    case BodyLock =>
      th.(at := if th.op.Set? then WriteLow else if s.large then FirstHigh else ReadNarrow,
          lockSeen := s.counter, stoppedAtLock := !s.config.enabled)
    case FirstHigh =>
      th.(at := ReadLow, high := High(s.counter), highSeen := s.counter, firstHigh := High(s.counter), rounds := 0)
    case ReadLow => th.(at := SecondHigh, low := Low(s.counter), lowSeen := s.counter)
    case SecondHigh =>
      if High(s.counter) == th.high then th.(at := BodyUnlock, result := th.high * HALF + th.low)
      else th.(at := ReadLow, high := High(s.counter), highSeen := s.counter, rounds := th.rounds + 1)
    case ReadNarrow => th.(at := BodyUnlock, result := Low(s.counter), lowSeen := s.counter)
    case WriteLow => th.(at := WriteHigh)
    case WriteHigh => th.(at := BodyUnlock)
    case BodyUnlock => th.(at := StartLock)
    case StartLock => th.(at := StartRead)
    case StartRead => th.(at := StartWrite, config := s.config)
    case StartWrite => th.(at := StartUnlock)
    case StartUnlock => th.(at := Idle)
  }

  /** What it does to the device and the lock. */
  function StepCounter(s: State, th: Thread): nat {
    match th.at
    case WriteLow => if th.op.Set? then High(s.counter) * HALF + Low(th.op.value) else s.counter
    case WriteHigh => if th.op.Set? then High(th.op.value) * HALF + Low(s.counter) else s.counter
    case _ => s.counter
  }

  function StepConfig(s: State, th: Thread): Config {
    match th.at
    case StopWrite => th.config.(enabled := false)
    case StartWrite => th.config.(enabled := true)
    case _ => s.config
  }

  function StepLock(s: State, t: nat, p: Point): Lock {
    if Acquires(p) then Held(t)
    else if p.StopUnlock? || p.BodyUnlock? || p.StartUnlock? then Free
    else s.lock
  }

  function Act(s: State, a: Action): State
    requires CanAct(s, a)
  {
    match a
    case Tick(n) => s.(counter := s.counter + n)
    case Call(t, op) => s.(threads := s.threads[t := s.threads[t].(op := op, at := Begin(op))])
    case Step(t) =>
      var th := s.threads[t];
      State(s.large, StepCounter(s, th), StepConfig(s, th), StepLock(s, t, th.at),
            s.threads[t := StepThread(s, th)])
  }

  // ---------------------------------------------------------------- invariant

  /** What is true of a thread in the body of `get`, or of `set`, while it holds the lock. */
  predicate BodyOk(large: bool, counter: nat, config: Config, th: Thread) {
    && (th.stoppedAtLock ==> !config.enabled)
    && (th.op.Get? ==>
          && th.lockSeen <= counter && (th.stoppedAtLock ==> counter == th.lockSeen)
          && !th.at.WriteLow? && !th.at.WriteHigh? && (th.at.ReadNarrow? ==> !large) && (th.at.FirstHigh? ==> large)
          && (th.at.ReadLow? || th.at.SecondHigh? ==>
                && large && th.lockSeen <= th.highSeen <= counter && th.high == High(th.highSeen)
                && High(th.lockSeen) <= th.firstHigh && th.firstHigh + th.rounds <= th.high)
          && (th.at.SecondHigh? ==> th.highSeen <= th.lowSeen <= counter && th.low == Low(th.lowSeen))
          && (th.at.BodyUnlock? && large ==>
                th.result == th.lowSeen && th.lockSeen <= th.lowSeen <= counter
                && High(th.lockSeen) <= th.firstHigh && th.firstHigh + th.rounds <= High(th.lowSeen))
          && (th.at.BodyUnlock? && !large ==> th.result == Low(th.lowSeen) && th.lockSeen <= th.lowSeen <= counter))
    && (th.op.Set? ==>
          && th.op.value < FULL
          && (th.at.WriteLow? || th.at.WriteHigh? || th.at.BodyUnlock?)
          && (th.stoppedAtLock && th.at.WriteHigh? ==> Low(counter) == Low(th.op.value))
          && (th.stoppedAtLock && th.at.BodyUnlock? ==> counter == th.op.value))
  }

  predicate ThreadOk(s: State, t: nat)
    requires t < |s.threads|
  {
    var th := s.threads[t];
    && (Inside(th.at) <==> s.lock == Held(t))
    && (InsideBody(th.at) ==> (th.op.Get? || th.op.Set?) && BodyOk(s.large, s.counter, s.config, th))
    && (th.at.BodyLock? ==> th.op.Get? || th.op.Set?)
    && (th.at.StopLock? || th.at.StopRead? || th.at.StopWrite? || th.at.StopUnlock? ==> !th.op.Start?)
    && (th.op.Set? ==> th.op.value < FULL)
    && ConfigOk(s.config, th)
  }

  /** What it knows of the register while it stops or starts the counter. */
  predicate ConfigOk(config: Config, th: Thread) {
    && (th.at.StopWrite? || th.at.StartWrite? ==> th.config == config)
    && (th.at.StopUnlock? ==> !config.enabled)
    && (th.at.StartUnlock? ==> config.enabled && !th.op.Stop?)
    && (th.at.StartLock? || th.at.StartRead? || th.at.StartWrite? ==> !th.op.Stop?)
  }

  predicate Inv(s: State) {
    && s.counter < FULL
    && (forall t :: 0 <= t < |s.threads| ==> ThreadOk(s, t))
    && (s.lock.Held? ==> s.lock.holder < |s.threads|)
  }

  lemma HighMonotone(a: nat, b: nat)
    requires a <= b
    ensures High(a) <= High(b)
  {}

  lemma Halves(c: nat)
    ensures c == High(c) * HALF + Low(c) && Low(c) < HALF
  {}

  lemma Rejoined(h: nat, l: nat)
    requires l < HALF
    ensures High(h * HALF + l) == h && Low(h * HALF + l) == l
  {}

  lemma HighBound(c: nat)
    requires c < FULL
    ensures High(c) * HALF + HALF <= FULL
  {}

  /** The counter never leaves its 64 bits. */
  lemma CounterBound(s: State, a: Action)
    requires Inv(s) && CanAct(s, a)
    ensures Act(s, a).counter < FULL
  {
    if a.Step? {
      var th := s.threads[a.t];
      assert ThreadOk(s, a.t);
      if th.at.WriteLow? && th.op.Set? {
        HighBound(s.counter);
        Halves(th.op.value);
      } else if th.at.WriteHigh? && th.op.Set? {
        HighBound(th.op.value);
        Halves(s.counter);
      }
    }
  }

  /** A body in progress is undisturbed by the device counting on. */
  lemma TickKeeps(s: State, n: nat, th: Thread)
    requires BodyOk(s.large, s.counter, s.config, th) && s.config.enabled
    ensures BodyOk(s.large, s.counter + n, s.config, th)
  {
    hide High, Low;
  }

  /** The step of the lock holder inside its own body. */
  lemma BodyStepKeeps(s: State, th: Thread)
    requires BodyOk(s.large, s.counter, s.config, th) && InsideBody(th.at) && (th.op.Get? || th.op.Set?)
    requires !th.at.BodyUnlock?
    ensures BodyOk(s.large, StepCounter(s, th), s.config, StepThread(s, th))
    ensures InsideBody(StepThread(s, th).at) && StepThread(s, th).op == th.op
  {
    hide High, Low;
    if th.op.Get? {
      if th.at.SecondHigh? {
        SecondHighStep(s, th);
      } else if th.at.FirstHigh? {
        HighMonotone(th.lockSeen, s.counter);
      }
    } else {
      SetStep(s, th);
    }
  }

  lemma SecondHighStep(s: State, th: Thread)
    requires th.op.Get? && th.at.SecondHigh? && BodyOk(s.large, s.counter, s.config, th)
    ensures BodyOk(s.large, s.counter, s.config, StepThread(s, th))
  {
    HighMonotone(th.highSeen, th.lowSeen);
    HighMonotone(th.lowSeen, s.counter);
    Halves(th.lowSeen);
    hide High, Low;
  }

  lemma SetStep(s: State, th: Thread)
    requires th.op.Set? && InsideBody(th.at) && !th.at.BodyUnlock? && BodyOk(s.large, s.counter, s.config, th)
    ensures BodyOk(s.large, StepCounter(s, th), s.config, StepThread(s, th))
  {
    Halves(th.op.value);
    Halves(s.counter);
    Rejoined(High(s.counter), Low(th.op.value));
    hide High, Low;
  }

  /** Taking the lock for the body. */
  lemma EnterBody(s: State, th: Thread)
    requires th.at.BodyLock? && (th.op.Get? || (th.op.Set? && th.op.value < FULL))
    ensures InsideBody(StepThread(s, th).at) && StepThread(s, th).op == th.op
    ensures BodyOk(s.large, s.counter, s.config, StepThread(s, th))
  {
    hide High, Low;
  }

  lemma OwnStep(s: State, t: nat)
    requires Inv(s) && CanAct(s, Step(t))
    ensures ThreadOk(Act(s, Step(t)), t)
  {
    hide High, Low, BodyOk, StepCounter, ConfigOk;
    var th := s.threads[t];
    assert ThreadOk(s, t);
    OwnConfig(s, th);
    if th.at.BodyLock? {
      EnterBody(s, th);
    } else if InsideBody(th.at) && !th.at.BodyUnlock? {
      BodyStepKeeps(s, th);
    }
    CounterKept(s, th);
  }

  lemma OwnConfig(s: State, th: Thread)
    requires ConfigOk(s.config, th) && (InsideBody(th.at) ==> th.op.Get? || th.op.Set?)
    ensures ConfigOk(StepConfig(s, th), StepThread(s, th))
  {
    hide High, Low;
  }

  lemma CounterKept(s: State, th: Thread)
    ensures !th.at.WriteLow? && !th.at.WriteHigh? ==> StepCounter(s, th) == s.counter
  {}

  /** While one thread is inside, no other thread can take a step. */
  lemma OtherStep(s: State, u: nat, t: nat)
    requires Inv(s) && CanAct(s, Step(u)) && t < |s.threads| && t != u
    ensures ThreadOk(Act(s, Step(u)), t)
  {
    hide High, Low, BodyOk, StepCounter, StepThread;
    assert ThreadOk(s, t) && ThreadOk(s, u);
    assert !Inside(s.threads[t].at);
  }

  lemma ThreadKept(s: State, a: Action, t: nat)
    requires Inv(s) && CanAct(s, a) && t < |s.threads|
    ensures ThreadOk(Act(s, a), t)
  {
    hide BodyOk, StepThread, StepCounter, High, Low;
    assert ThreadOk(s, t);
    match a {
      case Tick(n) =>
        if InsideBody(s.threads[t].at) {
          TickKeeps(s, n, s.threads[t]);
        }
      case Call(u, op) =>
      case Step(u) =>
        if u == t {
          OwnStep(s, t);
        } else {
          OtherStep(s, u, t);
        }
    }
  }

  /** Every step of every thread, and of the device, keeps the invariant. */
  lemma InvKept(s: State, a: Action)
    requires Inv(s) && CanAct(s, a)
    ensures Inv(Act(s, a)) && |Act(s, a).threads| == |s.threads| && Act(s, a).large == s.large
  {
    hide ThreadOk;
    CounterBound(s, a);
    forall t | 0 <= t < |s.threads| ensures ThreadOk(Act(s, a), t) {
      ThreadKept(s, a, t);
    }
    hide StepThread, StepCounter;
  }

  // --------------------------------------------------------------------- runs

  /** Some number of idle threads, the lock free, the counter anywhere. */
  predicate Initial(s: State) {
    && s.counter < FULL && s.lock.Free?
    && forall t :: 0 <= t < |s.threads| ==> s.threads[t].at.Idle? && !s.threads[t].op.Set?
  }

  /** Each action is possible when its turn comes. */
  predicate Possible(s: State, acts: seq<Action>)
    decreases |acts|
  {
    acts == [] || (CanAct(s, acts[0]) && Possible(Act(s, acts[0]), acts[1..]))
  }

  /** The state after the first `n` actions of a run. */
  function After(s: State, acts: seq<Action>, n: nat): State
    requires n <= |acts| && Possible(s, acts)
    decreases n
  {
    if n == 0 then s else After(Act(s, acts[0]), acts[1..], n - 1)
  }

  lemma {:induction false} AfterStep(s: State, acts: seq<Action>, n: nat)
    requires n < |acts| && Possible(s, acts)
    ensures CanAct(After(s, acts, n), acts[n]) && After(s, acts, n + 1) == Act(After(s, acts, n), acts[n])
    decreases n
  {
    hide CanAct, Act;
    if n > 0 {
      AfterStep(Act(s, acts[0]), acts[1..], n - 1);
    }
  }

  lemma {:induction false} InvAlways(s: State, acts: seq<Action>, n: nat)
    requires Initial(s) && Possible(s, acts) && n <= |acts|
    ensures Inv(After(s, acts, n))
    ensures |After(s, acts, n).threads| == |s.threads| && After(s, acts, n).large == s.large
    decreases n
  {
    if n == 0 {
    } else {
      hide Inv, CanAct, Act, Initial;
      InvAlways(s, acts, n - 1);
      AfterStep(s, acts, n - 1);
      InvKept(After(s, acts, n - 1), acts[n - 1]);
    }
  }

  // ----------------------------------------------------------------- theorems

  /** The thread has read the low half and not gone back to reading it. */
  predicate LowRead(th: Thread) {
    th.op.Get? && (th.at.SecondHigh? || th.at.BodyUnlock?)
  }

  predicate ReadsLow(p: Point) {
    p.ReadLow? || p.ReadNarrow?
  }

  /** What one action does to a thread that has read the low half: it had before, or reads it now. */
  lemma LowReadStep(s: State, a: Action, t: nat)
    requires Inv(s) && CanAct(s, a) && t < |s.threads| && LowRead(Act(s, a).threads[t])
    ensures var th, th' := s.threads[t], Act(s, a).threads[t];
            || (LowRead(th) && th'.lowSeen == th.lowSeen)
            || (a == Step(t) && ReadsLow(th.at) && th'.lowSeen == s.counter)
  {
    assert ThreadOk(s, t);
    hide High, Low, StepCounter;
    if a == Step(t) {
      assert s.threads[t].op == Act(s, a).threads[t].op;
    }
  }

  lemma {:induction false} FinalLowRead(s: State, acts: seq<Action>, n: nat, t: nat) returns (m: nat)
    requires Initial(s) && Possible(s, acts) && n <= |acts| && t < |s.threads|
    requires |After(s, acts, n).threads| == |s.threads| && LowRead(After(s, acts, n).threads[t])
    ensures m < n && acts[m] == Step(t) && |After(s, acts, m).threads| == |s.threads|
    ensures ReadsLow(After(s, acts, m).threads[t].at)
    ensures After(s, acts, m).counter == After(s, acts, n).threads[t].lowSeen
    ensures forall k :: m < k <= n ==>
              |After(s, acts, k).threads| == |s.threads| && LowRead(After(s, acts, k).threads[t])
    decreases n
  {
    assert n > 0 by { IdleAtFirst(s, acts, t); }
    hide Initial, Inv, CanAct, Act, LowRead, After;
    InvAlways(s, acts, n - 1);
    AfterStep(s, acts, n - 1);
    LowReadStep(After(s, acts, n - 1), acts[n - 1], t);
    if LowRead(After(s, acts, n - 1).threads[t]) &&
       After(s, acts, n).threads[t].lowSeen == After(s, acts, n - 1).threads[t].lowSeen {
      m := FinalLowRead(s, acts, n - 1, t);
    } else {
      m := n - 1;
    }
  }

  lemma IdleAtFirst(s: State, acts: seq<Action>, t: nat)
    requires Initial(s) && Possible(s, acts) && t < |s.threads|
    ensures After(s, acts, 0) == s && !LowRead(s.threads[t])
  {}

  /** In every run, when `get` leaves its loop its result is exactly the counter's value at the last
      time it read the low half, whatever other threads did between its stop and its lock; of a counter of 32 bits it
      reads these. */
  lemma GetIsExact(s: State, acts: seq<Action>, n: nat, t: nat) returns (m: nat)
    requires Initial(s) && Possible(s, acts) && n <= |acts| && t < |s.threads|
    requires |After(s, acts, n).threads| == |s.threads|
    requires After(s, acts, n).threads[t].op.Get? && After(s, acts, n).threads[t].at.BodyUnlock?
    ensures m < n && acts[m] == Step(t) && |After(s, acts, m).threads| == |s.threads|
    ensures ReadsLow(After(s, acts, m).threads[t].at)
    ensures var c := After(s, acts, m).counter;
            After(s, acts, n).threads[t].result == if s.large then c else c % 0x1_0000_0000
    ensures forall k :: m < k <= n ==>
              |After(s, acts, k).threads| == |s.threads| && LowRead(After(s, acts, k).threads[t])
  {
    m := FinalLowRead(s, acts, n, t);
    InvAlways(s, acts, n);
    assert ThreadOk(After(s, acts, n), t);
  }

  /** The loop goes round again at most as often as the high half advanced since it was first read;
      a counter that is stopped when the lock is taken is read in one round, at its value then. */
  lemma GetRounds(s: State, t: nat)
    requires Inv(s) && s.large && t < |s.threads| && s.threads[t].op.Get? && s.threads[t].at.BodyUnlock?
    ensures s.threads[t].rounds <= High(s.threads[t].result) - s.threads[t].firstHigh
    ensures s.threads[t].stoppedAtLock ==> s.threads[t].rounds == 0 && s.threads[t].result == s.threads[t].lockSeen
  {
    assert ThreadOk(s, t);
  }

  /** A 64-bit write is exact when the counter is stopped as the lock is taken. */
  lemma SetIsExact(s: State, t: nat)
    requires Inv(s) && t < |s.threads| && s.threads[t].op.Set? && s.threads[t].at.BodyUnlock?
    requires s.threads[t].stoppedAtLock
    ensures s.counter == s.threads[t].op.value
  {
    assert ThreadOk(s, t);
  }

  // ------------------------------------------------------- stopping and starting

  /** A stop clears bit 0 of the register and a start sets it; no other bit changes, because what is written back is
      what the register still holds. */
  lemma StopStops(s: State, t: nat)
    requires Inv(s) && CanAct(s, Step(t))
    ensures s.threads[t].at.StopWrite? ==> Act(s, Step(t)).config == Config(false, s.config.others)
    ensures s.threads[t].at.StartWrite? ==> Act(s, Step(t)).config == Config(true, s.config.others)
    ensures !s.threads[t].at.StopWrite? && !s.threads[t].at.StartWrite? ==> Act(s, Step(t)).config == s.config
  {
    assert ThreadOk(s, t);
    hide BodyOk, StepThread, StepCounter;
  }

  /** So in every run the other bits stay as they were at the start. */
  lemma {:induction false} OtherBitsKept(s: State, acts: seq<Action>, n: nat)
    requires Initial(s) && Possible(s, acts) && n <= |acts|
    ensures After(s, acts, n).config.others == s.config.others
    decreases n
  {
    if n > 0 {
      OtherBitsKept(s, acts, n - 1);
      InvAlways(s, acts, n - 1);
      AfterStep(s, acts, n - 1);
      ConfigStep(After(s, acts, n - 1), acts[n - 1]);
    }
  }

  predicate Writes(s: State, a: Action, p: Point) {
    a.Step? && PointOf(s, a.t) == p
  }

  function PointOf(s: State, t: nat): Point {
    if t < |s.threads| then s.threads[t].at else Idle
  }

  lemma ConfigStep(s: State, a: Action)
    requires Inv(s) && CanAct(s, a)
    ensures Act(s, a).config.others == s.config.others
    ensures Act(s, a).config.enabled <==> Writes(s, a, StartWrite) || (s.config.enabled && !Writes(s, a, StopWrite))
  {
    hide Inv, StepThread, StepCounter;
    if a.Step? {
      StopStops(s, a.t);
    }
  }

  /** When stop_main_counter returns the counter is stopped; when any other call returns it is running. */
  lemma ReturnsAsPromised(s: State, a: Action, t: nat)
    requires Inv(s) && CanAct(s, a) && t < |s.threads| && !s.threads[t].at.Idle? && Act(s, a).threads[t].at.Idle?
    ensures a == Step(t) && Act(s, a).lock.Free?
    ensures Act(s, a).config.enabled <==> !s.threads[t].op.Stop?
  {
    assert ThreadOk(s, t);
    hide BodyOk, StepCounter;
  }

  // ------------------------------------------------- what may happen before the lock

  /** Between its stop and its lock. */
  predicate Waiting(p: Point) {
    p.StopUnlock? || p.BodyLock?
  }

  lemma WaitingStep(s: State, a: Action, t: nat)
    requires Inv(s) && CanAct(s, a) && t < |s.threads| && Waiting(PointOf(Act(s, a), t))
    ensures Waiting(PointOf(s, t)) || (a == Step(t) && PointOf(s, t) == StopWrite)
  {
    hide Inv, StepCounter;
  }

  lemma BodyStep(s: State, a: Action, t: nat)
    requires Inv(s) && CanAct(s, a) && t < |s.threads| && InsideBody(PointOf(Act(s, a), t))
    ensures var th, th' := s.threads[t], Act(s, a).threads[t];
            if InsideBody(th.at) then (th'.stoppedAtLock, th'.lockSeen) == (th.stoppedAtLock, th.lockSeen)
            else
              && a == Step(t) && th.at == BodyLock
              && (th'.stoppedAtLock, th'.lockSeen) == (!s.config.enabled, s.counter)
  {
    hide Inv, StepThread, StepCounter;
    if a == Step(t) {
      OwnBodyStep(s, s.threads[t]);
    }
  }

  lemma OwnBodyStep(s: State, th: Thread)
    requires InsideBody(StepThread(s, th).at)
    ensures var th' := StepThread(s, th);
            if InsideBody(th.at) then (th'.stoppedAtLock, th'.lockSeen) == (th.stoppedAtLock, th.lockSeen)
            else th.at == BodyLock && (th'.stoppedAtLock, th'.lockSeen) == (!s.config.enabled, s.counter)
  {
    hide High, Low;
  }

  /** The write that stopped the counter for the call thread `t` is in. */
  lemma {:induction false} LastStop(s: State, acts: seq<Action>, n: nat, t: nat) returns (m: nat)
    requires Initial(s) && Possible(s, acts) && n <= |acts| && t < |s.threads| && Waiting(PointOf(After(s, acts, n), t))
    ensures m < n && acts[m] == Step(t) && PointOf(After(s, acts, m), t) == StopWrite
    ensures forall k :: m < k <= n ==> Waiting(PointOf(After(s, acts, k), t))
    decreases n
  {
    assert n > 0 by { AtFirst(s, acts, t); }
    InvAlways(s, acts, n - 1);
    AfterStep(s, acts, n - 1);
    hide Initial, Inv, CanAct, Act, After, PointOf, Waiting;
    WaitingStep(After(s, acts, n - 1), acts[n - 1], t);
    if Waiting(PointOf(After(s, acts, n - 1), t)) {
      m := LastStop(s, acts, n - 1, t);
    } else {
      m := n - 1;
    }
  }

  lemma AtFirst(s: State, acts: seq<Action>, t: nat)
    requires Initial(s) && Possible(s, acts)
    ensures PointOf(After(s, acts, 0), t) == Idle
  {}

  /** The step that took the lock for it. */
  lemma {:induction false} LastLock(s: State, acts: seq<Action>, n: nat, t: nat) returns (m: nat)
    requires Initial(s) && Possible(s, acts) && n <= |acts| && t < |s.threads| == |After(s, acts, n).threads|
    requires InsideBody(PointOf(After(s, acts, n), t))
    ensures m < n && acts[m] == Step(t) && PointOf(After(s, acts, m), t) == BodyLock
    ensures After(s, acts, n).threads[t].lockSeen == After(s, acts, m).counter
    ensures After(s, acts, n).threads[t].stoppedAtLock == !After(s, acts, m).config.enabled
    ensures forall k :: m < k <= n ==> InsideBody(PointOf(After(s, acts, k), t))
    decreases n
  {
    assert n > 0 by { AtFirst(s, acts, t); }
    InvAlways(s, acts, n - 1);
    AfterStep(s, acts, n - 1);
    BodyStep(After(s, acts, n - 1), acts[n - 1], t);
    hide Initial, Inv, CanAct, Act, After, InsideBody;
    if InsideBody(PointOf(After(s, acts, n - 1), t)) {
      m := LastLock(s, acts, n - 1, t);
    } else {
      m := n - 1;
    }
  }

  /** Some thread writes the counter's enable bit, at action `j`. */
  predicate WritesAt(s: State, acts: seq<Action>, j: nat, p: Point)
    requires j < |acts| && Possible(s, acts)
  {
    Writes(After(s, acts, j), acts[j], p)
  }

  /** Between actions `a` and `b` the counter is started and not stopped again. */
  predicate Restarted(s: State, acts: seq<Action>, a: nat, b: nat)
    requires b <= |acts| && Possible(s, acts)
  {
    exists j :: a < j < b && WritesAt(s, acts, j, StartWrite)
                && forall i :: j < i < b ==> !WritesAt(s, acts, i, StopWrite)
  }

  lemma {:induction false} RunningIfRestarted(s: State, acts: seq<Action>, a: nat, b: nat)
    requires Initial(s) && Possible(s, acts) && a < b <= |acts| && WritesAt(s, acts, a, StopWrite)
    ensures After(s, acts, b).config.enabled <==> Restarted(s, acts, a, b)
    decreases b
  {
    InvAlways(s, acts, b - 1);
    AfterStep(s, acts, b - 1);
    ConfigStep(After(s, acts, b - 1), acts[b - 1]);
    if b - 1 > a {
      RunningIfRestarted(s, acts, a, b - 1);
    }
    hide Initial, Inv, CanAct, Act, After, Writes;
    RestartedStep(s, acts, a, b);
  }

  lemma RestartedStep(s: State, acts: seq<Action>, a: nat, b: nat)
    requires Possible(s, acts) && a < b <= |acts|
    ensures b - 1 == a ==> !Restarted(s, acts, a, b)
    ensures b - 1 > a ==>
              (Restarted(s, acts, a, b) <==>
               WritesAt(s, acts, b - 1, StartWrite)
               || (Restarted(s, acts, a, b - 1) && !WritesAt(s, acts, b - 1, StopWrite)))
  {
    hide WritesAt, Possible;
  }

  /** A call of get or set, seen from inside its body: it stopped the counter at action `stop` and took the lock at
      `lock`, and the counter was stopped then if and only if nobody had restarted it between. */
  lemma LockAfterStop(s: State, acts: seq<Action>, n: nat, t: nat) returns (stop: nat, lock: nat)
    requires Initial(s) && Possible(s, acts) && n <= |acts| && t < |s.threads| == |After(s, acts, n).threads|
    requires InsideBody(PointOf(After(s, acts, n), t))
    ensures stop < lock < n && acts[stop] == Step(t) == acts[lock]
    ensures PointOf(After(s, acts, stop), t) == StopWrite && PointOf(After(s, acts, lock), t) == BodyLock
    ensures forall k :: stop < k <= lock ==> Waiting(PointOf(After(s, acts, k), t))
    ensures forall k :: lock < k <= n ==> InsideBody(PointOf(After(s, acts, k), t))
    ensures After(s, acts, n).threads[t].lockSeen == After(s, acts, lock).counter
    ensures After(s, acts, n).threads[t].stoppedAtLock <==> !Restarted(s, acts, stop, lock)
  {
    lock := LastLock(s, acts, n, t);
    stop := LastStop(s, acts, lock, t);
    assert WritesAt(s, acts, stop, StopWrite);
    hide Initial, Inv, CanAct, Act, After, Restarted, WritesAt;
    RunningIfRestarted(s, acts, stop, lock);
  }

  /** In every run, a counter nobody restarts between the call's stop and its lock ends up with exactly the value
      written, or is read in one round, at its value when the lock is taken. */
  lemma Undisturbed(s: State, acts: seq<Action>, n: nat, t: nat) returns (stop: nat, lock: nat)
    requires Initial(s) && Possible(s, acts) && n <= |acts| && t < |s.threads| == |After(s, acts, n).threads|
    requires PointOf(After(s, acts, n), t) == BodyUnlock
    ensures stop < lock < n && acts[stop] == Step(t) == acts[lock]
    ensures PointOf(After(s, acts, stop), t) == StopWrite && PointOf(After(s, acts, lock), t) == BodyLock
    ensures forall k :: stop < k <= lock ==> Waiting(PointOf(After(s, acts, k), t))
    ensures var r := After(s, acts, n);
            var th := r.threads[t];
            !Restarted(s, acts, stop, lock) ==>
              && (th.op.Set? ==> r.counter == th.op.value)
              && (th.op.Get? && s.large ==> th.rounds == 0 && th.result == After(s, acts, lock).counter)
              && (th.op.Get? && !s.large ==> th.result == After(s, acts, lock).counter % 0x1_0000_0000)
  {
    stop, lock := LockAfterStop(s, acts, n, t);
    InvAlways(s, acts, n);
    hide Initial, Possible, Act, After, Restarted;
    var r := After(s, acts, n);
    if r.threads[t].op.Set? && r.threads[t].stoppedAtLock {
      SetIsExact(r, t);
    }
    if r.threads[t].op.Get? {
      if s.large {
        GetRounds(r, t);
      } else {
        assert ThreadOk(r, t);
      }
    }
  }

  /** If the device counts `n` between the two halves, the value is missed. */
  predicate Misses(s: State, t: nat, n: nat) {
    var acts := [Step(t), Tick(n), Step(t)];
    && t < |s.threads| && s.threads[t].op.Set? && Possible(s, acts)
    && After(s, acts, 3).counter != s.threads[t].op.value
  }

  /** If it is running instead, from every reachable state before the first write the value can be missed, exactly
      when the counter with its new low half is not at its very last value. */
  lemma SetCanMiss(s: State, t: nat)
    requires Inv(s) && t < |s.threads| && s.threads[t].op.Set? && s.threads[t].at.WriteLow? && s.config.enabled
    ensures (exists n :: Misses(s, t, n)) <==> High(s.counter) * HALF + Low(s.threads[t].op.value) + 1 < FULL
  {
    hide Act, CanAct, After, Possible;
    var v := s.threads[t].op.value;
    if High(s.counter) * HALF + Low(v) + 1 < FULL {
      CountOne(s, t);
      assert Misses(s, t, 1);
    }
    if n :| Misses(s, t, n) {
      CountNone(s, t, n);
    }
  }

  /** The counter after the two writes with `n` ticks between them. */
  lemma TwoWrites(s: State, t: nat, n: nat)
    requires Inv(s) && t < |s.threads| && s.threads[t].op.Set? && s.threads[t].at.WriteLow? && s.config.enabled
    ensures var v := s.threads[t].op.value;
            var low := High(s.counter) * HALF + Low(v);
            var acts := [Step(t), Tick(n), Step(t)];
            && (Possible(s, acts) <==> low + n < FULL)
            && (low + n < FULL ==> After(s, acts, 3).counter == High(v) * HALF + Low(low + n))
  {
    hide High, Low, Act, CanAct, After, Possible, Inv;
    FirstWrite(s, t);
    var s1 := Act(s, Step(t));
    Ticks(s1, n);
    SecondAction(s, Step(t), Tick(n), Step(t));
    if CanAct(s1, Tick(n)) {
      SecondWrite(Act(s1, Tick(n)), t);
      ThreeActions(s, Step(t), Tick(n), Step(t));
    }
  }

  lemma Ticks(s: State, n: nat)
    ensures CanAct(s, Tick(n)) <==> s.config.enabled && s.counter + n < FULL
    ensures CanAct(s, Tick(n)) ==> Act(s, Tick(n)) == s.(counter := s.counter + n)
  {}

  lemma FirstWrite(s: State, t: nat)
    requires t < |s.threads| && s.threads[t].op.Set? && s.threads[t].at.WriteLow?
    ensures CanAct(s, Step(t))
    ensures var v, r := s.threads[t].op.value, Act(s, Step(t));
            && r.counter == High(s.counter) * HALF + Low(v) && r.config == s.config && |r.threads| == |s.threads|
            && r.threads[t].op == Set(v) && r.threads[t].at == WriteHigh
  {
    hide High, Low;
  }

  lemma SecondWrite(s: State, t: nat)
    requires t < |s.threads| && s.threads[t].op.Set? && s.threads[t].at.WriteHigh?
    ensures CanAct(s, Step(t))
    ensures Act(s, Step(t)).counter == High(s.threads[t].op.value) * HALF + Low(s.counter)
  {
    hide High, Low;
  }

  lemma SecondAction(s: State, a: Action, b: Action, c: Action)
    requires CanAct(s, a)
    ensures Possible(s, [a, b, c]) ==> CanAct(Act(s, a), b)
  {
    hide CanAct, Act;
    assert [a, b, c][1..] == [b, c];
    if Possible(s, [a, b, c]) {
      assert Possible(Act(s, a), [b, c]);
    }
  }

  lemma CountOne(s: State, t: nat)
    requires Inv(s) && t < |s.threads| && s.threads[t].op.Set? && s.threads[t].at.WriteLow? && s.config.enabled
    requires High(s.counter) * HALF + Low(s.threads[t].op.value) + 1 < FULL
    ensures Misses(s, t, 1)
  {
    hide Act, CanAct, After, Possible;
    var v := s.threads[t].op.value;
    TwoWrites(s, t, 1);
    Halves(v);
    OneMore(High(s.counter), Low(v));
    hide High, Low;
  }

  lemma CountNone(s: State, t: nat, n: nat)
    requires Inv(s) && t < |s.threads| && s.threads[t].op.Set? && s.threads[t].at.WriteLow? && s.config.enabled
    requires Misses(s, t, n)
    ensures High(s.counter) * HALF + Low(s.threads[t].op.value) + 1 < FULL
  {
    hide Act, CanAct, After, Possible;
    var v := s.threads[t].op.value;
    TwoWrites(s, t, n);
    Halves(v);
    if n == 0 {
      Rejoined(High(s.counter), Low(v));
    }
    hide High, Low;
  }

  lemma ThreeActions(s: State, a: Action, b: Action, c: Action)
    requires CanAct(s, a) && CanAct(Act(s, a), b) && CanAct(Act(Act(s, a), b), c)
    ensures Possible(s, [a, b, c]) && After(s, [a, b, c], 3) == Act(Act(Act(s, a), b), c)
  {
    hide CanAct, Act;
    var s1 := Act(s, a);
    var s2 := Act(s1, b);
    assert [a, b, c][1..] == [b, c] && [b, c][1..] == [c] && [c][1..] == [];
    assert Possible(s2, [c]) && After(s2, [c], 1) == Act(s2, c);
    assert Possible(s1, [b, c]) && After(s1, [b, c], 2) == Act(s2, c);
  }

  lemma OneMore(h: nat, l: nat)
    requires l < HALF
    ensures Low(h * HALF + l + 1) != l
  {
    if l + 1 < HALF {
      Rejoined(h, l + 1);
    } else {
      Rejoined(h + 1, 0);
      assert h * HALF + l + 1 == (h + 1) * HALF + 0;
    }
  }

  /** The lock is never held by two. */
  lemma MutualExclusion(s: State, t: nat, u: nat)
    requires Inv(s) && t < |s.threads| && u < |s.threads| && Inside(s.threads[t].at) && Inside(s.threads[u].at)
    ensures t == u
  {
    assert ThreadOk(s, t) && ThreadOk(s, u);
  }

  lemma Prepend(s: State, a: Action, acts: seq<Action>)
    requires CanAct(s, a) && Possible(Act(s, a), acts)
    ensures Possible(s, [a] + acts) && After(s, [a] + acts, |acts| + 1) == After(Act(s, a), acts, |acts|)
  {
    hide CanAct, Act;
    assert ([a] + acts)[1..] == acts;
  }

  const STOPPED := Config(false, 0)

  function ThreadAt(op: Op, at: Point): Thread {
    Thread(op, at, STOPPED, 0, 0, 0, 0, 0, 0, false, 0, 0)
  }

  /** A moment of the run below: where its two threads are, whether the counter is enabled, and the lock. */
  function Moment(op0: Op, at0: Point, op1: Op, at1: Point, enabled: bool, lock: Lock): State {
    State(true, 0, Config(enabled, 0), lock, [ThreadAt(op0, at0), ThreadAt(op1, at1)])
  }

  /** Such a run: one thread writes 0, and before it has the lock the other starts the counter. */
  lemma SetMisses() returns (s: State, acts: seq<Action>)
    ensures Initial(s) && Possible(s, acts)
    ensures var r := After(s, acts, |acts|);
            |r.threads| > 0 && r.threads[0].op == Set(0) && r.threads[0].at.BodyUnlock? && r.counter != 0
  {
    s := Moment(Get, Idle, Get, Idle, false, Free);
    assert Initial(s);
    CallMoves();
    StopMoves();
    StoppedMoves();
    StartMoves();
    StartedMoves();
    LockMoves();
    hide Act, CanAct, Moment;
    acts := MissFrom(Moment(Set(0), WriteLow, Start, Idle, true, Held(0)));
    Prepend(Moment(Set(0), BodyLock, Start, Idle, true, Free), Step(0), acts);
    acts := [Step(0)] + acts;
    Twice(Moment(Set(0), BodyLock, Start, StartWrite, false, Held(1)), Step(1), Step(1), acts);
    acts := [Step(1), Step(1)] + acts;
    Twice(Moment(Set(0), BodyLock, Start, StartLock, false, Free), Step(1), Step(1), acts);
    acts := [Step(1), Step(1)] + acts;
    Prepend(Moment(Set(0), BodyLock, Get, Idle, false, Free), Call(1, Start), acts);
    acts := [Call(1, Start)] + acts;
    Twice(Moment(Set(0), StopWrite, Get, Idle, false, Held(0)), Step(0), Step(0), acts);
    acts := [Step(0), Step(0)] + acts;
    Twice(Moment(Set(0), StopLock, Get, Idle, false, Free), Step(0), Step(0), acts);
    acts := [Step(0), Step(0)] + acts;
    Prepend(s, Call(0, Set(0)), acts);
    acts := [Call(0, Set(0))] + acts;
  }

  predicate Goes(s: State, a: Action, r: State) {
    CanAct(s, a) && Act(s, a) == r
  }

  lemma CallMoves()
    ensures Goes(Moment(Get, Idle, Get, Idle, false, Free), Call(0, Set(0)),
                 Moment(Set(0), StopLock, Get, Idle, false, Free))
    ensures Goes(Moment(Set(0), BodyLock, Get, Idle, false, Free), Call(1, Start),
                 Moment(Set(0), BodyLock, Start, StartLock, false, Free))
  {}

  lemma StopMoves()
    ensures Goes(Moment(Set(0), StopLock, Get, Idle, false, Free), Step(0),
                 Moment(Set(0), StopRead, Get, Idle, false, Held(0)))
    ensures Goes(Moment(Set(0), StopRead, Get, Idle, false, Held(0)), Step(0),
                 Moment(Set(0), StopWrite, Get, Idle, false, Held(0)))
  {}

  lemma StoppedMoves()
    ensures Goes(Moment(Set(0), StopWrite, Get, Idle, false, Held(0)), Step(0),
                 Moment(Set(0), StopUnlock, Get, Idle, false, Held(0)))
    ensures Goes(Moment(Set(0), StopUnlock, Get, Idle, false, Held(0)), Step(0),
                 Moment(Set(0), BodyLock, Get, Idle, false, Free))
  {}

  lemma StartMoves()
    ensures Goes(Moment(Set(0), BodyLock, Start, StartLock, false, Free), Step(1),
                 Moment(Set(0), BodyLock, Start, StartRead, false, Held(1)))
    ensures Goes(Moment(Set(0), BodyLock, Start, StartRead, false, Held(1)), Step(1),
                 Moment(Set(0), BodyLock, Start, StartWrite, false, Held(1)))
  {}

  lemma StartedMoves()
    ensures Goes(Moment(Set(0), BodyLock, Start, StartWrite, false, Held(1)), Step(1),
                 Moment(Set(0), BodyLock, Start, StartUnlock, true, Held(1)))
    ensures Goes(Moment(Set(0), BodyLock, Start, StartUnlock, true, Held(1)), Step(1),
                 Moment(Set(0), BodyLock, Start, Idle, true, Free))
  {}

  lemma LockMoves()
    ensures Goes(Moment(Set(0), BodyLock, Start, Idle, true, Free), Step(0),
                 Moment(Set(0), WriteLow, Start, Idle, true, Held(0)))
  {}

  lemma MissFrom(s: State) returns (acts: seq<Action>)
    requires s == Moment(Set(0), WriteLow, Start, Idle, true, Held(0))
    ensures Possible(s, acts)
    ensures var r := After(s, acts, |acts|);
            |r.threads| > 0 && r.threads[0].op == Set(0) && r.threads[0].at.BodyUnlock? && r.counter != 0
  {
    acts := [Step(0), Tick(1), Step(0)];
    ThreeActions(s, Step(0), Tick(1), Step(0));
  }

  lemma Twice(s: State, a: Action, b: Action, acts: seq<Action>)
    requires CanAct(s, a) && CanAct(Act(s, a), b) && Possible(Act(Act(s, a), b), acts)
    ensures Possible(s, [a, b] + acts) && After(s, [a, b] + acts, |acts| + 2) == After(Act(Act(s, a), b), acts, |acts|)
  {
    hide CanAct, Act;
    Prepend(Act(s, a), b, acts);
    Prepend(s, a, [b] + acts);
    assert [a] + ([b] + acts) == [a, b] + acts;
  }
}
