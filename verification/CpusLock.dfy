/** The lock of all CPUs: rt_cpus_lock, rt_cpus_unlock and rt_cpus_lock_status_restore as interleaved
    steps of several CPUs over one spinlock. */
module CpusLock {
  import opened CText

  /** The bound of the 16-bit nesting counter. */
  const NEST_LIMIT: nat := 0x1_0000

  /** Where a CPU stands. `Running` is outside of all three functions; the others are the points
      between a change of a counter or of the current thread and the spinlock operation that goes
      with it, and the ends of booting and of leaving a thread that an interrupt switches away. */
  datatype Point = Off | Booted | Running | Locking | Unlocking | Leaving | Restoring

  datatype Cpu = Cpu(point: Point, current: Option<nat>)

  /** Counters are indexed by thread; holder is the CPU that has the spinlock. */
  datatype State = State(cpus: seq<Cpu>, nest: seq<nat>, schedulerNest: seq<int>, holder: Option<nat>)

  datatype Event =
    | BootLock(c: nat)          // the boot code takes the spinlock
    | Lock(c: nat)              // rt_cpus_lock up to the spinlock
    | Acquire(c: nat)           // rt_hw_spin_lock gets the spinlock
    | Unlock(c: nat)            // rt_cpus_unlock up to the spinlock
    | Release(c: nat)           // rt_hw_spin_unlock
    | Leave(c: nat)             // the interrupt switch gives up its own nesting level
    | Switch(c: nat, t: nat)    // rt_cpus_lock_status_restore up to the spinlock

  /** The events a CPU can take next. A CPU waits in Locking until the spinlock is free; a caller
      unlocks what it has locked, and switches threads only with the lock held, to a thread that
      runs nowhere else. Release is possible whoever holds the spinlock. */
  predicate Enabled(s: State, e: Event) {
    && |s.nest| == |s.schedulerNest|
    && e.c < |s.cpus|
    && (s.cpus[e.c].current.Some? ==> s.cpus[e.c].current.value < |s.nest|)
    && var cpu := s.cpus[e.c];
       match e
       case BootLock(c) => cpu.point == Off && s.holder == None
       case Lock(c) => cpu.point == Off || cpu.point == Booted || (cpu.point == Running && cpu.current.Some?)
       case Acquire(c) => cpu.point == Locking && s.holder == None
       case Unlock(c) =>
         || cpu.point == Off || cpu.point == Booted
         || (cpu.point == Running && cpu.current.Some? && s.nest[cpu.current.value] > 0)
       case Release(c) => cpu.point == Unlocking || cpu.point == Restoring
       case Leave(c) => cpu.point == Running && cpu.current.Some? && s.nest[cpu.current.value] == 1
           && s.holder == Some(c)
       case Switch(c, t) =>
         && (cpu.point == Booted || cpu.point == Leaving || (cpu.point == Running && s.holder == Some(c)))
         && t < |s.nest|
         && forall d :: 0 <= d < |s.cpus| && d != c ==> s.cpus[d].current != Some(t)
  }

  function Apply(s: State, e: Event): State
    requires Enabled(s, e)
  {
    var c := e.c;
    var cpu := s.cpus[c];
    match e
    case BootLock(_) => s.(cpus := s.cpus[c := cpu.(point := Booted)], holder := Some(c))
    case Lock(_) =>
      if cpu.current.None? then s
      else
        var t := cpu.current.value;
        var counted := s.(nest := s.nest[t := (s.nest[t] + 1) % NEST_LIMIT]);
        if s.nest[t] == 0 then
          counted.(schedulerNest := s.schedulerNest[t := s.schedulerNest[t] + 1],
                   cpus := s.cpus[c := cpu.(point := Locking)])
        else counted
    case Acquire(_) => s.(cpus := s.cpus[c := cpu.(point := Running)], holder := Some(c))
    case Unlock(_) =>
      if cpu.current.None? then s
      else
        var t := cpu.current.value;
        var counted := s.(nest := s.nest[t := (s.nest[t] + NEST_LIMIT - 1) % NEST_LIMIT]);
        if counted.nest[t] == 0 then
          counted.(schedulerNest := s.schedulerNest[t := s.schedulerNest[t] - 1],
                   cpus := s.cpus[c := cpu.(point := Unlocking)])
        else counted
    case Release(_) => s.(cpus := s.cpus[c := cpu.(point := Running)], holder := None)
    case Leave(_) =>
      var t := cpu.current.value;
      s.(nest := s.nest[t := s.nest[t] - 1], schedulerNest := s.schedulerNest[t := s.schedulerNest[t] - 1],
         cpus := s.cpus[c := cpu.(point := Leaving)])
    case Switch(_, t) => s.(cpus := s.cpus[c := Cpu(if s.nest[t] == 0 then Restoring else Running, Some(t))])
  }

  /** No counter overflows. */
  predicate Shallow(s: State, e: Event)
    requires Enabled(s, e)
  {
    e.Lock? && s.cpus[e.c].current.Some? ==> s.nest[s.cpus[e.c].current.value] + 1 < NEST_LIMIT
  }

  // ---------------------------------------------------------------- the invariant

  /** What holds of one CPU. */
  predicate CpuOk(s: State, c: nat)
    requires c < |s.cpus|
  {
    var cpu := s.cpus[c];
    match cpu.current
    case None => (cpu.point == Off && s.holder != Some(c)) || (cpu.point == Booted && s.holder == Some(c))
    case Some(t) =>
      && t < |s.nest|
      && match cpu.point
         case Off => false
         case Booted => false
         case Running => s.holder == Some(c) <==> s.nest[t] > 0
         case Locking => s.holder != Some(c) && s.nest[t] == 1
         case Unlocking => s.holder == Some(c) && s.nest[t] == 0
         case Leaving => s.holder == Some(c) && s.nest[t] == 0
         case Restoring => s.holder == Some(c) && s.nest[t] == 0
  }

  /** No thread runs on two CPUs. */
  predicate Exclusive(s: State) {
    forall c, d :: 0 <= c < |s.cpus| && 0 <= d < |s.cpus| && c != d && s.cpus[c].current.Some?
                   ==> s.cpus[c].current != s.cpus[d].current
  }

  /** A thread's scheduler lock counts one more while the thread is inside the lock of all CPUs. */
  predicate Counted(s: State, others: seq<int>) {
    && |s.nest| == |s.schedulerNest| == |others|
    && forall t :: 0 <= t < |s.nest| ==>
         s.nest[t] < NEST_LIMIT && s.schedulerNest[t] == others[t] + if s.nest[t] > 0 then 1 else 0
  }

  predicate Inv(s: State, others: seq<int>) {
    && Counted(s, others) && Exclusive(s)
    && (s.holder.Some? ==> s.holder.value < |s.cpus|)
    && forall c :: 0 <= c < |s.cpus| ==> CpuOk(s, c)
  }

  /** All CPUs off, all threads outside of the lock. */
  predicate Initial(s: State, others: seq<int>) {
    && s.holder == None && |s.nest| == |others| && s.schedulerNest == others
    && (forall t :: 0 <= t < |s.nest| ==> s.nest[t] == 0)
    && forall c :: 0 <= c < |s.cpus| ==> s.cpus[c] == Cpu(Off, None)
  }

  lemma InvInitially(s: State, others: seq<int>)
    requires Initial(s, others)
    ensures Inv(s, others)
  {
  }

  /** One step keeps the invariant. */
  lemma InvStep(s: State, e: Event, others: seq<int>)
    requires Inv(s, others) && Enabled(s, e) && Shallow(s, e)
    ensures Inv(Apply(s, e), others)
  {
    var s' := Apply(s, e);
    CountedStep(s, e, others);
    forall c | 0 <= c < |s'.cpus| ensures CpuOk(s', c) {
      assert CpuOk(s, c) && CpuOk(s, e.c);
      if c != e.c {
        OtherStep(s, e, c);
      }
    }
  }

  lemma CountedStep(s: State, e: Event, others: seq<int>)
    requires Inv(s, others) && Enabled(s, e) && Shallow(s, e)
    ensures Counted(Apply(s, e), others) && Exclusive(Apply(s, e))
  {
    assert CpuOk(s, e.c);
  }

  /** A step of one CPU leaves what concerns another as it is. */
  lemma OtherStep(s: State, e: Event, c: nat)
    requires Exclusive(s) && Enabled(s, e) && Shallow(s, e) && c < |s.cpus| && c != e.c
    requires CpuOk(s, c) && CpuOk(s, e.c)
    ensures CpuOk(Apply(s, e), c)
  {
  }

  /** Taking the lock once more keeps the invariant exactly when the counter does not overflow. */
  lemma LockKeepsInv(s: State, c: nat, others: seq<int>)
    requires Inv(s, others) && Enabled(s, Lock(c))
    ensures Inv(Apply(s, Lock(c)), others) <==> Shallow(s, Lock(c))
  {
    if Shallow(s, Lock(c)) {
      InvStep(s, Lock(c), others);
    } else {
      assert CpuOk(s, c);
      assert !CpuOk(Apply(s, Lock(c)), c);
    }
  }

  // ---------------------------------------------------------------- runs

  /** es is a sequence of possible events, without overflow. */
  predicate Possible(s: State, es: seq<Event>)
    decreases es
  {
    es == [] || (Enabled(s, es[0]) && Shallow(s, es[0]) && Possible(Apply(s, es[0]), es[1..]))
  }

  function After(s: State, es: seq<Event>): State
    requires Possible(s, es)
    decreases es
  {
    if es == [] then s else After(Apply(s, es[0]), es[1..])
  }

  lemma {:induction false} InvRun(s: State, es: seq<Event>, others: seq<int>)
    requires Inv(s, others) && Possible(s, es)
    ensures Inv(After(s, es), others)
    decreases es
  {
    if es != [] {
      InvStep(s, es[0], others);
      InvRun(Apply(s, es[0]), es[1..], others);
    }
  }

  /** A CPU is between a counter or thread change and the spinlock operation that belongs to it. */
  predicate InTransit(cpu: Cpu) {
    cpu.point == Locking || cpu.point == Unlocking || cpu.point == Leaving || cpu.point == Restoring
  }

  lemma {:induction false} CpusStay(s: State, es: seq<Event>)
    requires Possible(s, es)
    ensures |After(s, es).cpus| == |s.cpus|
    decreases es
  {
    if es != [] {
      CpusStay(Apply(s, es[0]), es[1..]);
    }
  }

  /** In every state that any interleaving leads to: a CPU that waits for the spinlock or is about to
      take it does not hold it; a CPU that is about to release it does hold it; and outside of those
      steps a CPU holds it exactly when its current thread is inside the lock of all CPUs. */
  lemma Safety(s0: State, es: seq<Event>, others: seq<int>, c: nat)
    requires Initial(s0, others) && Possible(s0, es) && c < |s0.cpus|
    ensures var s := After(s0, es);
            && c < |s.cpus|
            && var cpu := s.cpus[c];
               && (cpu.point == Locking || cpu.point == Off ==> s.holder != Some(c))
               && (cpu.point == Unlocking || cpu.point == Restoring ==> s.holder == Some(c))
               && (!InTransit(cpu) && cpu.current.Some? ==>
                     cpu.current.value < |s.nest| && (s.holder == Some(c) <==> s.nest[cpu.current.value] > 0))
  {
    InvInitially(s0, others);
    InvRun(s0, es, others);
    CpusStay(s0, es);
    assert CpuOk(After(s0, es), c);
  }

  /** The CPU runs a thread that is inside the lock of all CPUs. */
  predicate Inside(s: State, c: nat)
    requires c < |s.cpus|
  {
    var cpu := s.cpus[c];
    cpu.point == Running && cpu.current.Some? && cpu.current.value < |s.nest| && s.nest[cpu.current.value] > 0
  }

  /** Two CPUs are never inside the lock at once, and whoever is inside has counted exactly one level
      of its scheduler lock for it, however deep it is nested. */
  lemma Mutex(s0: State, es: seq<Event>, others: seq<int>, c: nat, d: nat)
    requires Initial(s0, others) && Possible(s0, es)
    requires c < |s0.cpus| && d < |s0.cpus| && c != d
    ensures var s := After(s0, es);
            && |s.cpus| == |s0.cpus| && |s.schedulerNest| == |s.nest| == |others|
            && !(Inside(s, c) && Inside(s, d))
            && (Inside(s, c) ==> var t := s.cpus[c].current.value; s.schedulerNest[t] == others[t] + 1)
  {
    InvInitially(s0, others);
    InvRun(s0, es, others);
    CpusStay(s0, es);
    assert CpuOk(After(s0, es), c) && CpuOk(After(s0, es), d);
  }

  // ---------------------------------------------------------------- nesting

  /** What a step adds to the nesting of thread t: one where its CPU locks, minus one where it unlocks or
      gives up its level. */
  function Nesting(s: State, e: Event, t: nat): int
    requires Enabled(s, e)
  {
    if s.cpus[e.c].current != Some(t) then 0
    else if e.Lock? then 1
    else if e.Unlock? || e.Leave? then -1
    else 0
  }

  function Balance(s: State, es: seq<Event>, t: nat): int
    requires Possible(s, es)
    decreases es
  {
    if es == [] then 0 else Nesting(s, es[0], t) + Balance(Apply(s, es[0]), es[1..], t)
  }

  lemma NestingStep(s: State, e: Event, others: seq<int>, t: nat)
    requires Inv(s, others) && Enabled(s, e) && Shallow(s, e) && t < |s.nest|
    ensures |Apply(s, e).nest| == |s.nest| && Apply(s, e).nest[t] == s.nest[t] + Nesting(s, e, t)
  {
    assert CpuOk(s, e.c);
  }

  /** Along any run, the counter of a thread is its locks less its unlocks: a lock that was taken twice is
      released by the second unlock. */
  lemma {:induction false} CounterIsBalance(s: State, es: seq<Event>, others: seq<int>, t: nat)
    requires Inv(s, others) && Possible(s, es) && t < |s.nest|
    ensures |After(s, es).nest| == |s.nest| && After(s, es).nest[t] == s.nest[t] + Balance(s, es, t)
    decreases es
  {
    hide Inv, Apply, Enabled, Nesting, Shallow;
    if es != [] {
      NestingStep(s, es[0], others, t);
      InvStep(s, es[0], others);
      CounterIsBalance(Apply(s, es[0]), es[1..], others, t);
    }
  }
}
