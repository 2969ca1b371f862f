/** The reference table and its mutex together: every operation locks, reads the table, writes what
    it has computed from what it saw, and unlocks or waits, one step at a time and in any
    interleaving of any number of threads. */
module TableLocking {
  import opened Sequences
  import M = RecursiveMutex
  import R = RefTable

  type Tid = t: nat | t != 0 witness 1

  /** Where a thread is in an operation: in the call of Lock, about to read, about to write, in the
      condition wait of UnRegister, or in the call of Unlock. */
  datatype Job =
    | Idle
    | Locking(e: R.Event)
    | Reading(e: R.Event)
    | Writing(e: R.Event, seen: R.State)
    | Waiting
    | Unlocking

  datatype State = State(mutex: M.State, table: R.State, jobs: map<Tid, Job>)

  /** A thread starts an operation, or goes on. */
  datatype Event = Call(e: R.Event) | Go

  predicate Known(s: State, t: Tid)
  {
    t in s.jobs && t in s.mutex.threads
  }

  /** The call of the mutex that the thread is in has returned. */
  predicate Returned(s: State, t: Tid)
    requires Known(s, t)
  {
    s.mutex.threads[t].pc == M.Out
  }

  function MutexStep(s: State, t: Tid, e: M.Event, job: Job): Option<State>
    requires Known(s, t)
  {
    var m := M.Step(s.mutex, t, e);
    if m.None? then None else Some(s.(mutex := m.value, jobs := s.jobs[t := job]))
  }

  function At(s: State, t: Tid, job: Job): State
  {
    s.(jobs := s.jobs[t := job])
  }

  /** The end of the body: the table becomes what follows from the state seen, whatever it is by now. */
  function Write(s: State, t: Tid, e: R.Event, seen: R.State): Option<State>
    requires Known(s, t) && R.Callable(seen, t, e)
  {
    var (table, reply) := R.Step(seen, t, e);
    if reply == R.Waits then MutexStep(s.(table := table), t, M.Wait, Waiting)
    else MutexStep(s.(table := table), t, M.Unlock, Unlocking)
  }

  function Step(s: State, t: Tid, ev: Event): Option<State>
    requires Known(s, t)
  {
    var job := s.jobs[t];
    if ev.Call? then
      if job == Idle && !ev.e.Retry? then MutexStep(s, t, M.Lock, Locking(ev.e)) else None
    else
      match job
      case Idle => None
      case Locking(e) => if Returned(s, t) then Some(At(s, t, Reading(e))) else MutexStep(s, t, M.Go, job)
      case Reading(e) => if R.Callable(s.table, t, e) then Some(At(s, t, Writing(e, s.table))) else None
      case Writing(e, seen) => if R.Callable(seen, t, e) then Write(s, t, e, seen) else None
      case Waiting => if Returned(s, t) then Some(At(s, t, Reading(R.Retry))) else MutexStep(s, t, M.Go, job)
      case Unlocking => if Returned(s, t) then Some(At(s, t, Idle)) else MutexStep(s, t, M.Go, job)
  }

  // ---------- The invariant ----------

  /** How the mutex sees a thread, by where it is in its operation. */
  ghost predicate Tied(s: State, t: Tid)
    requires Known(s, t)
  {
    var l := s.mutex.threads[t];
    match s.jobs[t]
    case Idle => l == M.Local(M.Out, 0)
    case Locking(e) => l == M.Local(M.Out, 1) || (l.depth == 0 && l.pc in {M.LockBlocked, M.SetHolder, M.SetCount})
    case Reading(e) => l == M.Local(M.Out, 1)
    case Writing(e, seen) => l == M.Local(M.Out, 1) && seen == s.table
    case Waiting =>
      l.depth == 1
      && l.pc in {M.Out, M.WaitCount, M.WaitHolder, M.WaitRelease, M.Waiting, M.WaitRecount, M.WaitRehold}
    case Unlocking => l in {M.Local(M.UnlockCount, 1), M.Local(M.Out, 0)}
                      || (l.depth == 0 && l.pc in {M.ClearHolder, M.Unlocking})
  }

  ghost predicate Inv(s: State)
  {
    && M.Inv(s.mutex) && (forall t :: t in s.jobs ==> t in s.mutex.threads)
    && (forall t {:trigger Tied(s, t)} :: t in s.jobs ==> Tied(s, t))
  }

  ghost predicate Init(s: State)
  {
    && M.Init(s.mutex) && (forall t :: t in s.jobs ==> t in s.mutex.threads)
    && (forall t :: t in s.jobs ==> s.jobs[t] == Idle)
  }

  lemma InitInv(s: State)
    requires Init(s)
    ensures Inv(s)
  {
    forall t | t in s.mutex.threads
      ensures M.Knows(s.mutex, t)
    {
    }
  }

  /** What a step does to the mutex: nothing, or one step of it, and a wait starts at depth 1. */
  ghost predicate MutexMoves(s: State, t: Tid, s': State)
    requires Known(s, t)
  {
    || s'.mutex == s.mutex
    || exists e :: M.Step(s.mutex, t, e) == Some(s'.mutex) && M.WaitsAtOne(s.mutex, t, e)
  }

  /** The step is the write at the end of an operation's body. */
  predicate Writes(s: State, t: Tid, ev: Event)
    requires Known(s, t)
  {
    ev.Go? && s.jobs[t].Writing?
  }

  /** What a step does to the table: a write does the whole operation on the table as it is, and goes on to
      wait or to unlock as the operation says; every other step leaves the table alone. */
  ghost predicate TableMoves(s: State, t: Tid, ev: Event, s': State)
    requires Known(s, t)
  {
    if Writes(s, t, ev) then
      var e := s.jobs[t].e;
      && R.Callable(s.table, t, e) && s'.table == R.Step(s.table, t, e).0 && t in s'.jobs
      && s'.jobs[t] == if R.Step(s.table, t, e).1 == R.Waits then Waiting else Unlocking
    else s'.table == s.table
  }

  /** The operation that a thread is in, up to its write. */
  function Doing(s: State, t: Tid): Option<R.Event>
    requires Known(s, t)
  {
    match s.jobs[t]
    case Locking(e) => Some(e)
    case Reading(e) => Some(e)
    case Writing(e, seen) => Some(e)
    case _ => None
  }

  /** The operation written is the one called, or another attempt of one that has waited. */
  ghost predicate Carries(s: State, t: Tid, ev: Event, s': State)
    requires Known(s, t) && Known(s', t)
  {
    Doing(s', t) == if ev.Call? then Some(ev.e)
                    else if Writes(s, t, ev) then None
                    else if s.jobs[t].Waiting? && !s'.jobs[t].Waiting? then Some(R.Retry)
                    else Doing(s, t)
  }

  /** One step of the mutex by t: the others are where they were. */
  lemma MutexTurn(m: M.State, t: Tid, e: M.Event)
    requires M.Inv(m) && t in m.threads && M.WaitsAtOne(m, t, e) && M.Step(m, t, e).Some?
    ensures var m' := M.Step(m, t, e).value;
            && M.Inv(m') && m'.threads.Keys == m.threads.Keys
            && forall u :: u in m.threads && u != t ==> m'.threads[u] == m.threads[u]
  {
    M.StepKeeps(m, t, e);
  }

  /** Where the step of the mutex leaves t. */
  lemma OwnTurn(m: M.State, t: Tid, e: M.Event)
    requires M.Inv(m) && t in m.threads && M.Step(m, t, e).Some?
    ensures var l, l' := m.threads[t], M.Step(m, t, e).value.threads[t];
            && (e == M.Lock && l == M.Local(M.Out, 0) ==> l' == M.Local(M.LockBlocked, 0))
            && (e == M.Unlock && l == M.Local(M.Out, 1) ==> l' == M.Local(M.UnlockCount, 1))
            && (e == M.Wait && l == M.Local(M.Out, 1) ==> l' == M.Local(M.WaitCount, 1))
            && (e == M.Go && l == M.Local(M.LockBlocked, 0) ==> l' == M.Local(M.SetHolder, 0))
            && (e == M.Go && l == M.Local(M.SetHolder, 0) ==> l' == M.Local(M.SetCount, 0))
            && (e == M.Go && l == M.Local(M.SetCount, 0) ==> l' == M.Local(M.Out, 1))
            && (e == M.Go && l == M.Local(M.UnlockCount, 1) ==> l' == M.Local(M.ClearHolder, 0))
            && (e == M.Go && l == M.Local(M.ClearHolder, 0) ==> l' == M.Local(M.Unlocking, 0))
            && (e == M.Go && l == M.Local(M.Unlocking, 0) ==> l' == M.Local(M.Out, 0))
            && (e == M.Go && l == M.Local(M.WaitCount, 1) ==> l' == M.Local(M.WaitHolder, 1))
            && (e == M.Go && l == M.Local(M.WaitHolder, 1) ==> l' == M.Local(M.WaitRelease, 1))
            && (e == M.Go && l == M.Local(M.WaitRelease, 1) ==> l' == M.Local(M.Waiting, 1))
            && (e == M.Go && l == M.Local(M.Waiting, 1) ==> l' == M.Local(M.WaitRecount, 1))
            && (e == M.Go && l == M.Local(M.WaitRecount, 1) ==> l' == M.Local(M.WaitRehold, 1))
            && (e == M.Go && l == M.Local(M.WaitRehold, 1) ==> l' == M.Local(M.Out, 1))
  {
    assert M.Knows(m, t);
  }

  /** Only one thread is between the return of Lock and the start of the wait or of Unlock. */
  lemma OneInside(m: M.State, t: Tid, u: Tid)
    requires M.Inv(m) && t in m.threads && u in m.threads
    requires m.threads[t] == M.Local(M.Out, 1) && m.threads[u] == M.Local(M.Out, 1)
    ensures t == u && m.owner == t
  {
    assert M.Knows(m, t) && M.Knows(m, u);
  }

  /** The mutex event of a step, if it has one. */
  ghost function Turn(s: State, t: Tid, ev: Event): Option<M.Event>
    requires Known(s, t)
  {
    if ev.Call? then Some(M.Lock)
    else
      match s.jobs[t]
      case Writing(e, seen) =>
        if R.Callable(seen, t, e) && R.Step(seen, t, e).1 == R.Waits then Some(M.Wait) else Some(M.Unlock)
      case Locking(e) => if Returned(s, t) then None else Some(M.Go)
      case Waiting => if Returned(s, t) then None else Some(M.Go)
      case Unlocking => if Returned(s, t) then None else Some(M.Go)
      case _ => None
  }

  /** A step of the mutex, or none, with the waits at depth 1; and where t is after it. */
  lemma StepMoves(s: State, t: Tid, ev: Event)
    requires Inv(s) && Known(s, t) && Step(s, t, ev).Some?
    ensures var s' := Step(s, t, ev).value;
            && s'.jobs.Keys == s.jobs.Keys && (forall u :: u in s.jobs && u != t ==> s'.jobs[u] == s.jobs[u])
            && M.Inv(s'.mutex) && s'.mutex.threads.Keys == s.mutex.threads.Keys
            && (forall u :: u in s.mutex.threads && u != t ==> s'.mutex.threads[u] == s.mutex.threads[u])
            && MutexMoves(s, t, s') && TableMoves(s, t, ev, s') && Carries(s, t, ev, s')
            && (Writes(s, t, ev) ==> s.mutex.threads[t] == M.Local(M.Out, 1))
            && Tied(s', t)
  {
    hide M.Inv, M.Step, R.Step, R.Callable;
    assert Tied(s, t);
    var e := Turn(s, t, ev);
    if e.Some? {
      assert M.WaitsAtOne(s.mutex, t, e.value);
      MutexTurn(s.mutex, t, e.value);
      OwnTurn(s.mutex, t, e.value);
    }
  }

  /** Every step keeps the invariant and waits only at depth 1; a write does its whole operation on the table's
      present state, so that no update is lost between a thread's reading and its writing. */
  lemma StepKeeps(s: State, t: Tid, ev: Event)
    requires Inv(s) && Known(s, t) && Step(s, t, ev).Some?
    ensures var s' := Step(s, t, ev).value;
            Inv(s') && MutexMoves(s, t, s') && TableMoves(s, t, ev, s') && Known(s', t) && Carries(s, t, ev, s')
  {
    var s' := Step(s, t, ev).value;
    StepMoves(s, t, ev);
    forall u | u in s'.jobs
      ensures Tied(s', u)
    {
      assert Tied(s, u);
      if u != t && s.jobs[u].Writing? && Writes(s, t, ev) {
        OneInside(s.mutex, t, u);
      }
    }
  }

  // ---------- Runs ----------

  function Run(s: State, steps: seq<(Tid, Event)>): Option<State>
    decreases |steps|
  {
    if steps == [] then Some(s)
    else if !Known(s, steps[0].0) then None
    else
      var next := Step(s, steps[0].0, steps[0].1);
      if next.None? then None else Run(next.value, steps[1..])
  }

  /** The operations whose bodies are written in a run, in the order of their writes. */
  function Bodies(s: State, steps: seq<(Tid, Event)>): seq<(R.Tid, R.Event)>
    decreases |steps|
  {
    if steps == [] || !Known(s, steps[0].0) || Step(s, steps[0].0, steps[0].1).None? then []
    else
      var (t, ev) := steps[0];
      (if Writes(s, t, ev) then [(t as R.Tid, s.jobs[t].e)] else []) + Bodies(Step(s, t, ev).value, steps[1..])
  }

  /** What a run does to the table is what its bodies do, one after the other and in their order; and what it
      does to the mutex is a run of it with its waits at depth 1. */
  lemma {:induction false} RunSplits(s: State, steps: seq<(Tid, Event)>) returns (ms: seq<(M.Tid, M.Event)>)
    requires Inv(s) && Run(s, steps).Some?
    ensures Inv(Run(s, steps).value)
    ensures M.Run(s.mutex, ms) == Some(Run(s, steps).value.mutex) && M.AllWaitAtOne(s.mutex, ms)
    ensures R.Run(s.table, Bodies(s, steps)) == Some(Run(s, steps).value.table)
    decreases |steps|
  {
    if steps == [] {
      return [];
    }
    var t := steps[0].0;
    var ev := steps[0].1;
    var next := Step(s, t, ev).value;
    StepKeeps(s, t, ev);
    ms := RunSplits(next, steps[1..]);
    hide Inv, Step, M.Step, R.Step, R.Callable;
    if next.mutex != s.mutex {
      var e :| M.Step(s.mutex, t, e) == Some(next.mutex) && M.WaitsAtOne(s.mutex, t, e);
      assert ([(t as M.Tid, e)] + ms)[1..] == ms;
      ms := [(t as M.Tid, e)] + ms;
    }
    var rest := Bodies(next, steps[1..]);
    if Writes(s, t, ev) {
      var e := s.jobs[t].e;
      assert ([(t as R.Tid, e)] + rest)[1..] == rest;
      assert Bodies(s, steps) == [(t as R.Tid, e)] + rest;
    } else {
      assert Bodies(s, steps) == rest;
    }
  }

  /** From the start, in any interleaving of the operations' steps: the table is as after the operations
      written so far, whole and one after the other, so its invariant holds; the mutex is as after a run with all
      waits at depth 1; and a thread inside the body of an operation is alone there and owns the mutex. */
  lemma Serial(s: State, steps: seq<(Tid, Event)>)
    requires Init(s) && R.Inv(s.table) && Run(s, steps).Some?
    ensures var s' := Run(s, steps).value;
            && R.Run(s.table, Bodies(s, steps)) == Some(s'.table) && R.Inv(s'.table) && M.Inv(s'.mutex)
            && (exists ms :: M.AllWaitAtOne(s.mutex, ms) && M.Run(s.mutex, ms) == Some(s'.mutex))
    ensures var s' := Run(s, steps).value;
            forall t, u :: t in s'.jobs && (s'.jobs[t].Reading? || s'.jobs[t].Writing?)
                           && u in s'.jobs && (s'.jobs[u].Reading? || s'.jobs[u].Writing?) ==>
                             t == u && s'.mutex.owner == t
  {
    InitInv(s);
    var ms := RunSplits(s, steps);
    R.RunKeeps(s.table, Bodies(s, steps));
    var s' := Run(s, steps).value;
    forall t, u | t in s'.jobs && (s'.jobs[t].Reading? || s'.jobs[t].Writing?)
                  && u in s'.jobs && (s'.jobs[u].Reading? || s'.jobs[u].Writing?)
      ensures t == u && s'.mutex.owner == t
    {
      assert Tied(s', t) && Tied(s', u);
      OneInside(s'.mutex, t, u);
    }
  }

  // ---------- One operation, undisturbed ----------

  function Gos(t: Tid, n: nat): seq<(Tid, Event)>
  {
    if n == 0 then [] else [(t, Go)] + Gos(t, n - 1)
  }

  lemma GoOn(s: State, t: Tid, n: nat)
    requires n > 0 && Known(s, t) && Step(s, t, Go).Some?
    ensures Run(s, Gos(t, n)) == Run(Step(s, t, Go).value, Gos(t, n - 1))
  {
    assert Gos(t, n)[1..] == Gos(t, n - 1);
  }

  /** A thread that steps through the call of the mutex, until it returns. */
  lemma MutexOn(s: State, t: Tid, n: nat)
    requires n > 0 && Known(s, t) && !Returned(s, t) && (s.jobs[t].Locking? || s.jobs[t].Unlocking?)
    requires M.Step(s.mutex, t, M.Go).Some?
    ensures var s' := s.(mutex := M.Step(s.mutex, t, M.Go).value);
            Step(s, t, Go) == Some(s') && Run(s, Gos(t, n)) == Run(s', Gos(t, n - 1))
  {
    assert s.jobs[t := s.jobs[t]] == s.jobs;
    GoOn(s, t, n);
  }

  /** With the mutex free, any operation that need not wait comes to its end: the table is as the operation
      says, and the mutex is free again. */
  lemma Completes(s: State, t: Tid, e: R.Event)
    requires Inv(s) && Known(s, t) && s.jobs[t] == Idle && s.mutex.owner == 0
    requires R.Callable(s.table, t, e) && !e.Retry? && R.Step(s.table, t, e).1 != R.Waits
    ensures Run(s, [(t, Call(e))] + Gos(t, 10)) == Some(s.(table := R.Step(s.table, t, e).0))
  {
    hide M.Step, M.Inv, R.Step, R.Callable, M.Knows, Gos, Run, Step;
    assert Tied(s, t);
    var m1, m2, m3, m4, n1, n2, n3 := MutexRound(s.mutex, t);
    Enters(s, t, e, m1, m2, m3, m4);
    var s4 := State(m4, s.table, s.jobs[t := Locking(e)]);
    var s7 := State(n1, R.Step(s.table, t, e).0, s.jobs[t := Unlocking]);
    Body(s4, t, e, s7);
    Leaves(s7, t, n2, n3, s.mutex);
    assert s7.jobs[t := Idle] == s.jobs;
  }

  lemma Enters(s: State, t: Tid, e: R.Event, m1: M.State, m2: M.State, m3: M.State, m4: M.State)
    requires Known(s, t) && s.jobs[t] == Idle && !e.Retry? && M.Step(s.mutex, t, M.Lock) == Some(m1)
    requires t in m1.threads && m1.threads[t].pc != M.Out && M.Step(m1, t, M.Go) == Some(m2)
    requires t in m2.threads && m2.threads[t].pc != M.Out && M.Step(m2, t, M.Go) == Some(m3)
    requires t in m3.threads && m3.threads[t].pc != M.Out && M.Step(m3, t, M.Go) == Some(m4)
    ensures var s4 := State(m4, s.table, s.jobs[t := Locking(e)]);
            Run(s, [(t, Call(e))] + Gos(t, 10)) == Run(s4, Gos(t, 7))
  {
    hide M.Step, R.Step, R.Callable, Gos;
    var s1 := State(m1, s.table, s.jobs[t := Locking(e)]);
    assert ([(t, Call(e))] + Gos(t, 10))[1..] == Gos(t, 10);
    assert Step(s, t, Call(e)) == Some(s1);
    assert Run(s, [(t, Call(e))] + Gos(t, 10)) == Run(s1, Gos(t, 10));
    hide Step, Run;
    MutexOn(s1, t, 10);
    MutexOn(s1.(mutex := m2), t, 9);
    MutexOn(s1.(mutex := m3), t, 8);
  }

  lemma Body(s: State, t: Tid, e: R.Event, s': State)
    requires Known(s, t) && Returned(s, t) && s.jobs[t] == Locking(e)
    requires R.Callable(s.table, t, e) && R.Step(s.table, t, e).1 != R.Waits
    requires M.Step(s.mutex, t, M.Unlock) == Some(s'.mutex) && s'.table == R.Step(s.table, t, e).0
    requires s'.jobs == s.jobs[t := Unlocking]
    ensures Run(s, Gos(t, 7)) == Run(s', Gos(t, 4))
  {
    hide M.Step, R.Step, R.Callable, Gos, Run;
    var s1 := At(s, t, Reading(e));
    var s2 := At(s, t, Writing(e, s.table));
    assert s1.jobs[t := Writing(e, s.table)] == s2.jobs && s2.jobs[t := Unlocking] == s'.jobs;
    GoOn(s, t, 7);
    GoOn(s1, t, 6);
    GoOn(s2, t, 5);
  }

  lemma Leaves(s: State, t: Tid, n2: M.State, n3: M.State, m: M.State)
    requires Known(s, t) && s.jobs[t] == Unlocking && !Returned(s, t) && M.Step(s.mutex, t, M.Go) == Some(n2)
    requires t in n2.threads && n2.threads[t].pc != M.Out && M.Step(n2, t, M.Go) == Some(n3)
    requires t in n3.threads && n3.threads[t].pc != M.Out && M.Step(n3, t, M.Go) == Some(m)
    requires t in m.threads && m.threads[t].pc == M.Out
    ensures Run(s, Gos(t, 4)) == Some(State(m, s.table, s.jobs[t := Idle]))
  {
    hide M.Step, Gos, Run;
    MutexOn(s, t, 4);
    MutexOn(s.(mutex := n2), t, 3);
    MutexOn(s.(mutex := n3), t, 2);
    var s' := s.(mutex := m);
    GoOn(s', t, 1);
    NoGo(At(s', t, Idle), t);
  }

  lemma NoGo(s: State, t: Tid)
    ensures Run(s, Gos(t, 0)) == Some(s)
  {
  }

  /** A lock and an unlock of a free mutex, step by step. */
  lemma MutexRound(m: M.State, t: Tid)
      returns (m1: M.State, m2: M.State, m3: M.State, m4: M.State, n1: M.State, n2: M.State, n3: M.State)
    requires M.Inv(m) && t in m.threads && m.threads[t] == M.Local(M.Out, 0) && m.owner == 0
    ensures M.Step(m, t, M.Lock) == Some(m1) && t in m1.threads && m1.threads[t].pc != M.Out
    ensures M.Step(m1, t, M.Go) == Some(m2) && t in m2.threads && m2.threads[t].pc != M.Out
    ensures M.Step(m2, t, M.Go) == Some(m3) && t in m3.threads && m3.threads[t].pc != M.Out
    ensures M.Step(m3, t, M.Go) == Some(m4) && t in m4.threads && m4.threads[t].pc == M.Out
    ensures M.Step(m4, t, M.Unlock) == Some(n1) && t in n1.threads && n1.threads[t].pc != M.Out
    ensures M.Step(n1, t, M.Go) == Some(n2) && t in n2.threads && n2.threads[t].pc != M.Out
    ensures M.Step(n2, t, M.Go) == Some(n3) && t in n3.threads && n3.threads[t].pc != M.Out
    ensures M.Step(n3, t, M.Go) == Some(m)
  {
    assert M.Knows(m, t);
    m1 := M.Step(m, t, M.Lock).value;
    m2 := M.Step(m1, t, M.Go).value;
    m3 := M.Step(m2, t, M.Go).value;
    m4 := M.Step(m3, t, M.Go).value;
    n1 := M.Step(m4, t, M.Unlock).value;
    n2 := M.Step(n1, t, M.Go).value;
    n3 := M.Step(n2, t, M.Go).value;
    assert M.Step(n3, t, M.Go).value.threads == m.threads;
  }
}
