/** The hand-made recursive mutex and the condition wait that hands it over, as interleaved steps of
    any number of threads. Each step reads or writes one shared variable. */
module RecursiveMutex {
  import opened Sequences

  type Tid = t: int | t != 0 witness 1

  /** Where a thread is in the code of RecursiveLock, RecursiveTryLock, RecursiveUnlock, TimedWait. */
  datatype Pc =
    | Out            // in none of them
    | Reenter        // saw itself as holder; about to count
    | LockBlocked    // in pthread_mutex_lock
    | TryBlocked     // about to call pthread_mutex_trylock
    | SetHolder      // has the mutex; about to set fHolder
    | SetCount       // about to count to 1
    | UnlockCount    // saw itself as holder; about to count down
    | ClearHolder    // counted down to 0; about to clear fHolder
    | Unlocking      // about to call pthread_mutex_unlock
    | WaitCount      // TimedWait: about to count down
    | WaitHolder     // about to clear fHolder
    | WaitRelease    // about to enter the condition wait, which releases the mutex
    | Waiting        // in the condition wait
    | WaitRecount    // woken, has the mutex; about to count up
    | WaitRehold     // about to set fHolder

  /** depth: how many locks the thread took and has not given back; it keeps them through a wait. */
  datatype Local = Local(pc: Pc, depth: nat)

  /** owner: the thread that has the pthread mutex, 0 if none. */
  datatype State = State(owner: int, fHolder: int, fHolderCount: int, threads: map<Tid, Local>)

  /** What a thread may do: call one of the four, or go on where it is. */
  datatype Event = Lock | TryLock | Unlock | Wait | Go

  function At(s: State, t: Tid, pc: Pc): State
    requires t in s.threads
  {
    s.(threads := s.threads[t := s.threads[t].(pc := pc)])
  }

  function Deeper(s: State, t: Tid, delta: int): State
    requires t in s.threads && s.threads[t].depth + delta >= 0
  {
    s.(threads := s.threads[t := Local(Out, s.threads[t].depth + delta)])
  }

  /** One step of thread t; None when it cannot take it. */
  function Step(s: State, t: Tid, e: Event): Option<State>
    requires t in s.threads
  {
    var l := s.threads[t];
    match e
    case Lock => if l.pc != Out then None else Some(At(s, t, if s.fHolder == t then Reenter else LockBlocked))
    case TryLock => if l.pc != Out then None else Some(At(s, t, if s.fHolder == t then Reenter else TryBlocked))
    case Unlock => if l.pc != Out then None else Some(At(s, t, if s.fHolder == t then UnlockCount else Out))
    case Wait => if l.pc != Out || s.owner != t then None else Some(At(s, t, WaitCount))
    case Go =>
      match l.pc
      case Out => None
      case Reenter => Some(Deeper(s.(fHolderCount := s.fHolderCount + 1), t, 1))
      case LockBlocked => if s.owner != 0 then None else Some(At(s.(owner := t), t, SetHolder))
      case TryBlocked => Some(if s.owner != 0 then At(s, t, Out) else At(s.(owner := t), t, SetHolder))
      case SetHolder => Some(At(s.(fHolder := t), t, SetCount))
      case SetCount => Some(Deeper(s.(fHolderCount := s.fHolderCount + 1), t, 1))
      case UnlockCount =>
        if l.depth == 0 then None
        else
          var s' := Deeper(s.(fHolderCount := s.fHolderCount - 1), t, -1);
          Some(if s'.fHolderCount == 0 then At(s', t, ClearHolder) else s')
      case ClearHolder => Some(At(s.(fHolder := 0), t, Unlocking))
      case Unlocking => Some(At(s.(owner := 0), t, Out))
      case WaitCount => Some(At(s.(fHolderCount := s.fHolderCount - 1), t, WaitHolder))
      case WaitHolder => Some(At(s.(fHolder := 0), t, WaitRelease))
      case WaitRelease => Some(At(s.(owner := 0), t, Waiting))
      case Waiting => if s.owner != 0 then None else Some(At(s.(owner := t), t, WaitRecount))
      case WaitRecount => Some(At(s.(fHolderCount := s.fHolderCount + 1), t, WaitRehold))
      case WaitRehold => Some(At(s.(fHolder := t), t, Out))
  }

  /** A run: steps one after the other, in any interleaving. */
  function Run(s: State, steps: seq<(Tid, Event)>): Option<State>
    decreases |steps|
  {
    if steps == [] then Some(s)
    else if steps[0].0 !in s.threads then None
    else
      var next := Step(s, steps[0].0, steps[0].1);
      if next.None? then None else Run(next.value, steps[1..])
  }

  ghost predicate Init(s: State)
  {
    s.owner == 0 && s.fHolder == 0 && s.fHolderCount == 0
        && forall t :: t in s.threads ==> s.threads[t] == Local(Out, 0)
  }

  // ---------- The invariant ----------

  ghost predicate Holding(s: State, t: Tid, holder: int, count: int)
  {
    s.owner == t && s.fHolder == holder && s.fHolderCount == count
  }

  /** What thread t knows, by where it is. */
  ghost predicate Knows(s: State, t: Tid)
    requires t in s.threads
  {
    var d := s.threads[t].depth;
    match s.threads[t].pc
    case Out => if d == 0 then s.owner != t && s.fHolder != t else Holding(s, t, t, d)
    case Reenter | UnlockCount => d > 0 && Holding(s, t, t, d)
    case LockBlocked | TryBlocked => d == 0 && s.owner != t && s.fHolder != t
    case SetHolder | Unlocking => d == 0 && Holding(s, t, 0, 0)
    case SetCount | ClearHolder => d == 0 && Holding(s, t, t, 0)
    case WaitCount => d == 1 && Holding(s, t, t, 1)
    case WaitHolder => d == 1 && Holding(s, t, t, 0)
    case WaitRelease | WaitRecount => d == 1 && Holding(s, t, 0, 0)
    case Waiting => d == 1 && s.owner != t && s.fHolder != t
    case WaitRehold => d == 1 && Holding(s, t, 0, 1)
  }

  ghost predicate Inv(s: State)
  {
    && (s.owner == 0 ==> s.fHolder == 0 && s.fHolderCount == 0)
    && (s.owner != 0 ==> s.owner in s.threads && (s.fHolder == 0 || s.fHolder == s.owner))
    && (forall t {:trigger Knows(s, t)} :: t in s.threads ==> Knows(s, t))
  }

  /** TimedWait is called with the mutex locked exactly once. */
  ghost predicate WaitsAtOne(s: State, t: Tid, e: Event)
  {
    e == Wait ==> t in s.threads && s.threads[t].depth == 1
  }

  ghost predicate AllWaitAtOne(s: State, steps: seq<(Tid, Event)>)
    decreases |steps|
  {
    steps != [] && steps[0].0 in s.threads ==>
      && WaitsAtOne(s, steps[0].0, steps[0].1)
      && (Step(s, steps[0].0, steps[0].1).Some? ==> AllWaitAtOne(Step(s, steps[0].0, steps[0].1).value, steps[1..]))
  }

  lemma StepKeeps(s: State, t: Tid, e: Event)
    requires Inv(s) && t in s.threads && WaitsAtOne(s, t, e) && Step(s, t, e).Some?
    ensures Inv(Step(s, t, e).value)
  {
    var s' := Step(s, t, e).value;
    assert Knows(s, t);
    forall u | u in s'.threads
      ensures Knows(s', u)
    {
      assert Knows(s, u);
    }
  }

  /** In every interleaving of any number of threads the invariant holds. */
  lemma {:induction false} RunKeeps(s: State, steps: seq<(Tid, Event)>)
    requires Inv(s) && AllWaitAtOne(s, steps) && Run(s, steps).Some?
    ensures Inv(Run(s, steps).value)
    decreases |steps|
  {
    if steps != [] {
      StepKeeps(s, steps[0].0, steps[0].1);
      RunKeeps(Step(s, steps[0].0, steps[0].1).value, steps[1..]);
    }
  }

  /** The unlocked test `fHolder == me` is exact for the thread that makes it, although other
      threads may be changing the fields: it succeeds if and only if the thread has the mutex, and
      then the count is its nesting depth. At most one thread is in. */
  lemma TestExact(s0: State, steps: seq<(Tid, Event)>, t: Tid)
    requires Init(s0) && AllWaitAtOne(s0, steps) && Run(s0, steps).Some?
    requires var s := Run(s0, steps).value; t in s.threads && s.threads[t].pc == Out
    ensures var s := Run(s0, steps).value;
            && (s.fHolder == t <==> s.owner == t) && (s.owner == t <==> s.threads[t].depth > 0)
            && (s.owner == t ==> s.fHolderCount == s.threads[t].depth)
            && (forall u :: u in s.threads && u != t && s.threads[u].pc == Out && s.threads[u].depth > 0 ==>
                              s.threads[t].depth == 0)
  {
    var s := Run(s0, steps).value;
    assert Inv(s0) by {
      forall u | u in s0.threads
        ensures Knows(s0, u)
      {
      }
    }
    RunKeeps(s0, steps);
    assert Knows(s, t);
    forall u | u in s.threads && u != t && s.threads[u].pc == Out && s.threads[u].depth > 0
      ensures s.threads[t].depth == 0
    {
      assert Knows(s, u);
    }
  }

  /** The assertions in RecursiveLock and RecursiveTryLock: no holder before fHolder is set, and a
      count of 1 after. */
  lemma LockAssertions(s: State, t: Tid)
    requires Inv(s) && t in s.threads
    ensures s.threads[t].pc == SetHolder ==> s.fHolder == 0
    ensures s.threads[t].pc == SetCount ==> Step(s, t, Go).value.fHolderCount == 1
    ensures s.threads[t].pc == UnlockCount ==> s.fHolderCount > 0 && Step(s, t, Go).Some?
  {
    assert Knows(s, t);
  }

  // ---------- What each call does, undisturbed ----------

  ghost predicate Has(s: State, t: Tid, depth: nat)
  {
    t in s.threads && s.threads[t] == Local(Out, depth) && s.owner == s.fHolder == t && s.fHolderCount == depth
  }

  /** RecursiveLock of a free mutex takes it, of one's own goes one deeper, and of another's blocks. */
  lemma LockTakes(s: State, t: Tid)
    requires Inv(s) && t in s.threads && s.threads[t].pc == Out
    ensures s.owner == 0 ==> var s' := Run(s, [(t, Lock), (t, Go), (t, Go), (t, Go)]); s'.Some? && Has(s'.value, t, 1)
    ensures s.owner == t ==>
              var s' := Run(s, [(t, Lock), (t, Go)]); s'.Some? && Has(s'.value, t, s.threads[t].depth + 1)
    ensures s.owner != 0 && s.owner != t ==> Run(s, [(t, Lock), (t, Go)]).None? && Step(s, t, Lock).Some?
  {
    assert Knows(s, t);
    var s1 := Step(s, t, Lock).value;
    assert [(t, Lock), (t, Go)][1..] == [(t, Go)];
    if s.owner == 0 {
      var s2 := Step(s1, t, Go).value;
      var s3 := Step(s2, t, Go).value;
      FourSteps(s, t, Lock, s1, s2, s3, Step(s3, t, Go).value);
    } else if s.owner == t {
      TwoSteps(s, t, Lock, s1, Step(s1, t, Go).value);
    }
  }

  /** RecursiveTryLock does the same, and is refused where RecursiveLock blocks. */
  lemma TryLockTakes(s: State, t: Tid)
    requires Inv(s) && t in s.threads && s.threads[t].pc == Out
    ensures s.owner == 0 ==>
              var s' := Run(s, [(t, TryLock), (t, Go), (t, Go), (t, Go)]); s'.Some? && Has(s'.value, t, 1)
    ensures s.owner == t ==>
              var s' := Run(s, [(t, TryLock), (t, Go)]); s'.Some? && Has(s'.value, t, s.threads[t].depth + 1)
    ensures s.owner != 0 && s.owner != t ==> Run(s, [(t, TryLock), (t, Go)]) == Some(s)
  {
    assert Knows(s, t);
    var s1 := Step(s, t, TryLock).value;
    var s2 := Step(s1, t, Go).value;
    if s.owner == 0 {
      var s3 := Step(s2, t, Go).value;
      FourSteps(s, t, TryLock, s1, s2, s3, Step(s3, t, Go).value);
    } else {
      assert s.owner != t ==> s2.threads == s.threads;
      TwoSteps(s, t, TryLock, s1, s2);
    }
  }

  /** RecursiveUnlock goes one up, gives the mutex back with the last lock, and does nothing to one that is
      not one's own. */
  lemma UnlockGives(s: State, t: Tid)
    requires Inv(s) && t in s.threads && s.threads[t].pc == Out
    ensures s.owner == t && s.threads[t].depth > 1 ==>
              var s' := Run(s, [(t, Unlock), (t, Go)]); s'.Some? && Has(s'.value, t, s.threads[t].depth - 1)
    ensures s.owner == t && s.threads[t].depth == 1 ==>
              var s' := Run(s, [(t, Unlock), (t, Go), (t, Go), (t, Go)]);
              s' == Some(State(0, 0, 0, s.threads[t := Local(Out, 0)]))
    ensures s.owner != t ==> Step(s, t, Unlock) == Some(s)
  {
    assert Knows(s, t);
    var s1 := Step(s, t, Unlock).value;
    if s.owner != t {
      assert s1.threads == s.threads;
    } else {
      var s2 := Step(s1, t, Go).value;
      if s.threads[t].depth > 1 {
        TwoSteps(s, t, Unlock, s1, s2);
      } else {
        var s3 := Step(s2, t, Go).value;
        var s4 := Step(s3, t, Go).value;
        assert s4.threads == s.threads[t := Local(Out, 0)];
        FourSteps(s, t, Unlock, s1, s2, s3, s4);
      }
    }
  }

  /** A condition wait can end whenever the mutex is free, with the lock as before it. */
  lemma WaitReturns(s: State, t: Tid)
    requires Inv(s) && t in s.threads && s.threads[t].pc == Waiting && s.owner == 0
    ensures var s' := Run(s, [(t, Go), (t, Go), (t, Go)]); s'.Some? && Has(s'.value, t, 1)
    ensures forall e :: e != Go ==> Step(s, t, e).None?
  {
    assert Knows(s, t);
    var s1 := Step(s, t, Go).value;
    var s2 := Step(s1, t, Go).value;
    TwoSteps(s1, t, Go, s2, Step(s2, t, Go).value);
    assert [(t, Go), (t, Go), (t, Go)][1..] == [(t, Go), (t, Go)];
  }

  // ---------- The wait at another depth ----------

  /** After the three steps into a wait: the mutex is free, and whoever takes it next starts from
      the count left behind. The invariant survives if and only if the depth was 1. */
  lemma WaitExactlyAtOne(s: State, t: Tid)
    requires Inv(s) && t in s.threads && s.threads[t].pc == Out && s.owner == t
    ensures var s' := Run(s, [(t, Wait), (t, Go), (t, Go), (t, Go)]);
            && s'.Some? && s'.value.owner == 0 && s'.value.fHolderCount == s.threads[t].depth - 1
            && (Inv(s'.value) <==> s.threads[t].depth == 1)
  {
    assert Knows(s, t);
    var s1 := Step(s, t, Wait).value;
    var s2 := Step(s1, t, Go).value;
    var s3 := Step(s2, t, Go).value;
    var s4 := Step(s3, t, Go).value;
    FourSteps(s, t, Wait, s1, s2, s3, s4);
    if s.threads[t].depth == 1 {
      StepKeeps(s, t, Wait);
      StepKeeps(s1, t, Go);
      StepKeeps(s2, t, Go);
      StepKeeps(s3, t, Go);
    }
  }

  lemma FourSteps(s: State, t: Tid, e: Event, s1: State, s2: State, s3: State, s4: State)
    requires t in s.threads && Step(s, t, e) == Some(s1) && t in s1.threads && Step(s1, t, Go) == Some(s2)
    requires t in s2.threads && Step(s2, t, Go) == Some(s3) && t in s3.threads && Step(s3, t, Go) == Some(s4)
    ensures Run(s, [(t, e), (t, Go), (t, Go), (t, Go)]) == Some(s4)
  {
    var r := [(t, e), (t, Go), (t, Go), (t, Go)];
    assert r[1..] == [(t, Go), (t, Go), (t, Go)];
    TwoSteps(s2, t, Go, s3, s4);
    assert [(t, Go), (t, Go), (t, Go)][1..] == [(t, Go), (t, Go)];
    assert Run(s1, [(t, Go), (t, Go), (t, Go)]) == Some(s4);
  }

  lemma TwoSteps(s: State, t: Tid, e: Event, s1: State, s2: State)
    requires t in s.threads && Step(s, t, e) == Some(s1) && t in s1.threads && Step(s1, t, Go) == Some(s2)
    ensures Run(s, [(t, e), (t, Go)]) == Some(s2)
  {
    assert [(t, e), (t, Go)][1..] == [(t, Go)];
    assert Run(s1, [(t, Go)]) == Some(s2) by { assert [(t, Go)][1..] == []; }
  }

  lemma {:induction false} RunConcat(s: State, a: seq<(Tid, Event)>, b: seq<(Tid, Event)>)
    requires Run(s, a).Some?
    ensures Run(s, a + b) == Run(Run(s, a).value, b)
    decreases |a|
  {
    if a == [] {
      assert a + b == b;
    } else {
      assert (a + b)[0] == a[0] && (a + b)[1..] == a[1..] + b;
      RunConcat(Step(s, a[0].0, a[0].1).value, a[1..], b);
    }
  }

  /** Lock and unlock by a thread that finds the mutex free but a count left behind: the unlock does
      not count down to 0, so the thread keeps the mutex although it gave back its only lock. */
  lemma LeftoverCount(s: State, u: Tid)
    requires u in s.threads && s.threads[u] == Local(Out, 0) && s.owner == 0 && s.fHolder == 0 && s.fHolderCount > 0
    ensures var s' := Run(s, [(u, Lock), (u, Go), (u, Go), (u, Go)] + [(u, Unlock), (u, Go)]);
            s'.Some? && s'.value.owner == u && u in s'.value.threads && s'.value.threads[u] == Local(Out, 0)
  {
    var s1 := At(s, u, LockBlocked);
    var s2 := At(s1.(owner := u), u, SetHolder);
    var s3 := At(s2.(fHolder := u), u, SetCount);
    var s4 := Deeper(s3.(fHolderCount := s3.fHolderCount + 1), u, 1);
    FourSteps(s, u, Lock, s1, s2, s3, s4);
    RunConcat(s, [(u, Lock), (u, Go), (u, Go), (u, Go)], [(u, Unlock), (u, Go)]);
    var s5 := At(s4, u, UnlockCount);
    var s6 := Deeper(s5.(fHolderCount := s5.fHolderCount - 1), u, -1);
    TwoSteps(s4, u, Unlock, s5, s6);
  }

  /** Two locks by a thread that finds the mutex free. */
  lemma LockTwice(s: State, t: Tid)
    requires t in s.threads && s.threads[t] == Local(Out, 0) && s.owner == 0 && s.fHolder == 0 && s.fHolderCount == 0
    ensures Run(s, [(t, Lock), (t, Go), (t, Go), (t, Go)] + [(t, Lock), (t, Go)])
            == Some(State(t, t, 2, s.threads[t := Local(Out, 2)]))
  {
    var s1 := At(s, t, LockBlocked);
    var s2 := At(s1.(owner := t), t, SetHolder);
    var s3 := At(s2.(fHolder := t), t, SetCount);
    var s4 := Deeper(s3.(fHolderCount := 1), t, 1);
    FourSteps(s, t, Lock, s1, s2, s3, s4);
    RunConcat(s, [(t, Lock), (t, Go), (t, Go), (t, Go)], [(t, Lock), (t, Go)]);
    var s5 := At(s4, t, Reenter);
    var s6 := Deeper(s5.(fHolderCount := 2), t, 1);
    TwoSteps(s4, t, Lock, s5, s6);
    assert s6.threads == s.threads[t := Local(Out, 2)];
  }

  /** The steps of a condition wait into the wait, for a thread two locks deep. */
  lemma WaitAtTwo(s: State, t: Tid)
    requires t in s.threads && s == State(t, t, 2, s.threads) && s.threads[t] == Local(Out, 2)
    ensures Run(s, [(t, Wait), (t, Go), (t, Go), (t, Go)]) == Some(State(0, 0, 1, s.threads[t := Local(Waiting, 2)]))
  {
    var s1 := At(s, t, WaitCount);
    var s2 := At(s1.(fHolderCount := 1), t, WaitHolder);
    var s3 := At(s2.(fHolder := 0), t, WaitRelease);
    var s4 := At(s3.(owner := 0), t, Waiting);
    FourSteps(s, t, Wait, s1, s2, s3, s4);
    assert s4.threads == s.threads[t := Local(Waiting, 2)];
  }

  /** A run from the start: thread 1 locks twice and waits; thread 2 locks and unlocks once, and is
      stuck with the mutex. */
  lemma NestedWaitStuck(s: State)
    requires s == State(0, 0, 0, map[1 := Local(Out, 0), 2 := Local(Out, 0)])
    ensures Init(s)
    ensures var locks: seq<(Tid, Event)> := [(1, Lock), (1, Go), (1, Go), (1, Go)] + [(1, Lock), (1, Go)];
            var wait: seq<(Tid, Event)> := [(1, Wait), (1, Go), (1, Go), (1, Go)];
            var other: seq<(Tid, Event)> := [(2, Lock), (2, Go), (2, Go), (2, Go)] + [(2, Unlock), (2, Go)];
            var s' := Run(s, locks + (wait + other));
            s'.Some? && 2 in s'.value.threads && s'.value.threads[2] == Local(Out, 0) && s'.value.owner == 2
  {
    var one: Tid, two: Tid := 1, 2;
    assert Init(s);
    hide Inv, Run, Init;
    LockTwice(s, one);
    var s1 := State(1, 1, 2, s.threads[one := Local(Out, 2)]);
    WaitAtTwo(s1, one);
    var s2 := State(0, 0, 1, s1.threads[one := Local(Waiting, 2)]);
    LeftoverCount(s2, two);
    var locks: seq<(Tid, Event)> := [(one, Lock), (one, Go), (one, Go), (one, Go)] + [(one, Lock), (one, Go)];
    var wait: seq<(Tid, Event)> := [(one, Wait), (one, Go), (one, Go), (one, Go)];
    var other: seq<(Tid, Event)> := [(two, Lock), (two, Go), (two, Go), (two, Go)] + [(two, Unlock), (two, Go)];
    RunConcat(s1, wait, other);
    RunConcat(s, locks, wait + other);
  }
}
