/** SetIdleTimer as the steps it takes: the test whether the timer is in a heap and the new deadline
    come before the heap's mutex is taken. */
module IdleTimers {
  import opened Sequences

  type Id = nat
  type Tid = nat

  /** Where a caller of SetIdleTimer is: about to set the deadline of a timer that it saw outside
      every heap, or about to insert it. */
  datatype Caller = Out | Tested(e: Id, deadline: int) | Dated(e: Id)

  /** heap: the timers in the heap; member: those whose fCurrentHeap is set. */
  datatype State = State(heap: multiset<Id>, member: set<Id>, value: map<Id, int>, callers: map<Tid, Caller>)

  /** The idle thread fires, and CancelTimeout takes out, a timer that is in the heap. */
  datatype Event = SetIdle(t: Tid, e: Id, deadline: int) | Go(t: Tid) | Leave(e: Id)

  function Step(s: State, ev: Event): Option<State>
  {
    match ev
    case SetIdle(t, e, deadline) =>
      if t !in s.callers || s.callers[t] != Out then None
      else if e in s.member then Some(s)
      else Some(s.(callers := s.callers[t := Tested(e, deadline)]))
    case Go(t) =>
      if t !in s.callers then None
      else
        (match s.callers[t]
         case Out => None
         case Tested(e, deadline) =>
           Some(s.(value := s.value[e := deadline], callers := s.callers[t := Dated(e)]))
         case Dated(e) =>
           Some(s.(heap := s.heap + multiset{e}, member := s.member + {e}, callers := s.callers[t := Out])))
    case Leave(e) =>
      if e !in s.heap then None
      else Some(s.(heap := s.heap - multiset{e}, member := s.member - {e}))
  }

  function Run(s: State, steps: seq<Event>): Option<State>
    decreases |steps|
  {
    if steps == [] then Some(s)
    else
      var next := Step(s, steps[0]);
      if next.None? then None else Run(next.value, steps[1..])
  }

  ghost predicate Setting(s: State, t: Tid, e: Id)
  {
    t in s.callers && s.callers[t] != Out && s.callers[t].e == e
  }

  /** No call for a timer starts while another for the same timer is between its test and its end. */
  ghost predicate Alone(s: State, ev: Event)
  {
    ev.SetIdle? ==> forall t :: !Setting(s, t, ev.e)
  }

  ghost predicate AllAlone(s: State, steps: seq<Event>)
    decreases |steps|
  {
    steps != [] ==>
      Alone(s, steps[0]) && (Step(s, steps[0]).Some? ==> AllAlone(Step(s, steps[0]).value, steps[1..]))
  }

  ghost predicate Init(s: State)
  {
    s.heap == multiset{} && s.member == {} && forall t :: t in s.callers ==> s.callers[t] == Out
  }

  /** A timer is in the heap once, exactly if it is marked so, and never while a caller is setting it. */
  ghost predicate Once(s: State, e: Id)
  {
    && s.heap[e] == (if e in s.member then 1 else 0)
    && (forall t :: Setting(s, t, e) ==> e !in s.member)
    && (forall t, u :: Setting(s, t, e) && Setting(s, u, e) ==> t == u)
  }

  ghost predicate Inv(s: State)
  {
    forall e {:trigger Once(s, e)} :: Once(s, e)
  }

  lemma StepKeeps(s: State, ev: Event)
    requires Inv(s) && Alone(s, ev) && Step(s, ev).Some?
    ensures var s' := Step(s, ev).value;
            && Inv(s')
            && (forall e :: e in s.heap && e in s.value ==> e in s'.value && s'.value[e] == s.value[e])
  {
    var s' := Step(s, ev).value;
    forall e
      ensures Once(s', e) && (e in s.heap && e in s.value ==> e in s'.value && s'.value[e] == s.value[e])
    {
      assert Once(s, e);
      assert ev.Go? ==> Setting(s, ev.t, s.callers[ev.t].e);
      forall t | Setting(s', t, e)
        ensures e !in s'.member && forall u :: Setting(s', u, e) ==> t == u
      {
        assert Setting(s, t, e) || (ev.SetIdle? && ev.t == t && ev.e == e);
        forall u | Setting(s', u, e)
          ensures t == u
        {
          assert Setting(s, u, e) || (ev.SetIdle? && ev.t == u && ev.e == e);
        }
      }
    }
  }

  /** In every run whose calls for the same timer do not overlap, each timer is in the heap at most
      once and marked exactly then, and the key of a timer in the heap does not change in any step. */
  lemma {:induction false} RunKeeps(s: State, steps: seq<Event>)
    requires Inv(s) && AllAlone(s, steps) && Run(s, steps).Some?
    ensures Inv(Run(s, steps).value)
    decreases |steps|
  {
    if steps != [] {
      StepKeeps(s, steps[0]);
      RunKeeps(Step(s, steps[0]).value, steps[1..]);
    }
  }

  lemma InitInv(s: State)
    requires Init(s)
    ensures Inv(s)
  {
    forall e
      ensures Once(s, e)
    {
    }
  }

  /** Two calls that overlap, for any timer not in the heap and from any state the others leave: the
      second changes the key of a timer in the heap and inserts it again; when it then fires once, it
      is still in the heap but no longer marked, and can be inserted a third time. */
  lemma InsertedTwice(s: State, t: Tid, u: Tid, e: Id, d1: int, d2: int)
    requires Inv(s) && e !in s.member && t != u && t in s.callers && u in s.callers
    requires s.callers[t] == Out && s.callers[u] == Out
    ensures var s1 := Run(s, [SetIdle(t, e, d1), SetIdle(u, e, d2), Go(t), Go(t)]);
            && s1.Some? && s1.value.heap[e] == 1 && e in s1.value.value && s1.value.value[e] == d1
            && var s2 := Run(s1.value, [Go(u), Go(u)]);
               && s2.Some? && s2.value.heap[e] == 2 && e in s2.value.value && s2.value.value[e] == d2
               && var s3 := Step(s2.value, Leave(e));
                  s3.Some? && s3.value.heap[e] == 1 && e !in s3.value.member
  {
    assert Once(s, e);
    var a := Step(s, SetIdle(t, e, d1)).value;
    var b := Step(a, SetIdle(u, e, d2)).value;
    var c := Step(b, Go(t)).value;
    var d := Step(c, Go(t)).value;
    assert Run(d, []) == Some(d);
    assert Run(c, [Go(t)]) == Some(d);
    assert Run(b, [Go(t), Go(t)]) == Some(d);
    assert Run(a, [SetIdle(u, e, d2), Go(t), Go(t)]) == Some(d);
    assert Run(s, [SetIdle(t, e, d1), SetIdle(u, e, d2), Go(t), Go(t)]) == Some(d);
    var f := Step(d, Go(u)).value;
    var g := Step(f, Go(u)).value;
    assert Run(g, []) == Some(g);
    assert Run(f, [Go(u)]) == Some(g);
    assert Run(d, [Go(u), Go(u)]) == Some(g);
  }

  /** A call that nothing disturbs: a timer already marked is left alone, any other gets the deadline and is in
      the heap, marked; and any timer in the heap can leave it, which takes its mark. */
  lemma CallCompletes(s: State, t: Tid, e: Id, d: int)
    requires Inv(s) && t in s.callers && s.callers[t] == Out
    ensures e in s.member ==> Run(s, [SetIdle(t, e, d)]) == Some(s)
    ensures e !in s.member ==>
              Run(s, [SetIdle(t, e, d), Go(t), Go(t)])
              == Some(s.(heap := s.heap + multiset{e}, member := s.member + {e}, value := s.value[e := d]))
    ensures e in s.member ==>
              Run(s, [Leave(e)]) == Some(s.(heap := s.heap - multiset{e}, member := s.member - {e}))
  {
    assert Once(s, e);
    if e in s.member {
      assert Run(s, []) == Some(s);
      var s1 := Step(s, Leave(e)).value;
      assert Run(s1, []) == Some(s1);
    } else {
      var s1 := Step(s, SetIdle(t, e, d)).value;
      var s2 := Step(s1, Go(t)).value;
      var s3 := Step(s2, Go(t)).value;
      assert s3.callers == s.callers;
      assert Run(s3, []) == Some(s3);
      assert Run(s2, [Go(t)]) == Some(s3);
      assert Run(s1, [Go(t), Go(t)]) == Some(s3);
    }
  }
}
