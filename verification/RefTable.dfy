/** OSRefTable: named references shared by any number of threads. Every operation runs under the
    table's mutex and is one step; UnRegister, which waits on a condition, is one step per test. */
module RefTable {
  import opened Sequences

  const UINT32: nat := 0x1_0000_0000

  type Id = nat
  type Tid = nat

  /** count is fRefCount, 32 bits wide; held is the number of handles given out and not released. */
  datatype Ref = Ref(str: string, count: nat, held: nat)

  datatype Thread = Idle | Removing(r: Id, level: nat)

  /** table: the refs in it, in the order the chains are searched. */
  datatype State = State(refs: map<Id, Ref>, table: seq<Id>, threads: map<Tid, Thread>)

  datatype Event =
    | Register(r: Id) | RegisterOrResolve(r: Id) | Resolve(str: string) | Release(r: Id)
    | UnRegister(r: Id, level: nat) | Retry | TryUnRegister(r: Id, level: nat) | Swap(r: Id)

  datatype Reply = NoErr | Eperm | Null | Found(r: Id) | True | False | Waits

  function Find(refs: map<Id, Ref>, table: seq<Id>, str: string): (r: Option<Id>)
    ensures r.Some? ==> r.value in table && r.value in refs && refs[r.value].str == str
    ensures r.None? ==> forall x :: x in table && x in refs ==> refs[x].str != str
  {
    if table == [] then None
    else if table[0] in refs && refs[table[0]].str == str then Some(table[0])
    else Find(refs, table[1..], str)
  }

  function TakenOut(table: seq<Id>, r: Id): (q: seq<Id>)
    ensures forall x :: x in q <==> x in table && x != r
  {
    WithoutAllMembers(table, r);
    WithoutAll(table, r)
  }

  function WithCount(s: State, r: Id, count: nat, held: nat): State
    requires r in s.refs
  {
    s.(refs := s.refs[r := s.refs[r].(count := count, held := held)])
  }

  /** fRefCount++ and one more handle. */
  function Taken(s: State, r: Id): State
    requires r in s.refs
  {
    WithCount(s, r, (s.refs[r].count + 1) % UINT32, s.refs[r].held + 1)
  }

  /** The end of UnRegister: by pointer, so nothing happens if the ref is not in the table. */
  function Removed(s: State, r: Id): State
  {
    s.(table := TakenOut(s.table, r))
  }

  /** The refs named in an event exist, and only handles given out are released. */
  predicate Callable(s: State, t: Tid, e: Event)
  {
    && t in s.threads && (e.Retry? <==> s.threads[t].Removing?)
    && match e
       case Register(r) => r in s.refs
       case RegisterOrResolve(r) => r in s.refs
       case Resolve(str) => true
       case Release(r) => r in s.refs && s.refs[r].held > 0
       case UnRegister(r, level) => r in s.refs
       case Retry => s.threads[t].r in s.refs
       case TryUnRegister(r, level) => r in s.refs
       case Swap(r) => r in s.refs
  }

  /** One test of UnRegister's loop. */
  function Attempt(s: State, t: Tid, r: Id, level: nat): (State, Reply)
    requires r in s.refs
  {
    if s.refs[r].count > level then (s.(threads := s.threads[t := Removing(r, level)]), Waits)
    else (Removed(s, r).(threads := s.threads[t := Idle]), NoErr)
  }

  function Step(s: State, t: Tid, e: Event): (State, Reply)
    requires Callable(s, t, e)
  {
    match e
    case Register(r) =>
      if s.refs[r].str == "" || Find(s.refs, s.table, s.refs[r].str).Some? then (s, Eperm)
      else (s.(table := [r] + s.table), NoErr)
    case RegisterOrResolve(r) =>
      var d := Find(s.refs, s.table, s.refs[r].str);
      if d.Some? then (Taken(s, d.value), Found(d.value)) else (s.(table := [r] + s.table), Null)
    case Resolve(str) =>
      var d := Find(s.refs, s.table, str);
      if d.Some? then (Taken(s, d.value), Found(d.value)) else (s, Null)
    case Release(r) =>
      (WithCount(s, r, (s.refs[r].count + UINT32 - 1) % UINT32, s.refs[r].held - 1), NoErr)
    case UnRegister(r, level) => Attempt(s, t, r, level)
    case Retry => Attempt(s, t, s.threads[t].r, s.threads[t].level)
    case TryUnRegister(r, level) => if s.refs[r].count > level then (s, False) else (Removed(s, r), True)
    case Swap(r) =>
      var d := Find(s.refs, s.table, s.refs[r].str);
      if d.Some? then (s.(table := [r] + TakenOut(s.table, d.value)), NoErr) else (s, NoErr)
  }

  // ---------- The invariant ----------

  ghost predicate Counted(s: State, r: Id)
    requires r in s.refs
  {
    s.refs[r].count == s.refs[r].held % UINT32
  }

  /** The count is the number of handles, modulo 2^32; every entry is a ref; each ref is in the table
      once and no two refs in it have the same string. */
  ghost predicate Inv(s: State)
  {
    && (forall r {:trigger Counted(s, r)} :: r in s.refs ==> Counted(s, r))
    && (forall i :: 0 <= i < |s.table| ==> s.table[i] in s.refs)
    && (forall i, j :: 0 <= i < j < |s.table| ==> s.refs[s.table[i]].str != s.refs[s.table[j]].str)
  }

  ghost predicate Unique(refs: map<Id, Ref>, table: seq<Id>)
  {
    && (forall i :: 0 <= i < |table| ==> table[i] in refs)
    && (forall i, j :: 0 <= i < j < |table| ==> refs[table[i]].str != refs[table[j]].str)
  }

  lemma UniqueAdd(refs: map<Id, Ref>, table: seq<Id>, r: Id)
    requires Unique(refs, table) && r in refs && forall x :: x in table ==> x in refs && refs[x].str != refs[r].str
    ensures Unique(refs, [r] + table)
  {
    forall i | 0 < i < |[r] + table|
      ensures ([r] + table)[i] in table
    {
    }
  }

  lemma {:induction false} UniqueWithout(refs: map<Id, Ref>, table: seq<Id>, r: Id)
    requires Unique(refs, table)
    ensures Unique(refs, TakenOut(table, r))
  {
    if table != [] {
      UniqueWithout(refs, table[1..], r);
      if table[0] != r {
        forall x | x in TakenOut(table[1..], r)
          ensures x in refs && refs[x].str != refs[table[0]].str
        {
          assert x in table[1..];
        }
        UniqueAdd(refs, TakenOut(table[1..], r), table[0]);
      } else {
        assert TakenOut(table, r) == TakenOut(table[1..], r);
      }
    }
  }

  lemma CountUp(held: nat)
    ensures (held % UINT32 + 1) % UINT32 == (held + 1) % UINT32
    ensures held > 0 ==> (held % UINT32 + UINT32 - 1) % UINT32 == (held - 1) % UINT32
  {
  }

  lemma StepKeeps(s: State, t: Tid, e: Event)
    requires Inv(s) && Callable(s, t, e)
    ensures Inv(Step(s, t, e).0)
  {
    var s' := Step(s, t, e).0;
    forall r | r in s'.refs
      ensures Counted(s', r)
    {
      assert Counted(s, r);
      CountUp(s.refs[r].held);
    }
    assert Unique(s.refs, s.table);
    TableKept(s, t, e);
    assert forall r :: r in s.refs ==> r in s'.refs && s'.refs[r].str == s.refs[r].str;
  }

  lemma TableKept(s: State, t: Tid, e: Event)
    requires Unique(s.refs, s.table) && Callable(s, t, e)
    ensures Unique(s.refs, Step(s, t, e).0.table)
  {
    match e
    case Register(r) => if Find(s.refs, s.table, s.refs[r].str).None? { UniqueAdd(s.refs, s.table, r); }
    case RegisterOrResolve(r) => if Find(s.refs, s.table, s.refs[r].str).None? { UniqueAdd(s.refs, s.table, r); }
    case UnRegister(r, level) => UniqueWithout(s.refs, s.table, r);
    case Retry => UniqueWithout(s.refs, s.table, s.threads[t].r);
    case TryUnRegister(r, level) => UniqueWithout(s.refs, s.table, r);
    case Swap(r) =>
      var d := Find(s.refs, s.table, s.refs[r].str);
      if d.Some? {
        UniqueWithout(s.refs, s.table, d.value);
        forall x | x in TakenOut(s.table, d.value)
          ensures x in s.refs && s.refs[x].str != s.refs[r].str
        {
          OnlyOne(s.refs, s.table, x, d.value);
        }
        UniqueAdd(s.refs, TakenOut(s.table, d.value), r);
      }
    case _ =>
  }

  lemma OnlyOne(refs: map<Id, Ref>, table: seq<Id>, x: Id, y: Id)
    requires Unique(refs, table) && x in table && y in table && x != y
    ensures x in refs && y in refs && refs[x].str != refs[y].str
  {
    var i :| 0 <= i < |table| && table[i] == x;
    var j :| 0 <= j < |table| && table[j] == y;
  }

  // ---------- Runs ----------

  function Run(s: State, steps: seq<(Tid, Event)>): Option<State>
    decreases |steps|
  {
    if steps == [] then Some(s)
    else if !Callable(s, steps[0].0, steps[0].1) then None
    else Run(Step(s, steps[0].0, steps[0].1).0, steps[1..])
  }

  /** After any interleaving of any number of threads, the invariant holds. */
  lemma {:induction false} RunKeeps(s: State, steps: seq<(Tid, Event)>)
    requires Inv(s) && Run(s, steps).Some?
    ensures Inv(Run(s, steps).value)
    decreases |steps|
  {
    if steps != [] {
      StepKeeps(s, steps[0].0, steps[0].1);
      RunKeeps(Step(s, steps[0].0, steps[0].1).0, steps[1..]);
    }
  }

  /** The level at which a step may take refs out, and the ref it may take out by itself. */
  ghost predicate Removes(s: State, t: Tid, e: Event, r: Id, level: nat)
  {
    || e == UnRegister(r, level) || e == TryUnRegister(r, level)
    || (e == Retry && t in s.threads && s.threads[t] == Removing(r, level))
  }

  /** A ref leaves the table in two ways only: replaced by Swap with a ref of the same string, or
      taken out at a level not below its handles, modulo 2^32: below 2^32 handles, at most `level`
      of them are outstanding, none for level 0. */
  lemma LeavesOnly(s: State, t: Tid, e: Event, r: Id)
    requires Inv(s) && Callable(s, t, e) && r in s.table && r !in Step(s, t, e).0.table
    ensures r in s.refs
    ensures || (e.Swap? && e.r != r && s.refs[e.r].str == s.refs[r].str)
            || (exists level :: Removes(s, t, e, r, level) && s.refs[r].held % UINT32 <= level
                                && (s.refs[r].held < UINT32 ==> s.refs[r].held <= level))
  {
    var i :| 0 <= i < |s.table| && s.table[i] == r;
    assert forall q: Id :: ([q] + s.table)[i + 1] == r;
    assert Counted(s, r);
    match e
    case UnRegister(q, level) => assert Removes(s, t, e, r, level);
    case TryUnRegister(q, level) => assert Removes(s, t, e, r, level);
    case Retry => assert Removes(s, t, e, r, s.threads[t].level);
    case Swap(q) => assert Find(s.refs, s.table, s.refs[q].str) == Some(r);
    case _ =>
  }

  /** The replies are exact: the string resolves if and only if a ref with it is in the table, and
      TryUnRegister succeeds, without waiting, if and only if at most `level` handles are counted. */
  lemma RepliesExact(s: State, t: Tid, e: Event)
    requires Inv(s) && Callable(s, t, e)
    ensures e.Resolve? ==> (Step(s, t, e).1 != Null <==>
                              exists r :: r in s.table && r in s.refs && s.refs[r].str == e.str)
    ensures e.Register? ==> (Step(s, t, e).1 == NoErr <==>
              s.refs[e.r].str != "" && !exists r :: r in s.table && r in s.refs && s.refs[r].str == s.refs[e.r].str)
    ensures e.TryUnRegister? ==> (Step(s, t, e).1 == True <==> s.refs[e.r].held % UINT32 <= e.level)
    ensures Step(s, t, e).1 == True ==> e.r !in Step(s, t, e).0.table && Attempt(s, t, e.r, e.level).1 != Waits
    ensures (e.UnRegister? || e.Retry?) && Step(s, t, e).1 != Waits ==> Step(s, t, e).0.threads[t] == Idle
  {
    if e.TryUnRegister? {
      assert Counted(s, e.r);
    }
  }

  // ---------- What an operation does ----------

  /** In the table, ref x stands under the string str. */
  ghost predicate Names(s: State, str: string, x: Id)
  {
    x in s.table && x in s.refs && s.refs[x].str == str
  }

  /** The step takes ref r out: UnRegister came to its end, or TryUnRegister succeeded. */
  ghost predicate TakesOut(s: State, t: Tid, e: Event, r: Id)
    requires Callable(s, t, e)
  {
    || (e.UnRegister? && e.r == r && Step(s, t, e).1 == NoErr)
    || (e.Retry? && s.threads[t].r == r && Step(s, t, e).1 == NoErr)
    || (e.TryUnRegister? && e.r == r && Step(s, t, e).1 == True)
  }

  /** The step puts ref r in. */
  ghost predicate PutsIn(s: State, t: Tid, e: Event, r: Id)
    requires Callable(s, t, e)
  {
    || (e.Register? && e.r == r && Step(s, t, e).1 == NoErr)
    || (e.RegisterOrResolve? && e.r == r && Step(s, t, e).1 == Null)
    || (e.Swap? && e.r == r && exists d :: Names(s, s.refs[r].str, d))
  }

  /** The table as a map from strings to refs: what is put in stands under its string alone, what is taken out
      is gone, and everything else is as before. */
  lemma TableEffect(s: State, t: Tid, e: Event, str: string, x: Id)
    requires Inv(s) && Callable(s, t, e)
    ensures var s' := Step(s, t, e).0;
            Names(s', str, x) <==>
              || (PutsIn(s, t, e, x) && s.refs[x].str == str)
              || (Names(s, str, x) && !TakesOut(s, t, e, x) && !(e.Swap? && s.refs[e.r].str == str))
  {
    hide Inv, Counted, Attempt;
    if e.Swap? {
      SwapEffect(s, t, e.r, str, x);
    } else {
      AttemptEffect(s, t, e);
      if e.Register? || e.RegisterOrResolve? {
        var q := [e.r] + s.table;
        assert q[0] == e.r && forall y :: y in q <==> y == e.r || y in s.table;
      }
    }
  }

  /** No operation adds a ref or changes the string of one. */
  lemma RefsKept(s: State, t: Tid, e: Event)
    requires Callable(s, t, e)
    ensures var s' := Step(s, t, e).0;
            s'.refs.Keys == s.refs.Keys && forall r :: r in s.refs ==> s'.refs[r].str == s.refs[r].str
  {
  }

  lemma AttemptEffect(s: State, t: Tid, e: Event)
    requires Callable(s, t, e)
    ensures e.UnRegister? || e.Retry? ==>
              var r, s' := if e.Retry? then s.threads[t].r else e.r, Step(s, t, e).0;
              s'.refs == s.refs && s'.table == if Step(s, t, e).1 == NoErr then TakenOut(s.table, r) else s.table
    ensures e.UnRegister? || e.Retry? ==> Step(s, t, e).1 in {NoErr, Waits}
  {
  }

  lemma SwapEffect(s: State, t: Tid, r: Id, str: string, x: Id)
    requires Inv(s) && Callable(s, t, Swap(r))
    ensures var s' := Step(s, t, Swap(r)).0;
            Names(s', str, x) <==> || (PutsIn(s, t, Swap(r), x) && s.refs[x].str == str)
                                   || (Names(s, str, x) && s.refs[r].str != str)
  {
    hide Counted;
    var d := Find(s.refs, s.table, s.refs[r].str);
    if d.Some? {
      assert Names(s, s.refs[r].str, d.value);
      var q := [r] + TakenOut(s.table, d.value);
      assert q[0] == r && forall y :: y in q <==> y == r || y in TakenOut(s.table, d.value);
      if Names(s, str, x) && x != d.value {
        OnlyOne(s.refs, s.table, x, d.value);
      }
    }
  }

  /** What a lookup finds is what stands under the string, and an operation that waits does so exactly
      above its level. */
  lemma ReplyEffect(s: State, t: Tid, e: Event, x: Id)
    requires Inv(s) && Callable(s, t, e)
    ensures e.Resolve? ==> (Step(s, t, e).1 == Found(x) <==> Names(s, e.str, x))
    ensures e.RegisterOrResolve? ==> (Step(s, t, e).1 == Found(x) <==> Names(s, s.refs[e.r].str, x))
    ensures e.RegisterOrResolve? ==> (Step(s, t, e).1 == Null <==> forall y :: !Names(s, s.refs[e.r].str, y))
    ensures Step(s, t, e).1 == Found(x) ==> e.Resolve? || e.RegisterOrResolve?
    ensures e.UnRegister? ==> Step(s, t, e).1 == if s.refs[e.r].count > e.level then Waits else NoErr
    ensures e.Retry? ==> Step(s, t, e).1 == if s.refs[s.threads[t].r].count > s.threads[t].level then Waits else NoErr
    ensures e.TryUnRegister? ==> Step(s, t, e).1 == if s.refs[e.r].count > e.level then False else True
    ensures var th := s.threads;
            Step(s, t, e).0.threads == if Step(s, t, e).1 == Waits
                                       then th[t := if e.Retry? then th[t] else Removing(e.r, e.level)]
                                       else if e.UnRegister? || e.Retry? then th[t := Idle] else th
  {
    if e.Resolve? || e.RegisterOrResolve? {
      var str := if e.Resolve? then e.str else s.refs[e.r].str;
      var d := Find(s.refs, s.table, str);
      assert d.Some? ==> Names(s, str, d.value);
      if d.Some? && Names(s, str, x) && x != d.value {
        OnlyOne(s.refs, s.table, x, d.value);
      }
    }
  }

  /** How the handles of ref r change: a lookup that finds it gives one, a release takes one back. */
  function Change(e: Event, reply: Reply, r: Id): int
  {
    (if reply == Found(r) then 1 else 0) - (if e == Release(r) then 1 else 0)
  }

  /** A 32-bit count. */
  function Wrapped(n: int): nat
  {
    n % UINT32
  }

  lemma CountEffect(s: State, t: Tid, e: Event, r: Id)
    requires Inv(s) && Callable(s, t, e) && r in s.refs
    ensures var (s', reply) := Step(s, t, e);
            && r in s'.refs && s'.refs[r].count == Wrapped(s.refs[r].count + Change(e, reply, r))
            && s'.refs[r].held == s.refs[r].held + Change(e, reply, r)
  {
    assert Counted(s, r);
  }

  /** The handles of r given out less those released in a run, read off the events and the replies. */
  function Net(s: State, steps: seq<(Tid, Event)>, r: Id): int
    decreases |steps|
  {
    if steps == [] || !Callable(s, steps[0].0, steps[0].1) then 0
    else
      var (s', reply) := Step(s, steps[0].0, steps[0].1);
      Change(steps[0].1, reply, r) + Net(s', steps[1..], r)
  }

  /** In every run the count of a ref changes by that number, modulo 2^32: from a count of 0 it is that number. */
  lemma {:induction false} CountIsNet(s: State, steps: seq<(Tid, Event)>, r: Id)
    requires Inv(s) && Run(s, steps).Some? && r in s.refs
    ensures var s' := Run(s, steps).value;
            && r in s'.refs && s'.refs[r].count == Wrapped(s.refs[r].count + Net(s, steps, r))
            && s'.refs[r].held == s.refs[r].held + Net(s, steps, r)
    decreases |steps|
  {
    if steps == [] {
      assert Counted(s, r);
    } else {
      var (t, e) := steps[0];
      CountEffect(s, t, e, r);
      StepKeeps(s, t, e);
      hide Inv, Counted, Step, Change, Wrapped;
      CountIsNet(Step(s, t, e).0, steps[1..], r);
      SumAgain(s.refs[r].count, Change(e, Step(s, t, e).1, r), Net(Step(s, t, e).0, steps[1..], r));
    }
  }

  lemma SumAgain(c: int, d: int, n: int)
    ensures Wrapped(Wrapped(c + d) + n) == Wrapped(c + (d + n))
  {
  }

  /** Somebody holds r through the whole run, no Swap names its string, and it is only ever
      unregistered at level 0. */
  ghost predicate HeldThroughout(s: State, steps: seq<(Tid, Event)>, r: Id)
    decreases |steps|
  {
    && r in s.refs && 0 < s.refs[r].held < UINT32
    && (steps != [] && Callable(s, steps[0].0, steps[0].1) ==>
          var (t, e) := steps[0];
          && (e.Swap? ==> s.refs[e.r].str != s.refs[r].str)
          && (forall level :: Removes(s, t, e, r, level) ==> level == 0)
          && HeldThroughout(Step(s, t, e).0, steps[1..], r))
  }

  /** Then it stays in the table to the end. */
  lemma {:induction false} HeldStays(s: State, steps: seq<(Tid, Event)>, r: Id)
    requires Inv(s) && Run(s, steps).Some? && r in s.table && HeldThroughout(s, steps, r)
    ensures r in Run(s, steps).value.table
    decreases |steps|
  {
    if steps != [] {
      var (t, e) := steps[0];
      StepKeeps(s, t, e);
      if r !in Step(s, t, e).0.table {
        LeavesOnly(s, t, e, r);
      }
      HeldStays(Step(s, t, e).0, steps[1..], r);
    }
  }

  /** n times the same string. */
  function Resolves(t: Tid, str: string, n: nat): seq<(Tid, Event)>
  {
    if n == 0 then [] else [(t, Resolve(str))] + Resolves(t, str, n - 1)
  }

  /** Each resolution of the only ref gives one more handle. */
  lemma {:induction false} ResolvedOften(s: State, t: Tid, r: Id, n: nat)
    requires Inv(s) && r in s.refs && s.table == [r] && t in s.threads && s.threads[t] == Idle
    ensures var s' := Run(s, Resolves(t, s.refs[r].str, n));
            && s'.Some? && s'.value.threads == s.threads && s'.value.table == s.table && r in s'.value.refs
            && s'.value.refs[r].held == s.refs[r].held + n && Inv(s'.value)
    decreases n
  {
    if n > 0 {
      var e := Resolve(s.refs[r].str);
      var steps := Resolves(t, s.refs[r].str, n);
      assert steps[0] == (t, e) && steps[1..] == Resolves(t, s.refs[r].str, n - 1);
      assert Find(s.refs, s.table, s.refs[r].str) == Some(r);
      StepKeeps(s, t, e);
      ResolvedOften(Step(s, t, e).0, t, r, n - 1);
    }
  }

  /** A run to 2^32 handles of one ref, whose count is 0 then: unregistering it at level 0 takes it
      out of the table under all of them. */
  lemma TakenOutWhileHeld(s: State)
    requires s == State(map[7 := Ref("movie", 0, 0)], [7], map[1 := Idle])
    ensures var s' := Run(s, Resolves(1, "movie", UINT32));
            && s'.Some? && Callable(s'.value, 1, TryUnRegister(7, 0)) && s'.value.refs[7].held == UINT32
            && Step(s'.value, 1, TryUnRegister(7, 0)).1 == True && 7 !in Step(s'.value, 1, TryUnRegister(7, 0)).0.table
  {
    assert Counted(s, 7);
    assert Inv(s);
    ResolvedOften(s, 1, 7, UINT32);
    var s' := Run(s, Resolves(1, "movie", UINT32)).value;
    assert Counted(s', 7);
    hide Run, Inv;
  }
}
