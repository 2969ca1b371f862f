/** What several of the models say about sequences. */
module Sequences {

  datatype Option<T> = None | Some(value: T)

  ghost predicate NoDup<T>(s: seq<T>)
  {
    forall i, j :: 0 <= i < j < |s| ==> s[i] != s[j]
  }

  /** s without the first x: what taking an element out of a linked list leaves. */
  function Without<T(==)>(s: seq<T>, x: T): seq<T>
  {
    if s == [] then [] else if s[0] == x then s[1..] else [s[0]] + Without(s[1..], x)
  }

  /** s without any x. */
  function WithoutAll<T(==)>(s: seq<T>, x: T): seq<T>
  {
    if s == [] then [] else if s[0] == x then WithoutAll(s[1..], x) else [s[0]] + WithoutAll(s[1..], x)
  }

  lemma {:induction false} WithoutMembers<T>(s: seq<T>, x: T)
    requires NoDup(s)
    ensures NoDup(Without(s, x))
    ensures forall y :: y in Without(s, x) <==> y in s && y != x
  {
    if s != [] {
      var rest := s[1..];
      assert s == [s[0]] + rest;
      assert s[0] !in rest;
      if s[0] != x {
        WithoutMembers(rest, x);
        ConsNoDup(s[0], Without(rest, x));
      }
    }
  }

  lemma WithoutMember<T>(s: seq<T>, x: T, y: T)
    requires NoDup(s)
    ensures y in Without(s, x) <==> y in s && y != x
  {
    WithoutMembers(s, x);
  }

  lemma ConsNoDup<T>(x: T, s: seq<T>)
    requires NoDup(s) && x !in s
    ensures NoDup([x] + s)
  {
  }

  lemma {:induction false} WithoutAbsent<T>(s: seq<T>, x: T)
    requires x !in s
    ensures Without(s, x) == s
  {
    if s != [] {
      WithoutAbsent(s[1..], x);
      assert s == [s[0]] + s[1..];
    }
  }

  lemma {:induction false} WithoutAllMembers<T>(q: seq<T>, x: T)
    ensures forall y :: y in WithoutAll(q, x) <==> y in q && y != x
    ensures x !in q ==> WithoutAll(q, x) == q
  {
    if q != [] {
      WithoutAllMembers(q[1..], x);
      assert q == [q[0]] + q[1..];
    }
  }

  lemma WithoutAllMember<T>(q: seq<T>, x: T, y: T)
    ensures y in WithoutAll(q, x) <==> y in q && y != x
  {
    WithoutAllMembers(q, x);
  }

  lemma {:induction false} WithoutAllNoDup<T>(q: seq<T>, x: T)
    requires NoDup(q)
    ensures NoDup(WithoutAll(q, x))
    ensures |WithoutAll(q, x)| == if x in q then |q| - 1 else |q|
  {
    if q != [] {
      WithoutAllMembers(q[1..], x);
      WithoutAllNoDup(q[1..], x);
      assert q[0] !in q[1..];
    }
  }

  function Pow2(n: nat): (p: nat)
    ensures p >= 1
  {
    if n == 0 then 1 else 2 * Pow2(n - 1)
  }
}
