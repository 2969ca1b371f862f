/** The intrusive ring of the name server: the stable insertion sort by relinking, and the middle. */
module QueueSort {
  import opened Sequences

  class QNode {
    var prev: QNode?
    var next: QNode?

    constructor ()
    {
      prev, next := null, null;
    }
  }

  // ---------- The sort on sequences ----------

  /** x goes in behind the last element that cmp puts before it. */
  ghost function Inserted<T>(cmp: (T, T) -> int, s: seq<T>, x: T): seq<T>
  {
    if s == [] then [x]
    else
      var n := |s| - 1;
      if cmp(s[n], x) <= 0 then s + [x] else Inserted(cmp, s[..n], x) + [s[n]]
  }

  /** The elements inserted one after the other. */
  ghost function Sort<T>(cmp: (T, T) -> int, s: seq<T>): seq<T>
  {
    if s == [] then []
    else
      var n := |s| - 1;
      Inserted(cmp, Sort(cmp, s[..n]), s[n])
  }

  lemma {:induction false} InsertedPermutes<T>(cmp: (T, T) -> int, s: seq<T>, x: T)
    ensures multiset(Inserted(cmp, s, x)) == multiset(s) + multiset{x} && |Inserted(cmp, s, x)| == |s| + 1
  {
    if s != [] {
      var n := |s| - 1;
      assert s == s[..n] + [s[n]];
      InsertedPermutes(cmp, s[..n], x);
    }
  }

  /** The sort permutes its input, whatever cmp does. */
  lemma {:induction false} SortPermutes<T>(cmp: (T, T) -> int, s: seq<T>)
    ensures multiset(Sort(cmp, s)) == multiset(s) && |Sort(cmp, s)| == |s|
  {
    if s != [] {
      var n := |s| - 1;
      assert s == s[..n] + [s[n]];
      SortPermutes(cmp, s[..n]);
      InsertedPermutes(cmp, Sort(cmp, s[..n]), s[n]);
    }
  }

  /** cmp orders the elements of dom totally, with ties. */
  ghost predicate TotalPreorder<T>(cmp: (T, T) -> int, dom: set<T>)
  {
    && (forall a, b :: a in dom && b in dom ==> cmp(a, b) <= 0 || cmp(b, a) <= 0)
    && (forall a, b, c :: a in dom && b in dom && c in dom && cmp(a, b) <= 0 && cmp(b, c) <= 0 ==> cmp(a, c) <= 0)
  }

  ghost predicate Within<T>(s: seq<T>, dom: set<T>)
  {
    forall i :: 0 <= i < |s| ==> s[i] in dom
  }

  ghost predicate Sorted<T>(cmp: (T, T) -> int, s: seq<T>)
  {
    forall i, j :: 0 <= i < j < |s| ==> cmp(s[i], s[j]) <= 0
  }

  /** The elements equivalent to k, in order. */
  ghost function Class<T>(cmp: (T, T) -> int, s: seq<T>, k: T): seq<T>
  {
    if s == [] then []
    else
      var n := |s| - 1;
      Class(cmp, s[..n], k) + if cmp(s[n], k) <= 0 && cmp(k, s[n]) <= 0 then [s[n]] else []
  }

  lemma InsertedBelow<T>(cmp: (T, T) -> int, s: seq<T>, x: T, e: T)
    requires cmp(x, e) <= 0 && forall i :: 0 <= i < |s| ==> cmp(s[i], e) <= 0
    ensures var r := Inserted(cmp, s, x); forall i :: 0 <= i < |r| ==> cmp(r[i], e) <= 0
  {
    var r := Inserted(cmp, s, x);
    InsertedPermutes(cmp, s, x);
    forall i | 0 <= i < |r|
      ensures cmp(r[i], e) <= 0
    {
      assert r[i] in multiset(r);
      assert r[i] == x || r[i] in s;
    }
  }

  lemma {:induction false} InsertedSorted<T>(cmp: (T, T) -> int, s: seq<T>, x: T, dom: set<T>)
    requires TotalPreorder(cmp, dom) && Within(s, dom) && x in dom && Sorted(cmp, s)
    ensures Sorted(cmp, Inserted(cmp, s, x))
  {
    if s != [] {
      var n := |s| - 1;
      if cmp(s[n], x) <= 0 {
        forall i | 0 <= i < n
          ensures cmp(s[i], x) <= 0
        {
          assert cmp(s[i], s[n]) <= 0;
        }
      } else {
        InsertedSorted(cmp, s[..n], x, dom);
        InsertedPermutes(cmp, s[..n], x);
        InsertedBelow(cmp, s[..n], x, s[n]);
      }
    }
  }

  lemma SortWithin<T>(cmp: (T, T) -> int, s: seq<T>, dom: set<T>)
    requires Within(s, dom)
    ensures Within(Sort(cmp, s), dom)
  {
    var r := Sort(cmp, s);
    SortPermutes(cmp, s);
    forall i | 0 <= i < |r|
      ensures r[i] in dom
    {
      assert r[i] in multiset(r);
    }
  }

  /** Sorted, whenever cmp orders the elements at all. */
  lemma {:induction false} SortSorted<T>(cmp: (T, T) -> int, s: seq<T>, dom: set<T>)
    requires TotalPreorder(cmp, dom) && Within(s, dom)
    ensures Sorted(cmp, Sort(cmp, s))
  {
    if s != [] {
      SortSorted(cmp, s[..|s| - 1], dom);
      SortWithin(cmp, s[..|s| - 1], dom);
      InsertedSorted(cmp, Sort(cmp, s[..|s| - 1]), s[|s| - 1], dom);
    }
  }

  /** Inserting puts x behind all its equals. */
  lemma {:induction false} InsertedClass<T>(cmp: (T, T) -> int, s: seq<T>, x: T, k: T, dom: set<T>)
    requires TotalPreorder(cmp, dom) && Within(s, dom) && x in dom && k in dom
    ensures Class(cmp, Inserted(cmp, s, x), k) == Class(cmp, s + [x], k)
  {
    assert (s + [x])[..|s|] == s;
    if s != [] {
      var n := |s| - 1;
      if !(cmp(s[n], x) <= 0) {
        InsertedClass(cmp, s[..n], x, k, dom);
        InsertedPermutes(cmp, s[..n], x);
        var r := Inserted(cmp, s[..n], x);
        assert (r + [s[n]])[..n + 1] == r;
        assert (s[..n] + [x])[..n] == s[..n];
      }
    }
  }

  /** Equivalent elements keep their order. */
  lemma {:induction false} SortStable<T>(cmp: (T, T) -> int, s: seq<T>, k: T, dom: set<T>)
    requires TotalPreorder(cmp, dom) && Within(s, dom) && k in dom
    ensures Class(cmp, Sort(cmp, s), k) == Class(cmp, s, k)
  {
    if s != [] {
      var n := |s| - 1;
      var r := Sort(cmp, s[..n]);
      SortStable(cmp, s[..n], k, dom);
      SortPermutes(cmp, s[..n]);
      SortWithin(cmp, s[..n], dom);
      InsertedClass(cmp, r, s[n], k, dom);
      assert (r + [s[n]])[..n] == r;
    }
  }

  // ---------- The ring ----------

  ghost function Cycle(h: QNode, q: seq<QNode>): seq<QNode>
  {
    [h] + q + [h]
  }

  ghost predicate Link(c: seq<QNode>, i: int)
    reads c
    requires 0 <= i < |c| - 1
  {
    c[i].next == c[i + 1] && c[i + 1].prev == c[i]
  }

  /** The ring of h holds the nodes q, in this order. */
  ghost predicate Ring(h: QNode, q: seq<QNode>)
    reads h, q
  {
    NoDup(q) && h !in q && var c := Cycle(h, q); forall i {:trigger Link(c, i)} :: 0 <= i < |c| - 1 ==> Link(c, i)
  }

  /** gfs_queue_remove. */
  method Remove(x: QNode, ghost h: QNode, ghost q: seq<QNode>, ghost k: nat, ghost nodes: set<QNode>)
    requires Ring(h, q) && k < |q| && q[k] == x && Within(q, nodes)
    modifies h, nodes
    ensures Ring(h, q[..k] + q[k + 1..])
  {
    ghost var c, c' := Cycle(h, q), Cycle(h, q[..k] + q[k + 1..]);
    assert Link(c, k) && Link(c, k + 1);
    x.next.prev := x.prev;
    x.prev.next := x.next;
    forall i | 0 <= i < |c'| - 1
      ensures Link(c', i)
    {
      assert old(Link(c, if i < k then i else i + 1));
    }
  }

  /** gfs_queue_insert_after. */
  method InsertAfter(p: QNode, x: QNode, ghost h: QNode, ghost q: seq<QNode>, ghost k: nat, ghost nodes: set<QNode>)
    requires Ring(h, q) && k <= |q| && Cycle(h, q)[k] == p && x !in q && x != h && Within(q, nodes) && x in nodes
    modifies h, nodes
    ensures Ring(h, q[..k] + [x] + q[k..])
  {
    ghost var c, c' := Cycle(h, q), Cycle(h, q[..k] + [x] + q[k..]);
    assert Link(c, k);
    x.next := p.next;
    x.next.prev := x;
    x.prev := p;
    p.next := x;
    forall i | 0 <= i < |c'| - 1
      ensures Link(c', i)
    {
      assert i < k ==> old(Link(c, i));
      assert i > k + 1 ==> old(Link(c, i - 1));
    }
  }

  lemma InsertedStep<T>(cmp: (T, T) -> int, s: seq<T>, x: T, k: nat)
    requires 1 <= k <= |s| && Inserted(cmp, s, x) == Inserted(cmp, s[..k], x) + s[k..]
    ensures cmp(s[k - 1], x) <= 0 ==> Inserted(cmp, s, x) == s[..k] + [x] + s[k..]
    ensures cmp(s[k - 1], x) > 0 ==> Inserted(cmp, s, x) == Inserted(cmp, s[..k - 1], x) + s[k - 1..]
    ensures cmp(s[k - 1], x) > 0 && k == 1 ==> Inserted(cmp, s, x) == [x] + s
  {
    hide *;
    InsertedOf(cmp, s[..k], x);
    if cmp(s[k - 1], x) > 0 {
      Tail(s, k);
      Assoc(Inserted(cmp, s[..k - 1], x), [s[k - 1]], s[k..]);
      if k == 1 {
        InsertedOf(cmp, s[..0], x);
      }
    }
  }

  lemma Assoc<T>(a: seq<T>, b: seq<T>, c: seq<T>)
    ensures (a + b) + c == a + (b + c)
  {
  }

  lemma Tail<T>(s: seq<T>, k: nat)
    requires 1 <= k <= |s|
    ensures s[k - 1..] == [s[k - 1]] + s[k..] && s[..k][..k - 1] == s[..k - 1] && s[..k][k - 1] == s[k - 1]
            && s[0..] == s
  {
  }

  lemma InsertedOf<T>(cmp: (T, T) -> int, t: seq<T>, x: T)
    ensures t == [] ==> Inserted(cmp, t, x) == [x]
    ensures t != [] ==>
              var n := |t| - 1;
              Inserted(cmp, t, x) == if cmp(t[n], x) <= 0 then t + [x] else Inserted(cmp, t[..n], x) + [t[n]]
  {
  }

  /** The inner loop of gfs_queue_sort: from the last of the first nodes s back to the one that x goes
      behind, or to the sentinel. */
  method FindPlace(h: QNode, x: QNode, last: QNode, cmp: (QNode, QNode) -> int, ghost s: seq<QNode>,
                   ghost rest: seq<QNode>)
    returns (prev: QNode, ghost k: nat)
    requires Ring(h, s + rest) && s != [] && last == s[|s| - 1]
    ensures k <= |s| && prev == Cycle(h, s + rest)[k] && Inserted(cmp, s, x) == s[..k] + [x] + s[k..]
  {
    hide NoDup, Inserted;
    prev, k := last, |s|;
    assert s[..k] == s && s[k..] == [];
    while true
      invariant 1 <= k <= |s| && prev == s[k - 1] && Inserted(cmp, s, x) == Inserted(cmp, s[..k], x) + s[k..]
      decreases k
    {
      RingAt(h, s + rest, k - 1);
      InsertedStep(cmp, s, x, k);
      if cmp(prev, x) <= 0 {
        break;
      }
      prev := prev.prev;
      k := k - 1;
      assert k > 0 ==> prev == (s + rest)[k - 1] && prev != h;
      if prev == h {
        break;
      }
    }
  }

  /** One turn of gfs_queue_sort: x, the node after the sorted ones s, goes to its place. */
  method Turn(h: QNode, x: QNode, cmp: (QNode, QNode) -> int, ghost s: seq<QNode>, ghost rest: seq<QNode>,
              ghost nodes: set<QNode>)
    returns (next: QNode)
    requires Ring(h, s + [x] + rest) && s != [] && Within(s + [x] + rest, nodes)
    modifies h, nodes
    ensures Ring(h, Inserted(cmp, s, x) + rest) && next == if rest == [] then h else rest[0]
  {
    ghost var r, q, i := s + [x] + rest, s + rest, |s|;
    assert r[i] == x && r[i - 1] == s[i - 1] && q == r[..i] + r[i + 1..];
    assert x != h && x !in q by { RingApart(r, i); }
    hide NoDup, Ring, Inserted;
    RingAt(h, r, i);
    var prev := x.prev;
    next := x.next;
    Remove(x, h, r, i, nodes);
    ghost var k;
    prev, k := FindPlace(h, x, prev, cmp, s, rest);
    InsertAfter(prev, x, h, q, k, nodes);
    assert q[..k] + [x] + q[k..] == s[..k] + [x] + s[k..] + rest;
  }

  /** gfs_queue_sort: the ring, relinked, holds its nodes sorted. */
  method SortRing(h: QNode, cmp: (QNode, QNode) -> int, ghost q: seq<QNode>, ghost nodes: set<QNode>)
    requires Ring(h, q) && Within(q, nodes)
    modifies h, nodes
    ensures Ring(h, Sort(cmp, q))
  {
    RingEnds(h, q);
    if h.next == h.prev {
      SortOne(cmp, q);
      return;
    }
    RingAt(h, q, 0);
    assert h !in q;
    hide NoDup, Ring, Sort, Inserted;
    var x := h.next.next;
    ghost var i := 1;
    SortOne(cmp, q[..1]);
    assert q == q[..1] + q[1..];
    while x != h
      invariant 1 <= i <= |q| && x == (if i < |q| then q[i] else h) && Ring(h, Sort(cmp, q[..i]) + q[i..])
      decreases |q| - i
    {
      ghost var s := Sort(cmp, q[..i]);
      SortNext(cmp, q, i, nodes);
      x := Turn(h, x, cmp, s, q[i + 1..], nodes);
      i := i + 1;
    }
    assert q[..i] == q && Sort(cmp, q) + q[i..] == Sort(cmp, q);
  }

  lemma SortNext<T>(cmp: (T, T) -> int, q: seq<T>, i: nat, dom: set<T>)
    requires 1 <= i < |q| && Within(q, dom)
    ensures var s, r := Sort(cmp, q[..i]), q[i + 1..];
            && Sort(cmp, q[..i + 1]) == Inserted(cmp, s, q[i]) && s != [] && s + q[i..] == s + [q[i]] + r
               && Within(s + [q[i]] + r, dom)
            && (r == [] <==> i + 1 == |q|) && (r != [] ==> r[0] == q[i + 1])
  {
    assert q[..i + 1][..i] == q[..i];
    SortWithin(cmp, q[..i], dom);
    SortPermutes(cmp, q[..i]);
    hide Sort, Inserted;
    assert q[i..] == [q[i]] + q[i + 1..];
  }

  lemma SortOne(cmp: (QNode, QNode) -> int, q: seq<QNode>)
    requires |q| <= 1
    ensures Sort(cmp, q) == q
  {
    if |q| == 1 {
      assert q[..0] == [];
      assert Sort(cmp, q[..0]) == [];
    }
  }

  lemma RingEnds(h: QNode, q: seq<QNode>)
    requires Ring(h, q)
    ensures h.next == (if q == [] then h else q[0]) && h.prev == (if q == [] then h else q[|q| - 1])
    ensures h.next == h.prev <==> |q| <= 1
  {
    var c := Cycle(h, q);
    assert Link(c, 0) && Link(c, |q|);
  }

  lemma RingAt(h: QNode, r: seq<QNode>, i: nat)
    requires Ring(h, r) && i < |r|
    ensures r[i].prev == (if i > 0 then r[i - 1] else h) && r[i].next == if i + 1 < |r| then r[i + 1] else h
  {
    var c := Cycle(h, r);
    assert Link(c, i) && Link(c, i + 1);
  }

  lemma RingApart(r: seq<QNode>, i: nat)
    requires NoDup(r) && i < |r|
    ensures r[i] !in r[..i] + r[i + 1..]
  {
  }

  /** gfs_queue_middle: node floor(n / 2) of a ring of n nodes; the sentinel if it is empty. */
  method Middle(h: QNode, ghost q: seq<QNode>) returns (middle: QNode)
    requires Ring(h, q)
    ensures middle == if q == [] then h else q[|q| / 2]
  {
    hide NoDup;
    RingEnds(h, q);
    middle := h.next;
    if middle == h.prev {
      return;
    }
    var next := h.next;
    ghost var k := 0;
    while true
      invariant 0 <= k && 2 * k < |q| - 1 && middle == q[k] && next == q[2 * k]
      decreases |q| - k
    {
      RingAt(h, q, k);
      RingAt(h, q, 2 * k);
      middle := middle.next;
      next := next.next;
      LastOnly(q, 2 * k + 1);
      if next == h.prev {
        return;
      }
      RingAt(h, q, 2 * k + 1);
      next := next.next;
      LastOnly(q, 2 * k + 2);
      if next == h.prev {
        return;
      }
      k := k + 1;
    }
  }

  lemma LastOnly(q: seq<QNode>, i: nat)
    requires NoDup(q) && i < |q|
    ensures q[i] == q[|q| - 1] <==> i == |q| - 1
  {
  }
}
