/** OSHeap and the idle-timer loop: a binary heap of timer elements in an array, root at index 1. */
module TimerHeap {
  import opened Sequences

  // ---------- Heap order on the keys (position 0 is not used) ----------

  ghost predicate Edge(k: seq<int>, j: int)
    requires 2 <= j < |k|
  {
    k[j / 2] <= k[j]
  }

  ghost predicate Ordered(k: seq<int>)
  {
    forall j {:trigger Edge(k, j)} :: 2 <= j < |k| ==> Edge(k, j)
  }

  lemma {:induction false} RootLeast(k: seq<int>, j: nat)
    requires Ordered(k) && 1 <= j < |k|
    ensures k[1] <= k[j]
    decreases j
  {
    if j > 1 {
      assert Edge(k, j);
      RootLeast(k, j / 2);
    }
  }

  function Swap<T>(k: seq<T>, a: nat, b: nat): seq<T>
    requires a < |k| && b < |k|
  {
    k[a := k[b]][b := k[a]]
  }

  lemma SwapSame<T>(k: seq<T>, a: nat, b: nat)
    requires a < |k| && b < |k|
    ensures multiset(Swap(k, a, b)) == multiset(k)
    ensures forall j :: 0 <= j < |k| ==> Swap(k, a, b)[j] == if j == a then k[b] else if j == b then k[a] else k[j]
  {
  }

  // ---------- Bubbling up ----------

  /** Order everywhere but between position p and its parent. */
  ghost predicate Rising(k: seq<int>, p: nat)
  {
    && 1 <= p < |k|
    && (forall j {:trigger Edge(k, j)} :: 2 <= j < |k| && j != p ==> Edge(k, j))
    && (forall j :: 2 <= j < |k| && j / 2 == p && p >= 2 ==> k[p / 2] <= k[j])
  }

  lemma RiseStep(k: seq<int>, p: nat)
    requires Rising(k, p) && p > 1 && k[p] < k[p / 2]
    ensures Rising(Swap(k, p, p / 2), p / 2)
  {
    var q := p / 2;
    var k' := Swap(k, p, q);
    forall j | 2 <= j < |k'| && j != q
      ensures Edge(k', j)
    {
      assert j != p ==> Edge(k, j);
    }
    forall j | 2 <= j < |k'| && j / 2 == q && q >= 2
      ensures k'[q / 2] <= k'[j]
    {
      assert Edge(k, q);
      assert j != p ==> Edge(k, j);
    }
  }

  lemma RiseDone(k: seq<int>, p: nat)
    requires Rising(k, p) && (p == 1 || k[p / 2] <= k[p])
    ensures Ordered(k)
  {
  }

  lemma RiseStart(k: seq<int>, x: int)
    requires Ordered(k) && |k| >= 1
    ensures Rising(k + [x], |k|)
  {
    forall j | 2 <= j < |k|
      ensures Edge(k + [x], j)
    {
      assert Edge(k, j);
    }
  }

  // ---------- Sifting down from position i ----------

  /** Order everywhere but above position i and below position p. */
  ghost predicate Sinking(k: seq<int>, i: nat, p: nat)
  {
    && 1 <= i <= p
    && (forall j {:trigger Edge(k, j)} :: 2 <= j < |k| && j != i && j / 2 != p ==> Edge(k, j))
    && (p != i ==> forall j :: 2 <= j < |k| && j / 2 == p ==> k[p / 2] <= k[j])
  }

  /** The child the loop picks: the least of p and its children. */
  function Least(k: seq<int>, p: nat): nat
    requires 1 <= p < |k|
  {
    var g := if 2 * p < |k| && k[2 * p] < k[p] then 2 * p else p;
    if 2 * p + 1 < |k| && k[2 * p + 1] < k[g] then 2 * p + 1 else g
  }

  lemma SinkStep(k: seq<int>, i: nat, p: nat)
    requires Sinking(k, i, p) && p < |k| && Least(k, p) != p
    ensures Sinking(Swap(k, p, Least(k, p)), i, Least(k, p))
  {
    var g := Least(k, p);
    var k' := Swap(k, p, g);
    assert g / 2 == p && k[g] < k[p];
    forall j | 2 <= j < |k'| && j != i && j / 2 != g
      ensures Edge(k', j)
    {
      if j / 2 == p {
        assert k[g] <= k[j] || j == g;
      } else if j != p {
        assert Edge(k, j);
      }
    }
    forall j | 2 <= j < |k'| && j / 2 == g
      ensures k'[g / 2] <= k'[j]
    {
      assert j != i && j / 2 != p ==> Edge(k, j);
    }
  }

  lemma SinkDone(k: seq<int>, i: nat, p: nat)
    requires Sinking(k, i, p) && (p >= |k| || Least(k, p) == p)
    ensures forall j {:trigger Edge(k, j)} :: 2 <= j < |k| && j != i ==> Edge(k, j)
  {
  }

  /** The last leaf x moves to position i; then order is only in doubt above and below i. */
  lemma SinkStart(k: seq<int>, i: nat)
    requires Ordered(k) && 1 <= i < |k| - 1
    ensures var n := |k| - 1; Sinking(k[i := k[n]][..n], i, i)
  {
    var n := |k| - 1;
    var k' := k[i := k[n]][..n];
    forall j | 2 <= j < |k'| && j != i && j / 2 != i
      ensures Edge(k', j)
    {
      assert Edge(k, j);
    }
  }

  /** Above i: nothing but the moved leaf can be less than the parent of i. */
  ghost predicate Above(k: seq<int>, i: nat, p: nat, x: int)
  {
    1 < i < |k| ==> if p == i then k[i] == x else k[i / 2] <= k[i] < x
  }

  lemma AboveStep(k: seq<int>, k0: seq<int>, i: nat, p: nat, x: int)
    requires Above(k, i, p, x) && 1 <= i <= p < |k| && Least(k, p) != p
    requires Ordered(k0) && |k0| == |k| + 1 && (forall j :: 1 <= j < |k| && j != i && p == i ==> k[j] == k0[j])
    ensures Above(Swap(k, p, Least(k, p)), i, Least(k, p), x)
  {
    if p == i && i > 1 {
      assert Edge(k0, i) && Edge(k0, Least(k, p));
    }
  }

  /** Position i gets the last element, and the last position goes. */
  function Pulled<T>(q: seq<T>, i: nat): seq<T>
    requires i < |q|
  {
    q[i := q[|q| - 1]][..|q| - 1]
  }

  lemma PulledOrder(k0: seq<int>, i: nat)
    requires Ordered(k0) && 1 <= i < |k0|
    ensures var k := Pulled(k0, i);
            && (i < |k| ==> Sinking(k, i, i) && Above(k, i, i, k0[|k|]) && k[i / 2] == k0[i / 2])
            && (i == |k| ==> Ordered(k))
  {
    var k := Pulled(k0, i);
    if i < |k| {
      SinkStart(k0, i);
    } else {
      forall j | 2 <= j < |k|
        ensures Edge(k, j)
      {
        assert Edge(k0, j);
      }
    }
  }

  /** What the end of the sifting says about order. */
  lemma SinkResult(k: seq<int>, k0: seq<int>, i: nat, p: nat, x: int)
    requires 1 <= i <= |k| && |k0| == |k| + 1 && x == k0[|k|]
    requires i < |k| ==> Sinking(k, i, p) && Above(k, i, p, x) && k[i / 2] == k0[i / 2]
                         && (p >= |k| || Least(k, p) == p)
    requires i == |k| ==> Ordered(k)
    ensures Ordered(k) <==> i == 1 || i == |k| || x >= k0[i / 2]
  {
    if i < |k| {
      SinkDone(k, i, p);
      if i > 1 {
        assert Edge(k, i) <==> k[i / 2] <= k[i];
      }
    }
  }

  lemma SwapLength<T>(k: seq<T>, a: nat, b: nat)
    requires a < |k| && b < |k|
    ensures |Swap(k, a, b)| == |k|
  {
  }

  lemma SwapElsewhere(k: seq<int>, a: nat, b: nat, j: nat)
    requires a < |k| && b < |k| && j < |k| && j != a && j != b
    ensures Swap(k, a, b)[j] == k[j]
  {
  }

  // ---------- The heap ----------

  class HeapElem {
    var value: int
    var currentHeap: OSHeap?

    constructor ()
      ensures value == 0 && currentHeap == null
    {
      value, currentHeap := 0, null;
    }
  }

  /** The elements belong to the heap h. */
  ghost predicate AllIn(q: seq<HeapElem>, h: OSHeap)
    reads (set e | e in q)`currentHeap
  {
    forall e :: e in q ==> e.currentHeap == h
  }

  /** Key j + 1 is the value of element j; key 0 is not used. */
  ghost predicate KeysOf(k: seq<int>, q: seq<HeapElem>)
    reads (set e | e in q)`value
  {
    |k| == |q| + 1 && forall j :: 0 <= j < |q| ==> k[j + 1] == q[j].value
  }

  lemma SwapItems(q: seq<HeapElem>, k: seq<int>, a: nat, b: nat)
    requires NoDup(q) && KeysOf(k, q) && 1 <= a <= |q| && 1 <= b <= |q|
    ensures var q' := Swap(q, a - 1, b - 1);
            NoDup(q') && KeysOf(Swap(k, a, b), q') && multiset(q') == multiset(q) && (forall e :: e in q' ==> e in q)
  {
    hide Swap;
    SwapSame(q, a - 1, b - 1);
    SwapSame(k, a, b);
    SwapLength(q, a - 1, b - 1);
    SwapLength(k, a, b);
    SameMembers(Swap(q, a - 1, b - 1), q);
  }

  class OSHeap {
    var heap: array<HeapElem?>
    var freeIndex: nat
    // the elements in the array, from position 1 on, and their keys
    ghost var items: seq<HeapElem>
    ghost var keys: seq<int>

    /** The first n positions of the array. */
    ghost predicate Stored(n: nat)
      reads this, heap, items
    {
      && 1 <= n <= heap.Length && |items| == n - 1 && NoDup(items) && KeysOf(keys, items)
      && forall j :: 1 <= j < n ==> heap[j] == items[j - 1]
    }

    ghost predicate Valid()
      reads this, heap, items
    {
      Stored(freeIndex) && heap.Length >= 2 && AllIn(items, this)
    }

    constructor (startSize: nat)
      ensures Valid() && Ordered(keys) && items == [] && keys == [0] && fresh(heap)
    {
      heap := new HeapElem?[if startSize < 2 then 2 else startSize](_ => null);
      freeIndex, items, keys := 1, [], [0];
    }

    /** The first part of Insert: a full array is replaced by one twice as long. */
    method Grow()
      requires Valid()
      modifies this`heap
      ensures Valid() && freeIndex < heap.Length && (heap == old(heap) || fresh(heap))
      ensures heap.Length == if freeIndex == old(heap.Length) then 2 * old(heap.Length) else old(heap.Length)
    {
      if freeIndex == heap.Length {
        var temp := new HeapElem?[heap.Length * 2](_ => null);
        forall j | 0 <= j < freeIndex {
          temp[j] := heap[j];
        }
        heap := temp;
      }
    }

    method SwapAt(a: nat, b: nat, ghost n: nat)
      requires Stored(n) && 1 <= a < n && 1 <= b < n
      modifies heap, this`keys, this`items
      ensures Stored(n) && items == Swap(old(items), a - 1, b - 1) && keys == Swap(old(keys), a, b)
      ensures multiset(items) == multiset(old(items)) && forall e :: e in items ==> e in old(items)
    {
      SwapItems(items, keys, a, b);
      heap[a], heap[b] := heap[b], heap[a];
      items, keys := Swap(items, a - 1, b - 1), Swap(keys, a, b);
    }

    /** The loop of Insert: the last of the first n elements moves up. */
    method BubbleUp(n: nat, ghost was: bool)
      requires Stored(n) && 2 <= n && (was ==> Rising(keys, n - 1))
      modifies heap, this`keys, this`items
      ensures Stored(n) && (was ==> Ordered(keys)) && multiset(items) == multiset(old(items))
      ensures n == 2 || old(keys)[(n - 1) / 2] <= old(keys)[n - 1] ==> items == old(items) && keys == old(keys)
    {
      hide Ordered, Rising, Swap, NoDup;
      var swapPos := n - 1;
      while swapPos > 1
        invariant 1 <= swapPos < n && Stored(n) && multiset(items) == multiset(old(items))
                  && (was ==> Rising(keys, swapPos))
        invariant swapPos == n - 1 ==> items == old(items) && keys == old(keys)
        invariant swapPos < n - 1 ==> n > 2 && old(keys)[(n - 1) / 2] > old(keys)[n - 1]
        decreases swapPos
      {
        var nextSwapPos := swapPos / 2;
        if heap[swapPos].value < heap[nextSwapPos].value {
          if was {
            RiseStep(keys, swapPos);
          }
          SwapAt(swapPos, nextSwapPos, n);
          swapPos := nextSwapPos;
        } else {
          break;
        }
      }
      if was {
        RiseDone(keys, swapPos);
      }
    }

    /** The element goes into the first free position. */
    method Place(elem: HeapElem)
      requires Valid() && elem.currentHeap == null
      modifies this`heap, this`keys, this`items, heap
      ensures (heap == old(heap) || fresh(heap)) && Stored(freeIndex + 1) && items == old(items) + [elem]
              && elem !in old(items)
      ensures keys == old(keys) + [elem.value]
      ensures heap.Length == if freeIndex == old(heap.Length) then 2 * old(heap.Length) else old(heap.Length)
      ensures heap.Length >= 2 && (old(Ordered(keys)) ==> Rising(keys, freeIndex))
    {
      hide Ordered, Rising;
      Grow();
      if Ordered(keys) {
        RiseStart(keys, elem.value);
      }
      heap[freeIndex] := elem;
      items, keys := items + [elem], keys + [elem.value];
    }

    /** Insert: the elements grow by one, and order is kept. */
    method Insert(elem: HeapElem)
      requires Valid() && elem.currentHeap == null
      modifies this, heap, elem`currentHeap
      ensures Valid() && elem.currentHeap == this && multiset(items) == multiset(old(items)) + multiset{elem}
              && (heap == old(heap) || fresh(heap))
      ensures heap.Length == if old(freeIndex) == old(heap.Length) then 2 * old(heap.Length) else old(heap.Length)
      ensures freeIndex == old(freeIndex) + 1 && (old(Ordered(keys)) ==> Ordered(keys))
      ensures |old(keys)| == |old(items)| + 1
      ensures |old(items)| == 0 || old(keys)[(|old(items)| + 1) / 2] <= elem.value ==>
                items == old(items) + [elem] && keys == old(keys) + [elem.value]
    {
      ghost var q, was := items, Ordered(keys);
      assert |keys| == |items| + 1 == freeIndex;
      assert AllIn(q, this);
      hide Ordered, Rising, NoDup, KeysOf;
      Place(elem);
      BubbleUp(freeIndex + 1, was);
      SameMembers(items, q + [elem]);
      Commit(elem, q);
    }

    /** The end of Insert: the new element learns its heap, and counts. */
    method Commit(elem: HeapElem, ghost q: seq<HeapElem>)
      requires Stored(freeIndex + 1) && AllIn(q, this) && forall e :: e in items ==> e in q + [elem]
      modifies elem`currentHeap, this`freeIndex
      ensures elem.currentHeap == this && freeIndex == old(freeIndex) + 1 && Stored(freeIndex) && AllIn(items, this)
    {
      elem.currentHeap := this;
      freeIndex := freeIndex + 1;
    }

    // ---------- Extraction ----------

    /** The victim leaves, and the last leaf comes to its place. */
    method Pull(i: nat) returns (victim: HeapElem)
      requires Valid() && 1 <= i < freeIndex
      modifies this`freeIndex, this`keys, this`items, heap, (set e | e in items)`currentHeap
      ensures Valid() && victim == old(items)[i - 1] && victim.currentHeap == null && freeIndex == old(freeIndex) - 1
      ensures multiset(items) == multiset(old(items)) - multiset{victim} && keys == Pulled(old(keys), i)
    {
      ghost var q := items;
      victim := heap[i];
      PulledItems(q, keys, i);
      hide NoDup, KeysOf;
      Leave(victim, q, Pulled(q, i - 1));
      heap[i] := heap[freeIndex - 1];
      freeIndex := freeIndex - 1;
      items, keys := Pulled(q, i - 1), Pulled(keys, i);
    }

    method Leave(victim: HeapElem, ghost q: seq<HeapElem>, ghost q': seq<HeapElem>)
      requires AllIn(q, this) && forall e :: e in q' ==> e != victim && e in q
      modifies victim`currentHeap
      ensures victim.currentHeap == null && AllIn(q', this)
    {
      victim.currentHeap := null;
    }

    /** The child to swap with, if any: the least of the parent and its children. */
    method LeastChild(parent: nat) returns (greatest: nat)
      requires Valid() && 1 <= parent < freeIndex
      ensures |keys| == freeIndex && greatest == Least(keys, parent)
    {
      greatest := parent;
      var leftChild := parent * 2;
      if leftChild < freeIndex && heap[leftChild].value < heap[parent].value {
        greatest := leftChild;
      }
      var rightChild := parent * 2 + 1;
      if rightChild < freeIndex && heap[rightChild].value < heap[greatest].value {
        greatest := rightChild;
      }
    }

    /** The loop of Extract. With `was`, the keys k0 before the extraction were in order. */
    method SiftDown(i: nat, ghost k0: seq<int>, ghost was: bool)
      requires Valid() && 1 <= i <= freeIndex && |k0| == freeIndex + 1 && keys == Pulled(k0, i) && (was ==> Ordered(k0))
      modifies heap, this`keys, this`items
      ensures Valid() && multiset(items) == multiset(old(items))
      ensures was ==> (Ordered(keys) <==> i == 1 || i == freeIndex || k0[freeIndex] >= k0[i / 2])
    {
      ghost var x := k0[freeIndex];
      if was {
        PulledOrder(k0, i);
      }
      hide Ordered, Sinking, Above, NoDup, Swap;
      var parent := i;
      while parent < freeIndex
        invariant Valid() && multiset(items) == multiset(old(items)) && i <= parent && |keys| == freeIndex
        invariant was && i < freeIndex ==> Sinking(keys, i, parent) && Above(keys, i, parent, x)
                                           && keys[i / 2] == k0[i / 2]
        invariant (parent == i ==> keys == Pulled(k0, i)) && (i == freeIndex ==> parent == i)
        decreases freeIndex - parent
      {
        var greatest := LeastChild(parent);
        if greatest == parent {
          break;
        }
        if was {
          SinkStep(keys, i, parent);
          AboveStep(keys, k0, i, parent, x);
          SwapElsewhere(keys, parent, greatest, i / 2);
        }
        SwapAt(parent, greatest, freeIndex);
        parent := greatest;
      }
      if was {
        SinkResult(keys, k0, i, parent, x);
      }
    }

    /** Extract: the victim is the element at i; the others stay. Order survives if and only if i is
        the root or the last leaf, or the moved leaf is not less than the parent of i. */
    method Extract(i: nat) returns (victim: HeapElem?)
      requires Valid() && 1 <= i
      modifies this`freeIndex, this`keys, this`items, heap, (set e | e in items)`currentHeap
      ensures Valid() && |old(keys)| == old(freeIndex)
      ensures i >= old(freeIndex) ==> victim == null && items == old(items) && keys == old(keys)
      ensures i < old(freeIndex) ==>
                && victim == old(items)[i - 1] && victim.currentHeap == null
                && multiset(items) == multiset(old(items)) - multiset{victim} && |items| == |old(items)| - 1
                && (old(Ordered(keys)) ==>
                      (Ordered(keys) <==> i == 1 || i == |old(keys)| - 1
                                          || old(keys)[|old(keys)| - 1] >= old(keys)[i / 2]))
    {
      if freeIndex <= i {
        return null;
      }
      ghost var k0, was := keys, Ordered(keys);
      hide Ordered, NoDup, AllIn, Pulled;
      victim := Pull(i);
      SiftDown(i, k0, was);
    }

    /** Remove: finds the element by a linear search and extracts it; nothing if it is not there. */
    method Remove(elem: HeapElem) returns (victim: HeapElem?)
      requires Valid()
      modifies this`freeIndex, this`keys, this`items, heap, (set e | e in items)`currentHeap
      ensures Valid() && |old(keys)| == |old(items)| + 1
      ensures elem !in old(items) ==> victim == null && items == old(items) && keys == old(keys)
      ensures elem in old(items) ==> victim == elem && elem.currentHeap == null
                                     && multiset(items) == multiset(old(items)) - multiset{elem}
      ensures old(Ordered(keys)) ==> (Ordered(keys) <==> forall j :: 0 <= j < |old(items)| && old(items)[j] == elem ==>
                j == 0 || j == |old(items)| - 1 || old(keys)[|old(items)|] >= old(keys)[(j + 1) / 2])
    {
      if freeIndex == 1 {
        return null;
      }
      var theIndex := 1;
      while theIndex < freeIndex
        invariant 1 <= theIndex <= freeIndex && forall j :: 0 <= j < theIndex - 1 ==> items[j] != elem
      {
        if elem == heap[theIndex] {
          break;
        }
        theIndex := theIndex + 1;
      }
      if theIndex == freeIndex {
        return null;
      }
      assert forall j :: 0 <= j < |items| && items[j] == elem ==> j == theIndex - 1;
      victim := Extract(theIndex);
    }

    method PeekMin() returns (min: HeapElem?)
      requires Valid()
      ensures min == null <==> items == []
      ensures min != null ==> min == items[0] && (Ordered(keys) ==> forall e :: e in items ==> min.value <= e.value)
    {
      if freeIndex - 1 > 0 {
        min := heap[1];
        if Ordered(keys) {
          LeastItem(keys, items);
        }
      } else {
        min := null;
      }
    }

    // ---------- Idle timers ----------

    /** SetIdleTimer: a timer already set is left alone. */
    method SetIdleTimer(elem: HeapElem, now: int, msec: int)
      requires Valid()
      modifies this, heap, elem
      ensures Valid() && (heap == old(heap) || fresh(heap)) && (old(Ordered(keys)) ==> Ordered(keys))
      ensures old(elem.currentHeap) != null ==> items == old(items) && elem.value == old(elem.value)
      ensures old(elem.currentHeap) == null ==>
                elem.value == now + msec && elem.currentHeap == this
                    && multiset(items) == multiset(old(items)) + multiset{elem}
    {
      if elem.currentHeap != null {
        return;
      }
      elem.value := now + msec;
      Insert(elem);
    }

    /** The draining loop of Entry at time `now`. None fires early, and the heap's first timer, if
        there is one, lies ahead. If the heap was in order, exactly the due timers fire, earliest
        first. */
    method Drain(now: int) returns (fired: seq<HeapElem>)
      requires Valid()
      modifies this`freeIndex, this`keys, this`items, heap, (set e | e in items)`currentHeap
      ensures Valid() && multiset(fired) + multiset(items) == multiset(old(items))
      ensures forall e :: e in fired ==> e.value <= now && e.currentHeap == null
      ensures items != [] ==> items[0].value > now
      ensures old(Ordered(keys)) ==>
                && Ordered(keys) && (forall e :: e in items ==> e.value > now)
                && (forall i, j :: 0 <= i < j < |fired| ==> fired[i].value <= fired[j].value)
    {
      ghost var was := Ordered(keys);
      hide Ordered, Stored, AllIn, NoDup, KeysOf;
      fired := [];
      while true
        invariant Valid() && multiset(fired) + multiset(items) == multiset(old(items)) && Less(items, old(items))
        invariant AllOut(fired, now) && (was ==> Ordered(keys) && Sequenced(fired, items))
        decreases |items|
      {
        var min := PeekMin();
        if min == null || min.value > now {
          break;
        }
        fired := FireNext(fired, now);
      }
    }

    /** One turn: the first timer, which is due, leaves the heap and fires. */
    method FireNext(fired: seq<HeapElem>, now: int) returns (fired': seq<HeapElem>)
      requires Valid() && AllOut(fired, now) && items != [] && items[0].value <= now
      modifies this`freeIndex, this`keys, this`items, heap, (set e | e in items)`currentHeap
      ensures Valid() && |items| == |old(items)| - 1 && AllOut(fired', now) && Less(items, old(items))
      ensures multiset(fired') + multiset(items) == multiset(fired) + multiset(old(items))
      ensures old(Ordered(keys) && Sequenced(fired, items)) ==> Ordered(keys) && Sequenced(fired', items)
    {
      ghost var before, was := items, Ordered(keys) && Sequenced(fired, items);
      assert AllIn(items, this);
      var elem := ExtractMin();
      SameMembersLess(items, before, elem);
      if was {
        FiredNext(fired, before, items, elem);
      }
      fired' := fired + [elem];
      hide Ordered, Stored, NoDup, KeysOf, Sequenced;
    }

    /** ExtractMin: the root, which is a least element if the heap is in order; order is kept. */
    method ExtractMin() returns (victim: HeapElem?)
      requires Valid()
      modifies this`freeIndex, this`keys, this`items, heap, (set e | e in items)`currentHeap
      ensures Valid() && (victim == null <==> old(items) == [])
      ensures victim == null ==> items == []
      ensures victim != null ==>
                && victim == old(items)[0] && victim.currentHeap == null
                   && multiset(items) == multiset(old(items)) - multiset{victim}
                && |items| == |old(items)| - 1
      ensures old(Ordered(keys)) ==> Ordered(keys) && (victim != null ==>
                                                         forall e :: e in old(items) ==> victim.value <= e.value)
    {
      if Ordered(keys) && items != [] {
        LeastItem(keys, items);
      }
      victim := Extract(1);
    }
  }

  lemma LeastItem(k: seq<int>, q: seq<HeapElem>)
    requires Ordered(k) && KeysOf(k, q) && q != []
    ensures forall e :: e in q ==> q[0].value <= e.value
  {
    forall e | e in q
      ensures q[0].value <= e.value
    {
      var j :| 0 <= j < |q| && q[j] == e;
      RootLeast(k, j + 1);
    }
  }

  /** The fired timers were due and are in no heap. */
  ghost predicate AllOut(fired: seq<HeapElem>, now: int)
    reads fired
  {
    forall e :: e in fired ==> e.value <= now && e.currentHeap == null
  }

  /** The fired timers come in order, and none is later than one still waiting. */
  ghost predicate Sequenced(fired: seq<HeapElem>, items: seq<HeapElem>)
    reads (set e | e in fired)`value, (set e | e in items)`value
  {
    && (forall i, j :: 0 <= i < j < |fired| ==> fired[i].value <= fired[j].value)
    && (forall i, e :: 0 <= i < |fired| && e in items ==> fired[i].value <= e.value)
  }

  lemma FiredNext(fired: seq<HeapElem>, before: seq<HeapElem>, items: seq<HeapElem>, elem: HeapElem)
    requires Sequenced(fired, before) && elem in before && forall e :: e in before ==> elem.value <= e.value
    requires Less(items, before)
    ensures Sequenced(fired + [elem], items)
  {
  }

  ghost predicate Less(a: seq<HeapElem>, b: seq<HeapElem>)
  {
    forall e :: e in a ==> e in b
  }

  lemma SameMembersLess(a: seq<HeapElem>, b: seq<HeapElem>, x: HeapElem)
    requires multiset(a) == multiset(b) - multiset{x}
    ensures Less(a, b)
  {
    forall e | e in a
      ensures e in b
    {
      assert e in multiset(a);
    }
  }

  /** A new timer whose place is where it is put. */
  method AddLast(h: OSHeap, value: int)
    requires h.Valid() && Ordered(h.keys)
    requires |h.keys| == 1 || h.keys[|h.keys| / 2] <= value
    modifies h, h.heap
    ensures h.Valid() && Ordered(h.keys) && h.keys == old(h.keys) + [value] && (h.heap == old(h.heap) || fresh(h.heap))
    ensures |h.items| == |old(h.items)| + 1 && h.items[..|old(h.items)|] == old(h.items)
            && fresh(h.items[|old(h.items)|])
  {
    var e := new HeapElem();
    e.value := value;
    h.Insert(e);
  }

  /** A heap of six timers, in order, that extracting one of them leaves out of order: the last leaf,
      3, comes below 10. */
  method OrderLost() returns (h: OSHeap)
    ensures fresh(h) && h.Valid() && !Ordered(h.keys)
  {
    hide Ordered, NoDup, KeysOf, OSHeap.Valid;
    h := new OSHeap(8);
    var values := [1, 10, 2, 11, 12, 3];
    var i := 0;
    while i < 6
      invariant 0 <= i <= 6 && fresh(h) && fresh(h.heap) && h.Valid() && Ordered(h.keys) && h.keys == [0] + values[..i]
      invariant |h.items| == i && forall j :: 0 <= j < i ==> fresh(h.items[j])
    {
      assert i > 0 ==> h.keys[(i + 1) / 2] == values[(i + 1) / 2 - 1];
      AddLast(h, values[i]);
      i := i + 1;
    }
    assert h.keys == [0, 1, 10, 2, 11, 12, 3];
    assert forall e :: e in h.items ==> fresh(e);
    ExtractFourth(h);
  }

  method ExtractFourth(h: OSHeap)
    requires h.Valid() && Ordered(h.keys) && h.keys == [0, 1, 10, 2, 11, 12, 3]
    modifies h, h.heap, h.items
    ensures h.Valid() && !Ordered(h.keys)
  {
    hide Ordered;
    var victim := h.Extract(4);
  }

  lemma PulledItems(q: seq<HeapElem>, k: seq<int>, i: nat)
    requires NoDup(q) && KeysOf(k, q) && 1 <= i <= |q|
    ensures var q' := Pulled(q, i - 1);
            && NoDup(q') && KeysOf(Pulled(k, i), q') && multiset(q') == multiset(q) - multiset{q[i - 1]}
            && forall e :: e in q' ==> e != q[i - 1] && e in q
  {
    var n := |q| - 1;
    var q' := Pulled(q, i - 1);
    assert q == q[..n] + [q[n]];
    if i - 1 < n {
      assert q' == q[..n][i - 1 := q[n]];
    } else {
      assert q' == q[..n];
    }
    forall e | e in q'
      ensures e != q[i - 1] && e in q
    {
      var j :| 0 <= j < |q'| && q'[j] == e;
      assert e == if j == i - 1 then q[n] else q[j];
    }
  }

  lemma SameMembers<T>(a: seq<T>, b: seq<T>)
    requires multiset(a) == multiset(b)
    ensures forall e :: e in a ==> e in b
  {
    forall e | e in a
      ensures e in b
    {
      assert e in multiset(a);
    }
  }
}
