/** OSHashTable: chains of entries linked through their own next fields, and the iterator. */
module HashTable {
  import opened Sequences

  // ---------- Bits ----------

  /** Bitwise and of two naturals. */
  function And(a: nat, b: nat): nat
  {
    if a == 0 || b == 0 then 0 else 2 * And(a / 2, b / 2) + (if a % 2 == 1 && b % 2 == 1 then 1 else 0)
  }

  lemma {:induction false} AndSelf(a: nat)
    ensures And(a, a) == a
  {
    if a > 0 {
      AndSelf(a / 2);
    }
  }

  lemma OddMask(n: nat)
    requires n % 2 == 1
    ensures And(n - 1, n) == n - 1
  {
    AndSelf(n / 2);
    assert (n - 1) / 2 == n / 2;
  }

  /** The test of the constructor lets only powers of two keep their mask, and for those masking is
      the remainder. */
  lemma {:induction false} MaskIsRemainder(h: nat, n: nat)
    requires n > 0 && And(n - 1, n) == 0
    ensures And(h, n - 1) == h % n
    decreases n
  {
    var m := n / 2;
    if n % 2 == 1 {
      OddMask(n);
    } else {
      assert (n - 1) / 2 == m - 1 && (n - 1) % 2 == 1;
      assert m > 1 ==> And(n - 1, n) == 2 * And(m - 1, m);
      MaskIsRemainder(h / 2, m);
      HalfRemainder(h, m);
      AndLow(h, m);
    }
  }

  lemma AndLow(h: nat, m: nat)
    requires m > 0
    ensures And(h, 2 * m - 1) == 2 * And(h / 2, m - 1) + h % 2
  {
    assert (2 * m - 1) / 2 == m - 1 && (2 * m - 1) % 2 == 1;
  }

  lemma HalfRemainder(h: nat, m: nat)
    requires m > 0
    ensures h % (2 * m) == 2 * (h / 2 % m) + h % 2
  {
    var q, r := h / 2 / m, h / 2 % m;
    assert h / 2 == q * m + r;
    assert h == 2 * (q * m + r) + h % 2;
    var low := 2 * r + h % 2;
    assert 0 <= low < 2 * m;
    assert h == q * (2 * m) + low;
    RemainderOf(h, q, 2 * m, low);
  }

  lemma RemainderOf(h: nat, q: nat, d: nat, r: nat)
    requires r < d && h == q * d + r
    ensures h % d == r
  {
    var q', r' := h / d, h % d;
    assert q' * d + r' == q * d + r;
    if q' > q {
      TimesMonotone(q + 1, q', d);
      TimesNext(q, d);
    } else if q' < q {
      TimesMonotone(q' + 1, q, d);
      TimesNext(q', d);
    }
  }

  lemma TimesNext(q: nat, d: nat)
    ensures (q + 1) * d == q * d + d
  {
  }

  lemma {:induction false} TimesMonotone(a: nat, b: nat, d: nat)
    requires a <= b
    ensures a * d <= b * d
    decreases b - a
  {
    if a < b {
      TimesMonotone(a, b - 1, d);
      TimesNext(b - 1, d);
    }
  }

  // ---------- The table ----------

  /** An entry: its key, the key's hash value, and the link to the next entry of its chain. */
  class Entry<K> {
    const key: K
    const hash: nat
    var next: Entry?<K>

    constructor (key: K, hash: nat)
      ensures this.key == key && this.hash == hash && next == null
    {
      this.key, this.hash, next := key, hash, null;
    }
  }

  /** The links of a chain from position k on. */
  ghost predicate LinkedFrom<K>(c: seq<Entry<K>>, k: nat)
    reads c
    requires k < |c|
  {
    c[k].next == if k + 1 < |c| then c[k + 1] else null
  }

  ghost function Head<K>(c: seq<Entry<K>>): Entry?<K>
  {
    if |c| > 0 then c[0] else null
  }

  /** Chain i: linked from its slot, without repetition, its entries hashed to i. */
  ghost predicate ChainOk<K>(head: Entry?<K>, c: seq<Entry<K>>, i: nat, size: nat)
    reads c
    requires size > 0
  {
    && head == Head(c) && NoDup(c)
    && (forall k :: 0 <= k < |c| ==> LinkedFrom(c, k))
    && (forall k :: 0 <= k < |c| ==> c[k].hash % size == i)
  }

  ghost function Members<K>(chains: seq<seq<Entry<K>>>): set<Entry<K>>
  {
    set i, k | 0 <= i < |chains| && 0 <= k < |chains[i]| :: chains[i][k]
  }

  /** The chains joined, as the iterator walks them. */
  ghost function Joined<K>(chains: seq<seq<Entry<K>>>): seq<Entry<K>>
  {
    if chains == [] then [] else chains[0] + Joined(chains[1..])
  }

  ghost function Drop<T>(c: seq<T>, k: nat): seq<T>
    requires k < |c|
  {
    c[..k] + c[k + 1..]
  }

  /** e is the first entry of the chain with the key. */
  ghost predicate FirstWith<K>(c: seq<Entry<K>>, key: K, e: Entry<K>)
  {
    exists k :: 0 <= k < |c| && c[k] == e && e.key == key && forall j :: 0 <= j < k ==> c[j].key != key
  }

  class Table<K(==)> {
    const buckets: array<Entry?<K>>
    const size: nat
    const mask: nat
    var numEntries: nat
    ghost var chains: seq<seq<Entry<K>>>
    // how keys hash, and, while every entry added had its key's hash and a new key, the map that
    // the chains represent
    ghost const h: K -> nat
    ghost var regular: bool
    ghost var entries: map<K, Entry<K>>

    ghost predicate Sized()
      reads this
    {
      size > 0 && buckets.Length == size == |chains| && mask == if And(size - 1, size) == 0 then size - 1 else 0
    }

    ghost predicate Valid()
      reads this, buckets, Members(chains)
    {
      && Sized() && numEntries == |Joined(chains)|
      && (forall i :: 0 <= i < size ==> ChainOk(buckets[i], chains[i], i, size))
      && (regular ==> Represents(chains, size, h, entries))
    }

    constructor (size: nat, ghost h: K -> nat)
      requires size > 0
      ensures Valid() && this.size == size && chains == seq(size, i => []) && fresh(buckets)
      ensures this.h == h && regular && entries == map[]
    {
      this.size, this.h, regular, entries := size, h, true, map[];
      mask := if And(size - 1, size) == 0 then size - 1 else 0;
      buckets := new Entry?<K>[size](_ => null);
      numEntries := 0;
      chains := seq(size, i => []);
      new;
      JoinedEmpty(chains);
    }

    /** ComputeIndex: mask or remainder, it is the remainder. */
    function ComputeIndex(hash: nat): (i: nat)
      reads this
      requires Sized()
      ensures i == hash % size
    {
      if mask != 0 then MaskIsRemainder(hash, size); And(hash, mask)
      else hash % size
    }

    /** The joined chains are the entries, each once. */
    lemma JoinedAll()
      requires Valid()
      ensures |Joined(chains)| == numEntries && NoDup(Joined(chains))
      ensures forall e :: e in Joined(chains) <==> e in Members(chains)
    {
      forall i | 0 <= i < size
        ensures NoDup(chains[i]) && forall k :: 0 <= k < |chains[i]| ==> chains[i][k].hash % size == i
      {
        assert ChainOk(buckets[i], chains[i], i, size);
      }
      JoinedOnce(chains, 0, size);
    }

    /** Map: the first entry of its chain with the key, if there is one. */
    method Map(key: K, hash: nat) returns (elem: Entry?<K>)
      requires Valid()
      ensures elem == null ==> forall k :: 0 <= k < |chains[hash % size]| ==> chains[hash % size][k].key != key
      ensures elem != null ==> FirstWith(chains[hash % size], key, elem)
      ensures regular && hash == h(key) ==>
                (elem != null <==> key in entries) && (elem != null ==> elem == entries[key])
    {
      var i := ComputeIndex(hash);
      ghost var c := chains[i];
      assert ChainOk(buckets[i], c, i, size);
      elem := buckets[i];
      ghost var k := 0;
      while elem != null
        invariant k <= |c| && elem == (if k < |c| then c[k] else null)
        invariant forall j :: 0 <= j < k ==> c[j].key != key
        decreases |c| - k
      {
        if elem.key == key {
          break;
        }
        assert LinkedFrom(c, k);
        elem := elem.next;
        k := k + 1;
      }
      if regular && hash == h(key) {
        MapRefines(chains, size, h, entries, key, elem);
      }
    }

    /** Add: to the front of its chain. */
    method Add(entry: Entry<K>)
      requires Valid() && entry.next == null && entry !in chains[entry.hash % size]
      modifies this`numEntries, this`chains, this`regular, this`entries, buckets, entry`next
      ensures Valid() && numEntries == old(numEntries) + 1
      ensures var i := entry.hash % size; chains == old(chains)[i := [entry] + old(chains)[i]]
      ensures regular <==> old(regular) && entry.hash == h(entry.key) && entry.key !in old(entries)
      ensures entries == old(entries)[entry.key := entry]
    {
      hide Represents, And, ChainOk, NoDup, LinkedFrom, Joined;
      var i := ComputeIndex(entry.hash);
      ghost var was, c := chains, chains[i];
      JoinedUpdate(chains, i, [entry] + c);
      OtherChains(i, entry);
      if regular && entry.hash == h(entry.key) && entry.key !in entries {
        AddRefines(chains, size, h, entries, entry);
      }
      regular := regular && entry.hash == h(entry.key) && entry.key !in entries;
      entries := entries[entry.key := entry];
      PutFront(i, c, entry);
      numEntries := numEntries + 1;
      forall j | 0 <= j < size && j != i
        ensures ChainOk(buckets[j], was[j], j, size)
      {
        assert old(ChainOk(buckets[j], chains[j], j, size));
      }
      chains := chains[i := [entry] + c];
    }

    /** The pointer assignments of Add. */
    method PutFront(i: nat, ghost c: seq<Entry<K>>, entry: Entry<K>)
      requires Sized() && i < size && ChainOk(buckets[i], c, i, size) && entry !in c && entry.hash % size == i
      modifies buckets, entry`next
      ensures ChainOk(buckets[i], [entry] + c, i, size)
      ensures forall j :: 0 <= j < size && j != i ==> buckets[j] == old(buckets[j])
    {
      ghost var c' := [entry] + c;
      entry.next := buckets[i];
      buckets[i] := entry;
      forall k | 0 <= k < |c'|
        ensures LinkedFrom(c', k)
      {
        assert k > 0 ==> old(LinkedFrom(c, k - 1));
      }
    }

    lemma MemberOf(i: nat, k: nat)
      requires Valid() && i < size && k < |chains[i]|
      ensures chains[i][k] in Members(chains) && chains[i][k].hash % size == i
    {
      assert ChainOk(buckets[i], chains[i], i, size);
    }

    lemma ChainOnce(i: nat)
      requires Valid() && i < size
      ensures NoDup(chains[i])
    {
      assert ChainOk(buckets[i], chains[i], i, size);
    }

    /** An entry that belongs to chain i is in no other chain. */
    lemma OtherChains(i: nat, e: Entry<K>)
      requires Valid() && i < size && e.hash % size == i
      ensures forall j :: 0 <= j < size && j != i ==> e !in chains[j]
    {
      forall j | 0 <= j < size && j != i
        ensures e !in chains[j]
      {
        assert ChainOk(buckets[j], chains[j], j, size);
      }
    }

    /** Remove: the entry itself, if it is in its chain; otherwise nothing. */
    method Remove(entry: Entry<K>)
      requires Valid()
      modifies this`numEntries, this`chains, this`entries, buckets, Members(chains)`next
      ensures Valid()
      ensures regular ==> entries == if entry in old(entries).Values then old(entries) - {entry.key} else old(entries)
      ensures var i := entry.hash % size; var c := old(chains)[i];
              && (entry !in c ==> chains == old(chains) && numEntries == old(numEntries))
              && (entry in c ==> (exists k :: 0 <= k < |c| && c[k] == entry && chains == old(chains)[i := Drop(c, k)])
                                 && numEntries == old(numEntries) - 1 && entry.next == null)
    {
      var i := ComputeIndex(entry.hash);
      ghost var c := chains[i];
      assert ChainOk(buckets[i], c, i, size);
      var elem, last := buckets[i], null;
      ghost var k := 0;
      while elem != null && elem != entry
        invariant k <= |c| && elem == (if k < |c| then c[k] else null) && last == (if k > 0 then c[k - 1] else null)
        invariant forall j :: 0 <= j < k ==> c[j] != entry
        decreases |c| - k
      {
        assert LinkedFrom(c, k);
        last := elem;
        elem := elem.next;
        k := k + 1;
      }
      if regular {
        EntryChained(chains, size, h, entries, entry);
      }
      if elem != null {
        Unlink(i, c, k, elem, last);
      }
    }

    /** The pointer assignments of Remove: the chain without its k-th entry. */
    method Cut(i: nat, ghost c: seq<Entry<K>>, ghost k: nat, elem: Entry<K>, last: Entry?<K>)
      requires Sized() && i < size && ChainOk(buckets[i], c, i, size)
      requires k < |c| && elem == c[k] && last == (if k > 0 then c[k - 1] else null)
      modifies buckets, elem`next, (if last == null then {} else {last})`next
      ensures ChainOk(buckets[i], Drop(c, k), i, size) && elem.next == null
      ensures forall j :: 0 <= j < size && j != i ==> buckets[j] == old(buckets[j])
    {
      assert LinkedFrom(c, k);
      if last != null {
        assert LinkedFrom(c, k - 1);
        last.next := elem.next;
      } else {
        buckets[i] := elem.next;
      }
      elem.next := null;
      ghost var c' := Drop(c, k);
      forall j | 0 <= j < |c'|
        ensures LinkedFrom(c', j)
      {
        assert j < k ==> old(LinkedFrom(c, j));
        assert j >= k ==> old(LinkedFrom(c, j + 1));
      }
    }

    method Unlink(i: nat, ghost c: seq<Entry<K>>, ghost k: nat, elem: Entry<K>, last: Entry?<K>)
      requires Valid() && i < size && c == chains[i] && k < |c| && elem == c[k]
               && last == (if k > 0 then c[k - 1] else null)
      modifies this`numEntries, this`chains, this`entries, buckets, Members(chains)`next
      ensures Valid() && chains == old(chains)[i := Drop(c, k)] && numEntries == old(numEntries) - 1
              && elem.next == null && entries == old(entries) - {elem.key}
    {
      hide Represents, And, ChainOk, Members, NoDup, LinkedFrom, Joined;
      MemberOf(i, k);
      if regular {
        ChainOnce(i);
        RemoveRefines(chains, size, h, entries, elem, k);
      }
      OtherChains(i, elem);
      if last != null {
        MemberOf(i, k - 1);
        OtherChains(i, last);
      }
      ghost var was := chains;
      Cut(i, c, k, elem, last);
      JoinedUpdate(chains, i, Drop(c, k));
      numEntries := numEntries - 1;
      forall j | 0 <= j < size && j != i
        ensures ChainOk(buckets[j], was[j], j, size)
      {
        assert old(ChainOk(buckets[j], chains[j], j, size));
      }
      chains := chains[i := Drop(c, k)];
      entries := entries - {elem.key};
    }
  }

  lemma {:induction false} JoinedEmpty<K>(chains: seq<seq<Entry<K>>>)
    requires forall i :: 0 <= i < |chains| ==> chains[i] == []
    ensures Joined(chains) == []
  {
    if chains != [] {
      JoinedEmpty(chains[1..]);
    }
  }

  lemma {:induction false} JoinedUpdate<K>(chains: seq<seq<Entry<K>>>, i: nat, c: seq<Entry<K>>)
    requires i < |chains|
    ensures |Joined(chains[i := c])| == |Joined(chains)| - |chains[i]| + |c|
  {
    if i == 0 {
      assert chains[i := c][1..] == chains[1..];
    } else {
      JoinedUpdate(chains[1..], i - 1, c);
      assert chains[i := c][1..] == chains[1..][i - 1 := c];
    }
  }

  // ---------- The iterator ----------

  class Iter<K(==)> {
    const table: Table<K>
    var current: Entry?<K>
    var index: nat
    // where current is in its chain, and the entries still to come, current first
    ghost var pos: nat
    ghost var rest: seq<Entry<K>>

    ghost predicate Valid()
      reads this, table, table.buckets, Members(table.chains)
    {
      && table.Valid() && index <= table.size && current == Head(rest)
      && (index < table.size ==> pos < |table.chains[index]|
                                 && rest == table.chains[index][pos..] + Joined(table.chains[index + 1..]))
      && (index == table.size ==> rest == [])
    }

    /** The constructor goes to the first entry. */
    constructor (table: Table<K>)
      requires table.Valid()
      ensures Valid() && this.table == table && rest == Joined(table.chains)
    {
      this.table := table;
      current, index, pos, rest := null, 0, 0, [];
      new;
      Skip(0);
      assert table.chains[0..] == table.chains;
    }

    /** The loop of First and Next: the first entry in the chains from `start` on. */
    method Skip(start: nat)
      requires table.Valid() && start <= table.size && current == null
      modifies this
      ensures Valid() && rest == Joined(table.chains[start..])
    {
      hide ChainOk, Members, Joined, And;
      index := start;
      ghost var all := Joined(table.chains[start..]);
      while index < table.size
        invariant start <= index <= table.size && table.Valid() && current == null
        invariant Joined(table.chains[index..]) == all
        decreases table.size - index
      {
        assert ChainOk(table.buckets[index], table.chains[index], index, table.size);
        HeadOf(table.buckets[index], table.chains[index], index, table.size);
        JoinedStep(table.chains, index);
        current := table.buckets[index];
        if current != null {
          pos, rest := 0, all;
          return;
        }
        index := index + 1;
      }
      rest := [];
      JoinedNone(table.chains[index..]);
    }

    /** Next: one entry further. */
    method Next()
      requires Valid() && current != null
      modifies this
      ensures Valid() && rest == old(rest)[1..]
    {
      ghost var c := table.chains[index];
      assert ChainOk(table.buckets[index], c, index, table.size);
      assert LinkedFrom(c, pos);
      ghost var later := rest[1..];
      assert later == c[pos + 1..] + Joined(table.chains[index + 1..]);
      current := current.next;
      pos, rest := pos + 1, later;
      if current == null {
        Skip(index + 1);
      }
    }

    lemma AtCurrent()
      requires Valid()
      ensures current == Head(rest) && table.Valid()
    {
    }

    /** A whole walk visits every entry of the table exactly once. */
    static method Walk(table: Table<K>) returns (visited: seq<Entry<K>>)
      requires table.Valid()
      ensures |visited| == table.numEntries && NoDup(visited)
      ensures forall e :: e in visited <==> e in Members(table.chains)
    {
      hide ChainOk, And, Members, NoDup, Joined;
      var iter := new Iter(table);
      iter.AtCurrent();
      visited := [];
      while iter.current != null
        invariant iter.Valid() && iter.table == table && fresh(iter) && visited + iter.rest == Joined(table.chains)
        invariant iter.current == Head(iter.rest) && table.Valid()
        decreases |iter.rest|
      {
        ghost var was := iter.rest;
        Shift(visited, was);
        visited := visited + [iter.current];
        iter.Next();
        assert iter.rest == was[1..];
        iter.AtCurrent();
      }
      assert visited == Joined(table.chains);
      table.JoinedAll();
    }
  }

  lemma Shift<T>(a: seq<T>, b: seq<T>)
    ensures b != [] ==> a + [b[0]] + b[1..] == a + b
  {
  }

  lemma HeadOf<K>(head: Entry?<K>, c: seq<Entry<K>>, i: nat, size: nat)
    requires size > 0 && ChainOk(head, c, i, size)
    ensures head == Head(c)
  {
  }

  lemma JoinedNone<K>(chains: seq<seq<Entry<K>>>)
    requires |chains| == 0
    ensures Joined(chains) == []
  {
  }

  lemma JoinedStep<K>(chains: seq<seq<Entry<K>>>, i: nat)
    requires i < |chains|
    ensures Joined(chains[i..]) == chains[i] + Joined(chains[i + 1..])
  {
    assert chains[i..][0] == chains[i] && chains[i..][1..] == chains[i + 1..];
  }

  /** The joined chains hold every member, each once. */
  lemma {:induction false} JoinedOnce<K>(chains: seq<seq<Entry<K>>>, from: nat, size: nat)
    requires size > 0
    requires forall i :: 0 <= i < |chains| ==> NoDup(chains[i])
                                               && forall k :: 0 <= k < |chains[i]| ==>
                                                                chains[i][k].hash % size == from + i
    ensures NoDup(Joined(chains))
    ensures forall e :: e in Joined(chains) <==> e in Members(chains)
    ensures forall e :: e in Joined(chains) ==> e.hash % size >= from
  {
    if chains != [] {
      var c, r := chains[0], chains[1..];
      JoinedOnce(r, from + 1, size);
      assert forall e :: e in c ==> e.hash % size == from;
      NoDupConcat(c, Joined(r));
      MembersStep(chains);
    }
  }

  lemma MembersStep<K>(chains: seq<seq<Entry<K>>>)
    requires chains != []
    ensures forall e :: e in Members(chains) <==> e in chains[0] || e in Members(chains[1..])
  {
    forall e | e in Members(chains)
      ensures e in chains[0] || e in Members(chains[1..])
    {
      var i, k :| 0 <= i < |chains| && 0 <= k < |chains[i]| && chains[i][k] == e;
      assert i > 0 ==> chains[1..][i - 1][k] == e;
    }
    forall e | e in chains[0] || e in Members(chains[1..])
      ensures e in Members(chains)
    {
      if e in chains[0] {
        var k :| 0 <= k < |chains[0]| && chains[0][k] == e;
      } else {
        var i, k :| 0 <= i < |chains[1..]| && 0 <= k < |chains[1..][i]| && chains[1..][i][k] == e;
        assert chains[i + 1][k] == e;
      }
    }
  }

  lemma NoDupConcat<T>(a: seq<T>, b: seq<T>)
    requires NoDup(a) && NoDup(b) && forall i, j :: 0 <= i < |a| && 0 <= j < |b| ==> a[i] != b[j]
    ensures NoDup(a + b)
  {
  }

  // ---------- Refinement of a map ----------

  /** The chains hold exactly the entries of the map m, each under its own key. */
  ghost predicate Represents<K>(chains: seq<seq<Entry<K>>>, size: nat, h: K -> nat, m: map<K, Entry<K>>)
    requires size > 0 && |chains| == size
  {
    && (forall key :: key in m ==> m[key].key == key && m[key] in chains[h(key) % size])
    && (forall i, k :: 0 <= i < size && 0 <= k < |chains[i]| ==>
          var e: Entry<K> := chains[i][k]; e.hash == h(e.key) && e.hash % size == i && e.key in m && m[e.key] == e)
  }

  /** What Map returns is what the map says. */
  lemma MapRefines<K>(chains: seq<seq<Entry<K>>>, size: nat, h: K -> nat, m: map<K, Entry<K>>, key: K, elem: Entry?<K>)
    requires size > 0 && |chains| == size && Represents(chains, size, h, m)
    requires elem == null ==> forall k :: 0 <= k < |chains[h(key) % size]| ==> chains[h(key) % size][k].key != key
    requires elem != null ==> FirstWith(chains[h(key) % size], key, elem)
    ensures (elem != null <==> key in m) && (elem != null ==> elem == m[key])
  {
  }

  /** Adding an entry with a new key adds it to the map. */
  lemma AddRefines<K>(chains: seq<seq<Entry<K>>>, size: nat, h: K -> nat, m: map<K, Entry<K>>, e: Entry<K>)
    requires size > 0 && |chains| == size && Represents(chains, size, h, m) && e.hash == h(e.key) && e.key !in m
    ensures var i := e.hash % size; Represents(chains[i := [e] + chains[i]], size, h, m[e.key := e])
  {
    var i := e.hash % size;
    var chains': seq<seq<Entry<K>>> := chains[i := [e] + chains[i]];
    var m' := m[e.key := e];
    forall key | key in m'
      ensures m'[key].key == key && m'[key] in chains'[h(key) % size]
    {
      if key == e.key {
        assert chains'[i][0] == e;
      } else {
        var j := h(key) % size;
        assert m[key] in chains[j];
        assert j == i ==> chains'[j] == [e] + chains[j];
      }
    }
    forall j, k | 0 <= j < size && 0 <= k < |chains'[j]|
      ensures var d: Entry<K> := chains'[j][k]; d.hash == h(d.key) && d.hash % size == j && d.key in m'
                                                && m'[d.key] == d
    {
      var d: Entry<K> := chains'[j][k];
      if j == i && k > 0 {
        assert d == chains[i][k - 1];
      } else if j != i {
        assert d == chains[j][k];
      }
    }
  }

  /** An entry is in its chain exactly if the map has it. */
  lemma EntryChained<K>(chains: seq<seq<Entry<K>>>, size: nat, h: K -> nat, m: map<K, Entry<K>>, e: Entry<K>)
    requires size > 0 && |chains| == size && Represents(chains, size, h, m)
    ensures e in chains[e.hash % size] <==> e in m.Values
    ensures e in m.Values ==> e.key in m && m[e.key] == e
  {
    if e in chains[e.hash % size] {
      var k :| 0 <= k < |chains[e.hash % size]| && chains[e.hash % size][k] == e;
    }
    if e in m.Values {
      var key :| key in m && m[key] == e;
      assert m[key] in chains[h(key) % size];
      var k :| 0 <= k < |chains[h(key) % size]| && chains[h(key) % size][k] == e;
    }
  }

  lemma StillThere<K>(chains: seq<seq<Entry<K>>>, size: nat, h: K -> nat, m: map<K, Entry<K>>, e: Entry<K>, k: nat,
                      key: K)
    requires size > 0 && |chains| == size && Represents(chains, size, h, m)
    requires var c := chains[e.hash % size]; k < |c| && c[k] == e
    requires key in m && key != e.key
    ensures m[key] in chains[e.hash % size := Drop(chains[e.hash % size], k)][h(key) % size]
  {
    var c, j := chains[e.hash % size], h(key) % size;
    assert m[key] in chains[j] && m[key] != e;
    if j == e.hash % size {
      var n :| 0 <= n < |c| && c[n] == m[key];
      assert Drop(c, k)[if n < k then n else n - 1] == m[key];
    }
  }

  /** Removing an entry removes its key. */
  lemma RemoveRefines<K>(chains: seq<seq<Entry<K>>>, size: nat, h: K -> nat, m: map<K, Entry<K>>, e: Entry<K>, k: nat)
    requires size > 0 && |chains| == size && Represents(chains, size, h, m)
    requires var c := chains[e.hash % size]; NoDup(c) && k < |c| && c[k] == e
    ensures var i := e.hash % size; Represents(chains[i := Drop(chains[i], k)], size, h, m - {e.key})
  {
    var i := e.hash % size;
    var c := chains[i];
    var chains': seq<seq<Entry<K>>> := chains[i := Drop(c, k)];
    var m' := m - {e.key};
    assert e == chains[i][k];
    forall key | key in m'
      ensures m'[key].key == key && m'[key] in chains'[h(key) % size]
    {
      StillThere(chains, size, h, m, e, k, key);
    }
    forall j, n | 0 <= j < size && 0 <= n < |chains'[j]|
      ensures var d: Entry<K> := chains'[j][n]; d.hash == h(d.key) && d.hash % size == j && d.key in m'
                                                && m'[d.key] == d
    {
      var n' := if j == i && n >= k then n + 1 else n;
      assert chains'[j][n] == chains[j][n'];
    }
  }
}
