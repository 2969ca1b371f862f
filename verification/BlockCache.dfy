/** The file block cache on values: which bytes a block holds, how the block map and the buffers'
    indices invert each other, and what least-recently-used order means. */
module BlockCache {
  import opened Sequences

  type byte = bv8

  /** One buffered block. The data buffer is allocated with it and never replaced. */
  class FileBlockBuffer {
    var arrayIndex: int
    var fillSize: nat
    const data: array<byte>

    /** FileBlockBuffer and AllocateBuffer. */
    constructor (size: nat)
      ensures arrayIndex == -1 && fillSize == 0 && fresh(data) && data.Length == size
    {
      arrayIndex, fillSize := -1, 0;
      data := new byte[size](_ => 0);
    }
  }

  /** The fields of a buffer. */
  datatype Block = Block(index: int, fill: nat, data: seq<byte>)

  type Snapshot = map<FileBlockBuffer, Block>

  // ---------- Block arithmetic ----------

  /** GetBuffOffset. */
  function Start(i: nat, bs: nat): nat
  {
    i * bs
  }

  lemma StartNext(i: nat, bs: nat)
    ensures Start(i + 1, bs) == Start(i, bs) + bs
  {
  }

  /** GetBuffIndex is the block that contains the position. */
  lemma IndexOf(p: nat, bs: nat)
    requires bs > 0
    ensures Start(p / bs, bs) <= p < Start(p / bs, bs) + bs
  {
  }

  lemma {:induction false} StartMonotone(i: nat, j: nat, bs: nat)
    requires i <= j
    ensures Start(i, bs) <= Start(j, bs)
    ensures i < j ==> Start(i, bs) + bs <= Start(j, bs)
    decreases j - i
  {
    if i < j {
      StartMonotone(i + 1, j, bs);
      StartNext(i, bs);
    }
  }

  /** What a read of len bytes at p gives: short only at the end of the file. */
  function Slice(file: seq<byte>, p: nat, len: nat): (r: seq<byte>)
    ensures |r| <= len
  {
    if p >= |file| then [] else if p + len <= |file| then file[p..p + len] else file[p..]
  }

  /** A buffer's contents with r written at offset o. */
  function Splice(old_: seq<byte>, o: nat, r: seq<byte>): seq<byte>
    requires o + |r| <= |old_|
  {
    old_[..o] + r + old_[o + |r|..]
  }

  /** Byte by byte: what a read gives, and what a buffer holds after it. */
  lemma SliceExact(file: seq<byte>, p: nat, len: nat, before: seq<byte>)
    requires len <= |before|
    ensures var r := Slice(file, p, len);
            && |r| == (if p >= |file| then 0 else if len <= |file| - p then len else |file| - p)
            && (forall k :: 0 <= k < |r| ==> r[k] == file[p + k])
            && |Splice(before, 0, r)| == |before|
            && forall k :: 0 <= k < |before| ==> Splice(before, 0, r)[k] == if k < |r| then file[p + k] else before[k]
  {
  }

  /** Writing one piece after the other writes both. */
  lemma SpliceTwice(s: seq<byte>, o: nat, a: seq<byte>, b: seq<byte>)
    requires o + |a| + |b| <= |s|
    ensures Splice(Splice(s, o, a), o + |a|, b) == Splice(s, o, a + b)
  {
  }

  lemma SliceTwice(file: seq<byte>, p: nat, a: nat, b: nat)
    requires p + a <= |file|
    ensures Slice(file, p, a) + Slice(file, p + a, b) == Slice(file, p, a + b)
  {
  }

  // ---------- Block map and buffers ----------

  lemma NoDupTail<T>(q: seq<T>, k: nat)
    requires NoDup(q) && k <= |q|
    ensures NoDup(q[k..])
  {
  }

  lemma NoDupAppend<T>(q: seq<T>, x: T)
    requires NoDup(q) && x !in q
    ensures NoDup(q + [x])
  {
  }

  /** The buffer's index leads back to it. */
  ghost predicate Listed(m: Snapshot, a: seq<FileBlockBuffer?>, b: FileBlockBuffer)
  {
    b in m && 0 <= m[b].index < |a| && a[m[b].index] == b
  }

  /** The slot is empty, or its buffer is queued and has this index. */
  ghost predicate Mapped(m: Snapshot, q: seq<FileBlockBuffer>, a: seq<FileBlockBuffer?>, i: int)
    requires 0 <= i < |a|
  {
    a[i] != null ==> a[i] in q && a[i] in m && m[a[i]].index == i
  }

  /** Block map and buffer indices are inverse to each other on the queued buffers. */
  ghost predicate Inverse(m: Snapshot, q: seq<FileBlockBuffer>, a: seq<FileBlockBuffer?>)
  {
    && NoDup(q)
    && (forall b {:trigger Listed(m, a, b)} :: b in q ==> Listed(m, a, b))
    && (forall i {:trigger Mapped(m, q, a, i)} :: 0 <= i < |a| ==> Mapped(m, q, a, i))
  }

  /** The block holds the file's bytes. */
  ghost predicate Holds(file: seq<byte>, bs: nat, b: Block)
  {
    b.index >= 0 && b.fill <= |b.data| == bs && b.data[..b.fill] == Slice(file, Start(b.index, bs), bs)
  }

  /** Every queued buffer holds its block, but for the one of block `dirty`, which is to be filled. */
  ghost predicate Filled(file: seq<byte>, bs: nat, m: Snapshot, q: seq<FileBlockBuffer>, dirty: int)
  {
    forall b {:trigger Fits(file, bs, m, b, dirty)} :: b in q ==> Fits(file, bs, m, b, dirty)
  }

  ghost predicate Fits(file: seq<byte>, bs: nat, m: Snapshot, b: FileBlockBuffer, dirty: int)
  {
    b in m && |m[b].data| == bs && m[b].index >= 0 && (m[b].index != dirty ==> Holds(file, bs, m[b]))
  }

  /** Moving a buffer to the tail changes nothing else. */
  lemma InverseTouch(m: Snapshot, q: seq<FileBlockBuffer>, a: seq<FileBlockBuffer?>, b: FileBlockBuffer)
    requires Inverse(m, q, a) && b in q
    ensures var q' := WithoutAll(q, b) + [b]; Inverse(m, q', a) && |q'| == |q|
  {
    WithoutAllNoDup(q, b);
    WithoutAllMembers(q, b);
    var q' := WithoutAll(q, b) + [b];
    assert forall c :: c in q' <==> c in WithoutAll(q, b) || c == b;
    forall i | 0 <= i < |a|
      ensures Mapped(m, q', a, i)
    {
      assert Mapped(m, q, a, i);
    }
    forall c | c in q'
      ensures Listed(m, a, c)
    {
      assert c in WithoutAll(q, b) || c == b;
      WithoutAllMember(q, b, c);
    }
    NoDupAppend(WithoutAll(q, b), b);
  }

  /** Dropping the head of the queue empties its slot. */
  lemma InverseDrop(m: Snapshot, q: seq<FileBlockBuffer>, a: seq<FileBlockBuffer?>)
    requires Inverse(m, q, a) && |q| > 0
    ensures Listed(m, a, q[0]) && Inverse(m, q[1..], a[m[q[0]].index := null]) && q[0] !in q[1..]
  {
    var b, q' := q[0], q[1..];
    assert Listed(m, a, b);
    var a' := a[m[b].index := null];
    forall i | 0 <= i < |a'|
      ensures Mapped(m, q', a', i)
    {
      assert Mapped(m, q, a, i);
    }
    forall c | c in q'
      ensures Listed(m, a', c)
    {
      assert c in q && Listed(m, a, c) && c != b;
    }
  }

  /** A buffer not queued takes an empty slot and the tail. */
  lemma InverseAdd(m: Snapshot, m': Snapshot, q: seq<FileBlockBuffer>, a: seq<FileBlockBuffer?>, b: FileBlockBuffer,
                   i: nat)
    requires Inverse(m, q, a) && b !in q && i < |a| && a[i] == null
    requires b in m' && m'[b].index == i && forall c :: c in q && c in m ==> c in m' && m'[c] == m[c]
    ensures Inverse(m', q + [b], a[i := b])
  {
    var q', a' := q + [b], a[i := b];
    forall j | 0 <= j < |a'|
      ensures Mapped(m', q', a', j)
    {
      assert Mapped(m, q, a, j);
    }
    forall c | c in q'
      ensures Listed(m', a', c)
    {
      if c != b {
        assert c in q && Listed(m, a, c);
      }
    }
  }

  lemma FilledKept(file: seq<byte>, bs: nat, m: Snapshot, q: seq<FileBlockBuffer>, m': Snapshot,
                   q': seq<FileBlockBuffer>, dirty: int)
    requires Filled(file, bs, m, q, -1)
    requires forall c :: c in q' ==> (c in q && c in m && c in m' && m'[c] == m[c])
                                     || (c in m' && m'[c].index == dirty >= 0 && |m'[c].data| == bs)
    ensures Filled(file, bs, m', q', dirty)
  {
    forall c | c in q'
      ensures Fits(file, bs, m', c, dirty)
    {
      assert c in q ==> Fits(file, bs, m, c, -1);
    }
  }

  // ---------- Least recently used ----------

  /** The distinct elements of a history, in the order of their last use. */
  function Recency(h: seq<int>): seq<int>
  {
    if h == [] then [] else WithoutAll(Recency(h[..|h| - 1]), h[|h| - 1]) + [h[|h| - 1]]
  }

  ghost predicate Suffix<T>(s: seq<T>, r: seq<T>)
  {
    |s| <= |r| && r[|r| - |s|..] == s
  }

  function Trim<T>(s: seq<T>, limit: nat): seq<T>
  {
    if |s| > limit then s[|s| - limit..] else s
  }

  /** The cached indices after a use of block i under a limit. */
  function Touched(s: seq<int>, limit: nat, i: int): seq<int>
  {
    var t := Trim(s, limit);
    if i in t then WithoutAll(t, i) + [i]
    else if |t| < limit then t + [i]
    else if |t| > 0 then t[1..] + [i]
    else []
  }

  /** The cached indices after a use of each of these blocks in turn. */
  function TouchedAll(s: seq<int>, limit: nat, blocks: seq<int>): seq<int>
    decreases |blocks|
  {
    if blocks == [] then s
    else Touched(TouchedAll(s, limit, blocks[..|blocks| - 1]), limit, blocks[|blocks| - 1])
  }

  lemma TouchedNone(s: seq<int>, limit: nat)
    ensures TouchedAll(s, limit, []) == s
  {
  }

  lemma TouchedNext(s: seq<int>, limit: nat, blocks: seq<int>, i: int)
    ensures TouchedAll(s, limit, blocks + [i]) == Touched(TouchedAll(s, limit, blocks), limit, i)
  {
    assert (blocks + [i])[..|blocks|] == blocks;
  }

  /** n blocks from block `first` on. */
  function BlocksFrom(first: int, n: nat): (r: seq<int>)
    ensures |r| == n
  {
    seq(n, k => first + k)
  }

  lemma BlocksNext(first: int, n: nat)
    ensures BlocksFrom(first, 0) == [] && BlocksFrom(first, n + 1) == BlocksFrom(first, n) + [first + n]
  {
  }

  lemma {:induction false} WithoutConcat<T>(a: seq<T>, b: seq<T>, x: T)
    ensures WithoutAll(a + b, x) == WithoutAll(a, x) + WithoutAll(b, x)
  {
    if a == [] {
      assert a + b == b;
    } else {
      assert (a + b)[0] == a[0] && (a + b)[1..] == a[1..] + b;
      WithoutConcat(a[1..], b, x);
    }
  }

  lemma {:induction false} RecencyNoDup(h: seq<int>)
    ensures NoDup(Recency(h))
  {
    if h != [] {
      RecencyNoDup(h[..|h| - 1]);
      WithoutAllMembers(Recency(h[..|h| - 1]), h[|h| - 1]);
      WithoutAllNoDup(Recency(h[..|h| - 1]), h[|h| - 1]);
      NoDupAppend(WithoutAll(Recency(h[..|h| - 1]), h[|h| - 1]), h[|h| - 1]);
    }
  }

  /** Whatever the limit, the cache holds the most recently used blocks, in order of last use. */
  lemma TouchedRecent(h: seq<int>, s: seq<int>, limit: nat, i: int)
    requires Suffix(s, Recency(h))
    ensures var s' := Touched(s, limit, i);
            && (limit > 0 ==> Suffix(s', Recency(h + [i])) && |s'| > 0 && s'[|s'| - 1] == i)
            && |s'| <= limit
  {
    var r, t := Recency(h), Trim(s, limit);
    assert (h + [i])[..|h|] == h;
    RecencyNoDup(h);
    hide WithoutAll;
    TrimRecent(s, r, limit);
    UseRecent(r, t, limit, i);
  }

  lemma TrimRecent(s: seq<int>, r: seq<int>, limit: nat)
    requires Suffix(s, r) && NoDup(r)
    ensures Suffix(Trim(s, limit), r) && NoDup(Trim(s, limit)) && |Trim(s, limit)| <= limit
  {
    NoDupTail(r, |r| - |Trim(s, limit)|);
  }

  lemma UseRecent(r: seq<int>, t: seq<int>, limit: nat, i: int)
    requires Suffix(t, r) && NoDup(t) && |t| <= limit
    ensures var s' := if i in t then WithoutAll(t, i) + [i]
                                     else if |t| < limit then t + [i] else if |t| > 0 then t[1..] + [i] else [];
            && (limit > 0 ==> Suffix(s', WithoutAll(r, i) + [i]) && |s'| > 0 && s'[|s'| - 1] == i)
            && |s'| <= limit
  {
    if i in t {
      UsedAgain(r, t, i);
    } else if |t| < limit {
      UsedNew(r, t, i);
    } else if |t| > 0 {
      SuffixTail(t, r, 1);
      UsedNew(r, t[1..], i);
    }
  }

  lemma SuffixTail(s: seq<int>, r: seq<int>, k: nat)
    requires Suffix(s, r) && k <= |s|
    ensures Suffix(s[k..], r)
  {
  }

  lemma UsedAgain(r: seq<int>, t: seq<int>, i: int)
    requires Suffix(t, r) && NoDup(t) && i in t
    ensures Suffix(WithoutAll(t, i) + [i], WithoutAll(r, i) + [i]) && |WithoutAll(t, i)| == |t| - 1
  {
    var k := |r| - |t|;
    assert r == r[..k] + t;
    WithoutConcat(r[..k], t, i);
    WithoutAllNoDup(t, i);
  }

  lemma UsedNew(r: seq<int>, t: seq<int>, i: int)
    requires Suffix(t, r) && i !in t
    ensures Suffix(t + [i], WithoutAll(r, i) + [i])
  {
    var k := |r| - |t|;
    assert r == r[..k] + t;
    WithoutConcat(r[..k], t, i);
    WithoutAllMembers(t, i);
  }

  // ---------- The cached indices ----------

  /** The block indices of the queued buffers, oldest first. */
  ghost function Indices(m: Snapshot, q: seq<FileBlockBuffer>): seq<int>
  {
    seq(|q|, k requires 0 <= k < |q| => if q[k] in m then m[q[k]].index else -1)
  }

  /** A block is cached exactly when its slot is taken. */
  lemma IndicesIn(m: Snapshot, q: seq<FileBlockBuffer>, a: seq<FileBlockBuffer?>, i: nat)
    requires Inverse(m, q, a) && i < |a|
    ensures i in Indices(m, q) <==> a[i] != null
    ensures a[i] != null ==> a[i] in q && a[i] in m && m[a[i]].index == i
  {
    assert Mapped(m, q, a, i);
    var s := Indices(m, q);
    forall k | 0 <= k < |s| && s[k] == i
      ensures a[i] != null
    {
      assert q[k] in q && Listed(m, a, q[k]);
    }
    if a[i] != null {
      var k :| 0 <= k < |q| && q[k] == a[i];
      assert s[k] == i;
    }
  }

  lemma IndicesUp(m: Snapshot, m': Snapshot, q: seq<FileBlockBuffer>, b: FileBlockBuffer, i: int)
    requires forall c :: c in q ==> c in m && c in m' && m'[c] == m[c]
    requires b in m' && m'[b].index == i
    ensures Indices(m', q + [b]) == Indices(m, q) + [i]
  {
    assert forall k :: 0 <= k < |q| ==> (q + [b])[k] == q[k] && q[k] in q;
  }

  lemma {:induction false} IndicesWithout(m: Snapshot, q: seq<FileBlockBuffer>, b: FileBlockBuffer)
    requires b in m && forall c :: c in q ==> c in m && (m[c].index == m[b].index ==> c == b)
    ensures Indices(m, WithoutAll(q, b)) == WithoutAll(Indices(m, q), m[b].index)
  {
    if q != [] {
      IndicesWithout(m, q[1..], b);
      var s := Indices(m, q);
      assert q[0] in q && s[1..] == Indices(m, q[1..]);
      var w := WithoutAll(q[1..], b);
      assert Indices(m, [q[0]] + w) == [s[0]] + Indices(m, w);
    }
  }

  /** A use of a cached block. */
  lemma IndicesTouch(m: Snapshot, q: seq<FileBlockBuffer>, a: seq<FileBlockBuffer?>, b: FileBlockBuffer)
    requires Inverse(m, q, a) && b in q
    ensures b in m && Indices(m, WithoutAll(q, b) + [b]) == WithoutAll(Indices(m, q), m[b].index) + [m[b].index]
  {
    assert Listed(m, a, b);
    forall c | c in q
      ensures c in m && (m[c].index == m[b].index ==> c == b)
    {
      assert Listed(m, a, c);
    }
    IndicesWithout(m, q, b);
    WithoutAllMembers(q, b);
    forall c | c in WithoutAll(q, b)
      ensures c in m
    {
      WithoutAllMember(q, b, c);
    }
    IndicesUp(m, m, WithoutAll(q, b), b, m[b].index);
  }

  lemma {:induction false} WithoutLast<T>(q: seq<T>)
    requires NoDup(q) && |q| > 0
    ensures var b := q[|q| - 1]; WithoutAll(q, b) + [b] == q
  {
    var b := q[|q| - 1];
    assert q == q[..|q| - 1] + [b];
    WithoutConcat(q[..|q| - 1], [b], b);
    WithoutAllMembers(q[..|q| - 1], b);
  }

  // ---------- The cache as a whole ----------

  /** The cache of a file: map and buffers invert each other, every buffer but the dirty one holds
      its block, and the queue is in the order of last use. */
  ghost predicate Coherent(file: seq<byte>, bs: nat, m: Snapshot, q: seq<FileBlockBuffer>, a: seq<FileBlockBuffer?>,
                           dirty: int, h: seq<int>)
  {
    Inverse(m, q, a) && Filled(file, bs, m, q, dirty) && Suffix(Indices(m, q), Recency(h))
  }

  /** The least recently used buffer goes. */
  lemma Evicted(file: seq<byte>, bs: nat, m: Snapshot, q: seq<FileBlockBuffer>, a: seq<FileBlockBuffer?>, h: seq<int>)
    requires Coherent(file, bs, m, q, a, -1, h) && |q| > 0
    ensures q[0] in m && 0 <= m[q[0]].index < |a|
    ensures Coherent(file, bs, m, q[1..], a[m[q[0]].index := null], -1, h)
            && Indices(m, q[1..]) == Indices(m, q)[1..] && q[0] !in q[1..]
  {
    hide Holds, Recency;
    QueuedKnown(m, q, a);
    InverseDrop(m, q, a);
    FilledKept(file, bs, m, q, m, q[1..], -1);
  }

  /** A use of a cached block. */
  lemma Hit(file: seq<byte>, bs: nat, m: Snapshot, q: seq<FileBlockBuffer>, a: seq<FileBlockBuffer?>, h: seq<int>,
            b: FileBlockBuffer, i: nat, limit: nat)
    requires Coherent(file, bs, m, q, a, -1, h) && i < |a| && a[i] == b && |q| <= limit
    ensures b in q && b in m && m[b].index == i
    ensures var q' := WithoutAll(q, b) + [b];
            Coherent(file, bs, m, q', a, -1, h + [i]) && Indices(m, q') == Touched(Indices(m, q), limit, i)
                && |q'| == |q|
  {
    hide Holds, Recency, WithoutAll, Touched, Mapped, Listed, Suffix;
    IndicesIn(m, q, a, i);
    QueuedKnown(m, q, a);
    InverseTouch(m, q, a, b);
    IndicesTouch(m, q, a, b);
    forall c | c in WithoutAll(q, b) + [b]
      ensures c in q
    {
      WithoutAllMember(q, b, c);
    }
    FilledKept(file, bs, m, q, m, WithoutAll(q, b) + [b], -1);
    TouchedHit(Indices(m, q), limit, i);
    TouchedRecent(h, Indices(m, q), limit, i);
  }

  lemma QueuedKnown(m: Snapshot, q: seq<FileBlockBuffer>, a: seq<FileBlockBuffer?>)
    requires Inverse(m, q, a)
    ensures forall c :: c in q ==> c in m
  {
    forall c | c in q
      ensures c in m
    {
      assert Listed(m, a, c);
    }
  }

  lemma TouchedHit(s: seq<int>, limit: nat, i: int)
    requires |s| <= limit && i in s
    ensures Touched(s, limit, i) == WithoutAll(s, i) + [i]
  {
  }

  /** A buffer not queued takes block i, which is not cached. */
  lemma Taken(file: seq<byte>, bs: nat, m: Snapshot, m': Snapshot, q: seq<FileBlockBuffer>, a: seq<FileBlockBuffer?>,
              h: seq<int>,
              b: FileBlockBuffer, i: nat)
    requires Coherent(file, bs, m, q, a, -1, h) && i < |a| && a[i] == null && b !in q
    requires b in m' && m'[b].index == i && |m'[b].data| == bs
             && forall c :: c in q && c in m ==> c in m' && m'[c] == m[c]
    ensures Inverse(m', q + [b], a[i := b]) && Filled(file, bs, m', q + [b], i)
            && Indices(m', q + [b]) == Indices(m, q) + [i]
    ensures i !in Indices(m, q)
  {
    hide Holds, Recency;
    IndicesIn(m, q, a, i);
    InverseAdd(m, m', q, a, b, i);
    forall c | c in q
      ensures c in m
    {
      assert Listed(m, a, c);
    }
    FilledKept(file, bs, m, q, m', q + [b], i);
    IndicesUp(m, m', q, b, i);
  }

  /** Below the limit a new buffer takes block i. */
  lemma Grown(file: seq<byte>, bs: nat, m: Snapshot, m': Snapshot, q: seq<FileBlockBuffer>, a: seq<FileBlockBuffer?>,
              h: seq<int>,
              b: FileBlockBuffer, i: nat, limit: nat)
    requires Coherent(file, bs, m, q, a, -1, h) && i < |a| && a[i] == null && b !in q && |q| < limit
    requires b in m' && m'[b].index == i && |m'[b].data| == bs
             && forall c :: c in q && c in m ==> c in m' && m'[c] == m[c]
    ensures Coherent(file, bs, m', q + [b], a[i := b], i, h + [i])
            && Indices(m', q + [b]) == Touched(Indices(m, q), limit, i)
  {
    Taken(file, bs, m, m', q, a, h, b, i);
    TouchedRecent(h, Indices(m, q), limit, i);
  }

  /** At the limit the least recently used buffer takes block i. */
  lemma Reused(file: seq<byte>, bs: nat, m: Snapshot, m': Snapshot, q: seq<FileBlockBuffer>,
               a: seq<FileBlockBuffer?>, h: seq<int>, i: nat, limit: nat)
    requires Coherent(file, bs, m, q, a, -1, h) && i < |a| && a[i] == null && |q| == limit > 0
    requires q[0] in m && m' == m[q[0] := m[q[0]].(index := i)]
    ensures var b := q[0]; var q' := q[1..] + [b];
            && 0 <= m[b].index < |a| && m[b].index != i
            && Coherent(file, bs, m', q', a[m[b].index := null][i := b], i, h + [i])
               && Indices(m', q') == Touched(Indices(m, q), limit, i)
  {
    var b := q[0];
    Evicted(file, bs, m, q, a, h);
    assert Fits(file, bs, m, b, -1);
    IndicesIn(m, q, a, i);
    assert Listed(m, a, b);
    Taken(file, bs, m, m', q[1..], a[m[b].index := null], h, b, i);
    TouchedRecent(h, Indices(m, q), limit, i);
  }

  /** The dirty buffer now holds its block too. */
  lemma Cleaned(file: seq<byte>, bs: nat, m: Snapshot, m': Snapshot, q: seq<FileBlockBuffer>,
                a: seq<FileBlockBuffer?>, h: seq<int>,
                b: FileBlockBuffer, i: nat)
    requires Coherent(file, bs, m, q, a, i, h) && b in m && m[b].index == i && i < |a| && a[i] == b
    requires b in m' && m' == m[b := m'[b]] && m'[b].index == i && Holds(file, bs, m'[b])
    ensures Coherent(file, bs, m', q, a, -1, h) && Indices(m', q) == Indices(m, q)
  {
    hide Holds, Recency;
    forall c | c in q
      ensures Listed(m', a, c) && Fits(file, bs, m', c, -1)
    {
      assert Listed(m, a, c) && Fits(file, bs, m, c, i);
      assert |m'[b].data| == bs by { HoldsSize(file, bs, m'[b]); }
    }
    forall k | 0 <= k < |a|
      ensures Mapped(m', q, a, k)
    {
      assert Mapped(m, q, a, k);
    }
    assert Indices(m', q) == Indices(m, q);
  }

  lemma HoldsSize(file: seq<byte>, bs: nat, b: Block)
    requires Holds(file, bs, b)
    ensures |b.data| == bs
  {
  }

  lemma BlockInFile(len: nat, bs: nat, i: nat)
    requires bs > 0 && i < len / bs + 1
    ensures Start(i, bs) <= len
  {
    IndexOf(len, bs);
    StartMonotone(i, len / bs, bs);
  }

  lemma DirtySize(file: seq<byte>, bs: nat, m: Snapshot, q: seq<FileBlockBuffer>, a: seq<FileBlockBuffer?>,
                  dirty: int, h: seq<int>, b: FileBlockBuffer)
    requires Coherent(file, bs, m, q, a, dirty, h) && b in q
    ensures b in m && |m[b].data| == bs
  {
    assert Fits(file, bs, m, b, dirty);
  }

  lemma CleanHolds(file: seq<byte>, bs: nat, m: Snapshot, q: seq<FileBlockBuffer>, a: seq<FileBlockBuffer?>,
                   h: seq<int>, b: FileBlockBuffer)
    requires Coherent(file, bs, m, q, a, -1, h) && b in q
    ensures b in m && m[b].index >= 0 && m[b].fill <= |m[b].data| == bs
    ensures m[b].data[..m[b].fill] == Slice(file, Start(m[b].index, bs), bs)
  {
    assert Fits(file, bs, m, b, -1);
  }

  // ---------- The copy loop ----------

  /** The blocks the loop visits: up to the end of the range and to the end of the map. */
  ghost predicate Visited(size: nat, bs: nat, pos: nat, len: nat, i: nat)
    requires bs > 0
  {
    i <= (pos + len) / bs && i <= size / bs
  }

  /** Where the copy loop stands before block i: rcv bytes from pos on are copied, the next byte is
      at buffPos in block i; past the last block, everything is copied. */
  ghost predicate Progress(size: nat, bs: nat, pos: nat, len: nat, i: nat, buffPos: nat, rcv: nat)
  {
    && bs > 0 && pos + rcv <= size && rcv <= len
    && (if Visited(size, bs, pos, len, i) then pos + rcv == Start(i, bs) + buffPos && buffPos < bs
        else rcv == if pos + len <= size then len else size - pos)
  }

  lemma ProgressStart(size: nat, bs: nat, pos: nat, len: nat)
    requires bs > 0 && pos < size
    ensures Visited(size, bs, pos, len, pos / bs)
    ensures forall i: nat :: Visited(size, bs, pos, len, i) <==> i <= (pos + len) / bs && i <= size / bs
    ensures Start(pos / bs, bs) <= pos && Progress(size, bs, pos, len, pos / bs, pos - Start(pos / bs, bs), 0)
  {
    IndexOf(pos, bs);
    DivMonotone(pos, pos + len, bs);
    DivMonotone(pos, size, bs);
  }

  lemma DivMonotone(a: nat, b: nat, bs: nat)
    requires bs > 0 && a <= b
    ensures a / bs <= b / bs
  {
    if b / bs < a / bs {
      IndexOf(a, bs);
      IndexOf(b, bs);
      StartMonotone(b / bs, a / bs, bs);
    }
  }

  /** One turn that is not the early end: n more bytes are copied. */
  lemma ProgressStep(size: nat, bs: nat, pos: nat, len: nat, i: nat, buffPos: nat, rcv: nat, fill: nat, n: int)
    requires Progress(size, bs, pos, len, i, buffPos, rcv) && Visited(size, bs, pos, len, i)
    requires fill == if Start(i, bs) + bs <= size then bs else size - Start(i, bs)
    requires n == if len - rcv >= fill - buffPos then fill - buffPos else len - rcv
    ensures n >= 0 && Progress(size, bs, pos, len, i + 1, 0, rcv + n)
  {
    StartNext(i, bs);
    IndexOf(pos + len, bs);
    IndexOf(size, bs);
    StartMonotone(i, size / bs, bs);
    StartMonotone(i, (pos + len) / bs, bs);
    hide Start;
  }

  lemma SliceStart(file: seq<byte>, d: seq<byte>, pos: nat, len: nat)
    ensures Slice(file, pos, 0) == [] && Splice(d, 0, []) == d
    ensures pos >= |file| ==> Slice(file, pos, len) == []
  {
  }

  lemma SliceOfSlice(f: seq<byte>, s: nat, len: nat, p: nat, n: nat)
    requires s + len <= |f| && p + n <= len
    ensures f[s..s + len][p..p + n] == f[s + p..s + p + n]
  {
    var a, b := f[s..s + len], f[s + p..s + p + n];
    assert forall k :: 0 <= k < n ==> a[p..p + n][k] == a[p + k] == f[s + p + k] == b[k];
  }

  lemma SliceInside(file: seq<byte>, s: nat, len: nat, p: nat, n: nat)
    requires p + n <= |Slice(file, s, len)| && s + p <= |file|
    ensures Slice(file, s, len)[p..p + n] == Slice(file, s + p, n)
  {
    var b := Slice(file, s, len);
    if s < |file| {
      assert b == file[s..s + |b|];
      SliceOfSlice(file, s, |b|, p, n);
    }
  }

  /** The bytes of a block at hand, past buffPos, go where they belong. */
  lemma Copied(file: seq<byte>, bs: nat, d: seq<byte>, cur: seq<byte>, pos: nat, rcv: nat, i: nat, data: seq<byte>,
               fill: nat, p: nat, n: nat)
    requires rcv + n <= |d| && pos + rcv == Start(i, bs) + p && p + n <= fill <= |data| && pos + rcv <= |file|
    requires data[..fill] == Slice(file, Start(i, bs), bs)
    requires rcv == |Slice(file, pos, rcv)| && cur == Splice(d, 0, Slice(file, pos, rcv))
    ensures |cur| == |d| && Splice(cur, rcv, data[p..p + n]) == Splice(d, 0, Slice(file, pos, rcv + n))
  {
    hide Start;
    var piece := data[p..p + n];
    assert piece == data[..fill][p..p + n];
    assert piece == Slice(file, pos + rcv, n) by { SliceInside(file, Start(i, bs), bs, p, n); }
    SliceTwice(file, pos, rcv, n);
    SpliceTwice(d, 0, Slice(file, pos, rcv), piece);
  }

  /** How many bytes block i holds. */
  lemma BlockSize(file: seq<byte>, bs: nat, pos: nat, len: nat, i: nat, buffPos: nat, rcv: nat)
    requires Progress(|file|, bs, pos, len, i, buffPos, rcv) && Visited(|file|, bs, pos, len, i)
    ensures |Slice(file, Start(i, bs), bs)| == if Start(i, bs) + bs <= |file| then bs else |file| - Start(i, bs)
    ensures pos + rcv == Start(i, bs) + buffPos && pos + rcv <= |file| && |Slice(file, pos, rcv)| == rcv
  {
    BlockInFile(|file|, bs, i);
    hide Start;
  }

  /** No block comes after one that the file ends in. */
  lemma LastVisited(size: nat, bs: nat, pos: nat, len: nat, i: nat)
    requires bs > 0 && Start(i, bs) + bs > size
    ensures !Visited(size, bs, pos, len, i + 1)
  {
    StartNext(i, bs);
    IndexOf(size, bs);
    if i + 1 <= size / bs {
      StartMonotone(i + 1, size / bs, bs);
    }
  }

  /** A block shorter than what is still wanted is the last of the file. */
  lemma ProgressEnd(file: seq<byte>, bs: nat, pos: nat, len: nat, i: nat, rcv: nat)
    requires pos < |file| && rcv < len && pos + rcv == |file|
    ensures rcv == |Slice(file, pos, len)| && Slice(file, pos, rcv) == Slice(file, pos, len)
  {
  }

  lemma ProgressDone(file: seq<byte>, bs: nat, pos: nat, len: nat, i: nat, buffPos: nat, rcv: nat)
    requires bs > 0 && pos < |file| && rcv <= len
    requires (Progress(|file|, bs, pos, len, i, buffPos, rcv) && !Visited(|file|, bs, pos, len, i))
             || rcv == |Slice(file, pos, len)|
    ensures rcv == |Slice(file, pos, len)| && Slice(file, pos, rcv) == Slice(file, pos, len)
  {
    hide Start;
  }

  lemma EmptyCoherent(file: seq<byte>, bs: nat, m: Snapshot, a: seq<FileBlockBuffer?>, h: seq<int>)
    requires forall i :: 0 <= i < |a| ==> a[i] == null
    ensures Coherent(file, bs, m, [], a, -1, h)
  {
  }

  lemma TouchedTrim(s: seq<int>, limit: nat, i: int)
    ensures Touched(Trim(s, limit), limit, i) == Touched(s, limit, i)
    ensures |Touched(s, limit, i)| <= limit
  {
    WithoutShorter(Trim(s, limit), i);
  }

  lemma {:induction false} WithoutShorter(s: seq<int>, i: int)
    ensures |WithoutAll(s, i)| <= |s| && (i in s ==> |WithoutAll(s, i)| < |s|)
  {
    if s != [] {
      WithoutShorter(s[1..], i);
    }
  }

  /** The queue after MarkUsed. */
  function Used<T(==)>(q: seq<T>, b: T): seq<T>
  {
    if |q| > 0 && q[|q| - 1] == b then q else WithoutAll(q, b) + [b]
  }

  lemma UsedCached<T>(q: seq<T>, b: T)
    requires NoDup(q) && b in q
    ensures Used(q, b) == WithoutAll(q, b) + [b]
  {
    if q[|q| - 1] == b {
      WithoutLast(q);
    }
  }

  lemma UsedTail<T>(q: seq<T>, b: T)
    ensures Used(q + [b], b) == q + [b]
  {
  }

  lemma UsedAbsent<T>(q: seq<T>, b: T)
    requires b !in q
    ensures Used(q, b) == q + [b]
  {
    WithoutAllMembers(q, b);
  }

  lemma NoDupHead<T>(q: seq<T>)
    requires NoDup(q) && |q| > 0
    ensures q[0] !in q[1..]
  {
  }

  lemma CachedSlots(file: seq<byte>, bs: nat, m: Snapshot, q: seq<FileBlockBuffer>, a: seq<FileBlockBuffer?>,
                    h: seq<int>, i: nat)
    requires Coherent(file, bs, m, q, a, -1, h) && i < |a|
    ensures i in Indices(m, q) <==> a[i] != null
    ensures a[i] != null ==> a[i] in q && a[i] in m && m[a[i]].index == i
    ensures |Indices(m, q)| == |q|
    ensures forall k :: 0 <= k < |q| ==> q[k] in m && 0 <= m[q[k]].index < |a|
    ensures |q| == 0 ==> a[i] == null
    ensures NoDup(q)
  {
    IndicesIn(m, q, a, i);
    forall k | 0 <= k < |q|
      ensures q[k] in m && 0 <= m[q[k]].index < |a|
    {
      assert q[k] in q && Listed(m, a, q[k]);
    }
  }
}
