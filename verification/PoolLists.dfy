/** The segregated free lists of a pool, the absence of adjacent free blocks, and the sums the
    pool's counters stand for. */
module PoolLists {
  import opened Sequences
  import opened PoolLayout
  import opened PoolTiling

  type Buckets = seq<seq<int>>

  // ---------- Free lists ----------

  /** Blocks in `skip` are out of the lists for the moment. */
  ghost predicate Listed(bk: Buckets, m: Blocks, skip: set<int>, b: int)
    requires |bk| == 8
  {
    b in m && m[b].status.Free? && b !in skip ==> b in bk[Bucket(m[b].size)]
  }

  ghost predicate OnlyFree(bk: Buckets, m: Blocks, skip: set<int>, i: int, b: int)
    requires |bk| == 8
  {
    0 <= i < 8 && b in bk[i] ==>
      b in m && m[b].status.Free? && b !in skip && Bucket(m[b].size) == i
  }

  /** List i holds exactly the free blocks of class i. */
  ghost predicate Lists(bk: Buckets, m: Blocks, skip: set<int>)
  {
    && |bk| == 8
    && (forall i :: 0 <= i < 8 ==> NoDup(bk[i]))
    && (forall b {:trigger Listed(bk, m, skip, b)} :: Listed(bk, m, skip, b))
    && (forall i, b {:trigger OnlyFree(bk, m, skip, i, b)} :: OnlyFree(bk, m, skip, i, b))
  }

  function Unlinked(bk: Buckets, b: int): Buckets
    requires |bk| == 8
  {
    seq(8, i requires 0 <= i < 8 => Without(bk[i], b))
  }

  function Inserted(bk: Buckets, i: int, b: int): Buckets
    requires |bk| == 8 && 0 <= i < 8
  {
    bk[i := [b] + bk[i]]
  }

  lemma ListsUnlink(bk: Buckets, m: Blocks, skip: set<int>, x: int)
    requires Lists(bk, m, skip)
    ensures Lists(Unlinked(bk, x), m, skip + {x})
  {
    var bk' := Unlinked(bk, x);
    forall i | 0 <= i < 8
      ensures NoDup(bk'[i]) && forall y :: y in bk'[i] <==> y in bk[i] && y != x
    {
      WithoutMembers(bk[i], x);
    }
    forall b
      ensures Listed(bk', m, skip + {x}, b)
    {
      assert Listed(bk, m, skip, b);
    }
    forall i, b
      ensures OnlyFree(bk', m, skip + {x}, i, b)
    {
      assert OnlyFree(bk, m, skip, i, b);
    }
  }

  lemma ListsInsert(bk: Buckets, m: Blocks, skip: set<int>, x: int)
    requires Lists(bk, m, skip) && x in skip && x in m && m[x].status.Free?
    ensures Lists(Inserted(bk, Bucket(m[x].size), x), m, skip - {x})
  {
    var i := Bucket(m[x].size);
    var bk' := Inserted(bk, i, x);
    assert OnlyFree(bk, m, skip, i, x);
    forall j | 0 <= j < 8
      ensures NoDup(bk'[j])
    {
    }
    forall b
      ensures Listed(bk', m, skip - {x}, b)
    {
      assert Listed(bk, m, skip, b);
    }
    forall j, b
      ensures OnlyFree(bk', m, skip - {x}, j, b)
    {
      assert OnlyFree(bk, m, skip, j, b);
    }
  }

  /** The lists see only size and freedom of the blocks that are not skipped. */
  lemma ListsKept(bk: Buckets, m: Blocks, m': Blocks, skip: set<int>, skip': set<int>)
    requires Lists(bk, m, skip)
    requires forall b :: b in m && m[b].status.Free? && b !in skip ==>
                           b in m' && m'[b].status.Free? && m'[b].size == m[b].size && b !in skip'
    requires forall b :: b in m' && m'[b].status.Free? && b !in skip' ==>
                           b in m && m[b].status.Free? && b !in skip
    ensures Lists(bk, m', skip')
  {
    forall b
      ensures Listed(bk, m', skip', b)
    {
      assert Listed(bk, m, skip, b);
    }
    forall i, b
      ensures OnlyFree(bk, m', skip', i, b)
    {
      assert OnlyFree(bk, m, skip, i, b);
    }
  }

  // ---------- No two adjacent free blocks ----------

  ghost predicate HasNext(m: Blocks, b: int)
  {
    b in m && b + m[b].size < m[b].page + PAGESIZE && b + m[b].size in m
  }

  /** Pairs with a block in `skip` are exempt while it is being freed. */
  ghost predicate AdjOk(m: Blocks, skip: set<int>, b: int)
  {
    HasNext(m, b) && m[b].status.Free? && b !in skip && b + m[b].size !in skip ==>
      !m[b + m[b].size].status.Free?
  }

  ghost predicate Coalesced(m: Blocks, skip: set<int>)
  {
    forall b {:trigger AdjOk(m, skip, b)} :: AdjOk(m, skip, b)
  }

  /** Neither neighbour of b is free. */
  ghost predicate Enclosed(m: Blocks, b: int)
  {
    && b in m
    && (HasNext(m, b) ==> !m[b + m[b].size].status.Free?)
    && (m[b].prev != b && m[b].prev in m ==> !m[m[b].prev].status.Free?)
  }

  lemma CoalescedEnclosed(m: Blocks, pages: set<int>, x: int)
    requires Tiling(m, pages) && Coalesced(m, {x}) && Enclosed(m, x)
    ensures Coalesced(m, {})
  {
    forall b
      ensures AdjOk(m, {}, b)
    {
      assert AdjOk(m, {x}, b);
      assert b in m ==> BlockOk(m, pages, b);
    }
  }

  lemma CoalescedSetStatus(m: Blocks, b: int, status: Status)
    requires Coalesced(m, {}) && b in m
    ensures Coalesced(SetStatus(m, b, status), {b})
    ensures !status.Free? ==> Coalesced(SetStatus(m, b, status), {})
  {
    var m' := SetStatus(m, b, status);
    forall c
      ensures AdjOk(m', {b}, c)
      ensures !status.Free? ==> AdjOk(m', {}, c)
    {
      assert AdjOk(m, {}, c);
    }
  }

  lemma CoalescedSplit(m: Blocks, pages: set<int>, b: int, asize: int, status: Status)
    requires Tiling(m, pages) && Coalesced(m, {}) && b in m && m[b].status.Free? && !status.Free?
    requires BLOCK_MIN <= asize && asize + BLOCK_MIN <= m[b].size
    ensures Coalesced(Split(m, b, asize, status), {})
  {
    var m' := Split(m, b, asize, status);
    assert BlockOk(m, pages, b) && AdjOk(m, {}, b) && Apart(m, b, b + asize);
    forall c
      ensures AdjOk(m', {}, c)
    {
      assert AdjOk(m, {}, c);
      assert c in m ==> BlockOk(m, pages, c);
    }
  }

  /** After a merge only the pairs of the merged block are open. */
  lemma CoalescedMerge(m: Blocks, pages: set<int>, a: int, x: int)
    requires Tiling(m, pages) && Coalesced(m, {x}) && HasNext(m, a)
    requires x == a || x == a + m[a].size
    ensures Coalesced(Merge(m, a), {a})
  {
    var m' := Merge(m, a);
    assert BlockOk(m, pages, a) && BlockOk(m, pages, a + m[a].size);
    forall c
      ensures AdjOk(m', {a}, c)
    {
      assert AdjOk(m, {x}, c);
      assert c in m ==> BlockOk(m, pages, c);
    }
  }

  lemma CoalescedWithPage(m: Blocks, pages: set<int>, p: int)
    requires Tiling(m, pages) && Coalesced(m, {})
    requires forall q :: q in pages ==> q + PAGESIZE <= p || p + PAGESIZE <= q
    ensures Coalesced(WithPage(m, p), {})
  {
    var m' := WithPage(m, p);
    forall c
      ensures AdjOk(m', {}, c)
    {
      assert AdjOk(m, {}, c);
      assert c in m ==> BlockOk(m, pages, c);
    }
  }

  // ---------- Sums ----------

  ghost function Sum(m: map<int, int>): int
    decreases |m|
  {
    if k :| k in m then m[k] + Sum(m - {k}) else 0
  }

  /** The sum does not depend on the order in which the entries are taken. */
  lemma {:induction false} SumTake(m: map<int, int>, k: int)
    requires k in m
    ensures Sum(m) == m[k] + Sum(m - {k})
    decreases |m|
  {
    var j :| j in m && Sum(m) == m[j] + Sum(m - {j});
    if j != k {
      SumTake(m - {j}, k);
      SumTake(m - {k}, j);
      assert m - {j} - {k} == m - {k} - {j};
    }
  }

  lemma SumAdd(m: map<int, int>, k: int, v: int)
    requires k !in m
    ensures Sum(m[k := v]) == Sum(m) + v
  {
    SumTake(m[k := v], k);
    assert m[k := v] - {k} == m;
  }
}
