/** What splitting, freeing and coalescing do to the layout of a pool, on values. */
module PoolMoves {
  import opened Sequences
  import opened PoolLayout
  import opened PoolTiling
  import opened PoolLists

  // ---------- The invariant, on values ----------

  ghost predicate AlignedAt(m: Blocks, b: int)
  {
    b in m ==> b % 8 == 0 && m[b].size % 8 == 0
  }

  ghost predicate Aligned(m: Blocks)
  {
    forall b {:trigger AlignedAt(m, b)} :: AlignedAt(m, b)
  }

  ghost predicate LiveAt(m: Blocks, live: map<int, int>, b: int)
  {
    && (b in live <==> b in m && m[b].status.User?)
    && (b in live ==> live[b] == m[b].size)
  }

  /** `live` holds the user blocks with their sizes. */
  ghost predicate LiveOk(m: Blocks, live: map<int, int>)
  {
    forall b {:trigger LiveAt(m, live, b)} :: LiveAt(m, live, b)
  }

  /** Blocks, tags and free lists agree. */
  ghost predicate Layout(words: Words, m: Blocks, pages: set<int>, bk: Buckets, live: map<int, int>)
  {
    && Tiling(m, pages)
    && Tags(words, m, pages)
    && Aligned(m)
    && Lists(bk, m, {})
    && Coalesced(m, {})
    && LiveOk(m, live)
  }

  /** What gfs_mem_place makes of free block b. */
  ghost function Placed(m: Blocks, b: int, asize: int, status: Status): Blocks
    requires b in m
  {
    if m[b].size - asize >= BLOCK_MIN then Split(m, b, asize, status) else SetStatus(m, b, status)
  }

  ghost function PlacedLive(live: map<int, int>, m: Blocks, b: int, asize: int, status: Status): map<int, int>
    requires b in m
  {
    if status.User? then live[b := Placed(m, b, asize, status)[b].size] else live
  }

  lemma PlacedLayout(words: Words, words': Words, m: Blocks, pages: set<int>, bk: Buckets, bk': Buckets,
                     live: map<int, int>, b: int, asize: int, status: Status)
    requires Layout(words, m, pages, bk, live) && b in m && m[b].status.Free? && !status.Free?
    requires asize % 8 == 0 && BLOCK_MIN <= asize <= m[b].size
    requires status.Record? ==> b == m[b].page + DSIZE
    requires var rest := m[b].size - asize;
             if rest >= BLOCK_MIN then
               && bk' == Inserted(Unlinked(bk, b), Bucket(rest), b + asize)
               && words' == words[b - 8 := asize + 1][b + asize - 16 := asize + 1]
                                 [b + asize - 8 := rest][b + m[b].size - 16 := rest]
             else
               && bk' == Unlinked(bk, b)
               && words' == words[b - 8 := m[b].size + 1][b + m[b].size - 16 := m[b].size + 1]
    ensures Layout(words', Placed(m, b, asize, status), pages, bk', PlacedLive(live, m, b, asize, status))
    ensures SameOutside(words, words', b - 8, b + m[b].size - 8)
  {
    var rest := m[b].size - asize;
    var m' := Placed(m, b, asize, status);
    ListsUnlink(bk, m, {}, b);
    assert {} + {b} == {b};
    if rest >= BLOCK_MIN {
      TilingSplit(m, pages, b, asize, status);
      CoalescedSplit(m, pages, b, asize, status);
      ListsKept(Unlinked(bk, b), m, m', {b}, {b + asize});
      ListsInsert(Unlinked(bk, b), m', {b + asize}, b + asize);
      assert {b + asize} - {b + asize} == {};
    } else {
      TilingSetStatus(m, pages, b, status);
      CoalescedSetStatus(m, b, status);
      ListsKept(Unlinked(bk, b), m, m', {b}, {});
    }
    PlacedTags(words, words', m, pages, b, asize, status);
    PlacedLiveOk(m, pages, live, b, asize, status);
  }

  lemma PlacedTags(words: Words, words': Words, m: Blocks, pages: set<int>, b: int, asize: int, status: Status)
    requires Tiling(m, pages) && Tags(words, m, pages) && b in m && !status.Free?
    requires BLOCK_MIN <= asize <= m[b].size
    requires var rest := m[b].size - asize;
             if rest >= BLOCK_MIN then
               words' == words[b - 8 := asize + 1][b + asize - 16 := asize + 1]
                              [b + asize - 8 := rest][b + m[b].size - 16 := rest]
             else
               words' == words[b - 8 := m[b].size + 1][b + m[b].size - 16 := m[b].size + 1]
    ensures Tags(words', Placed(m, b, asize, status), pages)
    ensures SameOutside(words, words', b - 8, b + m[b].size - 8)
  {
    var m' := Placed(m, b, asize, status);
    forall c | c in m'
      ensures || TagOk(words', m', c)
              || (c in m && m[c].size == m'[c].size && Tag(m[c]) == Tag(m'[c])
                  && (c + m[c].size <= b || b + m[b].size <= c))
    {
      assert Apart(m, b, c) && Apart(m, c, b);
    }
    BlockInPage(m, pages, b);
    TagsKept(words, words', m, m', pages, b, b + m[b].size);
  }

  lemma PlacedLiveOk(m: Blocks, pages: set<int>, live: map<int, int>, b: int, asize: int, status: Status)
    requires Tiling(m, pages) && Aligned(m) && LiveOk(m, live) && b in m && m[b].status.Free? && !status.Free?
    requires asize % 8 == 0 && BLOCK_MIN <= asize <= m[b].size
    ensures LiveOk(Placed(m, b, asize, status), PlacedLive(live, m, b, asize, status))
    ensures Aligned(Placed(m, b, asize, status))
  {
    var m' := Placed(m, b, asize, status);
    var live' := PlacedLive(live, m, b, asize, status);
    assert Apart(m, b, b + asize);
    forall c
      ensures LiveAt(m', live', c)
    {
      assert LiveAt(m, live, c);
    }
    forall c
      ensures AlignedAt(m', c)
    {
      assert AlignedAt(m, c) && AlignedAt(m, b);
    }
  }

  // ---------- Coalescing, on values ----------

  ghost predicate NextFree(m: Blocks, b: int)
    requires b in m
  {
    HasNext(m, b) && m[b + m[b].size].status.Free?
  }

  ghost predicate PrevFree(m: Blocks, b: int)
    requires b in m
  {
    m[b].prev != b && m[b].prev in m && m[m[b].prev].status.Free?
  }

  ghost function JoinNext(m: Blocks, b: int): Blocks
    requires b in m
  {
    if NextFree(m, b) then Merge(m, b) else m
  }

  ghost function JoinPrev(m: Blocks, b: int): Blocks
    requires b in m
  {
    if PrevFree(m, b) && m[b].prev + m[m[b].prev].size == b then Merge(m, m[b].prev) else m
  }

  /** Free block b joined with its free neighbours. */
  ghost function Joined(m: Blocks, b: int): Blocks
    requires b in m
  {
    var m1 := JoinNext(m, b);
    if b in m1 then JoinPrev(m1, b) else m1
  }

  ghost function JoinedAt(m: Blocks, b: int): int
    requires b in m
  {
    if PrevFree(m, b) then m[b].prev else b
  }

  ghost function JoinedSize(m: Blocks, b: int): int
    requires b in m
  {
    m[b].size + (if NextFree(m, b) then m[b + m[b].size].size else 0)
    + (if PrevFree(m, b) then m[m[b].prev].size else 0)
  }

  /** Everything agrees but for block b, which is free and in no list yet. */
  ghost predicate Freeing(words: Words, m: Blocks, pages: set<int>, bk: Buckets, live: map<int, int>, b: int)
  {
    && Tiling(m, pages)
    && Tags(words, m, pages)
    && Aligned(m)
    && b in m && m[b].status.Free?
    && Lists(bk, m, {b})
    && Coalesced(m, {b})
    && LiveOk(m, live)
  }

  lemma FreedBlock(words: Words, words': Words, m: Blocks, pages: set<int>, bk: Buckets, live: map<int, int>, b: int)
    requires Layout(words, m, pages, bk, live) && b in live
    requires b in m
    requires words' == words[b - 8 := m[b].size][b + m[b].size - 16 := m[b].size]
    ensures Freeing(words', SetStatus(m, b, Free), pages, bk, live - {b}, b)
  {
    var m' := SetStatus(m, b, Free);
    assert LiveAt(m, live, b);
    TilingSetStatus(m, pages, b, Free);
    CoalescedSetStatus(m, b, Free);
    ListsKept(bk, m, m', {}, {b});
    forall c
      ensures LiveAt(m', live - {b}, c) && AlignedAt(m', c)
    {
      assert LiveAt(m, live, c) && AlignedAt(m, c);
    }
    SettledTags(words, words', m, m', pages, b);
  }

  /** Rewriting the header and footer of block a keeps the tags, when blocks of m' other than a
      are blocks of m beside it. */
  lemma SettledTags(words: Words, words': Words, m: Blocks, m': Blocks, pages: set<int>, a: int)
    requires Tiling(m, pages) && Tags(words, m, pages) && Tiling(m', pages)
    requires a in m' && m'[a].status.Free?
    requires words' == words[a - 8 := m'[a].size][a + m'[a].size - 16 := m'[a].size]
    requires forall c :: c in m' && c != a ==> c in m && m[c].size == m'[c].size && Tag(m[c]) == Tag(m'[c])
    ensures Tags(words', m', pages)
  {
    assert BlockOk(m', pages, a);
    forall c | c in m'
      ensures || TagOk(words', m', c)
              || (c in m && m[c].size == m'[c].size && Tag(m[c]) == Tag(m'[c])
                  && (c + m[c].size <= a || a + m'[a].size <= c))
    {
      assert Apart(m', a, c) && Apart(m', c, a);
    }
    BlockInPage(m', pages, a);
    TagsKept(words, words', m, m', pages, a, a + m'[a].size);
  }

  /** Blocks of m' other than a are blocks of m with the same tag. */
  ghost predicate OthersKept(m: Blocks, m': Blocks, a: int)
  {
    forall c :: c in m' && c != a ==> c in m && m[c].size == m'[c].size && m[c].status == m'[c].status
  }

  lemma JoinNextOk(m: Blocks, pages: set<int>, b: int)
    requires Tiling(m, pages) && b in m && m[b].status.Free? && Coalesced(m, {b})
    ensures var m' := JoinNext(m, b);
            && Tiling(m', pages) && Coalesced(m', {b}) && OthersKept(m, m', b)
            && b in m' && !NextFree(m', b) && PrevFree(m', b) == PrevFree(m, b)
            && m'[b] == m[b].(size := m[b].size + if NextFree(m, b) then m[b + m[b].size].size else 0)
            && m'.Keys == m.Keys - (if NextFree(m, b) then {b + m[b].size} else {})
  {
    assert BlockOk(m, pages, b);
    var n := b + m[b].size;
    if NextFree(m, b) {
      assert BlockOk(m, pages, n) && AdjOk(m, {b}, n);
      TilingMerge(m, pages, b);
      CoalescedMerge(m, pages, b, b);
    }
  }

  lemma JoinPrevOk(m: Blocks, pages: set<int>, b: int)
    requires Tiling(m, pages) && b in m && m[b].status.Free? && Coalesced(m, {b}) && !NextFree(m, b)
    ensures var m' := JoinPrev(m, b); var a := JoinedAt(m, b);
            && Tiling(m', pages) && Coalesced(m', {}) && OthersKept(m, m', a)
            && a in m' && m'[a].status.Free?
            && m'[a].size == m[b].size + (if PrevFree(m, b) then m[m[b].prev].size else 0)
            && m'.Keys == m.Keys - (if PrevFree(m, b) then {b} else {})
  {
    assert BlockOk(m, pages, b);
    var p := m[b].prev;
    if PrevFree(m, b) {
      assert BlockOk(m, pages, p) && BlockOk(m, pages, m[p].prev) && AdjOk(m, {b}, m[p].prev);
      TilingMerge(m, pages, p);
      CoalescedMerge(m, pages, p, b);
      assert Enclosed(Merge(m, p), p);
      CoalescedEnclosed(Merge(m, p), pages, p);
    } else {
      CoalescedEnclosed(m, pages, b);
    }
  }

  lemma JoinedBlocks(m: Blocks, pages: set<int>, b: int)
    requires Tiling(m, pages) && b in m && m[b].status.Free? && Coalesced(m, {b})
    ensures var m' := Joined(m, b); var a := JoinedAt(m, b);
            && Tiling(m', pages) && Coalesced(m', {}) && OthersKept(m, m', a)
            && a in m' && m'[a].status.Free? && m'[a].size == JoinedSize(m, b)
            && m'.Keys == m.Keys - (if NextFree(m, b) then {b + m[b].size}
                                                           else {}) - (if PrevFree(m, b) then {b} else {})
  {
    JoinNextOk(m, pages, b);
    JoinPrevOk(JoinNext(m, b), pages, b);
  }

  /** The words after coalescing: one free block from the first tag to the last. */
  lemma JoinedLayout(words: Words, words': Words, m: Blocks, pages: set<int>, bk: Buckets, bk': Buckets,
                     live: map<int, int>, b: int)
    requires Freeing(words, m, pages, bk, live, b)
    requires var a := JoinedAt(m, b); var total := JoinedSize(m, b);
             && words' == words[a - 8 := total][a + total - 16 := total]
             && (var bk1 := if NextFree(m, b) then Unlinked(bk, b + m[b].size) else bk;
                 var bk2 := if |bk1| == 8 && PrevFree(m, b) then Unlinked(bk1, m[b].prev) else bk1;
                 |bk2| == 8 && bk' == Inserted(bk2, Bucket(total), a))
    ensures Layout(words', Joined(m, b), pages, bk', live)
    ensures SameOutside(words, words', JoinedAt(m, b) - 8, JoinedAt(m, b) + JoinedSize(m, b) - 8)
  {
    JoinedBlocks(m, pages, b);
    var m' := Joined(m, b);
    var a := JoinedAt(m, b);
    assert BlockOk(m', pages, a);
    SettledTags(words, words', m, m', pages, a);
    JoinedLists(bk, m, m', b);
    JoinedSizes(m, pages, b);
    forall c
      ensures AlignedAt(m', c) && LiveAt(m', live, c)
    {
      assert AlignedAt(m, c) && LiveAt(m, live, c);
    }
  }

  lemma JoinedSizes(m: Blocks, pages: set<int>, b: int)
    requires Tiling(m, pages) && Aligned(m) && b in m
    ensures JoinedAt(m, b) % 8 == 0 && JoinedSize(m, b) % 8 == 0
  {
    assert AlignedAt(m, b) && AlignedAt(m, b + m[b].size) && AlignedAt(m, m[b].prev);
    var next := if NextFree(m, b) then m[b + m[b].size].size else 0;
    var prev := if PrevFree(m, b) then m[m[b].prev].size else 0;
    EightsSum(m[b].size, next, prev);
  }

  lemma EightsSum(a: int, b: int, c: int)
    requires a % 8 == 0 && b % 8 == 0 && c % 8 == 0
    ensures (a + b) % 8 == 0 && (a + b + c) % 8 == 0
  {
  }

  lemma JoinedLists(bk: Buckets, m: Blocks, m': Blocks, b: int)
    requires b in m && m[b].status.Free? && Lists(bk, m, {b})
    requires var a := JoinedAt(m, b);
             && a in m' && m'[a].status.Free? && m'[a].size == JoinedSize(m, b) && OthersKept(m, m', a)
             && m'.Keys == m.Keys - (if NextFree(m, b) then {b + m[b].size}
                                                            else {}) - (if PrevFree(m, b) then {b} else {})
    ensures var bk1 := if NextFree(m, b) then Unlinked(bk, b + m[b].size) else bk;
            var bk2 := if PrevFree(m, b) then Unlinked(bk1, m[b].prev) else bk1;
            Lists(Inserted(bk2, Bucket(JoinedSize(m, b)), JoinedAt(m, b)), m', {})
  {
    var a := JoinedAt(m, b);
    var skip := {b};
    var bk2 := bk;
    if NextFree(m, b) {
      ListsUnlink(bk2, m, skip, b + m[b].size);
      bk2, skip := Unlinked(bk2, b + m[b].size), skip + {b + m[b].size};
    }
    if PrevFree(m, b) {
      ListsUnlink(bk2, m, skip, m[b].prev);
      bk2, skip := Unlinked(bk2, m[b].prev), skip + {m[b].prev};
    }
    ListsKept(bk2, m, m', skip, {a});
    ListsInsert(bk2, m', {a}, a);
    assert {a} - {a} == {};
  }

  // ---------- Fresh pages ----------

  /** A fresh page: both sentinels carry `tag`, between them one free block in the last list. */
  lemma FreshPageLayout(words: Words, words': Words, m: Blocks, pages: set<int>, bk: Buckets,
                        live: map<int, int>, p: int, tag: int)
    requires Layout(words, m, pages, bk, live) && p % 8 == 0
    requires forall q :: q in pages ==> q + PAGESIZE <= p || p + PAGESIZE <= q
    requires GetSize(tag) == 0 && GetAlloc(tag) == ALLOCATED
    requires SameOutside(words, words', p, p + PAGESIZE)
    requires p in words' && p + 4088 in words' && p + 8 in words' && p + 4080 in words'
    requires words'[p] == words'[p + 4088] == tag && words'[p + 8] == words'[p + 4080] == 4080
    ensures Layout(words', WithPage(m, p), pages + {p}, Inserted(bk, 7, p + 16), live)
  {
    var m' := WithPage(m, p);
    TilingWithPage(m, pages, p);
    CoalescedWithPage(m, pages, p);
    ListsKept(bk, m, m', {}, {p + 16});
    ListsInsert(bk, m', {p + 16}, p + 16);
    assert {p + 16} - {p + 16} == {};
    forall c
      ensures AlignedAt(m', c) && LiveAt(m', live, c)
    {
      assert AlignedAt(m, c) && LiveAt(m, live, c);
    }
    FreshPageTags(words, words', m, pages, p, tag);
  }

  lemma FreshPageTags(words: Words, words': Words, m: Blocks, pages: set<int>, p: int, tag: int)
    requires Tiling(m, pages) && Tags(words, m, pages)
    requires forall q :: q in pages ==> q + PAGESIZE <= p || p + PAGESIZE <= q
    requires GetSize(tag) == 0 && GetAlloc(tag) == ALLOCATED
    requires SameOutside(words, words', p, p + PAGESIZE)
    requires p in words' && p + 4088 in words' && p + 8 in words' && p + 4080 in words'
    requires words'[p] == words'[p + 4088] == tag && words'[p + 8] == words'[p + 4080] == 4080
    ensures Tags(words', WithPage(m, p), pages + {p})
  {
    var m' := WithPage(m, p);
    forall c | c in m'
      ensures TagOk(words', m', c)
    {
      if c != p + 16 {
        assert TagOk(words, m, c) && BlockOk(m, pages, c);
      }
    }
    forall q | q in pages + {p}
      ensures SentinelOk(words', q)
    {
      if q != p {
        assert SentinelOk(words, q);
      }
    }
  }

  lemma UnlinkedInserted(bk: Buckets, m: Blocks, x: int)
    requires Lists(bk, m, {}) && x !in m
    ensures Unlinked(Inserted(bk, 7, x), x) == bk
  {
    var bk' := Inserted(bk, 7, x);
    forall i | 0 <= i < 8
      ensures Without(bk'[i], x) == bk[i]
    {
      assert OnlyFree(bk, m, {}, i, x);
      WithoutAbsent(bk[i], x);
      if i == 7 {
        assert bk'[i][1..] == bk[i];
      }
    }
  }

  /** A page written directly as its record of r bytes and one free block. */
  lemma RecordPageLayout(words: Words, words': Words, m: Blocks, pages: set<int>, bk: Buckets, p: int, r: int, tag: int)
    requires Layout(words, m, pages, bk, map[]) && p % 8 == 0
    requires forall q :: q in pages ==> q + PAGESIZE <= p || p + PAGESIZE <= q
    requires GetSize(tag) == 0 && GetAlloc(tag) == ALLOCATED
    requires r % 8 == 0 && BLOCK_MIN <= r <= 4080 - BLOCK_MIN
    requires SameOutside(words, words', p, p + PAGESIZE)
    requires p in words' && p + 4088 in words' && words'[p] == words'[p + 4088] == tag
    requires p + 8 in words' && p + r in words' && words'[p + 8] == words'[p + r] == r + 1
    requires p + r + 8 in words' && p + 4080 in words' && words'[p + r + 8] == words'[p + 4080] == 4080 - r
    ensures p + 16 !in m && p + 16 + r !in m
    ensures Layout(words', Placed(WithPage(m, p), p + 16, r, Record), pages + {p},
                   Inserted(bk, Bucket(4080 - r), p + 16 + r), map[])
  {
    var w1 := words'[p + 8 := 4080][p + 4080 := 4080];
    assert p + 16 in m ==> BlockOk(m, pages, p + 16);
    assert p + 16 + r in m ==> BlockOk(m, pages, p + 16 + r);
    FreshPageLayout(words, w1, m, pages, bk, map[], p, tag);
    UnlinkedInserted(bk, m, p + 16);
    var m1 := WithPage(m, p);
    assert words' == w1[p + 8 := r + 1][p + r := r + 1][p + 8 + r := 4080 - r][p + 4080 := 4080 - r];
    PlacedLayout(w1, words', m1, pages + {p}, Inserted(bk, 7, p + 16), Inserted(bk, Bucket(4080 - r), p + 16 + r),
                 map[], p + 16, r, Record);
  }
}
