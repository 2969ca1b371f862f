/** How blocks tile the pages of a pool, and how the tags in memory describe them. */
module PoolTiling {
  import opened PoolLayout

  datatype Status = Record | User | Free

  /** A block: `page` is the address of its page, `prev` the block before it in the page (the
      block itself at the page head, where PREV_BLKP reads the size 0 of the page sentinel). */
  datatype Block = Block(size: int, status: Status, page: int, prev: int)

  type Blocks = map<int, Block>
  type Words = map<int, int>

  ghost predicate BlockOk(m: Blocks, pages: set<int>, b: int)
  {
    b in m &&
    var k := m[b];
    && k.page in pages
    && k.page + DSIZE <= b && b + k.size <= k.page + PAGESIZE
    && k.size >= BLOCK_MIN
    && (b + k.size < k.page + PAGESIZE ==>
          b + k.size in m && m[b + k.size].page == k.page && m[b + k.size].prev == b)
    && (b == k.page + DSIZE ==> k.prev == b)
    && (b != k.page + DSIZE ==>
          k.prev in m && m[k.prev].page == k.page && k.prev + m[k.prev].size == b)
    && (k.status.Record? ==> b == k.page + DSIZE)
  }

  /** Blocks do not overlap. */
  ghost predicate Apart(m: Blocks, b: int, c: int)
  {
    b in m && c in m && b < c ==> b + m[b].size <= c
  }

  ghost predicate PageOk(m: Blocks, p: int)
  {
    p + DSIZE in m && m[p + DSIZE].page == p
  }

  ghost predicate PagesApart(pages: set<int>, p: int, q: int)
  {
    p in pages && q in pages && p < q ==> p + PAGESIZE <= q
  }

  /** The blocks of each page cover exactly the 4080 bytes between its sentinels. */
  ghost predicate Tiling(m: Blocks, pages: set<int>)
  {
    && (forall b {:trigger BlockOk(m, pages, b)} :: b in m ==> BlockOk(m, pages, b))
    && (forall b, c {:trigger Apart(m, b, c)} :: Apart(m, b, c))
    && (forall p {:trigger PageOk(m, p)} :: p in pages ==> PageOk(m, p))
    && (forall p, q {:trigger PagesApart(pages, p, q)} :: PagesApart(pages, p, q))
  }

  // ---------- Tags ----------

  function Tag(k: Block): int
  {
    Pack(k.size, if k.status.Free? then UNALLOCATED else ALLOCATED)
  }

  /** Header and footer agree with the block. */
  ghost predicate TagOk(words: Words, m: Blocks, b: int)
  {
    && b in m
    && b - WSIZE in words && words[b - WSIZE] == Tag(m[b])
    && b + m[b].size - DSIZE in words && words[b + m[b].size - DSIZE] == Tag(m[b])
  }

  ghost predicate SentinelOk(words: Words, p: int)
  {
    && p in words && GetSize(words[p]) == 0 && GetAlloc(words[p]) == ALLOCATED
    && p + PAGESIZE - WSIZE in words && words[p + PAGESIZE - WSIZE] == words[p]
  }

  ghost predicate Tags(words: Words, m: Blocks, pages: set<int>)
  {
    && (forall b {:trigger TagOk(words, m, b)} :: b in m ==> TagOk(words, m, b))
    && (forall p {:trigger SentinelOk(words, p)} :: p in pages ==> SentinelOk(words, p))
  }

  /** Only words in [lo, hi) may differ. */
  ghost predicate SameOutside(before: Words, after: Words, lo: int, hi: int)
  {
    forall a :: a in before && !(lo <= a < hi) ==> a in after && after[a] == before[a]
  }

  // ---------- Map surgery ----------

  /** The block after `b`, when there is one in its page, now follows block `p`. */
  ghost function Relink(m: Blocks, b: int, p: int): Blocks
    requires b in m
  {
    var n := b + m[b].size;
    if n < m[b].page + PAGESIZE && n in m then m[n := m[n].(prev := p)] else m
  }

  ghost function SetStatus(m: Blocks, b: int, status: Status): Blocks
    requires b in m
  {
    m[b := m[b].(status := status)]
  }

  /** Block `b` cut to `asize` bytes; the rest becomes a free block. */
  ghost function Split(m: Blocks, b: int, asize: int, status: Status): Blocks
    requires b in m
  {
    Relink(m, b, b + asize)
    [b := Block(asize, status, m[b].page, m[b].prev)]
    [b + asize := Block(m[b].size - asize, Free, m[b].page, b)]
  }

  /** Block `a` absorbs the block after it. */
  ghost function Merge(m: Blocks, a: int): Blocks
    requires a in m && a + m[a].size in m
  {
    var b := a + m[a].size;
    Relink(m, b, a)[a := m[a].(size := m[a].size + m[b].size)] - {b}
  }

  /** A fresh page holds one free block. */
  ghost function WithPage(m: Blocks, p: int): Blocks
  {
    m[p + DSIZE := Block(PAGESIZE - DSIZE, Free, p, p + DSIZE)]
  }

  // ---------- Tiling is kept ----------

  lemma TilingSetStatus(m: Blocks, pages: set<int>, b: int, status: Status)
    requires Tiling(m, pages) && b in m
    requires status.Record? ==> b == m[b].page + DSIZE
    ensures Tiling(SetStatus(m, b, status), pages)
  {
    var m' := SetStatus(m, b, status);
    forall c | c in m'
      ensures BlockOk(m', pages, c)
    {
      assert BlockOk(m, pages, c);
    }
    forall c, d
      ensures Apart(m', c, d)
    {
      assert Apart(m, c, d);
    }
    forall p | p in pages
      ensures PageOk(m', p)
    {
      assert PageOk(m, p);
    }
  }

  lemma TilingSplit(m: Blocks, pages: set<int>, b: int, asize: int, status: Status)
    requires Tiling(m, pages) && b in m
    requires BLOCK_MIN <= asize && asize + BLOCK_MIN <= m[b].size
    requires status.Record? ==> b == m[b].page + DSIZE
    ensures b + asize !in m
    ensures Tiling(Split(m, b, asize, status), pages)
  {
    assert Apart(m, b, b + asize);
    hide Split, BlockOk, Apart, PageOk;
    var m' := Split(m, b, asize, status);
    forall c | c in m'
      ensures BlockOk(m', pages, c)
    {
      SplitBlockOk(m, pages, b, asize, status, c);
    }
    forall c, d
      ensures Apart(m', c, d)
    {
      SplitApart(m, pages, b, asize, status, c, d);
    }
    forall p | p in pages
      ensures PageOk(m', p)
    {
      SplitPageOk(m, pages, b, asize, status, p);
    }
  }

  lemma SplitPageOk(m: Blocks, pages: set<int>, b: int, asize: int, status: Status, p: int)
    requires Tiling(m, pages) && b in m && p in pages && BLOCK_MIN <= asize && asize + BLOCK_MIN <= m[b].size
    ensures PageOk(Split(m, b, asize, status), p)
  {
    assert PageOk(m, p) && Apart(m, b, b + asize);
  }

  lemma SplitApart(m: Blocks, pages: set<int>, b: int, asize: int, status: Status, c: int, d: int)
    requires Tiling(m, pages) && b in m
    requires BLOCK_MIN <= asize && asize + BLOCK_MIN <= m[b].size
    ensures Apart(Split(m, b, asize, status), c, d)
  {
    assert Apart(m, c, d) && Apart(m, b, d) && Apart(m, c, b) && Apart(m, b, c);
  }

  lemma SplitBlockOk(m: Blocks, pages: set<int>, b: int, asize: int, status: Status, c: int)
    requires Tiling(m, pages) && b in m && c in Split(m, b, asize, status)
    requires BLOCK_MIN <= asize && asize + BLOCK_MIN <= m[b].size
    requires status.Record? ==> b == m[b].page + DSIZE
    ensures BlockOk(Split(m, b, asize, status), pages, c)
  {
    assert BlockOk(m, pages, b) && Apart(m, b, b + asize);
    if c in m {
      assert BlockOk(m, pages, c);
    }
  }

  lemma TilingMerge(m: Blocks, pages: set<int>, a: int)
    requires Tiling(m, pages) && a in m && a + m[a].size < m[a].page + PAGESIZE
    requires a + m[a].size in m && !m[a + m[a].size].status.Record?
    ensures Tiling(Merge(m, a), pages)
  {
    var b := a + m[a].size;
    var m' := Merge(m, a);
    assert BlockOk(m, pages, a) && BlockOk(m, pages, b);
    forall c | c in m'
      ensures BlockOk(m', pages, c)
    {
      MergeBlockOk(m, pages, a, c);
    }
    forall c, d
      ensures Apart(m', c, d)
    {
      MergeApart(m, pages, a, c, d);
    }
    forall p | p in pages
      ensures PageOk(m', p)
    {
      assert PageOk(m, p);
    }
  }

  lemma MergeApart(m: Blocks, pages: set<int>, a: int, c: int, d: int)
    requires Tiling(m, pages) && a in m && a + m[a].size in m
    ensures Apart(Merge(m, a), c, d)
  {
    var b := a + m[a].size;
    assert Apart(m, c, d) && Apart(m, b, d) && Apart(m, a, d);
  }

  lemma MergeBlockOk(m: Blocks, pages: set<int>, a: int, c: int)
    requires Tiling(m, pages) && a in m && a + m[a].size < m[a].page + PAGESIZE
    requires a + m[a].size in m && !m[a + m[a].size].status.Record?
    requires c in m && c != a + m[a].size
    ensures BlockOk(Merge(m, a), pages, c)
  {
    var b := a + m[a].size;
    assert BlockOk(m, pages, a) && BlockOk(m, pages, b) && BlockOk(m, pages, c);
  }

  lemma TilingWithPage(m: Blocks, pages: set<int>, p: int)
    requires Tiling(m, pages)
    requires forall q :: q in pages ==> q + PAGESIZE <= p || p + PAGESIZE <= q
    ensures p + DSIZE !in m
    ensures Tiling(WithPage(m, p), pages + {p})
  {
    var m' := WithPage(m, p);
    assert p + DSIZE in m ==> BlockOk(m, pages, p + DSIZE);
    forall c | c in m'
      ensures BlockOk(m', pages + {p}, c)
    {
      assert c in m ==> BlockOk(m, pages, c);
    }
    forall b, c
      ensures Apart(m', b, c)
    {
      assert Apart(m, b, c);
      assert b in m ==> BlockOk(m, pages, b);
      assert c in m ==> BlockOk(m, pages, c);
    }
    forall q | q in pages + {p}
      ensures PageOk(m', q)
    {
      assert q in pages ==> PageOk(m, q);
    }
    forall q, r
      ensures PagesApart(pages + {p}, q, r)
    {
      assert PagesApart(pages, q, r);
    }
  }

  // ---------- Tags are kept ----------

  /** Rewriting words inside one stretch [lo, hi) of payload space keeps every block outside it
      described, provided the blocks inside it are. */
  lemma TagsKept(words: Words, words': Words, m: Blocks, m': Blocks, pages: set<int>, lo: int, hi: int)
    requires Tiling(m, pages) && Tags(words, m, pages)
    requires SameOutside(words, words', lo - WSIZE, hi - WSIZE)
    requires forall c :: c in m' ==>
               || TagOk(words', m', c)
               || (c in m && m[c].size == m'[c].size && Tag(m[c]) == Tag(m'[c])
                   && (c + m[c].size <= lo || hi <= c))
    requires forall p :: p in pages ==> hi <= p || p + PAGESIZE < lo || (p + DSIZE <= lo && hi <= p + PAGESIZE)
    ensures Tags(words', m', pages)
  {
    forall c | c in m'
      ensures TagOk(words', m', c)
    {
      assert c in m ==> TagOk(words, m, c) && BlockOk(m, pages, c);
    }
    forall p | p in pages
      ensures SentinelOk(words', p)
    {
      assert SentinelOk(words, p);
    }
  }

  /** A block lies inside its page and outside every other one. */
  lemma BlockInPage(m: Blocks, pages: set<int>, b: int)
    requires Tiling(m, pages) && b in m
    ensures forall p :: p in pages ==>
              || b + m[b].size <= p
              || p + PAGESIZE < b
              || (p + DSIZE <= b && b + m[b].size <= p + PAGESIZE)
  {
    assert BlockOk(m, pages, b);
    forall p | p in pages
      ensures || b + m[b].size <= p
              || p + PAGESIZE < b
              || (p + DSIZE <= b && b + m[b].size <= p + PAGESIZE)
    {
      assert PagesApart(pages, p, m[b].page) && PagesApart(pages, m[b].page, p);
    }
  }

  // ---------- What the tiling means ----------

  /** Every address between the sentinels lies in a block of the page, */
  lemma {:induction false} PageCovered(m: Blocks, pages: set<int>, p: int, from: int, a: int) returns (b: int)
    requires Tiling(m, pages) && p in pages && p + WSIZE <= a < p + PAGESIZE - WSIZE
    requires from in m && m[from].page == p && from - WSIZE <= a
    ensures b in m && m[b].page == p && b - WSIZE <= a < b + m[b].size - WSIZE
    decreases p + PAGESIZE - from
  {
    assert BlockOk(m, pages, from);
    if a < from + m[from].size - WSIZE {
      b := from;
    } else {
      b := PageCovered(m, pages, p, from + m[from].size, a);
    }
  }

  /** and in no other. */
  lemma BlocksDisjoint(m: Blocks, pages: set<int>, b: int, c: int, a: int)
    requires Tiling(m, pages) && b in m && c in m
    requires b - WSIZE <= a < b + m[b].size - WSIZE && c - WSIZE <= a < c + m[c].size - WSIZE
    ensures b == c
  {
    assert Apart(m, b, c) && Apart(m, c, b);
  }

  /** The blocks of a page tile it: every address between its sentinels lies in exactly one block. */
  lemma PageTiled(m: Blocks, pages: set<int>, p: int, a: int) returns (b: int)
    requires Tiling(m, pages) && p in pages && p + WSIZE <= a < p + PAGESIZE - WSIZE
    ensures b in m && m[b].page == p && b - WSIZE <= a < b + m[b].size - WSIZE
    ensures forall c :: c in m && c - WSIZE <= a < c + m[c].size - WSIZE ==> c == b
  {
    assert PageOk(m, p);
    b := PageCovered(m, pages, p, p + DSIZE, a);
    forall c | c in m && c - WSIZE <= a < c + m[c].size - WSIZE
      ensures c == b
    {
      BlocksDisjoint(m, pages, b, c, a);
    }
  }
}
