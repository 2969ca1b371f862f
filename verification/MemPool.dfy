/** The pool allocator of the name server: gfs_mem_pool_create, malloc, free, reset, destroy. */
module MemPool {
  import opened Sequences
  import opened Alignment
  import opened PoolLayout
  import opened PoolTiling
  import opened PoolLists
  import opened PoolMoves

  /** A region kept on the pool's large list. */
  datatype Large = Large(addr: int, size: int)

  const RECORD_SIZE := PAGE_RECORD + DSIZE
  const EMPTY_BUCKETS: Buckets := [[], [], [], [], [], [], [], []]
  const POOL_RECORD_SIZE := PAGE_RECORD + POOL_RECORD + DSIZE

  /** PAGESIZE * pages, a product of 32-bit values. */
  function PoolBytes(pages: int): int
  {
    4096 * pages % 0x1_0000_0000
  }

  // ---------- The invariant beyond the layout ----------

  ghost function PageSet(pages: seq<int>): set<int>
  {
    set p | p in pages
  }

  /** Each page starts with its page record; the last one in the list also holds the pool. */
  ghost predicate RecordsOk(m: Blocks, pages: seq<int>)
  {
    forall i :: 0 <= i < |pages| ==>
      && pages[i] + DSIZE in m && m[pages[i] + DSIZE].status.Record?
      && m[pages[i] + DSIZE].size == if i == |pages| - 1 then POOL_RECORD_SIZE else RECORD_SIZE
  }

  /** The last n pages of the list were there from the start. */
  ghost predicate InitTags(words: Words, pages: seq<int>, n: int)
  {
    forall i :: 0 <= i < |pages| ==>
      pages[i] in words && words[pages[i]] == Pack(0, if i >= |pages| - n then ALLOCATED + INITIAL else ALLOCATED)
  }

  /** User blocks carry the address of their pool. */
  ghost predicate Owned(words: Words, live: map<int, int>, self: int)
  {
    forall b :: b in live ==> b in words && words[b] == self
  }

  ghost predicate LargeOk(words: Words, regions: map<int, int>, pages: seq<int>, self: int, l: Large)
  {
    && l.addr in regions && regions[l.addr] == l.size && l.addr !in pages && l.addr > 0
    && l.size % 8 == 0 && l.size >= 48 && l.addr % 8 == 0
    && l.addr + 32 in words && words[l.addr + 32] == Pack(l.size, ALLOCATED + LARGE)
    && l.addr + 40 in words && words[l.addr + 40] == self
  }

  ghost predicate LargesOk(words: Words, regions: map<int, int>, pages: seq<int>, self: int, larges: seq<Large>)
  {
    && (forall i :: 0 <= i < |larges| ==> LargeOk(words, regions, pages, self, larges[i]))
    && (forall i, j :: 0 <= i < j < |larges| ==> larges[i].addr != larges[j].addr)
  }

  /** Regions obtained from malloc and not freed do not overlap. */
  ghost predicate RegionsOk(regions: map<int, int>)
  {
    && (forall a :: a in regions ==> regions[a] >= 0)
    && (forall a, b :: a in regions && b in regions && a < b ==> a + regions[a] <= b)
  }

  ghost predicate PagesOwned(regions: map<int, int>, pages: seq<int>)
  {
    forall i :: 0 <= i < |pages| ==> pages[i] in regions && regions[pages[i]] == PAGESIZE && pages[i] > 0
                                     && pages[i] % 8 == 0
  }

  predicate FreshRegion(regions: map<int, int>, base: int, n: int)
  {
    && base > 0 && base % 8 == 0 && base !in regions
    && forall a :: a in regions ==> a + regions[a] <= base || base + n <= a
  }

  ghost function LargeSum(larges: seq<Large>): int
  {
    if larges == [] then 0 else larges[0].size + LargeSum(larges[1..])
  }

  /** Who uses a region: the small block at b, or a large region. */
  datatype User = Small(b: int) | BigUser(l: Large)

  /** Address a is for user u: past the owner word of a block and below its footer, or past the
      record of a large region. */
  ghost predicate UserByte(live: map<int, int>, larges: seq<Large>, u: User, a: int)
  {
    match u
    case Small(b) => b in live && b + WSIZE <= a < b + live[b] - DSIZE
    case BigUser(l) => l in larges && l.addr + 48 <= a < l.addr + l.size
  }

  /** Who a request of n bytes that returns r makes the user of the region. */
  function NewUser(n: int, r: int): User
  {
    if n <= MIN_LARGE_SIZE then Small(r - 8) else BigUser(Large(r - 48, LargeTotal(n)))
  }

  /** Each of the n bytes from r on is now the new user's, and was nobody's before. */
  ghost predicate NewRegion(live0: map<int, int>, larges0: seq<Large>, live: map<int, int>, larges: seq<Large>,
                            n: int, r: int)
  {
    forall a :: r <= a < r + n ==> NewByte(live0, larges0, live, larges, NewUser(n, r), a)
  }

  ghost predicate NewByte(live0: map<int, int>, larges0: seq<Large>, live: map<int, int>, larges: seq<Large>,
                          u: User, a: int)
  {
    UserByte(live, larges, u, a) && forall v :: !UserByte(live0, larges0, v, a)
  }

  /** The words a user may use: from 8 past the block address up to the footer. */
  ghost predicate InUserData(live: map<int, int>, larges: seq<Large>, a: int)
  {
    || (exists b :: b in live && b + WSIZE <= a < b + live[b] - DSIZE)
    || (exists i :: 0 <= i < |larges| && larges[i].addr + 48 <= a < larges[i].addr + larges[i].size)
  }

  /** No live user data changed. */
  ghost predicate UserDataKept(before: Words, after: Words, live: map<int, int>, larges: seq<Large>)
  {
    forall a :: a in before && InUserData(live, larges, a) ==> a in after && after[a] == before[a]
  }

  lemma FreshRegionExists(regions: map<int, int>, n: int) returns (base: int)
    requires RegionsOk(regions) && n >= 0
    ensures FreshRegion(regions, base, n)
  {
    var top := Above(regions.Keys, regions);
    base := (if top < 0 then 0 else top) / 8 * 8 + 8;
  }

  lemma {:induction false} Above(keys: set<int>, regions: map<int, int>) returns (top: int)
    requires keys <= regions.Keys
    ensures forall a :: a in keys ==> a + regions[a] <= top && a <= top
    decreases |keys|
  {
    if k :| k in keys {
      var t := Above(keys - {k}, regions);
      var e := if regions[k] >= 0 then k + regions[k] else k;
      top := if t > e then t else e;
    } else {
      top := 0;
    }
  }

  class Pool {
    // the process: memory words, regions obtained from malloc, and gfs_mem_allsize
    var words: Words
    var regions: map<int, int>
    var allsize: int
    // the pool structure, which lives at address `self`
    var self: int
    var size: int
    var used: int
    var msize: int
    var initPages: int
    var pages: seq<int>
    var buckets: Buckets
    var larges: seq<Large>
    // the blocks that tile the pages, the user blocks with their sizes, and the pages they tile
    ghost var blocks: Blocks
    ghost var live: map<int, int>
    ghost var covered: set<int>

    /** Everything but `size`, for a list whose last `initial` pages are marked INITIAL. */
    ghost predicate Core(initial: int)
      reads this
    {
      Placement(initial) && Counted()
    }

    ghost predicate Placement(initial: int)
      reads this
    {
      && Layout(words, blocks, covered, buckets, live)
      && PagesCore(initial)
      && Owned(words, live, self)
      && LargesOk(words, regions, pages, self, larges)
    }

    ghost predicate PagesCore(initial: int)
      reads this
    {
      && |pages| > 0 && NoDup(pages) && covered == PageSet(pages)
      && self == pages[|pages| - 1] + DSIZE + PAGE_RECORD
      && RecordsOk(blocks, pages)
      && InitTags(words, pages, initial)
      && RegionsOk(regions) && PagesOwned(regions, pages)
    }

    /** 16 bytes of sentinels a page, the records, the user blocks and the large regions. */
    ghost predicate Counted()
      reads this
    {
      && used == 64 * |pages| + 224 + msize
      && msize == Sum(live) + LargeSum(larges)
    }

    ghost predicate Valid()
      reads this
    {
      1 <= initPages <= |pages| && Core(initPages)
    }

    // ---------- gfs_mem_pool_create ----------

    /** A pool of n >= 1 pages; `words`, `regions` and `allsize` are the state of the process. */
    constructor (n: int, words: Words, regions: map<int, int>, allsize: int)
      requires 1 <= n < UINT_LIMIT && RegionsOk(regions)
      ensures Valid() && |pages| == n == initPages && live == map[] && larges == []
      ensures size == PoolBytes(n) && (size == 4096 * |pages| <==> n < 0x10_0000)
      ensures this.allsize == allsize + Footprint()
      ensures forall a :: a in regions ==> a in this.regions && this.regions[a] == regions[a] && a !in pages
    {
      this.words, this.regions, this.allsize := words, regions, allsize;
      self, size, used, msize, initPages := 0, 0, 0, 0, 0;
      pages, larges := [], [];
      buckets := EMPTY_BUCKETS;
      blocks, live, covered := map[], map[], {};
      new;
      FirstPage(n);
      SizeExact(n);
      AddPages(n);
    }

    method AddPages(n: int)
      requires 1 <= n && Core(1) && |pages| == 1 && live == map[] && larges == []
      modifies this`words, this`regions, this`allsize, this`used, this`buckets, this`blocks, this`live, this`pages,
               this`covered
      ensures Core(n) && |pages| == n && live == map[] && allsize == old(allsize) + 4096 * (n - 1)
      ensures forall a :: a in old(regions) && a !in old(pages) ==>
                            a in regions && regions[a] == old(regions)[a] && a !in pages
    {
      hide Layout, Owned, LargesOk, RecordsOk, InitTags, RegionsOk, PagesOwned, NoDup, UserDataKept;
      var i := 1;
      while i < n
        invariant 1 <= i <= n && Core(i) && |pages| == i && live == map[] && allsize == old(allsize) + 4096 * (i - 1)
        invariant forall a :: a in old(regions) && a !in old(pages) ==>
                                a in regions && regions[a] == old(regions)[a] && a !in pages
      {
        ghost var pages0 := pages;
        NewPage(true, i);
        assert pages == [pages[0]] + pages0;
        i := i + 1;
      }
    }

    /** The page that also holds the pool structure. */
    method FirstPage(n: int)
      requires 1 <= n < UINT_LIMIT && RegionsOk(regions) && pages == [] && larges == []
      requires buckets == EMPTY_BUCKETS && blocks == map[] && live == map[] && covered == {}
      modifies this
      ensures Core(1) && |pages| == 1 && live == map[] && larges == [] && pages[0] !in old(regions)
      ensures size == PoolBytes(n) && initPages == n && allsize == old(allsize) + PAGESIZE
      ensures regions == old(regions)[pages[0] := PAGESIZE]
    {
      hide Layout, RecordsOk, InitTags, RegionsOk, PoolBytes;
      var p, recorded := CarveFirstPage();
      self := p + DSIZE + PAGE_RECORD;
      size := PoolBytes(n);
      used := recorded + DSIZE;
      msize := 0;
      initPages := n;
      pages := [p];
    }

    method CarveFirstPage() returns (p: int, recorded: int)
      requires RegionsOk(regions)
      requires buckets == EMPTY_BUCKETS && blocks == map[] && live == map[] && covered == {}
      modifies this`words, this`regions, this`allsize, this`buckets, this`blocks, this`covered
      ensures Layout(words, blocks, covered, buckets, live) && covered == {p} == PageSet([p])
      ensures RecordsOk(blocks, [p]) && InitTags(words, [p], 1) && recorded == POOL_RECORD_SIZE
      ensures RegionsOk(regions) && regions == old(regions)[p := PAGESIZE] && p !in old(regions) && p > 0 && p % 8 == 0
      ensures allsize == old(allsize) + PAGESIZE
    {
      hide Layout, RecordsOk, InitTags, RegionsOk, SameOutside, FirstPageWords, FreshRegion, Bucket;
      p := MallocInternal(PAGESIZE);
      ghost var w := words;
      var b;
      b, recorded := PutFirstPage(p);
      var i := GetIndex(PAGESIZE - POOL_RECORD_SIZE - DSIZE);
      buckets := Inserted(buckets, i, b);
      ghost var m := FirstPageLayout(old(words), w, words, p);
      blocks, covered := m, {p};
    }

    method PutFirstPage(p: int) returns (b: int, recorded: int)
      modifies this`words
      ensures words == FirstPageWords(old(words), p)
      ensures b == p + 288 && recorded == POOL_RECORD_SIZE
    {
      hide GetSize;
      PackReads(POOL_RECORD_SIZE, ALLOCATED);
      words := words[p := Pack(0, ALLOCATED + INITIAL)];
      words := words[p + PAGESIZE - WSIZE := Pack(0, ALLOCATED + INITIAL)];
      PutTags(p + DSIZE, POOL_RECORD_SIZE, ALLOCATED);
      recorded := GetSize(words[p + WSIZE]);
      b := p + DSIZE + GetSize(words[p + WSIZE]);
      PutTags(b, PAGESIZE - POOL_RECORD_SIZE - DSIZE, UNALLOCATED);
    }

    // ---------- malloc and free of the C library, with their total ----------

    method MallocInternal(n: int) returns (base: int)
      requires RegionsOk(regions) && n >= 0
      modifies this`words, this`regions, this`allsize
      ensures FreshRegion(old(regions), base, n) && base > 0 && base % 8 == 0 && base !in old(regions)
      ensures regions == old(regions)[base := n] && RegionsOk(regions)
      ensures SameOutside(old(words), words, base, base + n)
      ensures allsize == old(allsize) + n
    {
      ghost var free := FreshRegionExists(regions, n);
      base :| FreshRegion(regions, base, n);
      allsize := allsize + n;
      regions := regions[base := n];
    }

    method FreeInternal(addr: int, n: int)
      requires addr != 0 && n != 0 ==> addr in regions
      modifies this`regions, this`allsize
      ensures addr != 0 && n != 0 ==> regions == old(regions) - {addr} && allsize == old(allsize) - n
      ensures addr == 0 || n == 0 ==> regions == old(regions) && allsize == old(allsize)
    {
      if addr == 0 || n == 0 {
        return;
      }
      allsize := allsize - n;
      regions := regions - {addr};
    }

    // ---------- Placement ----------

    method FindFit(i: int, asize: int) returns (found: bool, b: int)
      requires Layout(words, blocks, covered, buckets, live) && 0 <= i < 8
      ensures !found ==> forall c :: c in buckets[i] ==> c in blocks && blocks[c].size < asize
      ensures found ==> b in buckets[i] && b in blocks && blocks[b].status.Free? && blocks[b].size >= asize
      ensures found ==> exists k :: 0 <= k < |buckets[i]| && buckets[i][k] == b
                                    && forall j :: 0 <= j < k ==>
                                                     buckets[i][j] in blocks && blocks[buckets[i][j]].size < asize
    {
      var k := 0;
      while k < |buckets[i]|
        invariant 0 <= k <= |buckets[i]|
        invariant forall j :: 0 <= j < k ==> buckets[i][j] in blocks && blocks[buckets[i][j]].size < asize
      {
        var q := buckets[i][k];
        assert OnlyFree(buckets, blocks, {}, i, q) && TagOk(words, blocks, q) && AlignedAt(blocks, q);
        if asize <= GetSize(words[q - WSIZE]) {
          return true, q;
        }
        k := k + 1;
      }
      found, b := false, 0;
    }

    /** PUT(HDRP(b)) and then PUT(FTRP(b)), which reads the size back from the header. */
    method PutTags(b: int, n: int, flags: int)
      requires n % 8 == 0 && 0 <= flags < 8
      modifies this`words
      ensures words == old(words)[b - WSIZE := n + flags][b + n - DSIZE := n + flags]
    {
      words := words[b - WSIZE := Pack(n, flags)];
      words := words[b + GetSize(words[b - WSIZE]) - DSIZE := Pack(n, flags)];
    }

    method Place(b: int, asize: int, ghost status: Status)
      requires Layout(words, blocks, covered, buckets, live)
      requires b in blocks && blocks[b].status.Free? && !status.Free?
      requires asize % 8 == 0 && BLOCK_MIN <= asize <= blocks[b].size
      requires status.Record? ==> b == blocks[b].page + DSIZE
      modifies this`words, this`buckets, this`used, this`blocks, this`live
      ensures Layout(words, blocks, covered, buckets, live)
      ensures blocks == Placed(old(blocks), b, asize, status)
      ensures live == PlacedLive(old(live), old(blocks), b, asize, status)
      ensures b in blocks && used == old(used) + blocks[b].size
      ensures SameOutside(old(words), words, b - WSIZE, b + old(blocks)[b].size - WSIZE)
    {
      ReadTags(words, blocks, covered, b);
      hide Layout, SameOutside, GetSize, Bucket, Placed, PlacedLive;
      PlacedSize(blocks, b, asize, status);
      WritePlaced(b, asize, blocks[b].size);
      PlacedLayout(old(words), words, blocks, covered, old(buckets), buckets, live, b, asize, status);
      blocks, live := Placed(blocks, b, asize, status), PlacedLive(live, blocks, b, asize, status);
    }

    /** The writes of gfs_mem_place: split when the rest can be a block of its own. */
    method WritePlaced(b: int, asize: int, ghost csize0: int)
      requires |buckets| == 8 && asize % 8 == 0 && csize0 % 8 == 0 && BLOCK_MIN <= asize <= csize0 <= PAGESIZE
      requires b - WSIZE in words && GetSize(words[b - WSIZE]) == csize0
      modifies this`words, this`buckets, this`used
      ensures var rest := csize0 - asize;
              if rest >= BLOCK_MIN then
                && buckets == Inserted(Unlinked(old(buckets), b), Bucket(rest), b + asize) && used == old(used) + asize
                && words == old(words)[b - 8 := asize + 1][b + asize - 16 := asize + 1]
                                      [b + asize - 8 := rest][b + csize0 - 16 := rest]
              else
                && buckets == Unlinked(old(buckets), b) && used == old(used) + csize0
                && words == old(words)[b - 8 := csize0 + 1][b + csize0 - 16 := csize0 + 1]
    {
      hide GetSize, Bucket;
      PackReads(asize, ALLOCATED);
      AlignedDifference(csize0, asize);
      buckets := Unlinked(buckets, b);
      var csize := GetSize(words[b - WSIZE]);
      if csize - asize >= BLOCK_MIN {
        PutTags(b, asize, ALLOCATED);
        var rest := b + GetSize(words[b - WSIZE]);
        PutTags(rest, csize - asize, UNALLOCATED);
        var i := GetIndex(csize - asize);
        buckets := Inserted(buckets, i, rest);
        used := used + asize;
      } else {
        PutTags(b, csize, ALLOCATED);
        used := used + csize;
      }
    }

    /** Boundary-tag coalescing of a block that is free and in no list yet. */
    method Coalesce(b: int) returns (r: int)
      requires Freeing(words, blocks, covered, buckets, live, b) && b != blocks[b].page + DSIZE
      modifies this`words, this`buckets, this`blocks
      ensures Layout(words, blocks, covered, buckets, live)
      ensures blocks == Joined(old(blocks), b) && r == JoinedAt(old(blocks), b)
      ensures SameOutside(old(words), words, r - WSIZE, r + JoinedSize(old(blocks), b) - WSIZE)
    {
      assert b in blocks;
      hide Layout, SameOutside, Freeing, GetSize, GetAlloc, Bucket, Joined;
      NeighbourTags(words, blocks, covered, buckets, live, b);
      ghost var p := blocks[b].prev;
      r := WriteJoined(b, blocks[b].size, p, b - p, NextFree(blocks, b), PrevFree(blocks, b),
                       if NextFree(blocks, b) then blocks[b + blocks[b].size].size else 0);
      JoinedLayout(old(words), words, blocks, covered, old(buckets), buckets, live, b);
      blocks := Joined(blocks, b);
    }

    /** The four cases, for a block of n0 bytes at b between blocks p0 (of pn bytes) and b + n0
        (of nn bytes when it is free). */
    method WriteJoined(b: int, ghost n0: int, ghost p0: int, ghost pn: int, ghost nextFree: bool, ghost prevFree: bool,
                       ghost nn: int) returns (r: int)
      requires |buckets| == 8 && n0 >= BLOCK_MIN && pn >= BLOCK_MIN && p0 + pn == b
      requires n0 + pn + nn <= PAGESIZE && (n0 + nn + if prevFree then pn else 0) % 8 == 0
      requires b - 8 in words && words[b - 8] == GetSize(words[b - 8]) == n0
      requires b + n0 - 16 in words && words[b + n0 - 16] == n0
      requires b - 16 in words && GetSize(words[b - 16]) == pn && (GetAlloc(words[b - 16]) == 0 <==> prevFree)
      requires p0 - 8 in words && GetSize(words[p0 - 8]) == pn
      requires b + n0 - 8 in words && (GetAlloc(words[b + n0 - 8]) == 0 <==> nextFree)
      requires if nextFree then nn >= BLOCK_MIN && GetSize(words[b + n0 - 8]) == nn && b + n0 + nn - 16 in words
                                && words[b + n0 + nn - 16] == words[b + n0 - 8]
               else nn == 0
      modifies this`words, this`buckets
      ensures r == if prevFree then p0 else b
      ensures var total := n0 + nn + if prevFree then pn else 0;
              && words == old(words)[r - 8 := total][r + total - 16 := total]
              && var bk1 := if nextFree then Unlinked(old(buckets), b + n0) else old(buckets);
                 var bk2 := if prevFree then Unlinked(bk1, p0) else bk1;
                 buckets == Inserted(bk2, Bucket(total), r)
    {
      hide GetSize, GetAlloc, Bucket;
      var n := GetSize(words[b - WSIZE]);
      var next := b + n;
      var prev := b - GetSize(words[b - DSIZE]);
      var prevAlloc := GetAlloc(words[prev + GetSize(words[prev - WSIZE]) - DSIZE]);
      var nextAlloc := GetAlloc(words[next - WSIZE]);
      if prevAlloc != 0 && nextAlloc != 0 {
        r := b;
      } else if prevAlloc != 0 {
        buckets := Unlinked(buckets, next);
        n := n + GetSize(words[next - WSIZE]);
        PutTags(b, n, UNALLOCATED);
        r := b;
      } else if nextAlloc != 0 {
        buckets := Unlinked(buckets, prev);
        n := n + GetSize(words[prev - WSIZE]);
        words := words[b + GetSize(words[b - WSIZE]) - DSIZE := Pack(n, UNALLOCATED)];
        words := words[prev - WSIZE := Pack(n, UNALLOCATED)];
        r := b - GetSize(words[b - DSIZE]);
      } else {
        buckets := Unlinked(buckets, next);
        buckets := Unlinked(buckets, prev);
        n := n + GetSize(words[prev - WSIZE]) + GetSize(words[next + GetSize(words[next - WSIZE]) - DSIZE]);
        words := words[prev - WSIZE := Pack(n, UNALLOCATED)];
        words := words[next + GetSize(words[next - WSIZE]) - DSIZE := Pack(n, UNALLOCATED)];
        r := b - GetSize(words[b - DSIZE]);
      }
      var i := GetIndex(n);
      buckets := Inserted(buckets, i, r);
    }

    // ---------- Pages ----------

    /** A page from malloc: sentinels and one free block over the rest. */
    method FreePage(tag: int) returns (p: int)
      requires Layout(words, blocks, covered, buckets, live) && covered == PageSet(pages)
      requires RegionsOk(regions) && PagesOwned(regions, pages)
      requires GetSize(tag) == 0 && GetAlloc(tag) == ALLOCATED
      modifies this`words, this`regions, this`allsize, this`used, this`buckets, this`blocks, this`covered
      ensures Layout(words, blocks, covered, buckets, live)
      ensures FreshRegion(old(regions), p, PAGESIZE) && RegionsOk(regions)
      ensures regions == old(regions)[p := PAGESIZE] && allsize == old(allsize) + PAGESIZE
      ensures blocks == WithPage(old(blocks), p) && covered == old(covered) + {p} && used == old(used) + DSIZE
      ensures p in words && words[p] == tag && SameOutside(old(words), words, p, p + PAGESIZE)
    {
      assert |buckets| == 8;
      hide Layout, RegionsOk, PagesOwned, FreshRegion, GetSize, GetAlloc, Bucket;
      p := MallocInternal(PAGESIZE);
      words := words[p := tag];
      words := words[p + PAGESIZE - WSIZE := tag];
      used := used + DSIZE;
      PutTags(p + DSIZE, PAGESIZE - DSIZE, UNALLOCATED);
      var i := GetIndex(PAGESIZE - DSIZE);
      buckets := Inserted(buckets, i, p + DSIZE);
      PagesBeside(old(regions), pages, p);
      FreshPageLayout(old(words), words, blocks, covered, old(buckets), live, p, tag);
      blocks, covered := WithPage(blocks, p), covered + {p};
    }

    /** A page from malloc, divided into its record and one free block. */
    method CarvePage(tag: int) returns (p: int)
      requires Layout(words, blocks, covered, buckets, live) && covered == PageSet(pages)
      requires RegionsOk(regions) && PagesOwned(regions, pages)
      requires GetSize(tag) == 0 && GetAlloc(tag) == ALLOCATED
      modifies this`words, this`regions, this`allsize, this`used, this`buckets, this`blocks, this`live, this`covered
      ensures Layout(words, blocks, covered, buckets, live) && live == old(live)
      ensures FreshRegion(old(regions), p, PAGESIZE) && RegionsOk(regions)
      ensures regions == old(regions)[p := PAGESIZE] && allsize == old(allsize) + PAGESIZE
      ensures covered == old(covered) + {p} && used == old(used) + 64
      ensures p in words && words[p] == tag && SameOutside(old(words), words, p, p + PAGESIZE)
      ensures Carved(old(blocks), blocks, p) && |buckets| == 8 && p + 64 in buckets[7]
    {
      p := FreePage(tag);
      FreshPageIsNew(old(regions), old(blocks), old(covered), pages, p);
      Place(p + DSIZE, RECORD_SIZE, Record);
      RecordAndRest(old(blocks), p);
      assert Listed(buckets, blocks, {}, p + 64);
    }

    /** One page of gfs_mem_pool_create's loop (initial) or gfs_mem_extend_pool's. */
    method NewPage(initial: bool, ghost n: int)
      requires Core(n) && 0 <= n <= |pages| && (initial ==> n == |pages|)
      modifies this`words, this`regions, this`allsize, this`used, this`buckets, this`blocks, this`live, this`pages,
               this`covered
      ensures Core(if initial then n + 1 else n)
      ensures |pages| == |old(pages)| + 1 && pages[1..] == old(pages)
      ensures live == old(live) && allsize == old(allsize) + PAGESIZE
      ensures regions == old(regions)[pages[0] := PAGESIZE] && pages[0] !in old(regions)
      ensures |buckets| == 8 && pages[0] + 64 in buckets[7] && pages[0] + 64 in blocks
              && blocks[pages[0] + 64].size == PAGESIZE - 64
      ensures UserDataKept(old(words), words, live, larges)
    {
      hide Layout, Owned, LargesOk, RecordsOk, InitTags, RegionsOk, PagesOwned, NoDup, UserDataKept, SameOutside,
           FreshRegion, Pack;
      PackReads(0, if initial then ALLOCATED + INITIAL else ALLOCATED);
      var p := CarvePage(Pack(0, if initial then ALLOCATED + INITIAL else ALLOCATED));
      KeptWhenFresh(old(words), words, old(regions), old(blocks), old(covered), old(buckets), live, pages, larges,
                    self, p);
      PageJoinsList(old(words), words, old(regions), old(blocks), pages, p, n, initial);
      CarvedRecords(old(blocks), blocks, pages, p);
      hide PageSet, Sum, LargeSum, Listed;
      pages := [p] + pages;
      assert |pages| == old(|pages|) + 1 && used == old(used) + 64;
      assert Counted();
      assert PagesCore(if initial then n + 1 else n);
    }

    /** gfs_mem_extend_pool: as many pages as the pool started with. */
    method Extend()
      requires Valid()
      modifies this`words, this`regions, this`allsize, this`size, this`used, this`buckets, this`blocks, this`live,
               this`pages, this`covered
      ensures Valid() && live == old(live)
      ensures |pages| == |old(pages)| + initPages && pages[initPages..] == old(pages)
      ensures size == old(size) + 4096 * initPages && allsize == old(allsize) + 4096 * initPages
      ensures exists c :: c in buckets[7] && c in blocks && blocks[c].size == PAGESIZE - 64
      ensures UserDataKept(old(words), words, live, larges)
    {
      hide Layout, Owned, LargesOk, RecordsOk, InitTags, RegionsOk, PagesOwned, NoDup, UserDataKept, SameOutside,
           FreshRegion;
      var i := 0;
      KeptTransitive(words, words, words, live, larges);
      while i < initPages
        invariant 0 <= i <= initPages && Core(initPages) && live == old(live)
        invariant |pages| == |old(pages)| + i && pages[i..] == old(pages)
        invariant size == old(size) + 4096 * i && allsize == old(allsize) + 4096 * i
        invariant i > 0 ==> |buckets| == 8 && exists c :: c in buckets[7] && c in blocks
                                                          && blocks[c].size == PAGESIZE - 64
        invariant UserDataKept(old(words), words, live, larges)
      {
        ghost var before, beforePages := words, pages;
        NewPage(false, initPages);
        size := size + PAGESIZE;
        KeptTransitive(old(words), before, words, live, larges);
        assert pages[i + 1..] == pages[1..][i..];
        i := i + 1;
      }
    }

    /** The first list from `first` on that has a fit. */
    method FindInLists(first: int, asize: int) returns (found: bool, b: int)
      requires Layout(words, blocks, covered, buckets, live) && 0 <= first <= 8
      ensures found ==> b in blocks && blocks[b].status.Free? && blocks[b].size >= asize
      ensures found ==> FirstIn(buckets, blocks, first, asize, b)
      ensures !found ==> NoFit(buckets, blocks, first, asize)
    {
      var i := first;
      while i < 8
        invariant first <= i <= 8
        invariant forall j, c :: first <= j < i && c in buckets[j] ==> c in blocks && blocks[c].size < asize
      {
        found, b := FindFit(i, asize);
        if found {
          assert FirstAt(buckets, blocks, first, asize, b, i);
          return;
        }
        i := i + 1;
      }
      found, b := false, 0;
    }

    /** The tail of gfs_mem_malloc for a block that fits. */
    method TakeBlock(b: int, asize: int) returns (r: int)
      requires Valid() && b in blocks && blocks[b].status.Free?
      requires asize % 8 == 0 && BLOCK_MIN <= asize <= blocks[b].size
      modifies this`words, this`used, this`msize, this`buckets, this`blocks, this`live
      ensures Valid() && r == b + WSIZE
      ensures b !in old(live) && b in live && live == old(live)[b := live[b]]
      ensures asize <= live[b] < asize + BLOCK_MIN
      ensures UserDataKept(old(words), words, old(live), larges)
    {
      hide Layout, Owned, LargesOk, RecordsOk, InitTags, RegionsOk, PagesOwned, NoDup, UserDataKept, SameOutside,
           OutsideLive, Placed, GetSize;
      FreeBlockKept(words, blocks, covered, buckets, live, pages, b);
      ghost var m, l := blocks, live;
      Place(b, asize, User);
      WordsKept(old(words), words, regions, pages, l, larges, self, initPages, m[b].page, b, b + m[b].size);
      PlacedRecords(old(words), m, covered, old(buckets), l, pages, b, asize, User);
      PlacedSize(m, b, asize, User);
      ReadLive(words, blocks, covered, buckets, live, b);
      msize := msize + GetSize(words[b - WSIZE]);
      UserWord(words, blocks, covered, buckets, live, regions, pages, larges, self, initPages, b, b, self);
      OwnWordKept(old(words), words, l, larges, regions, pages, self, m, b, live[b]);
      words := words[b := self];
      SumAdd(l, b, live[b]);
      r := b + WSIZE;
    }

    // ---------- gfs_mem_malloc ----------

    /** Bytes this pool holds from malloc. */
    ghost function Footprint(): int
      reads this
    {
      4096 * |pages| + LargeSum(larges)
    }

    method Malloc(n: int) returns (r: int)
      requires Valid() && 0 <= n < UINT_LIMIT
      modifies this
      ensures n == 0 ==> r == 0 && unchanged(this)
      ensures 0 < n <= MIN_LARGE_SIZE ==>
                && Valid() && larges == old(larges)
                && r - WSIZE !in old(live) && r - WSIZE in live && live == old(live)[r - WSIZE := live[r - WSIZE]]
                && BlockSize(n) <= live[r - WSIZE] < BlockSize(n) + BLOCK_MIN && n <= live[r - WSIZE] - 24
      ensures 0 < n <= MIN_LARGE_SIZE ==>
                || (pages == old(pages) && size == old(size)
                    && FirstIn(old(buckets), old(blocks), FirstBucket(BlockSize(n)), BlockSize(n), r - WSIZE))
                || (NoFit(old(buckets), old(blocks), FirstBucket(BlockSize(n)), BlockSize(n))
                    && |pages| == |old(pages)| + initPages && pages[initPages..] == old(pages)
                    && size == old(size) + 4096 * initPages)
      ensures n > MIN_LARGE_SIZE ==> larges == old(larges) + [Large(r - 48, LargeTotal(n))]
      ensures MIN_LARGE_SIZE < n <= UINT_LIMIT - 56 ==>
                Valid() && LargeTotal(n) >= n + 48 && live == old(live) && pages == old(pages) && size == old(size)
      ensures n <= UINT_LIMIT - 56 ==> UserDataKept(old(words), words, old(live), old(larges))
      ensures 0 < n <= UINT_LIMIT - 56 ==> NewRegion(old(live), old(larges), live, larges, n, r)
      ensures allsize - Footprint() == old(allsize) - old(Footprint()) && initPages == old(initPages)
    {
      hide Layout, Owned, LargesOk, RecordsOk, InitTags, RegionsOk, PagesOwned, NoDup, UserDataKept, NoFit, FirstIn,
           BlockSize, LargeSum, Sum, NewRegion;
      KeptTransitive(words, words, words, live, larges);
      if n == 0 {
        return 0;
      }
      if n > MIN_LARGE_SIZE {
        r := MallocLarge(n);
      } else {
        r := MallocSmall(n);
      }
      if n <= UINT_LIMIT - 56 {
        RegionIsNew(old(live), old(larges), n, r);
      }
    }

    lemma RegionIsNew(live0: map<int, int>, larges0: seq<Large>, n: int, r: int)
      requires Valid() && 0 < n <= UINT_LIMIT - 56
      requires n <= MIN_LARGE_SIZE ==> r - 8 !in live0 && r - 8 in live && live == live0[r - 8 := live[r - 8]]
                                       && n <= live[r - 8] - 24
      requires n <= MIN_LARGE_SIZE ==> larges == larges0
      requires n > MIN_LARGE_SIZE ==> larges == larges0 + [Large(r - 48, LargeTotal(n))] && LargeTotal(n) >= n + 48
                                      && live == live0
      ensures NewRegion(live0, larges0, live, larges, n, r)
    {
      var u := NewUser(n, r);
      hide LargeTotal;
      if u.BigUser? {
        assert larges[|larges0|] == u.l;
        forall j | 0 <= j < |larges0|
          ensures larges0[j] != u.l
        {
          assert larges[j] == larges0[j];
        }
      }
      forall a | r <= a < r + n
        ensures NewByte(live0, larges0, live, larges, u, a)
      {
        UsersDisjoint(u, a);
        forall v
          ensures !UserByte(live0, larges0, v, a)
        {
          assert UserByte(live0, larges0, v, a) ==> UserByte(live, larges, v, a);
        }
      }
    }

    method MallocSmall(n: int) returns (r: int)
      requires Valid() && 0 < n <= MIN_LARGE_SIZE
      modifies this`words, this`regions, this`allsize, this`size, this`used, this`msize, this`buckets, this`blocks,
               this`live, this`pages, this`covered
      ensures Valid()
      ensures r - WSIZE !in old(live) && r - WSIZE in live && live == old(live)[r - WSIZE := live[r - WSIZE]]
      ensures BlockSize(n) <= live[r - WSIZE] < BlockSize(n) + BLOCK_MIN && n <= live[r - WSIZE] - 24
      ensures || (pages == old(pages) && size == old(size) && allsize == old(allsize)
                  && FirstIn(old(buckets), old(blocks), FirstBucket(BlockSize(n)), BlockSize(n), r - WSIZE))
              || (NoFit(old(buckets), old(blocks), FirstBucket(BlockSize(n)), BlockSize(n))
                  && |pages| == |old(pages)| + initPages && pages[initPages..] == old(pages)
                  && size == old(size) + 4096 * initPages && allsize == old(allsize) + 4096 * initPages)
      ensures UserDataKept(old(words), words, old(live), larges)
    {
      hide Layout, Owned, LargesOk, RecordsOk, InitTags, RegionsOk, PagesOwned, NoDup, UserDataKept, NoFit, FirstIn,
           Bucket, Sum, LargeSum;
      FirstProbeFits(n, 0);
      var asize := if n <= DSIZE then BLOCK_MIN else Align8(n) + 2 * DSIZE;
      var i := GetIndex(asize);
      i := if i < 7 && asize > Pow2(i + 4) then i + 1 else i;
      var found, b := FindInLists(i, asize);
      KeptTransitive(words, words, words, live, larges);
      if !found {
        Extend();
        found, b := FindInLast(asize);
      }
      ghost var between := words;
      r := TakeBlock(b, asize);
      KeptTransitive(old(words), between, words, old(live), larges);
    }

    // ---------- gfs_mem_free ----------

    method Free(ptr: int)
      requires Valid()
      requires ptr == 0 || ptr - WSIZE in live || exists i :: 0 <= i < |larges| && larges[i].addr + 48 == ptr
      modifies this
      ensures Valid() && initPages == old(initPages) && pages == old(pages) && size == old(size)
      ensures ptr == 0 ==> unchanged(this)
      ensures ptr != 0 && ptr - WSIZE in old(live) ==> live == old(live) - {ptr - WSIZE} && larges == old(larges)
      ensures ptr != 0 && ptr - WSIZE !in old(live) ==>
                exists l :: l in old(larges) && l.addr + 48 == ptr && larges == Without(old(larges), l)
                            && live == old(live)
      ensures UserDataKept(old(words), words, live, larges)
      ensures allsize - Footprint() == old(allsize) - old(Footprint())
    {
      hide Layout, Owned, LargesOk, RecordsOk, InitTags, RegionsOk, PagesOwned, NoDup, UserDataKept, GetSize, GetLarge;
      KeptTransitive(words, words, words, live, larges);
      if ptr == 0 {
        return;
      }
      var b := ptr - WSIZE;
      FreeReads(words, blocks, covered, buckets, live, regions, pages, larges, self, ptr);
      assert words[b] == self;  // the pool the block names is this one
      var n := GetSize(words[b - WSIZE]);
      used := used - n;
      msize := msize - n;
      if GetLarge(words[b - WSIZE]) != 0 {
        FreeLarge(b, n);
      } else {
        // header and footer agree, so the exit for a block written over is not taken
        assert words[b - WSIZE] == words[b + n - DSIZE];
        SumTake(live, b);
        FreeBlock(b, n);
      }
    }

    method FreeLarge(b: int, n: int)
      requires Placement(initPages) && Large(b - 40, n) in larges
      modifies this`larges, this`regions, this`allsize
      ensures Placement(initPages) && larges == Without(old(larges), Large(b - 40, n))
      ensures LargeSum(larges) == LargeSum(old(larges)) - n && allsize == old(allsize) - n
      ensures UserDataKept(words, words, live, larges)
    {
      hide Layout, Owned, LargesOk, RecordsOk, InitTags, RegionsOk, PagesOwned, NoDup, UserDataKept;
      KeptTransitive(words, words, words, live, Without(larges, Large(b - 40, n)));
      LargeRemoved(words, regions, pages, self, larges, Large(b - 40, n));
      larges := Without(larges, Large(b - LARGE_RECORD - WSIZE, n));
      FreeInternal(b - LARGE_RECORD - WSIZE, n);
    }

    method FreeBlock(b: int, n: int)
      requires Placement(initPages) && b in live && n == live[b]
      modifies this`words, this`buckets, this`blocks, this`live
      ensures Placement(initPages) && live == old(live) - {b}
      ensures UserDataKept(old(words), words, live, larges)
    {
      hide Layout, Owned, LargesOk, RecordsOk, InitTags, RegionsOk, PagesOwned, NoDup, UserDataKept, SameOutside,
           Freeing, Joined, JoinedAt, JoinedSize, OutsideLive;
      ReadLive(words, blocks, covered, buckets, live, b);
      LiveBlock(words, blocks, covered, buckets, live, pages, self, b);
      ghost var m, freed := blocks, SetStatus(blocks, b, Status.Free);
      PutTags(b, n, UNALLOCATED);
      FreedBlock(old(words), words, blocks, covered, buckets, live, b);
      blocks, live := freed, live - {b};
      ghost var w1 := words;
      var r := Coalesce(b);
      FreedKept(old(words), w1, words, m, freed, blocks, covered, buckets, live, pages, b, r);
      WordsKept(old(words), words, regions, pages, live, larges, self, initPages, freed[b].page, r,
                r + JoinedSize(freed, b));
    }

    // ---------- gfs_mem_pool_reset and gfs_mem_pool_destory ----------

    /** The loop both share: every large region goes back to malloc. */
    method FreeLarges() returns (freed: seq<int>)
      requires Placement(initPages)
      modifies this`larges, this`regions, this`allsize
      ensures Placement(initPages) && larges == [] && freed == Addresses(old(larges))
      ensures allsize == old(allsize) - LargeSum(old(larges)) && regions == old(regions) - PageSet(freed)
    {
      hide Layout, Owned, LargesOk, RecordsOk, InitTags, RegionsOk, PagesOwned, NoDup;
      freed := [];
      while larges != []
        invariant Placement(initPages)
        invariant allsize - LargeSum(larges) == old(allsize) - LargeSum(old(larges))
        invariant regions == old(regions) - PageSet(freed) && freed + Addresses(larges) == Addresses(old(larges))
        decreases |larges|
      {
        var l := larges[0];
        LargeRemoved(words, regions, pages, self, larges, l);
        AddressesStep(larges, freed);
        larges := Without(larges, l);
        FreeInternal(l.addr, l.size);
        freed := freed + [l.addr];
      }
    }

    /** Empties the pool: pages it started with are laid out afresh, the others are freed. */
    method Reset()
      requires Valid()
      modifies this
      ensures Valid() && live == map[] && larges == [] && initPages == old(initPages)
      ensures pages == old(pages)[|old(pages)| - initPages..] && size == 4096 * |pages|
      ensures allsize - Footprint() == old(allsize) - old(Footprint())
    {
      hide Layout, Owned, LargesOk, RecordsOk, InitTags, RegionsOk, PagesOwned, NoDup, ResetState, LargeSum, Sum,
           Addresses, PageSet;
      var freed := FreeLarges();
      size := initPages * 4096;
      used := 0;
      msize := 0;
      ghost var list, e := pages, |pages| - initPages;
      ResetStarts(words, regions, blocks, covered, buckets, live, list, e);
      buckets := EMPTY_BUCKETS;
      blocks, live, covered := map[], map[], {};
      ResetPages(e);
      NoSums();
      assert |pages| == initPages && pages[|pages| - 1] == list[|list| - 1];
    }

    method ResetPages(ghost e: int)
      requires live == map[] && used == 0 && 0 <= e < |pages|
      requires ResetState(words, regions, blocks, covered, buckets, pages, e, 0)
      modifies this`words, this`buckets, this`blocks, this`covered, this`used, this`pages, this`regions, this`allsize
      ensures pages == old(pages)[e..] && used == 64 * |pages| + 224 && allsize == old(allsize) - 4096 * e
      ensures Layout(words, blocks, covered, buckets, live) && covered == PageSet(pages) && NoDup(pages)
      ensures RecordsOk(blocks, pages) && InitTags(words, pages, |pages|) && RegionsOk(regions)
              && PagesOwned(regions, pages)
      ensures Owned(words, live, self) && LargesOk(words, regions, pages, self, [])
    {
      hide Layout, Owned, LargesOk, RecordsOk, InitTags, RegionsOk, PagesOwned, NoDup, ResetState;
      var list := pages;
      assert list[0..] == list;
      var k := 0;
      while k < |list|
        invariant 0 <= k <= |list| && pages == list[Dropped(e, k)..]
        invariant ResetState(words, regions, blocks, covered, buckets, list, e, k)
        invariant used == ResetUsed(|list|, e, k) && allsize == old(allsize) - 4096 * Dropped(e, k)
      {
        ResetPage(list, e, k);
        k := k + 1;
      }
      ResetEnds(words, regions, blocks, covered, buckets, list, e, self);
    }

    /** One page: dropped, or rebuilt. */
    method ResetPage(list: seq<int>, ghost e: int, k: int)
      requires 0 <= k < |list| && 0 <= e < |list| && pages == list[Dropped(e, k)..] && live == map[]
      requires ResetState(words, regions, blocks, covered, buckets, list, e, k) && used == ResetUsed(|list|, e, k)
      modifies this`words, this`buckets, this`blocks, this`covered, this`used, this`pages, this`regions, this`allsize
      ensures pages == list[Dropped(e, k + 1)..] && allsize - old(allsize) == 4096 * (Dropped(e, k) - Dropped(e, k + 1))
      ensures ResetState(words, regions, blocks, covered, buckets, list, e, k + 1)
              && used == ResetUsed(|list|, e, k + 1)
    {
      hide ResetState, GetInit;
      ResetReads(words, regions, blocks, covered, buckets, list, e, k);
      if GetInit(words[list[k]]) != 0 {
        RebuildPage(list, e, k);
      } else {
        DropPage(list, e, k);
      }
    }

    /** The page leaves the list and goes back to malloc. */
    method DropPage(list: seq<int>, ghost e: int, k: int)
      requires 0 <= k < e <= |list| && pages == list[k..]
      requires ResetState(words, regions, blocks, covered, buckets, list, e, k)
      modifies this`pages, this`regions, this`allsize
      ensures pages == list[k + 1..] && allsize == old(allsize) - PAGESIZE
      ensures ResetState(words, regions, blocks, covered, buckets, list, e, k + 1)
    {
      ResetDrops(words, regions, blocks, covered, buckets, list, e, k);
      hide ResetState;
      pages := Without(pages, list[k]);
      FreeInternal(list[k], PAGESIZE);
    }

    /** Behind the page record, one free block again. */
    method RebuildPage(list: seq<int>, ghost e: int, k: int)
      requires 0 <= e <= k < |list| && live == map[]
      requires ResetState(words, regions, blocks, covered, buckets, list, e, k)
      modifies this`words, this`buckets, this`blocks, this`covered, this`used
      ensures ResetState(words, regions, blocks, covered, buckets, list, e, k + 1)
      ensures used == old(used) + 64 + (if k == |list| - 1 then POOL_RECORD else 0)
    {
      hide ResetState, Inserted, GetSize;
      ResetReads(words, regions, blocks, covered, buckets, list, e, k);
      var page := list[k] + DSIZE;
      var n := PAGESIZE - GetSize(words[page - WSIZE]) - DSIZE;
      var b := page + GetSize(words[page - WSIZE]);
      PutTags(b, n, UNALLOCATED);
      var i := GetIndex(n);
      buckets := Inserted(buckets, i, b);
      used := used + (PAGESIZE - n);
      ghost var m, c := ResetRebuilds(old(words), words, regions, blocks, covered, old(buckets), buckets, list, e, k);
      blocks, covered := m, c;
    }

    /** Gives everything back; the page with the pool structure goes last. */
    method Destroy() returns (freed: seq<int>)
      requires Valid()
      modifies this
      ensures freed == Addresses(old(larges)) + old(pages) && freed[|freed| - 1] + DSIZE + PAGE_RECORD == old(self)
      ensures regions == old(regions) - PageSet(freed) && allsize == old(allsize) - old(Footprint())
    {
      hide Layout, Owned, LargesOk, RecordsOk, InitTags, RegionsOk, NoDup, PagesOwned;
      freed := FreeLarges();
      ghost var larged := freed;
      var list := pages;
      assert list[0..] == list && list[..0] == [];
      var k := 0;
      while k < |list|
        invariant 0 <= k <= |list| && pages == list[k..] && freed == larged + list[..k]
        invariant NoDup(list) && PagesOwned(regions, list[k..])
        invariant regions == old(regions) - PageSet(freed)
        invariant allsize == old(allsize) - LargeSum(old(larges)) - 4096 * k
      {
        PageGoes(regions, list, k);
        assert list[k] != 0 && list[k] in regions && list[|list| - 1] in regions;  // the list head is still there
        pages := Without(pages, list[k]);
        FreeInternal(list[k], PAGESIZE);
        freed := freed + [list[k]];
        assert list[..k + 1] == list[..k] + [list[k]];
        k := k + 1;
      }
    }

    /** A user writes a word of a region, small or large: nothing the allocator relies on changes. */
    method Store(ghost u: User, a: int, v: int)
      requires Valid() && UserByte(live, larges, u, a)
      modifies this`words
      ensures Valid() && words == old(words)[a := v]
    {
      hide Layout, Owned, LargesOk, RecordsOk, InitTags, RegionsOk, PagesOwned, NoDup;
      if u.Small? {
        UserWord(words, blocks, covered, buckets, live, regions, pages, larges, self, initPages, u.b, a, v);
        StoreOwned(words, blocks, covered, buckets, live, self, u.b, a, v);
      } else {
        LargeWord(words, blocks, covered, buckets, live, regions, pages, larges, self, initPages, u.l, a, v);
      }
      words := words[a := v];
    }

    /** A byte that belongs to a user, in a small or a large region, belongs to no other user, to no
        header or footer of a block, to no sentinel of a page, and to no record of a large region. */
    lemma UsersDisjoint(u: User, a: int)
      requires Valid() && UserByte(live, larges, u, a)
      ensures forall v :: UserByte(live, larges, v, a) ==> v == u
      ensures forall c :: c in blocks ==> !(c - 8 <= a < c) && !(c + blocks[c].size - 16 <= a < c + blocks[c].size - 8)
      ensures forall p :: p in pages ==> !(p <= a < p + 8) && !(p + PAGESIZE - 8 <= a < p + PAGESIZE)
      ensures forall l :: l in larges ==> !(l.addr <= a < l.addr + 48)
    {
      if u.Small? {
        SmallByte(words, blocks, covered, buckets, live, regions, pages, larges, self, u.b, a);
      } else {
        LargeByte(words, blocks, covered, buckets, live, regions, pages, larges, self, u.l, a);
      }
    }

    /** After an extension the last list has a fit, so the NULL return there is never taken. */
    method FindInLast(asize: int) returns (found: bool, b: int)
      requires Valid() && asize <= PAGESIZE - 64
      requires exists c :: c in buckets[7] && c in blocks && blocks[c].size == PAGESIZE - 64
      ensures found && b in blocks && blocks[b].status.Free? && blocks[b].size >= asize
      ensures FirstAt(buckets, blocks, 7, asize, b, 7)
    {
      found, b := FindFit(7, asize);
    }

    method MallocLarge(n: int) returns (r: int)
      requires Valid() && MIN_LARGE_SIZE < n < UINT_LIMIT
      modifies this`words, this`regions, this`allsize, this`used, this`msize, this`larges
      ensures larges == old(larges) + [Large(r - 48, LargeTotal(n))]
      ensures n <= UINT_LIMIT - 56 ==> Valid() && LargeTotal(n) >= n + 48
                                       && UserDataKept(old(words), words, live, old(larges))
      ensures allsize - Footprint() == old(allsize) - old(Footprint())
    {
      hide Layout, Owned, LargesOk, RecordsOk, InitTags, RegionsOk, PagesOwned, NoDup, UserDataKept, FreshRegion,
           SameOutside, LargeSum, Sum;
      var total := (Align8(n) % UINT_LIMIT + LARGE_RECORD + DSIZE) % UINT_LIMIT;
      assert total == LargeTotal(n);
      hide LargeTotal, Align8;
      LargeFitsIff(n);
      LargeTotalAligned(n);
      var base := MallocInternal(total);
      used := used + total;
      msize := msize + total;
      larges := larges + [Large(base, total)];
      words := words[base + LARGE_RECORD := Pack(total, ALLOCATED + LARGE)];
      words := words[base + LARGE_RECORD + WSIZE := self];
      r := base + LARGE_RECORD + DSIZE;
      LargeSumAppend(old(larges), Large(base, total));
      if n <= UINT_LIMIT - 56 {
        LargeKept(old(words), words, old(regions), blocks, covered, buckets, live, pages, old(larges), self,
                  initPages, base, total);
      }
    }
  }

  lemma LargeTotalAligned(n: int)
    ensures 0 <= LargeTotal(n) && LargeTotal(n) % 8 == 0
  {
  }

  lemma {:induction false} LargeSumAppend(larges: seq<Large>, l: Large)
    ensures LargeSum(larges + [l]) == LargeSum(larges) + l.size
  {
    if larges != [] {
      assert (larges + [l])[1..] == larges[1..] + [l];
      LargeSumAppend(larges[1..], l);
    }
  }

  /** A fresh large region, with its tag and owner written, joins the list. */
  lemma LargeKept(words: Words, words': Words, regions: map<int, int>, m: Blocks, covered: set<int>, bk: Buckets,
                  live: map<int, int>,
                  pages: seq<int>, larges: seq<Large>, self: int, n: int, base: int, total: int)
    requires Layout(words, m, covered, bk, live) && covered == PageSet(pages) && RegionsOk(regions)
             && PagesOwned(regions, pages)
    requires FreshRegion(regions, base, total) && total % 8 == 0 && total >= 48
    requires Owned(words, live, self) && LargesOk(words, regions, pages, self, larges) && InitTags(words, pages, n)
    requires SameOutside(words, words', base, base + total)
    requires base + 32 in words' && words'[base + 32] == Pack(total, ALLOCATED + LARGE)
    requires base + 40 in words' && words'[base + 40] == self
    ensures Layout(words', m, covered, bk, live)
    ensures PagesOwned(regions[base := total], pages)
    ensures Owned(words', live, self) && InitTags(words', pages, n)
    ensures LargesOk(words', regions[base := total], pages, self, larges + [Large(base, total)])
    ensures UserDataKept(words, words', live, larges)
  {
    forall b | b in live
      ensures live[b] >= BLOCK_MIN && (b + live[b] <= base || base + total <= b - 8)
    {
      assert LiveAt(m, live, b) && BlockOk(m, covered, b);
      var i :| 0 <= i < |pages| && pages[i] == m[b].page;
    }
    LargesBeside(words, words', regions, pages, larges, self, base, total);
    LargeLayout(words, words', m, covered, bk, live, regions, pages, base, total);
    forall i | 0 <= i < |pages|
      ensures pages[i] in words' && words'[pages[i]] == words[pages[i]]
    {
      assert pages[i] in words && pages[i] in regions;
    }
  }

  /** The reads of gfs_mem_free find the block's pool, its size and whether it is large. */
  lemma FreeReads(words: Words, m: Blocks, covered: set<int>, bk: Buckets, live: map<int, int>, regions: map<int, int>,
                  pages: seq<int>, larges: seq<Large>, self: int, ptr: int)
    requires Layout(words, m, covered, bk, live) && Owned(words, live, self)
             && LargesOk(words, regions, pages, self, larges)
    requires ptr - 8 in live || exists i :: 0 <= i < |larges| && larges[i].addr + 48 == ptr
    ensures ptr - 16 in words && ptr - 8 in words && words[ptr - 8] == self
    ensures var n := GetSize(words[ptr - 16]);
            if ptr - 8 in live then
              && GetLarge(words[ptr - 16]) == 0 && n == live[ptr - 8]
              && ptr + n - 24 in words && words[ptr + n - 24] == words[ptr - 16]
            else GetLarge(words[ptr - 16]) != 0 && Large(ptr - 48, n) in larges
  {
    if ptr - 8 in live {
      ReadLive(words, m, covered, bk, live, ptr - 8);
      PackReads(live[ptr - 8], ALLOCATED);
    } else {
      var i :| 0 <= i < |larges| && larges[i].addr + 48 == ptr;
      assert LargeOk(words, regions, pages, self, larges[i]);
      PackReads(larges[i].size, ALLOCATED + LARGE);
      assert larges[i] == Large(ptr - 48, larges[i].size);
    }
  }

  lemma LargeRemoved(words: Words, regions: map<int, int>, pages: seq<int>, self: int, larges: seq<Large>, l: Large)
    requires LargesOk(words, regions, pages, self, larges) && l in larges && RegionsOk(regions)
             && PagesOwned(regions, pages)
    ensures l.addr != 0 && l.size != 0 && l.addr in regions && l.addr !in pages
    ensures LargesOk(words, regions - {l.addr}, pages, self, Without(larges, l))
    ensures RegionsOk(regions - {l.addr}) && PagesOwned(regions - {l.addr}, pages)
    ensures LargeSum(Without(larges, l)) == LargeSum(larges) - l.size
  {
    var i :| 0 <= i < |larges| && larges[i] == l;
    assert LargeOk(words, regions, pages, self, larges[i]);
    WithoutAt(larges, l, i);
    RegionRemoved(regions, pages, l.addr);
    LargesWithout(words, regions, pages, self, larges, i);
  }

  lemma RegionRemoved(regions: map<int, int>, pages: seq<int>, a: int)
    requires RegionsOk(regions)
    ensures RegionsOk(regions - {a})
    ensures a !in pages && PagesOwned(regions, pages) ==> PagesOwned(regions - {a}, pages)
  {
    var r' := regions - {a};
    forall x | x in r'
      ensures r'[x] >= 0
    {
    }
    forall x, y | x in r' && y in r' && x < y
      ensures x + r'[x] <= y
    {
    }
  }

  lemma LargesWithout(words: Words, regions: map<int, int>, pages: seq<int>, self: int, larges: seq<Large>, i: int)
    requires LargesOk(words, regions, pages, self, larges) && 0 <= i < |larges|
    ensures LargesOk(words, regions - {larges[i].addr}, pages, self, larges[..i] + larges[i + 1..])
  {
    var rest := larges[..i] + larges[i + 1..];
    forall j | 0 <= j < |rest|
      ensures rest[j] == larges[if j < i then j else j + 1]
              && LargeOk(words, regions - {larges[i].addr}, pages, self, rest[j])
    {
      assert LargeOk(words, regions, pages, self, rest[j]);
    }
  }

  lemma {:induction false} WithoutAt(larges: seq<Large>, l: Large, i: int)
    requires 0 <= i < |larges| && larges[i] == l
    requires forall j, k :: 0 <= j < k < |larges| ==> larges[j].addr != larges[k].addr
    ensures Without(larges, l) == larges[..i] + larges[i + 1..]
    ensures LargeSum(Without(larges, l)) == LargeSum(larges) - l.size
  {
    if i > 0 {
      assert larges[0] != l;
      WithoutAt(larges[1..], l, i - 1);
      assert Without(larges, l)[1..] == Without(larges[1..], l);
    }
  }

  lemma LiveBlock(words: Words, m: Blocks, covered: set<int>, bk: Buckets, live: map<int, int>, pages: seq<int>,
                  self: int, b: int)
    requires Layout(words, m, covered, bk, live) && covered == PageSet(pages) && b in live && RecordsOk(m, pages)
    requires Owned(words, live, self)
    ensures Owned(words, live - {b}, self)
    ensures b in m && m[b].status.User? && b != m[b].page + DSIZE && m[b].page in pages
  {
    assert LiveAt(m, live, b) && BlockOk(m, covered, b);
    var i :| 0 <= i < |pages| && pages[i] == m[b].page;
  }

  /** After freeing block b: what lies outside the joined block is as before. */
  lemma FreedKept(w0: Words, w1: Words, w2: Words, m: Blocks, freed: Blocks, m': Blocks, covered: set<int>, bk: Buckets,
                  live: map<int, int>, pages: seq<int>, b: int, r: int)
    requires b in m && m[b].status.User? && freed == SetStatus(m, b, Free) && m' == Joined(freed, b)
             && r == JoinedAt(freed, b)
    requires Tiling(freed, covered) && Coalesced(freed, {b}) && covered == PageSet(pages)
    requires Layout(w2, m', covered, bk, live) && RecordsOk(m, pages) && b != m[b].page + DSIZE
    requires w1 == w0[b - WSIZE := m[b].size][b + m[b].size - DSIZE := m[b].size]
    requires SameOutside(w1, w2, r - WSIZE, r + JoinedSize(freed, b) - WSIZE)
    ensures RecordsOk(m', pages)
    ensures SameOutside(w0, w2, r - WSIZE, r + JoinedSize(freed, b) - WSIZE)
    ensures OutsideLive(live, r, r + JoinedSize(freed, b))
    ensures freed[b].page in pages && freed[b].page + DSIZE <= r
    ensures r + JoinedSize(freed, b) <= freed[b].page + PAGESIZE && JoinedSize(freed, b) >= 0
  {
    assert BlockOk(freed, covered, b) && BlockOk(freed, covered, freed[b].prev);
    JoinedBlocks(freed, covered, b);
    FreeBlockKept(w2, m', covered, bk, live, pages, r);
    assert BlockOk(m', covered, r);
    JoinedPage(freed, covered, b);
    FreedRecords(m, freed, m', pages, b, r);
  }

  lemma FreedRecords(m: Blocks, freed: Blocks, m': Blocks, pages: seq<int>, b: int, r: int)
    requires b in m && m[b].status.User? && freed == SetStatus(m, b, Free) && r == JoinedAt(freed, b)
    requires OthersKept(freed, m', r) && RecordsOk(m, pages)
    requires m'.Keys == freed.Keys
                           - (if NextFree(freed, b) then {b + freed[b].size} else {})
                           - (if PrevFree(freed, b) then {b} else {})
    ensures RecordsOk(m', pages)
  {
    forall i | 0 <= i < |pages|
      ensures var h := pages[i] + DSIZE; h in m' && m'[h].size == m[h].size && m'[h].status.Record?
    {
      var h := pages[i] + DSIZE;
      assert h in m && m[h].status.Record?;
      assert h in freed && freed[h] == m[h] && h != r;
    }
  }

  lemma JoinedPage(m: Blocks, pages: set<int>, b: int)
    requires Tiling(m, pages) && b in m && m[b].status.Free? && Coalesced(m, {b})
    ensures m[b].page + DSIZE <= JoinedAt(m, b) <= b
    ensures b + m[b].size <= JoinedAt(m, b) + JoinedSize(m, b) <= m[b].page + PAGESIZE
  {
    assert BlockOk(m, pages, b) && BlockOk(m, pages, m[b].prev);
    if HasNext(m, b) {
      assert BlockOk(m, pages, b + m[b].size);
    }
  }

  lemma LargesBeside(words: Words, words': Words, regions: map<int, int>, pages: seq<int>, larges: seq<Large>,
                     self: int, base: int, total: int)
    requires FreshRegion(regions, base, total) && total % 8 == 0 && total >= 48 && PagesOwned(regions, pages)
    requires LargesOk(words, regions, pages, self, larges)
    requires SameOutside(words, words', base, base + total)
    requires base + 32 in words' && words'[base + 32] == Pack(total, ALLOCATED + LARGE)
    requires base + 40 in words' && words'[base + 40] == self
    ensures LargesOk(words', regions[base := total], pages, self, larges + [Large(base, total)])
    ensures forall i :: 0 <= i < |larges| ==> larges[i].addr + larges[i].size <= base || base + total <= larges[i].addr
  {
    var larges' := larges + [Large(base, total)];
    forall i | 0 <= i < |larges|
      ensures LargeOk(words', regions[base := total], pages, self, larges[i]) && larges[i].addr != base
      ensures larges[i].addr + larges[i].size <= base || base + total <= larges[i].addr
    {
      assert LargeOk(words, regions, pages, self, larges[i]);
    }
    assert base !in pages;
  }

  lemma LargeLayout(words: Words, words': Words, m: Blocks, covered: set<int>, bk: Buckets, live: map<int, int>,
                    regions: map<int, int>, pages: seq<int>, base: int, total: int)
    requires Layout(words, m, covered, bk, live) && covered == PageSet(pages) && PagesOwned(regions, pages)
    requires FreshRegion(regions, base, total) && SameOutside(words, words', base, base + total)
    ensures Layout(words', m, covered, bk, live)
  {
    forall q | q in covered
      ensures SentinelOk(words', q) && (q + PAGESIZE <= base || base + total <= q)
    {
      assert SentinelOk(words, q);
      var i :| 0 <= i < |pages| && pages[i] == q;
    }
    forall b | b in m
      ensures TagOk(words', m, b)
    {
      assert TagOk(words, m, b) && BlockOk(m, covered, b);
    }
  }

  ghost function Addresses(larges: seq<Large>): seq<int>
  {
    seq(|larges|, i requires 0 <= i < |larges| => larges[i].addr)
  }

  lemma AddressesStep(larges: seq<Large>, freed: seq<int>)
    requires larges != []
    ensures Without(larges, larges[0]) == larges[1..]
    ensures freed + [larges[0].addr] + Addresses(larges[1..]) == freed + Addresses(larges)
  {
  }

  lemma PageGoes(regions: map<int, int>, list: seq<int>, k: int)
    requires 0 <= k < |list| && NoDup(list) && PagesOwned(regions, list[k..])
    ensures list[k] != 0 && list[k] in regions && list[|list| - 1] in regions
    ensures Without(list[k..], list[k]) == list[k + 1..] && PagesOwned(regions - {list[k]}, list[k + 1..])
  {
    var own, rest := list[k..], list[k + 1..];
    assert own[0] == list[k] && own[|list| - 1 - k] == list[|list| - 1];
    forall i | 0 <= i < |rest|
      ensures rest[i] == own[i + 1] && rest[i] != list[k]
    {
    }
  }

  // ---------- Resetting, on values ----------

  /** Pages before e are not INITIAL and go; pages e .. k - 1 have been laid out afresh; in the
      others the record's tags are still in place. */
  ghost predicate ResetState(words: Words, regions: map<int, int>, m: Blocks, covered: set<int>, bk: Buckets,
                             list: seq<int>, e: int, k: int)
  {
    && 0 <= k <= |list| && 0 <= e < |list| && NoDup(list) && RegionsOk(regions)
    && PagesOwned(regions, list[Dropped(e, k)..])
    && Layout(words, m, covered, bk, map[]) && covered == PageSet(if k < e then [] else list[e..k])
    && (forall i :: (if k < e then k else e) <= i < |list| ==> PageTags(words, list, e, i))
    && (forall i :: e <= i < k ==> list[i] + 16 in m && m[list[i] + 16].status.Record?
                                   && m[list[i] + 16].size == RecordAt(list, i))
  }

  function RecordAt(list: seq<int>, i: int): int
  {
    if i == |list| - 1 then 272 else 48
  }

  /** How many pages have gone before page k. */
  ghost function Dropped(e: nat, k: nat): (d: nat)
    ensures d <= k && d <= e
  {
    if k < e then k else e
  }

  ghost function ResetUsed(n: int, e: int, k: int): int
  {
    if k <= e then 0 else 64 * (k - e) + if k == n then 224 else 0
  }

  /** In memory: both sentinels of a page, and the tags of its record. */
  ghost predicate PageTags(words: Words, list: seq<int>, e: int, i: int)
    requires 0 <= i < |list|
  {
    var p, r := list[i], RecordAt(list, i);
    && p in words && words[p] == (if i >= e then 3 else 1)
    && p + 4088 in words && words[p + 4088] == words[p]
    && p + 8 in words && words[p + 8] == r + 1 && p + r in words && words[p + r] == r + 1
  }

  lemma ResetStarts(words: Words, regions: map<int, int>, m: Blocks, covered: set<int>, bk: Buckets,
                    live: map<int, int>, list: seq<int>, e: int)
    requires Layout(words, m, covered, bk, live) && covered == PageSet(list) && RecordsOk(m, list)
    requires 0 <= e < |list| && InitTags(words, list, |list| - e) && NoDup(list) && RegionsOk(regions)
             && PagesOwned(regions, list)
    ensures ResetState(words, regions, map[], {}, EMPTY_BUCKETS, list, e, 0)
  {
    EmptyLayout(words);
    assert list[0..] == list && list[0..0] == [] && PageSet([]) == {};
    forall i | 0 <= i < |list|
      ensures PageTags(words, list, e, i)
    {
      PageTagsAt(words, m, covered, list, e, i);
    }
    hide Layout;
  }

  lemma PageTagsAt(words: Words, m: Blocks, covered: set<int>, list: seq<int>, e: int, i: int)
    requires Tags(words, m, covered) && covered == PageSet(list) && RecordsOk(m, list)
    requires 0 <= e < |list| && InitTags(words, list, |list| - e) && 0 <= i < |list|
    ensures PageTags(words, list, e, i)
  {
    hide GetSize, GetAlloc;
    assert TagOk(words, m, list[i] + 16) && list[i] in covered && SentinelOk(words, list[i]);
  }

  lemma ResetReads(words: Words, regions: map<int, int>, m: Blocks, covered: set<int>, bk: Buckets, list: seq<int>,
                   e: int, k: int)
    requires ResetState(words, regions, m, covered, bk, list, e, k) && k < |list|
    ensures list[k] in words && (GetInit(words[list[k]]) != 0 <==> k >= e)
    ensures list[k] + 8 in words && GetSize(words[list[k] + 8]) == RecordAt(list, k) && |bk| == 8
  {
    assert PageTags(words, list, e, k);
  }

  lemma ResetDrops(words: Words, regions: map<int, int>, m: Blocks, covered: set<int>, bk: Buckets, list: seq<int>,
                   e: int, k: int)
    requires ResetState(words, regions, m, covered, bk, list, e, k) && k < e
    ensures list[k] != 0 && list[k] in regions && Without(list[k..], list[k]) == list[k + 1..]
    ensures ResetState(words, regions - {list[k]}, m, covered, bk, list, e, k + 1)
  {
    PageGoes(regions, list, k);
    RegionRemoved(regions, [], list[k]);
    assert list[e..e] == [];
  }

  lemma ResetRebuilds(words: Words, words': Words, regions: map<int, int>, m: Blocks, covered: set<int>, bk: Buckets,
                      bk': Buckets,
                      list: seq<int>, e: int, k: int) returns (m': Blocks, covered': set<int>)
    requires ResetState(words, regions, m, covered, bk, list, e, k) && e <= k < |list|
    requires var p, r := list[k], RecordAt(list, k);
             && words' == words[p + r + 8 := 4080 - r][p + 4080 := 4080 - r]
             && bk' == Inserted(bk, Bucket(4080 - r), p + 16 + r)
    ensures ResetState(words', regions, m', covered', bk', list, e, k + 1)
  {
    var p, r := list[k], RecordAt(list, k);
    assert PageTags(words, list, e, k);
    ListApart(regions, list, e, k);
    RecordPageLayout(words, words', m, covered, bk, p, r, 3);
    m', covered' := Placed(WithPage(m, p), p + 16, r, Record), covered + {p};
    SliceGrows(list, e, k);
    RebuiltTags(words, words', list, e, k);
    RecordAtHead(m, p, r);
  }

  lemma SliceGrows(list: seq<int>, e: int, k: int)
    requires 0 <= e <= k < |list|
    ensures PageSet(list[e..k + 1]) == PageSet(list[e..k]) + {list[k]}
  {
    assert list[e..k + 1] == list[e..k] + [list[k]];
  }

  lemma RebuiltTags(words: Words, words': Words, list: seq<int>, e: int, k: int)
    requires 0 <= e <= k < |list| && forall i :: e <= i < |list| ==> PageTags(words, list, e, i)
    requires words' == words[list[k] + RecordAt(list, k)
                             + 8 := 4080 - RecordAt(list, k)][list[k] + 4080 := 4080 - RecordAt(list, k)]
    requires forall i :: e <= i < |list| && i != k ==> list[i] + PAGESIZE <= list[k] || list[k] + PAGESIZE <= list[i]
    ensures forall i :: e <= i < |list| ==> PageTags(words', list, e, i)
  {
    forall i | e <= i < |list|
      ensures PageTags(words', list, e, i)
    {
      assert PageTags(words, list, e, i);
    }
  }

  lemma RecordAtHead(m: Blocks, p: int, r: int)
    requires p + 16 !in m && p + 16 + r !in m && 48 <= r <= 272
    ensures var m' := Placed(WithPage(m, p), p + 16, r, Record);
            && p + 16 in m' && m'[p + 16].status.Record? && m'[p + 16].size == r
            && forall c :: c in m ==> c in m' && m'[c] == m[c]
  {
  }

  lemma ListApart(regions: map<int, int>, list: seq<int>, e: int, k: int)
    requires NoDup(list) && RegionsOk(regions) && 0 <= e <= k < |list| && PagesOwned(regions, list[e..])
    ensures forall i :: e <= i < |list| && i != k ==> list[i] + PAGESIZE <= list[k] || list[k] + PAGESIZE <= list[i]
    ensures forall q :: q in PageSet(list[e..k]) ==> q + PAGESIZE <= list[k] || list[k] + PAGESIZE <= q
    ensures list[k] in regions && list[k] % 8 == 0
  {
    var own := list[e..];
    assert own[k - e] == list[k];
    forall i | e <= i < |list| && i != k
      ensures list[i] + PAGESIZE <= list[k] || list[k] + PAGESIZE <= list[i]
    {
      assert own[i - e] == list[i];
      assert list[i] in regions && list[k] in regions && list[i] != list[k];
    }
    forall q | q in PageSet(list[e..k])
      ensures q + PAGESIZE <= list[k] || list[k] + PAGESIZE <= q
    {
      var j :| 0 <= j < |list[e..k]| && list[e..k][j] == q;
      assert list[e + j] == q;
    }
  }

  lemma ResetEnds(words: Words, regions: map<int, int>, m: Blocks, covered: set<int>, bk: Buckets, list: seq<int>,
                  e: int, self: int)
    requires ResetState(words, regions, m, covered, bk, list, e, |list|)
    ensures Layout(words, m, covered, bk, map[]) && covered == PageSet(list[e..]) && NoDup(list[e..])
    ensures RecordsOk(m, list[e..]) && InitTags(words, list[e..], |list| - e) && RegionsOk(regions)
            && PagesOwned(regions, list[e..])
    ensures Owned(words, map[], self) && LargesOk(words, regions, list[e..], self, [])
  {
    var own := list[e..];
    forall i | 0 <= i < |own|
      ensures own[i] == list[e + i] && PageTags(words, list, e, e + i)
    {
    }
  }

  lemma NoSums()
    ensures Sum(map[]) == 0 && LargeSum([]) == 0
  {
  }

  lemma EmptyLayout(words: Words)
    ensures Layout(words, map[], {}, EMPTY_BUCKETS, map[])
  {
  }

  /** The first page, written word by word, is laid out. */
  lemma FirstPageLayout(words: Words, w: Words, words': Words, p: int) returns (m: Blocks)
    requires p % 8 == 0 && SameOutside(words, w, p, p + PAGESIZE) && words' == FirstPageWords(w, p)
    ensures Layout(words', m, {p}, Inserted(EMPTY_BUCKETS, Bucket(3808), p + 288), map[])
    ensures RecordsOk(m, [p]) && InitTags(words', [p], 1) && PageSet([p]) == {p}
  {
    EmptyLayout(words);
    RecordPageLayout(words, words', map[], {}, EMPTY_BUCKETS, p, POOL_RECORD_SIZE, 3);
    m := Placed(WithPage(map[], p), p + DSIZE, POOL_RECORD_SIZE, Record);
    assert {} + {p} == {p};
  }

  ghost function FirstPageWords(w: Words, p: int): Words
  {
    w[p := 3][p + 4088 := 3][p + 8 := 273][p + 272 := 273][p + 280 := 3808][p + 4080 := 3808]
  }

  lemma StoreOwned(words: Words, m: Blocks, covered: set<int>, bk: Buckets, live: map<int, int>, self: int, b: int,
                   a: int, v: int)
    requires Layout(words, m, covered, bk, live) && Owned(words, live, self) && b in live
             && b + 8 <= a < b + live[b] - 16
    ensures Owned(words[a := v], live, self)
  {
    assert LiveAt(m, live, b);
    forall c | c in live
      ensures c != a
    {
      assert LiveAt(m, live, c) && Apart(m, b, c) && Apart(m, c, b);
    }
  }

  // ---------- What the invariant means ----------

  /** A byte of a small user region is in no other region and in nothing of the allocator. */
  lemma SmallByte(words: Words, m: Blocks, covered: set<int>, bk: Buckets, live: map<int, int>, regions: map<int, int>,
                  pages: seq<int>, larges: seq<Large>, self: int, b: int, a: int)
    requires Layout(words, m, covered, bk, live) && covered == PageSet(pages) && RegionsOk(regions)
             && PagesOwned(regions, pages)
    requires LargesOk(words, regions, pages, self, larges) && b in live && b + 8 <= a < b + live[b] - 16
    ensures forall v :: UserByte(live, larges, v, a) ==> v == Small(b)
    ensures forall c :: c in m ==> !(c - 8 <= a < c) && !(c + m[c].size - 16 <= a < c + m[c].size - 8)
    ensures forall p :: p in pages ==> !(p <= a < p + 8) && !(p + PAGESIZE - 8 <= a < p + PAGESIZE)
    ensures forall l :: l in larges ==> !(l.addr <= a < l.addr + 48)
  {
    assert LiveAt(m, live, b) && BlockOk(m, covered, b);
    var q := m[b].page;
    forall c | c in m
      ensures !(c - 8 <= a < c) && !(c + m[c].size - 16 <= a < c + m[c].size - 8)
      ensures c in live && c + 8 <= a < c + live[c] - 16 ==> c == b
    {
      assert Apart(m, b, c) && Apart(m, c, b) && BlockOk(m, covered, c);
      assert c in live ==> LiveAt(m, live, c);
    }
    forall c | c in live
      ensures c in m
    {
      assert LiveAt(m, live, c);
    }
    forall i | 0 <= i < |larges|
      ensures !(larges[i].addr <= a < larges[i].addr + larges[i].size) && larges[i].size >= 48
    {
      assert LargeOk(words, regions, pages, self, larges[i]) && q in pages && q in regions;
    }
    forall p | p in pages
      ensures !(p <= a < p + 8) && !(p + PAGESIZE - 8 <= a < p + PAGESIZE)
    {
      assert p in regions && regions[p] == PAGESIZE && regions[q] == PAGESIZE;
    }
  }

  /** A byte of a large region is in no other region and in no page. */
  lemma LargeByte(words: Words, m: Blocks, covered: set<int>, bk: Buckets, live: map<int, int>, regions: map<int, int>,
                  pages: seq<int>, larges: seq<Large>, self: int, l: Large, a: int)
    requires Layout(words, m, covered, bk, live) && covered == PageSet(pages) && RegionsOk(regions)
             && PagesOwned(regions, pages)
    requires LargesOk(words, regions, pages, self, larges) && l in larges && l.addr + 48 <= a < l.addr + l.size
    ensures forall v :: UserByte(live, larges, v, a) ==> v == BigUser(l)
    ensures forall c :: c in m ==> m[c].size >= BLOCK_MIN && !(c - 8 <= a < c + m[c].size - 8)
    ensures forall p :: p in pages ==> !(p <= a < p + PAGESIZE)
    ensures forall o :: o in larges ==> !(o.addr <= a < o.addr + 48)
  {
    var i :| 0 <= i < |larges| && larges[i] == l;
    assert LargeOk(words, regions, pages, self, larges[i]);
    forall p | p in pages
      ensures !(p <= a < p + PAGESIZE)
    {
      assert p in regions && regions[p] == PAGESIZE;
    }
    forall c | c in m
      ensures m[c].size >= BLOCK_MIN && !(c - 8 <= a < c + m[c].size - 8)
    {
      assert BlockOk(m, covered, c) && m[c].page in pages;
    }
    forall c | c in live
      ensures c in m && live[c] == m[c].size
    {
      assert LiveAt(m, live, c);
    }
    forall j | 0 <= j < |larges|
      ensures !(larges[j].addr <= a < larges[j].addr + 48)
              && (larges[j].addr <= a < larges[j].addr + larges[j].size ==> j == i)
    {
      assert LargeOk(words, regions, pages, self, larges[j]);
    }
  }

  /** The user words of a large region are not read by the allocator. */
  lemma LargeWord(words: Words, m: Blocks, covered: set<int>, bk: Buckets, live: map<int, int>, regions: map<int, int>,
                  pages: seq<int>, larges: seq<Large>, self: int, n: int, l: Large, a: int, v: int)
    requires Layout(words, m, covered, bk, live) && covered == PageSet(pages) && RegionsOk(regions)
             && PagesOwned(regions, pages)
    requires LargesOk(words, regions, pages, self, larges) && InitTags(words, pages, n) && Owned(words, live, self)
    requires l in larges && l.addr + 48 <= a < l.addr + l.size
    ensures Layout(words[a := v], m, covered, bk, live) && Owned(words[a := v], live, self)
    ensures LargesOk(words[a := v], regions, pages, self, larges) && InitTags(words[a := v], pages, n)
  {
    var words' := words[a := v];
    LargeRemoved(words, regions, pages, self, larges, l);
    LargeBeside(words, regions, pages, larges, self, l);
    LargeLayout(words, words', m, covered, bk, live, regions - {l.addr}, pages, l.addr, l.size);
    LargeByte(words, m, covered, bk, live, regions, pages, larges, self, l, a);
    forall i | 0 <= i < |larges|
      ensures LargeOk(words', regions, pages, self, larges[i])
    {
      assert LargeOk(words, regions, pages, self, larges[i]) && larges[i] in larges;
    }
    forall b | b in live
      ensures b != a
    {
      assert LiveAt(m, live, b) && BlockOk(m, covered, b);
    }
  }

  lemma LargeBeside(words: Words, regions: map<int, int>, pages: seq<int>, larges: seq<Large>, self: int, l: Large)
    requires LargesOk(words, regions, pages, self, larges) && l in larges && RegionsOk(regions)
    ensures FreshRegion(regions - {l.addr}, l.addr, l.size)
  {
    var i :| 0 <= i < |larges| && larges[i] == l;
    assert LargeOk(words, regions, pages, self, larges[i]);
  }

  /** With no user block left, each page is its record and one free block. */
  lemma AllFreed(words: Words, m: Blocks, covered: set<int>, bk: Buckets, live: map<int, int>, pages: seq<int>, i: int)
    requires Layout(words, m, covered, bk, live) && live == map[] && covered == PageSet(pages) && RecordsOk(m, pages)
    requires 0 <= i < |pages|
    ensures var h := pages[i] + 16;
            var f := h + m[h].size;
            && f in m && m[f] == Block(4080 - m[h].size, Free, pages[i], h)
            && f in bk[7] && forall c :: c in m && m[c].page == pages[i] ==> c == h || c == f
  {
    var h := pages[i] + 16;
    var f := h + m[h].size;
    assert pages[i] in covered && PageOk(m, pages[i]) && BlockOk(m, covered, h);
    assert BlockOk(m, covered, f) && LiveAt(m, live, f);
    var g := f + m[f].size;
    assert AdjOk(m, {}, f);
    assert g < pages[i] + 4096 ==> BlockOk(m, covered, g) && LiveAt(m, live, g);
    assert Listed(bk, m, {}, f);
    forall c | c in m && m[c].page == pages[i]
      ensures c == h || c == f
    {
      assert BlockOk(m, covered, c) && Apart(m, h, c) && Apart(m, f, c) && Apart(m, c, f);
    }
  }

  /** The 32-bit product of the page count is exact below 2^20 pages. */
  lemma SizeExact(n: int)
    requires 1 <= n < UINT_LIMIT
    ensures PoolBytes(n) == 4096 * n <==> n < 0x10_0000
  {
  }

  /** Page p now holds its record and one free block; nothing else changed. */
  ghost predicate Carved(m: Blocks, m': Blocks, p: int)
  {
    && (forall c :: c in m ==> c in m' && m'[c] == m[c])
    && p + 16 in m' && m'[p + 16].size == RECORD_SIZE && m'[p + 16].status.Record?
    && p + 64 in m' && m'[p + 64].size == PAGESIZE - 64 && m'[p + 64].status.Free?
  }

  lemma CarvedRecords(m: Blocks, m': Blocks, pages: seq<int>, p: int)
    requires Carved(m, m', p) && RecordsOk(m, pages) && pages != []
    ensures RecordsOk(m', [p] + pages)
  {
    forall i | 0 < i < |pages| + 1
      ensures ([p] + pages)[i] == pages[i - 1]
    {
    }
  }

  lemma FreshPageIsNew(regions: map<int, int>, m: Blocks, covered: set<int>, pages: seq<int>, p: int)
    requires Tiling(m, covered) && covered == PageSet(pages)
    requires PagesOwned(regions, pages) && FreshRegion(regions, p, PAGESIZE)
    ensures p !in pages && p + DSIZE !in m && p + DSIZE + RECORD_SIZE !in m
  {
    PagesBeside(regions, pages, p);
    assert p + DSIZE in m ==> BlockOk(m, covered, p + DSIZE);
    assert p + DSIZE + RECORD_SIZE in m ==> BlockOk(m, covered, p + DSIZE + RECORD_SIZE);
    assert p in pages ==> p in PageSet(pages);
  }

  /** Every live block lies outside [lo, hi). */
  ghost predicate OutsideLive(live: map<int, int>, lo: int, hi: int)
  {
    forall c :: c in live ==> live[c] >= BLOCK_MIN && (c + live[c] <= lo || hi <= c)
  }

  /** A free block is no page head and lies beside the live ones, inside a page. */
  lemma FreeBlockKept(words: Words, m: Blocks, covered: set<int>, bk: Buckets, live: map<int, int>, pages: seq<int>,
                      b: int)
    requires Layout(words, m, covered, bk, live) && covered == PageSet(pages) && b in m && m[b].status.Free?
    ensures b !in live && OutsideLive(live, b, b + m[b].size) && m[b].size >= BLOCK_MIN
    ensures m[b].page in pages && m[b].page + DSIZE <= b && b + m[b].size <= m[b].page + PAGESIZE
  {
    assert LiveAt(m, live, b) && BlockOk(m, covered, b);
    forall c | c in live
      ensures live[c] >= BLOCK_MIN && (c + live[c] <= b || b + m[b].size <= c)
    {
      assert LiveAt(m, live, c) && BlockOk(m, covered, c) && Apart(m, b, c) && Apart(m, c, b);
    }
  }

  /** Writes into [lo - 8, hi - 8) of page p, beside the live blocks, touch nothing else. */
  lemma WordsKept(words: Words, words': Words, regions: map<int, int>, pages: seq<int>, live: map<int, int>,
                  larges: seq<Large>, self: int, n: int, p: int, lo: int, hi: int)
    requires RegionsOk(regions) && PagesOwned(regions, pages) && p in pages && p + DSIZE <= lo <= hi <= p + PAGESIZE
    requires SameOutside(words, words', lo - WSIZE, hi - WSIZE) && OutsideLive(live, lo, hi)
    requires Owned(words, live, self) && LargesOk(words, regions, pages, self, larges) && InitTags(words, pages, n)
    ensures Owned(words', live, self) && LargesOk(words', regions, pages, self, larges) && InitTags(words', pages, n)
    ensures UserDataKept(words, words', live, larges)
  {
    PageWordsKept(words, words', regions, pages, larges, self, n, p, lo, hi);
    forall a | a in words && InUserData(live, larges, a)
      ensures a in words' && words'[a] == words[a]
    {
      if i :| 0 <= i < |larges| && larges[i].addr + 48 <= a < larges[i].addr + larges[i].size {
        assert LargeOk(words, regions, pages, self, larges[i]) && p in regions;
      }
    }
  }

  lemma PageWordsKept(words: Words, words': Words, regions: map<int, int>, pages: seq<int>,
                      larges: seq<Large>, self: int, n: int, p: int, lo: int, hi: int)
    requires RegionsOk(regions) && PagesOwned(regions, pages) && p in pages && p + DSIZE <= lo <= hi <= p + PAGESIZE
    requires SameOutside(words, words', lo - WSIZE, hi - WSIZE)
    requires LargesOk(words, regions, pages, self, larges) && InitTags(words, pages, n)
    ensures LargesOk(words', regions, pages, self, larges) && InitTags(words', pages, n)
  {
    assert p in regions && regions[p] == PAGESIZE;
    forall i | 0 <= i < |larges|
      ensures LargeOk(words', regions, pages, self, larges[i])
    {
      assert LargeOk(words, regions, pages, self, larges[i]);
    }
    forall i | 0 <= i < |pages|
      ensures pages[i] in words' && words'[pages[i]] == words[pages[i]]
    {
      var q := pages[i];
      assert q in words && q in regions && regions[q] == PAGESIZE;
      assert q < p ==> q + PAGESIZE <= p;
      assert q > p ==> p + PAGESIZE <= q;
      assert !(lo - WSIZE <= q < hi - WSIZE);
    }
  }

  lemma PlacedRecords(words: Words, m: Blocks, covered: set<int>, bk: Buckets, live: map<int, int>, pages: seq<int>,
                      b: int, asize: int, status: Status)
    requires Layout(words, m, covered, bk, live) && RecordsOk(m, pages) && b in m && m[b].status.Free?
    requires BLOCK_MIN <= asize <= m[b].size
    ensures RecordsOk(Placed(m, b, asize, status), pages)
  {
    assert Apart(m, b, b + asize);
  }

  lemma PlacedSize(m: Blocks, b: int, asize: int, status: Status)
    requires b in m && BLOCK_MIN <= asize <= m[b].size
    ensures var m' := Placed(m, b, asize, status);
            b in m' && m'[b].status == status && asize <= m'[b].size < asize + BLOCK_MIN
  {
  }

  lemma ReadLive(words: Words, m: Blocks, covered: set<int>, bk: Buckets, live: map<int, int>, b: int)
    requires Layout(words, m, covered, bk, live) && b in live
    ensures b - WSIZE in words && GetSize(words[b - WSIZE]) == live[b] && words[b - WSIZE] == Pack(live[b], ALLOCATED)
    ensures live[b] >= BLOCK_MIN && live[b] % 8 == 0
    ensures b in m && m[b].status.User? && m[b].size == live[b]
    ensures b + live[b] - DSIZE in words && words[b + live[b] - DSIZE] == words[b - WSIZE]
  {
    assert LiveAt(m, live, b);
    ReadTags(words, m, covered, b);
  }

  /** Storing the owner in a block just taken disturbs no other user. */
  lemma OwnWordKept(w0: Words, words: Words, live: map<int, int>, larges: seq<Large>, regions: map<int, int>,
                    pages: seq<int>, self: int, m: Blocks, b: int, v: int)
    requires UserDataKept(w0, words, live, larges) && Owned(words, live, self)
    requires b in m && m[b].size >= BLOCK_MIN && OutsideLive(live, b, b + m[b].size)
    requires RegionsOk(regions) && PagesOwned(regions, pages) && LargesOk(words, regions, pages, self, larges)
    requires m[b].page in pages && m[b].page + DSIZE <= b && b + m[b].size <= m[b].page + PAGESIZE
    ensures UserDataKept(w0, words[b := self], live, larges)
    ensures Owned(words[b := self], live[b := v], self)
  {
    forall a | a in w0 && InUserData(live, larges, a)
      ensures a in words[b := self] && words[b := self][a] == w0[a]
    {
      if i :| 0 <= i < |larges| && larges[i].addr + 48 <= a < larges[i].addr + larges[i].size {
        assert LargeOk(words, regions, pages, self, larges[i]) && m[b].page in regions;
      }
    }
  }

  /** The words of a user block below its footer are not read by the allocator. */
  lemma UserWord(words: Words, m: Blocks, covered: set<int>, bk: Buckets, live: map<int, int>, regions: map<int, int>,
                 pages: seq<int>, larges: seq<Large>, self: int, n: int, b: int, a: int, v: int)
    requires Layout(words, m, covered, bk, live) && covered == PageSet(pages) && RegionsOk(regions)
             && PagesOwned(regions, pages)
    requires LargesOk(words, regions, pages, self, larges) && InitTags(words, pages, n)
    requires b in live && b <= a < b + live[b] - DSIZE
    ensures Layout(words[a := v], m, covered, bk, live)
    ensures LargesOk(words[a := v], regions, pages, self, larges) && InitTags(words[a := v], pages, n)
  {
    var words' := words[a := v];
    assert LiveAt(m, live, b) && BlockOk(m, covered, b);
    PageWordsKept(words, words', regions, pages, larges, self, n, m[b].page, b + 8, b + m[b].size - 8);
    UserWordTags(words, m, covered, b, a, v);
  }

  lemma UserWordTags(words: Words, m: Blocks, covered: set<int>, b: int, a: int, v: int)
    requires Tiling(m, covered) && Tags(words, m, covered) && b in m && b <= a < b + m[b].size - DSIZE
    ensures Tags(words[a := v], m, covered)
  {
    forall c | c in m
      ensures TagOk(words[a := v], m, c)
    {
      assert TagOk(words, m, c) && BlockOk(m, covered, c) && Apart(m, b, c) && Apart(m, c, b);
    }
    BlockInPage(m, covered, b);
    forall p | p in covered
      ensures SentinelOk(words[a := v], p)
    {
      assert SentinelOk(words, p);
    }
  }

  /** No block on lists first .. 7 has asize bytes. */
  /** b is the first block of list j that fits, and no list between `first` and j has a fit. */
  ghost predicate FirstAt(bk: Buckets, m: Blocks, first: int, asize: int, b: int, j: int)
  {
    && |bk| == 8 && 0 <= first <= j < 8
    && (forall i, c :: first <= i < j && c in bk[i] ==> c in m && m[c].size < asize)
    && exists k :: 0 <= k < |bk[j]| && bk[j][k] == b
                   && forall h :: 0 <= h < k ==> bk[j][h] in m && m[bk[j][h]].size < asize
  }

  /** The block that first fit chooses, searching from list `first` on. */
  ghost predicate FirstIn(bk: Buckets, m: Blocks, first: int, asize: int, b: int)
  {
    exists j :: FirstAt(bk, m, first, asize, b, j)
  }

  ghost predicate NoFit(bk: Buckets, m: Blocks, first: int, asize: int)
  {
    |bk| == 8 && forall j, c :: 0 <= first <= j < 8 && c in bk[j] ==> c in m && m[c].size < asize
  }

  lemma KeptTransitive(w0: Words, w1: Words, w2: Words, live: map<int, int>, larges: seq<Large>)
    ensures UserDataKept(w0, w0, live, larges)
    ensures UserDataKept(w0, w1, live, larges) && UserDataKept(w1, w2, live, larges) ==>
              UserDataKept(w0, w2, live, larges)
  {
  }

  lemma PagesBeside(regions: map<int, int>, pages: seq<int>, p: int)
    requires PagesOwned(regions, pages) && FreshRegion(regions, p, PAGESIZE)
    ensures forall q :: q in PageSet(pages) ==> q + PAGESIZE <= p || p + PAGESIZE <= q
  {
    forall q | q in PageSet(pages)
      ensures q + PAGESIZE <= p || p + PAGESIZE <= q
    {
      var i :| 0 <= i < |pages| && pages[i] == q;
    }
  }

  /** Writes into a fresh region touch no user word and no large record. */
  lemma KeptWhenFresh(words: Words, words': Words, regions: map<int, int>, m: Blocks, covered: set<int>, bk: Buckets,
                      live: map<int, int>,
                      pages: seq<int>, larges: seq<Large>, self: int, p: int)
    requires Layout(words, m, covered, bk, live) && covered == PageSet(pages)
    requires FreshRegion(regions, p, PAGESIZE) && PagesOwned(regions, pages)
    requires Owned(words, live, self) && LargesOk(words, regions, pages, self, larges)
    requires SameOutside(words, words', p, p + PAGESIZE)
    ensures Owned(words', live, self)
    ensures LargesOk(words', regions[p := PAGESIZE], [p] + pages, self, larges)
    ensures UserDataKept(words, words', live, larges)
  {
    PagesBeside(regions, pages, p);
    forall b | b in live
      ensures live[b] >= BLOCK_MIN && (b + live[b] <= p || p + PAGESIZE <= b)
    {
      assert LiveAt(m, live, b) && BlockOk(m, covered, b);
    }
    forall i | 0 <= i < |larges|
      ensures LargeOk(words', regions[p := PAGESIZE], [p] + pages, self, larges[i])
    {
      assert LargeOk(words, regions, pages, self, larges[i]);
    }
    forall a | a in words && InUserData(live, larges, a)
      ensures a in words' && words'[a] == words[a]
    {
      if i :| 0 <= i < |larges| && larges[i].addr + 48 <= a < larges[i].addr + larges[i].size {
        assert LargeOk(words, regions, pages, self, larges[i]);
      }
    }
  }

  lemma PageJoinsList(words: Words, words': Words, regions: map<int, int>, m: Blocks, pages: seq<int>, p: int,
                      n: int, initial: bool)
    requires FreshRegion(regions, p, PAGESIZE) && PagesOwned(regions, pages) && RegionsOk(regions)
    requires NoDup(pages) && InitTags(words, pages, n) && 0 <= n <= |pages| && (initial ==> n == |pages|)
    requires SameOutside(words, words', p, p + PAGESIZE)
    requires p in words' && words'[p] == Pack(0, if initial then ALLOCATED + INITIAL else ALLOCATED)
    ensures NoDup([p] + pages) && PageSet([p] + pages) == PageSet(pages) + {p}
    ensures PagesOwned(regions[p := PAGESIZE], [p] + pages)
    ensures InitTags(words', [p] + pages, if initial then n + 1 else n)
  {
    var pages' := [p] + pages;
    assert p !in pages;
    forall i | 0 <= i < |pages'|
      ensures pages'[i] in words' && pages'[i] in regions[p := PAGESIZE]
              && regions[p := PAGESIZE][pages'[i]] == PAGESIZE
      ensures words'[pages'[i]] ==
              Pack(0, if i >= |pages'| - (if initial then n + 1 else n) then ALLOCATED + INITIAL else ALLOCATED)
    {
      if i > 0 {
        assert pages'[i] == pages[i - 1];
      }
    }
  }

  lemma RecordAndRest(m: Blocks, p: int)
    requires p + DSIZE !in m && p + DSIZE + RECORD_SIZE !in m
    ensures Carved(m, Placed(WithPage(m, p), p + DSIZE, RECORD_SIZE, Record), p)
  {
  }

  /** What the four reads around a block being freed find. At a page head the sentinel would make
      a block its own predecessor; the page record there is never freed. */
  lemma NeighbourTags(words: Words, m: Blocks, pages: set<int>, bk: Buckets, live: map<int, int>, b: int)
    requires Freeing(words, m, pages, bk, live, b) && b != m[b].page + DSIZE
    ensures b - 8 in words && words[b - 8] == GetSize(words[b - 8]) == m[b].size && b - 16 in words && |bk| == 8
    ensures b + m[b].size - 16 in words && words[b + m[b].size - 16] == m[b].size
    ensures BLOCK_MIN <= m[b].size <= JoinedSize(m, b) <= PAGESIZE && JoinedSize(m, b) % 8 == 0
    ensures var prev := b - GetSize(words[b - 16]);
            && prev == m[b].prev && prev in m && prev + m[prev].size == b && m[prev].size >= BLOCK_MIN
            && prev - 8 in words && GetSize(words[prev - 8]) == m[prev].size
            && (GetAlloc(words[b - 16]) == 0 <==> PrevFree(m, b))
    ensures m[b].prev >= m[b].page + DSIZE && b + m[b].size <= m[b].page + PAGESIZE
    ensures m[b].size + m[m[b].prev].size + (if NextFree(m, b) then m[b + m[b].size].size else 0) <= PAGESIZE
    ensures GetSize(words[b - 16]) == m[m[b].prev].size
    ensures var next := b + m[b].size;
            && next - 8 in words && (GetAlloc(words[next - 8]) == 0 <==> NextFree(m, b))
            && (NextFree(m, b) ==> GetSize(words[next - 8]) == m[next].size >= BLOCK_MIN
                                   && next + m[next].size - 16 in words
                                   && words[next + m[next].size - 16] == words[next - 8])
  {
    hide *;
    PrevTags(words, m, pages, bk, live, b);
    NeighbourBounds(words, m, pages, bk, live, b);
    NextTags(words, m, pages, bk, live, b);
  }

  lemma PrevTags(words: Words, m: Blocks, pages: set<int>, bk: Buckets, live: map<int, int>, b: int)
    requires Freeing(words, m, pages, bk, live, b) && b != m[b].page + DSIZE
    ensures b - 8 in words && words[b - 8] == GetSize(words[b - 8]) == m[b].size && b - 16 in words && |bk| == 8
    ensures b + m[b].size - 16 in words && words[b + m[b].size - 16] == m[b].size
    ensures var prev := b - GetSize(words[b - 16]);
            && prev == m[b].prev && prev in m && prev + m[prev].size == b && m[prev].size >= BLOCK_MIN
            && prev - 8 in words && GetSize(words[prev - 8]) == m[prev].size
            && (GetAlloc(words[b - 16]) == 0 <==> PrevFree(m, b))
    ensures GetSize(words[b - 16]) == m[m[b].prev].size
  {
    assert BlockOk(m, pages, b) && BlockOk(m, pages, m[b].prev);
    ReadTags(words, m, pages, b);
    ReadTags(words, m, pages, m[b].prev);
  }

  lemma NeighbourBounds(words: Words, m: Blocks, pages: set<int>, bk: Buckets, live: map<int, int>, b: int)
    requires Freeing(words, m, pages, bk, live, b) && b != m[b].page + DSIZE
    ensures m[b].prev in m
    ensures BLOCK_MIN <= m[b].size <= JoinedSize(m, b) <= PAGESIZE && JoinedSize(m, b) % 8 == 0
    ensures m[b].prev >= m[b].page + DSIZE && b + m[b].size <= m[b].page + PAGESIZE
    ensures m[b].size + m[m[b].prev].size + (if NextFree(m, b) then m[b + m[b].size].size else 0) <= PAGESIZE
  {
    assert BlockOk(m, pages, b) && BlockOk(m, pages, m[b].prev);
    ReadTags(words, m, pages, b);
    ReadTags(words, m, pages, m[b].prev);
    JoinedSizes(m, pages, b);
    NextTags(words, m, pages, bk, live, b);
  }

  lemma NextTags(words: Words, m: Blocks, pages: set<int>, bk: Buckets, live: map<int, int>, b: int)
    requires Freeing(words, m, pages, bk, live, b) && b != m[b].page + DSIZE
    ensures var next := b + m[b].size;
            && next - 8 in words && (GetAlloc(words[next - 8]) == 0 <==> NextFree(m, b))
            && (NextFree(m, b) ==> GetSize(words[next - 8]) == m[next].size >= BLOCK_MIN
                                   && next + m[next].size - 16 in words
                                   && words[next + m[next].size - 16] == words[next - 8])
    ensures NextFree(m, b) ==> var next := b + m[b].size; m[next].page == m[b].page
                                                          && next + m[next].size <= m[b].page + PAGESIZE
                                                          && m[next].size % 8 == 0
  {
    assert BlockOk(m, pages, b);
    if HasNext(m, b) {
      assert BlockOk(m, pages, b + m[b].size);
      ReadTags(words, m, pages, b + m[b].size);
    } else {
      assert SentinelOk(words, m[b].page);
    }
  }

  /** The macros read a block's tags back as its size and state. */
  lemma ReadTags(words: Words, m: Blocks, pages: set<int>, b: int)
    requires Tiling(m, pages) && Tags(words, m, pages) && Aligned(m) && b in m
    ensures BLOCK_MIN <= m[b].size <= PAGESIZE && m[b].size % 8 == 0
    ensures b - 8 in words && b + m[b].size - 16 in words && words[b - 8] == words[b + m[b].size - 16] == Tag(m[b])
    ensures GetSize(words[b - 8]) == m[b].size && (GetAlloc(words[b - 8]) == 0 <==> m[b].status.Free?)
  {
    assert BlockOk(m, pages, b) && TagOk(words, m, b) && AlignedAt(m, b);
    PackReads(m[b].size, if m[b].status.Free? then UNALLOCATED else ALLOCATED);
  }

  lemma AlignedDifference(a: int, b: int)
    requires a % 8 == 0 && b % 8 == 0
    ensures (a - b) % 8 == 0
  {
  }

  /** NULL for no pages. */
  method PoolCreate(n: int, words: Words, regions: map<int, int>, allsize: int) returns (pool: Pool?)
    requires 0 <= n < UINT_LIMIT && RegionsOk(regions)
    ensures pool == null <==> n == 0
    ensures pool != null ==> fresh(pool) && pool.Valid() && pool.initPages == n
                             && pool.allsize == allsize + pool.Footprint()
  {
    if n == 0 {
      return null;
    }
    pool := new Pool(n, words, regions, allsize);
  }
}
