/** The proxy's pool: a chain of blocks that are filled from the bottom, and a list of large allocations. */
module BumpPool {
  import opened Alignment

  const HEADER: int := 56
  const BLOCK_HEADER: int := 32
  const LARGE_RECORD_SIZE: int := 16
  const MAX_FROM_POOL: int := 4095
  const SIZES: int := 0x1_0000_0000_0000_0000
  const ADDRESSES: int := 0x8000_0000_0000_0000

  datatype Block = Block(base: int, last: int, end: int, failed: int)

  /** The record of a large allocation; `alloc` is 0 once it is freed. */
  datatype Large = Large(record: int, alloc: int)

  datatype Region = Region(addr: int, size: int)

  ghost predicate Apart(r: Region, u: Region)
  {
    r.addr + r.size <= u.addr || u.addr + u.size <= r.addr
  }

  // ---------- What malloc has given out ----------

  predicate FreshRegion(regions: map<int, int>, base: int, n: int)
  {
    && base > 0 && base % 16 == 0 && base + n < ADDRESSES && base !in regions
    && forall a :: a in regions ==> a + regions[a] <= base || base + n <= a
  }

  /** What malloc gives: a region apart from all others, or NULL. */
  function Answer(malloc: (map<int, int>, int) -> int, regions: map<int, int>, n: int): (base: int)
    ensures base == 0 || FreshRegion(regions, base, n)
  {
    if FreshRegion(regions, malloc(regions, n), n) then malloc(regions, n) else 0
  }

  function Limit(size: int): int
  {
    if size - HEADER < MAX_FROM_POOL then size - HEADER else MAX_FROM_POOL
  }

  /** The chain serves what fits behind the header of a first block and in less than a page. */
  lemma LimitExact(size: int, n: int)
    ensures n <= Limit(size) <==> HEADER + n <= size && n <= MAX_FROM_POOL
  {
  }

  ghost predicate HeapOk(regions: map<int, int>)
  {
    && (forall a :: a in regions ==> 0 < a < a + regions[a] < ADDRESSES && a % 16 == 0)
    && (forall a, b :: a in regions && b in regions && a != b ==> Apart(Region(a, regions[a]), Region(b, regions[b])))
  }

  // ---------- The chain ----------

  function Head(i: int): int
  {
    if i == 0 then HEADER else BLOCK_HEADER
  }

  ghost predicate BlockOk(regions: map<int, int>, chain: seq<Block>, size: int, i: int)
    requires 0 <= i < |chain|
  {
    chain[i].base in regions && regions[chain[i].base] == size && chain[i].end == chain[i].base + size
    && chain[i].last >= chain[i].base + BLOCK_HEADER
  }

  /** Every block is a region of the pool's size, and no region is two blocks. */
  ghost predicate ChainOk(regions: map<int, int>, chain: seq<Block>, size: int)
  {
    && |chain| > 0 && size >= HEADER
    && (forall i :: 0 <= i < |chain| ==> BlockOk(regions, chain, size, i))
    && (forall i, j :: 0 <= i < j < |chain| ==> chain[i].base != chain[j].base)
  }

  ghost predicate LargesOk(regions: map<int, int>, chain: seq<Block>, large: seq<Large>)
  {
    && (forall i :: 0 <= i < |large| && large[i].alloc != 0 ==> large[i].alloc in regions)
    && (forall i, j :: 0 <= i < |large| && 0 <= j < |chain| ==> large[i].alloc != chain[j].base)
    && (forall i, j :: 0 <= i < j < |large| && large[i].alloc != 0 ==> large[i].alloc != large[j].alloc)
  }

  /** Nothing is lost: every region malloc gave, but for one still on its way, is a block or a large
      allocation. */
  ghost predicate Owned(regions: map<int, int>, chain: seq<Block>, large: seq<Large>, pending: int)
  {
    && (forall a :: a in regions ==> IsBase(chain, a) || IsAlloc(large, a) || a == pending)
    && 0 !in regions && (pending != 0 ==> pending in regions)
    && (forall i :: 0 <= i < |chain| ==> chain[i].base != pending)
    && (pending != 0 ==> forall i :: 0 <= i < |large| ==> large[i].alloc != pending)
  }

  ghost predicate IsBase(chain: seq<Block>, a: int)
  {
    exists i :: 0 <= i < |chain| && chain[i].base == a
  }

  ghost predicate IsAlloc(large: seq<Large>, a: int)
  {
    exists i :: 0 <= i < |large| && large[i].alloc == a
  }

  /** Block `current` is the first that has not failed six times, and blocks after it have failed
      no more often than those before them. */
  ghost predicate FailuresOk(chain: seq<Block>, current: int)
  {
    && 0 <= current < |chain|
    && (forall i :: 0 <= i < current ==> chain[i].failed > 5)
    && (forall i :: 0 <= i < |chain| ==> chain[i].failed >= 0)
    && (forall i, j :: current <= i < j < |chain| ==> chain[j].failed <= chain[i].failed)
  }

  // ---------- What users hold ----------

  ghost predicate Inside(chain: seq<Block>, i: int, r: Region)
  {
    0 <= i < |chain| && chain[i].base + Head(i) <= r.addr && r.addr + r.size <= chain[i].last
  }

  ghost predicate InBlock(chain: seq<Block>, r: Region)
  {
    exists i :: Inside(chain, i, r)
  }

  ghost predicate LastOk(chain: seq<Block>)
  {
    forall i :: 0 <= i < |chain| ==> chain[i].base + Head(i) <= chain[i].last <= chain[i].end
  }

  /** The regions handed out lie in the used parts of the blocks, and no two overlap. */
  ghost predicate Placed(chain: seq<Block>, live: set<Region>)
  {
    && LastOk(chain)
    && (forall r :: r in live ==> r.size > 0 && InBlock(chain, r))
    && (forall r, u :: r in live && u in live && r != u ==> Apart(r, u))
  }

  ghost predicate Recorded(large: seq<Large>, live: set<Region>)
  {
    && (forall i :: 0 <= i < |large| ==> Region(large[i].record, LARGE_RECORD_SIZE) in live)
    && (forall i, j :: 0 <= i < j < |large| ==> large[i].record != large[j].record)
  }

  function Handed(a: int, n: int): set<Region>
  {
    if n > 0 then {Region(a, n)} else {}
  }

  /** The n bytes at a overlap no region of the set. */
  ghost predicate Clear(users: set<Region>, a: int, n: int)
  {
    n > 0 ==> forall u :: u in users ==> Apart(u, Region(a, n))
  }

  ghost predicate Extends(regions: map<int, int>, regions': map<int, int>)
  {
    forall a :: a in regions ==> a in regions' && regions'[a] == regions[a]
  }

  ghost predicate BlocksApart(chain: seq<Block>)
  {
    forall i, j :: 0 <= i < |chain| && 0 <= j < |chain| && i != j ==>
                     chain[i].end <= chain[j].base || chain[j].end <= chain[i].base
  }

  lemma ChainApart(regions: map<int, int>, chain: seq<Block>, size: int)
    requires HeapOk(regions) && ChainOk(regions, chain, size)
    ensures BlocksApart(chain)
  {
    forall i, j | 0 <= i < |chain| && 0 <= j < |chain| && i != j
      ensures chain[i].end <= chain[j].base || chain[j].end <= chain[i].base
    {
      assert BlockOk(regions, chain, size, i) && BlockOk(regions, chain, size, j);
      assert Apart(Region(chain[i].base, size), Region(chain[j].base, size));
    }
  }

  /** The top of block j moves up over a new region. */
  lemma Bumped(chain: seq<Block>, live: set<Region>, j: int, m: int, n: int)
    requires Placed(chain, live) && BlocksApart(chain) && 0 <= j < |chain| && n >= 0
    requires chain[j].last <= m && m + n <= chain[j].end
    ensures var chain' := chain[j := chain[j].(last := m + n)]; Placed(chain', live + Handed(m, n)) && Clear(live, m, n)
  {
    var chain' := chain[j := chain[j].(last := m + n)];
    forall r | r in live
      ensures InBlock(chain', r) && (n > 0 ==> Apart(r, Region(m, n)))
    {
      var i :| Inside(chain, i, r);
      assert Inside(chain', i, r);
    }
    assert Inside(chain', j, Region(m, n));
  }

  /** The chain grows by a block that holds its first region. */
  lemma Appended(chain: seq<Block>, live: set<Region>, b: Block, n: int)
    requires Placed(chain, live) && BlocksApart(chain + [b]) && n >= 0 && |chain| > 0
    requires b.last == b.base + BLOCK_HEADER + n <= b.end
    ensures Placed(chain + [b], live + Handed(b.base + BLOCK_HEADER, n)) && Clear(live, b.base + BLOCK_HEADER, n)
  {
    var chain' := chain + [b];
    var first := Region(b.base + BLOCK_HEADER, n);
    forall r | r in live
      ensures InBlock(chain', r) && (n > 0 ==> Apart(r, first))
    {
      var i :| Inside(chain, i, r);
      assert Inside(chain', i, r);
      assert chain'[i] == chain[i] && chain'[|chain|] == b;
    }
    assert Inside(chain', |chain|, first);
  }

  // ---------- First fit ----------

  function StartAt(last: int, word: bool): int
  {
    if word then Align8(last) else last
  }

  /** The room that a block shows: a 64-bit difference, which wraps when aligning passes the end. */
  function Room(b: Block, word: bool): int
  {
    (b.end - StartAt(b.last, word)) % SIZES
  }

  function FirstFit(chain: seq<Block>, i: int, n: int, word: bool): (j: int)
    requires 0 <= i <= |chain|
    ensures i <= j <= |chain| && (forall k :: i <= k < j ==> Room(chain[k], word) < n)
            && (j < |chain| ==> Room(chain[j], word) >= n)
    decreases |chain| - i
  {
    if i == |chain| || Room(chain[i], word) >= n then i else FirstFit(chain, i + 1, n, word)
  }

  /** In a block that ends on a word the difference never wraps. */
  lemma RoomExact(b: Block, word: bool)
    requires b.last <= b.end < b.last + SIZES && (word ==> b.end % 8 == 0)
    ensures b.last <= StartAt(b.last, word) <= b.end && Room(b, word) == b.end - StartAt(b.last, word)
  {
  }

  /** Aligning stays in the block, wherever its top is, exactly when the block ends on a word. */
  lemma AlignStaysIff(base: int, end: int)
    requires base <= end
    ensures (forall last :: base <= last <= end ==> Align8(last) <= end) <==> end % 8 == 0
  {
    if end % 8 != 0 {
      assert Align8(end) > end;
    }
  }

  /** Past the end the difference wraps, and the block shows room for any small request. */
  lemma RoomWraps(b: Block)
    requires b.last <= b.end < Align8(b.last)
    ensures Room(b, true) > SIZES - 8
  {
  }

  // ---------- Steps on the large list and the heap ----------

  lemma Taken(regions: map<int, int>, chain: seq<Block>, large: seq<Large>, size: int, base: int, n: int)
    requires HeapOk(regions) && ChainOk(regions, chain, size) && LargesOk(regions, chain, large)
             && FreshRegion(regions, base, n) && n > 0
    ensures var r' := regions[base := n]; HeapOk(r') && ChainOk(r', chain, size) && LargesOk(r', chain, large)
    ensures forall i :: 0 <= i < |chain| ==> chain[i].base != base
    ensures forall i :: 0 <= i < |large| ==> large[i].alloc != base
  {
    var r' := regions[base := n];
    forall i | 0 <= i < |chain|
      ensures chain[i].base != base && BlockOk(r', chain, size, i)
    {
      assert BlockOk(regions, chain, size, i);
    }
  }

  /** The regions of large allocations still held. */
  ghost function LargeRegions(regions: map<int, int>, large: seq<Large>): set<Region>
  {
    set i | 0 <= i < |large| && large[i].alloc in regions :: Region(large[i].alloc, regions[large[i].alloc])
  }

  // ---------- A block more ----------

  /** The blocks from i up to k have failed once more. */
  function FailedTo(chain: seq<Block>, i: int, k: int): (r: seq<Block>)
    ensures |r| == |chain|
  {
    seq(|chain|,
        h requires 0 <= h < |chain| => if i <= h < k then chain[h].(failed := chain[h].failed + 1) else chain[h])
  }

  /** Every block from `current` on but the last has failed once more. */
  function Failed(chain: seq<Block>, current: int): (r: seq<Block>)
    ensures |r| == |chain|
  {
    FailedTo(chain, current, |chain| - 1)
  }

  /** The search starts behind the blocks that have now failed six times. */
  ghost predicate MovesTo(chain: seq<Block>, current: int, current': int)
  {
    && 0 <= current <= current' < |chain|
    && (forall k :: current <= k < current' ==> chain[k].failed > 4)
    && (forall k :: current' <= k < |chain| - 1 ==> chain[k].failed <= 4)
  }

  /** What taking n bytes from the chain at r does to it. */
  ghost predicate Took(chain: seq<Block>, current: int, size: int, n: int, word: bool, r: int, chain': seq<Block>,
                       current': int)
    requires 0 <= current < |chain|
  {
    var j := FirstFit(chain, current, n, word);
    if j < |chain| then
      r == StartAt(chain[j].last, word) && chain' == chain[j := chain[j].(last := r + n)] && current' == current
    else
      var base := r - BLOCK_HEADER;
      chain' == Failed(chain, current) + [Block(base, r + n, base + size, 0)] && MovesTo(chain, current, current')
  }

  lemma FailuresKept(chain: seq<Block>, current: int, b: Block, current': int)
    requires FailuresOk(chain, current) && MovesTo(chain, current, current') && b.failed == 0
    ensures FailuresOk(Failed(chain, current) + [b], current')
  {
    var chain' := Failed(chain, current) + [b];
    assert forall k :: 0 <= k < |chain| ==> chain'[k] == Failed(chain, current)[k];
  }

  lemma RoomInside(regions: map<int, int>, chain: seq<Block>, size: int, j: int, n: int, word: bool)
    requires HeapOk(regions) && ChainOk(regions, chain, size) && Whole(size) && LastOk(chain)
    requires 0 <= j < |chain| && 0 <= n <= Room(chain[j], word)
    ensures chain[j].last <= StartAt(chain[j].last, word) && StartAt(chain[j].last, word) + n <= chain[j].end
  {
    assert BlockOk(regions, chain, size, j);
    EndWhole(chain[j].base, size);
    hide Whole, HeapOk, ChainOk;
    RoomExact(chain[j], word);
  }

  lemma EndWhole(base: int, size: int)
    requires base % 16 == 0 && Whole(size)
    ensures (base + size) % 8 == 0
  {
  }

  /** A fitting block of the chain gives a region inside it. */
  lemma FitPlaced(regions: map<int, int>, chain: seq<Block>, live: set<Region>, size: int, j: int, n: int, word: bool)
    requires HeapOk(regions) && ChainOk(regions, chain, size) && Whole(size) && Placed(chain, live)
    requires 0 <= j < |chain| && 0 <= n <= Room(chain[j], word)
    ensures var r := StartAt(chain[j].last, word);
            && Placed(chain[j := chain[j].(last := r + n)], live + Handed(r, n)) && Clear(live, r, n)
  {
    RoomInside(regions, chain, size, j, n, word);
    ChainApart(regions, chain, size);
    hide StartAt, Room, HeapOk, ChainOk, Placed, BlocksApart, Whole;
    Bumped(chain, live, j, StartAt(chain[j].last, word), n);
  }

  /** So does a new block. */
  lemma NewPlaced(regions: map<int, int>, chain: seq<Block>, live: set<Region>, size: int, current: int, b: Block,
                  n: int)
    requires ChainOk(regions, Failed(chain, current) + [b], size) && HeapOk(regions) && Placed(chain, live)
             && |chain| > 0
    requires b.last == b.base + BLOCK_HEADER + n <= b.end && n >= 0
    ensures var r := b.base + BLOCK_HEADER;
            && Placed(Failed(chain, current) + [b], live + Handed(r, n)) && Clear(live, r, n)
  {
    ChainApart(regions, Failed(chain, current) + [b], size);
    FailedPlaced(chain, current, live);
    Appended(Failed(chain, current), live, b, n);
  }

  lemma FailedPlaced(chain: seq<Block>, current: int, live: set<Region>)
    requires Placed(chain, live)
    ensures Placed(Failed(chain, current), live)
  {
    forall r | r in live
      ensures InBlock(Failed(chain, current), r)
    {
      var i :| Inside(chain, i, r);
      assert Inside(Failed(chain, current), i, r);
    }
  }

  lemma BlockJoins(regions: map<int, int>, chain: seq<Block>, large: seq<Large>, size: int, current: int,
                   pending: int, b: Block)
    requires HeapOk(regions) && ChainOk(regions, chain, size) && LargesOk(regions, chain, large)
             && Owned(regions, chain, large, pending)
    requires FreshRegion(regions, b.base, size) && b.end == b.base + size && b.last >= b.base + BLOCK_HEADER
    ensures var r', c' := regions[b.base := size], Failed(chain, current) + [b];
            HeapOk(r') && ChainOk(r', c', size) && LargesOk(r', c', large) && Owned(r', c', large, pending)
    ensures LargeRegions(regions[b.base := size], large) == LargeRegions(regions, large)
  {
    Taken(regions, chain, large, size, b.base, size);
    var r', c' := regions[b.base := size], Failed(chain, current) + [b];
    forall i | 0 <= i < |c'|
      ensures BlockOk(r', c', size, i) && (i < |chain| ==> c'[i].base == chain[i].base)
    {
      assert i < |chain| ==> BlockOk(r', chain, size, i);
    }
    forall a | a in r' && a != pending && !IsAlloc(large, a)
      ensures IsBase(c', a)
    {
      if a == b.base {
        assert c'[|chain|].base == a;
      } else {
        var i :| 0 <= i < |chain| && chain[i].base == a;
        assert c'[i].base == a;
      }
    }
    assert LargeRegions(r', large) == LargeRegions(regions, large);
  }

  /** Moving a block's top touches nothing else. */
  lemma LastMoved(regions: map<int, int>, chain: seq<Block>, large: seq<Large>, size: int, pending: int,
                  current: int, j: int, last: int)
    requires ChainOk(regions, chain, size) && LargesOk(regions, chain, large) && Owned(regions, chain, large, pending)
    requires FailuresOk(chain, current) && 0 <= j < |chain| && chain[j].base + BLOCK_HEADER <= last
    ensures var c' := chain[j := chain[j].(last := last)];
            ChainOk(regions, c', size) && LargesOk(regions, c', large) && Owned(regions, c', large, pending)
                && FailuresOk(c', current)
  {
    var c' := chain[j := chain[j].(last := last)];
    forall i | 0 <= i < |chain|
      ensures BlockOk(regions, c', size, i)
    {
      assert BlockOk(regions, chain, size, i);
    }
    forall a | a in regions && a != pending && !IsAlloc(large, a)
      ensures IsBase(c', a)
    {
      var i :| 0 <= i < |chain| && chain[i].base == a;
      assert c'[i].base == a;
    }
  }

  /** A pool size of whole words. */
  predicate Whole(size: int)
  {
    size % 8 == 0
  }

  lemma RecordedMore(large: seq<Large>, live: set<Region>, more: set<Region>)
    requires Recorded(large, live)
    ensures Recorded(large, live + more)
  {
  }

  /** All that a new block, with its first region, keeps. */
  lemma BlockAdded(regions: map<int, int>, chain: seq<Block>, large: seq<Large>, live: set<Region>, size: int,
                   current: int, current': int, pending: int, b: Block, n: int)
    requires HeapOk(regions) && ChainOk(regions, chain, size) && LargesOk(regions, chain, large)
             && Owned(regions, chain, large, pending)
    requires FailuresOk(chain, current) && MovesTo(chain, current, current') && FreshRegion(regions, b.base, size)
    requires n >= 0 && b.end == b.base + size && b.last == b.base + BLOCK_HEADER + n <= b.end && b.failed == 0
    ensures var r', c' := regions[b.base := size], Failed(chain, current) + [b];
            && HeapOk(r') && ChainOk(r', c', size) && LargesOk(r', c', large) && Owned(r', c', large, pending)
               && FailuresOk(c', current')
            && LargeRegions(r', large) == LargeRegions(regions, large) && Extends(regions, r')
            && (Placed(chain, live) ==> Placed(c', live + Handed(b.base + BLOCK_HEADER, n))
                                        && Clear(live, b.base + BLOCK_HEADER, n))
            && (Recorded(large, live) ==> Recorded(large, live + Handed(b.base + BLOCK_HEADER, n)))
  {
    assert |chain| > 0 && b.base !in regions;
    BlockJoins(regions, chain, large, size, current, pending, b);
    FailuresKept(chain, current, b, current');
    hide *;
    if Placed(chain, live) {
      NewPlaced(regions[b.base := size], chain, live, size, current, b, n);
    }
    if Recorded(large, live) {
      RecordedMore(large, live, Handed(b.base + BLOCK_HEADER, n));
    }
  }

  lemma HeaderAligned(regions: map<int, int>, base: int, n: int)
    requires FreshRegion(regions, base, n)
    ensures base > 0 && Align8(base + BLOCK_HEADER) == base + BLOCK_HEADER && (base + BLOCK_HEADER) % 8 == 0
  {
  }

  lemma StartAfter(regions: map<int, int>, chain: seq<Block>, size: int, j: int, word: bool)
    requires HeapOk(regions) && ChainOk(regions, chain, size) && 0 <= j < |chain|
    ensures StartAt(chain[j].last, word) >= chain[j].last >= chain[j].base + BLOCK_HEADER > BLOCK_HEADER
    ensures word ==> StartAt(chain[j].last, word) % 8 == 0
  {
    assert BlockOk(regions, chain, size, j);
  }

  // ---------- Everything users hold ----------

  /** A region in a block overlaps no large one. */
  lemma SmallBeside(regions: map<int, int>, chain: seq<Block>, large: seq<Large>, size: int, r: Region, u: Region)
    requires HeapOk(regions) && ChainOk(regions, chain, size) && LargesOk(regions, chain, large) && LastOk(chain)
    requires InBlock(chain, r) && u in LargeRegions(regions, large)
    ensures Apart(r, u)
  {
    var i :| Inside(chain, i, r);
    var k :| 0 <= k < |large| && large[k].alloc in regions && u == Region(large[k].alloc, regions[large[k].alloc]);
    assert BlockOk(regions, chain, size, i);
    assert Apart(Region(chain[i].base, size), u);
  }

  /** Two large regions are the same or apart. */
  lemma LargeBeside(regions: map<int, int>, large: seq<Large>, r: Region, u: Region)
    requires HeapOk(regions) && r in LargeRegions(regions, large) && u in LargeRegions(regions, large) && r != u
    ensures Apart(r, u)
  {
  }

  lemma UsersApart(regions: map<int, int>, chain: seq<Block>, large: seq<Large>, live: set<Region>, size: int,
                   r: Region, u: Region)
    requires HeapOk(regions) && ChainOk(regions, chain, size) && LargesOk(regions, chain, large) && Placed(chain, live)
    requires r in live + LargeRegions(regions, large) && u in live + LargeRegions(regions, large) && r != u
    ensures Apart(r, u)
  {
    if r in live && u !in live {
      SmallBeside(regions, chain, large, size, r, u);
    } else if u in live && r !in live {
      SmallBeside(regions, chain, large, size, u, r);
    } else if r !in live {
      LargeBeside(regions, large, r, u);
    }
  }

  lemma LargeOutside(regions: map<int, int>, chain: seq<Block>, large: seq<Large>, size: int, u: Region)
    requires HeapOk(regions) && ChainOk(regions, chain, size) && LargesOk(regions, chain, large)
    requires u in LargeRegions(regions, large)
    ensures forall i :: 0 <= i < |chain| ==> Apart(Region(chain[i].base, size), u)
  {
    forall i | 0 <= i < |chain|
      ensures Apart(Region(chain[i].base, size), u)
    {
      assert BlockOk(regions, chain, size, i);
    }
  }

  lemma RecordsIn(large: seq<Large>, live: set<Region>)
    requires Recorded(large, live)
    ensures Records(large) <= live
  {
  }

  lemma ClearOfLess(was: set<Region>, users: set<Region>, a: int, n: int)
    requires Clear(users, a, n) && was <= users
    ensures Clear(was, a, n)
  {
  }

  /** A region new in a block overlaps nothing held. */
  lemma SmallClear(regions: map<int, int>, chain: seq<Block>, large: seq<Large>, live: set<Region>, was: set<Region>,
                   size: int, a: int, n: int)
    requires HeapOk(regions) && ChainOk(regions, chain, size) && LargesOk(regions, chain, large) && Placed(chain, live)
    requires Handed(a, n) <= live && Clear(was, a, n)
    ensures Clear(was + LargeRegions(regions, large), a, n)
  {
    if n > 0 {
      assert Region(a, n) in Handed(a, n);
      forall u | u in LargeRegions(regions, large)
        ensures Apart(u, Region(a, n))
      {
        SmallBeside(regions, chain, large, size, Region(a, n), u);
      }
    }
  }

  /** A new large region overlaps nothing held. */
  lemma LargeClear(regions: map<int, int>, chain: seq<Block>, large: seq<Large>, live: set<Region>, was: set<Region>,
                   size: int, a: int, n: int)
    requires HeapOk(regions) && ChainOk(regions, chain, size) && LargesOk(regions, chain, large) && Placed(chain, live)
    requires Region(a, n) in LargeRegions(regions, large) && was <= LargeRegions(regions, large) && Region(a, n) !in was
    ensures Clear(live + was, a, n)
  {
    forall u | u in live + was
      ensures Apart(u, Region(a, n))
    {
      if u in live {
        SmallBeside(regions, chain, large, size, u, Region(a, n));
      } else {
        LargeBeside(regions, large, u, Region(a, n));
      }
    }
  }

  /** The regions of the records. */
  ghost function Records(large: seq<Large>): set<Region>
  {
    set i | 0 <= i < |large| :: Region(large[i].record, LARGE_RECORD_SIZE)
  }

  /** The record added to the list of large allocations, if one is. */
  ghost function NewRecord(large: seq<Large>, large': seq<Large>): set<Region>
  {
    if |large'| > |large| then {Region(large'[0].record, LARGE_RECORD_SIZE)} else {}
  }

  ghost predicate NewRecordClear(users: set<Region>, large: seq<Large>, large': seq<Large>)
  {
    |large'| > |large| ==> Clear(users, large'[0].record, LARGE_RECORD_SIZE)
  }

  /** From a record list to the next: as it was but for freed and reused records, or with one more. */
  ghost predicate RecordsStep(large: seq<Large>, large': seq<Large>)
  {
    Records(large') == Records(large) + NewRecord(large, large')
  }

  lemma RecordsStepped(large: seq<Large>, large': seq<Large>)
    requires || (|large'| == |large| && forall i :: 0 <= i < |large| ==> large'[i].record == large[i].record)
             || (|large'| == |large| + 1 && large'[1..] == large)
    ensures RecordsStep(large, large')
  {
    var r', r := Records(large'), Records(large) + NewRecord(large, large');
    if |large'| == |large| + 1 {
      assert forall i :: 0 <= i < |large| ==> large'[i + 1] == large[i];
      assert forall i :: 0 < i < |large'| ==> large'[i] == large[i - 1];
    }
    forall u | u in r
      ensures u in r'
    {
      if u in Records(large) {
        var i :| 0 <= i < |large| && u == Region(large[i].record, LARGE_RECORD_SIZE);
        assert u == Region(large'[if |large'| == |large| then i else i + 1].record, LARGE_RECORD_SIZE);
      }
    }
    assert forall u :: u in r' ==> u in r;
  }

  /** The new region is the only one that users hold besides what they held. */
  lemma HeldStep(users: set<Region>, users': set<Region>, large: seq<Large>, large': seq<Large>, a: int, n: int)
    requires users' == users + Handed(a, n) + NewRecord(large, large') && RecordsStep(large, large')
             && Records(large) <= users
    requires Clear(users, a, n) && NewRecordClear(users, large, large')
             && (|large'| > |large| ==> n > LARGE_RECORD_SIZE)
    ensures users' - Records(large') == users - Records(large) + Handed(a, n)
  {
  }

  // ---------- Large allocations ----------

  /** An allocation takes the place of a freed one. */
  lemma SlotFilled(regions: map<int, int>, chain: seq<Block>, large: seq<Large>, live: set<Region>, i: int, p: int)
    requires LargesOk(regions, chain, large) && Owned(regions, chain, large, p) && 0 <= i < |large|
             && large[i].alloc == 0
    requires p != 0 && forall k :: 0 <= k < |chain| ==> chain[k].base != 0
    ensures var l' := large[i := large[i].(alloc := p)]; LargesOk(regions, chain, l') && Owned(regions, chain, l', 0)
                                                         && (Recorded(large, live) ==> Recorded(l', live))
  {
    var l' := large[i := large[i].(alloc := p)];
    forall a | a in regions && !IsBase(chain, a)
      ensures IsAlloc(l', a)
    {
      if a == p {
        assert l'[i].alloc == a;
      } else {
        var k :| 0 <= k < |large| && large[k].alloc == a;
        assert k != i && l'[k].alloc == a;
      }
    }
  }

  /** Or a new record holds it. */
  lemma RecordJoins(regions: map<int, int>, chain: seq<Block>, large: seq<Large>, live: set<Region>, record: int,
                    p: int)
    requires LargesOk(regions, chain, large) && Owned(regions, chain, large, p)
    requires p != 0 && forall k :: 0 <= k < |chain| ==> chain[k].base != 0
    ensures var l' := [Large(record, p)] + large;
            && LargesOk(regions, chain, l') && Owned(regions, chain, l', 0)
            && (Recorded(large, live) && Region(record, LARGE_RECORD_SIZE) !in live ==>
                  Recorded(l', live + Handed(record, LARGE_RECORD_SIZE)))
  {
    RecordListed(large, live, record, p);
    hide Recorded;
    var l' := [Large(record, p)] + large;
    assert l'[0] == Large(record, p) && forall k :: 0 <= k < |large| ==> l'[k + 1] == large[k];
    assert forall k :: 0 < k < |l'| ==> l'[k] == large[k - 1];
    forall a | a in regions && !IsBase(chain, a)
      ensures IsAlloc(l', a)
    {
      if a == p {
        assert l'[0].alloc == a;
      } else {
        var k :| 0 <= k < |large| && large[k].alloc == a;
        assert l'[k + 1].alloc == a;
      }
    }
  }

  lemma RecordListed(large: seq<Large>, live: set<Region>, record: int, p: int)
    ensures Recorded(large, live) && Region(record, LARGE_RECORD_SIZE) !in live ==>
              Recorded([Large(record, p)] + large, live + Handed(record, LARGE_RECORD_SIZE))
  {
    var l' := [Large(record, p)] + large;
    assert forall k :: 0 < k < |l'| ==> l'[k] == large[k - 1];
  }

  /** A region just taken for a large allocation is in no list yet. */
  lemma Underway(regions: map<int, int>, chain: seq<Block>, large: seq<Large>, size: int, p: int, n: int)
    requires HeapOk(regions) && ChainOk(regions, chain, size) && LargesOk(regions, chain, large)
             && Owned(regions, chain, large, 0)
    requires FreshRegion(regions, p, n) && n > 0
    ensures var r' := regions[p := n];
            && HeapOk(r') && ChainOk(r', chain, size) && LargesOk(r', chain, large) && Owned(r', chain, large, p)
            && LargeRegions(r', large) == LargeRegions(regions, large)
    ensures forall k :: 0 <= k < |chain| ==> chain[k].base != 0
  {
    Taken(regions, chain, large, size, p, n);
    forall k | 0 <= k < |chain|
      ensures chain[k].base != 0
    {
      assert BlockOk(regions, chain, size, k);
    }
    assert LargeRegions(regions[p := n], large) == LargeRegions(regions, large);
  }

  /** A large allocation that found no record goes back. */
  lemma Withdrawn(regions: map<int, int>, chain: seq<Block>, large: seq<Large>, size: int, p: int)
    requires HeapOk(regions) && ChainOk(regions, chain, size) && LargesOk(regions, chain, large)
             && Owned(regions, chain, large, p) && p != 0
    ensures var r' := regions - {p};
            && HeapOk(r') && ChainOk(r', chain, size) && LargesOk(r', chain, large) && Owned(r', chain, large, 0)
  {
    forall k | 0 <= k < |chain|
      ensures BlockOk(regions - {p}, chain, size, k) && chain[k].base != 0
    {
      assert BlockOk(regions, chain, size, k);
    }
  }

  lemma BasesPositive(regions: map<int, int>, chain: seq<Block>, size: int)
    requires HeapOk(regions) && ChainOk(regions, chain, size)
    ensures forall k :: 0 <= k < |chain| ==> chain[k].base != 0
  {
    forall k | 0 <= k < |chain|
      ensures chain[k].base != 0
    {
      assert BlockOk(regions, chain, size, k);
    }
  }

  /** All that a large allocation in a free record keeps. */
  lemma SlotAdded(regions: map<int, int>, chain: seq<Block>, large: seq<Large>, live: set<Region>, size: int, i: int,
                  p: int)
    requires HeapOk(regions) && ChainOk(regions, chain, size) && LargesOk(regions, chain, large)
             && Owned(regions, chain, large, p)
    requires p != 0 && 0 <= i < |large| && large[i].alloc == 0
    ensures var l' := large[i := large[i].(alloc := p)];
            && LargesOk(regions, chain, l') && Owned(regions, chain, l', 0)
               && (Recorded(large, live) ==> Recorded(l', live))
            && LargeRegions(regions, l') == LargeRegions(regions, large) + {Region(p, regions[p])}
            && (Placed(chain, live) ==> Clear(live + LargeRegions(regions, large), p, regions[p]))
  {
    BasesPositive(regions, chain, size);
    SlotFilled(regions, chain, large, live, i, p);
    var l' := large[i := large[i].(alloc := p)];
    LargeAdded(regions, large, l', p);
    if Placed(chain, live) {
      LargeClear(regions, chain, l', live, LargeRegions(regions, large), size, p, regions[p]);
    }
  }

  /** All that a large allocation with a new record keeps. */
  lemma RecordAdded(regions: map<int, int>, chain: seq<Block>, large: seq<Large>, live: set<Region>, size: int,
                    record: int, p: int)
    requires HeapOk(regions) && ChainOk(regions, chain, size) && LargesOk(regions, chain, large)
             && Owned(regions, chain, large, p)
    requires p != 0
    ensures var l', live' := [Large(record, p)] + large, live + Handed(record, LARGE_RECORD_SIZE);
            && LargesOk(regions, chain, l') && Owned(regions, chain, l', 0)
            && LargeRegions(regions, l') == LargeRegions(regions, large) + {Region(p, regions[p])}
            && (Recorded(large, live) && Clear(live, record, LARGE_RECORD_SIZE) ==> Recorded(l', live'))
            && (Placed(chain, live') ==> Clear(live' + LargeRegions(regions, large), p, regions[p]))
  {
    BasesPositive(regions, chain, size);
    RecordJoins(regions, chain, large, live, record, p);
    var l', live' := [Large(record, p)] + large, live + Handed(record, LARGE_RECORD_SIZE);
    LargeAdded(regions, large, l', p);
    if Placed(chain, live') {
      LargeClear(regions, chain, l', live', LargeRegions(regions, large), size, p, regions[p]);
    }
  }

  lemma LargeAdded(regions: map<int, int>, large: seq<Large>, large': seq<Large>, p: int)
    requires 0 !in regions && p in regions && (forall i :: 0 <= i < |large| ==> large[i].alloc != p)
    requires || (|large'| == |large| + 1 && large'[0].alloc == p && large'[1..] == large)
             || (exists i :: 0 <= i < |large| && large[i].alloc == 0 && large' == large[i := large[i].(alloc := p)])
    ensures LargeRegions(regions, large') == LargeRegions(regions, large) + {Region(p, regions[p])}
  {
    var l, r := LargeRegions(regions, large'), LargeRegions(regions, large) + {Region(p, regions[p])};
    if |large'| == |large| + 1 {
      assert forall i :: 0 <= i < |large| ==> large'[i + 1] == large[i];
      assert forall i :: 0 < i < |large'| ==> large'[i] == large[i - 1];
      assert forall u :: u in r ==> u in l;
      assert forall u :: u in l ==> u in r;
    } else {
      var i :| 0 <= i < |large| && large[i].alloc == 0 && large' == large[i := large[i].(alloc := p)];
      assert large'[i].alloc == p && forall k :: 0 <= k < |large| && k != i ==> large'[k] == large[k];
      assert forall u :: u in r ==> u in l;
      assert forall u :: u in l ==> u in r;
    }
  }

  /** A freed allocation leaves its record behind. */
  lemma SlotEmptied(regions: map<int, int>, chain: seq<Block>, large: seq<Large>, live: set<Region>, size: int, i: int)
    requires HeapOk(regions) && ChainOk(regions, chain, size) && LargesOk(regions, chain, large)
             && Owned(regions, chain, large, 0)
    requires 0 <= i < |large| && large[i].alloc != 0
    ensures var p := large[i].alloc; var r', l' := regions - {p}, large[i := large[i].(alloc := 0)];
            && p in regions && HeapOk(r') && ChainOk(r', chain, size) && LargesOk(r', chain, l')
               && Owned(r', chain, l', 0)
            && LargeRegions(r', l') == LargeRegions(regions, large) - {Region(p, regions[p])}
               && Records(l') == Records(large)
            && (Recorded(large, live) ==> Recorded(l', live))
            && (Placed(chain, live) ==> Region(p, regions[p]) !in live)
  {
    var p := large[i].alloc;
    var r', l' := regions - {p}, large[i := large[i].(alloc := 0)];
    BasesPositive(regions, chain, size);
    forall k | 0 <= k < |chain|
      ensures BlockOk(r', chain, size, k)
    {
      assert BlockOk(regions, chain, size, k);
    }
    forall a | a in r' && !IsBase(chain, a)
      ensures IsAlloc(l', a)
    {
      var k :| 0 <= k < |large| && large[k].alloc == a;
      assert l'[k].alloc == a;
    }
    LargeDropped(regions, large, i);
    RecordsStepped(large, l');
    assert Region(p, regions[p]) in LargeRegions(regions, large);
    if Placed(chain, live) && Region(p, regions[p]) in live {
      SmallBeside(regions, chain, large, size, Region(p, regions[p]), Region(p, regions[p]));
    }
  }

  lemma LargeDropped(regions: map<int, int>, large: seq<Large>, i: int)
    requires 0 <= i < |large| && large[i].alloc in regions && 0 !in regions
    requires forall k, h :: 0 <= k < h < |large| && large[k].alloc != 0 ==> large[k].alloc != large[h].alloc
    ensures var p := large[i].alloc;
            LargeRegions(regions - {p},
                         large[i := large[i].(alloc := 0)]) == LargeRegions(regions, large) - {Region(p, regions[p])}
  {
    var p := large[i].alloc;
    var r', l' := regions - {p}, large[i := large[i].(alloc := 0)];
    assert forall k :: 0 <= k < |large| && k != i ==> l'[k] == large[k] && large[k].alloc != p;
    assert l'[i].alloc == 0;
    forall u | u in LargeRegions(regions, large) && u != Region(p, regions[p])
      ensures u in LargeRegions(r', l')
    {
      var k :| 0 <= k < |large| && large[k].alloc in regions && u == Region(large[k].alloc, regions[large[k].alloc]);
      assert l'[k].alloc in r';
    }
  }

  /** The first record of the list goes, with its allocation. */
  lemma FirstFreed(regions: map<int, int>, chain: seq<Block>, large: seq<Large>, size: int)
    requires HeapOk(regions) && ChainOk(regions, chain, size) && LargesOk(regions, chain, large)
             && Owned(regions, chain, large, 0) && large != []
    ensures var p := large[0].alloc; var r', l' := if p == 0 then regions else regions - {p}, large[1..];
            && HeapOk(r') && ChainOk(r', chain, size) && LargesOk(r', chain, l') && Owned(r', chain, l', 0)
               && (p != 0 ==> p in regions)
  {
    var p := large[0].alloc;
    var r', l' := if p == 0 then regions else regions - {p}, large[1..];
    BasesPositive(regions, chain, size);
    assert forall k :: 0 <= k < |l'| ==> l'[k] == large[k + 1];
    forall k | 0 <= k < |chain|
      ensures BlockOk(r', chain, size, k)
    {
      assert BlockOk(regions, chain, size, k);
    }
    forall a | a in r' && !IsBase(chain, a)
      ensures IsAlloc(l', a)
    {
      var k :| 0 <= k < |large| && large[k].alloc == a;
      assert l'[k - 1].alloc == a;
    }
  }

  lemma OnlyBases(regions: map<int, int>, chain: seq<Block>, size: int)
    requires ChainOk(regions, chain, size) && Owned(regions, chain, [], 0)
    ensures (forall a :: a in regions ==> IsBase(chain, a)) && forall i :: 0 <= i < |chain| ==> chain[i].base in regions
  {
    forall i | 0 <= i < |chain|
      ensures chain[i].base in regions
    {
      assert BlockOk(regions, chain, size, i);
    }
  }

  lemma BaseGone(chain: seq<Block>, regions: map<int, int>)
    requires chain != [] && forall a :: a in regions ==> IsBase(chain, a)
    ensures forall a :: a in regions && a != chain[0].base ==> IsBase(chain[1..], a)
  {
    forall a | a in regions && a != chain[0].base
      ensures IsBase(chain[1..], a)
    {
      var i :| 0 <= i < |chain| && chain[i].base == a;
      assert chain[1..][i - 1].base == a;
    }
  }

  function Emptied(chain: seq<Block>): (r: seq<Block>)
    ensures |r| == |chain|
  {
    seq(|chain|, k requires 0 <= k < |chain| => chain[k].(last := chain[k].base + HEADER))
  }

  lemma EmptiedPlaced(regions: map<int, int>, chain: seq<Block>, size: int)
    requires ChainOk(regions, Emptied(chain), size)
    ensures Placed(Emptied(chain), {}) && Recorded([], {}) && LargeRegions(regions, []) == {}
  {
    forall k | 0 <= k < |chain|
      ensures chain[k].base + HEADER <= chain[k].end
    {
      assert BlockOk(regions, Emptied(chain), size, k);
    }
  }

  lemma FirstBlock(base: int, size: int)
    requires size >= HEADER && FreshRegion(map[], base, size)
    ensures var r, c := map[base := size], [Block(base, base + HEADER, base + size, 0)];
            && HeapOk(r) && ChainOk(r, c, size) && LargesOk(r, c, []) && Owned(r, c, [], 0) && FailuresOk(c, 0)
            && Placed(c, {}) && Recorded([], {}) && LargeRegions(r, []) == {}
  {
    assert [Block(base, base + HEADER, base + size, 0)][0].base == base;
  }

  // ---------- Bytes ----------

  type Memory = int -> int

  function Bytes(mem: Memory, a: int, n: nat): seq<int>
  {
    seq(n, k => mem(a + k))
  }

  function Copied(mem: Memory, to: int, from: int, n: nat): Memory
  {
    a => if to <= a < to + n then mem(from + a - to) else mem(a)
  }

  function Zeroed(mem: Memory, to: int, n: nat): Memory
  {
    a => if to <= a < to + n then 0 else mem(a)
  }

  /** The bytes in the regions of the set are the same. */
  ghost predicate Kept(mem: Memory, mem': Memory, users: set<Region>)
  {
    forall u :: u in users && u.size > 0 ==> Bytes(mem', u.addr, u.size) == Bytes(mem, u.addr, u.size)
  }

  /** What was copied is there. */
  lemma CopyThere(mem: Memory, to: int, from: int, n: nat)
    ensures Bytes(Copied(mem, to, from, n), to, n) == Bytes(mem, from, n)
  {
    hide Copied;
    var copy := Copied(mem, to, from, n);
    forall k | 0 <= k < n
      ensures Bytes(copy, to, n)[k] == Bytes(mem, from, n)[k]
    {
      CopiedByte(mem, to, from, n, k);
    }
  }

  lemma CopiedByte(mem: Memory, to: int, from: int, n: nat, k: nat)
    requires k < n
    ensures Copied(mem, to, from, n)(to + k) == mem(from + k)
  {
    assert from + (to + k) - to == from + k;
  }

  ghost predicate SameOutside(mem: Memory, mem': Memory, a: int, n: int)
  {
    forall b :: b < a || b >= a + n ==> mem'(b) == mem(b)
  }

  /** Writing to bytes that overlap no region keeps every region. */
  lemma OutsideKept(mem: Memory, mem': Memory, a: int, n: int, users: set<Region>)
    requires SameOutside(mem, mem', a, n) && Clear(users, a, n)
    ensures Kept(mem, mem', users)
  {
    forall u | u in users && u.size > 0
      ensures Bytes(mem', u.addr, u.size) == Bytes(mem, u.addr, u.size)
    {
      assert n > 0 ==> Apart(u, Region(a, n));
    }
  }

  // ---------- The top of the first block ----------

  function TopAt(chain: seq<Block>, last: int): (r: seq<Block>)
    requires |chain| > 0
    ensures |r| == |chain|
  {
    chain[0 := chain[0].(last := last)]
  }

  /** A region that ends where the first block's used part ends lies in that block. */
  lemma TopSmall(regions: map<int, int>, chain: seq<Block>, large: seq<Large>, live: set<Region>, size: int, u: Region)
    requires HeapOk(regions) && ChainOk(regions, chain, size) && LargesOk(regions, chain, large) && Placed(chain, live)
    requires u in live + LargeRegions(regions, large) && u.addr + u.size == chain[0].last
    ensures u in live && Inside(chain, 0, u)
  {
    LargeNotTop(regions, chain, large, size);
    assert BlockOk(regions, chain, size, 0);
    ChainApart(regions, chain, size);
    var i :| Inside(chain, i, u);
    assert BlockOk(regions, chain, size, i);
  }

  lemma LargeNotTop(regions: map<int, int>, chain: seq<Block>, large: seq<Large>, size: int)
    requires HeapOk(regions) && ChainOk(regions, chain, size) && LargesOk(regions, chain, large) && LastOk(chain)
    ensures forall u :: u in LargeRegions(regions, large) ==> u.addr + u.size != chain[0].last
  {
    assert BlockOk(regions, chain, size, 0);
    forall u | u in LargeRegions(regions, large)
      ensures u.addr + u.size != chain[0].last
    {
      var k :| 0 <= k < |large| && large[k].alloc in regions && u == Region(large[k].alloc, regions[large[k].alloc]);
      assert Apart(Region(chain[0].base, size), u);
    }
  }

  /** The region at the top of the first block, now of n bytes instead of was.size. */
  lemma TopMoved(regions: map<int, int>, chain: seq<Block>, large: seq<Large>, live: set<Region>, size: int, a: int,
                 n: int, n': int)
    requires HeapOk(regions) && ChainOk(regions, chain, size) && LargesOk(regions, chain, large) && Placed(chain, live)
    requires a + n == chain[0].last && 0 <= n && 0 <= n' && a + n' <= chain[0].end
             && Handed(a, n) <= live + LargeRegions(regions, large)
    ensures var c', live' := TopAt(chain, a + n'), live - Handed(a, n) + Handed(a, n');
            && Placed(c', live') && Clear(live - Handed(a, n), a, n')
            && live' + LargeRegions(regions, large) == live + LargeRegions(regions, large) - Handed(a, n)
               + Handed(a, n')
    ensures a >= chain[0].base + HEADER
  {
    ChainApart(regions, chain, size);
    LargeNotTop(regions, chain, large, size);
    if n > 0 {
      TopSmall(regions, chain, large, live, size, Region(a, n));
    }
    hide HeapOk, ChainOk, LargesOk, LargeRegions;
    TopPlaced(chain, live, a, n, n');
  }

  lemma TopPlaced(chain: seq<Block>, live: set<Region>, a: int, n: int, n': int)
    requires |chain| > 0 && BlocksApart(chain) && Placed(chain, live)
    requires a + n == chain[0].last && 0 <= n && 0 <= n' && a + n' <= chain[0].end && a >= chain[0].base + HEADER
             && Handed(a, n) <= live
    ensures Placed(TopAt(chain, a + n'), live - Handed(a, n) + Handed(a, n')) && Clear(live - Handed(a, n), a, n')
  {
    var c', rest := TopAt(chain, a + n'), live - Handed(a, n);
    forall u | u in rest
      ensures InBlock(c', u) && (n' > 0 ==> Apart(u, Region(a, n')))
    {
      var i :| Inside(chain, i, u);
      assert n > 0 ==> Apart(u, Region(a, n));
      assert Inside(c', i, u);
    }
    assert Inside(c', 0, Region(a, n'));
  }

  lemma TopRecorded(regions: map<int, int>, chain: seq<Block>, large: seq<Large>, live: set<Region>, size: int,
                    a: int, n: int, n': int)
    requires Recorded(large, live) && Handed(a, n) !! Records(large) && Clear(live - Handed(a, n), a, n')
    ensures Recorded(large, live - Handed(a, n) + Handed(a, n')) && Handed(a, n') !! Records(large)
  {
    forall u | u in Records(large)
      ensures u in live - Handed(a, n)
    {
    }
  }

  /** All that moving the top keeps. */
  lemma TopKeeps(regions: map<int, int>, chain: seq<Block>, large: seq<Large>, live: set<Region>, size: int,
                 current: int, a: int, n: int, n': int)
    requires HeapOk(regions) && ChainOk(regions, chain, size) && LargesOk(regions, chain, large)
             && Owned(regions, chain, large, 0)
    requires FailuresOk(chain, current) && Placed(chain, live) && Recorded(large, live) && |chain| > 0
    requires a + n == chain[0].last && 0 <= n && 0 <= n' && a + n' <= chain[0].end
    requires Handed(a, n) <= live + LargeRegions(regions, large) - Records(large)
    ensures var c', live' := TopAt(chain, a + n'), live - Handed(a, n) + Handed(a, n');
            && ChainOk(regions, c', size) && LargesOk(regions, c', large) && Owned(regions, c', large, 0)
               && FailuresOk(c', current)
            && Placed(c', live') && Recorded(large, live')
            && live' + LargeRegions(regions, large) == live + LargeRegions(regions, large) - Handed(a, n)
               + Handed(a, n')
            && Handed(a, n') !! Records(large) && Clear(live + LargeRegions(regions, large) - Handed(a, n), a, n')
  {
    hide HeapOk, ChainOk, LargesOk, Owned, FailuresOk, Placed, Recorded, LargeRegions, Records, Clear;
    TopMoved(regions, chain, large, live, size, a, n, n');
    TopRecorded(regions, chain, large, live, size, a, n, n');
    LastMoved(regions, chain, large, size, 0, current, 0, a + n');
    var c', live' := TopAt(chain, a + n'), live - Handed(a, n) + Handed(a, n');
    SmallClear(regions, c', large, live', live - Handed(a, n), size, a, n');
    ClearOfLess(live + LargeRegions(regions, large) - Handed(a, n),
                live - Handed(a, n) + LargeRegions(regions, large), a, n');
  }

  /** A region that users hold is in memory. */
  lemma UserBounded(regions: map<int, int>, chain: seq<Block>, large: seq<Large>, live: set<Region>, size: int,
                    u: Region)
    requires HeapOk(regions) && ChainOk(regions, chain, size) && LargesOk(regions, chain, large) && Placed(chain, live)
    requires u in live + LargeRegions(regions, large)
    ensures 0 < u.addr && u.addr + u.size < ADDRESSES
  {
    if u in live {
      var i :| Inside(chain, i, u);
      assert BlockOk(regions, chain, size, i);
    }
  }

  lemma GivenBack(regions: map<int, int>, base: int, n: int)
    requires FreshRegion(regions, base, n)
    ensures base > 0 && base % 8 == 0 && base !in regions && regions[base := n] - {base} == regions
  {
  }

  lemma HeapKept(regions: map<int, int>, base: int, n: int)
    requires HeapOk(regions) && FreshRegion(regions, base, n) && n > 0
    ensures HeapOk(regions[base := n])
  {
  }

  lemma {:induction false} FewBelow(s: set<int>, n: nat)
    requires forall x :: x in s ==> 0 <= x < n
    ensures |s| <= n
  {
    if n > 0 {
      FewBelow(s - {n - 1}, n - 1);
      assert n - 1 !in s ==> s - {n - 1} == s;
    } else {
      assert forall x :: x !in s;
    }
  }

  /** Memory holds fewer regions than it has addresses. */
  lemma RegionsFew(regions: map<int, int>)
    requires HeapOk(regions)
    ensures |regions| <= ADDRESSES
  {
    FewBelow(regions.Keys, ADDRESSES);
  }

  /** When taking n bytes fails, and what malloc gives for it: nothing if a block shows room, else one block. */
  ghost predicate Granted(malloc: (map<int, int>, int) -> int, size: int, chain: seq<Block>, current: int,
                          regions: map<int, int>, n: int, word: bool, r: int, regions': map<int, int>)
  {
    && 0 <= current < |chain|
    && if FirstFit(chain, current, n, word) < |chain| then r != 0 && regions' == regions
       else
         var base := Answer(malloc, regions, size);
         if base == 0 then r == 0 && regions' == regions
         else r == base + BLOCK_HEADER && regions' == regions[base := size]
  }

  /** What an allocation works on. */
  datatype PoolState = PoolState(chain: seq<Block>, current: int, large: seq<Large>, regions: map<int, int>)

  /** The first free one of the first five records, from record i on; the end of the list if there is none. */
  function FreeRecord(large: seq<Large>, i: nat): (j: nat)
    requires i <= |large|
    ensures i <= j <= |large| && (j < |large| ==> j < 5 && large[j].alloc == 0)
    ensures forall k :: i <= k < j && k < 5 ==> large[k].alloc != 0
    decreases |large| - i
  {
    if i >= 5 || i == |large| then |large| else if large[i].alloc == 0 then i else FreeRecord(large, i + 1)
  }

  /** Neither a block nor malloc has room. */
  ghost predicate NoBlock(malloc: (map<int, int>, int) -> int, size: int, chain: seq<Block>, current: int,
                          regions: map<int, int>, n: int, word: bool)
  {
    0 <= current <= |chain| && FirstFit(chain, current, n, word) == |chain| && Answer(malloc, regions, size) == 0
  }

  /** When an allocation of n bytes is NULL. Above the limit: malloc gives no such region, or no record is free for
      it and there is no room for a new one. */
  ghost predicate Refused(malloc: (map<int, int>, int) -> int, size: int, s: PoolState, n: int, word: bool)
  {
    if n <= Limit(size) then NoBlock(malloc, size, s.chain, s.current, s.regions, n, word)
    else
      var p := Answer(malloc, s.regions, n);
      || p == 0
      || (FreeRecord(s.large, 0) == |s.large|
          && (Limit(size) < LARGE_RECORD_SIZE
              || NoBlock(malloc, size, s.chain, s.current, s.regions[p := n], LARGE_RECORD_SIZE, true)))
  }

  /** A new record, taken from the chain, holds the region p. */
  ghost predicate Listed(malloc: (map<int, int>, int) -> int, size: int, s: PoolState, p: int, s': PoolState)
  {
    && |s'.large| == |s.large| + 1 && s'.large == [Large(s'.large[0].record, p)] + s.large
    && Granted(malloc, size, s.chain, s.current, s.regions, LARGE_RECORD_SIZE, true, s'.large[0].record, s'.regions)
    && Took(s.chain, s.current, size, LARGE_RECORD_SIZE, true, s'.large[0].record, s'.chain, s'.current)
  }

  /** What an allocation of n bytes at r, not NULL, does. Above the limit the region is malloc's, and the first
      free one of the first five records holds it, or else a new one. */
  ghost predicate Allocated(malloc: (map<int, int>, int) -> int, size: int, s: PoolState, n: int, word: bool, r: int,
                            s': PoolState)
  {
    if n <= Limit(size) then
      && s'.large == s.large && Granted(malloc, size, s.chain, s.current, s.regions, n, word, r, s'.regions)
      && Took(s.chain, s.current, size, n, word, r, s'.chain, s'.current)
    else
      var j := FreeRecord(s.large, 0);
      && r == Answer(malloc, s.regions, n)
      && if j < |s.large| then s' == s.(large := s.large[j := s.large[j].(alloc := r)], regions := s.regions[r := n])
         else Listed(malloc, size, s.(regions := s.regions[r := n]), r, s')
  }

  class Pool {
    const size: int
    const max: int
    var chain: seq<Block>
    var current: int
    var large: seq<Large>

    // what malloc answers, by the regions it has given and the size it is asked for; an answer that
    // is not a region apart from all others stands for NULL
    const malloc: (map<int, int>, int) -> int
    // what malloc has given the pool, what the bytes in it are, and the regions handed out of blocks
    var regions: map<int, int>
    var mem: Memory
    ghost var live: set<Region>

    ghost predicate Shaped(pending: int)
      reads this
    {
      && HeapOk(regions) && ChainOk(regions, chain, size) && LargesOk(regions, chain, large)
         && Owned(regions, chain, large, pending)
      && FailuresOk(chain, current) && max == Limit(size) && (max < LARGE_RECORD_SIZE ==> large == [])
    }

    /** The invariant, with one malloc region not yet in any list. */
    ghost predicate ValidBut(pending: int)
      reads this
    {
      Shaped(pending) && (Whole(size) ==> Placed(chain, live) && Recorded(large, live))
    }

    ghost predicate Valid()
      reads this
    {
      ValidBut(0)
    }

    ghost function State(): PoolState
      reads this
    {
      PoolState(chain, current, large, regions)
    }

    /** gvfs_palloc gives NULL for n bytes. */
    ghost predicate Refuses(n: int)
      reads this
    {
      Refused(malloc, size, State(), n, true)
    }

    /** Everything users hold: regions in blocks, the pool's own records among them, and large ones. */
    ghost function Users(): set<Region>
      reads this
    {
      live + LargeRegions(regions, large)
    }

    /** What was asked for and not given back: all of it but the pool's own records. */
    ghost function Held(): (held: set<Region>)
      reads this
      ensures held <= Users()
    {
      Users() - Records(large)
    }

    /** What gvfs_create_pool sets up in its first block. */
    constructor (size: int, malloc: (map<int, int>, int) -> int)
      requires size >= HEADER && FreshRegion(map[], malloc(map[], size), size)
      ensures Valid() && this.size == size && this.malloc == malloc && max == Limit(size)
      ensures Users() == {} && large == [] && current == 0 && regions == map[malloc(map[], size) := size]
      ensures var base := malloc(map[], size); chain == [Block(base, base + HEADER, base + size, 0)]
    {
      var base := malloc(map[], size);
      this.size, this.malloc, max := size, malloc, Limit(size);
      chain, current, large := [Block(base, base + HEADER, base + size, 0)], 0, [];
      regions, mem, live := map[base := size], _ => 0, {};
      new;
      FirstBlock(base, size);
    }

    /** What users hold is in memory. */
    lemma Bounded(a: int, n: int)
      requires Valid() && Whole(size) && Handed(a, n) <= Users()
      ensures n > 0 ==> 0 < a && a + n < ADDRESSES
    {
      if n > 0 {
        UserBounded(regions, chain, large, live, size, Region(a, n));
      }
    }

    lemma LimitIs()
      requires Valid()
      ensures max == Limit(size)
    {
    }

    /** Nothing can always be had. */
    lemma NothingRefused()
      requires Valid()
      ensures !Refuses(0)
    {
    }

    lemma InChain()
      requires Valid()
      ensures 0 <= current < |chain|
    {
    }

    lemma TopInside()
      requires Valid() && Whole(size)
      ensures 0 <= current < |chain| && chain[0].last <= chain[0].end < ADDRESSES && chain[0].last > 0
              && max == Limit(size) <= MAX_FROM_POOL
    {
      assert BlockOk(regions, chain, size, 0);
    }

    /** No two regions that users hold share a byte; those in blocks lie behind the header of one and
        below its top, and large ones in no block. */
    lemma HeldApart(r: Region, u: Region)
      requires Valid() && Whole(size) && r in Users() && u in Users() && r != u
      ensures Apart(r, u)
      ensures || (exists i :: Inside(chain, i, r) && chain[i].last <= chain[i].end)
              || (forall i :: 0 <= i < |chain| ==> Apart(Region(chain[i].base, size), r))
    {
      UsersApart(regions, chain, large, live, size, r, u);
      if r in live {
        var i :| Inside(chain, i, r);
      } else {
        LargeOutside(regions, chain, large, size, r);
      }
    }

    /** malloc and memalign: a region apart from all others, or NULL. */
    method TakeRegion(n: int) returns (base: int)
      requires HeapOk(regions) && n > 0
      modifies this`regions
      ensures base == Answer(malloc, old(regions), n) >= 0 && (base == 0 ==> regions == old(regions))
      ensures base != 0 ==> FreshRegion(old(regions), base, n) && regions == old(regions)[base := n]
    {
      base := Answer(malloc, regions, n);
      if base != 0 {
        regions := regions[base := n];
      }
    }

    /** The loop of gvfs_palloc: from the current block on, the first that shows room. */
    method FindRoom(n: int, word: bool) returns (j: int)
      requires 0 <= current < |chain|
      ensures j == FirstFit(chain, current, n, word)
    {
      j := current;
      while j < |chain| && Room(chain[j], word) < n
        invariant current <= j <= |chain| && FirstFit(chain, current, n, word) == FirstFit(chain, j, n, word)
      {
        j := j + 1;
      }
    }

    /** Allocation from the chain. */
    method Take(n: int, word: bool, ghost pending: int) returns (r: int)
      requires ValidBut(pending) && 0 <= n <= max
      modifies this`chain, this`current, this`regions, this`live
      ensures ValidBut(pending) && r >= 0
      ensures r == 0 ==> unchanged(this)
      ensures r != 0 ==> Took(old(chain), old(current), size, n, word, r, chain, current)
                         && live == old(live) + Handed(r, n)
      ensures r != 0 && word ==> r % 8 == 0
      ensures Granted(malloc, size, old(chain), old(current), old(regions), n, word, r, regions)
      ensures r != 0 && Whole(size) ==> Clear(old(live), r, n)
      ensures LargeRegions(regions, large) == old(LargeRegions(regions, large)) && Extends(old(regions), regions)
    {
      assert 0 <= current < |chain|;
      hide Whole, HeapOk, ChainOk, LargesOk, Owned, FailuresOk, Placed, Recorded, Apart, FreshRegion, Failed,
           MovesTo, LargeRegions, BlockOk, StartAt, Room, FirstFit;
      var j := FindRoom(n, word);
      if j < |chain| {
        r := TakeFrom(j, n, word, pending);
      } else {
        r := PallocBlock(n, pending);
      }
    }

    /** A block that shows room gives the region at its top. */
    method TakeFrom(j: int, n: int, word: bool, ghost pending: int) returns (r: int)
      requires ValidBut(pending) && 0 <= j < |chain| && 0 <= n <= Room(chain[j], word)
      modifies this`chain, this`live
      ensures ValidBut(pending) && r == StartAt(old(chain[j].last), word) > 0 && (word ==> r % 8 == 0)
      ensures chain == old(chain)[j := old(chain)[j].(last := r + n)] && live == old(live) + Handed(r, n)
      ensures Whole(size) ==> Clear(old(live), r, n)
    {
      hide Whole, HeapOk, ChainOk, LargesOk, Owned, FailuresOk, Placed, Recorded, Apart, StartAt, Room;
      StartAfter(regions, chain, size, j, word);
      r := StartAt(chain[j].last, word);
      if Whole(size) {
        RecordedMore(large, live, Handed(r, n));
        FitPlaced(regions, chain, live, size, j, n, word);
      }
      LastMoved(regions, chain, large, size, pending, current, j, r + n);
      chain := chain[j := chain[j].(last := r + n)];
      live := live + Handed(r, n);
    }

    /** gvfs_palloc_block: a block more, with the region at its start. */
    method PallocBlock(n: int, ghost pending: int) returns (r: int)
      requires ValidBut(pending) && 0 <= n <= max
      modifies this`chain, this`current, this`regions, this`live
      ensures ValidBut(pending)
      ensures var base := Answer(malloc, old(regions), size);
              if base == 0 then r == 0 && unchanged(this)
              else r == base + BLOCK_HEADER && regions == old(regions)[base := size]
      ensures r != 0 ==>
                && r > BLOCK_HEADER && r % 8 == 0 && live == old(live) + Handed(r, n)
                   && MovesTo(old(chain), old(current), current)
                && chain == Failed(old(chain), old(current))
                   + [Block(r - BLOCK_HEADER, r + n, r - BLOCK_HEADER + size, 0)]
      ensures r != 0 && Whole(size) ==> Clear(old(live), r, n)
      ensures LargeRegions(regions, large) == old(LargeRegions(regions, large)) && Extends(old(regions), regions)
    {
      assert BlockOk(regions, chain, size, 0);
      var psize := chain[0].end - chain[0].base;
      ghost var was := regions;
      var base := TakeRegion(psize);
      if base == 0 {
        return 0;
      }
      r := JoinBlock(base, psize, n, was, pending);
    }

    /** The new block is set up, counted against the others, and joins the chain. */
    method JoinBlock(base: int, psize: int, n: int, ghost was: map<int, int>, ghost pending: int) returns (r: int)
      requires HeapOk(was) && ChainOk(was, chain, size) && LargesOk(was, chain, large)
               && Owned(was, chain, large, pending)
      requires FailuresOk(chain, current) && FreshRegion(was, base, size) && regions == was[base := size]
      requires psize == size && n >= 0 && BLOCK_HEADER + n <= size
      modifies this`chain, this`current, this`live
      ensures HeapOk(regions) && ChainOk(regions, chain, size) && LargesOk(regions, chain, large)
              && Owned(regions, chain, large, pending)
      ensures FailuresOk(chain, current) && r == base + BLOCK_HEADER && base > 0
      ensures LargeRegions(regions, large) == LargeRegions(was, large) && Extends(was, regions)
      ensures Placed(old(chain), old(live)) ==> Placed(chain, live) && Clear(old(live), r, n)
      ensures Recorded(large, old(live)) ==> Recorded(large, live)
      ensures live == old(live) + Handed(r, n) && r % 8 == 0 && MovesTo(old(chain), old(current), current)
      ensures chain == Failed(old(chain), old(current)) + [Block(base, r + n, base + size, 0)]
    {
      hide *;
      r := Align8(base + BLOCK_HEADER);
      HeaderAligned(was, base, psize);
      var b := Block(base, r + n, base + psize, 0);
      FailBlocks();
      BlockAdded(was, old(chain), large, live, size, old(current), current, pending, b, n);
      chain := chain + [b];
      live := live + Handed(r, n);
    }

    method TakeSmall(n: int, word: bool) returns (r: int)
      requires Valid() && 0 <= n <= max
      modifies this`chain, this`current, this`regions, this`live
      ensures Valid() && r >= 0
      ensures r == 0 ==> unchanged(this)
      ensures r != 0 ==> Took(old(chain), old(current), size, n, word, r, chain, current) && (word ==> r % 8 == 0)
                         && live == old(live) + Handed(r, n)
      ensures Granted(malloc, size, old(chain), old(current), old(regions), n, word, r, regions)
      ensures r != 0 && Whole(size) ==> Held() == old(Held()) + Handed(r, n) && Clear(old(Users()), r, n)
      ensures Extends(old(regions), regions)
    {
      r := Take(n, word, 0);
      hide HeapOk, ChainOk, LargesOk, Owned, FailuresOk, Placed, Recorded, Clear, LargeRegions, Records, Took, Extends;
      if Whole(size) && r != 0 {
        SmallClear(regions, chain, large, live, old(live), size, r, n);
        RecordsStepped(large, large);
        RecordsIn(large, old(live));
        HeldStep(old(Users()), Users(), large, large, r, n);
      }
    }

    /** gvfs_palloc: aligned, from the chain up to the limit and from malloc above it. In a pool whose
        limit is below the 16 bytes of a record, every large allocation ends in NULL. */
    method Palloc(n: int) returns (r: int)
      requires Valid() && n >= 0
      modifies this`chain, this`current, this`regions, this`live, this`large
      ensures Valid() && r >= 0
      ensures r == 0 ==> unchanged(this)
      ensures r != 0 ==> r % 8 == 0
      ensures r != 0 && n <= max ==> large == old(large)
                                     && Took(old(chain), old(current), size, n, true, r, chain, current)
                                     && live == old(live) + Handed(r, n)
      ensures n <= max ==> Granted(malloc, size, old(chain), old(current), old(regions), n, true, r, regions)
      ensures r == 0 <==> Refused(malloc, size, old(State()), n, true)
      ensures r != 0 ==> Allocated(malloc, size, old(State()), n, true, r, State())
      ensures n > max && max < LARGE_RECORD_SIZE ==> r == 0
      ensures r != 0 && n > max ==> r in regions && regions[r] == n && r !in old(regions)
      ensures r != 0 && Whole(size) ==> Held() == old(Held()) + Handed(r, n) && Clear(old(Users()), r, n)
      ensures Extends(old(regions), regions)
    {
      if n <= max {
        r := TakeSmall(n, true);
      } else {
        r := PallocLarge(n);
      }
    }

    /** gvfs_pnalloc: the same without aligning. */
    method Pnalloc(n: int) returns (r: int)
      requires Valid() && n >= 0
      modifies this`chain, this`current, this`regions, this`live, this`large
      ensures Valid() && r >= 0
      ensures r == 0 ==> unchanged(this)
      ensures r != 0 && n <= max ==> large == old(large)
                                     && Took(old(chain), old(current), size, n, false, r, chain, current)
                                     && live == old(live) + Handed(r, n)
      ensures n <= max ==> Granted(malloc, size, old(chain), old(current), old(regions), n, false, r, regions)
      ensures r == 0 <==> Refused(malloc, size, old(State()), n, false)
      ensures r != 0 ==> Allocated(malloc, size, old(State()), n, false, r, State())
      ensures n > max && max < LARGE_RECORD_SIZE ==> r == 0
      ensures r != 0 && n > max ==> r in regions && regions[r] == n && r !in old(regions)
      ensures r != 0 && Whole(size) ==> Held() == old(Held()) + Handed(r, n) && Clear(old(Users()), r, n)
      ensures Extends(old(regions), regions)
    {
      if n <= max {
        r := TakeSmall(n, false);
      } else {
        r := PallocLarge(n);
      }
    }

    /** gvfs_palloc_large: a region of malloc, held by one of the first five records if it is free,
        else by a new one. */
    method PallocLarge(n: int) returns (r: int)
      requires Valid() && n > max
      modifies this`chain, this`current, this`regions, this`live, this`large
      ensures Valid() && r >= 0
      ensures r == 0 ==> unchanged(this)
      ensures r != 0 ==> r % 8 == 0 && r in regions && regions[r] == n && r !in old(regions)
      ensures r != 0 && Whole(size) ==> Held() == old(Held()) + Handed(r, n) && Clear(old(Users()), r, n)
      ensures Extends(old(regions), regions)
      ensures max < LARGE_RECORD_SIZE ==> r == 0
      ensures forall word :: r == 0 <==> Refused(malloc, size, old(State()), n, word)
      ensures forall word :: r != 0 ==> Allocated(malloc, size, old(State()), n, word, r, State())
    {
      LimitIs();
      if max < LARGE_RECORD_SIZE {
        r := PallocTiny(n);
      } else {
        r := PallocRecorded(n);
      }
    }

    method PallocRecorded(n: int) returns (r: int)
      requires Valid() && n > max >= LARGE_RECORD_SIZE
      modifies this`chain, this`current, this`regions, this`live, this`large
      ensures Valid() && r >= 0
      ensures r == 0 ==> unchanged(this)
      ensures r != 0 ==> r % 8 == 0 && r in regions && regions[r] == n && r !in old(regions)
      ensures r != 0 && Whole(size) ==> Held() == old(Held()) + Handed(r, n) && Clear(old(Users()), r, n)
      ensures Extends(old(regions), regions)
      ensures forall word :: r == 0 <==> Refused(malloc, size, old(State()), n, word)
      ensures forall word :: r != 0 ==> Allocated(malloc, size, old(State()), n, word, r, State())
    {
      hide HeapOk, ChainOk, LargesOk, Owned, FailuresOk, Placed, Recorded, Clear, LargeRegions, Whole, Took,
           FreshRegion, Records, RecordsStep;
      r := TakeRegion(n);
      if r == 0 {
        return;
      }
      Underway(old(regions), chain, large, size, r, n);
      GivenBack(old(regions), r, n);
      r := HoldLarge(r, n);
      if Whole(size) && r != 0 {
        RecordsIn(old(large), old(live));
        HeldStep(old(Users()), Users(), old(large), large, r, n);
      }
    }

    /** The same steps where the record of a large allocation is itself a large one: there is no record
        to search, and each turn takes a region more, until malloc gives none. Then all go back. */
    method PallocTiny(n: int) returns (r: int)
      requires HeapOk(regions) && large == [] && 0 <= max < LARGE_RECORD_SIZE && n > max
      modifies this`regions
      ensures r == 0 && regions == old(regions)
      decreases ADDRESSES - |regions|
    {
      var p := TakeRegion(n);
      if p == 0 {
        return 0;
      }
      assert |regions| == |old(regions)| + 1;
      HeapKept(old(regions), p, n);
      RegionsFew(regions);
      var record := PallocTiny(LARGE_RECORD_SIZE);
      assert old(regions)[p := n] - {p} == old(regions);
      regions := regions - {p};
      r := 0;
    }

    /** The region p goes into one of the first five records if it is free, else into a new one. */
    method HoldLarge(p: int, n: int) returns (r: int)
      requires ValidBut(p) && p > 0 && p in regions && regions[p] == n && n > 0 && p % 8 == 0
               && max >= LARGE_RECORD_SIZE
      modifies this`chain, this`current, this`regions, this`live, this`large
      ensures Valid() && (r == 0 || r == p)
      ensures r == 0 ==> chain == old(chain) && current == old(current) && live == old(live) && large == old(large)
                         && regions == old(regions) - {p}
      ensures r != 0 ==> r == p && Users() == old(Users()) + Handed(p, n) + NewRecord(old(large), large)
                         && RecordsStep(old(large), large)
      ensures r != 0 ==> Extends(old(regions), regions)
      ensures r != 0 && Whole(size) ==> Clear(old(Users()), p, n) && NewRecordClear(old(Users()), old(large), large)
      ensures var j := FreeRecord(old(large), 0);
              if j < |old(large)| then
                r == p && State() == old(State()).(large := old(large)[j := old(large)[j].(alloc := p)])
              else
                && (r == 0 <==> NoBlock(malloc, size, old(chain), old(current), old(regions), LARGE_RECORD_SIZE, true))
                && (r != 0 ==> Listed(malloc, size, old(State()), p, State()))
    {
      hide HeapOk, ChainOk, LargesOk, Owned, FailuresOk, Placed, Recorded, Clear, LargeRegions, Whole, RecordsStep;
      var i := 0;
      while i < |large|
        invariant 0 <= i <= |large| && i <= 5 && FreeRecord(large, 0) == FreeRecord(large, i)
      {
        if large[i].alloc == 0 {
          SlotAdded(regions, chain, large, live, size, i, p);
          ghost var was := large;
          large := large[i := large[i].(alloc := p)];
          RecordsStepped(was, large);
          return p;
        }
        if i > 3 {
          break;
        }
        i := i + 1;
      }
      r := Record(p, n);
    }

    /** A record for the region p, or p goes back. */
    method Record(p: int, n: int) returns (r: int)
      requires ValidBut(p) && p > 0 && p in regions && regions[p] == n && n > 0 && p % 8 == 0
               && max >= LARGE_RECORD_SIZE
      modifies this`chain, this`current, this`regions, this`live, this`large
      ensures Valid() && (r == 0 || r == p)
      ensures r == 0 ==> chain == old(chain) && current == old(current) && live == old(live) && large == old(large)
                         && regions == old(regions) - {p}
      ensures r != 0 ==> r == p && Users() == old(Users()) + Handed(p, n) + NewRecord(old(large), large)
                         && RecordsStep(old(large), large)
      ensures r != 0 ==> Extends(old(regions), regions)
      ensures r != 0 && Whole(size) ==> Clear(old(Users()), p, n) && NewRecordClear(old(Users()), old(large), large)
      ensures r == 0 <==> NoBlock(malloc, size, old(chain), old(current), old(regions), LARGE_RECORD_SIZE, true)
      ensures r != 0 ==> Listed(malloc, size, old(State()), p, State())
    {
      hide HeapOk, ChainOk, LargesOk, Owned, FailuresOk, Placed, Recorded, Clear, LargeRegions, Whole, Took;
      var record := Take(LARGE_RECORD_SIZE, true, p);
      if record == 0 {
        Withdrawn(regions, chain, large, size, p);
        regions := regions - {p};
        return 0;
      }
      RecordAdded(regions, chain, large, old(live), size, record, p);
      if Whole(size) {
        ClearOfLess(old(Users()), Users(), p, n);
        SmallClear(regions, chain, large, live, old(live), size, record, LARGE_RECORD_SIZE);
      }
      large := [Large(record, p)] + large;
      RecordsStepped(old(large), large);
      r := p;
    }

    /** gvfs_pcalloc. */
    method Pcalloc(n: int) returns (r: int)
      requires Valid() && n >= 0
      modifies this`chain, this`current, this`regions, this`live, this`large, this`mem
      ensures Valid() && r >= 0
      ensures r == 0 ==> unchanged(this)
      ensures r == 0 <==> Refused(malloc, size, old(State()), n, true)
      ensures r != 0 ==> Allocated(malloc, size, old(State()), n, true, r, State())
      ensures r != 0 ==> r % 8 == 0 && Bytes(mem, r, n) == seq(n, k => 0)
      ensures r != 0 && Whole(size) ==> Held() == old(Held()) + Handed(r, n) && Kept(old(mem), mem, old(Users()))
    {
      hide HeapOk, ChainOk, LargesOk, Owned, FailuresOk, Placed, Recorded, Took, LargeRegions, Records, Refused,
           Allocated,
           Granted, Extends, Kept;
      r := Palloc(n);
      if r != 0 {
        ghost var was := mem;
        mem := Zeroed(mem, r, n);
        if Whole(size) {
          OutsideKept(was, mem, r, n, old(Users()));
        }
      }
    }

    /** The region at the top of the first block changes its size in place. */
    method MoveTop(a: int, n: int, n': int)
      requires Valid() && Whole(size) && a + n == chain[0].last && 0 <= n && 0 <= n' && a + n' <= chain[0].end
               && Handed(a, n) <= Held()
      modifies this`chain, this`live
      ensures Valid() && |old(chain)| > 0 && chain == TopAt(old(chain), a + n')
      ensures Held() == old(Held()) - Handed(a, n) + Handed(a, n')
              && Users() == old(Users()) - Handed(a, n) + Handed(a, n')
      ensures Clear(old(Users()) - Handed(a, n), a, n')
    {
      hide HeapOk, ChainOk, LargesOk, Owned, FailuresOk, Placed, Recorded, LargeRegions, Records, Clear, Whole,
           Handed, TopAt;
      TopInside();
      TopKeeps(regions, chain, large, live, size, current, a, n, n');
      chain := TopAt(chain, a + n');
      live := live - Handed(a, n) + Handed(a, n');
    }

    method Memcpy(to: int, from: int, n: int)
      requires Valid() && n >= 0
      modifies this`mem
      ensures Valid() && mem == Copied(old(mem), to, from, n) && Held() == old(Held()) && Users() == old(Users())
    {
      mem := Copied(mem, to, from, n);
    }

    /** gvfs_pfree: a large allocation goes back; its record stays for the next. NULL is found in
        a free record. */
    method Pfree(p: int) returns (ok: bool)
      requires Valid()
      modifies this`regions, this`large
      ensures Valid() && (ok <==> IsAlloc(old(large), p))
      ensures !ok || p == 0 ==> unchanged(this)
      ensures ok && p != 0 ==> regions == old(regions) - {p} && p in old(regions)
      ensures ok && p != 0 && Whole(size) ==> Users() == old(Users()) - {Region(p, old(regions)[p])}
      ensures Records(large) == old(Records(large))
    {
      hide HeapOk, ChainOk, Owned, FailuresOk, Placed, Recorded, LargeRegions, Records;
      var i := 0;
      while i < |large|
        invariant 0 <= i <= |large| && forall k :: 0 <= k < i ==> large[k].alloc != p
      {
        if large[i].alloc == p {
          if p == 0 {
            assert large[i := large[i].(alloc := 0)] == large;
          } else {
            SlotEmptied(regions, chain, large, live, size, i);
          }
          regions := if p == 0 then regions else regions - {p};
          large := large[i := large[i].(alloc := 0)];
          return true;
        }
        i := i + 1;
      }
      ok := false;
    }

    /** The first loop of resetting and destroying. */
    method FreeLarges() returns (freed: seq<int>)
      requires Shaped(0)
      modifies this`regions, this`large
      ensures Shaped(0) && large == [] && (forall a :: a in regions ==>
                                                         a in old(regions) && regions[a] == old(regions)[a])
      ensures forall a :: a in freed <==> a in old(regions) && a !in regions
      ensures forall i, j :: 0 <= i < j < |freed| ==> freed[i] != freed[j]
    {
      hide HeapOk, ChainOk, FailuresOk, Owned, LargesOk;
      freed := [];
      while large != []
        invariant Shaped(0) && (forall a :: a in regions ==> a in old(regions) && regions[a] == old(regions)[a])
        invariant forall a :: a in freed <==> a in old(regions) && a !in regions
        invariant forall i, j :: 0 <= i < j < |freed| ==> freed[i] != freed[j]
        decreases |large|
      {
        var p := large[0].alloc;
        FirstFreed(regions, chain, large, size);
        if p != 0 {
          freed := freed + [p];
          regions := regions - {p};
        }
        large := large[1..];
      }
    }

    /** gvfs_reset_pool: the blocks stay, all of them empty, with the failures counted so far; the
        search still starts at the current block. */
    method Reset()
      requires Valid()
      modifies this`chain, this`regions, this`live, this`large
      ensures Valid() && Users() == {} && large == [] && chain == Emptied(old(chain))
    {
      var freed := FreeLarges();
      hide HeapOk, ChainOk, FailuresOk, BlockOk, Owned, LargesOk, LargeRegions, Placed, Recorded;
      ghost var was := chain;
      EmptyBlocks();
      live := {};
      EmptiedPlaced(regions, was, size);
    }

    method EmptyBlocks()
      requires Shaped(0) && large == []
      modifies this`chain
      ensures Shaped(0) && chain == Emptied(old(chain))
    {
      hide HeapOk, ChainOk, FailuresOk, Owned, LargesOk;
      var i := 0;
      ghost var was := chain;
      while i < |chain|
        invariant 0 <= i <= |chain| && Shaped(0) && |chain| == |was|
        invariant (forall k :: 0 <= k < i ==> chain[k] == was[k].(last := was[k].base + HEADER))
                  && forall k :: i <= k < |was| ==> chain[k] == was[k]
      {
        LastMoved(regions, chain, large, size, 0, current, i, chain[i].base + HEADER);
        chain := chain[i := chain[i].(last := chain[i].base + HEADER)];
        i := i + 1;
      }
    }

    /** gvfs_destroy_pool: every region goes back, once. */
    method Destroy() returns (freed: seq<int>)
      requires Valid()
      modifies this
      ensures regions == map[] && (forall a :: a in freed <==> a in old(regions))
      ensures forall i, j :: 0 <= i < j < |freed| ==> freed[i] != freed[j]
    {
      freed := FreeLarges();
      OnlyBases(regions, chain, size);
      var blocks := FreeBlocks();
      assert forall i, j :: 0 <= i < |freed| && 0 <= j < |blocks| ==> freed[i] in freed && blocks[j] in blocks;
      freed := freed + blocks;
    }

    method FreeBlocks() returns (freed: seq<int>)
      requires (forall a :: a in regions ==> IsBase(chain, a))
               && forall i :: 0 <= i < |chain| ==> chain[i].base in regions
      requires forall i, j :: 0 <= i < j < |chain| ==> chain[i].base != chain[j].base
      modifies this`regions, this`chain
      ensures regions == map[] && forall a :: a in freed <==> a in old(regions)
      ensures forall i, j :: 0 <= i < j < |freed| ==> freed[i] != freed[j]
    {
      freed := [];
      while chain != []
        invariant (forall a :: a in regions ==> IsBase(chain, a))
                  && forall i :: 0 <= i < |chain| ==> chain[i].base in regions
        invariant forall i, j :: 0 <= i < j < |chain| ==> chain[i].base != chain[j].base
        invariant forall a :: a in freed || a in regions <==> a in old(regions)
        invariant forall a :: a in freed ==> a !in regions
        invariant forall i, j :: 0 <= i < j < |freed| ==> freed[i] != freed[j]
        decreases |chain|
      {
        var p := chain[0].base;
        BaseGone(chain, regions);
        freed := freed + [p];
        regions := regions - {p};
        chain := chain[1..];
      }
      assert forall a :: !IsBase(chain, a);
      assert forall a :: a !in regions;
      assert regions == map[];
    }

    method FailBlocks()
      requires FailuresOk(chain, current)
      modifies this`chain, this`current
      ensures chain == Failed(old(chain), old(current)) && MovesTo(old(chain), old(current), current)
    {
      var p := current;
      while p < |chain| - 1
        invariant old(current) <= p <= |chain| - 1 && chain == FailedTo(old(chain), old(current), p)
                  && old(current) <= current <= p
        invariant forall k :: old(current) <= k < current ==> old(chain)[k].failed > 4
        invariant forall k :: current <= k < p ==> old(chain)[k].failed <= 4
      {
        var failed := chain[p].failed;
        chain := chain[p := chain[p].(failed := failed + 1)];
        if failed > 4 {
          current := p + 1;
        }
        p := p + 1;
      }
    }
  }

  /** gvfs_create_pool. */
  method CreatePool(size: int, malloc: (map<int, int>, int) -> int) returns (p: Pool?)
    requires size >= HEADER
    ensures p == null <==> Answer(malloc, map[], size) == 0
    ensures p != null ==>
              && fresh(p) && p.Valid() && p.size == size && p.malloc == malloc && p.max == Limit(size)
              && p.Users() == {} && p.large == [] && p.current == 0 && FirstChain(p.chain, size)
              && |p.chain| == 1 && p.chain[0].base == Answer(malloc, map[], size)
              && p.regions == map[p.chain[0].base := size]
  {
    var base := Answer(malloc, map[], size);
    if base == 0 {
      return null;
    }
    EndWhole(base, HEADER);
    p := new Pool(size, malloc);
  }

  /** One empty block. */
  ghost predicate FirstChain(chain: seq<Block>, size: int)
  {
    && |chain| == 1 && chain == [Block(chain[0].base, chain[0].base + HEADER, chain[0].base + size, 0)]
    && chain[0].base > 0 && chain[0].base % 16 == 0 && chain[0].last % 8 == 0 && chain[0].end < ADDRESSES
  }

  lemma EndNotWhole(base: int, size: int)
    requires base % 16 == 0 && !Whole(size)
    ensures Align8(base + size) > base + size
  {
    var k := 2 * (base / 16) + size / 8;
    assert base + size == 8 * k + size % 8;
    assert (base + size) / 8 == k;
  }

  /** In every pool whose size is not of whole words some allocation lies behind the block: when the
      block is full, the aligned top is past its end, and the difference wraps. */
  method Overrun(size: int, malloc: (map<int, int>, int) -> int) returns (p: Pool, r: int)
    requires size > HEADER && !Whole(size) && Answer(malloc, map[], size) != 0
    ensures p.Valid() && p.size == size && |p.chain| == 1 && p.large == []
    ensures r > p.chain[0].base + size == p.chain[0].end && Region(r, 1) in p.live
  {
    var q := CreatePool(size, malloc);
    p := q;
    ghost var b := p.chain[0];
    EndNotWhole(b.base, size);
    hide Room, Whole, Align8;
    while p.chain[0].last < p.chain[0].end
      invariant fresh(p) && p.Valid() && p.size == size && p.current == 0 && p.max > 0 && p.large == []
                && |p.chain| == 1 && 0 < b.base <= p.chain[0].last
      invariant p.chain[0] == b.(last := p.chain[0].last)
                && p.chain[0].last <= p.chain[0].end == b.base + size < ADDRESSES
      decreases p.chain[0].end - p.chain[0].last
    {
      var left := p.chain[0].end - p.chain[0].last;
      var n := if left < p.max then left else p.max;
      RoomExact(p.chain[0], false);
      var m := p.Pnalloc(n);
    }
    RoomWraps(p.chain[0]);
    r := p.Palloc(1);
  }

  /** After a reset every block has room for whatever the chain may be asked for, but the search
      starts at the current block and ends there. */
  lemma ResetStarts(regions: map<int, int>, chain: seq<Block>, size: int, current: int, n: int, word: bool)
    requires HeapOk(regions) && ChainOk(regions, Emptied(chain), size) && Whole(size) && 0 <= current < |chain|
             && 0 <= n <= size - HEADER
    ensures FirstFit(Emptied(chain), current, n, word) == current
    ensures forall k :: 0 <= k < |chain| ==> Room(Emptied(chain)[k], word) >= n
  {
    forall k | 0 <= k < |chain|
      ensures Room(Emptied(chain)[k], word) >= n
    {
      assert BlockOk(regions, Emptied(chain), size, k);
      EmptyRoom(Emptied(chain)[k], size, word);
    }
    hide Room, HeapOk, ChainOk;
  }

  lemma EmptyStart(regions: map<int, int>, chain: seq<Block>, size: int, j: int)
    requires HeapOk(regions) && ChainOk(regions, Emptied(chain), size) && 0 <= j < |chain|
    ensures StartAt(Emptied(chain)[j].last, true) == chain[j].base + HEADER
  {
    assert BlockOk(regions, Emptied(chain), size, j);
    EndWhole(chain[j].base, HEADER);
    AlignedStays(chain[j].base + HEADER);
  }

  /** From one state of chain and search start to the next: an allocation, or a reset. */
  ghost predicate Moves(size: int, chain: seq<Block>, current: int, chain': seq<Block>, current': int)
  {
    && 0 <= current < |chain|
    && ((chain' == Emptied(chain) && current' == current)
        || exists n, word, r :: Took(chain, current, size, n, word, r, chain', current'))
  }

  lemma BeforeKept(size: int, chain: seq<Block>, current: int, chain': seq<Block>, current': int, k: int)
    requires Moves(size, chain, current, chain', current') && 0 <= k < current
    ensures current <= current' && |chain| <= |chain'|
    ensures chain'[k] == chain[k] || chain'[k] == Emptied(chain)[k]
  {
    if !(chain' == Emptied(chain) && current' == current) {
      var n, word, r :| Took(chain, current, size, n, word, r, chain', current');
      assert FirstFit(chain, current, n, word) >= current;
    }
  }

  /** A block that the search has passed, once empty, stays empty in every run of allocations and resets. */
  lemma {:induction false} PassedOver(size: int, chains: seq<seq<Block>>, currents: seq<int>, k: int)
    requires |chains| == |currents| > 0
    requires forall i :: 0 <= i < |chains| - 1 ==> Moves(size, chains[i], currents[i], chains[i + 1], currents[i + 1])
    requires 0 <= k < currents[0] && k < |chains[0]| && chains[0][k].last == chains[0][k].base + HEADER
    ensures forall i :: 0 <= i < |chains| ==> k < currents[i] && k < |chains[i]| && chains[i][k] == chains[0][k]
    decreases |chains|
  {
    if |chains| > 1 {
      assert Moves(size, chains[0], currents[0], chains[1], currents[1]);
      BeforeKept(size, chains[0], currents[0], chains[1], currents[1], k);
      forall i | 0 <= i < |chains[1..]| - 1
        ensures Moves(size, chains[1..][i], currents[1..][i], chains[1..][i + 1], currents[1..][i + 1])
      {
        assert Moves(size, chains[i + 1], currents[i + 1], chains[i + 2], currents[i + 2]);
      }
      PassedOver(size, chains[1..], currents[1..], k);
      assert forall i :: 0 < i < |chains| ==> chains[i] == chains[1..][i - 1] && currents[i] == currents[1..][i - 1];
    }
  }

  lemma EmptyRoom(b: Block, size: int, word: bool)
    requires 0 < b.base && b.base % 16 == 0 && Whole(size) && HEADER <= size && b.end == b.base + size < ADDRESSES
             && b.last == b.base + HEADER
    ensures Room(b, word) == size - HEADER
  {
    EndWhole(b.base, size);
    EndWhole(b.base, HEADER);
    RoomExact(b, word);
    AlignedStays(b.last);
    hide Room, Align8;
  }

  /** Eight blocks, each full after one allocation: the first has failed six times. */
  ghost predicate Crowded(chain: seq<Block>)
  {
    forall j :: 0 <= j < |chain| ==>
      && Room(chain[j], true) < 32
      && chain[j].failed == if j < |chain| - 2 then |chain| - 2 - j else 0
  }

  lemma OneMore(chain: seq<Block>, current': int, chain': seq<Block>, r: int)
    requires 0 < |chain| <= 7 && Crowded(chain) && Took(chain, 0, 88, 32, true, r, chain', current')
    requires r % 8 == 0
    ensures |chain'| == |chain| + 1 && Crowded(chain') && current' >= 0 && (current' > 0 <==> |chain| == 7)
  {
    var b := Block(r - BLOCK_HEADER, r + 32, r - BLOCK_HEADER + 88, 0);
    RoomExact(b, true);
    assert chain' == Failed(chain, 0) + [b];
  }

  /** Blocks of 88 bytes one above the other, 96 apart. */
  ghost predicate Stacked(regions: map<int, int>)
  {
    forall a :: a in regions ==> regions[a] == 88 && a + 96 <= Above(regions)
  }

  function Above(regions: map<int, int>): int
  {
    16 + 96 * |regions|
  }

  lemma StackGrows(regions: map<int, int>)
    requires Stacked(regions) && |regions| <= 8
    ensures FreshRegion(regions, Above(regions), 88) && Stacked(regions[Above(regions) := 88])
    ensures |regions[Above(regions) := 88]| == |regions| + 1
  {
  }

  /** The eighth block is the first to follow one that has failed six times. */
  method Crowd() returns (p: Pool)
    ensures fresh(p) && p.Valid() && p.size == 88 && p.max == 32 && 0 < p.current < |p.chain| == 8
  {
    hide Pool.Valid, Pool.ValidBut, Pool.Shaped, Pool.Users, Pool.Held, Room, Stacked, FreshRegion, StartAt;
    p := CrowdFirst();
    var i := 1;
    while i < 8
      invariant fresh(p) && Crowding(p, i) && p.Valid() && 1 <= i <= 8
    {
      CrowdMore(p, i);
      i := i + 1;
    }
    p.InChain();
  }

  ghost predicate Crowding(p: Pool, i: int)
    reads p
  {
    && p.size == 88 && p.max == 32 && p.malloc == Stack() && |p.chain| == i && Crowded(p.chain)
    && 0 <= p.current && (p.current > 0 <==> i == 8) && Stacked(p.regions) && |p.regions| == i
  }

  function Stack(): (map<int, int>, int) -> int
  {
    (m: map<int, int>, n: int) => Above(m)
  }

  /** Here malloc always gives the next block. */
  lemma StackAnswers(regions: map<int, int>)
    requires Stacked(regions) && |regions| <= 8
    ensures Answer(Stack(), regions, 88) == Above(regions) > 0
  {
    StackGrows(regions);
  }

  method CrowdFirst() returns (p: Pool)
    ensures fresh(p) && p.Valid() && Crowding(p, 1)
  {
    hide Pool.Valid, Pool.ValidBut, Pool.Shaped, Pool.Users, Pool.Held, Stacked, Answer, Took, Stack, FirstChain;
    StackGrows(map[]);
    StackAnswers(map[]);
    var q := CreatePool(88, Stack());
    p := q;
    ghost var chain := p.chain;
    FirstFills(chain);
    StackFirst(p.regions, chain[0].base);
    var r := p.Palloc(32);
    FirstFilled(chain, r, p.chain, p.current);
  }

  lemma StackFirst(regions: map<int, int>, base: int)
    requires regions == map[base := 88] && base == Above(map[])
    ensures Stacked(regions) && |regions| == 1
  {
  }

  lemma FirstFilled(chain: seq<Block>, r: int, chain': seq<Block>, current': int)
    requires FirstChain(chain, 88) && Took(chain, 0, 88, 32, true, r, chain', current')
    ensures |chain'| == 1 && Crowded(chain') && current' == 0
  {
    FirstFills(chain);
  }

  method CrowdMore(p: Pool, i: int)
    requires p.Valid() && 1 <= i < 8 && Crowding(p, i)
    modifies p
    ensures p.Valid() && Crowding(p, i + 1)
  {
    hide Pool.Valid, Pool.ValidBut, Pool.Shaped, Pool.Users, Pool.Held, Room, Stacked, FreshRegion, StartAt, Answer,
         Took, Stack;
    ghost var chain, regions := p.chain, p.regions;
    StackGrows(regions);
    StackAnswers(regions);
    NoneFits(chain);
    var r := p.Palloc(32);
    OneMore(chain, p.current, p.chain, r);
  }

  lemma NoneFits(chain: seq<Block>)
    requires Crowded(chain) && |chain| > 0
    ensures FirstFit(chain, 0, 32, true) == |chain|
  {
    hide Room;
  }

  /** A pool that loses its first block: after a reset it is empty and has room, but the next allocation
      passes it over and takes the current block. */
  method FirstBlockLost() returns (p: Pool, r: int, ghost full: seq<Block>)
    ensures p.Valid() && |full| == 8 && 0 < p.current < 8 && Room(Emptied(full)[0], true) >= 32
    ensures r == full[p.current].base + HEADER
    ensures p.chain == Emptied(full)[p.current := Emptied(full)[p.current].(last := r + 32)]
  {
    hide Pool.Users, Pool.Held, Room, FirstFit, StartAt, Emptied;
    p := Crowd();
    full := p.chain;
    p.Reset();
    assert HeapOk(p.regions) && ChainOk(p.regions, Emptied(full), 88) && Whole(88);
    hide Pool.Valid;
    ResetStarts(p.regions, full, 88, p.current, 32, true);
    EmptyStart(p.regions, full, 88, p.current);
    r := p.Palloc(32);
  }

  lemma FirstFills(chain: seq<Block>)
    requires FirstChain(chain, 88)
    ensures FirstFit(chain, 0, 32, true) == 0 && |chain| == 1
    ensures var b := chain[0]; StartAt(b.last, true) == b.last && Room(b.(last := b.last + 32), true) < 32
  {
    var b := chain[0];
    EndWhole(b.base, HEADER);
    EndWhole(b.base, 88);
    RoomExact(b, true);
    RoomExact(b.(last := b.last + 32), true);
    AlignedStays(b.last);
    hide Room, Align8;
  }

  lemma AlignedStays(p: int)
    requires p % 8 == 0
    ensures Align8(p) == p
  {
  }
}
