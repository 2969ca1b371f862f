/** The proxy's growing array: elements in a pool, extended in place at the pool's top, else moved. */
module GrowArray {
  import opened Alignment
  import opened BumpPool

  const ARRAY_RECORD: int := 40

  function Extent(size: nat, n: nat): nat
  {
    size * n
  }

  lemma ExtentFacts(size: nat, n: nat, m: nat)
    ensures Extent(size, n + m) == Extent(size, n) + Extent(size, m) && Extent(size, 1) == size && Extent(size, 0) == 0
  {
  }

  /** How much room gvfs_array_push_n asks for. */
  function Doubled(n: nat, nalloc: nat): nat
  {
    2 * if n >= nalloc then n else nalloc
  }

  lemma ExtentMonotone(size: nat, n: nat, m: nat)
    requires n <= m
    ensures Extent(size, n) <= Extent(size, m)
  {
    ExtentFacts(size, n, m - n);
  }

  class GrowArray {
    const pool: Pool
    const self: int
    const size: nat
    var elts: int
    var nelts: nat
    var nalloc: nat

    /** The array's storage and its own record are held, and are not the same. */
    ghost predicate Valid()
      reads this, pool
    {
      && pool.Valid() && Whole(pool.size)
      && Stored(pool.Held(), self, elts, Extent(size, nalloc))
    }

    /** All elements are in the storage. */
    predicate Fits()
      reads this
    {
      nelts <= nalloc
    }

    /** The storage ends at the top of the first block, and the block has `extra` bytes more. */
    predicate AtTop(extra: int)
      reads this, pool
    {
      |pool.chain| > 0 && elts + Extent(size, nalloc) == pool.chain[0].last
          && pool.chain[0].last + extra <= pool.chain[0].end
    }

    function Elements(n: nat): seq<int>
      reads this, pool
    {
      Bytes(pool.mem, elts, Extent(size, n))
    }

    constructor (pool: Pool, self: int, elts: int, n: nat, size: nat)
      ensures this.pool == pool && this.self == self && this.size == size && this.elts == elts && nelts == 0
              && nalloc == n
    {
      this.pool, this.self, this.size, this.elts, nelts, nalloc := pool, self, size, elts, 0, n;
    }

    /** gvfs_array_push: the elements so far are kept, and so is every other region. The new one is
        in the storage unless the array had no room at all and could not grow in place: twice 0 is 0.
        After that the array never looks full again, and every further element is outside as well. */
    method Push() returns (elt: int)
      requires Valid()
      modifies this`elts, this`nelts, this`nalloc, pool
      ensures Valid() && Kept(old(pool.mem), pool.mem, old(pool.Users()))
      ensures elt == 0 <==> old(nelts) == old(nalloc) && !old(AtTop(size))
                            && old(pool.Refuses(Extent(size, 2 * nalloc)))
      ensures elt == 0 ==> unchanged(this) && unchanged(pool) && nalloc > 0
      ensures elt != 0 ==> nalloc == if old(nelts) != old(nalloc) then old(nalloc)
                                     else if old(AtTop(size)) then old(nalloc) + 1 else 2 * old(nalloc)
      ensures elt != 0 ==>
                && nelts == old(nelts) + 1 && elt == elts + Extent(size, old(nelts))
                   && Elements(old(nelts)) == old(Elements(nelts))
                && (Fits() <==> old(Fits()) && (old(nalloc) > 0 || old(AtTop(size))))
      ensures old(nelts) != old(nalloc) ==> elt != 0 && unchanged(pool) && nalloc == old(nalloc)
      ensures old(nelts) == old(nalloc) && old(AtTop(size)) ==>
                elt != 0 && elts == old(elts) && pool.Held() == old(pool.Held()) - old(Storage()) + Storage()
      ensures old(nelts) == old(nalloc) && !old(AtTop(size)) && elt != 0 ==> pool.Held() == old(pool.Held()) + Storage()
    {
      hide Pool.Valid, Pool.ValidBut, Pool.Shaped, Pool.Users, Pool.Held, Whole, Handed, Kept, Bytes, Extent;
      if nelts == nalloc {
        var ok := Grow();
        if !ok {
          return 0;
        }
      } else {
        KeptSame(pool.mem, pool.Users());
      }
      elt := elts + Extent(size, nelts);
      nelts := nelts + 1;
    }

    /** gvfs_array_push_n: never short of room, because the new storage is sized by n as well. Elements
        already outside the storage may not fit into the new one either, and are then copied past it. */
    method PushN(n: nat) returns (elt: int)
      requires Valid() && Extent(size, n) < ADDRESSES
      modifies this`elts, this`nelts, this`nalloc, pool
      ensures Valid() && (old(Fits()) ==> Fits())
      ensures old(Fits()) || old(nelts) <= nalloc ==> Kept(old(pool.mem), pool.mem, old(pool.Users()))
      ensures elt == 0 <==> old(nelts) + n > old(nalloc) && !old(AtTop(Extent(size, n)))
                            && old(pool.Refuses(Extent(size, Doubled(n, nalloc))))
      ensures elt == 0 ==> unchanged(this) && unchanged(pool)
      ensures elt != 0 ==>
                && nelts == old(nelts) + n && elt == elts + Extent(size, old(nelts))
                   && Elements(old(nelts)) == old(Elements(nelts))
      ensures old(nelts) + n <= old(nalloc) ==> elt != 0 && unchanged(pool)
      ensures old(nelts) + n > old(nalloc) && elt != 0 ==>
                nalloc == if old(AtTop(Extent(size, n))) then old(nalloc) + n else Doubled(n, old(nalloc))
      ensures old(nelts) + n > old(nalloc) && old(AtTop(Extent(size, n))) ==>
                elt != 0 && elts == old(elts) && pool.Held() == old(pool.Held()) - old(Storage()) + Storage()
      ensures old(nelts) + n > old(nalloc) && !old(AtTop(Extent(size, n))) && elt != 0 ==>
                pool.Held() == old(pool.Held()) + Storage()
    {
      hide Pool.Valid, Pool.ValidBut, Pool.Shaped, Pool.Users, Pool.Held, Whole, Handed, Kept, Bytes, Extent;
      if nelts + n > nalloc {
        var ok := GrowBy(n);
        if !ok {
          return 0;
        }
      } else {
        KeptSame(pool.mem, pool.Users());
      }
      elt := elts + Extent(size, nelts);
      nelts := nelts + n;
    }

    method GrowBy(n: nat) returns (ok: bool)
      requires Valid() && nelts + n > nalloc && Extent(size, n) < ADDRESSES
      modifies this`elts, this`nalloc, pool
      ensures Valid() && (nelts <= nalloc || !ok || old(AtTop(Extent(size, n))) ==>
                            Kept(old(pool.mem), pool.mem, old(pool.Users())))
      ensures !ok <==> !old(AtTop(Extent(size, n))) && old(pool.Refuses(Extent(size, Doubled(n, nalloc))))
      ensures !ok ==> unchanged(this) && unchanged(pool)
      ensures ok ==> Elements(nelts) == old(Elements(nelts))
                     && nalloc == if old(AtTop(Extent(size, n))) then old(nalloc) + n else Doubled(n, old(nalloc))
      ensures old(AtTop(Extent(size, n))) ==> ok && elts == old(elts)
                                              && pool.Held() == old(pool.Held()) - old(Storage()) + Storage()
      ensures !old(AtTop(Extent(size, n))) && ok ==> pool.Held() == old(pool.Held()) + Storage()
    {
      hide Pool.Valid, Pool.ValidBut, Pool.Shaped, Pool.Users, Pool.Held, Whole, Handed, Kept, Bytes, Extent, Stored,
           Valid;
      Bounds();
      if elts + Extent(size, nalloc) == pool.chain[0].last
          && pool.chain[0].last + Extent(size, n) <= pool.chain[0].end {
        KeptSame(pool.mem, pool.Users());
        Extend(n);
        ok := true;
      } else {
        var more := if n >= nalloc then n else nalloc;
        ExtentFacts(size, more, more);
        ok := Move(2 * more);
      }
    }

    /** gvfs_array_destroy: what lies at the top of the first block goes back to the pool. */
    method Destroy()
      requires Valid()
      modifies pool`chain, pool`live
      ensures pool.Valid() && |old(pool.chain)| > 0
      ensures var chain, n := old(pool.chain), Extent(size, nalloc);
              var chain1 := Released(chain, elts, n);
              && pool.chain == Released(chain1, self, ARRAY_RECORD)
              && pool.Held() == HeldAfter(HeldAfter(old(pool.Held()), chain, elts, n), chain1, self, ARRAY_RECORD)
    {
      pool.TopInside();
      SelfStays(pool.Held(), self, elts, Extent(size, nalloc));
      hide Pool.Valid, Pool.Held, Pool.Users, Whole, Extent, Handed, Stored, Released;
      ReleaseTop(pool, elts, Extent(size, nalloc));
      ReleaseTop(pool, self, ARRAY_RECORD);
    }

    lemma Bounds()
      requires Valid()
      ensures |pool.chain| > 0 && elts > 0 && Extent(size, nalloc) < ADDRESSES
    {
      pool.TopInside();
    }

    /** More room for a full array. */
    method Grow() returns (ok: bool)
      requires Valid() && nelts == nalloc
      modifies this`elts, this`nalloc, pool
      ensures Valid() && Kept(old(pool.mem), pool.mem, old(pool.Users()))
      ensures !ok <==> !old(AtTop(size)) && old(pool.Refuses(Extent(size, 2 * nalloc)))
      ensures !ok ==> unchanged(this) && unchanged(pool) && nalloc > 0
      ensures ok ==> Elements(nelts) == old(Elements(nelts))
                     && nalloc == if old(AtTop(size)) then old(nalloc) + 1 else 2 * old(nalloc)
      ensures old(AtTop(size)) ==> ok && elts == old(elts)
                                   && pool.Held() == old(pool.Held()) - old(Storage()) + Storage()
      ensures !old(AtTop(size)) && ok ==> pool.Held() == old(pool.Held()) + Storage()
    {
      hide Pool.Valid, Pool.ValidBut, Pool.Shaped, Pool.Users, Pool.Held, Whole, Handed, Kept, Bytes, Extent, Stored,
           Valid;
      Bounds();
      ExtentFacts(size, nalloc, 1);
      ExtentFacts(size, nalloc, nalloc);
      if elts + Extent(size, nalloc) == pool.chain[0].last && pool.chain[0].last + size <= pool.chain[0].end {
        KeptSame(pool.mem, pool.Users());
        Extend(1);
        ok := true;
      } else {
        ok := Move(2 * nalloc);
      }
    }

    /** In place, by n elements. */
    method Extend(n: nat)
      requires Valid() && AtTop(Extent(size, n))
      modifies this`nalloc, pool`chain, pool`live
      ensures Valid() && nalloc == old(nalloc) + n
      ensures pool.Held() == old(pool.Held()) - old(Storage()) + Storage()
    {
      hide Pool.Valid, Whole, Extent, LargeRegions, Records;
      ExtentFacts(size, nalloc, n);
      ghost var b, held, users := Extent(size, nalloc), pool.Held(), pool.Users();
      pool.MoveTop(elts, Extent(size, nalloc), Extent(size, nalloc) + Extent(size, n));
      nalloc := nalloc + n;
      pool.Bounded(elts, Extent(size, nalloc));
      StillStored(held, users, self, elts, b, Extent(size, nalloc), pool.Held());
    }

    /** To a new place, with room for m elements. */
    method Move(m: nat) returns (ok: bool)
      requires Valid() && Extent(size, m) < SIZES
      modifies this`elts, this`nalloc, pool
      ensures Valid() && (nelts <= m || !ok ==> Kept(old(pool.mem), pool.mem, old(pool.Users())))
      ensures !ok <==> old(pool.Refuses(Extent(size, m)))
      ensures !ok ==> unchanged(this) && unchanged(pool) && Extent(size, m) > 0
      ensures ok ==> nalloc == m && Elements(nelts) == old(Elements(nelts))
                     && pool.Held() == old(pool.Held()) + Storage()
    {
      hide Pool.Valid, Pool.ValidBut, Pool.Shaped, Pool.State, Pool.Users, Pool.Held, Whole, Extent, Kept,
           Bytes, Clear, Took, Handed, FirstFit, Refused, Allocated, Granted, Stored;
      ghost var mem, held, users := pool.mem, pool.Held(), pool.Users();
      pool.NothingRefused();
      var n := pool.Palloc(Extent(size, m));
      if n == 0 {
        KeptSame(mem, users);
        return false;
      }
      Arrive(n, m, held, users);
      ok := true;
    }

    /** The elements are copied to the new storage. */
    method Arrive(n: int, m: nat, ghost held: set<Region>, ghost users: set<Region>)
      requires pool.Valid() && Whole(pool.size) && n > 0
      requires Stored(held, self, elts, Extent(size, nalloc)) && pool.Held() == held + Handed(n, Extent(size, m))
               && held <= users
      requires Clear(users, n, Extent(size, m))
      modifies this`elts, this`nalloc, pool`mem
      ensures Valid() && (nelts <= m ==> Kept(old(pool.mem), pool.mem, users)) && pool.Held() == old(pool.Held())
      ensures nalloc == m && elts == n && Elements(nelts) == old(Elements(nelts))
    {
      hide Pool.Valid, Whole, Extent, LargeRegions, Records, Kept, Bytes, Copied, Clear, Handed, Stored;
      ghost var mem := pool.mem;
      pool.Bounded(n, Extent(size, m));
      NewlyStored(held, users, self, elts, Extent(size, nalloc), n, Extent(size, m), pool.Held());
      CopyThere(mem, n, elts, Extent(size, nelts));
      if nelts <= m {
        ExtentMonotone(size, nelts, m);
        CopiedKept(mem, n, elts, Extent(size, nelts), Extent(size, m), users);
      }
      pool.Memcpy(n, elts, Extent(size, nelts));
      elts, nalloc := n, m;
    }

    ghost function Storage(): set<Region>
      reads this
    {
      Handed(elts, Extent(size, nalloc))
    }
  }

  ghost predicate Stored(held: set<Region>, self: int, elts: int, n: int)
  {
    && Region(self, ARRAY_RECORD) in held && Handed(elts, n) <= held && 0 < elts && 0 <= n < ADDRESSES
    && (n > 0 ==> Apart(Region(self, ARRAY_RECORD), Region(elts, n)))
  }

  /** After growth in place. */
  lemma StillStored(held: set<Region>, users: set<Region>, self: int, elts: int, n: int, n': int, held': set<Region>)
    requires Stored(held, self, elts, n) && held <= users && held' == held - Handed(elts, n) + Handed(elts, n')
    requires Clear(users - Handed(elts, n), elts, n') && 0 <= n' && (n' > 0 ==> elts + n' < ADDRESSES)
    ensures Stored(held', self, elts, n')
  {
  }

  lemma SelfStays(held: set<Region>, self: int, elts: int, n: int)
    requires Stored(held, self, elts, n)
    ensures Handed(elts, n) <= held && Handed(self, ARRAY_RECORD) <= held - Handed(elts, n) && n >= 0
  {
  }

  lemma KeptSame(mem: Memory, users: set<Region>)
    ensures Kept(mem, mem, users)
  {
  }

  /** After moving. */
  lemma NewlyStored(held: set<Region>, users: set<Region>, self: int, elts: int, n: int, elts': int, n': int,
                    held': set<Region>)
    requires Stored(held, self, elts, n) && held <= users && held' == held + Handed(elts', n') && 0 < elts'
    requires Clear(users, elts', n') && 0 <= n' && (n' > 0 ==> elts' + n' < ADDRESSES)
    ensures Stored(held', self, elts', n')
  {
  }

  /** The copy is there, and all that was held is untouched. */
  lemma CopiedKept(mem: Memory, to: int, from: int, n: nat, total: nat, users: set<Region>)
    requires Clear(users, to, total) && n <= total
    ensures Kept(mem, Copied(mem, to, from, n), users)
  {
    assert SameOutside(mem, Copied(mem, to, from, n), to, total);
    hide Copied, Bytes;
    OutsideKept(mem, Copied(mem, to, from, n), to, total, users);
  }

  ghost function Released(chain: seq<Block>, a: int, n: int): (r: seq<Block>)
    requires |chain| > 0
    ensures |r| == |chain|
  {
    if a + n == chain[0].last then TopAt(chain, a) else chain
  }

  ghost function HeldAfter(held: set<Region>, chain: seq<Block>, a: int, n: int): set<Region>
    requires |chain| > 0
  {
    if a + n == chain[0].last then held - Handed(a, n) else held
  }

  lemma NothingHanded(a: int)
    ensures Handed(a, 0) == {}
  {
  }

  /** The n bytes at a go back if they are at the top of the first block. */
  method ReleaseTop(p: Pool, a: int, n: int)
    requires p.Valid() && Whole(p.size) && n >= 0 && Handed(a, n) <= p.Held() && |p.chain| > 0
    modifies p`chain, p`live
    ensures p.Valid() && p.chain == Released(old(p.chain), a, n)
            && p.Held() == HeldAfter(old(p.Held()), old(p.chain), a, n)
  {
    hide Pool.Valid, Pool.ValidBut, Pool.Shaped, Pool.Held, Pool.Users, Whole, Clear, Handed, TopAt;
    p.TopInside();
    NothingHanded(a);
    if a + n == p.chain[0].last {
      p.MoveTop(a, n, 0);
    }
  }

  /** gvfs_array_create: the product of the sizes is one of 64 bits. It is NULL exactly if the pool refuses the
      record or, in the state between, the storage. */
  method CreateArray(p: Pool, n: nat, size: nat) returns (a: GrowArray?, ghost first: int, ghost between: PoolState)
    requires p.Valid() && Whole(p.size)
    modifies p
    ensures p.Valid() && p.mem == old(p.mem)
    ensures old(p.Refuses(ARRAY_RECORD)) ==> a == null
    ensures !old(p.Refuses(ARRAY_RECORD)) ==>
              && Allocated(p.malloc, p.size, old(p.State()), ARRAY_RECORD, true, first, between)
              && (a == null <==> Refused(p.malloc, p.size, between, Extent(size, n) % SIZES, true))
    ensures a != null ==>
              && fresh(a) && a.pool == p && a.size == size && a.nalloc == n && a.nelts == 0 && a.self == first
              && (a.Valid() <==> Extent(size, n) < SIZES)
              && Allocated(p.malloc, p.size, between, Extent(size, n) % SIZES, true, a.elts, p.State())
    ensures a != null && Extent(size, n) < SIZES ==>
              && p.Held() == old(p.Held()) + Handed(a.self, ARRAY_RECORD) + a.Storage()
              && old(p.Held()) !! Handed(a.self, ARRAY_RECORD) && old(p.Held()) !! a.Storage()
  {
    hide Pool.Valid, Pool.ValidBut, Pool.Shaped, Pool.Users, Pool.Held, Whole, Clear, Took, Extent, Refused, Allocated,
         Granted, Pool.State, FirstFit, Extends;
    ghost var held0, users0 := p.Held(), p.Users();
    first, between := 0, p.State();
    var self := p.Palloc(ARRAY_RECORD);
    if self == 0 {
      a := null;
      return;
    }
    first, between := self, p.State();
    NotHeld(users0, self, ARRAY_RECORD);
    ghost var held, users := p.Held(), p.Users();
    var bytes := Extent(size, n) % SIZES;
    var elts := p.Palloc(bytes);
    if elts == 0 {
      a := null;
      return;
    }
    p.Bounded(elts, bytes);
    NotHeld(users, elts, bytes);
    if Extent(size, n) < SIZES {
      FirstStored(held, users, self, elts, Extent(size, n), p.Held());
    }
    a := new GrowArray(p, self, elts, n, size);
  }

  lemma NotHeld(users: set<Region>, a: int, n: int)
    requires Clear(users, a, n)
    ensures users !! Handed(a, n)
  {
  }

  lemma FirstStored(held: set<Region>, users: set<Region>, self: int, elts: int, n: int, held': set<Region>)
    requires Region(self, ARRAY_RECORD) in held && held <= users && held' == held + Handed(elts, n) && 0 < elts
    requires Clear(users, elts, n) && 0 <= n && (n > 0 ==> elts + n < ADDRESSES)
    ensures Stored(held', self, elts, n)
  {
  }

  /** The first block gives what fits behind its top, at once if the top is on a word. */
  lemma TopTaken(chain: seq<Block>, size: int, n: int, r: int, chain': seq<Block>, current': int)
    requires |chain| > 0 && chain[0].last % 8 == 0 && n >= 0
             && chain[0].last + n <= chain[0].end < chain[0].last + SIZES
    requires Took(chain, 0, size, n, true, r, chain', current')
    ensures r == chain[0].last && chain' == TopAt(chain, r + n) && current' == 0
  {
    hide Room, StartAt, FirstFit;
    TopFits(chain, n);
    TopShows(chain[0]);
  }

  /** A top on a word stays where it is, and the block shows what is behind it. */
  lemma TopShows(b: Block)
    requires b.last % 8 == 0 && b.last <= b.end < b.last + SIZES
    ensures StartAt(b.last, true) == b.last && Room(b, true) == b.end - b.last
  {
    AlignedStays(b.last);
    hide Align8;
  }

  lemma TopFits(chain: seq<Block>, n: int)
    requires |chain| > 0 && chain[0].last % 8 == 0 && n >= 0
             && chain[0].last + n <= chain[0].end < chain[0].last + SIZES
    ensures FirstFit(chain, 0, n, true) == 0
  {
    hide Room, StartAt;
    TopShows(chain[0]);
  }

  /** A new array whose parts fit behind the top of the first block is never NULL. */
  lemma BothFit(malloc: (map<int, int>, int) -> int, size: int, s: PoolState, n: int, first: int, between: PoolState)
    requires |s.chain| > 0 && s.current == 0 && s.chain[0].last % 8 == 0 && n >= 0 && ARRAY_RECORD <= Limit(size)
             && s.chain[0].last + ARRAY_RECORD + n <= s.chain[0].end < s.chain[0].last + SIZES && n <= Limit(size)
    ensures !Refused(malloc, size, s, ARRAY_RECORD, true)
    ensures Allocated(malloc, size, s, ARRAY_RECORD, true, first, between) ==>
              !Refused(malloc, size, between, n, true) && |between.chain| > 0 && between.current == 0
  {
    TopFits(s.chain, ARRAY_RECORD);
    hide FirstFit, Took, Granted;
    if Allocated(malloc, size, s, ARRAY_RECORD, true, first, between) {
      TopTaken(s.chain, size, ARRAY_RECORD, first, between.chain, between.current);
      assert (s.chain[0].last + ARRAY_RECORD) % 8 == 0;
      TopFits(between.chain, n);
    }
  }

  /** Both parts of a new array behind the top of the first block, and back. */
  lemma FitsTwice(chain: seq<Block>, held: set<Region>, size: int, n: int, self: int, chain1: seq<Block>, current1: int,
                  elts: int, chain2: seq<Block>, current2: int)
    requires |chain| > 0 && chain[0].last % 8 == 0 && n >= 0
             && chain[0].last + ARRAY_RECORD + n <= chain[0].end < chain[0].last + SIZES
    requires Took(chain, 0, size, ARRAY_RECORD, true, self, chain1, current1)
    requires 0 <= current1 < |chain1| && Took(chain1, current1, size, n, true, elts, chain2, current2)
    requires held !! Handed(self, ARRAY_RECORD) && held !! Handed(elts, n)
    ensures |chain2| > 0 && Released(Released(chain2, elts, n), self, ARRAY_RECORD) == chain
    ensures HeldAfter(HeldAfter(held + Handed(self, ARRAY_RECORD) + Handed(elts, n), chain2, elts, n),
                      Released(chain2, elts, n), self, ARRAY_RECORD) == held
  {
    hide Took, FirstFit, Room, StartAt;
    assert (chain[0].last + ARRAY_RECORD) % 8 == 0;
    TopTaken(chain, size, ARRAY_RECORD, self, chain1, current1);
    TopTaken(chain1, size, n, elts, chain2, current2);
    assert TopAt(TopAt(chain2, elts), self) == chain;
  }

  /** An array made and destroyed with nothing in between leaves the pool as it was, if its parts
      fit behind the top of the first block and that top is on a word. */
  method CreateThenDestroy(p: Pool, n: nat, size: nat)
    requires p.Valid() && Whole(p.size) && ARRAY_RECORD <= p.max && Extent(size, n) <= p.max && p.current == 0
    requires |p.chain| > 0 && p.chain[0].last % 8 == 0 && p.chain[0].last + ARRAY_RECORD
             + Extent(size, n) <= p.chain[0].end
    modifies p
    ensures p.Valid() && p.chain == old(p.chain) && p.Held() == old(p.Held())
  {
    hide Pool.Valid, Pool.ValidBut, Pool.Shaped, Pool.Users, Pool.Held, Whole, Took, Extent, GrowArray.Valid,
         Released, HeldAfter, Handed, Refused, Granted, FirstFit;
    p.TopInside();
    ghost var held, s, e := p.Held(), p.State(), Extent(size, n);
    var a;
    ghost var first, between;
    a, first, between := CreateArray(p, n, size);
    BothFit(p.malloc, p.size, s, e, first, between);
    assert e % SIZES == e;
    FitsTwice(s.chain, held, p.size, e, a.self, between.chain, between.current, a.elts, p.chain, p.current);
    a.Destroy();
  }

  lemma StoredMore(held: set<Region>, held': set<Region>, self: int, elts: int, n: int)
    requires Stored(held, self, elts, n) && held <= held'
    ensures Stored(held', self, elts, n)
  {
  }

  /** Eight bytes taken behind a new, empty array are at the top instead of it. */
  lemma Buried(chain: seq<Block>, size: int, self: int, chain1: seq<Block>, current1: int, elts: int,
               chain2: seq<Block>, current2: int,
               r: int, chain3: seq<Block>, current3: int)
    requires |chain| > 0 && chain[0].last % 8 == 0 && chain[0].last + 48 <= chain[0].end < chain[0].last + SIZES
    requires Took(chain, 0, size, ARRAY_RECORD, true, self, chain1, current1)
    requires 0 <= current1 < |chain1| && Took(chain1, current1, size, 0, true, elts, chain2, current2)
    requires 0 <= current2 < |chain2| && Took(chain2, current2, size, 8, true, r, chain3, current3)
    ensures |chain3| > 0 && elts < chain3[0].last
  {
    hide Took, FirstFit, Room, StartAt;
    assert (chain[0].last + ARRAY_RECORD) % 8 == 0;
    TopTaken(chain, size, ARRAY_RECORD, self, chain1, current1);
    TopTaken(chain1, size, 0, elts, chain2, current2);
    TopTaken(chain2, size, 8, r, chain3, current3);
  }

  /** With room in the first block an array for no elements is made, and eight bytes behind it are taken. */
  method EmptyArray(p: Pool) returns (a: GrowArray)
    requires p.Valid() && Whole(p.size) && 48 <= p.max && p.current == 0
    requires |p.chain| > 0 && p.chain[0].last % 8 == 0 && p.chain[0].last + 48 <= p.chain[0].end
    modifies p
    ensures fresh(a) && a.pool == p && a.Valid() && a.nelts == a.nalloc == 0 && !a.AtTop(a.size)
  {
    hide Pool.Valid, Pool.ValidBut, Pool.Shaped, Pool.Users, Pool.Held, Whole, Took, Stored, Handed, FirstFit, Refused,
         Granted;
    p.TopInside();
    ghost var s := p.State();
    ghost var first, between;
    var b;
    b, first, between := CreateArray(p, 0, 8);
    BothFit(p.malloc, p.size, s, 0, first, between);
    a := b;
    ghost var after, held := p.State(), p.Held();
    NextFits(s.chain, p.size, a.self, between.chain, between.current, a.elts, after.chain, after.current);
    EightFit(p.malloc, p.size, after);
    var r := p.Palloc(8);
    StoredMore(held, p.Held(), a.self, a.elts, 0);
    Buried(s.chain, p.size, a.self, between.chain, between.current, a.elts, after.chain, after.current, r, p.chain,
           p.current);
  }

  lemma EightFit(malloc: (map<int, int>, int) -> int, size: int, s: PoolState)
    requires |s.chain| > 0 && s.current == 0 && FirstFit(s.chain, 0, 8, true) == 0 && 8 <= Limit(size)
    ensures !Refused(malloc, size, s, 8, true)
  {
    hide FirstFit;
  }

  lemma NextFits(chain: seq<Block>, size: int, self: int, chain1: seq<Block>, current1: int, elts: int,
                 chain2: seq<Block>, current2: int)
    requires |chain| > 0 && chain[0].last % 8 == 0 && chain[0].last + 48 <= chain[0].end < chain[0].last + SIZES
    requires Took(chain, 0, size, ARRAY_RECORD, true, self, chain1, current1)
    requires 0 <= current1 < |chain1| && Took(chain1, current1, size, 0, true, elts, chain2, current2)
    ensures current2 == 0 && |chain2| > 0 && FirstFit(chain2, 0, 8, true) == 0
  {
    hide Took, FirstFit, Room, StartAt;
    assert (chain[0].last + ARRAY_RECORD) % 8 == 0;
    TopTaken(chain, size, ARRAY_RECORD, self, chain1, current1);
    TopTaken(chain1, size, 0, elts, chain2, current2);
    TopFits(chain2, 8);
  }

  /** An array made for no elements in a pool of 1024 bytes, wherever malloc puts it: its first
      element is in no storage. */
  method FirstElementOutside(malloc: (map<int, int>, int) -> int) returns (a: GrowArray, elt: int)
    requires Answer(malloc, map[], 1024) != 0
    ensures a.Valid() && elt != 0 && a.nelts == 1 > a.nalloc == 0
  {
    a := SomeEmptyArray(malloc);
    hide *;
    elt := a.Push();
  }

  method SomeEmptyArray(malloc: (map<int, int>, int) -> int) returns (a: GrowArray)
    requires Answer(malloc, map[], 1024) != 0
    ensures fresh(a) && fresh(a.pool) && a.Valid() && a.nelts == a.nalloc == 0 && !a.AtTop(a.size)
  {
    assert Whole(1024);
    hide Pool.Valid, Pool.ValidBut, Pool.Shaped, Pool.Users, Pool.Held, Whole, GrowArray.Valid, GrowArray.AtTop,
         LargeRegions, Records, Answer;
    var p := CreatePool(1024, malloc);
    a := EmptyArray(p);
  }
}
