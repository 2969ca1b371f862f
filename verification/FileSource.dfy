/** OSFileSource: reading a file at any position, directly or through the block cache. The file map
    and the block pool are embedded in the source object, so their fields are fields here. */
module FileSource {
  import opened Sequences
  import opened BlockCache

  const UINT32: nat := 0x1_0000_0000
  const UINT64: nat := 0x1_0000_0000_0000_0000
  const OFF_T: nat := 0x8000_0000_0000_0000
  const BUFFER_UNIT_SIZE: nat := 32768

  /** SeekErr: lseek refuses a position that is negative as an off_t. NoBuffer: the pool gave no
      buffer, and the original goes on with a null pointer. */
  datatype Status = NoErr | SeekErr | NoBuffer

  ghost function Snap(bs: set<FileBlockBuffer>): Snapshot
    reads bs, set b | b in bs :: b.data
  {
    map b | b in bs :: Block(b.arrayIndex, b.fillSize, b.data[..])
  }

  /** What the source owns: the buffers, their data, all different arrays, and the block map. */
  ghost predicate Footprint(bufs: set<FileBlockBuffer>, repr: set<object>, fileMap: object?)
  {
    && (fileMap != null ==> fileMap in repr)
    && (forall b :: b in bufs ==> b in repr && b.data in repr && b.data as object != fileMap)
    && (forall b, c :: b in bufs && c in bufs && b != c ==> b.data != c.data)
  }

  ghost predicate Queued(queue: seq<FileBlockBuffer>, bufs: set<FileBlockBuffer>)
  {
    forall b :: b in queue ==> b in bufs
  }

  lemma QueuedIn(queue: seq<FileBlockBuffer>, bufs: set<FileBlockBuffer>, b: FileBlockBuffer, repr: set<object>,
                 fileMap: object?)
    requires Queued(queue, bufs) && b in queue && Footprint(bufs, repr, fileMap)
    ensures b in bufs && b in repr && b.data in repr && b.data as object != fileMap
            && (fileMap != null ==> fileMap in repr)
  {
  }

  lemma NothingOwned()
    ensures Queued([], {}) && Footprint({}, {}, null)
  {
  }

  /** What TakeOldest finds, and what it achieves. */
  lemma OldestTaken(file: seq<byte>, bs: nat, m: Snapshot, q: seq<FileBlockBuffer>, a: seq<FileBlockBuffer?>,
                    h: seq<int>, i: nat, limit: nat,
                    bufs: set<FileBlockBuffer>, repr: set<object>, fileMap: object?)
    requires Coherent(file, bs, m, q, a, -1, h) && i < |a| && a[i] == null && |q| == limit > 0
    requires Queued(q, bufs) && Footprint(bufs, repr, fileMap)
    ensures var b, q' := q[0], q[1..] + [q[0]];
            && b in bufs && b in repr && (fileMap != null ==> fileMap in repr) && Used(q[1..], b) == q'
            && b in m && 0 <= m[b].index < |a| && m[b].index != i
            && var m' := m[b := m[b].(index := i)];
               && Coherent(file, bs, m', q', a[m[b].index := null][i := b], i, h + [i])
               && Indices(m', q') == Touched(Indices(m, q), limit, i)
  {
    CachedSlots(file, bs, m, q, a, h, i);
    hide Coherent, Indices, Touched, Used, Footprint, Queued;
    Reused(file, bs, m, m[q[0] := m[q[0]].(index := i)], q, a, h, i, limit);
    NoDupHead(q);
    QueuedIn(q, bufs, q[0], repr, fileMap);
    UsedAbsent(q[1..], q[0]);
  }

  /** What a read reports: status, count, and the bytes of the output buffer. */
  datatype Outcome = Outcome(st: Status, rcv: nat, bytes: seq<byte>)

  /** The outcome of the direct read. */
  function Plain(file: seq<byte>, pos: nat, len: nat, before: seq<byte>): Outcome
    requires len <= |before|
  {
    if pos >= OFF_T then Outcome(SeekErr, 0, before)
    else Outcome(NoErr, |Slice(file, pos, len)|, Splice(before, 0, Slice(file, pos, len)))
  }

  /** The unit size that an automatic choice divides by; it is not used when the caller gives units. */
  function UnitBytes(unitSizeInK: nat, buffSizeUnits: nat): nat
  {
    if buffSizeUnits > 0 then 1 else Times32(if unitSizeInK < 1 then 1 else unitSizeInK, 1024)
  }

  /** How many units a buffer gets: what the caller gives, or as many as hold a second of the bit
      rate, at least one, and no more than maxBlocks if that is not 0. */
  function ChosenUnits(unitSizeInK: nat, buffSizeUnits: nat, maxBlocks: nat, bitRate: nat): (units: nat)
    ensures units >= 1 && (buffSizeUnits > 0 ==> units == buffSizeUnits)
    ensures buffSizeUnits == 0 ==> units <= if maxBlocks > 0 then maxBlocks else 1
  {
    var unitBytes := UnitBytes(unitSizeInK, buffSizeUnits);
    var rate := if bitRate == 0 then Times32(maxBlocks, unitBytes) else bitRate;
    var auto := if unitBytes == 0 then 0 else Quotient(rate, unitBytes);
    if buffSizeUnits > 0 then buffSizeUnits
    else if auto > maxBlocks then (if maxBlocks < 1 then 1 else maxBlocks)
    else if auto < 1 then 1 else auto
  }

  /** A 32-bit product. */
  function Times32(a: nat, b: nat): nat
  {
    a * b % UINT32
  }

  function Quotient(a: nat, b: nat): nat
    requires b > 0
  {
    a / b
  }

  /** The blocks that a read of len bytes at pos goes through: up to the one its end falls in, even
      where that end is the block's first byte, but not past the end of the file. */
  function RangeBlocks(size: nat, bs: nat, pos: nat, len: nat): seq<int>
    requires bs > 0
  {
    var first, end, max := Quotient(pos, bs), Quotient(pos + len, bs), Quotient(size, bs);
    var stop := if end < max then end else max;
    if first <= stop then BlocksFrom(first, stop - first + 1) else []
  }

  lemma RangeIs(size: nat, bs: nat, pos: nat, len: nat, n: nat)
    requires bs > 0 && n > 0
    requires var next := Quotient(pos, bs) + n;
             && next - 1 <= Quotient(pos + len, bs) && next - 1 <= Quotient(size, bs)
             && (next > Quotient(pos + len, bs) || next > Quotient(size, bs))
    ensures RangeBlocks(size, bs, pos, len) == BlocksFrom(Quotient(pos, bs), n)
  {
    hide Quotient;
  }

  /** Where the copy loop starts, and how far it goes. */
  lemma FirstBlock(size: nat, bs: nat, pos: nat, len: nat)
    requires bs > 0 && pos < size
    ensures var first := Quotient(pos, bs);
            Start(first, bs) <= pos && Visited(size, bs, pos, len, first)
            && Progress(size, bs, pos, len, first, pos - Start(first, bs), 0)
    ensures forall i: nat :: Visited(size, bs, pos, len, i) <==> i <= Quotient(pos + len, bs) && i <= Quotient(size, bs)
  {
    ProgressStart(size, bs, pos, len);
    hide Start, Progress;
  }

  /** A 32-bit product is the product less a multiple of 2^32, and a quotient is rounded down. */
  lemma NumbersExact(a: nat, b: nat)
    ensures Times32(a, b) < UINT32 && (a * b - Times32(a, b)) % UINT32 == 0
    ensures b > 0 ==> Quotient(a, b) * b <= a < Quotient(a, b) * b + b
  {
  }

  /** The automatic choice: as many units as the bytes of one second of the bit rate fill, one at least and
      maxBlocks at most. */
  lemma ChosenExact(unitSizeInK: nat, maxBlocks: nat, bitRate: nat)
    requires UnitBytes(unitSizeInK, 0) > 0
    ensures UnitBytes(unitSizeInK, 0) == (if unitSizeInK < 1 then 1 else unitSizeInK) * 1024 % UINT32
    ensures var unit := UnitBytes(unitSizeInK, 0);
            var rate, units := if bitRate == 0 then maxBlocks * unit % UINT32 else bitRate,
                               ChosenUnits(unitSizeInK, 0, maxBlocks, bitRate);
            if rate >= unit && maxBlocks >= 1 then
              1 <= units <= maxBlocks && units * unit <= rate && (units < maxBlocks ==> rate < units * unit + unit)
            else units == 1
  {
    var unit := UnitBytes(unitSizeInK, 0);
    var rate := if bitRate == 0 then Times32(maxBlocks, unit) else bitRate;
    NumbersExact(rate, unit);
    AutoChoice(rate, unit, Quotient(rate, unit), maxBlocks);
  }

  lemma AutoChoice(rate: nat, unit: nat, auto: nat, maxBlocks: nat)
    requires unit > 0 && auto * unit <= rate < auto * unit + unit
    ensures auto >= 1 <==> rate >= unit
    ensures auto > maxBlocks ==> maxBlocks * unit <= rate
  {
    if auto >= 1 {
      TimesLess(1, auto, unit);
    }
    if auto > maxBlocks {
      TimesLess(maxBlocks, auto, unit);
    }
  }

  lemma TimesLess(a: nat, b: nat, c: nat)
    requires a <= b
    ensures a * c <= b * c
  {
  }

  method Memcpy(dst: array<byte>, o: nat, src: array<byte>, p: nat, n: nat)
    requires o + n <= dst.Length && p + n <= src.Length && dst != src
    modifies dst
    ensures dst[..] == Splice(old(dst[..]), o, src[p..p + n])
  {
    forall k | 0 <= k < n {
      dst[o + k] := src[p + k];
    }
  }

  class OSFileSource {
    const file: seq<byte>
    var position: nat
    var cacheEnabled: bool

    var fileMap: array?<FileBlockBuffer?>
    var dataBufferSize: nat
    var numBuffSizeUnits: nat

    // the pool's queue, least recently used first
    var queue: seq<FileBlockBuffer>
    var maxBuffers: nat
    var numCurrentBuffers: nat
    var bufferInc: nat

    // all buffers ever made, all objects owned, and the blocks used so far
    ghost var bufs: set<FileBlockBuffer>
    ghost var repr: set<object>
    ghost var history: seq<int>

    ghost function Slots(): seq<FileBlockBuffer?>
      reads this, fileMap
    {
      if fileMap == null then [] else fileMap[..]
    }

    ghost predicate Owned()
      reads this
    {
      this !in repr && Footprint(bufs, repr, fileMap) && Queued(queue, bufs)
    }

    ghost predicate Shaped()
      reads this
    {
      && Owned() && numCurrentBuffers == |queue|
      && (fileMap == null ==> queue == [])
      && (fileMap != null ==> dataBufferSize > 0 && fileMap.Length == Quotient(|file|, dataBufferSize) + 1)
      && |file| < OFF_T
    }

    /** The invariant, but for the contents of the buffer of block `dirty`. */
    ghost predicate ValidBut(dirty: int)
      reads this, repr
    {
      Shaped() && Coherent(file, dataBufferSize, Snap(bufs), queue, Slots(), dirty, history)
    }

    ghost predicate Valid()
      reads this, repr
    {
      ValidBut(-1)
    }

    /** The cached blocks, least recently used first. */
    ghost function Cached(): (r: seq<int>)
      reads this, repr
      requires Owned()
      ensures |r| == |queue|
    {
      Indices(Snap(bufs), queue)
    }

    constructor (file: seq<byte>, inc: nat)
      requires |file| < OFF_T
      ensures Valid() && this.file == file && !cacheEnabled && fileMap == null && maxBuffers == 1 && bufferInc == inc
              && repr == {}
    {
      this.file, position, cacheEnabled := file, 0, false;
      fileMap, dataBufferSize, numBuffSizeUnits := null, 0, 0;
      queue, maxBuffers, numCurrentBuffers, bufferInc := [], 1, 0, inc;
      bufs, repr, history := {}, {}, [];
      new;
      hide Coherent, Snap, Quotient, Footprint, Queued;
      NothingOwned();
      EmptyCoherent(file, dataBufferSize, Snap(bufs), Slots(), history);
    }

    // ---------- The pool ----------

    /** FileBlockPool::MarkUsed: to the tail, unless it is there. */
    method MarkUsed(b: FileBlockBuffer)
      requires Owned() && b in bufs
      modifies this`queue
      ensures Owned() && queue == Used(old(queue), b) && b in queue
    {
      WithoutAllMembers(queue, b);
      if |queue| == 0 || queue[|queue| - 1] != b {
        queue := WithoutAll(queue, b);
        queue := queue + [b];
      }
    }

    /** FileBlockPool::GetBufferElement: a new buffer below the limit, else the head of the queue;
        none if the queue is empty. */
    method GetBufferElement() returns (b: FileBlockBuffer?)
      requires Owned()
      modifies this`queue, this`numCurrentBuffers, this`bufs, this`repr
      ensures Owned()
      ensures old(numCurrentBuffers) < maxBuffers ==>
                && b != null && fresh(b) && fresh(b.data) && b.data.Length == dataBufferSize && b.arrayIndex == -1
                && queue == old(queue) + [b] && numCurrentBuffers == old(numCurrentBuffers) + 1
                && bufs == old(bufs) + {b} && repr == old(repr) + {b, b.data}
                && b !in old(queue) && Snap(bufs) == old(Snap(bufs))[b := Block(-1, 0, b.data[..])]
      ensures old(numCurrentBuffers) >= maxBuffers ==>
                && numCurrentBuffers == old(numCurrentBuffers) && bufs == old(bufs) && repr == old(repr)
                && (|old(queue)| == 0 ==> b == null && queue == old(queue))
                && (|old(queue)| > 0 ==> b == old(queue)[0] && queue == old(queue)[1..])
    {
      if numCurrentBuffers < maxBuffers {
        b := new FileBlockBuffer(dataBufferSize);
        numCurrentBuffers := numCurrentBuffers + 1;
        queue := queue + [b];
        bufs, repr := bufs + {b}, repr + {b, b.data};
        return;
      }
      if |queue| > 0 {
        b := queue[0];
        queue := queue[1..];
      } else {
        b := null;
      }
    }

    /** The limit grows modulo 2^32: it stays positive unless it wraps to exactly 0. */
    method IncMaxBuffers()
      requires Valid() && maxBuffers < UINT32 && bufferInc < UINT32
      modifies this`maxBuffers
      ensures Valid() && maxBuffers == (old(maxBuffers) + bufferInc) % UINT32
      ensures old(maxBuffers) > 0 ==> (maxBuffers == 0 <==> old(maxBuffers) + bufferInc == UINT32)
    {
      hide Coherent, Snap, Quotient, Footprint, Queued;
      maxBuffers := (maxBuffers + bufferInc) % UINT32;
    }

    method DecMaxBuffers()
      requires Valid()
      modifies this`maxBuffers
      ensures Valid() && maxBuffers <= old(maxBuffers) && (old(maxBuffers) > 0 ==> maxBuffers > 0)
      ensures maxBuffers == if old(maxBuffers) > bufferInc then old(maxBuffers) - bufferInc else old(maxBuffers)
    {
      hide Coherent, Snap, Quotient, Footprint, Queued;
      if maxBuffers > bufferInc {
        maxBuffers := maxBuffers - bufferInc;
      }
    }

    // ---------- The file map ----------

    /** One buffer above the limit goes: the least recently used. */
    method DeleteOldest()
      requires Valid() && fileMap != null && numCurrentBuffers > maxBuffers
      modifies this`queue, this`numCurrentBuffers, this`bufs, this`repr, fileMap
      ensures Valid() && queue == old(queue)[1..] && Cached() == old(Cached())[1..]
      ensures bufs == old(bufs) && repr == old(repr)
    {
      hide Coherent, Indices;
      Evicted(file, dataBufferSize, Snap(bufs), queue, Slots(), history);
      ghost var m, a := Snap(bufs), Slots();
      var b := GetBufferElement();
      fileMap[b.arrayIndex] := null;
      numCurrentBuffers := numCurrentBuffers - 1;
      assert Snap(bufs) == m;
      assert Slots() == a[m[b].index := null];
    }

    /** FileMap::DeleteOldBuffs: the least recently used buffers above the limit go. */
    method DeleteOldBuffs()
      requires Valid() && fileMap != null
      modifies this`queue, this`numCurrentBuffers, this`bufs, this`repr, fileMap
      ensures Valid() && queue == Trim(old(queue), maxBuffers) && Cached() == Trim(old(Cached()), maxBuffers)
      ensures bufs == old(bufs) && repr == old(repr)
    {
      hide Coherent, Snap;
      ghost var q0, s0 := queue, Cached();
      ghost var n := 0;
      while numCurrentBuffers > maxBuffers
        invariant Valid() && bufs == old(bufs) && repr == old(repr) && n <= |q0| && queue == q0[n..]
        invariant n <= |s0| == |q0| && Cached() == s0[n..] && (n > 0 ==> |q0| - n >= maxBuffers)
        decreases numCurrentBuffers
      {
        DeleteOldest();
        n := n + 1;
      }
    }

    /** The end of FileMap::GetBuffer: the element, now at the tail of the queue, takes slot i. */
    method Assign(b: FileBlockBuffer, i: nat)
      requires Owned() && fileMap != null && i < fileMap.Length && b in bufs && b.arrayIndex < fileMap.Length
      modifies fileMap, b`arrayIndex
      ensures b.arrayIndex == i
      ensures Snap(bufs) == var m := old(Snap(bufs)); m[b := m[b].(index := i)]
      ensures fileMap[..] == (if old(b.arrayIndex) >= 0 then old(fileMap[..])[old(b.arrayIndex) := null]
                                                             else old(fileMap[..]))[i := b]
    {
      if b.arrayIndex >= 0 {
        fileMap[b.arrayIndex] := null;
      }
      fileMap[i] := b;
      b.arrayIndex := i;
    }

    /** The case of a cached block: its buffer moves to the tail. */
    method TouchBuffer(b: FileBlockBuffer, i: nat)
      requires Valid() && fileMap != null && i < fileMap.Length && fileMap[i] == b && numCurrentBuffers <= maxBuffers
      modifies this`queue, this`history
      ensures Valid() && b in queue && b.arrayIndex == i && numCurrentBuffers == |queue|
              && history == old(history) + [i]
      ensures Cached() == Touched(old(Cached()), maxBuffers, i)
    {
      hide Coherent, Indices, Touched, Used, WithoutAll;
      CachedSlots(file, dataBufferSize, Snap(bufs), queue, Slots(), history, i);
      Hit(file, dataBufferSize, Snap(bufs), queue, Slots(), history, b, i, maxBuffers);
      UsedCached(queue, b);
      MarkUsed(b);
      history := history + [i];
    }

    /** The case of a block not cached, below the limit. */
    method TakeNew(i: nat) returns (b: FileBlockBuffer)
      requires Valid() && fileMap != null && i < fileMap.Length && fileMap[i] == null && numCurrentBuffers < maxBuffers
      modifies this`queue, this`numCurrentBuffers, this`bufs, this`repr, this`history, fileMap
      ensures ValidBut(i) && b in queue && b.arrayIndex == i && fileMap[i] == b && fresh(repr - old(repr))
              && history == old(history) + [i]
      ensures Cached() == Touched(old(Cached()), maxBuffers, i)
    {
      hide Coherent, Indices, Touched, Used, Queued, Footprint, Snap;
      ghost var m, q, a := Snap(bufs), queue, Slots();
      b := GetBufferElement();
      UsedTail(q, b);
      MarkUsed(b);
      Assign(b, i);
      Grown(file, dataBufferSize, m, Snap(bufs), q, a, history, b, i, maxBuffers);
      history := history + [i];
    }

    /** The element the pool gives at the limit, marked as used. */
    method OldestToTail() returns (b: FileBlockBuffer)
      requires Owned() && |queue| > 0 && numCurrentBuffers >= maxBuffers
      modifies this`queue, this`numCurrentBuffers, this`bufs, this`repr
      ensures Owned() && b == old(queue[0]) && queue == Used(old(queue[1..]), b) && b in queue
      ensures numCurrentBuffers == old(numCurrentBuffers) && bufs == old(bufs) && repr == old(repr)
    {
      assert queue[0] in bufs;
      hide Footprint, Used;
      b := GetBufferElement();
      MarkUsed(b);
    }

    /** The case of a block not cached, at the limit: the oldest buffer is taken from its block. */
    method TakeOldest(i: nat) returns (b: FileBlockBuffer)
      requires Valid() && fileMap != null && i < fileMap.Length && fileMap[i] == null
               && numCurrentBuffers == maxBuffers > 0
      modifies this`queue, this`numCurrentBuffers, this`bufs, this`repr, this`history, repr
      ensures ValidBut(i) && b in queue && b.arrayIndex == i && fileMap == old(fileMap) && fileMap[i] == b
              && fresh(repr - old(repr)) && history == old(history) + [i]
      ensures Cached() == Touched(old(Cached()), maxBuffers, i)
    {
      hide Coherent, Indices, Touched, Used, Footprint, Queued, Quotient;
      ghost var m, q, a := Snap(bufs), queue, Slots();
      OldestTaken(file, dataBufferSize, m, q, a, history, i, maxBuffers, bufs, repr, fileMap);
      assert m[q[0]].index == q[0].arrayIndex && this !in repr;
      hide *;
      b := OldestToTail();
      Assign(b, i);
      assert Slots() == a[m[b].index := null][i := b];
      history := history + [i];
    }

    /** FileMap::GetBuffer: the buffer of block i, and whether it has yet to be filled. There is
        one exactly when the limit is positive; the least recently used ones go first. */
    method GetBuffer(i: nat) returns (b: FileBlockBuffer?, fill: bool)
      requires Valid() && fileMap != null && i < fileMap.Length
      modifies this`queue, this`numCurrentBuffers, this`bufs, this`repr, this`history, repr
      ensures b != null <==> maxBuffers > 0
      ensures fresh(repr - old(repr)) && fileMap == old(fileMap)
      ensures b == null ==> Valid() && history == old(history)
      ensures b != null ==>
                && ValidBut(if fill then i else -1) && b in queue && b.arrayIndex == i && fileMap[i] == b
                && history == old(history) + [i] && Cached() == Touched(old(Cached()), maxBuffers, i)
                && numCurrentBuffers <= maxBuffers && (fill <==> i !in Trim(old(Cached()), maxBuffers))
    {
      hide Coherent, Snap, Indices, WithoutAll, Touched;
      ghost var s := Cached();
      DeleteOldBuffs();
      TouchedTrim(s, maxBuffers, i);
      CachedSlots(file, dataBufferSize, Snap(bufs), queue, Slots(), history, i);
      b, fill := fileMap[i], true;
      if b != null {
        fill := false;
        TouchBuffer(b, i);
      } else if numCurrentBuffers < maxBuffers {
        b := TakeNew(i);
      } else if |queue| > 0 {
        b := TakeOldest(i);
      }
    }

    // ---------- Setting up ----------

    /** DeleteMap, DeleteBlockPool and the new, empty map and pool. */
    method Rebuild(units: nat, inc: nat)
      requires Valid() && Times32(BUFFER_UNIT_SIZE, units) != 0
      modifies this`queue, this`numCurrentBuffers, this`maxBuffers, this`bufferInc, this`numBuffSizeUnits,
               this`dataBufferSize
      modifies this`fileMap, this`bufs, this`repr
      ensures Valid() && fileMap != null && fresh(repr) && queue == []
      ensures maxBuffers == (if inc > 0 then inc else 1) && bufferInc == (if inc > 0 then inc else old(bufferInc))
      ensures numBuffSizeUnits == units && dataBufferSize == Times32(BUFFER_UNIT_SIZE, units)
    {
      hide Coherent, Snap, Times32, Quotient;
      queue, numCurrentBuffers := [], 0;
      maxBuffers := if inc > 0 then inc else 1;
      bufferInc := if inc > 0 then inc else bufferInc;
      numBuffSizeUnits, dataBufferSize := units, Times32(BUFFER_UNIT_SIZE, units);
      fileMap := new FileBlockBuffer?[Quotient(|file|, dataBufferSize) + 1](_ => null);
      bufs, repr := {}, {fileMap};
      EmptyCoherent(file, dataBufferSize, Snap(bufs), Slots(), history);
    }

    /** AllocateBufferMap. The unit size asked for does not matter to the buffer size: deleting the
        old pool resets it to 32 KB first. Not ok means that the process stops, dividing by a
        32-bit size that has wrapped to 0. */
    method AllocateBufferMap(unitSizeInK: nat, buffSizeUnits: nat, inc: nat, maxBlocks: nat,
                             bitRate: nat) returns (ok: bool)
      requires Valid()
      modifies this`queue, this`numCurrentBuffers, this`maxBuffers, this`bufferInc, this`numBuffSizeUnits,
               this`dataBufferSize
      modifies this`fileMap, this`bufs, this`repr
      ensures Valid() && fresh(repr - old(repr))
      ensures var kept := old(fileMap) != null && old(numBuffSizeUnits) == buffSizeUnits && inc == old(maxBuffers);
              && (ok <==> kept || (UnitBytes(unitSizeInK, buffSizeUnits) != 0
                                   && Times32(BUFFER_UNIT_SIZE,
                                              ChosenUnits(unitSizeInK, buffSizeUnits, maxBlocks, bitRate)) != 0))
              && (kept || !ok ==> unchanged(this))
              && (ok && !kept ==>
                    && fileMap != null && queue == []
                    && maxBuffers == (if inc > 0 then inc else 1)
                       && bufferInc == (if inc > 0 then inc else old(bufferInc))
                    && numBuffSizeUnits == ChosenUnits(unitSizeInK, buffSizeUnits, maxBlocks, bitRate)
                    && dataBufferSize == Times32(BUFFER_UNIT_SIZE, numBuffSizeUnits))
    {
      if fileMap != null && numBuffSizeUnits == buffSizeUnits && inc == maxBuffers {
        return true;
      }
      hide Times32, Quotient;
      var unitBytes := UnitBytes(unitSizeInK, buffSizeUnits);
      if unitBytes == 0 {
        return false;
      }
      var units := buffSizeUnits;
      if units == 0 {
        var rate := if bitRate == 0 then Times32(maxBlocks, unitBytes) else bitRate;
        units := Quotient(rate, unitBytes);
        if units > maxBlocks {
          units := maxBlocks;
        }
      }
      if units < 1 {
        units := 1;
      }
      if Times32(BUFFER_UNIT_SIZE, units) == 0 {
        return false;
      }
      Rebuild(units, inc);
      ok := true;
    }

    method EnableFileCache(enabled: bool)
      requires Valid()
      modifies this`cacheEnabled
      ensures Valid() && cacheEnabled == enabled
    {
      cacheEnabled := enabled;
    }

    // ---------- Reading ----------

    /** The system call read(2) at fPosition: short only at the end of the file. */
    method SystemRead(dst: array<byte>, len: nat) returns (rcv: nat)
      requires len <= dst.Length
      modifies dst
      ensures rcv == |Slice(file, position, len)| && dst[..] == Splice(old(dst[..]), 0, Slice(file, position, len))
    {
      rcv := |Slice(file, position, len)|;
      forall k | 0 <= k < rcv {
        dst[k] := file[position + k];
      }
    }

    /** OSFileSource::ReadFromDisk, at fPosition. */
    method ReadFromDisk(dst: array<byte>, len: nat) returns (st: Status, rcv: nat)
      requires len <= dst.Length
      modifies this`position, dst
      ensures old(position) >= OFF_T ==> st == SeekErr && rcv == 0 && dst[..] == old(dst[..])
                                         && position == old(position)
      ensures old(position) < OFF_T ==>
                && st == NoErr && rcv == |Slice(file, old(position), len)| && position == old(position) + rcv
                && dst[..] == Splice(old(dst[..]), 0, Slice(file, old(position), len))
    {
      if position >= OFF_T {
        return SeekErr, 0;
      }
      st := NoErr;
      rcv := SystemRead(dst, len);
      position := position + rcv;
    }

    /** OSFileSource::ReadFromPos. */
    method ReadFromPos(pos: nat, dst: array<byte>, len: nat) returns (st: Status, rcv: nat)
      requires len <= dst.Length
      modifies this`position, dst
      ensures pos >= OFF_T ==> st == SeekErr && rcv == 0 && dst[..] == old(dst[..])
      ensures pos < OFF_T ==> st == NoErr && rcv == |Slice(file, pos, len)|
                              && dst[..] == Splice(old(dst[..]), 0, Slice(file, pos, len))
    {
      position := pos;
      st, rcv := ReadFromDisk(dst, len);
    }

    /** The same into a buffer that is not the cache's leaves the cache alone. */
    method ReadBeside(pos: nat, dst: array<byte>, len: nat) returns (st: Status, rcv: nat)
      requires Valid() && len <= dst.Length && dst !in repr
      modifies this`position, dst
      ensures Valid() && Cached() == old(Cached())
      ensures pos >= OFF_T ==> st == SeekErr && rcv == 0 && dst[..] == old(dst[..])
      ensures pos < OFF_T ==> st == NoErr && rcv == |Slice(file, pos, len)|
                              && dst[..] == Splice(old(dst[..]), 0, Slice(file, pos, len))
    {
      hide Coherent, Indices, Queued, Slice, Splice;
      ghost var m := Snap(bufs);
      st, rcv := ReadFromPos(pos, dst, len);
      assert Snap(bufs) == m;
    }

    /** The assignments of FillBuffer: the buffer's data and fill size. */
    method ReadInto(b: FileBlockBuffer, pos: nat)
      requires Owned() && b in bufs && b.data.Length == dataBufferSize && pos < OFF_T
      modifies this`position, b`fillSize, b.data
      ensures var m, s := old(Snap(bufs)), Slice(file, pos, dataBufferSize);
              Snap(bufs) == m[b := Block(m[b].index, |s|, Splice(m[b].data, 0, s))]
      ensures fileMap != null ==> fileMap[..] == old(fileMap[..])
    {
      hide Splice, Slice;
      var st, rcv := ReadFromPos(pos, b.data, dataBufferSize);
      b.fillSize := rcv;
    }

    /** FillBuffer: the buffer just assigned to block i gets the block's bytes. */
    method FillBuffer(b: FileBlockBuffer, i: nat)
      requires ValidBut(i) && fileMap != null && i < fileMap.Length && fileMap[i] == b && b in queue
               && b.arrayIndex == i
      modifies this`position, b`fillSize, b.data
      ensures Valid() && b.arrayIndex == i && fileMap[i] == b && Cached() == old(Cached())
    {
      ghost var m, q, a := Snap(bufs), queue, Slots();
      QueuedIn(q, bufs, b, repr, fileMap);
      BlockInFile(|file|, dataBufferSize, i);
      DirtySize(file, dataBufferSize, m, q, a, i, history, b);
      hide Coherent, Indices, Footprint, Queued;
      ReadInto(b, Start(i, dataBufferSize));
      Cleaned(file, dataBufferSize, m, Snap(bufs), q, a, history, b, i);
    }

    /** GetBuffer and, where needed, FillBuffer: the buffer of block i with the block's bytes. */
    method Fetch(i: nat) returns (b: FileBlockBuffer?)
      requires Valid() && fileMap != null && i < fileMap.Length
      modifies this`queue, this`numCurrentBuffers, this`bufs, this`repr, this`history, this`position, repr
      ensures Valid() && (b != null <==> maxBuffers > 0) && fresh(repr - old(repr)) && fileMap == old(fileMap)
      ensures b == null ==> history == old(history)
      ensures b != null ==>
                && b.data in repr && b.fillSize == |Slice(file, Start(i, dataBufferSize),
                                                          dataBufferSize)| <= b.data.Length
                && b.data[..b.fillSize] == Slice(file, Start(i, dataBufferSize), dataBufferSize)
                && history == old(history) + [i] && Cached() == Touched(old(Cached()), maxBuffers, i)
                   && numCurrentBuffers <= maxBuffers
    {
      hide Coherent, Indices, Touched, Footprint, Queued, Trim;
      var fill;
      b, fill := GetBuffer(i);
      if b == null {
        return;
      }
      QueuedIn(queue, bufs, b, repr, fileMap);
      if fill {
        FillBuffer(b, i);
      }
      CleanHolds(file, dataBufferSize, Snap(bufs), queue, Slots(), history, b);
    }

    /** memcpy out of a fetched block. */
    method CopyOut(dst: array<byte>, rcv: nat, b: FileBlockBuffer, p: nat, n: nat, ghost d: seq<byte>,
                   ghost pos: nat, ghost i: nat)
      requires rcv + n <= |d| && b.data != dst && pos + rcv == Start(i, dataBufferSize) + p
               && p + n <= b.fillSize <= b.data.Length && pos + rcv <= |file|
      requires b.data[..b.fillSize] == Slice(file, Start(i, dataBufferSize), dataBufferSize)
      requires |Slice(file, pos, rcv)| == rcv && dst[..] == Splice(d, 0, Slice(file, pos, rcv))
      modifies dst
      ensures dst[..] == Splice(d, 0, Slice(file, pos, rcv + n))
    {
      Copied(file, dataBufferSize, d, dst[..], pos, rcv, i, b.data[..], b.fillSize, p, n);
      hide Slice, Splice, Start;
      assert |dst[..]| == |d|;
      assert b.data[..][p..p + n] == b.data[p..p + n];
      Memcpy(dst, rcv, b.data, p, n);
    }

    /** Copies what is wanted of a fetched block; `last` when the block ends the file before the bytes wanted. */
    method CopyWanted(buff: FileBlockBuffer, buffIndex: nat, buffPos: nat, pos: nat, dst: array<byte>, len: nat,
                      rcv0: nat, ghost d: seq<byte>)
      returns (rcv: nat, last: bool)
      requires buff.data != dst && buff.fillSize == |Slice(file, Start(buffIndex, dataBufferSize),
                                                           dataBufferSize)| <= buff.data.Length
      requires buff.data[..buff.fillSize] == Slice(file, Start(buffIndex, dataBufferSize), dataBufferSize)
      requires dataBufferSize > 0 && Visited(|file|, dataBufferSize, pos, len, buffIndex)
      requires pos < |file| && rcv0 <= len <= |d| && Progress(|file|, dataBufferSize, pos, len, buffIndex, buffPos,
                                                              rcv0)
      requires dst[..] == Splice(d, 0, Slice(file, pos, rcv0))
      modifies dst
      ensures rcv <= len && dst[..] == Splice(d, 0, Slice(file, pos, rcv))
      ensures last ==> rcv == |Slice(file, pos, len)| && !Visited(|file|, dataBufferSize, pos, len, buffIndex + 1)
      ensures !last ==> Progress(|file|, dataBufferSize, pos, len, buffIndex + 1, 0, rcv)
    {
      hide Slice, Splice, Start, Progress, Visited;
      var buffSize := buff.fillSize;
      var bytesToCopy := len - rcv0;
      BlockSize(file, dataBufferSize, pos, len, buffIndex, buffPos, rcv0);
      if buffPos == 0 && bytesToCopy <= dataBufferSize && buffSize < bytesToCopy {
        CopyOut(dst, rcv0, buff, 0, buffSize, d, pos, buffIndex);
        rcv, last := rcv0 + buffSize, true;
        ProgressEnd(file, dataBufferSize, pos, len, buffIndex, rcv);
        LastVisited(|file|, dataBufferSize, pos, len, buffIndex);
        return;
      }
      var buffOffsetLen := buffSize - buffPos;
      var buffCopyLen := if bytesToCopy >= buffOffsetLen then buffOffsetLen else bytesToCopy;
      ProgressStep(|file|, dataBufferSize, pos, len, buffIndex, buffPos, rcv0, buffSize, buffCopyLen);
      CopyOut(dst, rcv0, buff, buffPos, buffCopyLen, d, pos, buffIndex);
      rcv, last := rcv0 + buffCopyLen, false;
    }

    /** One turn of the copy loop. */
    method CopyBlock(buffIndex: nat, buffPos: nat, pos: nat, dst: array<byte>, len: nat, rcv0: nat,
                     ghost d: seq<byte>) returns (st: Status, rcv: nat, last: bool)
      requires Valid() && fileMap != null && dataBufferSize > 0 && buffIndex < fileMap.Length && dst !in repr
      requires Visited(|file|, dataBufferSize, pos, len, buffIndex)
      requires pos < |file| && rcv0 <= len <= |d| && Progress(|file|, dataBufferSize, pos, len, buffIndex, buffPos,
                                                              rcv0)
      requires dst[..] == Splice(d, 0, Slice(file, pos, rcv0))
      modifies this`queue, this`numCurrentBuffers, this`bufs, this`repr, this`history, this`position, repr, dst
      ensures Valid() && fresh(repr - old(repr)) && fileMap == old(fileMap) && rcv <= len
      ensures maxBuffers == 0 ==> st == NoBuffer && rcv == rcv0 && dst[..] == old(dst[..])
      ensures maxBuffers > 0 ==> st == NoErr && dst[..] == Splice(d, 0, Slice(file, pos, rcv))
      ensures st == NoErr && last ==> rcv == |Slice(file, pos, len)|
                                      && !Visited(|file|, dataBufferSize, pos, len, buffIndex + 1)
      ensures maxBuffers > 0 ==> history == old(history) + [buffIndex]
                                 && Cached() == Touched(old(Cached()), maxBuffers, buffIndex)
      ensures st == NoErr && !last ==> Progress(|file|, dataBufferSize, pos, len, buffIndex + 1, 0, rcv)
    {
      assert this !in repr;
      hide *;
      st, rcv, last := NoErr, rcv0, false;
      var buff := Fetch(buffIndex);
      if buff == null {
        st := NoBuffer;
      } else {
        rcv, last := CopyWanted(buff, buffIndex, buffPos, pos, dst, len, rcv0, d);
      }
    }

    /** ReadFromCache. Inside the file the end of the range does not wrap in 64 bits; past the last
        block of the map the loop stops. */
    method ReadFromCache(pos: nat, dst: array<byte>, len: nat) returns (st: Status, rcv: nat)
      requires Valid() && fileMap != null && len <= dst.Length && dst !in repr
      modifies this`queue, this`numCurrentBuffers, this`bufs, this`repr, this`history, this`position, repr, dst
      ensures Valid() && fresh(repr - old(repr)) && fileMap == old(fileMap)
      ensures pos < |file| && maxBuffers == 0 ==> st == NoBuffer && rcv == 0 && dst[..] == old(dst[..])
      ensures pos >= |file| || maxBuffers > 0 ==>
                st == NoErr && rcv == |Slice(file, pos, len)|
                    && dst[..] == Splice(old(dst[..]), 0, Slice(file, pos, len))
      ensures pos >= |file| ==> unchanged(this) && Cached() == old(Cached())
      ensures pos < |file| && maxBuffers > 0 ==>
                var blocks := RangeBlocks(|file|, dataBufferSize, pos, len);
                history == old(history) + blocks && Cached() == TouchedAll(old(Cached()), maxBuffers, blocks)
    {
      hide Coherent, Snap, Indices, Touched, Footprint, Queued, Slice, Splice, Start, Progress, Visited, Quotient,
           RangeBlocks, BlocksFrom, TouchedAll;
      ghost var d := dst[..];
      SliceStart(file, d, pos, len);
      st, rcv := NoErr, 0;
      if pos >= |file| {
        return;
      }
      var bs := dataBufferSize;
      var buffIndex, endIndex, maxIndex := Quotient(pos, bs), Quotient(pos + len, bs), fileMap.Length - 1;
      assert bs > 0 && maxIndex == Quotient(|file|, bs);
      FirstBlock(|file|, bs, pos, len);
      hide Valid, ValidBut, Shaped, Owned;
      var buffPos: int := pos - Start(buffIndex, bs);
      ghost var first, n, past, cached := buffIndex, 0, history, Cached();
      BlocksNext(first, 0);
      TouchedNone(cached, maxBuffers);
      while buffIndex <= endIndex && buffIndex <= maxIndex
        invariant Valid() && fresh(repr - old(repr)) && fileMap == old(fileMap) && dst !in repr
        invariant st == NoErr && 0 <= buffPos && Progress(|file|, bs, pos, len, buffIndex, buffPos, rcv) && rcv <= len
        invariant dst[..] == Splice(d, 0, Slice(file, pos, rcv))
        invariant maxBuffers == 0 ==> rcv == 0 && buffIndex == first
        invariant n == buffIndex - first && (n > 0 ==> buffIndex - 1 <= endIndex && buffIndex - 1 <= maxIndex)
        invariant history == past + BlocksFrom(first, n)
        invariant Cached() == TouchedAll(cached, maxBuffers, BlocksFrom(first, n))
        decreases endIndex - buffIndex + 1
      {
        var last;
        st, rcv, last := CopyBlock(buffIndex, buffPos, pos, dst, len, rcv, d);
        if st != NoErr {
          return;
        }
        BlocksNext(first, n);
        TouchedNext(cached, maxBuffers, BlocksFrom(first, n), buffIndex);
        n := n + 1;
        if last {
          break;
        }
        buffPos := 0;
        buffIndex := buffIndex + 1;
      }
      RangeIs(|file|, bs, pos, len, n);
      ProgressDone(file, bs, pos, len, buffIndex, buffPos, rcv);
    }

    /** Whether Read goes through the cache: its test adds in 64 bits. */
    ghost predicate Served(pos: nat, len: nat)
      reads this
      requires Shaped()
    {
      fileMap != null && cacheEnabled && Quotient((pos + len) % UINT64, dataBufferSize) < fileMap.Length
    }

    /** Read: the cache changes neither the bytes nor the count, whatever was read before and
        however the limit moved, except in two cases: a position that lseek would refuse is taken
        for the end of the file, and a limit that wrapped to 0 leaves no buffer. A read through the
        cache uses each block of its range once, in order; a direct one leaves the cache alone. */
    method Read(pos: nat, dst: array<byte>, len: nat) returns (st: Status, rcv: nat)
      requires Valid() && pos < UINT64 && len < UINT32 && len <= dst.Length && dst !in repr
      modifies this`queue, this`numCurrentBuffers, this`bufs, this`repr, this`history, this`position, repr, dst
      ensures Valid() && fresh(repr - old(repr)) && fileMap == old(fileMap)
      ensures Outcome(st, rcv, dst[..]) == Plain(file, pos, len, old(dst[..]))
              <==> !(old(Served(pos, len)) && (pos >= OFF_T || (pos < |file| && maxBuffers == 0)))
      ensures old(Served(pos, len)) && pos >= OFF_T ==> Outcome(st, rcv, dst[..]) == Outcome(NoErr, 0, old(dst[..]))
      ensures old(Served(pos, len)) && pos < |file| && maxBuffers > 0 ==>
                var blocks := RangeBlocks(|file|, dataBufferSize, pos, len);
                history == old(history) + blocks && Cached() == TouchedAll(old(Cached()), maxBuffers, blocks)
      ensures !old(Served(pos, len)) || pos >= |file| ==> history == old(history) && Cached() == old(Cached())
      ensures old(Served(pos, len)) && pos < |file| && maxBuffers == 0 ==>
                Outcome(st, rcv, dst[..]) == Outcome(NoBuffer, 0, old(dst[..]))
    {
      hide Coherent, Snap, Indices, Queued, Quotient;
      SliceStart(file, dst[..], pos, len);
      if fileMap == null || !cacheEnabled || Quotient((pos + len) % UINT64, dataBufferSize) > fileMap.Length - 1 {
        st, rcv := ReadBeside(pos, dst, len);
      } else {
        st, rcv := ReadFromCache(pos, dst, len);
      }
    }
  }

  lemma OneUnit()
    ensures UnitBytes(32, 1) == 1 && Times32(BUFFER_UNIT_SIZE, 1) == 32768 && Quotient(1, 32768) == 0
  {
  }

  /** A cache of 32 KB blocks over a file of one byte, with the limit and the increment given. */
  method OneByteSource(inc: nat) returns (source: OSFileSource)
    ensures fresh(source) && fresh(source.repr) && source.Valid() && source.file == [7] && source.Served(0, 1)
    ensures source.dataBufferSize == 32768 && source.fileMap.Length == 1 && source.cacheEnabled
    ensures inc > 0 ==> source.maxBuffers == source.bufferInc == inc
  {
    hide Times32, ChosenUnits, UnitBytes, Quotient, OSFileSource.Owned, Coherent;
    OneUnit();
    source := new OSFileSource([7], 1);
    var ok := source.AllocateBufferMap(32, 1, inc, 8, 32768);
    source.EnableFileCache(true);
  }

  /** One byte at the last position there is: an empty read through the cache, an error directly. */
  method FarReadDiffers(dst: array<byte>) returns (st: Status, rcv: nat)
    requires dst.Length == 1
    modifies dst
    ensures st == NoErr && rcv == 0 && Plain([7], UINT64 - 1, 1, old(dst[..])).st == SeekErr
  {
    var source := OneByteSource(1);
    st, rcv := source.Read(UINT64 - 1, dst, 1);
  }

  /** Raising the limit from 2^31 by 2^31 makes it 0, and the next read finds no buffer. */
  method LimitWraps(dst: array<byte>) returns (st: Status, rcv: nat)
    requires dst.Length == 1
    modifies dst
    ensures st == NoBuffer && rcv == 0 && Plain([7], 0, 1, old(dst[..])) == Outcome(NoErr, 1, [7])
  {
    assert Plain([7], 0, 1, dst[..]) == Outcome(NoErr, 1, [7]);
    hide Plain, Coherent, Indices, Queued, Footprint, OSFileSource.Valid;
    var source := OneByteSource(0x8000_0000);
    source.IncMaxBuffers();
    st, rcv := source.Read(0, dst, 1);
  }
}
