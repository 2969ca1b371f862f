/** Page layout of the pool allocator: boundary tags, size classes and the tiling of pages by
    blocks, on values.

    An address is a byte address. `words` maps the address of a memory word to the 32-bit tag
    stored there. A block is named by its payload address `b`: its header is the word at b - 8,
    its footer the word at b + size - 16, and the block covers [b - 8, b + size - 8).
    */
module PoolLayout {
  import opened Sequences
  import opened Alignment

  const WSIZE := 8
  const DSIZE := 16
  const PAGESIZE := 4096
  const BLOCK_MIN := 48
  const MIN_LARGE_SIZE := 3072
  const PAGE_RECORD := 32
  const POOL_RECORD := 224
  const LARGE_RECORD := 32
  const UNALLOCATED := 0
  const ALLOCATED := 1
  const INITIAL := 2
  const LARGE := 4
  const UINT_LIMIT := 0x1_0000_0000

  // ---------- Tags ----------

  /** PACK ors flags below 8 into a size that is a multiple of 8, which is their sum. */
  function Pack(size: int, flags: int): int { size + flags }

  function GetSize(tag: int): int { tag - tag % 8 }

  function GetAlloc(tag: int): int { tag % 2 }

  function GetInit(tag: int): int { tag / 2 % 2 }

  function GetLarge(tag: int): int { tag / 4 % 2 }

  /** Flags below 8 do not disturb a size that is a multiple of 8. */
  lemma PackReads(n: int, flags: int)
    requires n % 8 == 0 && 0 <= flags < 8
    ensures GetSize(Pack(n, flags)) == n && GetAlloc(Pack(n, flags)) == flags % 2
    ensures GetInit(Pack(n, flags)) == flags / 2 % 2 && GetLarge(Pack(n, flags)) == flags / 4
  {
    TagDigits(n / 8, flags % 2, flags / 2 % 2, flags / 4);
  }

  lemma TagDigits(k: int, a: int, b: int, c: int)
    requires 0 <= a < 2 && 0 <= b < 2 && 0 <= c < 2
    ensures var tag := 8 * k + 4 * c + 2 * b + a;
            GetSize(tag) == 8 * k && GetAlloc(tag) == a && GetInit(tag) == b && GetLarge(tag) == c
  {
    var tag := 8 * k + 4 * c + 2 * b + a;
    assert tag % 8 == 4 * c + 2 * b + a;
    assert tag / 2 == 4 * k + 2 * c + b;
    assert tag / 4 == 2 * k + c;
  }

  // ---------- Size classes ----------

  /** The free list of a block of `size` bytes, by the class bounds 32, 64, ..., 2048. */
  function Bucket(size: int): (i: int)
    ensures 0 <= i < 8
  {
    if size <= 32 then 0 else if size <= 64 then 1 else if size <= 128 then 2
    else if size <= 256 then 3 else if size <= 512 then 4 else if size <= 1024 then 5
    else if size <= 2048 then 6 else 7
  }

  /** The bytes a small request takes from a page. */
  function BlockSize(size: int): int
  {
    if size <= DSIZE then BLOCK_MIN else Align8(size) + 2 * DSIZE
  }

  /** The first free list a request for a block of `asize` bytes searches. */
  function FirstBucket(asize: int): int
  {
    var i := Bucket(asize);
    if i < 7 && asize > Pow2(i + 4) then i + 1 else i
  }

  lemma Pow2Values()
    ensures Pow2(1) == 2 && Pow2(2) == 4 && Pow2(3) == 8 && Pow2(4) == 16 && Pow2(5) == 32
    ensures Pow2(6) == 64 && Pow2(7) == 128 && Pow2(8) == 256 && Pow2(9) == 512 && Pow2(10) == 1024
  {
    assert Pow2(5) == 32;
    assert Pow2(8) == 256;
  }

  /** The shift loop of gfs_mem_getindex computes the class. */
  method GetIndex(num: int) returns (index: int)
    requires 0 <= num < UINT_LIMIT
    ensures index == Bucket(num)
  {
    if num <= 32 {
      return 0;
    } else if num > 2048 {
      return 7;
    }
    Pow2Values();
    var start := (num - 1) / 16;
    var n := start / 2;
    index := 0;
    while n != 0
      invariant 0 <= index <= 6 && n >= 0
      invariant Pow2(index) <= start
      invariant Pow2(index + 1) * n <= start < Pow2(index + 1) * (n + 1)
      decreases n
    {
      assert Pow2(index + 2) == 2 * Pow2(index + 1);
      HalveStep(Pow2(index + 1), n, start);
      index := index + 1;
      n := n / 2;
    }
  }

  lemma HalveStep(p: int, n: int, start: int)
    requires p >= 1 && n >= 1 && p * n <= start < p * (n + 1)
    ensures p <= start
    ensures 2 * p * (n / 2) <= start < 2 * p * (n / 2 + 1)
  {
    var h := n / 2;
    if n == 2 * h {
      assert p * n == 2 * p * h && p * (n + 1) == 2 * p * h + p;
    } else {
      assert n == 2 * h + 1;
      assert p * n == 2 * p * h + p && p * (n + 1) == 2 * p * h + 2 * p;
    }
    assert 2 * p * (h + 1) == 2 * p * h + 2 * p;
    MulAtLeast(p, n);
  }

  lemma MulAtLeast(p: int, n: int)
    requires p >= 1 && n >= 1
    ensures p * n >= p
  {
    assert p * (n - 1) >= 0;
  }

  /** Every block on a searched list below the last one fits: lists FirstBucket(asize) .. 6 need
      no scan, and a whole fresh page always has room for the largest small request. */
  lemma {:induction false} FirstProbeFits(size: int, blockSize: int)
    requires 0 < size <= MIN_LARGE_SIZE
    ensures BLOCK_MIN <= BlockSize(size) <= 3104 && BlockSize(size) % 8 == 0
    ensures BlockSize(size) <= PAGESIZE - DSIZE - (PAGE_RECORD + DSIZE)
    ensures 1 <= FirstBucket(BlockSize(size)) <= 7
    ensures FirstBucket(BlockSize(size)) <= Bucket(blockSize) < 7 ==> BlockSize(size) <= blockSize
    ensures size <= BlockSize(size) - 24
  {
    Pow2Values();
  }

  // ---------- Large requests ----------

  /** The byte count gfs_mem_malloc asks of malloc for a large request, in the 32-bit `size`. */
  function LargeTotal(size: int): int
  {
    (Align8(size) % UINT_LIMIT + LARGE_RECORD + DSIZE) % UINT_LIMIT
  }

  /** A large region holds the request exactly when the two 32-bit additions do not wrap. */
  lemma LargeFitsIff(size: int)
    requires MIN_LARGE_SIZE < size < UINT_LIMIT
    ensures LargeTotal(size) - (LARGE_RECORD + DSIZE) >= size <==> size <= UINT_LIMIT - 56
    ensures size <= UINT_LIMIT - 56 ==> LargeTotal(size) == Align8(size) + 48
  {
    var a := Align8(size);
    assert size <= a < size + 8;
    if size <= UINT_LIMIT - 56 {
      assert a <= UINT_LIMIT - 56;
    } else if a == UINT_LIMIT {
      assert LargeTotal(size) == 48;
    } else {
      assert LargeTotal(size) == a + 48 - UINT_LIMIT;
    }
  }

  /** The largest request wraps: it gets the 48 bytes of its own record and tag. */
  lemma LargestRequestWraps()
    ensures LargeTotal(UINT_LIMIT - 1) == 48
  {
    assert Align8(UINT_LIMIT - 1) == UINT_LIMIT;
  }
}
