/** The size classes of the slab allocator. */
module ZoneSizes {
  import opened Bytes

  const NZONES := 72
  const MIN_CHUNK := 8
  /** sizeof(slab_zone) with 32-bit pointers. */
  const ZONE_HEADER := 36

  function RoundUp(n: nat, m: nat): (r: nat)
    requires m > 0
    ensures n <= r < n + m && r % m == 0
  {
    RoundUpIs(n, m);
    (n + m - 1) / m * m
  }

  lemma RoundUpIs(n: nat, m: nat)
    requires m > 0
    ensures n <= (n + m - 1) / m * m < n + m && (n + m - 1) / m * m % m == 0
  {
    var q := (n + m - 1) / m;
    assert q * m + (n + m - 1) % m == n + m - 1;
    MulMod(q, m);
  }

  lemma MulMod(q: nat, m: nat)
    requires m > 0
    ensures q * m % m == 0 && q * m / m == q
  {
    DivModUnique(q * m, m, q, 0);
  }

  /** zoneindex: the list that serves a request, and the size of its chunks. */
  function ZoneIndex(n: nat): (r: (nat, nat))
    requires n > 0
  {
    if n < 128 then var c := RoundUp(n, 8); (c / 8 - 1, c)
    else if n < 256 then var c := RoundUp(n, 16); (c / 16 + 7, c)
    else if n < 512 then var c := RoundUp(n, 32); (c / 32 + 15, c)
    else if n < 1024 then var c := RoundUp(n, 64); (c / 64 + 23, c)
    else if n < 2048 then var c := RoundUp(n, 128); (c / 128 + 31, c)
    else if n < 4096 then var c := RoundUp(n, 256); (c / 256 + 39, c)
    else if n < 8192 then var c := RoundUp(n, 512); (c / 512 + 47, c)
    else if n < 16384 then var c := RoundUp(n, 1024); (c / 1024 + 55, c)
    else (0, n)
  }

  /** The chunk size of a list. */
  function SizeOf(i: nat): nat
  {
    if i < 16 then 8 * (i + 1)
    else if i < 24 then 16 * (i - 7)
    else if i < 32 then 32 * (i - 15)
    else if i < 40 then 64 * (i - 23)
    else if i < 48 then 128 * (i - 31)
    else if i < 56 then 256 * (i - 39)
    else if i < 64 then 512 * (i - 47)
    else 1024 * (i - 55)
  }

  /**
   Each list has one chunk size, it is large enough, and less than eight bytes or
   an eighth of the request are wasted.
   */
  lemma Classes(n: nat)
    requires 0 < n < 16384
    ensures var (i, c) := ZoneIndex(n);
            && i < NZONES && c == SizeOf(i) && n <= c && c % MIN_CHUNK == 0 && (c < n + 8 || 8 * (c - n) < n)
  {
    hide RoundUp;
    var (i, c) := ZoneIndex(n);
    var m := if n < 128 then 8 else if n < 256 then 16 else if n < 512 then 32 else if n < 1024 then 64
             else if n < 2048 then 128 else if n < 4096 then 256 else if n < 8192 then 512 else 1024;
    assert c == RoundUp(n, m);
    assert c == c / m * m;
    ClassOf(n, c / m, m, i);
  }

  lemma ClassOf(n: nat, q: nat, m: nat, i: nat)
    requires 0 < n < 16384 && n <= q * m < n + m
    requires (m == 8 && n < 128 && i == q - 1) || (m == 16 && 128 <= n < 256 && i == q + 7)
          || (m == 32 && 256 <= n < 512 && i == q + 15) || (m == 64 && 512 <= n < 1024 && i == q + 23)
          || (m == 128 && 1024 <= n < 2048 && i == q + 31) || (m == 256 && 2048 <= n < 4096 && i == q + 39)
          || (m == 512 && 4096 <= n < 8192 && i == q + 47) || (m == 1024 && 8192 <= n < 16384 && i == q + 55)
    ensures i < NZONES && q * m == SizeOf(i) && q * m % MIN_CHUNK == 0 && (q * m < n + 8 || 8 * (q * m - n) < n)
  {
  }

  /** Rounding does not lead beyond the limit. */
  lemma ChunkBelow(n: nat, limit: nat)
    requires 0 < n < limit && (limit == 8192 || limit == 16384)
    ensures ZoneIndex(n).1 <= limit
  {
    hide RoundUp;
    var c := ZoneIndex(n).1;
    if 4096 <= n < 8192 {
      assert c == RoundUp(n, 512) && c == c / 512 * 512;
    } else if 8192 <= n {
      assert c == RoundUp(n, 1024) && c == c / 1024 * 1024;
    }
  }

  /** Different lists have different chunk sizes. */
  lemma SizesGrow(i: nat, j: nat)
    requires i < j
    ensures SizeOf(i) < SizeOf(j)
  {
  }

  predicate PowerOfTwo(n: nat)
  {
    n == 1 || (n > 0 && n % 2 == 0 && PowerOfTwo(n / 2))
  }

  /** Bitwise or. */
  function Or(a: nat, b: nat): nat
    decreases a + b
  {
    if a == 0 then b else if b == 0 then a
    else 2 * Or(a / 2, b / 2) + (if a % 2 == 1 || b % 2 == 1 then 1 else 0)
  }

  lemma {:induction false} OrSelf(a: nat)
    ensures Or(a, a) == a
  {
    if a > 0 {
      OrSelf(a / 2);
    }
  }

  /** The bit test of rt_malloc finds the powers of two. */
  lemma {:induction false} BitTest(size: nat)
    requires size > 0
    ensures Or(size, size - 1) + 1 == 2 * size <==> PowerOfTwo(size)
  {
    if size > 1 {
      if size % 2 == 1 {
        OrSelf(size / 2);
        assert size / 2 == (size - 1) / 2;
      } else {
        BitTest(size / 2);
        assert (size - 1) / 2 == size / 2 - 1;
      }
    }
  }

  /** A power of two is its own chunk size, from the least one on. */
  lemma PowerClass(n: nat)
    requires PowerOfTwo(n) && n < 16384
    ensures n < MIN_CHUNK ==> ZoneIndex(n).1 == MIN_CHUNK && MIN_CHUNK % n == 0
    ensures n >= MIN_CHUNK ==> ZoneIndex(n).1 == n
  {
    hide RoundUp, PowerOfTwo;
    SmallPowers(n);
    var m := if n < 128 then 8 else if n < 256 then 16 else if n < 512 then 32 else if n < 1024 then 64
             else if n < 2048 then 128 else if n < 4096 then 256 else if n < 8192 then 512 else 1024;
    assert ZoneIndex(n).1 == RoundUp(n, m);
    if n >= MIN_CHUNK {
      assert n % m == 0;
      RoundUpSame(n, m);
    }
  }

  lemma RoundUpSame(n: nat, m: nat)
    requires m > 0 && n % m == 0
    ensures RoundUp(n, m) == n
  {
    DivModUnique(n + m - 1, m, n / m, m - 1);
  }

  lemma SmallPowers(n: nat)
    requires PowerOfTwo(n) && n < 16384
    ensures n in {1, 2, 4, 8, 16, 32, 64, 128, 256, 512, 1024, 2048, 4096, 8192}
  {
    if n >= 128 {
      assert PowerOfTwo(n / 2 / 2 / 2 / 2 / 2 / 2 / 2) && n / 2 / 2 / 2 / 2 / 2 / 2 / 2 < 128;
    }
  }

  /** Where the chunks of a zone begin. */
  function Offset(chunk: nat): nat
    requires chunk > 0
  {
    if PowerOfTwo(chunk) then RoundUp(ZONE_HEADER, chunk) else RoundUp(ZONE_HEADER, MIN_CHUNK)
  }

  /** How many chunks a zone has. */
  function Capacity(zoneSize: nat, chunk: nat): nat
    requires chunk > 0
  {
    if zoneSize < Offset(chunk) then 0 else (zoneSize - Offset(chunk)) / chunk
  }

  /** A zone has room for at least two chunks, so that a new one still has a free chunk. */
  lemma TwoFit(zoneSize: nat, chunk: nat)
    requires chunk > 0 && 4 * chunk <= zoneSize && 32768 <= zoneSize
    ensures Offset(chunk) <= zoneSize && Capacity(zoneSize, chunk) >= 2
    ensures Offset(chunk) + Capacity(zoneSize, chunk) * chunk <= zoneSize
            < Offset(chunk) + (Capacity(zoneSize, chunk) + 1) * chunk
  {
    hide RoundUp;
    var off := Offset(chunk);
    assert off < ZONE_HEADER + chunk + 8;
    var room := zoneSize - off;
    if chunk < 64 {
      assert room >= 2 * chunk;
    } else {
      OffsetSmall(chunk);
      assert room >= 2 * chunk;
    }
    AtLeast(room, chunk, 2);
  }

  lemma OffsetSmall(chunk: nat)
    requires chunk >= 64
    ensures Offset(chunk) <= chunk
  {
    if PowerOfTwo(chunk) {
      var r := RoundUp(ZONE_HEADER, chunk);
      MulUnique(r, chunk);
    }
  }

  /** The only multiple of `m` above 0 and below `2 m`. */
  lemma MulUnique(r: nat, m: nat)
    requires m > 0 && r % m == 0 && 0 < r < 2 * m
    ensures r == m
  {
    var q := r / m;
    assert r == q * m;
    assert q >= 2 ==> q * m >= 2 * m;
  }

  lemma AtLeast(room: nat, m: nat, k: nat)
    requires m > 0 && room >= k * m
    ensures room / m >= k
  {
    var q := room / m;
    assert room < q * m + m;
    assert q < k ==> (q + 1) * m <= k * m;
  }
}
