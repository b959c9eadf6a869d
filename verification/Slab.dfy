/**
 The slab allocator: zones of equal chunks on top of the page allocator.
 Addresses are numbers; a page is named by its number.
 */
module Slab {
  import opened Bytes
  import opened PageRuns
  import opened ZoneSizes
  import opened Seqs
  import H = HeapBlocks

  const PAGE := 4096
  const NULL := 0
  const ZONE_LIMIT := 16 * 1024
  const MIN_ZONE := 32 * 1024
  const MAX_ZONE := 128 * 1024
  const RELEASE_THRESH := 2
  /** sizeof(struct memusage). */
  const USAGE_SIZE := 4

  /** The header of a zone; `base` counts from the start of the zone, `free` holds addresses. */
  datatype Zone = Zone(nfree: int, nmax: nat, base: nat, uindex: nat, chunk: nat, index: nat, free: seq<nat>)

  datatype Kind = FreePage | Small | Large

  datatype Usage = Usage(kind: Kind, size: nat)

  /** What a page belongs to. */
  datatype Owner = Unused | InSpan(start: nat) | InTable

  type Zones = map<nat, Zone>

  type Taken = map<nat, set<nat>>

  /** The pages of a large request; rounding up wraps around. */
  function Pages(size: H.Size): nat
  {
    RoundUp(size, PAGE) % H.WORD / PAGE
  }

  // ------------------------------------------------------------ one zone

  /** The address of chunk `k`. */
  function Addr(z: nat, zone: Zone, k: nat): nat
  {
    z * PAGE + zone.base + k * zone.chunk
  }

  function IndexOf(z: nat, zone: Zone, a: nat): int
  {
    if zone.chunk == 0 then 0 else (a - z * PAGE - zone.base) / zone.chunk
  }

  lemma IndexAddr(z: nat, zone: Zone, k: nat)
    requires zone.chunk > 0
    ensures IndexOf(z, zone, Addr(z, zone, k)) == k
  {
    DivModUnique(k * zone.chunk, zone.chunk, k, 0);
  }

  /** `a` is the address of a chunk that has been used before and is not taken. */
  ghost predicate Returned(z: nat, zone: Zone, taken: set<nat>, a: nat)
  {
    var k := IndexOf(z, zone, a);
    0 <= k <= zone.uindex && k !in taken && a == Addr(z, zone, k)
  }

  /** The layout of a zone follows from its list. */
  ghost predicate Shaped(zone: Zone, zoneSize: nat)
  {
    && zone.index < NZONES && zone.chunk == SizeOf(zone.index) && zone.chunk > 0
    && zone.base == Offset(zone.chunk) <= zoneSize && zone.nmax == Capacity(zoneSize, zone.chunk) >= 2
  }

  /** Each chunk up to `uindex` is taken or on the free list, and `nfree` counts what is left. */
  ghost predicate Filled(z: nat, zone: Zone, taken: set<nat>)
  {
    && zone.uindex < zone.nmax && zone.nfree == zone.nmax - 1 - zone.uindex + |zone.free|
    && |taken| + |zone.free| == zone.uindex + 1
    && (forall k | k in taken :: k <= zone.uindex)
    && (forall a | a in zone.free :: Returned(z, zone, taken, a))
    && Distinct(zone.free)
  }

  /** The chunks that are not taken are the free ones. */
  lemma Count(z: nat, zone: Zone, taken: set<nat>)
    requires Filled(z, zone, taken)
    ensures zone.nfree == zone.nmax - |taken| && zone.nfree >= 0
    ensures zone.nfree == zone.nmax <==> taken == {}
    ensures zone.nfree > 0 && zone.uindex + 1 == zone.nmax ==> zone.free != []
  {
    assert taken == {} <==> |taken| == 0;
  }

  /** A chunk that was never used is handed out. */
  lemma TakeNew(z: nat, zone: Zone, taken: set<nat>)
    requires zone.chunk > 0 && Filled(z, zone, taken) && zone.uindex + 1 < zone.nmax
    ensures zone.uindex + 1 !in taken
    ensures Filled(z, zone.(uindex := zone.uindex + 1, nfree := zone.nfree - 1), taken + {zone.uindex + 1})
  {
    var zone' := zone.(uindex := zone.uindex + 1, nfree := zone.nfree - 1);
    forall a | a in zone'.free
      ensures Returned(z, zone', taken + {zone.uindex + 1}, a)
    {
      assert Returned(z, zone, taken, a);
    }
  }

  /** The first chunk of the free list is handed out. */
  lemma TakeFree(z: nat, zone: Zone, taken: set<nat>)
    requires zone.chunk > 0 && Filled(z, zone, taken) && zone.free != []
    ensures var k := IndexOf(z, zone, zone.free[0]);
            && 0 <= k <= zone.uindex && k !in taken && zone.free[0] == Addr(z, zone, k)
            && Filled(z, zone.(free := zone.free[1..], nfree := zone.nfree - 1), taken + {k})
  {
    var a := zone.free[0];
    assert a in zone.free && Returned(z, zone, taken, a);
    var k := IndexOf(z, zone, a);
    var zone' := zone.(free := zone.free[1..], nfree := zone.nfree - 1);
    DistinctTail(zone.free);
    forall x | x in zone'.free
      ensures Returned(z, zone', taken + {k}, x)
    {
      assert x in zone.free && Returned(z, zone, taken, x) && x != a;
    }
  }

  /** A taken chunk comes back. */
  lemma Give(z: nat, zone: Zone, taken: set<nat>, k: nat)
    requires zone.chunk > 0 && Filled(z, zone, taken) && k in taken
    ensures Filled(z, zone.(free := [Addr(z, zone, k)] + zone.free, nfree := zone.nfree + 1), taken - {k})
  {
    hide Addr, IndexOf;
    var a := Addr(z, zone, k);
    IndexAddr(z, zone, k);
    var zone' := zone.(free := [a] + zone.free, nfree := zone.nfree + 1);
    SameAddr(z, zone, zone');
    assert a !in zone.free by { assert Returned(z, zone, taken, a) ==> k !in taken; }
    DistinctTail(zone'.free);
    assert zone'.free[1..] == zone.free;
    forall x | x in zone'.free
      ensures Returned(z, zone', taken - {k}, x)
    {
      assert x == a || Returned(z, zone, taken, x);
    }
  }

  lemma SameAddr(z: nat, zone: Zone, zone': Zone)
    requires zone'.chunk == zone.chunk && zone'.base == zone.base
    ensures forall k: nat :: Addr(z, zone', k) == Addr(z, zone, k)
    ensures forall a: nat :: IndexOf(z, zone', a) == IndexOf(z, zone, a)
  {
  }

  /** The zone that rt_malloc sets up, with its first chunk taken. */
  function Fresh(zoneSize: nat, index: nat, chunk: nat): Zone
    requires chunk > 0
  {
    Zone(Capacity(zoneSize, chunk) - 1, Capacity(zoneSize, chunk), Offset(chunk), 0, chunk, index, [])
  }

  /** A chunk lies in its zone behind the header, apart from the other chunks. */
  lemma ChunkInside(z: nat, zone: Zone, zoneSize: nat, k: nat)
    requires Shaped(zone, zoneSize) && k < zone.nmax
    ensures z * PAGE + ZONE_HEADER <= Addr(z, zone, k) && Addr(z, zone, k) + zone.chunk <= z * PAGE + zoneSize
  {
    hide Shaped;
    Room(zone, zoneSize);
    MulStep(k, zone.nmax, zone.chunk);
  }

  /** All chunks of a zone fit behind its header. */
  lemma Room(zone: Zone, zoneSize: nat)
    requires Shaped(zone, zoneSize)
    ensures ZONE_HEADER <= zone.base <= zoneSize && zone.nmax * zone.chunk <= zoneSize - zone.base
  {
    hide RoundUp, PowerOfTwo, SizeOf;
    DivMul(zoneSize - zone.base, zone.chunk);
  }

  lemma DivMul(a: nat, m: nat)
    requires m > 0
    ensures a / m * m <= a
  {
  }

  lemma MulStep(k: nat, n: nat, m: nat)
    requires k < n
    ensures k * m + m <= n * m
  {
    assert (k + 1) * m <= n * m;
  }

  lemma ChunksApart(z: nat, zone: Zone, i: nat, j: nat)
    requires i < j
    ensures Addr(z, zone, i) + zone.chunk <= Addr(z, zone, j)
  {
    MulStep(i, j, zone.chunk);
  }

  /**
   Chunks whose size is a power of two are aligned to their size exactly if the
   start of their zone is.
   */
  lemma ChunkAligned(z: nat, zone: Zone, zoneSize: nat, k: nat)
    requires Shaped(zone, zoneSize) && PowerOfTwo(zone.chunk)
    ensures Addr(z, zone, k) % zone.chunk == 0 <==> z * PAGE % zone.chunk == 0
  {
    var m := zone.chunk;
    MulMod(k, m);
    AddMultiple(z * PAGE, zone.base, m);
    AddMultiple(z * PAGE + zone.base, k * m, m);
  }

  /** Up to the size of a page that is always so. */
  lemma SmallAligned(z: nat, zone: Zone, zoneSize: nat, k: nat)
    requires Shaped(zone, zoneSize) && PowerOfTwo(zone.chunk) && zone.chunk <= PAGE
    ensures Addr(z, zone, k) % zone.chunk == 0
  {
    hide Shaped, Addr;
    ChunkAligned(z, zone, zoneSize, k);
    PageIsPower();
    PowersDivide(zone.chunk, PAGE);
    var m := zone.chunk;
    assert z * PAGE == z * (PAGE / m) * m;
    MulMod(z * (PAGE / m), m);
  }

  lemma PageIsPower()
    ensures PowerOfTwo(PAGE)
  {
    assert PowerOfTwo(8) && PowerOfTwo(64) && PowerOfTwo(512);
  }

  lemma {:induction false} PowersDivide(a: nat, b: nat)
    requires PowerOfTwo(a) && PowerOfTwo(b) && a <= b
    ensures a > 0 && b % a == 0
  {
    if a > 1 {
      PowersDivide(a / 2, b / 2);
      var q := b / 2 / (a / 2);
      assert b == q * a;
      MulMod(q, a);
    }
  }

  lemma PowerOfEight()
    ensures PowerOfTwo(MIN_CHUNK)
  {
  }

  lemma Divides(a: nat, m: nat, n: nat)
    requires m > 0 && n > 0 && a % m == 0 && m % n == 0
    ensures a % n == 0
  {
    assert a == a / m * (m / n) * n;
    MulMod(a / m * (m / n), n);
  }

  /** A large block is large enough, or there is none. */
  /** As many pages as needed and no more; rounding up wraps around for the last page of the address space. */
  lemma PagesCover(size: H.Size)
    requires size > 0
    ensures Pages(size) > 0 ==> size <= Pages(size) * PAGE < size + PAGE
    ensures Pages(size) == 0 <==> size > H.WORD - PAGE
  {
    hide RoundUp;
    var r := RoundUp(size, PAGE);
    if r < H.WORD {
      assert r % H.WORD == r;
    } else {
      DivModUnique(r, H.WORD, 1, r - H.WORD);
      assert r / PAGE * PAGE == r;
    }
  }

  lemma AddMultiple(a: nat, b: nat, m: nat)
    requires m > 0 && b % m == 0
    ensures (a + b) % m == a % m
  {
    var q, r := a / m, a % m;
    assert a + b == (q + b / m) * m + r;
    DivModUnique(a + b, m, q + b / m, r);
  }

  // ------------------------------------------------------------ pages

  /** Each page has one owner: the free runs, a span of pages that was handed out, or the usage table. */
  ghost predicate Owned(owner: map<nat, Owner>, runs: seq<Run>, spans: map<nat, nat>, first: nat, npages: nat)
  {
    && (forall p: nat :: p in owner <==> first <= p < first + npages)
    && (forall p: nat :: In(runs, p) <==> p in owner && owner[p] == Unused)
    && (forall s, p | s in spans && s <= p < s + spans[s] :: Within(owner, s, p))
    && (forall p | p in owner && owner[p].InSpan? :: Covered(spans, owner[p].start, p))
    && (forall s | s in spans :: spans[s] > 0)
  }

  ghost predicate Within(owner: map<nat, Owner>, s: nat, p: nat)
  {
    p in owner && owner[p] == InSpan(s)
  }

  ghost predicate Covered(spans: map<nat, nat>, s: nat, p: nat)
  {
    s in spans && s <= p < s + spans[s]
  }

  predicate IsPage(p: nat, first: nat, npages: nat)
  {
    first <= p < first + npages
  }

  /** All pages are unused but those of the table. */
  ghost function Untouched(first: nat, npages: nat, addr: nat, table: nat): map<nat, Owner>
  {
    map p | first <= p < first + npages && IsPage(p, first, npages) ::
      if addr <= p < addr + table then InTable else Unused
  }

  ghost function Claim(owner: map<nat, Owner>, a: nat, n: nat, o: Owner): map<nat, Owner>
  {
    map p | p in owner :: if a <= p < a + n then o else owner[p]
  }

  /** Free pages become a span. */
  lemma ClaimSpan(owner: map<nat, Owner>, runs: seq<Run>, runs': seq<Run>, spans: map<nat, nat>, first: nat,
                  npages: nat, a: nat, n: nat)
    requires Owned(owner, runs, spans, first, npages) && AllIn(runs, a, n) && n > 0
    requires forall p: nat :: In(runs', p) <==> In(runs, p) && !(a <= p < a + n)
    ensures a !in spans && first <= a && a + n <= first + npages
    ensures Owned(Claim(owner, a, n, InSpan(a)), runs', spans[a := n], first, npages)
  {
    hide In;
    assert In(runs, a) && In(runs, a + n - 1);
    assert a in spans ==> Within(owner, a, a);
    var owner', spans' := Claim(owner, a, n, InSpan(a)), spans[a := n];
    forall s, p: nat | s in spans' && s <= p < s + spans'[s]
      ensures Within(owner', s, p)
    {
      if s == a {
        assert In(runs, p);
      } else {
        assert Within(owner, s, p);
      }
    }
    forall p | p in owner' && owner'[p].InSpan?
      ensures Covered(spans', owner'[p].start, p)
    {
      assert a <= p < a + n || Covered(spans, owner[p].start, p);
    }
  }

  /** A span is given back. */
  lemma ReleaseSpan(owner: map<nat, Owner>, runs: seq<Run>, runs': seq<Run>, spans: map<nat, nat>, first: nat,
                    npages: nat, a: nat)
    requires Owned(owner, runs, spans, first, npages) && a in spans
    requires forall p: nat :: In(runs', p) <==> In(runs, p) || a <= p < a + spans[a]
    ensures Owned(Claim(owner, a, spans[a], Unused), runs', spans - {a}, first, npages)
  {
    hide In;
    var owner', spans' := Claim(owner, a, spans[a], Unused), spans - {a};
    forall s, p: nat | s in spans' && s <= p < s + spans'[s]
      ensures Within(owner', s, p)
    {
      assert Within(owner, s, p);
      assert a <= p < a + spans[a] ==> Within(owner, a, p);
    }
    forall p | p in owner' && owner'[p].InSpan?
      ensures Covered(spans', owner'[p].start, p)
    {
      assert Covered(spans, owner[p].start, p);
    }
    forall p: nat
      ensures In(runs', p) <==> p in owner' && owner'[p] == Unused
    {
      assert a <= p < a + spans[a] ==> Within(owner, a, p);
    }
  }

  /** The pages of a span are not free, and belong to no other span. */
  lemma SpanPages(owner: map<nat, Owner>, runs: seq<Run>, spans: map<nat, nat>, first: nat, npages: nat, a: nat)
    requires Owned(owner, runs, spans, first, npages) && a in spans
    ensures first <= a && a + spans[a] <= first + npages
    ensures forall p | a <= p < a + spans[a] :: !In(runs, p)
    ensures forall s | s in spans && s != a :: s + spans[s] <= a || a + spans[a] <= s
  {
    hide In;
    assert Within(owner, a, a) && Within(owner, a, a + spans[a] - 1);
    forall p | a <= p < a + spans[a]
      ensures !In(runs, p)
    {
      assert Within(owner, a, p);
    }
    forall s | s in spans && s != a
      ensures s + spans[s] <= a || a + spans[a] <= s
    {
      assert Within(owner, s, s);
      assert a <= s < a + spans[a] ==> Within(owner, a, s);
      assert s <= a < s + spans[s] ==> Within(owner, s, a);
    }
  }

  // ------------------------------------------------------------ lists of zones

  ghost predicate OnList(zones: Zones, spare: seq<nat>, z: nat, i: nat)
  {
    z in zones && zones[z].index == i && zones[z].nfree > 0 && z !in spare
  }

  /** The list of an index holds exactly its zones that have a free chunk and are not spare. */
  ghost predicate Listed(zones: Zones, lists: seq<seq<nat>>, spare: seq<nat>)
  {
    && |lists| == NZONES
    && (forall i, z | 0 <= i < |lists| && z in lists[i] :: OnList(zones, spare, z, i))
    && (forall z | z in zones && z !in spare && zones[z].nfree > 0 ::
          zones[z].index < |lists| && z in lists[zones[z].index])
    && (forall i | 0 <= i < |lists| :: Distinct(lists[i]))
    && Distinct(spare) && (forall z | z in spare :: z in zones && zones[z].nfree == zones[z].nmax)
  }

  /** A zone on a list still has free chunks. */
  lemma ListedStay(zones: Zones, lists: seq<seq<nat>>, spare: seq<nat>, z: nat, zone: Zone)
    requires Listed(zones, lists, spare) && z in zones && z !in spare && zone.index == zones[z].index
    requires zones[z].nfree > 0 && zone.nfree > 0
    ensures Listed(zones[z := zone], lists, spare)
  {
    hide Distinct;
  }

  /** The first zone of a list has no free chunk any more. */
  lemma ListedEmpty(zones: Zones, lists: seq<seq<nat>>, spare: seq<nat>, i: nat, zone: Zone)
    requires Listed(zones, lists, spare) && i < |lists| && lists[i] != []
    requires zone.index == i && zone.nfree == 0
    ensures OnList(zones, spare, lists[i][0], i) && Listed(zones[lists[i][0] := zone], lists[i := lists[i][1..]], spare)
  {
    hide Distinct;
    var z := lists[i][0];
    assert z in lists[i];
    DistinctTail(lists[i]);
    TailMembers(lists[i]);
  }

  /** A full zone has a free chunk again. */
  lemma ListedBack(zones: Zones, lists: seq<seq<nat>>, spare: seq<nat>, z: nat, zone: Zone)
    requires Listed(zones, lists, spare) && z in zones && z !in spare && zones[z].nfree == 0
    requires zone.index == zones[z].index < |lists| && zone.nfree > 0
    ensures Listed(zones[z := zone], lists[zone.index := [z] + lists[zone.index]], spare)
  {
    hide Distinct;
    FrontDistinct(z, lists[zone.index]);
  }

  lemma FrontDistinct(x: nat, s: seq<nat>)
    requires Distinct(s) && x !in s
    ensures Distinct([x] + s)
  {
    var r := [x] + s;
    assert r[1..] == s;
    DistinctTail(r);
  }

  /** A zone without taken chunks is put aside. */
  lemma ListedSpare(zones: Zones, lists: seq<seq<nat>>, spare: seq<nat>, z: nat)
    requires Listed(zones, lists, spare) && z in zones && z !in spare
    requires zones[z].nfree == zones[z].nmax && zones[z].index < |lists|
    ensures Listed(zones, lists[zones[z].index := Without(lists[zones[z].index], z)], [z] + spare)
  {
    hide Distinct, Without;
    var i := zones[z].index;
    WithoutMembers(lists[i], z);
    WithoutDistinct(lists[i], z);
    FrontDistinct(z, spare);
  }

  /** A spare zone is given up. */
  lemma ListedDrop(zones: Zones, lists: seq<seq<nat>>, spare: seq<nat>)
    requires Listed(zones, lists, spare) && spare != []
    ensures spare[0] in zones && Listed(zones - {spare[0]}, lists, spare[1..])
  {
    hide Distinct;
    assert spare[0] in spare;
    DistinctTail(spare);
    TailMembers(spare);
  }

  /** A new zone comes to the front of its list. */
  lemma ListedNew(zones: Zones, lists: seq<seq<nat>>, spare: seq<nat>, z: nat, zone: Zone)
    requires Listed(zones, lists, spare) && z !in zones && zone.nfree > 0 && zone.index < |lists|
    ensures Listed(zones[z := zone], lists[zone.index := [z] + lists[zone.index]], spare)
  {
    hide Distinct;
    FrontDistinct(z, lists[zone.index]);
  }

  lemma {:induction false} WithoutAt(s: seq<nat>, k: nat)
    requires Distinct(s) && k < |s|
    ensures Without(s, s[k]) == s[..k] + s[k + 1..]
  {
    if k == 0 {
      WithoutFirst(s);
    } else {
      DistinctTail(s);
      WithoutAt(s[1..], k - 1);
      assert s[1..][..k - 1] == s[1..k] && s[1..][k..] == s[k + 1..];
      assert [s[0]] + s[1..k] == s[..k];
    }
  }

  /** The loop that takes a zone out of its list. */
  method Unchain(list: seq<nat>, z: nat) returns (r: seq<nat>)
    requires Distinct(list) && z in list
    ensures r == Without(list, z)
  {
    var k := 0;
    while list[k] != z
      invariant 0 <= k < |list| && z in list[k..]
      decreases |list| - k
    {
      k := k + 1;
    }
    WithoutAt(list, k);
    r := list[..k] + list[k + 1..];
  }

  // ------------------------------------------------------------ the allocator

  ghost predicate ZonesOk(zones: Zones, taken: Taken, zoneSize: nat)
  {
    taken.Keys == zones.Keys && forall z | z in zones :: Shaped(zones[z], zoneSize) && Filled(z, zones[z], taken[z])
  }

  /** Zones and large blocks are the spans that were handed out. */
  ghost predicate Spanned(zones: set<nat>, large: set<nat>, spans: map<nat, nat>, zonePages: nat)
  {
    zones !! large && spans.Keys == zones + large && forall z | z in zones :: spans[z] == zonePages
  }

  predicate UnusedPage(usage: map<nat, Usage>, p: nat)
  {
    p in usage && usage[p] == Usage(FreePage, 0)
  }

  ghost predicate SmallPage(usage: map<nat, Usage>, z: nat, p: nat)
  {
    z <= p && p in usage && usage[p] == Usage(Small, p - z)
  }

  /** The usage table leads from any page of a zone to its start, and knows the length of a large block. */
  ghost predicate Recorded(usage: map<nat, Usage>, zones: set<nat>, large: set<nat>, spans: map<nat, nat>,
                           zonePages: nat)
  {
    && (forall z, p | z in zones && z <= p < z + zonePages :: SmallPage(usage, z, p))
    && (forall l | l in large :: l in usage && l in spans && usage[l] == Usage(Large, spans[l]))
  }

  /** A new zone is recorded. */
  lemma RecordedZone(usage: map<nat, Usage>, usage': map<nat, Usage>, zones: set<nat>, large: set<nat>,
                     spans: map<nat, nat>, zp: nat, z: nat)
    requires Spanned(zones, large, spans, zp) && Recorded(usage, zones, large, spans, zp) && z !in spans
    requires forall p | z <= p < z + zp :: SmallPage(usage', z, p)
    requires forall p | p in usage && !(z <= p < z + zp) :: p in usage' && usage'[p] == usage[p]
    requires forall s | s in spans :: s + spans[s] <= z || z + zp <= s
    ensures Spanned(zones + {z}, large, spans[z := zp], zp) && Recorded(usage', zones + {z}, large, spans[z := zp], zp)
  {
    forall s, p | s in zones + {z} && s <= p < s + zp
      ensures SmallPage(usage', s, p)
    {
      assert s != z ==> s in spans && SmallPage(usage, s, p);
    }
    forall l | l in large
      ensures l in usage' && l in spans && l != z && usage'[l] == Usage(Large, spans[l])
    {
      assert l in spans;
    }
  }

  /** A new large block is recorded. */
  lemma RecordedLarge(usage: map<nat, Usage>, zones: set<nat>, large: set<nat>, spans: map<nat, nat>, zp: nat, l: nat,
                      n: nat)
    requires Spanned(zones, large, spans, zp) && Recorded(usage, zones, large, spans, zp) && l !in spans && n > 0
    requires forall s | s in spans :: s + spans[s] <= l || l + n <= s
    ensures Spanned(zones, large + {l}, spans[l := n], zp)
            && Recorded(usage[l := Usage(Large, n)], zones, large + {l}, spans[l := n], zp)
  {
    var usage' := usage[l := Usage(Large, n)];
    forall z, p | z in zones && z <= p < z + zp
      ensures SmallPage(usage', z, p)
    {
      assert z in spans && SmallPage(usage, z, p);
    }
  }

  /** A large block is given up; what is left in the table for its page does not matter. */
  lemma UnrecordedLarge(usage: map<nat, Usage>, u: Usage, zones: set<nat>, large: set<nat>, spans: map<nat, nat>,
                        zp: nat, l: nat)
    requires Spanned(zones, large, spans, zp) && Recorded(usage, zones, large, spans, zp) && l in large && l in spans
             && spans[l] > 0
    requires forall s | s in spans && s != l :: s + spans[s] <= l || l + spans[l] <= s
    ensures Spanned(zones, large - {l}, spans - {l}, zp) && Recorded(usage[l := u], zones, large - {l}, spans - {l}, zp)
  {
    var usage' := usage[l := u];
    forall z, p | z in zones && z <= p < z + zp
      ensures SmallPage(usage', z, p)
    {
      assert z in spans && SmallPage(usage, z, p);
    }
  }

  /** A zone is given up. */
  lemma UnrecordedZone(usage: map<nat, Usage>, usage': map<nat, Usage>, zones: set<nat>, large: set<nat>,
                       spans: map<nat, nat>, zp: nat, z: nat)
    requires Spanned(zones, large, spans, zp) && Recorded(usage, zones, large, spans, zp) && z in zones && zp > 0
    requires forall p | p in usage && !(z <= p < z + zp) :: p in usage' && usage'[p] == usage[p]
    requires forall s | s in spans && s != z :: s + spans[s] <= z || z + zp <= s
    ensures Spanned(zones - {z}, large, spans - {z}, zp) && Recorded(usage', zones - {z}, large, spans - {z}, zp)
  {
    forall s, p | s in zones - {z} && s <= p < s + zp
      ensures SmallPage(usage', s, p)
    {
      assert s in spans && SmallPage(usage, s, p);
    }
    forall l | l in large
      ensures l in usage' && l in spans && l != z && usage'[l] == Usage(Large, spans[l])
    {
      assert l in spans;
    }
  }

  ghost function TakenOf(taken: Taken, z: nat): set<nat>
  {
    if z in taken then taken[z] else {}
  }

  // ------------------------------------------------------------ the blocks that callers have

  datatype Block = NoBlock | SmallBlock(zone: nat, k: nat) | LargeBlock(page: nat)

  /** What decides which blocks are handed out and where they lie. */
  datatype View = View(zones: Zones, taken: Taken, large: set<nat>, spans: map<nat, nat>)

  ghost predicate Live(v: View, b: Block)
  {
    match b
    case NoBlock => false
    case SmallBlock(z, k) => z in v.zones && k in TakenOf(v.taken, z)
    case LargeBlock(l) => l in v.large && l in v.spans
  }

  ghost function Start(v: View, b: Block): nat
    requires Live(v, b)
  {
    match b
    case SmallBlock(z, k) => Addr(z, v.zones[z], k)
    case LargeBlock(l) => l * PAGE
  }

  ghost function Size(v: View, b: Block): nat
    requires Live(v, b)
  {
    match b
    case SmallBlock(z, _) => v.zones[z].chunk
    case LargeBlock(l) => v.spans[l] * PAGE
  }

  /** The block `b` is handed out; all others stay where they are. */
  ghost predicate Grows(v: View, v': View, b: Block)
  {
    && !Live(v, b) && (forall x :: Live(v', x) <==> Live(v, x) || x == b)
    && (forall x | Live(v, x) :: Start(v', x) == Start(v, x) && Size(v', x) == Size(v, x))
  }

  ghost predicate SameBlocks(v: View, v': View)
  {
    && (forall x :: Live(v', x) <==> Live(v, x))
    && (forall x | Live(v, x) :: Start(v', x) == Start(v, x) && Size(v', x) == Size(v, x))
  }

  lemma GrowsSmall(v: View, v': View, z: nat, k: nat, zone: Zone)
    requires v.taken.Keys == v.zones.Keys && k !in TakenOf(v.taken, z) && z !in v.large
    requires TakenOf(v.taken, z) != {} ==> zone.base == v.zones[z].base && zone.chunk == v.zones[z].chunk
    requires v'.zones == v.zones[z := zone] && v'.taken == v.taken[z := TakenOf(v.taken, z) + {k}]
             && v'.large == v.large
    requires forall l | l in v.large ::
               (l in v'.spans <==> l in v.spans) && (l in v.spans ==> v'.spans[l] == v.spans[l])
    ensures Grows(v, v', SmallBlock(z, k))
  {
    hide Addr;
    forall x | Live(v, x)
      ensures Live(v', x) && Start(v', x) == Start(v, x) && Size(v', x) == Size(v, x)
    {
      match x
      case SmallBlock(y, i) =>
        if y == z {
          AddrIs(z, v.zones[z], zone, i);
        }
      case LargeBlock(l) =>
    }
  }

  /** Returning a chunk is handing it out, read backwards. */
  lemma Returns(v: View, z: nat, k: nat, zone: Zone)
    requires v.taken.Keys == v.zones.Keys && z in v.zones && k in v.taken[z] && z !in v.large
    requires zone.base == v.zones[z].base && zone.chunk == v.zones[z].chunk
    ensures Grows(v.(zones := v.zones[z := zone], taken := v.taken[z := v.taken[z] - {k}]), v, SmallBlock(z, k))
  {
    hide Grows;
    var t := v.taken[z] - {k};
    var u := v.(zones := v.zones[z := zone], taken := v.taken[z := t]);
    assert v.taken[z] == t + {k};
    assert v.zones == u.zones[z := v.zones[z]] && v.taken == u.taken[z := t + {k}];
    assert u.taken.Keys == u.zones.Keys;
    GrowsSmall(u, v, z, k, v.zones[z]);
  }

  lemma GrowsSame(v: View, u: View, w: View, b: Block)
    requires SameBlocks(u, v) && Grows(u, w, b)
    ensures Grows(v, w, b)
  {
    hide Addr, Start, Size;
  }

  /** Giving up a zone without taken chunks changes no block. */
  lemma Dropped(v: View, v': View, z: nat)
    requires TakenOf(v.taken, z) == {} && z !in v.large
    requires v'.zones == v.zones - {z} && v'.taken == v.taken - {z} && v'.large == v.large && v'.spans == v.spans - {z}
    ensures SameBlocks(v, v')
  {
    hide Addr;
    forall x
      ensures Live(v', x) <==> Live(v, x)
    {
      match x
      case SmallBlock(y, i) =>
        assert y == z ==> i !in TakenOf(v.taken, z);
      case LargeBlock(l) =>
      case NoBlock =>
    }
  }

  lemma GrowsLarge(v: View, v': View, l: nat, n: nat)
    requires l !in v.spans && v'.zones == v.zones && v'.taken == v.taken && v'.large == v.large + {l}
             && v'.spans == v.spans[l := n]
    ensures Grows(v, v', LargeBlock(l))
  {
    hide Addr;
  }

  lemma ZonesUpdate(zones: Zones, taken: Taken, zoneSize: nat, z: nat, zone: Zone, t: set<nat>)
    requires ZonesOk(zones, taken, zoneSize) && Shaped(zone, zoneSize) && Filled(z, zone, t)
    ensures ZonesOk(zones[z := zone], taken[z := t], zoneSize)
  {
  }

  lemma ZonesDrop(zones: Zones, taken: Taken, zoneSize: nat, z: nat)
    requires ZonesOk(zones, taken, zoneSize)
    ensures ZonesOk(zones - {z}, taken - {z}, zoneSize)
  {
  }

  lemma FreshOk(z: nat, zoneSize: nat, index: nat, chunk: nat)
    requires index < NZONES && chunk == SizeOf(index) && 4 * chunk <= zoneSize && 32768 <= zoneSize
    ensures chunk > 0 && Shaped(Fresh(zoneSize, index, chunk), zoneSize)
            && Filled(z, Fresh(zoneSize, index, chunk), {0})
    ensures Fresh(zoneSize, index, chunk).nfree > 0
  {
    TwoFit(zoneSize, chunk);
  }

  /** The page of a chunk leads to the zone. */
  lemma PageOfChunk(z: nat, zone: Zone, zoneSize: nat, k: nat)
    requires Shaped(zone, zoneSize) && k < zone.nmax && zoneSize % PAGE == 0
    ensures z <= Addr(z, zone, k) / PAGE < z + zoneSize / PAGE
  {
    hide Addr, Shaped;
    ChunkInside(z, zone, zoneSize, k);
    ShapedChunk(zone, zoneSize);
    var a := Addr(z, zone, k);
    assert a == a / PAGE * PAGE + a % PAGE;
    assert zoneSize == zoneSize / PAGE * PAGE;
  }

  lemma ShapedChunk(zone: Zone, zoneSize: nat)
    requires Shaped(zone, zoneSize)
    ensures zone.chunk > 0 && zone.index < NZONES && zone.chunk == SizeOf(zone.index)
  {
  }

  /** A chunk of a zone that was never used, or else the first of its free list. */
  method NextChunk(z: nat, zone: Zone, ghost taken: set<nat>, ghost zoneSize: nat)
    returns (zone': Zone, r: nat, ghost k: nat)
    requires Shaped(zone, zoneSize) && Filled(z, zone, taken) && zone.nfree > 0
    ensures Shaped(zone', zoneSize) && k !in taken && Filled(z, zone', taken + {k})
    ensures r == Addr(z, zone', k) && zone'.nfree == zone.nfree - 1 && zone'.index == zone.index
    ensures zone'.base == zone.base && zone'.chunk == zone.chunk == SizeOf(zone.index)
  {
    hide Addr, IndexOf, Shaped, Filled, SizeOf;
    ShapedChunk(zone, zoneSize);
    Count(z, zone, taken);
    if zone.uindex + 1 != zone.nmax {
      NotFull(z, zone, taken);
      TakeNew(z, zone, taken);
      k := zone.uindex + 1;
      zone' := zone.(uindex := zone.uindex + 1, nfree := zone.nfree - 1);
      r := z * PAGE + zone'.base + zone'.uindex * zone'.chunk;
    } else {
      TakeFree(z, zone, taken);
      k := IndexOf(z, zone, zone.free[0]);
      r := zone.free[0];
      zone' := zone.(free := zone.free[1..], nfree := zone.nfree - 1);
    }
    AddrIs(z, zone, zone', k);
    SameShape(zone, zone', zoneSize);
  }

  /** A chunk joins the free list of its zone. */
  method ReturnChunk(z: nat, zone: Zone, ptr: nat, ghost taken: set<nat>, ghost k: nat, ghost zoneSize: nat)
    returns (zone': Zone)
    requires Shaped(zone, zoneSize) && Filled(z, zone, taken) && k in taken && ptr == Addr(z, zone, k)
    ensures Shaped(zone', zoneSize) && Filled(z, zone', taken - {k}) && zone'.index == zone.index < NZONES
    ensures zone'.nfree == zone.nfree + 1 > 0 && zone'.base == zone.base && zone'.chunk == zone.chunk
            && zone'.nmax == zone.nmax
  {
    hide Addr, Shaped, Filled, SizeOf;
    ShapedChunk(zone, zoneSize);
    Give(z, zone, taken, k);
    Count(z, zone, taken);
    TakenBelow(z, zone, taken, k);
    zone' := zone.(free := [ptr] + zone.free, nfree := zone.nfree + 1);
    SameShape(zone, zone', zoneSize);
    Count(z, zone', taken - {k});
  }

  /** How many pages the usage table takes. */
  function TablePages(npages: nat): nat
  {
    RoundUp(npages * USAGE_SIZE, PAGE) / PAGE
  }

  lemma NothingOwned(runs: seq<Run>, first: nat, npages: nat, table: nat)
    requires forall p: nat :: In(runs, p) <==> first + table <= p < first + npages
    ensures Owned(Untouched(first, npages, first, table), runs, map[], first, npages)
  {
    hide In;
  }

  /** The `n` pages from `a` on are the ones that are free before and not after. */
  ghost predicate Leave(runs: seq<Run>, runs': seq<Run>, a: nat, n: nat)
  {
    AllIn(runs, a, n) && forall p: nat :: In(runs', p) <==> In(runs, p) && !(a <= p < a + n)
  }

  lemma PagesBack(runs: seq<Run>, runs': seq<Run>, a: nat, n: nat)
    requires forall p: nat :: In(runs', p) <==> In(runs, p) || a <= p < a + n
    requires forall p | a <= p < a + n :: !In(runs, p)
    ensures Leave(runs', runs, a, n)
  {
    hide In;
  }

  class Allocator {
    const first: nat
    const npages: nat
    const zoneSize: nat
    const zonePages: nat
    const zoneLimit: nat
    var runs: seq<Run>
    var zones: Zones
    var lists: seq<seq<nat>>
    var spare: seq<nat>
    var spareCount: nat
    var usage: map<nat, Usage>
    /** The chunks that callers have, the large blocks they have, all spans of pages, and the owner of each page. */
    ghost var taken: Taken
    ghost var large: set<nat>
    ghost var spans: map<nat, nat>
    ghost var owner: map<nat, Owner>

    ghost predicate Config()
    {
      && first > 0 && (zoneSize == MIN_ZONE || zoneSize == 2 * MIN_ZONE || zoneSize == MAX_ZONE)
      && zonePages == zoneSize / PAGE && zoneLimit == (if zoneSize / 4 > ZONE_LIMIT then ZONE_LIMIT else zoneSize / 4)
    }

    ghost predicate PagesOk()
      reads this
    {
      && Good(runs) && Owned(owner, runs, spans, first, npages)
      && Spanned(zones.Keys, large, spans, zonePages) && Recorded(usage, zones.Keys, large, spans, zonePages)
    }

    ghost predicate ChunksOk()
      reads this
    {
      ZonesOk(zones, taken, zoneSize) && Listed(zones, lists, spare) && spareCount == |spare|
    }

    ghost predicate Valid()
      reads this
    {
      Config() && PagesOk() && ChunksOk()
    }

    ghost function Blocks(): View
      reads this
    {
      View(zones, taken, large, spans)
    }

    /** rt_system_heap_init: all pages are free but those of the usage table. */
    constructor (first: nat, npages: nat)
      requires first > 0 && npages > 0
      ensures Valid() && this.first == first && this.npages == npages && forall b :: !Live(Blocks(), b)
      ensures forall p: nat :: In(runs, p) <==>
                first + TablePages(npages) <= p < first + npages
      ensures npages <= 1024 ==> zoneSize == MIN_ZONE && (npages > 1 ==> runs == [Run(first + 1, npages - 1)])
    {
      hide In, Good, Owned, Untouched, RoundUp;
      var rest := PagesForTable(first, npages);
      var size := SizeForZones(npages);
      this.first, this.npages, zoneSize, zonePages := first, npages, size, size / PAGE;
      zoneLimit := if size / 4 > ZONE_LIMIT then ZONE_LIMIT else size / 4;
      runs, zones, lists, spare, spareCount, usage := rest, map[], seq(NZONES, _ => []), [], 0, map[];
      taken, large, spans := map[], {}, map[];
      owner := Untouched(first, npages, first, TablePages(npages));
      NothingOwned(rest, first, npages, TablePages(npages));
    }

    /** All pages of the heap, less those of the usage table. */
    static method PagesForTable(first: nat, npages: nat) returns (rest: seq<Run>)
      requires npages > 0
      ensures Good(rest) && forall p: nat :: In(rest, p) <==> first + TablePages(npages) <= p < first + npages
      ensures 1 < npages <= 1024 ==> rest == [Run(first + 1, npages - 1)]
    {
      var all := PageFree([], first, npages);
      var table := TablePages(npages);
      assert 0 < table <= npages;
      assert AllIn(all, first, table);
      var found, addr;
      found, addr, rest := PageAlloc(all, table);
      assert In(all, addr) && In(all, addr + table - 1);
    }

    static method SizeForZones(npages: nat) returns (size: nat)
      ensures size == MIN_ZONE || size == 2 * MIN_ZONE || size == MAX_ZONE
      ensures npages <= 1024 ==> size == MIN_ZONE
    {
      size := MIN_ZONE;
      while size < MAX_ZONE && size * 2 < npages * PAGE / 1024
        invariant size == MIN_ZONE || size == 2 * MIN_ZONE || size == MAX_ZONE
        invariant npages <= 1024 ==> size == MIN_ZONE
        decreases MAX_ZONE - size
      {
        size := size * 2;
      }
    }

    // ---------------------------------------------------------- rt_malloc

    /** A chunk out of the first zone of a list that has one. */
    method TakeChunk(zi: nat) returns (r: nat, ghost b: Block)
      requires Valid() && zi < |lists| && lists[zi] != []
      modifies this`zones, this`lists, this`taken
      ensures Valid() && b.SmallBlock? && b.zone == old(lists)[zi][0] && Grows(old(Blocks()), Blocks(), b)
      ensures Live(Blocks(), b) && r == Start(Blocks(), b) && Size(Blocks(), b) == SizeOf(zi)
      ensures lists == if zones[b.zone].nfree == 0 then old(lists)[zi := old(lists)[zi][1..]] else old(lists)
    {
      hide Addr, Shaped, Filled, Owned, Spanned, Recorded, Good, Listed, ZonesOk, OnList, Grows;
      var z: nat := lists[zi][0];
      HeadOf(zi);
      var zone := zones[z];
      var zone';
      ghost var k;
      zone', r, k := NextChunk(z, zone, taken[z], zoneSize);
      b := SmallBlock(z, k);
      ZonesAreSpans();
      ZonesUpdate(zones, taken, zoneSize, z, zone', taken[z] + {k});
      if zone'.nfree == 0 {
        ListedEmpty(zones, lists, spare, zi, zone');
        lists := lists[zi := lists[zi][1..]];
      } else {
        ListedStay(zones, lists, spare, z, zone');
      }
      assert zones[z := zone'].Keys == zones.Keys;
      zones, taken := zones[z := zone'], taken[z := taken[z] + {k}];
      GrowsSmall(old(Blocks()), Blocks(), z, k, zone');
    }

    /** Sets the usage of the pages of a zone. */
    method MarkPages(z: nat, small: bool)
      modifies this`usage
      ensures small ==> forall p | z <= p < z + zonePages :: SmallPage(usage, z, p)
      ensures !small ==> forall p | z <= p < z + zonePages :: UnusedPage(usage, p)
      ensures forall p | p in old(usage) && !(z <= p < z + zonePages) :: p in usage && usage[p] == old(usage)[p]
    {
      var off := 0;
      while off < zonePages
        invariant 0 <= off <= zonePages
        invariant small ==> forall p | z <= p < z + off :: SmallPage(usage, z, p)
        invariant !small ==> forall p | z <= p < z + off :: UnusedPage(usage, p)
        invariant forall p | p in old(usage) && !(z <= p < z + zonePages) :: p in usage && usage[p] == old(usage)[p]
      {
        ghost var before := usage;
        usage := usage[z + off := if small then Usage(Small, off) else Usage(FreePage, 0)];
        off := off + 1;
        forall p | z <= p < z + off
          ensures if small then SmallPage(usage, z, p) else UnusedPage(usage, p)
        {
          assert p < z + off - 1 ==> if small then SmallPage(before, z, p) else UnusedPage(before, p);
        }
      }
    }

    /** Pages for a new zone, if there are enough in a row. */
    method PagesForZone() returns (found: bool, z: nat)
      requires Config() && PagesOk()
      modifies this`runs, this`usage, this`spans, this`owner
      ensures found <==> exists a :: AllIn(old(runs), a, zonePages)
      ensures !found ==> PagesOk() && spans == old(spans) && runs == old(runs)
      ensures found ==> z == FirstFit(old(runs), zonePages) && Leave(old(runs), runs, z, zonePages)
      ensures found ==>
                && z !in old(spans) && z > 0 && spans == old(spans)[z := zonePages]
                && Good(runs) && Owned(owner, runs, spans, first, npages)
      ensures found ==>
                && Spanned(zones.Keys + {z}, large, spans, zonePages)
                && Recorded(usage, zones.Keys + {z}, large, spans, zonePages)
    {
      hide Owned, Good, AllIn, In;
      var rest;
      found, z, rest := PageAlloc(runs, zonePages);
      if found {
        ClaimSpan(owner, runs, rest, spans, first, npages, z, zonePages);
        owner, spans, runs := Claim(owner, z, zonePages, InSpan(z)), spans[z := zonePages], rest;
        SpanPages(owner, runs, spans, first, npages, z);
        assert forall s | s in old(spans) :: s in spans && spans[s] == old(spans)[s];
        MarkPages(z, true);
        RecordedZone(old(usage), usage, zones.Keys, large, old(spans), zonePages, z);
      }
    }

    /** A zone that is not in use: a spare one or new pages. */
    method GetZone() returns (found: bool, z: nat)
      requires Valid()
      modifies this`runs, this`usage, this`spans, this`owner, this`spare, this`spareCount
      ensures found <==> old(spare) != [] || exists a :: AllIn(old(runs), a, zonePages)
      ensures found ==> z == if old(spare) != [] then old(spare)[0] else FirstFit(old(runs), zonePages)
      ensures !found ==> Valid() && spans == old(spans) && runs == old(runs) && spare == old(spare)
      ensures found ==> if old(spare) != [] then runs == old(runs) && spare == old(spare)[1..]
                        else Leave(old(runs), runs, z, zonePages) && spare == []
      ensures found ==>
                && Good(runs) && Owned(owner, runs, spans, first, npages)
                && Spanned(zones.Keys + {z}, large, spans, zonePages)
                && Recorded(usage, zones.Keys + {z}, large, spans, zonePages)
                && Listed(zones - {z}, lists, spare) && spareCount == |spare| && TakenOf(taken, z) == {} && z !in large
                && forall l | l in large :: l in old(spans) && l in spans && spans[l] == old(spans)[l]
    {
      hide Shaped, Filled, Owned, Spanned, Recorded, Good, Listed, ZonesOk, AllIn, Leave;
      ZonesAreSpans();
      if spare != [] {
        found, z := true, spare[0];
        SpareFree(z);
        ListedDrop(zones, lists, spare);
        assert zones.Keys + {z} == zones.Keys;
        spare, spareCount := spare[1..], spareCount - 1;
      } else {
        found, z := PagesForZone();
        if found {
          assert zones - {z} == zones;
        }
      }
    }

    /** A new zone for a list, with its first chunk taken. */
    method NewZone(zi: nat, chunk: nat) returns (r: nat, ghost b: Block)
      requires Valid() && zi < NZONES && chunk == SizeOf(zi) && 4 * chunk <= zoneSize
      modifies this
      ensures Valid()
      ensures b.NoBlock? <==> old(spare) == [] && !exists a :: AllIn(old(runs), a, zonePages)
      ensures b.NoBlock? ==> r == NULL && Blocks() == old(Blocks()) && runs == old(runs) && spare == old(spare)
      ensures !b.NoBlock? ==> if old(spare) != [] then runs == old(runs) && spare == old(spare)[1..]
                              else b.SmallBlock? && Leave(old(runs), runs, b.zone, zonePages) && spare == []
      ensures !b.NoBlock? ==> Grows(old(Blocks()), Blocks(), b)
      ensures !b.NoBlock? ==> Live(Blocks(), b) && r == Start(Blocks(), b) && Size(Blocks(), b) == chunk
      ensures !b.NoBlock? ==> b.SmallBlock? && b.zone == if old(spare) != [] then old(spare)[0]
                                                         else FirstFit(old(runs), zonePages)
    {
      hide Addr, Shaped, Filled, Owned, Spanned, Recorded, Good, Listed, ZonesOk, OnList, SizeOf, AllIn, Grows, Leave;
      var found, z := GetZone();
      if !found {
        return NULL, NoBlock;
      }
      ghost var before := old(Blocks());
      r, b := OpenZone(z, zi, chunk, before);
    }

    /** The zone at `z` is set up for a list, with its first chunk taken. */
    method OpenZone(z: nat, zi: nat, chunk: nat, ghost before: View) returns (r: nat, ghost b: Block)
      requires Config() && zi < NZONES && chunk == SizeOf(zi) && 4 * chunk <= zoneSize
      requires ZonesOk(zones, taken, zoneSize)
      requires Good(runs) && Owned(owner, runs, spans, first, npages)
               && Spanned(zones.Keys + {z}, large, spans, zonePages)
               && Recorded(usage, zones.Keys + {z}, large, spans, zonePages)
      requires Listed(zones - {z}, lists, spare) && spareCount == |spare| && TakenOf(taken, z) == {} && z !in large
      requires before == View(zones, taken, large, before.spans)
      requires forall l | l in large :: l in before.spans && l in spans && spans[l] == before.spans[l]
      modifies this`lists, this`zones, this`taken
      ensures Valid() && b == SmallBlock(z, 0) && Grows(before, Blocks(), b)
      ensures Live(Blocks(), b) && r == Start(Blocks(), b) && Size(Blocks(), b) == chunk
      ensures zi < |old(lists)| && lists == old(lists)[zi := [z] + old(lists)[zi]]
    {
      hide Addr, Shaped, Filled, Owned, Spanned, Recorded, Good, Listed, ZonesOk, OnList, SizeOf, AllIn, Grows, Leave;
      FreshOk(z, zoneSize, zi, chunk);
      var zone := Fresh(zoneSize, zi, chunk);
      SizeOfLists(zones - {z}, lists, spare);
      ListedNew(zones - {z}, lists, spare, z, zone);
      TakenKeys();
      ZonesUpdate(zones, taken, zoneSize, z, zone, {0});
      assert (zones - {z})[z := zone] == zones[z := zone];
      assert zones[z := zone].Keys == zones.Keys + {z};
      lists := lists[zi := [z] + lists[zi]];
      zones, taken := zones[z := zone], taken[z := {0}];
      r, b := z * PAGE + zone.base + zone.uindex * zone.chunk, SmallBlock(z, 0);
      AddrIs(z, zone, zone, 0);
      GrowsSmall(before, Blocks(), z, 0, zone);
    }

    lemma TakenKeys()
      requires ZonesOk(zones, taken, zoneSize)
      ensures taken.Keys == zones.Keys
    {
    }

    /** The large half of rt_malloc: whole pages. */
    method MallocLarge(size: H.Size) returns (r: nat, ghost b: Block)
      requires Valid() && size > 0
      modifies this`runs, this`usage, this`spans, this`owner, this`large
      ensures Valid()
      ensures b.NoBlock? <==> Pages(size) == 0 || !exists a :: AllIn(old(runs), a, Pages(size))
      ensures b.NoBlock? ==> r == NULL && Blocks() == old(Blocks()) && runs == old(runs)
      ensures !b.NoBlock? ==> Grows(old(Blocks()), Blocks(), b)
      ensures !b.NoBlock? ==>
                && Live(Blocks(), b) && r == Start(Blocks(), b) && Size(Blocks(), b) == Pages(size) * PAGE >= size
                && b.LargeBlock? && Leave(old(runs), runs, b.page, Pages(size))
      ensures !b.NoBlock? ==> r == FirstFit(old(runs), Pages(size)) * PAGE
    {
      hide Owned, Good, AllIn, In, Grows, ZonesOk, Listed, RoundUp, Spanned, Recorded, Claim, Pages;
      var n := Pages(size);
      PagesCover(size);
      var found, l, rest := PageAlloc(runs, n);
      if !found {
        return NULL, NoBlock;
      }
      ClaimSpan(owner, runs, rest, spans, first, npages, l, n);
      owner, spans, runs := Claim(owner, l, n, InSpan(l)), spans[l := n], rest;
      SpanPages(owner, runs, spans, first, npages, l);
      assert forall s | s in old(spans) :: s in spans && spans[s] == old(spans)[s];
      RecordedLarge(usage, zones.Keys, large, old(spans), zonePages, l, n);
      usage := usage[l := Usage(Large, n)];
      large := large + {l};
      GrowsLarge(old(Blocks()), Blocks(), l, n);
      r, b := l * PAGE, LargeBlock(l);
    }

    /** The zone or page that serves the next request of `size` bytes. */
    ghost function PageFor(size: H.Size): nat
      requires size > 0
      reads this
    {
      var zi := ZoneIndex(size).0;
      if size >= zoneLimit then FirstFit(runs, Pages(size))
      else if zi < |lists| && lists[zi] != [] then lists[zi][0]
      else if spare != [] then spare[0]
      else FirstFit(runs, zonePages)
    }

    /**
     rt_malloc.  It fails exactly if the request is empty, or if its list and the
     spare zones are empty and there are not enough free pages in a row; what it
     hands out is no block that anybody has.  A request for a power of two is
     aligned to it exactly if it is no larger than a page or the zone or page that
     serves it is.
     */
    method Malloc(size: H.Size) returns (r: nat, ghost b: Block)
      requires Valid()
      modifies this
      ensures Valid() && (r == NULL <==> b.NoBlock?)
      ensures b.NoBlock? <==>
                || size == 0
                || (size >= zoneLimit && (Pages(size) == 0 || !exists a :: AllIn(old(runs), a, Pages(size))))
                || (0 < size < zoneLimit && ZoneIndex(size).0 < |old(lists)|
                    && old(lists)[ZoneIndex(size).0] == [] && old(spare) == []
                    && !exists a :: AllIn(old(runs), a, zonePages))
      ensures b.NoBlock? ==> Blocks() == old(Blocks()) && runs == old(runs) && spare == old(spare)
      ensures !b.NoBlock? ==> Grows(old(Blocks()), Blocks(), b)
      ensures !b.NoBlock? ==> Live(Blocks(), b) && r == Start(Blocks(), b) && Size(Blocks(), b) >= size
      ensures !b.NoBlock? && size >= zoneLimit ==>
                && b.LargeBlock? && Size(Blocks(), b) == Pages(size) * PAGE && spare == old(spare)
                && Leave(old(runs), runs, b.page, Pages(size))
      ensures !b.NoBlock? && 0 < size < zoneLimit ==>
                && b.SmallBlock? && Size(Blocks(), b) == ZoneIndex(size).1 && ZoneIndex(size).0 < |old(lists)|
                && if old(lists)[ZoneIndex(size).0] != [] then runs == old(runs) && spare == old(spare)
                   else if old(spare) != [] then runs == old(runs) && spare == old(spare)[1..]
                   else Leave(old(runs), runs, b.zone, zonePages) && spare == []
      ensures size > 0 && !b.NoBlock? && PowerOfTwo(size) ==>
                (r % size == 0 <==> size <= PAGE || old(PageFor(size)) * PAGE % size == 0)
    {
      hide Owned, Good, AllIn, In, Grows, ZonesOk, Listed, RoundUp, Spanned, Recorded, Start, Size, Live, ZoneIndex,
           PowerOfTwo, Pages, Leave;
      if size == 0 {
        return NULL, NoBlock;
      }
      if size >= zoneLimit {
        r, b := MallocLarge(size);
        LimitAbovePage();
      } else {
        Classes(size);
        ChunkBelow(size, zoneLimit);
        var (zi, chunk) := ZoneIndex(size);
        SizeOfLists(zones, lists, spare);
        if lists[zi] != [] {
          r, b := TakeChunk(zi);
        } else {
          r, b := NewZone(zi, chunk);
        }
        if !b.NoBlock? && PowerOfTwo(size) {
          ChunkPlaced(b, size);
        }
      }
      if !b.NoBlock? {
        NotNull(b);
      }
    }

    lemma LimitAbovePage()
      requires Config()
      ensures zoneLimit > PAGE
    {
    }

    /** When a chunk for a power of two is aligned to it. */
    lemma ChunkPlaced(b: Block, size: nat)
      requires Valid() && Live(Blocks(), b) && b.SmallBlock? && 0 < size < zoneLimit && PowerOfTwo(size)
      requires Size(Blocks(), b) == ZoneIndex(size).1
      ensures Start(Blocks(), b) % size == 0 <==> size <= PAGE || b.zone * PAGE % size == 0
    {
      hide Listed, Owned, Good, Recorded, Spanned, Shaped, Filled, PowerOfTwo, Addr, ZoneIndex;
      var z, k := b.zone, b.k;
      PowerClass(size);
      if size < MIN_CHUNK {
        PowerOfEight();
        SmallAligned(z, zones[z], zoneSize, k);
        Divides(Addr(z, zones[z], k), MIN_CHUNK, size);
      } else if size <= PAGE {
        SmallAligned(z, zones[z], zoneSize, k);
      } else {
        ChunkAligned(z, zones[z], zoneSize, k);
      }
    }

    /** No block lies at address zero. */
    lemma NotNull(b: Block)
      requires Valid() && Live(Blocks(), b)
      ensures Start(Blocks(), b) > 0
    {
      hide ZonesOk, Listed, Owned, Good, Recorded;
      var s := Inside(b);
    }

    /** Every block lies in the span of pages that it belongs to. */
    lemma Inside(b: Block) returns (s: nat)
      requires Valid() && Live(Blocks(), b)
      ensures s in spans && s == (if b.SmallBlock? then b.zone else b.page)
      ensures s * PAGE <= Start(Blocks(), b) && Start(Blocks(), b) + Size(Blocks(), b) <= (s + spans[s]) * PAGE
      ensures first <= s && s + spans[s] <= first + npages && Size(Blocks(), b) > 0
    {
      hide Listed, Owned, Good, Recorded, Shaped, Filled, Addr, In;
      match b
      case SmallBlock(z, k) =>
        s := z;
        TakenBelow(z, zones[z], taken[z], k);
        ShapedChunk(zones[z], zoneSize);
        ChunkInside(z, zones[z], zoneSize, k);
        SpanPages(owner, runs, spans, first, npages, s);
        assert zoneSize == zonePages * PAGE;
      case LargeBlock(l) =>
        s := l;
        SpanPages(owner, runs, spans, first, npages, s);
        SpanPositive(owner, runs, spans, first, npages, s);
    }

    /**
     In every state: blocks that callers have, chunks and large ones alike, lie in
     the heap, and no two of them share a byte.
     */
    lemma BlocksApart(b: Block, c: Block)
      requires Valid() && Live(Blocks(), b) && Live(Blocks(), c) && b != c
      ensures first * PAGE <= Start(Blocks(), b) && Start(Blocks(), b) + Size(Blocks(), b) <= (first + npages) * PAGE
      ensures || Start(Blocks(), b) + Size(Blocks(), b) <= Start(Blocks(), c)
              || Start(Blocks(), c) + Size(Blocks(), c) <= Start(Blocks(), b)
    {
      hide Listed, Owned, Good, Recorded, Shaped, Filled, Addr, In;
      var s := Inside(b);
      var t := Inside(c);
      if s == t {
        assert b.SmallBlock? && c.SmallBlock? && b.zone == c.zone;
        if b.k < c.k {
          ChunksApart(s, zones[s], b.k, c.k);
        } else {
          ChunksApart(s, zones[s], c.k, b.k);
        }
      } else {
        SpanPages(owner, runs, spans, first, npages, s);
        assert t + spans[t] <= s || s + spans[s] <= t;
      }
    }

    // ---------------------------------------------------------- rt_free

    /** What the usage table says about the page of a block. */
    lemma PageOf(b: Block)
      requires Valid() && Live(Blocks(), b)
      ensures var p := Start(Blocks(), b) / PAGE;
              && p in usage
              && (b.SmallBlock? ==> usage[p].kind == Small && usage[p].size <= p && p - usage[p].size == b.zone)
              && (b.LargeBlock? ==> p == b.page && usage[p] == Usage(Large, spans[p]))
    {
      hide Listed, Owned, Good, Shaped, Filled, Addr, In;
      match b
      case SmallBlock(z, k) =>
        TakenBelow(z, zones[z], taken[z], k);
        PageOfChunk(z, zones[z], zoneSize, k);
        assert SmallPage(usage, z, Addr(z, zones[z], k) / PAGE);
      case LargeBlock(l) =>
    }

    /** rt_free: undoes rt_malloc for the block at `ptr`. */
    method Free(ptr: nat, ghost b: Block)
      requires Valid() && (ptr != NULL ==> Live(Blocks(), b) && Start(Blocks(), b) == ptr)
      modifies this
      ensures Valid()
      ensures if ptr == NULL then Blocks() == old(Blocks()) && runs == old(runs) && spare == old(spare)
              else Grows(Blocks(), old(Blocks()), b)
      ensures ptr != NULL && b.LargeBlock? ==> spare == old(spare) && Leave(runs, old(runs), b.page, old(spans[b.page]))
      ensures ptr != NULL && b.SmallBlock? ==>
                if !old(Retires(b.zone)) then runs == old(runs) && spare == old(spare)
                else if old(|spare|) < RELEASE_THRESH then runs == old(runs) && spare == [b.zone] + old(spare)
                else Leave(runs, old(runs), b.zone, zonePages) && spare == old(spare)
    {
      hide Owned, Good, In, Grows, ZonesOk, Listed, Spanned, Recorded, Start, Leave, Retires;
      if ptr == NULL {
        return;
      }
      PageOf(b);
      var page := ptr / PAGE;
      var kup := usage[page];
      if kup.kind == Large {
        FreeLarge(page, kup.size);
      } else {
        StartIs(b);
        FreeChunk(page - kup.size, ptr, b.k);
      }
    }

    lemma StartIs(b: Block)
      requires Live(Blocks(), b) && b.SmallBlock?
      ensures Start(Blocks(), b) == Addr(b.zone, zones[b.zone], b.k)
    {
    }

    /** With one more free chunk zone `z` is empty, and it is not alone in its list. */
    ghost predicate Retires(z: nat)
      reads this
    {
      && z in zones && zones[z].nfree + 1 == zones[z].nmax && zones[z].index < |lists|
      && lists[zones[z].index] != if zones[z].nfree == 0 then [] else [z]
    }

    method FreeLarge(l: nat, n: nat)
      requires Valid() && l in large && l in spans && l in usage && n == spans[l]
      modifies this`runs, this`usage, this`spans, this`owner, this`large
      ensures Valid() && Grows(Blocks(), old(Blocks()), LargeBlock(l)) && Leave(runs, old(runs), l, n)
    {
      hide Owned, Good, In, Grows, ZonesOk, Listed, Spanned, Recorded, Claim, Leave;
      SpanPages(owner, runs, spans, first, npages, l);
      SpanPositive(owner, runs, spans, first, npages, l);
      UnrecordedLarge(usage, usage[l].(size := 0), zones.Keys, large, spans, zonePages, l);
      usage := usage[l := usage[l].(size := 0)];
      var back := PageFree(runs, l, n);
      PagesBack(runs, back, l, n);
      ReleaseSpan(owner, runs, back, spans, first, npages, l);
      owner, spans, large, runs := Claim(owner, l, n, Unused), spans - {l}, large - {l}, back;
      assert old(spans) == spans[l := n] && old(large) == large + {l};
      GrowsLarge(Blocks(), old(Blocks()), l, n);
    }

    /** A chunk goes back to its zone; an empty zone is put aside if its list has another one. */
    method FreeChunk(z: nat, ptr: nat, ghost k: nat)
      requires Valid() && z in zones && k in TakenOf(taken, z) && ptr == Addr(z, zones[z], k)
      modifies this
      ensures Valid() && Grows(Blocks(), old(Blocks()), SmallBlock(z, k))
      ensures if !old(Retires(z)) then runs == old(runs) && spare == old(spare)
              else if old(|spare|) < RELEASE_THRESH then runs == old(runs) && spare == [z] + old(spare)
              else Leave(runs, old(runs), z, zonePages) && spare == old(spare)
    {
      hide Owned, Good, In, Grows, ZonesOk, Listed, Spanned, Recorded, Shaped, Filled, Addr, Leave;
      SizeOfLists(zones, lists, spare);
      GiveBack(z, ptr, k);
      SizeOfLists(zones, lists, spare);
      var zone := zones[z];
      ghost var given := Blocks();
      assert old(lists)[zone.index] == [] ==> [z] + old(lists)[zone.index] == [z];
      if zone.nfree == zone.nmax && lists[zone.index] != [z] {
        Retire(z);
        GrowsSame(Blocks(), given, old(Blocks()), SmallBlock(z, k));
      }
    }

    /** The chunk joins the free list of its zone; a zone that was full comes back to its list. */
    method GiveBack(z: nat, ptr: nat, ghost k: nat)
      requires Valid() && z in zones && k in TakenOf(taken, z) && ptr == Addr(z, zones[z], k)
      modifies this`zones, this`lists, this`taken
      ensures Valid() && Grows(Blocks(), old(Blocks()), SmallBlock(z, k)) && zones.Keys == old(zones.Keys)
      ensures z in zones && z !in spare && zones[z].nfree > 0 && zones[z].index < |lists|
      ensures zones == old(zones)[z := zones[z]] && taken == old(taken)[z := old(taken)[z] - {k}]
      ensures zones[z].base == old(zones[z].base) && zones[z].chunk == old(zones[z].chunk)
      ensures zones[z].nfree == old(zones[z].nfree) + 1 && zones[z].nmax == old(zones[z].nmax)
              && zones[z].index == old(zones[z].index)
      ensures lists == if old(zones[z].nfree) > 0 then old(lists)
                       else old(lists)[zones[z].index := [z] + old(lists)[zones[z].index]]
    {
      hide Owned, Good, In, Grows, ZonesOk, Listed, Spanned, Recorded, Shaped, Filled, Addr;
      InUse(z, k);
      ZonesAreSpans();
      var zone := zones[z];
      ghost var t: set<nat> := taken[z] - {k};
      var zone' := ReturnChunk(z, zone, ptr, taken[z], k, zoneSize);
      ZonesUpdate(zones, taken, zoneSize, z, zone', t);
      if zone.nfree == 0 {
        ListedBack(zones, lists, spare, z, zone');
        lists := lists[zone.index := [z] + lists[zone.index]];
      } else {
        ListedStay(zones, lists, spare, z, zone');
      }
      assert zones[z := zone'].Keys == zones.Keys;
      Returns(Blocks(), z, k, zone');
      zones, taken := zones[z := zone'], taken[z := t];
    }

    /** An empty zone is put aside; beyond the threshold its pages are given back. */
    method Retire(z: nat)
      requires Valid() && z in zones && z !in spare && zones[z].nfree == zones[z].nmax && zones[z].index < |lists|
      modifies this
      ensures Valid() && SameBlocks(old(Blocks()), Blocks())
      ensures var i := old(zones[z].index); lists == old(lists)[i := Without(old(lists)[i], z)]
      ensures if old(|spare|) < RELEASE_THRESH then runs == old(runs) && spare == [z] + old(spare)
              else Leave(runs, old(runs), z, zonePages) && spare == old(spare)
    {
      hide Owned, Good, In, ZonesOk, Listed, Spanned, Recorded, Shaped, Filled, Addr, Without, Distinct, Leave;
      var i := zones[z].index;
      EmptyZone(z);
      var rest := Unchain(lists[i], z);
      ListedSpare(zones, lists, spare, z);
      lists, spare, spareCount := lists[i := rest], [z] + spare, spareCount + 1;
      if spareCount > RELEASE_THRESH {
        ReleaseSpare();
      }
    }

    /** An empty zone is on its list. */
    lemma EmptyZone(z: nat)
      requires Valid() && z in zones && z !in spare && zones[z].nfree == zones[z].nmax && zones[z].index < |lists|
      ensures z in lists[zones[z].index] && Distinct(lists[zones[z].index])
    {
      hide Owned, Good, In, Spanned, Recorded, Addr, Filled, Distinct;
    }

    /** The first spare zone goes back to the pages. */
    method ReleaseSpare()
      requires Valid() && spare != []
      modifies this
      ensures Valid() && SameBlocks(old(Blocks()), Blocks()) && lists == old(lists)
      ensures spare == old(spare)[1..] && Leave(runs, old(runs), old(spare)[0], zonePages)
    {
      hide Owned, Good, In, ZonesOk, Listed, Spanned, Recorded, SameBlocks, Leave;
      var z: nat := spare[0];
      SpareFree(z);
      ZonesAreSpans();
      ListedDrop(zones, lists, spare);
      ZonesDrop(zones, taken, zoneSize, z);
      spare, spareCount := spare[1..], spareCount - 1;
      GiveUpPages(z);
      assert (zones - {z}).Keys == zones.Keys - {z};
      zones, taken := zones - {z}, taken - {z};
      Dropped(old(Blocks()), Blocks(), z);
    }

    /** The pages of a zone become free. */
    method GiveUpPages(z: nat)
      requires Config() && PagesOk() && z in zones
      modifies this`usage, this`runs, this`owner, this`spans
      ensures Good(runs) && Owned(owner, runs, spans, first, npages) && spans == old(spans) - {z}
              && Leave(runs, old(runs), z, zonePages)
      ensures forall p | z <= p < z + zonePages :: UnusedPage(usage, p)
      ensures Spanned(zones.Keys - {z}, large, spans, zonePages)
              && Recorded(usage, zones.Keys - {z}, large, spans, zonePages)
    {
      hide Owned, Good, In, Spanned, Recorded, Claim, Leave;
      ZoneSpan(z);
      SpanPages(owner, runs, spans, first, npages, z);
      MarkPages(z, false);
      UnrecordedZone(old(usage), usage, zones.Keys, large, spans, zonePages, z);
      var back := PageFree(runs, z, zonePages);
      PagesBack(runs, back, z, zonePages);
      ReleaseSpan(owner, runs, back, spans, first, npages, z);
      owner, spans, runs := Claim(owner, z, zonePages, Unused), spans - {z}, back;
    }

    lemma ZoneSpan(z: nat)
      requires Config() && PagesOk() && z in zones
      ensures z in spans && spans[z] == zonePages > 0
    {
      hide Owned, Good, In, ZonesOk, Listed, Recorded;
    }

    /** A zone with a taken chunk is not spare. */
    lemma InUse(z: nat, k: nat)
      requires Valid() && z in zones && k in TakenOf(taken, z)
      ensures z in taken && z !in spare && Shaped(zones[z], zoneSize) && zones[z].chunk > 0
              && Filled(z, zones[z], taken[z])
      ensures |lists| == NZONES && zones[z].nfree >= 0
    {
      hide Owned, Good, In, Spanned, Recorded, Addr;
      Count(z, zones[z], taken[z]);
    }

    /** A spare zone has no chunk taken. */
    lemma SpareFree(z: nat)
      requires Valid() && z in spare
      ensures z in zones && TakenOf(taken, z) == {}
    {
      hide Shaped, Filled, Owned, Spanned, Recorded, Good;
      Count(z, zones[z], taken[z]);
    }

    /** What is not a span of pages is not a zone. */
    lemma ZonesAreSpans()
      requires ZonesOk(zones, taken, zoneSize) && Spanned(zones.Keys, large, spans, zonePages)
      ensures taken.Keys == zones.Keys && zones.Keys !! large && large <= spans.Keys
      ensures forall z: nat | z !in spans :: z !in zones && z !in large && TakenOf(taken, z) == {}
    {
    }

    lemma HeadOf(zi: nat)
      requires Valid() && zi < |lists| && lists[zi] != []
      ensures var z := lists[zi][0];
              && z in zones && z in taken && zones[z].index == zi && zones[z].nfree > 0 && z !in spare
              && Shaped(zones[z], zoneSize) && Filled(z, zones[z], taken[z])
    {
      hide Shaped, Filled, Owned, Spanned, Recorded, Good;
      assert lists[zi][0] in lists[zi];
    }
  }

  lemma AddrIs(z: nat, zone: Zone, zone': Zone, k: nat)
    requires zone'.chunk == zone.chunk && zone'.base == zone.base
    ensures Addr(z, zone', k) == Addr(z, zone, k) == z * PAGE + zone.base + k * zone.chunk
  {
  }

  lemma SameShape(zone: Zone, zone': Zone, zoneSize: nat)
    requires Shaped(zone, zoneSize) && zone'.chunk == zone.chunk && zone'.base == zone.base && zone'.nmax == zone.nmax
             && zone'.index == zone.index
    ensures Shaped(zone', zoneSize)
  {
  }

  lemma SizeOfLists(zones: Zones, lists: seq<seq<nat>>, spare: seq<nat>)
    requires Listed(zones, lists, spare)
    ensures |lists| == NZONES
  {
  }

  lemma TakenBelow(z: nat, zone: Zone, taken: set<nat>, k: nat)
    requires Filled(z, zone, taken) && k in taken
    ensures k < zone.nmax
  {
  }

  lemma SpanPositive(owner: map<nat, Owner>, runs: seq<Run>, spans: map<nat, nat>, first: nat, npages: nat, s: nat)
    requires Owned(owner, runs, spans, first, npages) && s in spans
    ensures spans[s] > 0
  {
  }

  lemma NotFull(z: nat, zone: Zone, taken: set<nat>)
    requires Filled(z, zone, taken) && zone.uindex + 1 != zone.nmax
    ensures zone.uindex + 1 < zone.nmax
  {
  }

  /** A new heap hands out 8192 bytes at an odd page. */
  method Misaligned() returns (heap: Allocator, r: nat, ghost b: Block)
    ensures heap.Valid() && PowerOfTwo(8192) && Live(heap.Blocks(), b) && Start(heap.Blocks(), b) == r && r % 8192 != 0
  {
    hide Owned, Good, In, Grows, ZonesOk, Listed, RoundUp, Spanned, Recorded;
    heap := new Allocator(2, 100);
    PageIsPower();
    assert PowerOfTwo(8192) by { assert 8192 / 2 == PAGE; }
    RoundUpSame(8192, PAGE);
    assert Pages(8192) == 2;
    SomeRun(heap.runs, 2);
    assert heap.runs[0] in heap.runs;
    r, b := heap.Malloc(8192);
  }
}
