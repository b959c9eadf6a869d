/**
 The memheap allocator: headers inside the pool, chained in a circle by address
 and, when free, in a second circle.  It is proved against the plain picture of
 blocks that tile the pool.
 */
module MemHeap {
  import opened Bytes
  import opened HeapBlocks
  import Rings
  import Seqs

  const HEADER := 24
  const MINI_ALLOC := 12

  /** The head of the free list lies outside of the pool. */
  const FREE_LIST := 0

  /** The size that is set aside for a request. */
  function Request(size: Size): Size
  {
    if AlignUp(size) < MINI_ALLOC then MINI_ALLOC else AlignUp(size)
  }

  /** What a free block becomes when `want` bytes of it are handed out. */
  ghost function Served(x: Block, want: nat): (r: seq<Block>)
    ensures r != []
  {
    if x.size >= want + HEADER + MINI_ALLOC then
      [Block(x.addr, want, true), Block(x.addr + want + HEADER, x.size - want - HEADER, false)]
    else [x.(used := true)]
  }

  ghost predicate Aligned(blocks: seq<Block>)
  {
    forall b | b in blocks :: b.addr % ALIGN == 0
  }

  /** Blocks over the whole pool; the last one is an empty block in use. */
  ghost predicate Layout(blocks: seq<Block>, start: nat, poolSize: nat)
  {
    && |blocks| >= 2 && Tiles(blocks, start, HEADER) && Extent(blocks, HEADER) == poolSize
    && blocks[|blocks| - 1].used && blocks[|blocks| - 1].size == 0
  }

  /** The headers say which blocks are in use. */
  ghost predicate Marks(used: map<nat, bool>, blocks: seq<Block>)
  {
    forall b | b in blocks :: b.addr in used && used[b.addr] == b.used
  }

  /** Exchanging blocks on a stretch before the last block. */
  ghost predicate Exchange(blocks: seq<Block>, i: nat, j: nat, mid: seq<Block>)
  {
    && i < j < |blocks| && mid != [] && NoTwoFree(mid)
    && Tiles(mid, blocks[i].addr, HEADER) && Extent(mid, HEADER) == Extent(blocks[i..j], HEADER)
    && (i == 0 || blocks[i - 1].used || mid[0].used) && (blocks[j].used || mid[|mid| - 1].used)
  }

  /** The new blocks are marked right, and of the others only old ones are marked anew. */
  ghost predicate Remarked(used: map<nat, bool>, used': map<nat, bool>, gone: seq<Block>, mid: seq<Block>)
  {
    && Marks(used', mid)
    && forall a | a in used && a !in Addrs(mid) && a !in Addrs(gone) :: a in used' && used'[a] == used[a]
  }

  lemma Exchanged(blocks: seq<Block>, i: nat, j: nat, mid: seq<Block>, start: nat, poolSize: nat, used: map<nat, bool>,
                  used': map<nat, bool>)
    requires Layout(blocks, start, poolSize) && NoTwoFree(blocks) && Marks(used, blocks)
    requires Exchange(blocks, i, j, mid) && Remarked(used, used', blocks[i..j], mid)
    ensures var r := Replace(blocks, i, j, mid);
            && Layout(r, start, poolSize) && NoTwoFree(r) && Marks(used', r)
            && SumFree(r) == SumFree(blocks) - SumFree(blocks[i..j]) + SumFree(mid)
            && Live(r) == Live(blocks) - Live(blocks[i..j]) + Live(mid)
            && FreeAddrs(r) == FreeAddrs(blocks) - FreeAddrs(blocks[i..j]) + FreeAddrs(mid)
  {
    hide Tiles, Extent, SumFree, Live, FreeAddrs, NoTwoFree, Marks, Remarked;
    var r := Replace(blocks, i, j, mid);
    ReplaceTiles(blocks, start, HEADER, i, j, mid);
    ReplaceSets(blocks, start, HEADER, i, j, mid);
    ReplaceNoTwoFree(blocks, i, j, mid);
    assert r[|r| - 1] == blocks[|blocks| - 1];
    ExchangedMarks(blocks, i, j, mid, start, used, used');
  }

  lemma ExchangedMarks(blocks: seq<Block>, i: nat, j: nat, mid: seq<Block>, start: nat, used: map<nat, bool>,
                       used': map<nat, bool>)
    requires i < j <= |blocks| && Marks(used, blocks) && Remarked(used, used', blocks[i..j], mid) && mid != []
    requires Tiles(blocks, start, HEADER) && Tiles(Replace(blocks, i, j, mid), start, HEADER)
    ensures Marks(used', Replace(blocks, i, j, mid))
  {
    hide Tiles;
    var r := Replace(blocks, i, j, mid);
    var n := i + |mid|;
    assert r[..i] == blocks[..i] && r[i..n] == mid && r[n..] == blocks[j..];
    Apart(r, start, HEADER, i, n);
    Apart(blocks, start, HEADER, i, j);
    forall b | b in r
      ensures b.addr in used' && used'[b.addr] == b.used
    {
      if b !in mid {
        assert b in blocks[..i] || b in blocks[j..];
        assert b in blocks;
        assert b.addr !in Addrs(mid) && b.addr !in Addrs(blocks[i..j]);
      }
    }
  }

  // ------------------------------------------------------------ the chain of addresses

  lemma AddrsSplit(blocks: seq<Block>, i: nat, a: Block, b: Block)
    requires i < |blocks| && a.addr == blocks[i].addr
    ensures Addrs(Replace(blocks, i, i + 1, [a, b])) == Rings.Grown(Addrs(blocks), i, b.addr)
  {
  }

  lemma AddrsKept(blocks: seq<Block>, i: nat, a: Block)
    requires i < |blocks| && a.addr == blocks[i].addr
    ensures Addrs(Replace(blocks, i, i + 1, [a])) == Addrs(blocks)
  {
  }

  /** The block at `a` cannot take `size` bytes. */
  ghost predicate TooSmall(blocks: seq<Block>, a: nat, size: nat)
  {
    forall b | b in blocks && b.addr == a :: b.size < size
  }

  /** `a` is the first in the free list that can take `size` bytes. */
  ghost predicate FirstFree(blocks: seq<Block>, free: seq<nat>, size: nat, a: nat)
  {
    exists k :: 0 <= k < |free| && free[k] == a && forall x | x in free[..k] :: TooSmall(blocks, x, size)
  }

  /** A block handed out of the first in the free list that can take `want` bytes. */
  ghost predicate IsFirstFit(blocks: seq<Block>, free: seq<nat>, want: nat, b: Block)
  {
    b.used && want <= b.size < want + HEADER + MINI_ALLOC && FirstFree(blocks, free, want, b.addr)
  }

  /** The request is not smaller than all free bytes together, or no single free block can take it. */
  ghost predicate NoSpace(blocks: seq<Block>, available: nat, want: nat)
  {
    want >= available || forall x | x in blocks && !x.used :: x.size < want
  }

  class Heap {
    const start: nat
    const poolSize: nat
    const bytes: array<Byte>
    var next: Rings.Links
    var prev: Rings.Links
    var nextFree: Rings.Links
    var prevFree: Rings.Links
    var used: map<nat, bool>
    var available: nat
    var maxUsed: nat
    /** The blocks in order of address, and the free list in its own order. */
    ghost var blocks: seq<Block>
    ghost var free: seq<nat>

    ghost predicate FreeRing()
      reads this
    {
      Rings.Ring(nextFree, prevFree, [FREE_LIST] + free)
    }

    ghost predicate Valid()
      reads this
    {
      && start > FREE_LIST && start + poolSize <= WORD && bytes.Length == poolSize
      && Layout(blocks, start, poolSize) && NoTwoFree(blocks)
      && Rings.Ring(next, prev, Addrs(blocks)) && Marks(used, blocks)
      && FreeRing() && (forall a :: a in free <==> a in FreeAddrs(blocks))
      && available == SumFree(blocks) && poolSize - available <= maxUsed
    }

    /** No blocks tile the pool along the chain of headers. */
    ghost predicate Broken()
      reads this
    {
      forall bs: seq<Block> :: Layout(bs, start, poolSize) ==> !Rings.Ring(next, prev, Addrs(bs))
    }

    /** rt_memheap_init. */
    constructor (start: nat, size: nat)
      requires start > FREE_LIST && start + size <= WORD && size / ALIGN * ALIGN >= 2 * HEADER
      ensures Valid() && this.start == start && poolSize == size / ALIGN * ALIGN && fresh(bytes)
      ensures blocks == [Block(start, poolSize - 2 * HEADER, false), Block(start + poolSize - HEADER, 0, true)]
      ensures available == poolSize - 2 * HEADER
    {
      var pool := size / ALIGN * ALIGN;
      this.start, poolSize := start, pool;
      bytes := new Byte[pool];
      available, maxUsed := pool - 2 * HEADER, 2 * HEADER;
      var tail := start + pool - HEADER;
      next, prev := map[start := tail, tail := start], map[start := tail, tail := start];
      nextFree, prevFree := map[FREE_LIST := start, start := FREE_LIST], map[FREE_LIST := start, start := FREE_LIST];
      used := map[start := false, tail := true];
      blocks := [Block(start, pool - 2 * HEADER, false), Block(tail, 0, true)];
      free := [start];
      new;
      One(blocks[0], HEADER);
      One(blocks[1], HEADER);
      Two(blocks[0], blocks[1], HEADER);
      assert Rings.StepAt(next, prev, Addrs(blocks), 0) && Rings.StepAt(next, prev, Addrs(blocks), 1);
      assert Rings.StepAt(nextFree, prevFree, [FREE_LIST] + free, 0)
             && Rings.StepAt(nextFree, prevFree, [FREE_LIST] + free, 1);
    }

    /** Takes a block out of the free list. */
    method Unfree(a: nat)
      requires FreeRing() && a in free
      modifies this`nextFree, this`prevFree, this`free
      ensures FreeRing() && free == Seqs.Without(old(free), a)
      ensures forall x :: x in free <==> x in old(free) && x != a
    {
      hide Rings.Ring, Seqs.Without;
      ghost var ring := [FREE_LIST] + free;
      ghost var k :| 0 <= k < |free| && free[k] == a;
      Rings.Remove(nextFree, prevFree, ring, k + 1);
      RingDistinct(free);
      nextFree, prevFree := Rings.RemoveNext(nextFree, prevFree, a), Rings.RemovePrev(nextFree, prevFree, a);
      OutOf(free, k);
      free := free[..k] + free[k + 1..];
    }

    /** Taking element `k` out of the free list, with and without its head. */
    lemma OutOf(free: seq<nat>, k: nat)
      requires k < |free| && Seqs.Distinct([FREE_LIST] + free)
      ensures free[..k] + free[k + 1..] == Seqs.Without(free, free[k])
      ensures [FREE_LIST] + (free[..k] + free[k + 1..]) == Rings.Shrunk([FREE_LIST] + free, k + 1)
      ensures forall x :: x in free[..k] + free[k + 1..] <==> x in free && x != free[k]
    {
      var ring := [FREE_LIST] + free;
      assert ring[1..] == free;
      Seqs.DistinctTail(ring);
      Seqs.WithoutAt(free, k);
      Seqs.WithoutMembers(free, free[k]);
    }

    lemma RingDistinct(free: seq<nat>)
      requires Rings.Ring(nextFree, prevFree, [FREE_LIST] + free)
      ensures Seqs.Distinct([FREE_LIST] + free) && FREE_LIST !in free
    {
      var ring := [FREE_LIST] + free;
      forall x | x in free
        ensures x != FREE_LIST
      {
        var k :| 0 <= k < |free| && free[k] == x;
        assert ring[0] != ring[k + 1];
      }
    }

    /** Puts a block at the front of the free list. */
    method Enfree(a: nat)
      requires FreeRing() && a !in free && a != FREE_LIST
      modifies this`nextFree, this`prevFree, this`free
      ensures FreeRing() && free == [a] + old(free)
    {
      hide Rings.Ring;
      ghost var ring := [FREE_LIST] + free;
      Rings.Insert(nextFree, prevFree, ring, 0, a);
      nextFree, prevFree :=
          Rings.InsertNext(nextFree, FREE_LIST, a), Rings.InsertPrev(nextFree, prevFree, FREE_LIST, a);
      free := [a] + free;
      assert [FREE_LIST] + free == Rings.Grown(ring, 0, a);
    }

    /** MEMITEM_SIZE of a block is its size. */
    lemma ItemSize(i: nat)
      requires Valid() && i < |blocks| - 1
      ensures blocks[i].addr in next
              && next[blocks[i].addr] == blocks[i + 1].addr == blocks[i].addr + HEADER + blocks[i].size
      ensures blocks[i + 1].addr in prev && prev[blocks[i + 1].addr] == blocks[i].addr
    {
      hide Tiles, Extent, NoTwoFree, FreeAddrs, SumFree;
      assert Rings.StepAt(next, prev, Addrs(blocks), i);
      At(blocks, start, HEADER, i);
    }

    /** A block on the free list is a free block before the last one. */
    lemma FreeBlock(a: nat) returns (i: nat)
      requires Valid() && a in free
      ensures i < |blocks| - 1 && blocks[i].addr == a && !blocks[i].used && a >= start
    {
      hide Tiles, Extent, NoTwoFree, FreeAddrs, SumFree, Rings.Ring;
      LiveIn(blocks);
      var b :| b in blocks && b.addr == a && !b.used;
      i :| 0 <= i < |blocks| && blocks[i] == b;
      At(blocks, start, HEADER, i);
    }

    /** First fit along the free list. */
    method FindFree(size: nat) returns (header: nat, freeSize: nat)
      requires Valid() && size > 0
      ensures freeSize < size ==> forall b | b in blocks && !b.used :: b.size < size
      ensures freeSize >= size ==>
                header in free && exists i :: 0 <= i < |blocks| - 1 && blocks[i] == Block(header, freeSize, false)
      ensures freeSize >= size ==> FirstFree(blocks, free, size, header)
    {
      hide Tiles, Extent, NoTwoFree, FreeAddrs, SumFree, Layout, Marks;
      ghost var ring, k := [FREE_LIST] + free, 0;
      freeSize := 0;
      RingDistinct(free);
      assert Rings.StepAt(nextFree, prevFree, ring, 0);
      header := nextFree[FREE_LIST];
      while header != FREE_LIST && freeSize < size
        invariant 0 <= k <= |free| && header == (if k < |free| then free[k] else FREE_LIST)
        invariant forall x | x in free[..k] :: TooSmall(blocks, x, size)
        invariant freeSize >= size ==>
                    k < |free| && exists i :: 0 <= i < |blocks| - 1 && blocks[i] == Block(header, freeSize, false)
        decreases |free| - k, size - freeSize
      {
        ghost var i := FreeBlock(header);
        ItemSize(i);
        freeSize := next[header] - header - HEADER;
        if freeSize < size {
          assert Rings.StepAt(nextFree, prevFree, ring, k + 1);
          assert free[..k + 1] == free[..k] + [header];
          SmallBlock(i, size);
          header := nextFree[header];
          k := k + 1;
        } else {
          assert blocks[i] == Block(header, freeSize, false);
        }
      }
      if freeSize < size {
        assert free[..k] == free;
        NoneFits(size);
      }
    }

    lemma SmallBlock(i: nat, size: nat)
      requires Valid() && i < |blocks| && blocks[i].size < size
      ensures TooSmall(blocks, blocks[i].addr, size)
    {
      hide Extent, NoTwoFree, FreeAddrs, SumFree, Rings.Ring, Marks;
      forall b | b in blocks && b.addr == blocks[i].addr
        ensures b.size < size
      {
        var j :| 0 <= j < |blocks| && blocks[j] == b;
        if j != i {
          AddrsDistinct(blocks, start, HEADER, i, j);
        }
      }
    }

    lemma NoneFits(size: nat)
      requires Valid() && forall x | x in free :: TooSmall(blocks, x, size)
      ensures forall b | b in blocks && !b.used :: b.size < size
    {
      hide Extent, NoTwoFree, SumFree, Rings.Ring, Marks;
      FreeAt(blocks, start, HEADER);
      forall b | b in blocks && !b.used
        ensures b.size < size
      {
        var j :| 0 <= j < |blocks| && blocks[j] == b;
        assert b.addr in free;
      }
    }

    method NoteUse()
      modifies this`maxUsed
      ensures available <= poolSize < WORD ==> maxUsed == Most(old(maxUsed), poolSize - available)
    {
      var inUse: nat := (poolSize - available) % WORD;
      if inUse > maxUsed {
        maxUsed := inUse;
      }
    }

    function Most(a: int, b: int): int
    {
      if a < b then b else a
    }

    /** What is free fits into the pool. */
    lemma FreeFits()
      requires Layout(blocks, start, poolSize)
      ensures SumFree(blocks) <= poolSize
    {
      hide Tiles;
      SumInside(blocks, HEADER);
    }

    /** A free block is cut in two: the front part is handed out. */
    method AllocSplit(header: nat, freeSize: nat, want: nat, ghost i: nat)
      requires Valid() && i < |blocks| - 1 && blocks[i] == Block(header, freeSize, false) && header in free
      requires freeSize >= want + HEADER + MINI_ALLOC
      modifies this`next, this`prev, this`nextFree, this`prevFree, this`used, this`available, this`maxUsed, this`blocks,
               this`free
      ensures Valid() && Live(blocks) == Live(old(blocks)) + {Block(header, want, true)}
      ensures blocks == Replace(old(blocks), i, i + 1, Served(old(blocks[i]), want))
      ensures free == [header + want + HEADER] + Seqs.Without(old(free), header)
      ensures maxUsed == Most(old(maxUsed), poolSize - available)
    {
      hide Tiles, Extent, NoTwoFree, FreeAddrs, SumFree, Live, Rings.Ring, Marks, Layout, Exchange, Remarked, Replace,
           Seqs.Without;
      var newPtr := header + want + HEADER;
      ghost var x, y := Block(header, want, true), Block(newPtr, freeSize - want - HEADER, false);
      ghost var mid, used0 := [x, y], used;
      Halved(blocks, start, poolSize, i, x, y);
      LinkInto(header, newPtr, Addrs(blocks), i);
      Unfree(header);
      Enfree(newPtr);
      used := used[newPtr := false][header := true];
      RemarkedTwo(used0, used, blocks[i..i + 1], x, y);
      Exchanged(blocks, i, i + 1, mid, start, poolSize, used0, used);
      AddrsSplit(blocks, i, x, y);
      available := available - want - HEADER;
      blocks := Replace(blocks, i, i + 1, mid);
      FreeFits();
      NoteUse();
    }

    /** A free block is handed out whole. */
    method AllocWhole(header: nat, freeSize: nat, ghost i: nat)
      requires Valid() && i < |blocks| - 1 && blocks[i] == Block(header, freeSize, false) && header in free
      modifies this`nextFree, this`prevFree, this`used, this`available, this`maxUsed, this`blocks, this`free
      ensures Valid() && Live(blocks) == Live(old(blocks)) + {Block(header, freeSize, true)}
      ensures blocks == Replace(old(blocks), i, i + 1, [Block(header, freeSize, true)])
      ensures free == Seqs.Without(old(free), header)
      ensures maxUsed == Most(old(maxUsed), poolSize - available)
    {
      hide Tiles, Extent, NoTwoFree, FreeAddrs, SumFree, Live, Rings.Ring, Marks, Layout, Exchange, Remarked, Replace,
           Seqs.Without;
      ghost var x, used0 := Block(header, freeSize, true), used;
      Occupied(blocks, start, poolSize, i, x);
      Unfree(header);
      used := used[header := true];
      RemarkedOne(used0, used, blocks[i..i + 1], x);
      Exchanged(blocks, i, i + 1, [x], start, poolSize, used0, used);
      AddrsKept(blocks, i, x);
      available := available - freeSize;
      blocks := Replace(blocks, i, i + 1, [x]);
      FreeFits();
      NoteUse();
    }

    /** The address of a free block is not one of a block in use. */
    lemma NotLive(i: nat, size: nat)
      requires Valid() && i < |blocks| && !blocks[i].used
      ensures Block(blocks[i].addr, size, true) !in Live(blocks)
    {
      hide NoTwoFree, FreeAddrs, SumFree, Live, Rings.Ring, Marks, Extent, Tiles;
      LiveIn(blocks);
      if Block(blocks[i].addr, size, true) in blocks {
        var j :| 0 <= j < |blocks| && blocks[j] == Block(blocks[i].addr, size, true);
        AddrsDistinct(blocks, start, HEADER, i, j);
      }
    }

    /** The part of rt_memheap_alloc that hands out the block that was found. */
    method Serve(header: nat, freeSize: nat, want: nat, ghost i: nat) returns (ghost b: Block)
      requires Valid() && i < |blocks| - 1 && blocks[i] == Block(header, freeSize, false) && header in free
      requires freeSize >= want && (want % ALIGN == 0 || want == MINI_ALLOC)
      modifies this`next, this`prev, this`nextFree, this`prevFree, this`used, this`available, this`maxUsed, this`blocks,
               this`free
      ensures Valid() && b.used && b.addr == header && want <= b.size < want + HEADER + MINI_ALLOC
      ensures b !in Live(old(blocks)) && Live(blocks) == Live(old(blocks)) + {b}
      ensures blocks == Replace(old(blocks), i, i + 1, Served(old(blocks[i]), want))
              && b == Served(old(blocks[i]), want)[0]
      ensures free == FreshRest(b, freeSize) + Seqs.Without(old(free), header)
      ensures maxUsed == Most(old(maxUsed), poolSize - available)
      ensures old(Aligned(blocks)) ==> (header + HEADER) % ALIGN == 0 && (Aligned(blocks) <==> b.size != MINI_ALLOC)
    {
      hide Tiles, Extent, NoTwoFree, FreeAddrs, SumFree, Live, Rings.Ring, Marks, Layout, Replace, Aligned,
           Seqs.Without;
      NotLive(i, want);
      NotLive(i, freeSize);
      ItemSize(i);
      if Aligned(blocks) {
        ServedAligned(blocks, i, want);
      }
      if freeSize >= want + HEADER + MINI_ALLOC {
        AllocSplit(header, freeSize, want, i);
        b := Block(header, want, true);
      } else {
        AllocWhole(header, freeSize, i);
        b := Block(header, freeSize, true);
        assert free == [] + free;
      }
    }

    /**
     rt_memheap_alloc.  It fails exactly if the request is not smaller than all
     free bytes together, or if no single free block can take it.  What it hands
     out is large enough exactly if the request can be rounded up in 32 bits.
     */
    method Alloc(size: Size) returns (ptr: nat, ghost b: Block)
      requires Valid()
      modifies this`next, this`prev, this`nextFree, this`prevFree, this`used, this`available, this`maxUsed, this`blocks,
               this`free
      ensures Valid()
      ensures ptr == 0 <==> NoSpace(old(blocks), old(available), Request(size))
      ensures maxUsed == if ptr == 0 then old(maxUsed) else Most(old(maxUsed), poolSize - available)
      ensures if ptr == 0 then blocks == old(blocks) && free == old(free)
              else && IsFirstFit(old(blocks), old(free), Request(size), b) && b.addr + HEADER == ptr
                   && b !in Live(old(blocks)) && Live(blocks) == Live(old(blocks)) + {b}
      ensures ptr != 0 ==> (size <= b.size <==> size <= WORD - ALIGN)
      ensures ptr != 0 ==>
                exists i ::
                  0 <= i < |old(blocks)| - 1 && !old(blocks)[i].used && b == Served(old(blocks)[i], Request(size))[0]
                            && blocks == Replace(old(blocks), i, i + 1, Served(old(blocks)[i], Request(size)))
                            && free == FreshRest(b, old(blocks)[i].size) + Seqs.Without(old(free), b.addr)
      ensures ptr != 0 && old(Aligned(blocks)) ==> ptr % ALIGN == 0 && (Aligned(blocks) <==> b.size != MINI_ALLOC)
    {
      hide Tiles, Extent, NoTwoFree, FreeAddrs, SumFree, Live, Rings.Ring, Marks, Layout, Request, AlignUp, Replace,
           Served, Aligned, FirstFree, Seqs.Without, FreshRest;
      RequestIs(size);
      var want := Request(size);
      ptr, b := 0, Block(0, 0, false);
      if want < available {
        var header, freeSize := FindFree(want);
        if freeSize >= want {
          ghost var i :| 0 <= i < |blocks| - 1 && blocks[i] == Block(header, freeSize, false);
          b := Serve(header, freeSize, want, i);
          ptr := header + HEADER;
        }
      }
    }

    /** What is left of a block of `size` bytes when its front is handed out. */
    ghost function FreshRest(b: Block, size: nat): seq<nat>
    {
      if b.size < size then [b.addr + HEADER + b.size] else []
    }

    /** Takes block `k` of the chain `ring` out of it. */
    method Unlink(x: nat, ghost ring: seq<nat>, ghost k: nat)
      requires Rings.Ring(next, prev, ring) && 0 < k < |ring| && ring[k] == x
      modifies this`next, this`prev
      ensures Rings.Ring(next, prev, Rings.Shrunk(ring, k))
      ensures old(x in next && x in prev) && next == old(Rings.RemoveNext(next, prev, x))
              && prev == old(Rings.RemovePrev(next, prev, x))
    {
      hide Rings.Ring;
      Rings.Remove(next, prev, ring, k);
      var before, after := prev[x], next[x];
      prev := prev[after := before];
      next := next[before := after];
    }

    /** The block before block `i` in the chain, and whether it is free. */
    lemma LeftNeighbour(i: nat)
      requires Valid() && i < |blocks|
      ensures blocks[i].addr in prev && prev[blocks[i].addr] in used && prev[blocks[i].addr] != blocks[i].addr
      ensures if i == 0 then used[prev[blocks[i].addr]]
              else prev[blocks[i].addr] == blocks[i - 1].addr && used[blocks[i - 1].addr] == blocks[i - 1].used
    {
      hide Tiles, Extent, NoTwoFree, FreeAddrs, SumFree;
      var n := |blocks|;
      if i == 0 {
        assert Rings.StepAt(next, prev, Addrs(blocks), n - 1);
        assert blocks[n - 1] in blocks;
        AddrsDistinct(blocks, start, HEADER, 0, n - 1);
      } else {
        assert Rings.StepAt(next, prev, Addrs(blocks), i - 1);
        assert blocks[i - 1] in blocks;
        AddrsDistinct(blocks, start, HEADER, i - 1, i);
      }
    }

    lemma FreeMembers()
      requires Valid()
      ensures forall i | 0 <= i < |blocks| ::
                blocks[i].addr > FREE_LIST && (blocks[i].addr in free <==> !blocks[i].used)
    {
      hide Tiles, Extent, NoTwoFree, SumFree, Rings.Ring, FreeAddrs;
      FreeAt(blocks, start, HEADER);
      forall i | 0 <= i < |blocks|
        ensures blocks[i].addr > FREE_LIST
      {
        At(blocks, start, HEADER, i);
      }
    }

    lemma RightNeighbour(i: nat)
      requires Valid() && i + 1 < |blocks|
      ensures blocks[i].addr != blocks[i + 1].addr && (i > 0 ==> blocks[i - 1].addr != blocks[i + 1].addr)
      ensures blocks[i].addr in next && next[blocks[i].addr] == blocks[i + 1].addr
      ensures blocks[i + 1].addr in used && used[blocks[i + 1].addr] == blocks[i + 1].used
    {
      hide Tiles, Extent, NoTwoFree, FreeAddrs, SumFree;
      assert Rings.StepAt(next, prev, Addrs(blocks), i);
      assert blocks[i + 1] in blocks;
      AddrsDistinct(blocks, start, HEADER, i, i + 1);
      if i > 0 {
        AddrsDistinct(blocks, start, HEADER, i - 1, i + 1);
      }
    }

    /** Merges a block into a free block before it. */
    method MergeLeft(block: nat, ghost ring: seq<nat>, ghost i: nat) returns (header: nat, merged: bool)
      requires Rings.Ring(next, prev, ring) && i < |ring| && ring[i] == block && block in prev && prev[block] in used
      requires if i == 0 then used[prev[block]] else prev[block] == ring[i - 1]
      modifies this`next, this`prev, this`available
      ensures merged == !used[old(prev[block])] && available == old(available) + if merged then HEADER else 0
      ensures if merged then i > 0 && header == ring[i - 1] && Rings.Ring(next, prev, Rings.Shrunk(ring, i))
              else header == block && Rings.Ring(next, prev, ring)
    {
      hide Rings.Ring;
      header, merged := block, false;
      if !used[prev[block]] {
        available := available + HEADER;
        header, merged := prev[block], true;
        Unlink(block, ring, i);
      }
    }

    /** Merges a free block behind into a block. */
    method MergeRight(header: nat, ghost ring: seq<nat>, ghost k: nat) returns (merged: bool)
      requires Rings.Ring(next, prev, ring) && k + 1 < |ring| && ring[k] == header && ring[k + 1] in used
      requires FreeRing() && (!used[ring[k + 1]] ==> ring[k + 1] in free)
      modifies this`next, this`prev, this`nextFree, this`prevFree, this`free, this`available
      ensures merged == !used[ring[k + 1]] && available == old(available) + if merged then HEADER else 0
      ensures FreeRing() && Rings.Ring(next, prev, if merged then Rings.Shrunk(ring, k + 1) else ring)
      ensures forall x :: x in free <==> x in old(free) && (merged ==> x != ring[k + 1])
      ensures free == if merged then Seqs.Without(old(free), ring[k + 1]) else old(free)
    {
      hide Rings.Ring, Seqs.Without;
      merged := false;
      RingStep(next, prev, ring, k);
      var follower := next[header];
      if !used[follower] {
        available := available + HEADER;
        merged := true;
        Unlink(follower, ring, k + 1);
        Unfree(follower);
      }
    }

    /** A block that is given back goes to the front of the free list unless the one before takes it up. */
    ghost function FreedOrder(blocks: seq<Block>, free: seq<nat>, i: nat): seq<nat>
      requires i + 1 < |blocks|
    {
      (if i > 0 && !blocks[i - 1].used then [] else [blocks[i].addr])
      + if blocks[i + 1].used then free else Seqs.Without(free, blocks[i + 1].addr)
    }

    /** The links, marks and the count of a block that is given back. */
    method FreeLinks(block: nat, ghost i: nat, ghost m: Block)
      requires Valid() && i < |blocks| - 1 && blocks[i].used && block == blocks[i].addr
      requires Hi(blocks, i) < |blocks| && m.addr == blocks[Lo(blocks, i)].addr
      modifies this`next, this`prev, this`nextFree, this`prevFree, this`used, this`available, this`free
      ensures Rings.Ring(next, prev, Addrs(Replace(blocks, Lo(blocks, i), Hi(blocks, i), [m]))) && FreeRing()
      ensures used == old(used)[block := false] && (m.addr == block || (m.addr in used && !used[m.addr]))
      ensures available == old(available) + blocks[i].size + (if Lo(blocks, i) < i then HEADER else 0)
                           + (if Hi(blocks, i) > i + 1 then HEADER else 0)
      ensures forall x :: x in free <==>
              (x in old(free) && (Hi(blocks, i) > i + 1 ==> x != blocks[i + 1].addr)) || x == m.addr
      ensures free == FreedOrder(blocks, old(free), i)
    {
      hide Tiles, Extent, NoTwoFree, FreeAddrs, SumFree, Live, Rings.Ring, Marks, Layout, Rings.Shrunk, Replace,
           Seqs.Without;
      LeftNeighbour(i);
      RightNeighbour(i);
      ItemSize(i);
      FreeMembers();
      AddrsCoalesced(blocks, i, m);
      used := used[block := false];
      available := available + (next[block] - block - HEADER);
      ghost var ring := Addrs(blocks);
      var header, left := MergeLeft(block, ring, i);
      ring := if left then Rings.Shrunk(ring, i) else ring;
      assert left == (Lo(blocks, i) < i) && header == m.addr;
      RingAround(blocks, i);
      var right := MergeRight(header, ring, Lo(blocks, i));
      assert right == (Hi(blocks, i) > i + 1);
      if !left {
        Enfree(header);
      }
    }

    /** rt_memheap_free: the block goes back and merges with free neighbours. */
    method Free(ptr: nat, ghost i: nat)
      requires Valid() && (ptr == 0 || (i < |blocks| - 1 && blocks[i].used && ptr == blocks[i].addr + HEADER))
      modifies this`next, this`prev, this`nextFree, this`prevFree, this`used, this`available, this`blocks, this`free
      ensures Valid() && if ptr == 0 then blocks == old(blocks)
                         else Live(blocks) == Live(old(blocks)) - {old(blocks[i])}
      ensures free == if ptr == 0 then old(free) else FreedOrder(old(blocks), old(free), i)
      ensures old(Aligned(blocks)) ==> Aligned(blocks)
    {
      hide Tiles, Extent, NoTwoFree, FreeAddrs, SumFree, Live, Rings.Ring, Marks, Layout, Exchange, Remarked,
           FreedOrder;
      if ptr == 0 {
        return;
      }
      var block := ptr - HEADER;
      Coalesced(blocks, start, poolSize, i);
      ghost var lo, hi, m := Lo(blocks, i), Hi(blocks, i), Merged(blocks, i);
      One(m, HEADER);
      ghost var used0 := used;
      FreeLinks(block, i, m);
      assert Addrs(blocks[lo..hi])[i - lo] == block;
      RemarkedFree(used0, blocks[lo..hi], block, m);
      Exchanged(blocks, lo, hi, [m], start, poolSize, used0, used);
      blocks := Replace(blocks, lo, hi, [m]);
    }

    // ---------------------------------------------------------- resizing

    /** The free block behind a block is taken out, and one with its header at `newPtr` is put in. */
    method GrowLinks(header: nat, newPtr: nat, ghost i: nat)
      requires Valid() && i < |blocks| - 2 && blocks[i].addr == header && !blocks[i + 1].used
               && header < newPtr < blocks[i + 2].addr
      modifies this`next, this`prev, this`nextFree, this`prevFree, this`used, this`free
      ensures Rings.Ring(next, prev, Rings.Grown(Rings.Shrunk(Addrs(blocks), i + 1), i, newPtr)) && FreeRing()
      ensures forall x :: x in free <==> (x in old(free) && x != blocks[i + 1].addr) || x == newPtr
      ensures used == old(used)[newPtr := false] && free != [] && free[0] == newPtr
    {
      hide Tiles, Extent, NoTwoFree, FreeAddrs, SumFree, Live, Rings.Ring, Marks, Layout;
      ItemSize(i);
      FreeMembers();
      ghost var ring := Addrs(blocks);
      var follower := next[header];
      HeaderMoves(i, newPtr);
      Unfree(follower);
      Unlink(follower, ring, i + 1);
      LinkInto(header, newPtr, Rings.Shrunk(ring, i + 1), i);
      Enfree(newPtr);
      used := used[newPtr := false];
    }

    /**
     A block takes bytes of the free block behind it.  All is well exactly if the
     sum in the test before does not wrap around; if it does, the header of what
     is left lands inside the block's own header.
     */
    method Grow(header: nat, want: nat, ghost i: nat)
      requires Valid() && i < |blocks| - 2 && blocks[i].used && blocks[i].addr == header && !blocks[i + 1].used
      requires blocks[i].size < want < WORD && blocks[i + 1].size + blocks[i].size > (want + MINI_ALLOC) % WORD
      modifies this`next, this`prev, this`nextFree, this`prevFree, this`used, this`available, this`maxUsed, this`blocks,
               this`free
      ensures if want + MINI_ALLOC < WORD then
                Valid() && Live(blocks) == Live(old(blocks)) - {old(blocks[i])} + {Block(header, want, true)}
              else Broken() && free != [] && header < free[0] < header + HEADER
    {
      hide Tiles, Extent, NoTwoFree, FreeAddrs, SumFree, Live, Rings.Ring, Marks, Layout, Exchange, Remarked, Replace,
           Seqs.Without, Rings.Grown, Rings.Shrunk;
      ItemSize(i);
      Ends(i);
      MarkAt(i);
      var newPtr: nat := (header + HEADER + want) % WORD;
      var oldSize := next[header] - header - HEADER;
      ghost var used0 := used;
      if want + MINI_ALLOC < WORD {
        Regrown(blocks, start, poolSize, i, want);
      }
      GrowLinks(header, newPtr, i);
      available := (available - (want - oldSize)) % WORD;
      if want + MINI_ALLOC < WORD {
        ghost var mid := Resized(blocks, i, i + 2, want);
        RelinkTwo(blocks, i, want);
        RemarkedResize(used0, blocks[i..i + 2], mid);
        Exchanged(blocks, i, i + 2, mid, start, poolSize, used0, used);
        blocks := Replace(blocks, i, i + 2, mid);
        FreeFits();
      } else {
        TornChain(next, prev, blocks, start, poolSize, i, newPtr);
      }
      NoteUse();
    }

    /** Where blocks end in the address space. */
    lemma Ends(i: nat)
      requires Valid() && i < |blocks| - 2
      ensures start <= blocks[i].addr && blocks[i].addr + 3 * HEADER + blocks[i].size + blocks[i + 1].size <= WORD
      ensures blocks[i + 2].addr == blocks[i].addr + 2 * HEADER + blocks[i].size + blocks[i + 1].size
    {
      hide NoTwoFree, FreeAddrs, SumFree, Live, Rings.Ring, Marks, Tiles;
      At(blocks, start, HEADER, i);
      At(blocks, start, HEADER, i + 1);
      var last := |blocks| - 1;
      At(blocks, start, HEADER, last);
      assert blocks[..last + 1] == blocks;
      if i + 2 < last {
        Disjoint(blocks, start, HEADER, i + 2, last);
      }
    }

    /** A header moved within two blocks is no other block's header. */
    lemma HeaderMoves(i: nat, x: nat)
      requires Valid() && i < |blocks| - 2 && blocks[i].addr < x < blocks[i + 2].addr
      ensures x !in Rings.Shrunk(Addrs(blocks), i + 1) && (x in free ==> x == blocks[i + 1].addr) && x > FREE_LIST
      ensures blocks[i].addr in used && used[blocks[i].addr] == blocks[i].used
    {
      hide Extent, NoTwoFree, SumFree, FreeAddrs, Tiles;
      var ring := Addrs(blocks);
      FreeAt(blocks, start, HEADER);
      Rings.ShrunkDistinct(ring, i + 1);
      assert blocks[i] in blocks;
      forall j | 0 <= j < |blocks| && j != i + 1
        ensures ring[j] != x
      {
        if j < i {
          Disjoint(blocks, start, HEADER, j, i);
        } else if j > i + 2 {
          Disjoint(blocks, start, HEADER, i + 2, j);
        }
      }
    }

    /** Links the header `x` into the chain `ring` behind its element `i`. */
    method LinkInto(a: nat, x: nat, ghost ring: seq<nat>, ghost i: nat)
      requires Rings.Ring(next, prev, ring) && i < |ring| && ring[i] == a && x !in ring
      modifies this`next, this`prev
      ensures Rings.Ring(next, prev, Rings.Grown(ring, i, x))
    {
      hide Rings.Ring;
      Rings.Insert(next, prev, ring, i, x);
      var follower := next[a];
      prev := prev[x := a];
      next := next[x := follower];
      prev := prev[follower := x];
      next := next[a := x];
    }

    /** A block gives back its rear part, which merges with a free block behind. */
    method ShrinkInPlace(header: nat, want: nat, ghost i: nat)
      requires Valid() && i < |blocks| - 1 && blocks[i].used && blocks[i].addr == header
      requires want + HEADER + MINI_ALLOC < blocks[i].size
      modifies this`next, this`prev, this`nextFree, this`prevFree, this`used, this`available, this`blocks, this`free
      ensures Valid() && Live(blocks) == Live(old(blocks)) - {old(blocks[i])} + {Block(header, want, true)}
    {
      hide Tiles, Extent, NoTwoFree, FreeAddrs, SumFree, Live, Rings.Ring, Marks, Layout, Exchange, Remarked, Replace;
      RightNeighbour(i);
      if used[next[header]] {
        ShrinkAlone(header, want, i);
      } else {
        ShrinkMerging(header, want, i);
      }
    }

    method ShrinkAlone(header: nat, want: nat, ghost i: nat)
      requires Valid() && i < |blocks| - 1 && blocks[i].used && blocks[i].addr == header && blocks[i + 1].used
      requires want + HEADER + MINI_ALLOC < blocks[i].size
      modifies this`next, this`prev, this`nextFree, this`prevFree, this`used, this`available, this`blocks, this`free
      ensures Valid() && Live(blocks) == Live(old(blocks)) - {old(blocks[i])} + {Block(header, want, true)}
    {
      hide Tiles, Extent, NoTwoFree, FreeAddrs, SumFree, Live, Rings.Ring, Marks, Exchange, Remarked, Replace;
      ItemSize(i);
      Cut(blocks, start, poolSize, i, want);
      ghost var mid, used0, ring := Resized(blocks, i, i + 1, want), used, Addrs(blocks);
      var newPtr := header + want + HEADER;
      InsideNew(blocks, start, HEADER, i, newPtr);
      FreeAt(blocks, start, HEADER);
      MarkAt(i);
      LinkInto(header, newPtr, ring, i);
      CutChain(blocks, i, want);
      used := used[newPtr := false];
      Enfree(newPtr);
      RemarkedResize(used0, blocks[i..i + 1], mid);
      Exchanged(blocks, i, i + 1, mid, start, poolSize, used0, used);
      blocks := Replace(blocks, i, i + 1, mid);
      RingStep(next, prev, Addrs(blocks), i + 1);
      CutAt(old(blocks), i, want);
      available := available + (next[newPtr] - newPtr - HEADER);
    }

    lemma MarkAt(i: nat)
      requires Valid() && i < |blocks|
      ensures blocks[i].addr in used && used[blocks[i].addr] == blocks[i].used && blocks[i].addr >= start
    {
      hide Tiles, Extent, NoTwoFree, FreeAddrs, SumFree, Live, Rings.Ring;
      assert blocks[i] in blocks;
      At(blocks, start, HEADER, i);
    }

    /** The links when the rear part merges with the free block behind. */
    method ShrinkLinks(header: nat, newPtr: nat, want: nat, ghost i: nat)
      requires Valid() && i < |blocks| - 2 && blocks[i].used && blocks[i].addr == header && !blocks[i + 1].used
      requires newPtr == header + want + HEADER && want + HEADER < blocks[i].size
      requires blocks[i].addr + want + 2 * HEADER <= blocks[i + 2].addr
      modifies this`next, this`prev, this`nextFree, this`prevFree, this`free
      ensures Rings.Ring(next, prev, Addrs(Replace(blocks, i, i + 2, Resized(blocks, i, i + 2, want)))) && FreeRing()
      ensures forall x :: x in free <==> (x in old(free) && x != blocks[i + 1].addr) || x == newPtr
    {
      hide Extent, NoTwoFree, FreeAddrs, SumFree, Live, Rings.Ring, Marks, Replace, Rings.Grown, Rings.Shrunk;
      ItemSize(i);
      FreeMembers();
      MarkAt(i);
      ghost var ring := Addrs(blocks);
      var follower := next[header];
      InsideNew(blocks, start, HEADER, i, newPtr);
      FreeAt(blocks, start, HEADER);
      CutMergeChain(blocks, i, want);
      LinkInto(header, newPtr, ring, i);
      Unlink(follower, Rings.Grown(ring, i, newPtr), i + 2);
      Unfree(follower);
      Enfree(newPtr);
    }

    method ShrinkMerging(header: nat, want: nat, ghost i: nat)
      requires Valid() && i < |blocks| - 1 && blocks[i].used && blocks[i].addr == header && !blocks[i + 1].used
      requires want + HEADER + MINI_ALLOC < blocks[i].size
      modifies this`next, this`prev, this`nextFree, this`prevFree, this`used, this`available, this`blocks, this`free
      ensures Valid() && Live(blocks) == Live(old(blocks)) - {old(blocks[i])} + {Block(header, want, true)}
    {
      hide Tiles, Extent, NoTwoFree, FreeAddrs, SumFree, Live, Rings.Ring, Marks, Exchange, Remarked, Replace;
      ItemSize(i);
      ItemSize(i + 1);
      MarkAt(i);
      Regrown(blocks, start, poolSize, i, want);
      FreePart(blocks, i, i + 2, start);
      ghost var mid, used0 := Resized(blocks, i, i + 2, want), used;
      var newPtr, follower := header + want + HEADER, next[header];
      var followerSize := next[follower] - follower - HEADER;
      ShrinkLinks(header, newPtr, want, i);
      available := available - followerSize;
      used := used[newPtr := false];
      RemarkedResize(used0, blocks[i..i + 2], mid);
      Exchanged(blocks, i, i + 2, mid, start, poolSize, used0, used);
      CutMergeAt(blocks, i, want);
      blocks := Replace(blocks, i, i + 2, mid);
      RingStep(next, prev, Addrs(blocks), i + 1);
      available := available + (next[newPtr] - newPtr - HEADER);
    }

    // ---------------------------------------------------------- contents

    /** The bytes of a block. */
    ghost function Payload(b: Block): seq<Byte>
      reads bytes
    {
      var from := b.addr + HEADER - start;
      if 0 <= from && from + b.size <= bytes.Length then bytes[from..from + b.size] else []
    }

    /** Blocks in use lie in the pool, apart from each other. */
    lemma LiveApart(x: Block, y: Block)
      requires Valid() && x in Live(blocks) && y in Live(blocks)
      ensures start <= x.addr && x.addr + HEADER + x.size <= start + bytes.Length
      ensures x != y ==> x.addr + HEADER + x.size <= y.addr || y.addr + HEADER + y.size <= x.addr
    {
      hide Tiles, Extent, NoTwoFree, FreeAddrs, SumFree, Live, Rings.Ring, Marks;
      LiveIn(blocks);
      var i :| 0 <= i < |blocks| && blocks[i] == x;
      var j :| 0 <= j < |blocks| && blocks[j] == y;
      At(blocks, start, HEADER, i);
      if i < j {
        Disjoint(blocks, start, HEADER, i, j);
      } else if j < i {
        Disjoint(blocks, start, HEADER, j, i);
      }
    }

    twostate lemma Untouched(z: Block)
      requires start <= z.addr && z.addr + HEADER + z.size <= start + bytes.Length
      requires forall k | z.addr + HEADER - start <= k < z.addr + HEADER - start + z.size :: bytes[k] == old(bytes[k])
      ensures Payload(z) == old(Payload(z))
    {
    }

    /** The front of a block in use is copied to the front of another one. */
    method CopyPayload(from: nat, to: nat, n: nat, ghost x: Block, ghost y: Block)
      requires Valid() && x in Live(blocks) && y in Live(blocks) && x != y && n == x.size <= y.size
      requires from == x.addr + HEADER && to == y.addr + HEADER
      modifies bytes
      ensures Valid() && |Payload(y)| == y.size && Payload(y)[..n] == old(Payload(x))
      ensures forall z | z in Live(blocks) && z != y :: Payload(z) == old(Payload(z))
    {
      hide Layout, NoTwoFree, FreeAddrs, SumFree, Live, Rings.Ring, Marks, FreeRing;
      LiveApart(x, y);
      LiveApart(y, x);
      MemCopy(bytes, from - start, to - start, n);
      forall z | z in Live(blocks) && z != y
        ensures Payload(z) == old(Payload(z))
      {
        LiveApart(z, y);
        Untouched(z);
      }
      FrontOf(y, n);
    }

    lemma FrontOf(y: Block, n: nat)
      requires start <= y.addr && y.addr + HEADER + y.size <= start + bytes.Length && n <= y.size
      ensures |Payload(y)| == y.size && Payload(y)[..n] == bytes[y.addr + HEADER - start..y.addr + HEADER - start + n]
    {
      var from := y.addr + HEADER - start;
      assert bytes[from..from + y.size][..n] == bytes[from..from + n];
    }

    /** The last block is never handed out. */
    lemma NotTail(i: nat)
      requires Valid() && i < |blocks|
      ensures i < |blocks| - 1 <==> blocks[i].addr != start + poolSize - HEADER
    {
      hide NoTwoFree, FreeAddrs, SumFree, Live, Rings.Ring, Marks, Tiles, Extent;
      var last := |blocks| - 1;
      At(blocks, start, HEADER, last);
      assert blocks[..last + 1] == blocks;
      if i < last {
        Disjoint(blocks, start, HEADER, i, last);
      }
    }

    /** A block that has to move: allocate, copy, free. */
    method Move(ptr: nat, oldSize: nat, want: nat, ghost i: nat) returns (r: nat, ghost b: Block)
      requires Valid() && i < |blocks| - 1 && blocks[i].used && ptr == blocks[i].addr + HEADER
               && oldSize == blocks[i].size < want <= WORD - ALIGN
      modifies this`next, this`prev, this`nextFree, this`prevFree, this`used, this`available, this`maxUsed, this`blocks,
               this`free, bytes
      ensures Valid() && (r == 0 <==> NoSpace(old(blocks), old(available), Request(want)))
      ensures if r == 0 then blocks == old(blocks) && free == old(free) && bytes[..] == old(bytes[..])
              else
                && b.used && b.addr + HEADER == r && b.size >= want
                && IsFirstFit(old(blocks), old(free), Request(want), b)
                && Live(blocks) == Live(old(blocks)) - {old(blocks[i])} + {b}
                && |Payload(b)| == b.size && Payload(b)[..oldSize] == old(Payload(blocks[i]))
                && forall z | z in Live(old(blocks)) && z != old(blocks[i]) :: Payload(z) == old(Payload(z))
    {
      hide Layout, NoTwoFree, FreeAddrs, SumFree, Live, Rings.Ring, Marks, Payload, Request, NoSpace, FirstFree, Served,
           Replace, FreshRest, Seqs.Without, FreedOrder;
      ghost var x := blocks[i];
      LiveIn(blocks);
      NotTail(i);
      RequestIs(want);
      r, b := Alloc(want);
      if r != 0 {
        CopyPayload(ptr, r, oldSize, x, b);
        LiveIn(blocks);
        ghost var j :| 0 <= j < |blocks| && blocks[j] == x;
        NotTail(j);
        Free(ptr, j);
      }
    }

    /** The part of rt_memheap_realloc for a larger size: grow in place if the test says so, else move. */
    method Enlarge(ptr: nat, oldSize: nat, want: nat, ghost i: nat) returns (r: nat, ghost b: Block)
      requires Valid() && i < |blocks| - 1 && blocks[i].used && ptr == blocks[i].addr + HEADER
               && oldSize == blocks[i].size < want <= WORD - ALIGN
      modifies this`next, this`prev, this`nextFree, this`prevFree, this`used, this`available, this`maxUsed, this`blocks,
               this`free, bytes
      ensures Valid() <==> !Overrun(old(blocks), want, i)
      ensures !Valid() ==> Broken() && r == ptr && free != [] && ptr - HEADER < free[0] < ptr
      ensures r == 0 <==> !Grows(old(blocks), want, i) && NoSpace(old(blocks), old(available), Request(want))
      ensures r == 0 ==> blocks == old(blocks) && free == old(free) && bytes[..] == old(bytes[..])
      ensures Grows(old(blocks), want, i) ==>
                r == ptr && b == old(blocks[i]).(size := want) && bytes[..] == old(bytes[..])
      ensures !Grows(old(blocks), want, i) && r != 0 ==> IsFirstFit(old(blocks), old(free), Request(want), b)
      ensures Valid() && r != 0 ==>
                && b.used && b.addr + HEADER == r && b.size >= want
                && Live(blocks) == Live(old(blocks)) - {old(blocks[i])} + {b}
                && SameFront(Payload(b), old(Payload(blocks[i])))
                && forall z | z in Live(old(blocks)) && z != old(blocks[i]) :: Payload(z) == old(Payload(z))
    {
      hide Layout, NoTwoFree, FreeAddrs, SumFree, Live, Rings.Ring, Marks, Broken, Request, NoSpace, FirstFree;
      ghost var x := blocks[i];
      LiveIn(blocks);
      ItemSize(i);
      RightNeighbour(i);
      LiveApart(x, x);
      var header := ptr - HEADER;
      var follower := next[header];
      if !used[follower] {
        TailUsed();
        ItemSize(i + 1);
        var nextSize := next[follower] - follower - HEADER;
        if nextSize + oldSize > (want + MINI_ALLOC) % WORD {
          Grow(header, want, i);
          b := Block(header, want, true);
          if want + MINI_ALLOC < WORD {
            InPlace(x, b);
          } else {
            BrokenFits();
          }
          return ptr, b;
        }
      }
      r, b := Move(ptr, oldSize, want, i);
    }

    lemma BrokenFits()
      ensures Broken() ==> !Valid()
    {
    }

    /** Whether rt_memheap_realloc finds room for more bytes in the free block behind; the sum is one of 32 bits. */
    ghost predicate Grows(blocks: seq<Block>, want: nat, i: nat)
    {
      && i + 1 < |blocks| && blocks[i].size < want && !blocks[i + 1].used
      && blocks[i].size + blocks[i + 1].size > (want + MINI_ALLOC) % WORD
    }

    /** The free block behind is large enough for a sum that wrapped around. */
    ghost predicate Overrun(blocks: seq<Block>, want: nat, i: nat)
    {
      && want + MINI_ALLOC >= WORD && i + 1 < |blocks| && !blocks[i + 1].used
      && blocks[i].size + blocks[i + 1].size > want + MINI_ALLOC - WORD
    }

    /**
     rt_memheap_realloc: frees, allocates, grows in place, shrinks with merge or
     moves; the common front of the data survives and other blocks keep theirs.
     */
    method Realloc(ptr: nat, newSize: Size, ghost i: nat) returns (r: nat, ghost b: Block)
      requires Valid() && (ptr == 0 || (i < |blocks| - 1 && blocks[i].used && ptr == blocks[i].addr + HEADER))
      modifies this`next, this`prev, this`nextFree, this`prevFree, this`used, this`available, this`maxUsed, this`blocks,
               this`free, bytes
      ensures Valid() <==> !Overruns(old(blocks), ptr, newSize, i)
      ensures !Valid() ==> Broken() && r == ptr && free != [] && ptr - HEADER < free[0] < ptr
      ensures newSize == 0 ==> r == 0 && if ptr == 0 then blocks == old(blocks)
                                         else Live(blocks) == Live(old(blocks)) - {old(blocks[i])}
      ensures newSize > 0 && r == 0 ==> blocks == old(blocks) && bytes[..] == old(bytes[..])
      ensures newSize > 0 && ptr == 0 ==>
                (r == 0 <==> NoSpace(old(blocks), old(available), Request(Request(newSize))))
      ensures newSize > 0 && ptr != 0 ==>
                (r == 0 <==>
                 Moves(old(blocks), newSize, i) && NoSpace(old(blocks), old(available), Request(Request(newSize))))
      ensures newSize > 0 && r != 0 && (ptr == 0 || Moves(old(blocks), newSize, i)) ==>
                IsFirstFit(old(blocks), old(free), Request(Request(newSize)), b)
      ensures newSize > 0 && ptr != 0 && !Moves(old(blocks), newSize, i) ==>
                r == ptr && b == Kept(old(blocks[i]), Request(newSize))
      ensures newSize == 0 || ptr == 0 || !Moves(old(blocks), newSize, i) ==> bytes[..] == old(bytes[..])
      ensures Valid() && r != 0 ==> b.used && b.addr + HEADER == r && (newSize <= b.size <==> newSize <= WORD - ALIGN)
      ensures Valid() && r != 0 && ptr == 0 ==> b !in Live(old(blocks)) && Live(blocks) == Live(old(blocks)) + {b}
      ensures Valid() && r != 0 && ptr != 0 ==>
                && Live(blocks) == Live(old(blocks)) - {old(blocks[i])} + {b}
                && SameFront(Payload(b), old(Payload(blocks[i])))
                && forall z | z in Live(old(blocks)) && z != old(blocks[i]) :: Payload(z) == old(Payload(z))
    {
      hide Layout, NoTwoFree, FreeAddrs, SumFree, Live, Rings.Ring, Marks, Request, Broken, NoSpace, FirstFree, Served,
           Replace, FreshRest, Seqs.Without, FreedOrder;
      r, b := 0, Block(0, 0, false);
      if newSize == 0 {
        Free(ptr, i);
        return;
      }
      RequestIs(newSize);
      var want := Request(newSize);
      RequestIs(want);
      if ptr == 0 {
        r, b := Alloc(want);
        Small(b);
        return;
      }
      ghost var x := blocks[i];
      LiveIn(blocks);
      ItemSize(i);
      RightNeighbour(i);
      LiveApart(x, x);
      var header := ptr - HEADER;
      var oldSize := next[header] - header - HEADER;
      if want > oldSize {
        r, b := Enlarge(ptr, oldSize, want, i);
        if r != 0 && Valid() {
          Small(b);
        }
        return;
      }
      r, b := ptr, x;
      if want + HEADER + MINI_ALLOC < oldSize {
        ShrinkInPlace(header, want, i);
        b := Block(header, want, true);
        InPlace(x, b);
      }
    }

    /** Whether rt_memheap_realloc needs another block. */
    ghost predicate Moves(blocks: seq<Block>, newSize: Size, i: nat)
    {
      i < |blocks| && blocks[i].size < Request(newSize) && !Grows(blocks, Request(newSize), i)
    }

    /** A block that stays where it is: a rest that makes no block of its own is not cut off. */
    ghost function Kept(x: Block, want: nat): Block
    {
      if want <= x.size <= want + HEADER + MINI_ALLOC then x else x.(size := want)
    }

    /** Growing in place tears the chain. */
    ghost predicate Overruns(blocks: seq<Block>, ptr: nat, newSize: Size, i: nat)
    {
      ptr != 0 && newSize > 0 && Overrun(blocks, Request(newSize), i)
    }

    /** No block is as large as the address space. */
    lemma Small(b: Block)
      requires Valid()
      ensures b in Live(blocks) ==> b.size < WORD - ALIGN
    {
      hide Layout, NoTwoFree, FreeAddrs, SumFree, Live, Rings.Ring, Marks;
      if b in Live(blocks) {
        LiveApart(b, b);
      }
    }

    lemma TailUsed()
      requires Valid()
      ensures blocks[|blocks| - 1].used
    {
    }

    /** A block that only changed its size shows the same front. */
    lemma InPlace(x: Block, b: Block)
      requires Valid() && b in Live(blocks) && b.addr == x.addr && x.addr + HEADER + x.size <= start + bytes.Length
      ensures SameFront(Payload(b), Payload(x))
    {
      hide Layout, NoTwoFree, FreeAddrs, SumFree, Live, Rings.Ring, Marks;
      LiveApart(b, b);
      var from := b.addr + HEADER - start;
      if b.size <= x.size {
        assert bytes[from..from + x.size][..b.size] == bytes[from..from + b.size];
      } else {
        assert bytes[from..from + b.size][..x.size] == bytes[from..from + x.size];
      }
    }
  }

  /** One of the two is the front of the other. */
  predicate SameFront(a: seq<Byte>, b: seq<Byte>)
  {
    a <= b || b <= a
  }

  lemma RequestIs(size: Size)
    ensures Request(size) % ALIGN == 0 || Request(size) == MINI_ALLOC
    ensures MINI_ALLOC <= Request(size) <= WORD - ALIGN
    ensures size <= Request(size) <==> size <= WORD - ALIGN
    ensures size > WORD - ALIGN ==> Request(size) == MINI_ALLOC
  {
    AlignIs(size);
  }

  /** A chain with a header inside of another one fits no blocks. */
  lemma TornChain(next: Rings.Links, prev: Rings.Links, blocks: seq<Block>, start: nat, poolSize: nat, i: nat, x: nat)
    requires Layout(blocks, start, poolSize) && i + 2 < |blocks| && blocks[i].addr < x < blocks[i].addr + HEADER
    requires Rings.Ring(next, prev, Rings.Grown(Rings.Shrunk(Addrs(blocks), i + 1), i, x))
    ensures forall bs: seq<Block> :: Layout(bs, start, poolSize) ==> !Rings.Ring(next, prev, Addrs(bs))
  {
    hide Tiles, Rings.Ring;
    var cut := Rings.Shrunk(Addrs(blocks), i + 1);
    var ring := Rings.Grown(cut, i, x);
    At(blocks, start, HEADER, 0);
    assert blocks[..0] == [];
    assert cut[0] == start && cut[i] == blocks[i].addr;
    forall bs: seq<Block> | Layout(bs, start, poolSize) && Rings.Ring(next, prev, Addrs(bs))
      ensures false
    {
      At(bs, start, HEADER, 0);
      assert bs[..0] == [];
      Rings.SameWay(next, prev, Addrs(bs), ring, i);
      Rings.SameWay(next, prev, Addrs(bs), ring, i + 1);
      Disjoint(bs, start, HEADER, i, i + 1);
    }
  }

  // ------------------------------------------------------------ alignment

  lemma AlignedBehind(a: nat, n: nat)
    requires a % ALIGN == 0
    ensures (a + n) % ALIGN == n % ALIGN
  {
  }

  /** Headers stay aligned unless the least size, which is not, is cut off. */
  lemma ServedAligned(blocks: seq<Block>, i: nat, want: nat)
    requires i + 1 < |blocks| && Aligned(blocks) && blocks[i + 1].addr == blocks[i].addr + HEADER + blocks[i].size
    requires blocks[i].size >= want && (want % ALIGN == 0 || want == MINI_ALLOC)
    ensures blocks[i].addr % ALIGN == 0
    ensures var mid := Served(blocks[i], want);
            Aligned(Replace(blocks, i, i + 1, mid)) <==> mid[0].size != MINI_ALLOC
  {
    var mid, a := Served(blocks[i], want), blocks[i].addr;
    assert blocks[i] in blocks && blocks[i + 1] in blocks;
    AlignedBehind(a, HEADER + blocks[i].size);
    AlignedBehind(a, want + HEADER);
    AlignedReplaced(blocks, i, mid);
  }

  lemma AlignedReplaced(blocks: seq<Block>, i: nat, mid: seq<Block>)
    requires i < |blocks| && Aligned(blocks)
    ensures Aligned(Replace(blocks, i, i + 1, mid)) <==> Aligned(mid)
  {
    var r := Replace(blocks, i, i + 1, mid);
    assert forall b | b in r :: b in blocks || b in mid;
    assert forall b | b in mid :: b in r;
  }

  // ------------------------------------------------------------ merging

  ghost function Lo(blocks: seq<Block>, i: nat): nat
    requires i < |blocks|
  {
    if i > 0 && !blocks[i - 1].used then i - 1 else i
  }

  ghost function Hi(blocks: seq<Block>, i: nat): nat
    requires i + 1 < |blocks|
  {
    if !blocks[i + 1].used then i + 2 else i + 1
  }

  ghost function Merged(blocks: seq<Block>, i: nat): Block
    requires i + 1 < |blocks| && Hi(blocks, i) < |blocks|
             && blocks[Lo(blocks, i)].addr + HEADER <= blocks[Hi(blocks, i)].addr
  {
    var lo, hi := Lo(blocks, i), Hi(blocks, i);
    Block(blocks[lo].addr, blocks[hi].addr - blocks[lo].addr - HEADER, false)
  }

  /** The block and its free neighbours become one free block. */
  lemma Coalesced(blocks: seq<Block>, start: nat, poolSize: nat, i: nat)
    requires Layout(blocks, start, poolSize) && NoTwoFree(blocks) && i < |blocks| - 1 && blocks[i].used
    ensures Hi(blocks, i) < |blocks| && blocks[Lo(blocks, i)].addr + HEADER <= blocks[Hi(blocks, i)].addr
    ensures var lo, hi, m := Lo(blocks, i), Hi(blocks, i), Merged(blocks, i);
            && Exchange(blocks, lo, hi, [m])
            && m.size == SumFree(blocks[lo..hi]) + blocks[i].size
                         + (if lo < i then HEADER else 0) + (if hi > i + 1 then HEADER else 0)
            && Live(blocks[lo..hi]) == {blocks[i]}
            && FreeAddrs(blocks[lo..hi])
               == (if lo < i then {blocks[i - 1].addr} else {}) + (if hi > i + 1 then {blocks[i + 1].addr} else {})
  {
    hide Tiles, Extent, NoTwoFree, FreeAddrs, SumFree, Live;
    assert Hi(blocks, i) < |blocks|;
    var lo, hi := Lo(blocks, i), Hi(blocks, i);
    Span(blocks, start, HEADER, lo, hi);
    Disjoint(blocks, start, HEADER, lo, hi);
    One(Merged(blocks, i), HEADER);
    At(blocks, start, HEADER, i);
    if 1 < i && lo < i {
      NoTwoFreeAt(blocks, i - 2);
    }
    if hi > i + 1 {
      At(blocks, start, HEADER, i + 1);
      NoTwoFreeAt(blocks, i + 1);
    }
    if lo < i {
      At(blocks, start, HEADER, i - 1);
    }
    CoalescedSums(blocks, i);
  }

  lemma CoalescedSums(blocks: seq<Block>, i: nat)
    requires i + 1 < |blocks| && blocks[i].used && Hi(blocks, i) <= |blocks|
    ensures var lo, hi := Lo(blocks, i), Hi(blocks, i);
            && SumFree(blocks[lo..hi])
               == (if lo < i then blocks[i - 1].size else 0) + (if hi > i + 1 then blocks[i + 1].size else 0)
            && Live(blocks[lo..hi]) == {blocks[i]}
            && FreeAddrs(blocks[lo..hi])
               == (if lo < i then {blocks[i - 1].addr} else {}) + (if hi > i + 1 then {blocks[i + 1].addr} else {})
  {
    hide FreeAddrs, SumFree, Live;
    var lo, hi := Lo(blocks, i), Hi(blocks, i);
    One(blocks[i], HEADER);
    if lo < i {
      One(blocks[i - 1], HEADER);
    }
    One(blocks[i + 1], HEADER);
    if lo < i && hi > i + 1 {
      assert blocks[lo..hi] == [blocks[i - 1], blocks[i], blocks[i + 1]];
      Three(blocks[i - 1], blocks[i], blocks[i + 1], HEADER);
    } else if lo < i {
      assert blocks[lo..hi] == [blocks[i - 1], blocks[i]];
      Two(blocks[i - 1], blocks[i], HEADER);
    } else if hi > i + 1 {
      assert blocks[lo..hi] == [blocks[i], blocks[i + 1]];
      Two(blocks[i], blocks[i + 1], HEADER);
    } else {
      assert blocks[lo..hi] == [blocks[i]];
    }
  }

  /** Blocks `i` to `j` as a block of `want` bytes in use and one free block. */
  ghost function Resized(blocks: seq<Block>, i: nat, j: nat, want: nat): seq<Block>
    requires i < j < |blocks| && blocks[i].addr + want + 2 * HEADER <= blocks[j].addr
  {
    var a := blocks[i].addr;
    [Block(a, want, true), Block(a + HEADER + want, blocks[j].addr - a - want - 2 * HEADER, false)]
  }

  lemma Regrown(blocks: seq<Block>, start: nat, poolSize: nat, i: nat, want: nat)
    requires Layout(blocks, start, poolSize) && NoTwoFree(blocks) && i < |blocks| - 2 && blocks[i].used
             && !blocks[i + 1].used
    requires blocks[i + 1].size + blocks[i].size >= want
    ensures blocks[i].addr + want + 2 * HEADER <= blocks[i + 2].addr
    ensures var mid := Resized(blocks, i, i + 2, want);
            && Exchange(blocks, i, i + 2, mid) && Live(mid) == {mid[0]} && FreeAddrs(mid) == {mid[1].addr}
            && SumFree(mid) == blocks[i].size + blocks[i + 1].size - want
            && Live(blocks[i..i + 2]) == {blocks[i]} && FreeAddrs(blocks[i..i + 2]) == {blocks[i + 1].addr}
            && SumFree(blocks[i..i + 2]) == blocks[i + 1].size
  {
    hide Tiles, Extent, NoTwoFree, FreeAddrs, SumFree, Live;
    At(blocks, start, HEADER, i);
    At(blocks, start, HEADER, i + 1);
    Span(blocks, start, HEADER, i, i + 2);
    NoTwoFreeAt(blocks, i + 1);
    var mid := Resized(blocks, i, i + 2, want);
    One(mid[0], HEADER);
    One(mid[1], HEADER);
    Two(mid[0], mid[1], HEADER);
    assert mid == [mid[0], mid[1]];
    assert blocks[i..i + 2] == [blocks[i], blocks[i + 1]];
    One(blocks[i], HEADER);
    One(blocks[i + 1], HEADER);
    Two(blocks[i], blocks[i + 1], HEADER);
  }

  lemma FreePart(blocks: seq<Block>, i: nat, j: nat, start: nat)
    requires i <= j <= |blocks|
    ensures SumFree(blocks[i..j]) <= SumFree(blocks)
  {
    hide Tiles, Extent, FreeAddrs, Live, SumFree;
    assert blocks == blocks[..i] + (blocks[i..j] + blocks[j..]);
    Concat(blocks[..i], blocks[i..j] + blocks[j..], start, HEADER);
    Concat(blocks[i..j], blocks[j..], start, HEADER);
  }

  /** A block in use before another one is cut in two. */
  lemma Cut(blocks: seq<Block>, start: nat, poolSize: nat, i: nat, want: nat)
    requires Layout(blocks, start, poolSize) && NoTwoFree(blocks) && i < |blocks| - 1 && blocks[i].used
             && blocks[i + 1].used
    requires want + HEADER <= blocks[i].size
    ensures blocks[i].addr + want + 2 * HEADER <= blocks[i + 1].addr
    ensures var mid := Resized(blocks, i, i + 1, want);
            && Exchange(blocks, i, i + 1, mid) && Live(mid) == {mid[0]} && FreeAddrs(mid) == {mid[1].addr}
            && SumFree(mid) == mid[1].size == blocks[i].size - want - HEADER
            && Live(blocks[i..i + 1]) == {blocks[i]} && FreeAddrs(blocks[i..i + 1]) == {}
            && SumFree(blocks[i..i + 1]) == 0
  {
    hide Tiles, Extent, NoTwoFree, FreeAddrs, SumFree, Live;
    At(blocks, start, HEADER, i);
    Span(blocks, start, HEADER, i, i + 1);
    var mid := Resized(blocks, i, i + 1, want);
    One(mid[0], HEADER);
    One(mid[1], HEADER);
    Two(mid[0], mid[1], HEADER);
    assert mid == [mid[0], mid[1]];
    assert blocks[i..i + 1] == [blocks[i]];
    One(blocks[i], HEADER);
  }

  /** A free block is cut into one in use and a free rest. */
  lemma Halved(blocks: seq<Block>, start: nat, poolSize: nat, i: nat, x: Block, y: Block)
    requires Layout(blocks, start, poolSize) && NoTwoFree(blocks) && i < |blocks| - 1 && !blocks[i].used
    requires x.used && !y.used && x.addr == blocks[i].addr && y.addr == x.addr + HEADER + x.size
             && x.size + HEADER + y.size == blocks[i].size
    ensures Exchange(blocks, i, i + 1, [x, y]) && Live([x, y]) == {x} && FreeAddrs([x, y]) == {y.addr}
            && SumFree([x, y]) == y.size
    ensures Live(blocks[i..i + 1]) == {} && FreeAddrs(blocks[i..i + 1]) == {blocks[i].addr}
            && SumFree(blocks[i..i + 1]) == blocks[i].size
    ensures y.addr !in Addrs(blocks) && y.addr !in FreeAddrs(blocks) && blocks[i].size <= SumFree(blocks)
  {
    hide Tiles, Extent, NoTwoFree, FreeAddrs, SumFree, Live;
    One(x, HEADER);
    One(y, HEADER);
    Two(x, y, HEADER);
    assert blocks[i..i + 1] == [blocks[i]];
    One(blocks[i], HEADER);
    NoTwoFreeAt(blocks, i);
    InsideNew(blocks, start, HEADER, i, y.addr);
    FreeAt(blocks, start, HEADER);
    FreePart(blocks, i, i + 1, start);
  }

  /** A free block is marked as used. */
  lemma Occupied(blocks: seq<Block>, start: nat, poolSize: nat, i: nat, x: Block)
    requires Layout(blocks, start, poolSize) && NoTwoFree(blocks) && i < |blocks| - 1 && !blocks[i].used
    requires x == blocks[i].(used := true)
    ensures Exchange(blocks, i, i + 1, [x]) && Live([x]) == {x} && FreeAddrs([x]) == {} && SumFree([x]) == 0
    ensures Live(blocks[i..i + 1]) == {} && FreeAddrs(blocks[i..i + 1]) == {blocks[i].addr}
            && SumFree(blocks[i..i + 1]) == blocks[i].size
  {
    hide Tiles, Extent, NoTwoFree, FreeAddrs, SumFree, Live;
    One(x, HEADER);
    assert blocks[i..i + 1] == [blocks[i]];
    One(blocks[i], HEADER);
    At(blocks, start, HEADER, i);
  }

  lemma CutChain(blocks: seq<Block>, i: nat, want: nat)
    requires i < |blocks| - 1 && blocks[i].addr + want + 2 * HEADER <= blocks[i + 1].addr
    ensures Addrs(Replace(blocks, i, i + 1, Resized(blocks, i, i + 1, want)))
            == Rings.Grown(Addrs(blocks), i, blocks[i].addr + want + HEADER)
  {
  }

  lemma CutAt(blocks: seq<Block>, i: nat, want: nat)
    requires i < |blocks| - 1 && blocks[i].addr + want + 2 * HEADER <= blocks[i + 1].addr
    ensures var r := Addrs(Replace(blocks, i, i + 1, Resized(blocks, i, i + 1, want)));
            |r| == |blocks| + 1 && r[i + 1] == blocks[i].addr + HEADER + want && r[i + 2] == blocks[i + 1].addr
  {
  }

  lemma CutMergeChain(blocks: seq<Block>, i: nat, want: nat)
    requires i < |blocks| - 2 && blocks[i].addr + want + 2 * HEADER <= blocks[i + 2].addr
    ensures var grown := Rings.Grown(Addrs(blocks), i, blocks[i].addr + want + HEADER);
            && |grown| == |blocks| + 1 && grown[i + 2] == blocks[i + 1].addr
            && Addrs(Replace(blocks, i, i + 2, Resized(blocks, i, i + 2, want))) == Rings.Shrunk(grown, i + 2)
  {
  }

  lemma CutMergeAt(blocks: seq<Block>, i: nat, want: nat)
    requires i < |blocks| - 2 && blocks[i].addr + want + 2 * HEADER <= blocks[i + 2].addr
    ensures var r := Addrs(Replace(blocks, i, i + 2, Resized(blocks, i, i + 2, want)));
            |r| == |blocks| && r[i + 1] == blocks[i].addr + HEADER + want && r[i + 2] == blocks[i + 2].addr
  {
  }

  /** The chain with the second of two headers moved. */
  lemma RelinkTwo(blocks: seq<Block>, i: nat, want: nat)
    requires i < |blocks| - 2 && blocks[i].addr + want + 2 * HEADER <= blocks[i + 2].addr
    ensures Addrs(Replace(blocks, i, i + 2, Resized(blocks, i, i + 2, want)))
            == Rings.Grown(Rings.Shrunk(Addrs(blocks), i + 1), i, blocks[i].addr + HEADER + want)
  {
  }

  lemma RemarkedResize(used: map<nat, bool>, gone: seq<Block>, mid: seq<Block>)
    requires |mid| == 2 && mid[0].used && !mid[1].used && mid[0].addr != mid[1].addr && mid[0].addr in used
             && used[mid[0].addr]
    ensures Remarked(used, used[mid[1].addr := false], gone, mid)
  {
    assert Addrs(mid)[1] == mid[1].addr;
  }

  lemma RingAround(blocks: seq<Block>, i: nat)
    requires i + 1 < |blocks|
    ensures var lo := Lo(blocks, i);
            var ring := if lo < i then Rings.Shrunk(Addrs(blocks), i) else Addrs(blocks);
            lo + 1 < |ring| && ring[lo] == blocks[lo].addr && ring[lo + 1] == blocks[i + 1].addr
  {
  }

  lemma AddrsCoalesced(blocks: seq<Block>, i: nat, m: Block)
    requires i + 1 < |blocks| && Hi(blocks, i) < |blocks| && m.addr == blocks[Lo(blocks, i)].addr
    ensures var lo, hi := Lo(blocks, i), Hi(blocks, i);
            var ring := if lo < i then Rings.Shrunk(Addrs(blocks), i) else Addrs(blocks);
            Addrs(Replace(blocks, lo, hi, [m])) == if hi > i + 1 then Rings.Shrunk(ring, lo + 1) else ring
  {
    var lo, hi := Lo(blocks, i), Hi(blocks, i);
    var all := Addrs(blocks);
    AddrsParts(blocks[..lo], [m], blocks[hi..]);
    assert Addrs([m]) == [m.addr] && Addrs(blocks[..lo]) == all[..lo] && Addrs(blocks[hi..]) == all[hi..];
    RingsMerged(all, lo, i, hi);
  }

  lemma RingsMerged(all: seq<nat>, lo: nat, i: nat, hi: nat)
    requires lo <= i < hi <= |all| && i <= lo + 1 && hi <= i + 2
    ensures var ring := if lo < i then Rings.Shrunk(all, i) else all;
            lo + 1 <= |ring| && (hi > i + 1 ==> lo + 1 < |ring|)
                && all[..lo] + [all[lo]] + all[hi..] == if hi > i + 1 then Rings.Shrunk(ring, lo + 1) else ring
  {
  }

  lemma AddrsParts(a: seq<Block>, b: seq<Block>, c: seq<Block>)
    ensures Addrs(a + b + c) == Addrs(a) + Addrs(b) + Addrs(c)
  {
  }

  lemma {:induction false} SumInside(blocks: seq<Block>, h: nat)
    ensures SumFree(blocks) + SumUsed(blocks, h) <= Extent(blocks, h)
  {
    if blocks != [] {
      SumInside(blocks[1..], h);
    }
  }

  lemma RingStep(next: Rings.Links, prev: Rings.Links, ring: seq<nat>, k: nat)
    requires Rings.Ring(next, prev, ring) && k < |ring|
    ensures ring[k] in next && next[ring[k]] == ring[Rings.Succ(k, |ring|)]
  {
    assert Rings.StepAt(next, prev, ring, k);
  }

  lemma RemarkedFree(used: map<nat, bool>, gone: seq<Block>, a: nat, m: Block)
    requires a in Addrs(gone)
    requires !m.used && (m.addr == a || (m.addr in used && !used[m.addr]))
    ensures Remarked(used, used[a := false], gone, [m])
  {
  }

  lemma RemarkedOne(used: map<nat, bool>, used': map<nat, bool>, gone: seq<Block>, x: Block)
    requires used' == used[x.addr := x.used]
    ensures Remarked(used, used', gone, [x])
  {
    assert x.addr == Addrs([x])[0];
  }

  lemma RemarkedTwo(used: map<nat, bool>, used': map<nat, bool>, gone: seq<Block>, x: Block, y: Block)
    requires used' == used[y.addr := y.used][x.addr := x.used] && x.addr != y.addr
    ensures Remarked(used, used', gone, [x, y])
  {
    assert x.addr == Addrs([x, y])[0] && y.addr == Addrs([x, y])[1];
  }

  // ------------------------------------------------------------ runs

  /** A new heap of 1024 bytes, and a first block taken from it. */
  method FirstBlock(size: Size) returns (heap: Heap, ptr: nat, ghost b: Block)
    requires Request(size) <= 500
    ensures fresh(heap) && fresh(heap.bytes) && heap.Valid() && heap.start == 8 && ptr == 8 + HEADER
    ensures b == Block(8, Request(size), true) && b in Live(heap.blocks)
    ensures heap.blocks == [b, Block(8 + HEADER + b.size, 976 - HEADER - b.size, false), Block(1008, 0, true)]
    ensures heap.available == 976 - HEADER - b.size
  {
    hide Tiles, Extent, Layout, Marks, NoTwoFree, FreeAddrs, Live, Rings.Ring, FirstFree, Seqs.Without, Heap.FreshRest,
         Aligned, SumFree;
    heap := new Heap(8, 1024);
    RequestIs(size);
    ghost var first := heap.blocks[0];
    assert first in heap.blocks && !first.used && first.size == 976;
    ptr, b := heap.Alloc(size);
    SumThree(heap.blocks[0], heap.blocks[1], heap.blocks[2]);
    assert heap.blocks == [heap.blocks[0], heap.blocks[1], heap.blocks[2]];
  }

  lemma SumThree(x: Block, y: Block, z: Block)
    requires x.used && !y.used && z.used
    ensures SumFree([x, y, z]) == y.size
  {
    assert [x, y, z][1..] == [y, z] && [y, z][1..] == [z] && [z][1..] == [];
    assert SumFree([z]) == SumFree([]) == 0;
    assert SumFree([y, z]) == y.size;
  }

  /** A request of all free bytes fails although the free block could take it. */
  method WholePool() returns (heap: Heap, ptr: nat)
    ensures heap.Valid() && Request(976) == 976 && Block(8, 976, false) in heap.blocks && ptr == 0
  {
    heap := new Heap(8, 1024);
    AlignIs(976);
    ghost var b;
    ptr, b := heap.Alloc(976);
  }

  /** A request of nearly 2^32 bytes is served with the least block. */
  method HugeRequest() returns (heap: Heap, ptr: nat, ghost b: Block)
    ensures heap.Valid() && ptr == b.addr + HEADER && b in Live(heap.blocks) && b.size == MINI_ALLOC
  {
    RequestIs(0xFFFF_FFFF);
    heap, ptr, b := FirstBlock(0xFFFF_FFFF);
  }

  /** A block that is to grow to nearly 2^32 bytes tears the chain of headers. */
  method HugeGrowth() returns (heap: Heap)
    ensures heap.Broken()
  {
    hide Tiles, Extent, Layout, Marks, NoTwoFree, FreeAddrs, Live, Rings.Ring, SumFree;
    var ptr;
    ghost var b;
    AlignIs(64);
    heap, ptr, b := FirstBlock(64);
    AlignIs(0xFFFF_FFF8);
    var r, c := heap.Realloc(ptr, 0xFFFF_FFF8, 0);
  }

  /** After a request of eight bytes the next block is not aligned. */
  method OffByFour() returns (heap: Heap, ptr: nat)
    ensures heap.Valid() && heap.start % ALIGN == 0 && ptr % ALIGN == 4
  {
    hide Tiles, Extent, Layout, Marks, NoTwoFree, FreeAddrs, Live, Rings.Ring, SumFree, Replace, Aligned, FirstFree,
         Seqs.Without, Heap.FreshRest;
    ghost var b;
    AlignIs(8);
    heap, ptr, b := FirstBlock(8);
    AlignIs(64);
    ghost var second := heap.blocks[1];
    assert second in heap.blocks;
    ptr, b := heap.Alloc(64);
  }
}
