/** Blocks that tile a piece of memory, each behind a header of `h` bytes, and the rounding of requests. */
module HeapBlocks {
  const WORD := 0x1_0000_0000
  const ALIGN := 8

  /** What an rt_size_t can hold. */
  type Size = x: nat | x < WORD

  datatype Block = Block(addr: nat, size: nat, used: bool)

  /** RT_ALIGN: the sum before the mask wraps around. */
  function AlignUp(size: Size): Size
  {
    (size + ALIGN - 1) % WORD / ALIGN * ALIGN
  }

  /** Rounding up does what it says exactly up to the last multiple of the alignment. */
  lemma AlignIs(size: Size)
    ensures AlignUp(size) % ALIGN == 0 && AlignUp(size) <= WORD - ALIGN
    ensures size <= AlignUp(size) <==> size <= WORD - ALIGN
    ensures size <= WORD - ALIGN ==> AlignUp(size) < size + ALIGN
    ensures size > WORD - ALIGN ==> AlignUp(size) == 0
    ensures AlignUp(AlignUp(size)) == AlignUp(size)
  {
  }

  /** Bytes taken by the blocks and their headers. */
  function Extent(blocks: seq<Block>, h: nat): nat
  {
    if blocks == [] then 0 else h + blocks[0].size + Extent(blocks[1..], h)
  }

  /** One block after the other, from `start` on, without gap or overlap. */
  predicate Tiles(blocks: seq<Block>, start: nat, h: nat)
  {
    blocks == [] || (blocks[0].addr == start && Tiles(blocks[1..], start + h + blocks[0].size, h))
  }

  /** Of two neighbours one is in use. */
  predicate NoTwoFree(blocks: seq<Block>)
  {
    |blocks| < 2 || ((blocks[0].used || blocks[1].used) && NoTwoFree(blocks[1..]))
  }

  function SumFree(blocks: seq<Block>): nat
  {
    if blocks == [] then 0 else (if blocks[0].used then 0 else blocks[0].size) + SumFree(blocks[1..])
  }

  /** Payload and headers of the blocks in use. */
  function SumUsed(blocks: seq<Block>, h: nat): nat
  {
    if blocks == [] then 0 else (if blocks[0].used then h + blocks[0].size else 0) + SumUsed(blocks[1..], h)
  }

  function FreeAddrs(blocks: seq<Block>): set<nat>
  {
    if blocks == [] then {} else (if blocks[0].used then {} else {blocks[0].addr}) + FreeAddrs(blocks[1..])
  }

  /** The blocks in use. */
  function Live(blocks: seq<Block>): set<Block>
  {
    if blocks == [] then {} else (if blocks[0].used then {blocks[0]} else {}) + Live(blocks[1..])
  }

  function Addrs(blocks: seq<Block>): (r: seq<nat>)
    ensures |r| == |blocks| && forall i | 0 <= i < |r| :: r[i] == blocks[i].addr
  {
    seq(|blocks|, i requires 0 <= i < |blocks| => blocks[i].addr)
  }

  lemma {:induction false} Concat(a: seq<Block>, b: seq<Block>, start: nat, h: nat)
    ensures Extent(a + b, h) == Extent(a, h) + Extent(b, h)
    ensures Tiles(a + b, start, h) <==> Tiles(a, start, h) && Tiles(b, start + Extent(a, h), h)
    ensures SumFree(a + b) == SumFree(a) + SumFree(b) && SumUsed(a + b, h) == SumUsed(a, h) + SumUsed(b, h)
    ensures FreeAddrs(a + b) == FreeAddrs(a) + FreeAddrs(b) && Live(a + b) == Live(a) + Live(b)
    decreases a
  {
    if a == [] {
      assert a + b == b;
    } else {
      assert (a + b)[1..] == a[1..] + b;
      Concat(a[1..], b, start + h + a[0].size, h);
    }
  }

  lemma {:induction false} NoTwoFreeConcat(a: seq<Block>, b: seq<Block>)
    ensures NoTwoFree(a + b) <==>
            NoTwoFree(a) && NoTwoFree(b) && (a == [] || b == [] || a[|a| - 1].used || b[0].used)
    decreases a
  {
    if a == [] {
      assert a + b == b;
    } else if |a| == 1 {
      assert b != [] ==> (a + b)[1..] == b;
    } else {
      assert (a + b)[1..] == a[1..] + b;
      NoTwoFreeConcat(a[1..], b);
    }
  }

  /** Where block `i` lies; blocks before and behind it are disjoint from it. */
  lemma {:induction false} At(blocks: seq<Block>, start: nat, h: nat, i: nat)
    requires Tiles(blocks, start, h) && i < |blocks|
    ensures blocks[i].addr == start + Extent(blocks[..i], h)
    ensures Extent(blocks[..i + 1], h) == Extent(blocks[..i], h) + h + blocks[i].size
    ensures blocks[i].addr + h + blocks[i].size <= start + Extent(blocks, h)
    ensures i + 1 < |blocks| ==> blocks[i + 1].addr == blocks[i].addr + h + blocks[i].size
  {
    Concat(blocks[..i], blocks[i..], start, h);
    assert blocks == blocks[..i] + blocks[i..];
    Concat(blocks[..i], [blocks[i]], start, h);
    assert blocks[..i + 1] == blocks[..i] + [blocks[i]];
    assert blocks[i..][1..] == blocks[i + 1..];
    assert Extent([blocks[i]], h) == h + blocks[i].size by { assert [blocks[i]][1..] == []; }
  }

  /** Payloads of different blocks do not overlap. */
  lemma {:induction false} Disjoint(blocks: seq<Block>, start: nat, h: nat, i: nat, j: nat)
    requires Tiles(blocks, start, h) && i < j < |blocks|
    ensures blocks[i].addr + h + blocks[i].size <= blocks[j].addr
    decreases j - i
  {
    At(blocks, start, h, i);
    if i + 1 < j {
      Disjoint(blocks, start, h, i + 1, j);
    }
  }

  lemma AddrsDistinct(blocks: seq<Block>, start: nat, h: nat, i: nat, j: nat)
    requires Tiles(blocks, start, h) && h > 0 && i < |blocks| && j < |blocks| && i != j
    ensures blocks[i].addr != blocks[j].addr
  {
    if i < j {
      Disjoint(blocks, start, h, i, j);
    } else {
      Disjoint(blocks, start, h, j, i);
    }
  }

  lemma {:induction false} FreeAt(blocks: seq<Block>, start: nat, h: nat)
    requires Tiles(blocks, start, h) && h > 0
    ensures forall i | 0 <= i < |blocks| :: blocks[i].addr in FreeAddrs(blocks) <==> !blocks[i].used
    ensures forall a | a in FreeAddrs(blocks) :: a in Addrs(blocks)
    ensures forall a | a in Addrs(blocks) :: a >= start
  {
    if blocks != [] {
      var rest := blocks[1..];
      FreeAt(rest, start + h + blocks[0].size, h);
      assert forall i | 0 <= i < |rest| :: rest[i] == blocks[i + 1];
      forall i | 0 <= i < |blocks|
        ensures blocks[i].addr in FreeAddrs(blocks) <==> !blocks[i].used
        ensures blocks[i].addr >= start
      {
        if i > 0 {
          assert rest[i - 1] == blocks[i] && rest[i - 1].addr in Addrs(rest);
        }
      }
      forall a | a in FreeAddrs(blocks)
        ensures a in Addrs(blocks)
      {
        if a in FreeAddrs(rest) {
          var k :| 0 <= k < |rest| && Addrs(rest)[k] == a;
          assert Addrs(blocks)[k + 1] == a;
        } else {
          assert Addrs(blocks)[0] == a;
        }
      }
    }
  }

  // ------------------------------------------------------------ replacing a stretch of blocks

  ghost function Replace(blocks: seq<Block>, i: nat, j: nat, mid: seq<Block>): seq<Block>
    requires i <= j <= |blocks|
  {
    blocks[..i] + mid + blocks[j..]
  }

  /** Other blocks on the same stretch of memory. */
  lemma ReplaceTiles(blocks: seq<Block>, start: nat, h: nat, i: nat, j: nat, mid: seq<Block>)
    requires Tiles(blocks, start, h) && i < j <= |blocks|
    requires Tiles(mid, blocks[i].addr, h) && Extent(mid, h) == Extent(blocks[i..j], h)
    ensures var r := Replace(blocks, i, j, mid);
            && Tiles(r, start, h) && Extent(r, h) == Extent(blocks, h)
            && SumFree(r) == SumFree(blocks) - SumFree(blocks[i..j]) + SumFree(mid)
            && SumUsed(r, h) == SumUsed(blocks, h) - SumUsed(blocks[i..j], h) + SumUsed(mid, h)
            && FreeAddrs(r) == FreeAddrs(blocks[..i]) + FreeAddrs(mid) + FreeAddrs(blocks[j..])
            && FreeAddrs(blocks) == FreeAddrs(blocks[..i]) + FreeAddrs(blocks[i..j]) + FreeAddrs(blocks[j..])
  {
    hide Tiles, Extent, SumFree, SumUsed, FreeAddrs;
    var a, b, c := blocks[..i], blocks[i..j], blocks[j..];
    assert blocks == a + b + c;
    At(blocks, start, h, i);
    Concat(a + b, c, start, h);
    Concat(a, b, start, h);
    Concat(a + mid, c, start, h);
    Concat(a, mid, start, h);
  }

  lemma ReplaceNoTwoFree(blocks: seq<Block>, i: nat, j: nat, mid: seq<Block>)
    requires NoTwoFree(blocks) && i < j <= |blocks| && NoTwoFree(mid) && mid != []
    requires i == 0 || blocks[i - 1].used || mid[0].used
    requires j == |blocks| || blocks[j].used || mid[|mid| - 1].used
    ensures NoTwoFree(Replace(blocks, i, j, mid))
  {
    var a, b, c := blocks[..i], blocks[i..j], blocks[j..];
    assert blocks == a + (b + c);
    NoTwoFreeConcat(a, b + c);
    NoTwoFreeConcat(b, c);
    NoTwoFreeConcat(a + mid, c);
    NoTwoFreeConcat(a, mid);
  }

  lemma {:induction false} LiveIn(blocks: seq<Block>)
    ensures forall b :: b in Live(blocks) <==> b in blocks && b.used
    ensures forall a | a in FreeAddrs(blocks) :: exists b :: b in blocks && b.addr == a && !b.used
  {
    if blocks != [] {
      LiveIn(blocks[1..]);
      assert blocks == [blocks[0]] + blocks[1..];
    }
  }

  /** Blocks of different stretches are different, so sets of blocks are replaced along. */
  lemma ReplaceSets(blocks: seq<Block>, start: nat, h: nat, i: nat, j: nat, mid: seq<Block>)
    requires Tiles(blocks, start, h) && h > 0 && i < j <= |blocks|
    ensures var r := Replace(blocks, i, j, mid);
            && Live(r) == Live(blocks) - Live(blocks[i..j]) + Live(mid)
            && FreeAddrs(r) == FreeAddrs(blocks) - FreeAddrs(blocks[i..j]) + FreeAddrs(mid)
  {
    hide Tiles, Extent, FreeAddrs, Live;
    var a, b, c := blocks[..i], blocks[i..j], blocks[j..];
    assert blocks == a + b + c;
    Concat(a + b, c, start, h);
    Concat(a, b, start, h);
    Concat(a + mid, c, start, h);
    Concat(a, mid, start, h);
    Apart(blocks, start, h, i, j);
    PairApart(b, a);
    PairApart(b, c);
  }

  lemma PairApart(a: seq<Block>, b: seq<Block>)
    requires forall x, y | x in a && y in b :: x.addr != y.addr
    ensures Live(a) !! Live(b) && FreeAddrs(a) !! FreeAddrs(b)
  {
    hide Live, FreeAddrs;
    LiveIn(a);
    LiveIn(b);
  }

  lemma Apart(blocks: seq<Block>, start: nat, h: nat, i: nat, j: nat)
    requires Tiles(blocks, start, h) && h > 0 && i < j <= |blocks|
    ensures forall x, y | x in blocks[i..j] && (y in blocks[..i] || y in blocks[j..]) :: x.addr != y.addr
  {
    hide Tiles;
    forall x, y | x in blocks[i..j] && (y in blocks[..i] || y in blocks[j..])
      ensures x.addr != y.addr
    {
      var p :| i <= p < j && blocks[p] == x;
      if y in blocks[..i] {
        var q :| 0 <= q < i && blocks[q] == y;
        AddrsDistinct(blocks, start, h, p, q);
      } else {
        var q :| j <= q < |blocks| && blocks[q] == y;
        AddrsDistinct(blocks, start, h, p, q);
      }
    }
  }

  lemma One(b: Block, h: nat)
    ensures Extent([b], h) == h + b.size && Tiles([b], b.addr, h) && NoTwoFree([b])
    ensures SumFree([b]) == (if b.used then 0 else b.size) && SumUsed([b], h) == if b.used then h + b.size else 0
    ensures FreeAddrs([b]) == (if b.used then {} else {b.addr}) && Live([b]) == if b.used then {b} else {}
  {
    assert [b][1..] == [];
  }

  lemma Two(a: Block, b: Block, h: nat)
    ensures Extent([a, b], h) == h + a.size + h + b.size
    ensures Tiles([a, b], a.addr, h) <==> b.addr == a.addr + h + a.size
    ensures NoTwoFree([a, b]) <==> a.used || b.used
    ensures SumFree([a, b]) == SumFree([a]) + SumFree([b]) && SumUsed([a, b], h) == SumUsed([a], h) + SumUsed([b], h)
    ensures FreeAddrs([a, b]) == FreeAddrs([a]) + FreeAddrs([b]) && Live([a, b]) == Live([a]) + Live([b])
  {
    assert [a, b] == [a] + [b];
    One(a, h);
    One(b, h);
    Concat([a], [b], a.addr, h);
    NoTwoFreeConcat([a], [b]);
  }

  lemma {:induction false} NoTwoFreeAt(blocks: seq<Block>, i: nat)
    requires NoTwoFree(blocks) && i + 1 < |blocks|
    ensures blocks[i].used || blocks[i + 1].used
  {
    if i > 0 {
      NoTwoFreeAt(blocks[1..], i - 1);
    }
  }

  /** A new address inside of a block is no block's address. */
  lemma InsideNew(blocks: seq<Block>, start: nat, h: nat, i: nat, a: nat)
    requires Tiles(blocks, start, h) && i < |blocks| && blocks[i].addr < a < blocks[i].addr + h + blocks[i].size
    ensures a !in Addrs(blocks)
  {
    hide Tiles;
    forall j | 0 <= j < |blocks|
      ensures Addrs(blocks)[j] != a
    {
      if i < j {
        Disjoint(blocks, start, h, i, j);
      } else if j < i {
        Disjoint(blocks, start, h, j, i);
      }
    }
  }

  lemma Three(a: Block, b: Block, c: Block, h: nat)
    ensures SumFree([a, b, c]) == SumFree([a]) + SumFree([b]) + SumFree([c])
    ensures SumUsed([a, b, c], h) == SumUsed([a], h) + SumUsed([b], h) + SumUsed([c], h)
    ensures FreeAddrs([a, b, c]) == FreeAddrs([a]) + FreeAddrs([b]) + FreeAddrs([c])
    ensures Live([a, b, c]) == Live([a]) + Live([b]) + Live([c])
  {
    assert [a, b, c] == [a] + [b, c];
    Two(b, c, h);
    Concat([a], [b, c], a.addr, h);
  }

  /** How much memory a stretch of blocks takes. */
  lemma Span(blocks: seq<Block>, start: nat, h: nat, lo: nat, hi: nat)
    requires Tiles(blocks, start, h) && lo < hi < |blocks|
    ensures Extent(blocks[lo..hi], h) == blocks[hi].addr - blocks[lo].addr
  {
    hide Tiles, Extent, SumFree, SumUsed, FreeAddrs, Live;
    At(blocks, start, h, lo);
    At(blocks, start, h, hi);
    assert blocks[..hi] == blocks[..lo] + blocks[lo..hi];
    Concat(blocks[..lo], blocks[lo..hi], start, h);
  }
}
