/**
 The system heap: headers inside of the heap, chained by offsets, and a pointer
 to the lowest free block.  It is proved against the plain picture of blocks
 that tile the heap.  Offsets count from the start of the heap.
 */
module SmallHeap {
  import opened Bytes
  import opened HeapBlocks

  const HEADER := 16
  const MIN_SIZE := 12
  const MIN_ALIGNED := 16
  const NULL := 0

  /** The size that is set aside for a request. */
  function Request(size: Size): Size
  {
    if AlignUp(size) < MIN_ALIGNED then MIN_ALIGNED else AlignUp(size)
  }

  /** Unsigned subtraction. */
  function Minus(a: nat, b: nat): nat
  {
    (a - b) % WORD
  }

  /** Blocks over the whole heap; the last one is the end mark. */
  ghost predicate Layout(blocks: seq<Block>, memSize: nat)
  {
    && |blocks| >= 2 && Tiles(blocks, 0, HEADER) && Extent(blocks, HEADER) == memSize + 2 * HEADER
    && blocks[|blocks| - 1].used && blocks[|blocks| - 1].size == 0
  }

  type Offsets = map<nat, nat>

  type Marks = map<nat, bool>

  ghost predicate HeadAt(next: Offsets, used: Marks, b: Block, end: nat)
  {
    && b.addr in next && next[b.addr] == (if b.addr == end then end else b.addr + HEADER + b.size)
    && b.addr in used && used[b.addr] == b.used
  }

  /** The headers of the blocks say where the next one is and whether they are in use. */
  ghost predicate Heads(next: Offsets, used: Marks, blocks: seq<Block>, end: nat)
  {
    forall b | b in blocks :: HeadAt(next, used, b, end)
  }

  /** Each block but the end mark knows the one before; the first one names itself. */
  ghost predicate Backs(prev: Offsets, addrs: seq<nat>)
  {
    forall i | 0 <= i < |addrs| - 1 :: addrs[i] in prev && prev[addrs[i]] == addrs[if i == 0 then 0 else i - 1]
  }

  /** Blocks start at aligned offsets, and what is handed out is not empty. */
  ghost predicate Aligned(blocks: seq<Block>, end: nat)
  {
    forall b | b in blocks :: b.addr % ALIGN == 0 && (b.used && b.addr != end ==> b.size > 0)
  }

  ghost predicate Rising(addrs: seq<nat>)
  {
    forall i, j | 0 <= i < j < |addrs| :: addrs[i] < addrs[j]
  }

  lemma AddrsRising(blocks: seq<Block>)
    requires Tiles(blocks, 0, HEADER)
    ensures Rising(Addrs(blocks))
  {
    hide Tiles;
    forall i, j | 0 <= i < j < |blocks|
      ensures Addrs(blocks)[i] < Addrs(blocks)[j]
    {
      Disjoint(blocks, 0, HEADER, i, j);
    }
  }

  // ------------------------------------------------------------ headers

  /** The new blocks have right headers, and of the others only old ones have changed. */
  ghost predicate Reheaded(next: Offsets, used: Marks, next': Offsets, used': Marks, gone: seq<Block>, mid: seq<Block>,
                           end: nat)
  {
    && Heads(next', used', mid, end)
    && (forall a | a in next && a !in Addrs(mid) && a !in Addrs(gone) :: a in next' && next'[a] == next[a])
    && (forall a | a in used && a !in Addrs(mid) && a !in Addrs(gone) :: a in used' && used'[a] == used[a])
  }

  /** Other blocks on a stretch before the end mark. */
  ghost predicate Exchange(blocks: seq<Block>, i: nat, j: nat, mid: seq<Block>)
  {
    && i < j < |blocks| && mid != []
    && Tiles(mid, blocks[i].addr, HEADER) && Extent(mid, HEADER) == Extent(blocks[i..j], HEADER)
  }

  lemma Exchanged(blocks: seq<Block>, i: nat, j: nat, mid: seq<Block>, memSize: nat, next: Offsets, used: Marks,
                  next': Offsets, used': Marks)
    requires Layout(blocks, memSize) && Heads(next, used, blocks, memSize + HEADER) && Exchange(blocks, i, j, mid)
    requires Reheaded(next, used, next', used', blocks[i..j], mid, memSize + HEADER)
    ensures var r := Replace(blocks, i, j, mid);
            && Layout(r, memSize) && Heads(next', used', r, memSize + HEADER)
            && SumUsed(r, HEADER) == SumUsed(blocks, HEADER) - SumUsed(blocks[i..j], HEADER) + SumUsed(mid, HEADER)
            && Live(r) == Live(blocks) - Live(blocks[i..j]) + Live(mid)
            && FreeAddrs(r) == FreeAddrs(blocks) - FreeAddrs(blocks[i..j]) + FreeAddrs(mid)
  {
    hide Tiles, Extent, SumFree, SumUsed, Live, FreeAddrs, Heads, Reheaded;
    var r := Replace(blocks, i, j, mid);
    ReplaceTiles(blocks, 0, HEADER, i, j, mid);
    ReplaceSets(blocks, 0, HEADER, i, j, mid);
    assert r[|r| - 1] == blocks[|blocks| - 1];
    ExchangedHeads(blocks, i, j, mid, next, used, next', used', memSize + HEADER);
  }

  lemma ExchangedHeads(blocks: seq<Block>, i: nat, j: nat, mid: seq<Block>, next: Offsets, used: Marks, next': Offsets,
                       used': Marks, end: nat)
    requires i < j <= |blocks| && mid != [] && Heads(next, used, blocks, end)
    requires Reheaded(next, used, next', used', blocks[i..j], mid, end)
    requires Tiles(blocks, 0, HEADER) && Tiles(Replace(blocks, i, j, mid), 0, HEADER)
    ensures Heads(next', used', Replace(blocks, i, j, mid), end)
  {
    hide Tiles, HeadAt, Addrs;
    var r := Replace(blocks, i, j, mid);
    var n := i + |mid|;
    assert r[..i] == blocks[..i] && r[i..n] == mid && r[n..] == blocks[j..];
    Apart(r, 0, HEADER, i, n);
    Apart(blocks, 0, HEADER, i, j);
    forall b | b in r
      ensures HeadAt(next', used', b, end)
    {
      if b !in mid {
        assert b in blocks[..i] || b in blocks[j..];
        HeadKept(next, used, next', used', blocks[i..j], mid, b, end);
      }
    }
  }

  lemma HeadKept(next: Offsets, used: Marks, next': Offsets, used': Marks, gone: seq<Block>, mid: seq<Block>, b: Block,
                 end: nat)
    requires Reheaded(next, used, next', used', gone, mid, end) && HeadAt(next, used, b, end)
    requires (forall x | x in mid :: x.addr != b.addr) && (forall x | x in gone :: x.addr != b.addr)
    ensures HeadAt(next', used', b, end)
  {
    assert b.addr !in Addrs(mid) && b.addr !in Addrs(gone);
  }

  ghost function Inserted(addrs: seq<nat>, i: nat, x: nat): seq<nat>
    requires i < |addrs|
  {
    addrs[..i + 1] + [x] + addrs[i + 1..]
  }

  ghost function Removed(addrs: seq<nat>, i: nat): seq<nat>
    requires i < |addrs|
  {
    addrs[..i] + addrs[i + 1..]
  }

  lemma BacksInsert(prev: Offsets, addrs: seq<nat>, i: nat, x: nat)
    requires Backs(prev, addrs) && Rising(addrs) && i + 1 < |addrs| && addrs[i] < x < addrs[i + 1]
    ensures Backs(if i + 2 == |addrs| then prev[x := addrs[i]]
                  else prev[x := addrs[i]][addrs[i + 1] := x], Inserted(addrs, i, x))
  {
    var r := Inserted(addrs, i, x);
    var prev' := if i + 2 == |addrs| then prev[x := addrs[i]] else prev[x := addrs[i]][addrs[i + 1] := x];
    forall k | 0 <= k < |r| - 1
      ensures r[k] in prev' && prev'[r[k]] == r[if k == 0 then 0 else k - 1]
    {
      if k <= i {
        assert r[k] == addrs[k] && addrs[k] <= addrs[i];
      } else if k > i + 1 {
        assert r[k] == addrs[k - 1];
      }
    }
  }

  lemma BacksRemove(prev: Offsets, addrs: seq<nat>, i: nat)
    requires Backs(prev, addrs) && Rising(addrs) && i + 2 < |addrs|
    ensures Backs(prev[addrs[i + 2] := addrs[i]], Removed(addrs, i + 1))
  {
    var r := Removed(addrs, i + 1);
    var prev' := prev[addrs[i + 2] := addrs[i]];
    forall k | 0 <= k < |r| - 1
      ensures r[k] in prev' && prev'[r[k]] == r[if k == 0 then 0 else k - 1]
    {
      if k <= i {
        assert r[k] == addrs[k] && addrs[k] <= addrs[i] < addrs[i + 2];
      } else {
        assert r[k] == addrs[k + 1];
      }
    }
  }

  lemma AlignedReplace(blocks: seq<Block>, i: nat, j: nat, mid: seq<Block>, end: nat)
    requires Aligned(blocks, end) && Aligned(mid, end) && i <= j <= |blocks|
    ensures Aligned(Replace(blocks, i, j, mid), end)
  {
  }

  // ------------------------------------------------------------ one block changes its mark

  lemma Marked(blocks: seq<Block>, i: nat, u: bool, memSize: nat, next: Offsets, used: Marks, prev: Offsets)
    requires Layout(blocks, memSize) && Heads(next, used, blocks, memSize + HEADER) && Aligned(blocks, memSize + HEADER)
             && Backs(prev, Addrs(blocks))
    requires i < |blocks| - 1 && blocks[i].used == !u && (u ==> blocks[i].size > 0)
    ensures var b := blocks[i];
            var r := Replace(blocks, i, i + 1, [b.(used := u)]);
            && Layout(r, memSize) && Heads(next, used[b.addr := u], r, memSize + HEADER) && Aligned(r, memSize + HEADER)
            && Backs(prev, Addrs(r))
            && SumUsed(r, HEADER) == SumUsed(blocks, HEADER) + (if u then HEADER + b.size else -(HEADER + b.size))
            && Live(r) == (if u then Live(blocks) + {b.(used := u)} else Live(blocks) - {b})
            && FreeAddrs(r) == (if u then FreeAddrs(blocks) - {b.addr} else FreeAddrs(blocks) + {b.addr})
  {
    hide Tiles, Extent, SumFree, SumUsed, Live, FreeAddrs, Backs;
    var b := blocks[i];
    var mid := [b.(used := u)];
    assert blocks[i..i + 1] == [b];
    One(b, HEADER);
    One(mid[0], HEADER);
    assert HeadAt(next, used, b, memSize + HEADER);
    assert Addrs(mid)[0] == b.addr;
    Exchanged(blocks, i, i + 1, mid, memSize, next, used, next, used[b.addr := u]);
    assert Addrs(Replace(blocks, i, i + 1, mid)) == Addrs(blocks);
    assert b in blocks;
    AlignedReplace(blocks, i, i + 1, mid, memSize + HEADER);
  }

  // ------------------------------------------------------------ one block becomes two

  /** Block `i` as a block of `want` bytes in use and a free rest. */
  ghost function Parts(b: Block, want: nat): seq<Block>
    requires want + HEADER <= b.size
  {
    [Block(b.addr, want, true), Block(b.addr + HEADER + want, b.size - want - HEADER, false)]
  }

  /** What a free block becomes when `want` bytes of it are handed out. */
  ghost function Served(b: Block, want: nat): (r: seq<Block>)
    ensures r != []
  {
    if b.size >= want + HEADER + MIN_ALIGNED then Parts(b, want) else [b.(used := true)]
  }

  lemma SplitBlocks(blocks: seq<Block>, i: nat, want: nat, memSize: nat, next: Offsets, used: Marks, next': Offsets,
                    used': Marks)
    requires Layout(blocks, memSize) && Heads(next, used, blocks, memSize + HEADER)
    requires i < |blocks| - 1 && want + HEADER <= blocks[i].size
    requires var a, rest := blocks[i].addr, blocks[i].addr + HEADER + want;
             a in next && next' == next[rest := next[a]][a := rest] && used' == used[rest := false][a := true]
    ensures var b := blocks[i];
            var r := Replace(blocks, i, i + 1, Parts(b, want));
            && Layout(r, memSize) && Heads(next', used', r, memSize + HEADER)
            && SumUsed(r, HEADER) == SumUsed(blocks, HEADER) + HEADER + want - (if b.used then HEADER + b.size else 0)
            && Live(r) == Live(blocks) - {b} + {Block(b.addr, want, true)}
            && FreeAddrs(r) == FreeAddrs(blocks) - (if b.used then {} else {b.addr}) + {b.addr + HEADER + want}
  {
    hide Tiles, Extent, SumFree, SumUsed, Live, FreeAddrs;
    var b, mid := blocks[i], Parts(blocks[i], want);
    assert blocks[i..i + 1] == [b];
    One(b, HEADER);
    One(mid[0], HEADER);
    One(mid[1], HEADER);
    assert mid == [mid[0], mid[1]];
    Two(mid[0], mid[1], HEADER);
    EndOf(blocks, memSize, i);
    assert HeadAt(next, used, b, memSize + HEADER);
    assert Addrs(mid)[0] == b.addr && Addrs(mid)[1] == mid[1].addr;
    Exchanged(blocks, i, i + 1, mid, memSize, next, used, next', used');
    LiveIn(blocks);
  }

  /** The end mark is the last block. */
  lemma EndOf(blocks: seq<Block>, memSize: nat, i: nat)
    requires Layout(blocks, memSize) && i < |blocks|
    ensures i == |blocks| - 1 <==> blocks[i].addr == memSize + HEADER
    ensures i < |blocks| - 1 ==> blocks[i].addr + HEADER + blocks[i].size == blocks[i + 1].addr <= memSize + HEADER
  {
    hide Tiles, Extent;
    var last := |blocks| - 1;
    At(blocks, 0, HEADER, last);
    assert blocks[..last + 1] == blocks;
    if i < last {
      At(blocks, 0, HEADER, i);
      Disjoint(blocks, 0, HEADER, i, last);
      At(blocks, 0, HEADER, i + 1);
    }
  }

  lemma SplitBacks(blocks: seq<Block>, i: nat, want: nat, memSize: nat, prev: Offsets)
    requires Layout(blocks, memSize) && Backs(prev, Addrs(blocks)) && i < |blocks| - 1
             && want + HEADER <= blocks[i].size
    ensures var b := blocks[i];
            var a, rest, n := b.addr, b.addr + HEADER + want, b.addr + HEADER + b.size;
            Backs(if n == memSize + HEADER then prev[rest := a] else prev[rest := a][n := rest],
                  Addrs(Replace(blocks, i, i + 1, Parts(b, want))))
  {
    hide Tiles, Extent, Backs;
    var b := blocks[i];
    EndOf(blocks, memSize, i);
    EndOf(blocks, memSize, i + 1);
    AddrsRising(blocks);
    BacksInsert(prev, Addrs(blocks), i, b.addr + HEADER + want);
    assert Addrs(Replace(blocks, i, i + 1, Parts(b, want))) == Inserted(Addrs(blocks), i, b.addr + HEADER + want);
  }

  lemma SplitAligned(blocks: seq<Block>, i: nat, want: nat, end: nat)
    requires Aligned(blocks, end) && i < |blocks| && want + HEADER <= blocks[i].size && want > 0 && want % ALIGN == 0
    ensures Aligned(Replace(blocks, i, i + 1, Parts(blocks[i], want)), end)
  {
    assert blocks[i] in blocks;
    AlignedReplace(blocks, i, i + 1, Parts(blocks[i], want), end);
  }

  // ------------------------------------------------------------ two blocks become one

  ghost function Joint(a: Block, b: Block): Block
  {
    Block(a.addr, a.size + HEADER + b.size, false)
  }

  lemma JoinBlocks(blocks: seq<Block>, i: nat, memSize: nat, next: Offsets, used: Marks)
    requires Layout(blocks, memSize) && Heads(next, used, blocks, memSize + HEADER)
    requires i + 2 < |blocks| && !blocks[i].used && !blocks[i + 1].used
    ensures blocks[i + 1].addr in next
    ensures var a, b := blocks[i], blocks[i + 1];
            var r := Replace(blocks, i, i + 2, [Joint(a, b)]);
            && Layout(r, memSize) && Heads(next[a.addr := next[b.addr]], used, r, memSize + HEADER)
            && SumUsed(r, HEADER) == SumUsed(blocks, HEADER) && Live(r) == Live(blocks)
            && FreeAddrs(r) == FreeAddrs(blocks) - {b.addr}
  {
    hide Tiles, Extent, SumFree, SumUsed, Live, FreeAddrs;
    var a, b := blocks[i], blocks[i + 1];
    var mid := [Joint(a, b)];
    assert blocks[i..i + 2] == [a, b];
    One(a, HEADER);
    One(b, HEADER);
    Two(a, b, HEADER);
    One(mid[0], HEADER);
    EndOf(blocks, memSize, i);
    EndOf(blocks, memSize, i + 1);
    assert HeadAt(next, used, a, memSize + HEADER) && HeadAt(next, used, b, memSize + HEADER);
    assert Addrs(mid)[0] == a.addr && Addrs([a, b])[0] == a.addr;
    Exchanged(blocks, i, i + 2, mid, memSize, next, used, next[a.addr := next[b.addr]], used);
    FreeAt(blocks, 0, HEADER);
  }

  lemma JoinBacks(blocks: seq<Block>, i: nat, memSize: nat, prev: Offsets)
    requires Layout(blocks, memSize) && Backs(prev, Addrs(blocks)) && i + 2 < |blocks|
    ensures Backs(prev[blocks[i + 2].addr := blocks[i].addr],
                  Addrs(Replace(blocks, i, i + 2, [Joint(blocks[i], blocks[i + 1])])))
  {
    hide Tiles, Extent, Backs;
    AddrsRising(blocks);
    BacksRemove(prev, Addrs(blocks), i);
    assert Addrs(Replace(blocks, i, i + 2, [Joint(blocks[i], blocks[i + 1])])) == Removed(Addrs(blocks), i + 1);
  }

  // ------------------------------------------------------------ no two free neighbours

  /** Free neighbours there are at most around block `i`. */
  ghost predicate Around(blocks: seq<Block>, i: nat)
  {
    i < |blocks| && !blocks[i].used && NoTwoFree(blocks[..i]) && NoTwoFree(blocks[i + 1..])
  }

  lemma AroundNew(blocks: seq<Block>, i: nat, b: Block)
    requires NoTwoFree(blocks) && i < |blocks| && !b.used
    ensures Around(Replace(blocks, i, i + 1, [b]), i)
  {
    hide NoTwoFree;
    var r := Replace(blocks, i, i + 1, [b]);
    assert blocks == blocks[..i] + ([blocks[i]] + blocks[i + 1..]);
    NoTwoFreeConcat(blocks[..i], [blocks[i]] + blocks[i + 1..]);
    NoTwoFreeConcat([blocks[i]], blocks[i + 1..]);
    assert r[..i] == blocks[..i] && r[i + 1..] == blocks[i + 1..];
  }

  lemma AroundSplit(blocks: seq<Block>, i: nat, want: nat)
    requires NoTwoFree(blocks) && i < |blocks| && want + HEADER <= blocks[i].size
    ensures Around(Replace(blocks, i, i + 1, Parts(blocks[i], want)), i + 1)
  {
    hide NoTwoFree;
    var x, y := Parts(blocks[i], want)[0], Parts(blocks[i], want)[1];
    One(x, HEADER);
    var r := Replace(blocks, i, i + 1, [x, y]);
    assert Parts(blocks[i], want) == [x, y];
    assert blocks == blocks[..i] + ([blocks[i]] + blocks[i + 1..]);
    NoTwoFreeConcat(blocks[..i], [blocks[i]] + blocks[i + 1..]);
    NoTwoFreeConcat([blocks[i]], blocks[i + 1..]);
    NoTwoFreeConcat(blocks[..i], [x]);
    assert r[..i + 1] == blocks[..i] + [x] && r[i + 2..] == blocks[i + 1..];
  }

  lemma AroundForward(blocks: seq<Block>, i: nat)
    requires Around(blocks, i) && i + 2 < |blocks| && !blocks[i + 1].used
    ensures var r := Replace(blocks, i, i + 2, [Joint(blocks[i], blocks[i + 1])]);
            Around(r, i) && r[i + 1] == blocks[i + 2] && r[i + 1].used && (i > 0 ==> r[i - 1] == blocks[i - 1])
  {
    var r := Replace(blocks, i, i + 2, [Joint(blocks[i], blocks[i + 1])]);
    var c := blocks[i + 1..];
    assert c[1..] == blocks[i + 2..] && c[1] == blocks[i + 2];
    assert r[..i] == blocks[..i] && r[i + 1..] == blocks[i + 2..];
  }

  lemma AroundBackward(blocks: seq<Block>, i: nat)
    requires Around(blocks, i) && 0 < i < |blocks| - 1 && !blocks[i - 1].used && blocks[i + 1].used
    ensures var r := Replace(blocks, i - 1, i + 1, [Joint(blocks[i - 1], blocks[i])]);
            Around(r, i - 1) && r[i] == blocks[i + 1] && (i > 1 ==> r[i - 2].used)
  {
    var r := Replace(blocks, i - 1, i + 1, [Joint(blocks[i - 1], blocks[i])]);
    assert blocks[..i] == blocks[..i - 1] + [blocks[i - 1]];
    NoTwoFreeConcat(blocks[..i - 1], [blocks[i - 1]]);
    assert r[..i - 1] == blocks[..i - 1] && r[i..] == blocks[i + 1..];
    assert i > 1 ==> blocks[..i - 1][i - 2] == r[i - 2];
  }

  lemma Settled(blocks: seq<Block>, i: nat)
    requires Around(blocks, i) && i + 1 < |blocks| && blocks[i + 1].used && (i > 0 ==> blocks[i - 1].used)
    ensures NoTwoFree(blocks)
  {
    assert blocks == blocks[..i] + ([blocks[i]] + blocks[i + 1..]);
    NoTwoFreeConcat([blocks[i]], blocks[i + 1..]);
    NoTwoFreeConcat(blocks[..i], [blocks[i]] + blocks[i + 1..]);
  }

  lemma OccupyNoTwoFree(blocks: seq<Block>, i: nat, mid: seq<Block>)
    requires NoTwoFree(blocks) && i + 1 < |blocks| && !blocks[i].used && 1 <= |mid| <= 2 && mid[0].used
    ensures NoTwoFree(Replace(blocks, i, i + 1, mid))
  {
    NoTwoFreeAt(blocks, i);
    ReplaceNoTwoFree(blocks, i, i + 1, mid);
  }

  // ------------------------------------------------------------ the heap

  /** No free block from `from` up to `to` can take `want` bytes. */
  ghost predicate NoFit(blocks: seq<Block>, from: nat, to: nat, want: nat)
  {
    forall b | b in blocks && !b.used && from <= b.addr < to :: b.size < want
  }

  class Heap {
    const memSize: nat
    const bytes: array<Byte>
    var next: Offsets
    var prev: Offsets
    var used: Marks
    var lfree: nat
    var usedMem: nat
    var maxMem: nat
    /** The blocks in order of address; the last one is the end mark. */
    ghost var blocks: seq<Block>

    /** Where heap_end lies. */
    function End(): nat
    {
      memSize + HEADER
    }

    /** The blocks and their headers agree. */
    ghost predicate Body()
      reads this
    {
      && memSize < WORD - 2 * HEADER && bytes.Length == memSize + 2 * HEADER
      && Layout(blocks, memSize) && Heads(next, used, blocks, End()) && Backs(prev, Addrs(blocks))
      && Aligned(blocks, End())
    }

    ghost predicate Core()
      reads this
    {
      Body() && (lfree == End() || lfree in FreeAddrs(blocks))
    }

    ghost predicate Counted()
      reads this
    {
      NoTwoFree(blocks) && usedMem + HEADER == SumUsed(blocks, HEADER) && usedMem <= maxMem
    }

    ghost predicate Valid()
      reads this
    {
      Core() && Counted()
    }

    /** lfree is what its name says. */
    ghost predicate Lowest()
      reads this
    {
      forall a | a in FreeAddrs(blocks) :: lfree <= a
    }

    /** rt_system_heap_init, for a heap that is large enough. */
    constructor (memSize: nat)
      requires memSize % ALIGN == 0 && memSize < WORD - 2 * HEADER
      ensures Valid() && Lowest() && this.memSize == memSize && fresh(bytes)
      ensures blocks == [Block(0, memSize, false), Block(memSize + HEADER, 0, true)] && usedMem == 0 && lfree == 0
    {
      this.memSize := memSize;
      bytes := new Byte[memSize + 2 * HEADER];
      var end := memSize + HEADER;
      next, prev, used := map[0 := end, end := end], map[0 := 0, end := end], map[0 := false, end := true];
      lfree, usedMem, maxMem := 0, 0, 0;
      blocks := [Block(0, memSize, false), Block(end, 0, true)];
      new;
      One(blocks[0], HEADER);
      One(blocks[1], HEADER);
      Two(blocks[0], blocks[1], HEADER);
    }

    /** The header of block `i`. */
    lemma Head(i: nat)
      requires Body() && i < |blocks|
      ensures blocks[i].addr in next && blocks[i].addr in used && used[blocks[i].addr] == blocks[i].used
      ensures if i == |blocks| - 1 then blocks[i].addr == End() == next[blocks[i].addr]
              else
                && next[blocks[i].addr] == blocks[i].addr + HEADER + blocks[i].size == blocks[i + 1].addr <= End()
                && blocks[i].addr < End()
    {
      hide Layout, Backs, Aligned, FreeAddrs;
      assert blocks[i] in blocks;
      EndOf(blocks, memSize, i);
    }

    // ---------------------------------------------------------- merging

    /** A free block takes in the free block behind it. */
    method Join(a: nat, n: nat, ghost i: nat)
      requires Core() && i + 2 < |blocks| && !blocks[i].used && !blocks[i + 1].used && a == blocks[i].addr
               && n == blocks[i + 1].addr
      modifies this`next, this`prev, this`lfree, this`blocks
      ensures Core() && blocks == Replace(old(blocks), i, i + 2, [Joint(old(blocks[i]), old(blocks[i + 1]))])
      ensures Live(blocks) == Live(old(blocks)) && SumUsed(blocks, HEADER) == SumUsed(old(blocks), HEADER)
      ensures FreeAddrs(blocks) == FreeAddrs(old(blocks)) - {n} && lfree == if old(lfree) == n then a else old(lfree)
    {
      hide Layout, Heads, Backs, Aligned, FreeAddrs, Live, SumUsed;
      Head(i);
      Head(i + 1);
      JoinBlocks(blocks, i, memSize, next, used);
      JoinBacks(blocks, i, memSize, prev);
      JoinAligned(blocks, i, End());
      LowFree(blocks, memSize, i);
      LowFree(blocks, memSize, i + 1);
      if lfree == n {
        lfree := a;
      }
      var follower := next[n];
      next := next[a := follower];
      prev := prev[follower := a];
      blocks := Replace(blocks, i, i + 2, [Joint(blocks[i], blocks[i + 1])]);
    }

    /** plug_holes. */
    method PlugHoles(mem: nat, ghost i: nat)
      requires Core() && i + 1 < |blocks| && mem == blocks[i].addr && Around(blocks, i)
      modifies this`next, this`prev, this`lfree, this`blocks
      ensures Core() && NoTwoFree(blocks)
      ensures Live(blocks) == Live(old(blocks)) && SumUsed(blocks, HEADER) == SumUsed(old(blocks), HEADER)
      ensures var n, p := old(blocks[i + 1]), old(blocks[if i == 0 then 0 else i - 1]);
              var low := if !n.used && old(lfree) == n.addr then mem else old(lfree);
              && FreeAddrs(blocks)
                 == FreeAddrs(old(blocks)) - (if n.used then {} else {n.addr}) - (if p.used || i == 0 then {} else {mem})
              && lfree == (if i > 0 && !p.used && low == mem then p.addr else low)
              && (n.used && (i == 0 || p.used) ==> blocks == old(blocks))
    {
      hide Layout, Heads, Backs, Aligned, FreeAddrs, Live, SumUsed, NoTwoFree, Around;
      PlugForward(mem, i);
      PlugBackward(mem, i);
    }

    method PlugForward(mem: nat, ghost i: nat)
      requires Core() && i + 1 < |blocks| && mem == blocks[i].addr && Around(blocks, i)
      modifies this`next, this`prev, this`lfree, this`blocks
      ensures Core() && i + 1 < |blocks| && mem == blocks[i].addr && Around(blocks, i) && blocks[i + 1].used
      ensures i > 0 ==> blocks[i - 1] == old(blocks[i - 1])
      ensures Live(blocks) == Live(old(blocks)) && SumUsed(blocks, HEADER) == SumUsed(old(blocks), HEADER)
      ensures var n := old(blocks[i + 1]);
              && FreeAddrs(blocks) == FreeAddrs(old(blocks)) - (if n.used then {} else {n.addr})
              && lfree == (if !n.used && old(lfree) == n.addr then mem else old(lfree))
              && (n.used ==> blocks == old(blocks))
    {
      hide Layout, Heads, Backs, Aligned, FreeAddrs, Live, SumUsed, NoTwoFree, Around;
      AroundFree(blocks, i);
      Head(i);
      Head(i + 1);
      EndUsed(blocks, memSize);
      var nmem := next[mem];
      if mem != nmem && !used[nmem] && nmem != End() {
        AroundForward(blocks, i);
        Join(mem, nmem, i);
      }
    }

    method PlugBackward(mem: nat, ghost i: nat)
      requires Core() && i + 1 < |blocks| && mem == blocks[i].addr && Around(blocks, i) && blocks[i + 1].used
      modifies this`next, this`prev, this`lfree, this`blocks
      ensures Core() && NoTwoFree(blocks)
      ensures Live(blocks) == Live(old(blocks)) && SumUsed(blocks, HEADER) == SumUsed(old(blocks), HEADER)
      ensures var p := old(blocks[if i == 0 then 0 else i - 1]);
              && FreeAddrs(blocks) == FreeAddrs(old(blocks)) - (if p.used || i == 0 then {} else {mem})
              && lfree == (if i > 0 && !p.used && old(lfree) == mem then p.addr else old(lfree))
              && (i == 0 || p.used ==> blocks == old(blocks))
    {
      hide Layout, Heads, Aligned, FreeAddrs, Live, SumUsed, NoTwoFree, Around;
      AroundFree(blocks, i);
      assert Addrs(blocks)[i] == mem;
      var pmem := prev[mem];
      ghost var k := if i == 0 then 0 else i - 1;
      assert Addrs(blocks)[k] == pmem;
      Head(k);
      if pmem != mem && !used[pmem] {
        AroundBackward(blocks, i);
        Join(pmem, mem, i - 1);
        Settled(blocks, i - 1);
      } else {
        Settled(blocks, i);
      }
    }

    // ---------------------------------------------------------- rt_malloc

    /** The request is let through although not even a block of the least size fits into the heap. */
    predicate Spins(size: Size)
    {
      size > 0 && AlignUp(size) <= memSize < MIN_ALIGNED
    }

    /** The search of rt_malloc for the first block that can take `want` bytes. */
    method Find(want: nat) returns (found: bool, ptr: nat, ghost i: nat)
      requires Core() && want <= memSize
      ensures found ==>
                && i < |blocks| - 1 && blocks[i].addr == ptr && !blocks[i].used && blocks[i].size >= want
                && lfree <= ptr && ptr + want != memSize && NoFit(blocks, lfree, ptr, want)
      ensures !found ==> NoRoom(blocks, lfree, want, memSize)
    {
      hide Layout, Heads, Backs, Aligned, FreeAddrs;
      i := LowIndex();
      found, ptr := false, lfree;
      assert Minus(memSize, want) == memSize - want;
      while ptr < Minus(memSize, want)
        invariant i < |blocks| && blocks[i].addr == ptr && lfree <= ptr && NoFit(blocks, lfree, ptr, want)
        decreases memSize - ptr
      {
        Head(i);
        if !used[ptr] && next[ptr] - (ptr + HEADER) >= want {
          found := true;
          return;
        }
        NoFitNext(blocks, memSize, lfree, i, want);
        ptr := next[ptr];
        i := i + 1;
      }
      NoFitAtEnd(blocks, memSize, lfree, ptr, want);
    }

    lemma LowIndex() returns (i: nat)
      requires Core()
      ensures i < |blocks| && blocks[i].addr == lfree
    {
      hide Heads, Backs, Aligned, FreeAddrs, Tiles, Extent;
      if lfree == End() {
        i := |blocks| - 1;
        EndOf(blocks, memSize, i);
      } else {
        LiveIn(blocks);
        var b :| b in blocks && b.addr == lfree && !b.used;
        i :| 0 <= i < |blocks| && blocks[i] == b;
      }
    }

    /** The loop of rt_malloc that moves lfree on to the next free block. */
    method SkipUsed(ghost k: nat)
      requires Body() && k < |blocks| && blocks[k].addr == lfree
      modifies this`lfree
      ensures Core() && old(lfree) <= lfree && forall a | a in FreeAddrs(blocks) && old(lfree) <= a :: lfree <= a
    {
      hide Layout, Heads, Backs, Aligned, FreeAddrs;
      ghost var i := k;
      Head(k);
      while used[lfree] && lfree != End()
        invariant Body() && k <= i < |blocks| && blocks[i].addr == lfree && lfree in used
        invariant old(lfree) <= lfree && forall b | b in blocks && !b.used && old(lfree) <= b.addr :: lfree <= b.addr
        decreases |blocks| - i
      {
        Head(i);
        NextBlock(blocks, memSize, i);
        lfree := next[lfree];
        i := i + 1;
        Head(i);
      }
      Head(i);
      LiveIn(blocks);
      if lfree != End() {
        LowFree(blocks, memSize, i);
      }
    }

    function Most(a: nat, b: nat): nat
    {
      if a < b then b else a
    }

    method CountUse(n: nat)
      modifies this`usedMem, this`maxMem
      ensures usedMem == old(usedMem) + n && maxMem == Most(old(maxMem), usedMem)
    {
      usedMem := usedMem + n;
      if maxMem < usedMem {
        maxMem := usedMem;
      }
    }

    /** A free block is cut in two: the front part is handed out. */
    method Carve(ptr: nat, want: nat, ghost i: nat)
      requires Valid() && i < |blocks| - 1 && blocks[i].addr == ptr && !blocks[i].used
      requires want > 0 && want % ALIGN == 0 && blocks[i].size >= want + HEADER + MIN_ALIGNED
      modifies this`next, this`prev, this`used, this`usedMem, this`maxMem, this`blocks
      ensures Body() && Counted() && i < |blocks| && blocks[i].addr == ptr
      ensures Live(blocks) == Live(old(blocks)) + {Block(ptr, want, true)}
      ensures FreeAddrs(blocks) == FreeAddrs(old(blocks)) - {ptr} + {ptr + HEADER + want}
      ensures blocks == Replace(old(blocks), i, i + 1, Served(old(blocks[i]), want))
      ensures maxMem == Most(old(maxMem), usedMem)
    {
      hide Layout, Heads, Backs, Aligned, FreeAddrs, Live, SumUsed, NoTwoFree;
      Head(i);
      var ptr2, follower := ptr + HEADER + want, next[ptr];
      ghost var next0, used0 := next, used;
      NotLive(blocks, i);
      SplitBacks(blocks, i, want, memSize, prev);
      SplitAligned(blocks, i, want, End());
      OccupyNoTwoFree(blocks, i, Parts(blocks[i], want));
      used := used[ptr2 := false];
      next := next[ptr2 := follower];
      prev := prev[ptr2 := ptr];
      next := next[ptr := ptr2];
      used := used[ptr := true];
      if follower != End() {
        prev := prev[follower := ptr2];
      }
      SplitBlocks(blocks, i, want, memSize, next0, used0, next, used);
      CountUse(want + HEADER);
      blocks := Replace(blocks, i, i + 1, Parts(blocks[i], want));
    }

    /** A free block is handed out whole. */
    method Whole(ptr: nat, ghost i: nat)
      requires Valid() && i < |blocks| - 1 && blocks[i].addr == ptr && !blocks[i].used && blocks[i].size > 0
      modifies this`used, this`usedMem, this`maxMem, this`blocks
      ensures Body() && Counted() && i < |blocks| && blocks[i].addr == ptr
      ensures Live(blocks) == Live(old(blocks)) + {Block(ptr, old(blocks[i].size), true)}
      ensures FreeAddrs(blocks) == FreeAddrs(old(blocks)) - {ptr}
      ensures blocks == Replace(old(blocks), i, i + 1, [old(blocks[i]).(used := true)])
      ensures maxMem == Most(old(maxMem), usedMem)
    {
      hide Layout, Heads, Backs, Aligned, FreeAddrs, Live, SumUsed, NoTwoFree;
      Head(i);
      Marked(blocks, i, true, memSize, next, used, prev);
      OccupyNoTwoFree(blocks, i, [blocks[i].(used := true)]);
      used := used[ptr := true];
      CountUse(next[ptr] - ptr);
      blocks := Replace(blocks, i, i + 1, [blocks[i].(used := true)]);
    }

    /**
     rt_malloc: the first block from lfree on that can take the request.  It
     fails exactly if there is none, apart from an exact fit just before the
     end mark.  What it hands out is large enough exactly if the request can be
     rounded up in 32 bits.
     */
    method Malloc(size: Size) returns (r: nat, ghost b: Block)
      requires Valid() && !Spins(size)
      modifies this`next, this`prev, this`used, this`lfree, this`usedMem, this`maxMem, this`blocks
      ensures Valid() && (old(Lowest()) ==> Lowest())
      ensures r == NULL <==> size == 0 || NoRoom(old(blocks), old(lfree), Request(size), memSize)
      ensures r == NULL ==> blocks == old(blocks) && lfree == old(lfree)
      ensures maxMem == if r == NULL then old(maxMem) else Most(old(maxMem), usedMem)
      ensures r != NULL ==>
                && r == b.addr + HEADER && r % ALIGN == 0 && IsFirstFit(old(blocks), old(lfree), Request(size), b)
                && b !in Live(old(blocks)) && Live(blocks) == Live(old(blocks)) + {b}
      ensures r != NULL ==> (size <= b.size <==> size <= WORD - ALIGN)
      ensures r != NULL ==>
                exists i ::
                  0 <= i < |old(blocks)| - 1 && !old(blocks)[i].used && b == Served(old(blocks)[i], Request(size))[0]
                            && blocks == Replace(old(blocks), i, i + 1, Served(old(blocks)[i], Request(size)))
    {
      hide Layout, Heads, Backs, Aligned, FreeAddrs, Live, SumUsed, NoTwoFree, Request, AlignUp, NoRoom, NoFit;
      r, b := NULL, Block(0, 0, false);
      if size == 0 {
        return;
      }
      RequestIs(size);
      if AlignUp(size) > memSize {
        TooLarge(blocks, memSize, lfree, Request(size));
        return;
      }
      var want := if AlignUp(size) < MIN_ALIGNED then MIN_ALIGNED else AlignUp(size);
      var found, ptr;
      ghost var i;
      found, ptr, i := Find(want);
      if found {
        b := Take(ptr, want, i);
        r := ptr + HEADER;
      }
    }

    /** The part of rt_malloc that hands out the block that was found. */
    method Take(ptr: nat, want: nat, ghost i: nat) returns (ghost b: Block)
      requires Valid() && i < |blocks| - 1 && blocks[i].addr == ptr && !blocks[i].used
      requires want > 0 && want % ALIGN == 0 && blocks[i].size >= want && lfree <= ptr
      modifies this`next, this`prev, this`used, this`lfree, this`usedMem, this`maxMem, this`blocks
      ensures Valid() && (old(Lowest()) ==> Lowest())
      ensures b.used && b.addr == ptr && ptr % ALIGN == 0 && want <= b.size < want + HEADER + MIN_ALIGNED
      ensures b !in Live(old(blocks)) && Live(blocks) == Live(old(blocks)) + {b}
      ensures !NoRoom(old(blocks), old(lfree), want, memSize) || ptr + want == memSize
      ensures blocks == Replace(old(blocks), i, i + 1, Served(old(blocks[i]), want))
              && b == Served(old(blocks[i]), want)[0]
      ensures maxMem == Most(old(maxMem), usedMem)
    {
      hide Layout, Heads, Backs, Aligned, FreeAddrs, Live, SumUsed, NoTwoFree;
      Head(i);
      ghost var x := blocks[i];
      assert x in blocks;
      AlignedAt(blocks, i, End());
      LowFree(blocks, memSize, i);
      NotLiveAt(blocks, memSize, i, want);
      NotLiveAt(blocks, memSize, i, x.size);
      if next[ptr] - (ptr + HEADER) >= want + HEADER + MIN_ALIGNED {
        Carve(ptr, want, i);
        b := Block(ptr, want, true);
      } else {
        Whole(ptr, i);
        b := Block(ptr, x.size, true);
      }
      if ptr == lfree {
        SkipUsed(i);
      }
    }

    // ---------------------------------------------------------- rt_free

    /** rt_free; a pointer outside of the heap is ignored. */
    method Free(ptr: int, ghost i: nat)
      requires Valid() && (0 < ptr < End() ==> i < |blocks| - 1 && blocks[i].used && ptr == blocks[i].addr + HEADER)
      modifies this`next, this`prev, this`used, this`lfree, this`usedMem, this`blocks
      ensures Valid() && (old(Lowest()) ==> Lowest())
      ensures if 0 < ptr < End() then Live(blocks) == Live(old(blocks)) - {old(blocks[i])} else blocks == old(blocks)
    {
      hide Layout, Heads, Backs, Aligned, FreeAddrs, Live, SumUsed, NoTwoFree, Around;
      if ptr <= 0 || ptr >= End() {
        return;
      }
      Head(i);
      var mem: nat := ptr - HEADER;
      Marked(blocks, i, false, memSize, next, used, prev);
      AroundNew(blocks, i, blocks[i].(used := false));
      used := used[mem := false];
      if mem < lfree {
        lfree := mem;
      }
      blocks := Replace(blocks, i, i + 1, [blocks[i].(used := false)]);
      UsedEnd(blocks, memSize);
      usedMem := usedMem - (next[mem] - mem);
      LowNeighbours(i);
      PlugHoles(mem, i);
    }

    /** A free neighbour of a free block has its address among the free ones. */
    lemma LowNeighbours(i: nat)
      requires Body() && i < |blocks| - 1
      ensures !blocks[i + 1].used ==> blocks[i + 1].addr in FreeAddrs(blocks) && blocks[i].addr < blocks[i + 1].addr
      ensures i > 0 && !blocks[i - 1].used ==>
              blocks[i - 1].addr in FreeAddrs(blocks) && blocks[i - 1].addr < blocks[i].addr
    {
      hide Heads, Backs, Aligned, FreeAddrs, Tiles, Extent;
      EndOf(blocks, memSize, i);
      if !blocks[i + 1].used {
        LowFree(blocks, memSize, i + 1);
      }
      if i > 0 && !blocks[i - 1].used {
        LowFree(blocks, memSize, i - 1);
        EndOf(blocks, memSize, i - 1);
      }
    }

    // ---------------------------------------------------------- contents

    /** The bytes of a block. */
    ghost function Payload(b: Block): seq<Byte>
      reads bytes
    {
      var from := b.addr + HEADER;
      if from + b.size <= bytes.Length then bytes[from..from + b.size] else []
    }

    /** Blocks in use lie in the heap, apart from each other. */
    lemma LiveApart(x: Block, y: Block)
      requires Valid() && x in Live(blocks) && y in Live(blocks)
      ensures x.addr + HEADER + x.size <= bytes.Length
      ensures x != y ==> x.addr + HEADER + x.size <= y.addr || y.addr + HEADER + y.size <= x.addr
    {
      hide Heads, Backs, Aligned, FreeAddrs, Tiles, Extent, SumUsed, NoTwoFree, Live;
      LiveIn(blocks);
      var i :| 0 <= i < |blocks| && blocks[i] == x;
      var j :| 0 <= j < |blocks| && blocks[j] == y;
      At(blocks, 0, HEADER, i);
      if i < j {
        Disjoint(blocks, 0, HEADER, i, j);
      } else if j < i {
        Disjoint(blocks, 0, HEADER, j, i);
      }
    }

    twostate lemma Untouched(z: Block)
      requires z.addr + HEADER + z.size <= bytes.Length
      requires forall k | z.addr + HEADER <= k < z.addr + HEADER + z.size :: bytes[k] == old(bytes[k])
      ensures Payload(z) == old(Payload(z))
    {
    }

    /** The front of a block in use is copied to the front of another one. */
    method CopyPayload(from: nat, to: nat, n: nat, ghost x: Block, ghost y: Block)
      requires Valid() && x in Live(blocks) && y in Live(blocks) && x != y && n <= x.size && n <= y.size
      requires from == x.addr + HEADER && to == y.addr + HEADER
      modifies bytes
      ensures Valid() && SameFront(Payload(y), old(Payload(x)), n)
      ensures forall z | z in Live(blocks) && z != y :: Payload(z) == old(Payload(z))
    {
      hide Core, Counted, Live;
      LiveApart(x, y);
      LiveApart(y, x);
      FrontOf(x, n);
      MemCopy(bytes, from, to, n);
      forall z | z in Live(blocks) && z != y
        ensures Payload(z) == old(Payload(z))
      {
        LiveApart(z, y);
        Untouched(z);
      }
      FrontOf(y, n);
    }

    lemma FrontOf(y: Block, n: nat)
      requires y.addr + HEADER + y.size <= bytes.Length && n <= y.size
      ensures |Payload(y)| == y.size && Payload(y)[..n] == bytes[y.addr + HEADER..y.addr + HEADER + n]
    {
      var from := y.addr + HEADER;
      assert bytes[from..from + y.size][..n] == bytes[from..from + n];
    }

    // ---------------------------------------------------------- rt_realloc

    /**
     The rest of a block in use becomes free.  lfree is not lowered, so that it
     stays the lowest free block exactly if it is not above the rest, or if the
     rest merges with it.
     */
    method Shrink(ptr: nat, size: nat, newSize: nat, ghost i: nat)
      requires Valid() && i < |blocks| - 1 && blocks[i].used && blocks[i].addr == ptr && size == blocks[i].size
      requires newSize > 0 && newSize % ALIGN == 0 && newSize + HEADER + MIN_SIZE < size
      modifies this`next, this`prev, this`used, this`lfree, this`usedMem, this`blocks
      ensures Valid() && Live(blocks) == Live(old(blocks)) - {old(blocks[i])} + {Block(ptr, newSize, true)}
      ensures old(Lowest()) ==> (Lowest() <==> old(lfree) <= ptr + HEADER + size && old(lfree) != End())
      ensures old(lfree) == End() ==> lfree == End()
      ensures old(blocks[i + 1].used) ==> blocks == Replace(old(blocks), i, i + 1, Parts(old(blocks[i]), newSize))
    {
      hide Layout, Heads, Backs, Aligned, FreeAddrs, Live, SumUsed, NoTwoFree, Around, Parts;
      Head(i);
      LowBefore(i);
      ghost var next0, used0: Marks := next, used;
      SplitBacks(blocks, i, newSize, memSize, prev);
      SplitAligned(blocks, i, newSize, End());
      AroundSplit(blocks, i, newSize);
      SplitAt(blocks, i, newSize);
      UsedPart(blocks, memSize, i);
      usedMem := usedMem - (size - newSize);
      var ptr2: nat, follower: nat := ptr + HEADER + newSize, next[ptr];
      used := used[ptr2 := false];
      next := next[ptr2 := follower];
      prev := prev[ptr2 := ptr];
      next := next[ptr := ptr2];
      if follower != End() {
        prev := prev[follower := ptr2];
      }
      assert used == used0[ptr2 := false][ptr := true];
      SplitBlocks(blocks, i, newSize, memSize, next0, used0, next, used);
      blocks := Replace(blocks, i, i + 1, Parts(blocks[i], newSize));
      ghost var free := FreeAddrs(old(blocks));
      ghost var n := old(blocks[i + 1]);
      PlugHoles(ptr2, i + 1);
      if old(Lowest()) {
        FreeBelowEnd(old(blocks), memSize);
        ShrunkLow(free, FreeAddrs(blocks), old(lfree), lfree, ptr, ptr2, n.addr, !n.used, End());
      }
    }

    /** Where lfree can be, seen from a block in use. */
    lemma LowBefore(i: nat)
      requires Core() && i < |blocks| - 1 && blocks[i].used
      ensures lfree < blocks[i].addr || lfree >= blocks[i + 1].addr
      ensures !blocks[i + 1].used ==> blocks[i + 1].addr in FreeAddrs(blocks) && blocks[i + 1].addr < End()
      ensures blocks[i + 1].used && lfree == blocks[i + 1].addr ==> lfree == End()
    {
      hide Heads, Backs, Aligned, FreeAddrs, Tiles, Extent;
      NextBlock(blocks, memSize, i);
      EndOf(blocks, memSize, i);
      LiveIn(blocks);
      FreeAt(blocks, 0, HEADER);
      if !blocks[i + 1].used {
        LowFree(blocks, memSize, i + 1);
      }
    }

    /** A block that has to move: allocate, copy, free. */
    method Move(ptr: nat, size: nat, newSize: nat, ghost i: nat) returns (r: nat, ghost b: Block)
      requires Valid() && i < |blocks| - 1 && blocks[i].used && ptr == blocks[i].addr + HEADER && size == blocks[i].size
      requires 0 < newSize < WORD && newSize % ALIGN == 0 && memSize >= MIN_ALIGNED
      modifies this`next, this`prev, this`used, this`lfree, this`usedMem, this`maxMem, this`blocks, bytes
      ensures Valid() && (old(Lowest()) ==> Lowest())
      ensures r == NULL <==> NoRoom(old(blocks), old(lfree), Request(newSize), memSize)
      ensures if r == NULL then blocks == old(blocks) && bytes[..] == old(bytes[..])
              else
                && b.used && b.addr + HEADER == r && b.size >= newSize
                && IsFirstFit(old(blocks), old(lfree), Request(newSize), b)
                && Live(blocks) == Live(old(blocks)) - {old(blocks[i])} + {b}
                && SameFront(Payload(b), old(Payload(blocks[i])), if size < newSize then size else newSize)
                && forall z | z in Live(old(blocks)) && z != old(blocks[i]) :: Payload(z) == old(Payload(z))
    {
      hide Core, Counted, Live, Payload, Request, Lowest, NoRoom, NoFit, FreeAddrs, SameFront;
      ghost var x := blocks[i];
      LiveIn(blocks);
      Placed(i);
      RequestIs(newSize);
      r, b := Malloc(newSize);
      if r != NULL {
        CopyPayload(ptr, r, if size < newSize then size else newSize, x, b);
        ghost var j := LiveIndex(x);
        Free(ptr, j);
      }
    }

    /** A block in use that is not the end mark has its payload before it. */
    lemma Placed(i: nat)
      requires Valid() && i < |blocks| - 1 && blocks[i].used
      ensures blocks[i].addr < End() && blocks[i].addr + HEADER < End()
    {
      hide Layout, Heads, Backs, Aligned, FreeAddrs, SumUsed, NoTwoFree;
      Head(i);
      AlignedAt(blocks, i, End());
    }

    /** A block in use that is not the end mark. */
    lemma LiveIndex(x: Block) returns (j: nat)
      requires Valid() && x in Live(blocks) && x.addr < End()
      ensures j < |blocks| - 1 && blocks[j] == x && x.used
    {
      hide Heads, Backs, Aligned, FreeAddrs, Tiles, Extent, SumUsed, NoTwoFree, Live;
      LiveIn(blocks);
      j :| 0 <= j < |blocks| && blocks[j] == x;
      EndOf(blocks, memSize, j);
    }

    /**
     rt_realloc: frees, allocates, shrinks in place or moves; the common front of
     the data survives and other blocks keep theirs.
     */
    method Realloc(ptr: int, newSize: Size, ghost i: nat) returns (r: int, ghost b: Block)
      requires Valid() && (AlignUp(newSize) == 0 || !Spins(newSize))
      requires 0 < ptr < End() ==> i < |blocks| - 1 && blocks[i].used && ptr == blocks[i].addr + HEADER
      modifies this`next, this`prev, this`used, this`lfree, this`usedMem, this`maxMem, this`blocks, bytes
      ensures Valid()
      ensures AlignUp(newSize) == 0 ==>
                r == NULL && if 0 < ptr < End() then Live(blocks) == Live(old(blocks)) - {old(blocks[i])}
                             else blocks == old(blocks)
      ensures AlignUp(newSize) > 0 && r == NULL ==> blocks == old(blocks) && bytes[..] == old(bytes[..])
      ensures newSize > 0 && r == NULL && 0 < ptr < End() ==> (blocks == old(blocks) <==> newSize <= WORD - ALIGN)
      ensures AlignUp(newSize) > 0 && ptr == NULL ==>
                (r == NULL <==> NoRoom(old(blocks), old(lfree), Request(AlignUp(newSize)), memSize))
      ensures AlignUp(newSize) > 0 && 0 < ptr < End() ==>
                (r == NULL <==>
                 || AlignUp(newSize) > memSize
                 || (Moves(old(blocks[i]), newSize)
                     && NoRoom(old(blocks), old(lfree), Request(AlignUp(newSize)), memSize)))
      ensures r != NULL && (ptr == NULL || (0 < ptr < End() && Moves(old(blocks[i]), newSize))) ==>
                IsFirstFit(old(blocks), old(lfree), Request(AlignUp(newSize)), b)
      ensures r != NULL && 0 < ptr < End() && !Moves(old(blocks[i]), newSize) ==>
                r == ptr && b == old(blocks[i]).(size := AlignUp(newSize))
      ensures AlignUp(newSize) == 0 || ptr <= 0 || ptr >= End() || !Moves(old(blocks[i]), newSize) ==>
                bytes[..] == old(bytes[..])
      ensures 0 < AlignUp(newSize) <= memSize && (ptr < 0 || ptr >= End()) ==> r == ptr && blocks == old(blocks)
      ensures r != NULL && 0 <= ptr < End() ==> b.used && b.addr + HEADER == r && b.size >= newSize
      ensures r != NULL && ptr == NULL ==> b !in Live(old(blocks)) && Live(blocks) == Live(old(blocks)) + {b}
      ensures r != NULL && 0 < ptr < End() ==>
                && Live(blocks) == Live(old(blocks)) - {old(blocks[i])} + {b}
                && SameFront(Payload(b), old(Payload(blocks[i])), Least(old(blocks[i].size), AlignUp(newSize)))
                && forall z | z in Live(old(blocks)) && z != old(blocks[i]) :: Payload(z) == old(Payload(z))
      ensures old(Lowest()) ==>
                (Lowest() <==> !Shrinks(old(blocks), ptr, newSize, i) || StaysLow(old(lfree), old(blocks[i])))
      ensures Shrinks(old(blocks), ptr, newSize, i) && old(lfree) == End() ==> lfree == End()
      ensures Shrinks(old(blocks), ptr, newSize, i) && old(blocks[i + 1].used) ==>
                blocks == Replace(old(blocks), i, i + 1, Parts(old(blocks[i]), AlignUp(newSize)))
    {
      hide Core, Counted, Live, Payload, Request, AlignUp, Lowest, NoRoom, NoFit, FreeAddrs, SameFront;
      r, b := NULL, Block(0, 0, false);
      AlignIs(newSize);
      var n := AlignUp(newSize);
      if n > memSize {
        TooMuch(n);
        return;
      }
      if n == 0 {
        LiveIn(blocks);
        Free(ptr, i);
        return;
      }
      AlignIs(n);
      if ptr == NULL {
        RequestIs(n);
        r, b := Malloc(n);
        return;
      }
      if ptr < 0 || ptr >= End() {
        return ptr, b;
      }
      ghost var x := blocks[i];
      LiveIn(blocks);
      LiveApart(x, x);
      var mem: nat := ptr - HEADER;
      HeadOf(i);
      var size: nat := next[mem] - mem - HEADER;
      if size == n {
        SameStart(x, x, n);
        return ptr, x;
      }
      if n + HEADER + MIN_SIZE < size {
        Shrink(mem, size, n, i);
        b := Block(mem, n, true);
        LiveApart(b, b);
        SameStart(b, x, n);
        return ptr, b;
      }
      r, b := Move(ptr, size, n, i);
    }

    lemma TooMuch(n: Size)
      requires Valid() && memSize < n && n % ALIGN == 0
      ensures NoRoom(blocks, lfree, Request(n), memSize)
    {
      AlignIs(n);
      TooLarge(blocks, memSize, lfree, Request(n));
    }

    /** Whether rt_realloc needs another block: this one is neither right as it is nor worth cutting. */
    ghost predicate Moves(x: Block, newSize: Size)
    {
      x.size != AlignUp(newSize) && x.size <= AlignUp(newSize) + HEADER + MIN_SIZE
    }

    /** Whether rt_realloc cuts the block. */
    ghost predicate Shrinks(blocks: seq<Block>, ptr: int, newSize: Size, i: nat)
    {
      && 0 < AlignUp(newSize) <= memSize && 0 < ptr < End()
      && i < |blocks| && AlignUp(newSize) + HEADER + MIN_SIZE < blocks[i].size
    }

    ghost predicate StaysLow(low: nat, x: Block)
    {
      low <= x.addr + HEADER + x.size && low != End()
    }

    lemma HeadOf(i: nat)
      requires Valid() && i < |blocks| - 1
      ensures blocks[i].addr in next && next[blocks[i].addr] == blocks[i].addr + HEADER + blocks[i].size <= End()
    {
      Head(i);
    }

    lemma SameStart(b: Block, x: Block, n: nat)
      requires b.addr == x.addr && b.addr + HEADER + b.size <= bytes.Length && x.addr + HEADER + x.size <= bytes.Length
               && n <= b.size && n <= x.size
      ensures SameFront(Payload(b), Payload(x), n)
    {
      FrontOf(b, n);
      FrontOf(x, n);
    }

    // ---------------------------------------------------------- what it means for callers

    /** As long as lfree is the lowest free block, the whole heap is searched. */
    lemma WholeSearched(want: nat)
      requires Valid() && Lowest()
      ensures NoRoom(blocks, lfree, want, memSize) <==>
              forall b | b in blocks && !b.used ::
                b.size < want || (b.size == want && b.addr + HEADER + b.size == End())
    {
      hide Heads, Backs, Aligned, FreeAddrs, Layout, SumUsed, NoTwoFree;
      FreeInside(blocks, memSize);
      forall b | b in blocks && !b.used
        ensures lfree <= b.addr
      {
        var i :| 0 <= i < |blocks| && blocks[i] == b;
        Head(i);
        EndUsed(blocks, memSize);
        LowFree(blocks, memSize, i);
      }
    }

    /**
     A heap with no room for the least block: the bound of the search wraps around,
     no block fits, and the end mark follows itself, so that the search of
     rt_malloc does not come to an end.
     */
    lemma SearchSpins(size: Size)
      requires Valid() && Spins(size)
      ensures forall b | b in blocks :: b.addr < Minus(memSize, Request(size))
      ensures forall b | b in blocks && !b.used :: b.size < Request(size)
      ensures End() in next && next[End()] == End() && End() in used && used[End()]
    {
      hide Backs, Aligned, FreeAddrs, SumUsed, NoTwoFree, Tiles, Extent;
      FreeInside(blocks, memSize);
      Head(|blocks| - 1);
      forall b | b in blocks
        ensures b.addr < Minus(memSize, Request(size))
      {
        var i :| 0 <= i < |blocks| && blocks[i] == b;
        Head(i);
      }
    }
  }

  /** A block handed out at the first place from `from` on that can take `want` bytes. */
  ghost predicate IsFirstFit(blocks: seq<Block>, from: nat, want: nat, b: Block)
  {
    && b.used && want <= b.size < want + HEADER + MIN_ALIGNED
    && from <= b.addr && NoFit(blocks, from, b.addr, want)
  }

  /** No free block from `from` on can take `want` bytes, but for an exact fit before the end mark. */
  ghost predicate NoRoom(blocks: seq<Block>, from: nat, want: nat, memSize: nat)
  {
    forall b | b in blocks && !b.used && from <= b.addr :: b.size < want || b.addr + want == memSize
  }

  lemma NoFitNext(blocks: seq<Block>, memSize: nat, from: nat, i: nat, want: nat)
    requires Layout(blocks, memSize) && i < |blocks| - 1 && NoFit(blocks, from, blocks[i].addr, want)
    requires blocks[i].used || blocks[i].size < want
    ensures NoFit(blocks, from, blocks[i + 1].addr, want)
  {
    hide Tiles, Extent;
    forall b | b in blocks && !b.used && from <= b.addr < blocks[i + 1].addr
      ensures b.size < want
    {
      var j :| 0 <= j < |blocks| && blocks[j] == b;
      if i + 1 < j {
        Disjoint(blocks, 0, HEADER, i + 1, j);
      } else if j < i {
        Disjoint(blocks, 0, HEADER, j, i);
      }
    }
  }

  lemma NextBlock(blocks: seq<Block>, memSize: nat, i: nat)
    requires Layout(blocks, memSize) && i < |blocks| - 1
    ensures forall b | b in blocks && blocks[i].addr < b.addr :: blocks[i + 1].addr <= b.addr
    ensures forall b | b in blocks && b.addr == blocks[i].addr :: b == blocks[i]
  {
    hide Tiles, Extent;
    forall b | b in blocks && blocks[i].addr <= b.addr
      ensures if blocks[i].addr == b.addr then b == blocks[i] else blocks[i + 1].addr <= b.addr
    {
      var j :| 0 <= j < |blocks| && blocks[j] == b;
      if i + 1 < j {
        Disjoint(blocks, 0, HEADER, i + 1, j);
        Disjoint(blocks, 0, HEADER, i, j);
      } else if j < i {
        Disjoint(blocks, 0, HEADER, j, i);
      } else if j == i + 1 {
        Disjoint(blocks, 0, HEADER, i, j);
      }
    }
  }

  lemma FreeInside(blocks: seq<Block>, memSize: nat)
    requires Layout(blocks, memSize)
    ensures forall b | b in blocks && !b.used :: b.addr + b.size <= memSize
  {
    hide Tiles, Extent;
    forall b | b in blocks && !b.used
      ensures b.addr + b.size <= memSize
    {
      var j :| 0 <= j < |blocks| && blocks[j] == b;
      EndOf(blocks, memSize, j);
    }
  }

  lemma NoFitAtEnd(blocks: seq<Block>, memSize: nat, from: nat, ptr: nat, want: nat)
    requires Layout(blocks, memSize) && NoFit(blocks, from, ptr, want) && ptr + want >= memSize
    ensures NoRoom(blocks, from, want, memSize)
  {
    hide Layout;
    FreeInside(blocks, memSize);
  }

  lemma TooLarge(blocks: seq<Block>, memSize: nat, from: nat, want: nat)
    requires Layout(blocks, memSize) && want > memSize
    ensures NoRoom(blocks, from, want, memSize)
  {
    hide Layout;
    FreeInside(blocks, memSize);
  }

  lemma RequestIs(size: Size)
    requires size > 0
    ensures AlignUp(size) % ALIGN == 0 && AlignUp(size) <= Request(size) && Request(size) % ALIGN == 0
    ensures Request(size) == if AlignUp(size) < MIN_ALIGNED then MIN_ALIGNED else AlignUp(size)
    ensures size <= WORD - ALIGN ==> size <= AlignUp(size)
    ensures size > WORD - ALIGN ==> Request(size) == MIN_ALIGNED
  {
    AlignIs(size);
  }

  function Least(a: nat, b: nat): nat
  {
    if a < b then a else b
  }

  lemma AlignedAt(blocks: seq<Block>, i: nat, end: nat)
    requires Aligned(blocks, end) && i < |blocks|
    ensures blocks[i].addr % ALIGN == 0 && (blocks[i].used && blocks[i].addr != end ==> blocks[i].size > 0)
  {
    assert blocks[i] in blocks;
  }

  /** Both begin with the same `n` bytes. */
  predicate SameFront(a: seq<Byte>, b: seq<Byte>, n: nat)
  {
    n <= |a| && n <= |b| && a[..n] == b[..n]
  }

  /** When lfree stays the lowest free block although a block below it became free. */
  lemma ShrunkLow(free: set<nat>, free': set<nat>, low: nat, low': nat, a: nat, rest: nat, n: nat, merged: bool,
                  end: nat)
    requires (low == end || low in free) && (forall x | x in free :: low <= x < end) && a < rest < n <= end
             && (low < a || low >= n)
    requires (merged ==> n in free) && (!merged && low == n ==> low == end)
    requires free' == free + {rest} - (if merged then {n} else {}) && low' == if merged && low == n then rest else low
    ensures (forall x | x in free' :: low' <= x) <==> low <= n && low != end
  {
    assert rest in free';
  }

  lemma FreeBelowEnd(blocks: seq<Block>, memSize: nat)
    requires Layout(blocks, memSize)
    ensures forall a | a in FreeAddrs(blocks) :: a < memSize + HEADER
  {
    hide Tiles, Extent, FreeAddrs;
    LiveIn(blocks);
    FreeInside(blocks, memSize);
  }

  lemma SplitAt(blocks: seq<Block>, i: nat, want: nat)
    requires i + 1 < |blocks| && want + HEADER <= blocks[i].size
    ensures var r := Replace(blocks, i, i + 1, Parts(blocks[i], want));
            && i + 2 < |r| && r[i].used
            && r[i + 1] == Block(blocks[i].addr + HEADER + want, blocks[i].size - want - HEADER, false)
            && r[i + 2] == blocks[i + 1]
  {
  }

  /** A block in use and the end mark are counted. */
  lemma UsedPart(blocks: seq<Block>, memSize: nat, i: nat)
    requires Layout(blocks, memSize) && i < |blocks| - 1 && blocks[i].used
    ensures SumUsed(blocks, HEADER) >= 2 * HEADER + blocks[i].size
  {
    hide Tiles, Extent, SumUsed, SumFree, FreeAddrs, Live;
    var last := |blocks| - 1;
    assert blocks == blocks[..i] + ([blocks[i]] + (blocks[i + 1..last] + [blocks[last]]));
    Concat(blocks[..i], [blocks[i]] + (blocks[i + 1..last] + [blocks[last]]), 0, HEADER);
    Concat([blocks[i]], blocks[i + 1..last] + [blocks[last]], 0, HEADER);
    Concat(blocks[i + 1..last], [blocks[last]], 0, HEADER);
    One(blocks[i], HEADER);
    One(blocks[last], HEADER);
  }

  lemma NotLive(blocks: seq<Block>, i: nat)
    requires i < |blocks| && !blocks[i].used
    ensures blocks[i] !in Live(blocks)
  {
    hide Live;
    LiveIn(blocks);
  }

  lemma NotLiveAt(blocks: seq<Block>, memSize: nat, i: nat, size: nat)
    requires Layout(blocks, memSize) && i < |blocks| && !blocks[i].used
    ensures Block(blocks[i].addr, size, true) !in Live(blocks)
  {
    hide Live, Tiles, Extent;
    LiveIn(blocks);
    if Block(blocks[i].addr, size, true) in blocks {
      var j :| 0 <= j < |blocks| && blocks[j] == Block(blocks[i].addr, size, true);
      AddrsDistinct(blocks, 0, HEADER, i, j);
    }
  }

  /** The end mark counts as a header in use. */
  lemma UsedEnd(blocks: seq<Block>, memSize: nat)
    requires Layout(blocks, memSize)
    ensures SumUsed(blocks, HEADER) >= HEADER
  {
    hide Tiles, Extent, SumUsed, SumFree, FreeAddrs, Live;
    var last := |blocks| - 1;
    assert blocks == blocks[..last] + [blocks[last]];
    Concat(blocks[..last], [blocks[last]], 0, HEADER);
    One(blocks[last], HEADER);
  }

  lemma EndUsed(blocks: seq<Block>, memSize: nat)
    requires Layout(blocks, memSize)
    ensures blocks[|blocks| - 1].used
  {
  }

  lemma AroundFree(blocks: seq<Block>, i: nat)
    requires Around(blocks, i)
    ensures i < |blocks| && !blocks[i].used
  {
  }

  lemma LowFree(blocks: seq<Block>, memSize: nat, i: nat)
    requires Layout(blocks, memSize) && i + 1 < |blocks| && !blocks[i].used
    ensures blocks[i].addr in FreeAddrs(blocks) && blocks[i].addr < memSize + HEADER
  {
    hide Tiles, Extent, FreeAddrs;
    FreeAt(blocks, 0, HEADER);
    EndOf(blocks, memSize, i);
  }

  lemma JoinAligned(blocks: seq<Block>, i: nat, end: nat)
    requires Aligned(blocks, end) && i + 1 < |blocks|
    ensures Aligned(Replace(blocks, i, i + 2, [Joint(blocks[i], blocks[i + 1])]), end)
  {
    assert blocks[i] in blocks;
    AlignedReplace(blocks, i, i + 2, [Joint(blocks[i], blocks[i + 1])], end);
  }

  // ------------------------------------------------------------ runs

  /** A heap that a request of its size does not get, although it is all one free block. */
  method ExactFit() returns (heap: Heap, r: nat)
    ensures heap.Valid() && heap.blocks == [Block(0, 64, false), Block(80, 0, true)] && Request(64) == 64 && r == NULL
  {
    heap := new Heap(64);
    AlignIs(64);
    ghost var b;
    r, b := heap.Malloc(64);
  }

  /** A heap with its first block taken. */
  method FirstBlock(memSize: nat, size: Size) returns (heap: Heap, r: nat, ghost b: Block)
    requires memSize % ALIGN == 0 && memSize < WORD - 2 * HEADER && size > 0
             && Request(size) + HEADER + MIN_ALIGNED <= memSize
    ensures fresh(heap) && fresh(heap.bytes) && heap.Valid() && heap.Lowest() && heap.memSize == memSize
    ensures r == HEADER && b == Block(0, Request(size), true) && b in Live(heap.blocks)
    ensures heap.blocks
            == [b, Block(HEADER + b.size, memSize - HEADER - b.size, false), Block(memSize + HEADER, 0, true)]
  {
    hide Layout, Heads, Backs, Aligned, FreeAddrs, Live, SumUsed, NoTwoFree, Request;
    heap := new Heap(memSize);
    RequestIs(size);
    ghost var first := heap.blocks[0];
    assert first in heap.blocks && !first.used;
    assert !NoRoom(heap.blocks, heap.lfree, Request(size), memSize);
    r, b := heap.Malloc(size);
    assert b == Parts(first, Request(size))[0];
  }

  /** A request of nearly 2^32 bytes is served with the least block. */
  method HugeRequest() returns (heap: Heap, r: nat, ghost b: Block)
    ensures heap.Valid() && r == b.addr + HEADER && b in Live(heap.blocks) && b.size == MIN_ALIGNED
  {
    RequestIs(0xFFFF_FFFF);
    heap, r, b := FirstBlock(1024, 0xFFFF_FFFF);
  }

  /** A block that is to grow to nearly 2^32 bytes is freed. */
  method HugeGrowth() returns (heap: Heap, r: int)
    ensures heap.Valid() && r == NULL && Live(heap.blocks) == {Block(1040, 0, true)}
  {
    hide Layout, Heads, Backs, Aligned, FreeAddrs, SumUsed, NoTwoFree;
    AlignIs(64);
    AlignIs(0xFFFF_FFFF);
    var p;
    ghost var b;
    heap, p, b := FirstBlock(1024, 64);
    ThreeLive(heap.blocks);
    r, b := heap.Realloc(p, 0xFFFF_FFFF, 0);
  }

  lemma ThreeLive(blocks: seq<Block>)
    requires |blocks| == 3 && blocks[0].used && !blocks[1].used && blocks[2].used
    ensures Live(blocks) == {blocks[0], blocks[2]}
  {
    LiveIn(blocks);
  }

  /** A heap that is full: one block is cut off, the other one takes all that is left. */
  method FullHeap() returns (heap: Heap, p: nat)
    ensures fresh(heap) && fresh(heap.bytes) && heap.Valid() && heap.Lowest() && heap.memSize == 280
            && heap.lfree == heap.End() && p == HEADER
    ensures heap.blocks == [Block(0, 200, true), Block(216, 64, true), Block(296, 0, true)]
  {
    hide Layout, Heads, Backs, Aligned, FreeAddrs, SumUsed, NoTwoFree, Live;
    AlignIs(200);
    AlignIs(56);
    ghost var b;
    heap, p, b := FirstBlock(280, 200);
    ghost var second := heap.blocks[1];
    assert second in heap.blocks && !second.used;
    LowFree(heap.blocks, 280, 1);
    assert !NoRoom(heap.blocks, heap.lfree, Request(56), 280);
    var r;
    r, b := heap.Malloc(56);
    NoneFree(heap.blocks);
  }

  lemma NoneFree(blocks: seq<Block>)
    requires |blocks| == 3 && blocks[0].used && blocks[1].used && blocks[2].used
    ensures FreeAddrs(blocks) == {}
  {
    LiveIn(blocks);
  }

  /** After a block has shrunk, a request fails although the free block behind it could take it. */
  method LostSpace() returns (heap: Heap, r: nat)
    ensures heap.Valid() && Block(32, 168, false) in heap.blocks && Request(100) <= 168 && r == NULL
  {
    hide Layout, Heads, Backs, Aligned, FreeAddrs, SumUsed, NoTwoFree, Live;
    AlignIs(16);
    AlignIs(100);
    var p;
    ghost var b;
    heap, p := FullHeap();
    var q: int;
    q, b := heap.Realloc(p, 16, 0);
    assert heap.blocks == [Block(0, 16, true), Block(32, 168, false), Block(216, 64, true), Block(296, 0, true)];
    assert heap.blocks[1] == Block(32, 168, false);
    r, b := heap.Malloc(100);
  }
}
