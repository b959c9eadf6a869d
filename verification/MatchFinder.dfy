/**
 The match finder: hash heads and binary trees over a cyclic buffer.  Every
 pair of length and distance it reports is a true match.
 */
module MatchFinder {
  import opened Bytes
  import opened MatchTree
  import opened TreeContents
  import opened MatchHash
  import opened HashLists

  const MAX_VAL_FOR_NORMALIZE := 0xFFFF_FFFF
  const MAX_HISTORY_SIZE := 0xC000_0000

  /** A reported match; `dist` counts from zero. */
  datatype Found = Found(len: nat, dist: nat)

  /** All pairs are true matches at `cur` inside the window, longer and longer. */
  ghost predicate TrueMatches(fs: seq<Found>, text: seq<Byte>, cur: nat, size: nat, lenLimit: nat)
  {
    && (forall i | 0 <= i < |fs| ::
          1 <= fs[i].len <= lenLimit && fs[i].dist + 1 < size && Same(text, cur - fs[i].dist - 1, cur, fs[i].len))
    && (forall i, j | 0 <= i < j < |fs| :: fs[i].len < fs[j].len)
  }

  ghost predicate LensIn(fs: seq<Found>, above: nat, upTo: nat)
  {
    forall i | 0 <= i < |fs| :: above < fs[i].len <= upTo
  }

  /** The slot of the position `delta` before the one with slot `cyc`. */
  function Slot(delta: nat, cyc: nat, size: nat): int
  {
    cyc - delta + if delta > cyc then size else 0
  }

  /** The place of the node of position `x` in the array. */
  function Place(x: int, cur: nat, cyc: nat, size: nat): int
    requires x <= cur
  {
    2 * Slot(cur - x, cyc, size)
  }

  lemma PlaceInside(x: int, y: int, cur: nat, cyc: nat, size: nat)
    requires cyc < size && Live(x, cur, size) && Live(y, cur, size)
    ensures 0 <= Place(x, cur, cyc, size) < 2 * size - 1
    ensures x != y ==> Place(x, cur, cyc, size) / 2 != Place(y, cur, cyc, size) / 2
    ensures Place(x, cur, cyc, size) % 2 == 0
  {
  }

  ghost function NodeAt(son: seq<nat>, base: int, place: int): Node
    requires 0 <= place < |son| - 1
  {
    Node(son[place] - base, son[place + 1] - base)
  }

  /** The nodes of the positions up to `last`, as the array shows them. */
  ghost function View(son: seq<nat>, pos: nat, cur: nat, cyc: nat, size: nat, last: int): (t: Tree)
    requires cyc < size && |son| == 2 * size && last <= cur
    ensures t.Keys == LivePositions(cur, size, last)
  {
    map x: int | 0 <= x <= last && Live(x, cur, size) ::
      NodeAt(son, pos - cur, (PlaceInside(x, x, cur, cyc, size); Place(x, cur, cyc, size)))
  }

  /** Writing one entry changes one link. */
  lemma SetLo(son: seq<nat>, pos: nat, cur: nat, cyc: nat, size: nat, last: int, x: int, v: nat)
    requires cyc < size && |son| == 2 * size && x <= last <= cur && Live(x, cur, size)
    ensures 0 <= Place(x, cur, cyc, size) < |son|
    ensures var t := View(son, pos, cur, cyc, size, last);
            View(son[Place(x, cur, cyc, size) := v], pos, cur, cyc, size, last) == t[x := t[x].(lo := v - (pos - cur))]
  {
    hide Place;
    PlaceInside(x, x, cur, cyc, size);
    var t, t' := View(son, pos, cur, cyc, size, last),
        View(son[Place(x, cur, cyc, size) := v], pos, cur, cyc, size, last);
    forall y | y in t
      ensures t'[y] == if y == x then t[x].(lo := v - (pos - cur)) else t[y]
    {
      PlaceInside(x, y, cur, cyc, size);
      PlaceInside(y, x, cur, cyc, size);
    }
    assert t'.Keys == t.Keys;
  }

  lemma SetHi(son: seq<nat>, pos: nat, cur: nat, cyc: nat, size: nat, last: int, x: int, v: nat)
    requires cyc < size && |son| == 2 * size && x <= last <= cur && Live(x, cur, size)
    ensures 0 <= Place(x, cur, cyc, size) + 1 < |son|
    ensures var t := View(son, pos, cur, cyc, size, last);
            View(son[Place(x, cur, cyc, size) + 1 := v], pos, cur, cyc, size,
                last) == t[x := t[x].(hi := v - (pos - cur))]
  {
    hide Place;
    PlaceInside(x, x, cur, cyc, size);
    var t, t' := View(son, pos, cur, cyc, size, last),
        View(son[Place(x, cur, cyc, size) + 1 := v], pos, cur, cyc, size, last);
    forall y | y in t
      ensures t'[y] == if y == x then t[x].(hi := v - (pos - cur)) else t[y]
    {
      PlaceInside(x, y, cur, cyc, size);
      PlaceInside(y, x, cur, cyc, size);
    }
    assert t'.Keys == t.Keys;
  }

  class CMatchFinder {
    const text: seq<Byte>
    const crc: Table
    const cyclicBufferSize: nat
    const matchMaxLen: nat
    const keepSizeAfter: nat
    const cutValue: nat
    const hashSize: nat
    /** Binary trees, or hash chains. */
    const btMode: bool
    const hash: array<nat>
    const son: array<nat>
    var pos: nat
    var posLimit: nat
    var lenLimit: nat
    var cur: nat
    var cyclicBufferPos: nat
    /** Positions that a search has dropped from their tree because its steps were used up. */
    ghost var lost: set<int>

    /** MatchFinder_Create and MatchFinder_Init on input that is all in memory; the links are not initialised. */
    constructor (text: seq<Byte>, crc: Table, historySize: nat, matchMaxLen: nat, keepSizeAfter: nat, cutValue: nat,
                 hashSize: nat, btMode: bool)
      requires historySize <= MAX_HISTORY_SIZE && matchMaxLen <= keepSizeAfter && hashSize > 0
      ensures Valid() && cur == 0 && this.text == text && this.btMode == btMode && fresh(hash) && fresh(son)
      ensures lost == {}
    {
      this.text, this.crc := text, crc;
      cyclicBufferSize := historySize + 1;
      this.matchMaxLen, this.keepSizeAfter, this.cutValue, this.hashSize :=
          matchMaxLen, keepSizeAfter, cutValue, hashSize;
      this.btMode := btMode;
      hash := new nat[FIX4_HASH_SIZE + hashSize](_ => 0);
      son := new nat[if btMode then 2 * (historySize + 1) else historySize + 1];
      pos, cur, cyclicBufferPos, posLimit, lenLimit, lost := historySize + 1, 0, 0, 0, 0, {};
      new;
      SetLimits();
    }

    ghost predicate Shape()
      reads `pos, `cur, `cyclicBufferPos
    {
      cyclicBufferPos < cyclicBufferSize <= pos && cur <= |text|
          && son.Length == if btMode then 2 * cyclicBufferSize else cyclicBufferSize
    }

    /** An entry of a table: empty, or an earlier position. */
    ghost predicate Ref(v: nat)
      reads `pos, `cur, `cyclicBufferPos
    {
      v == 0 || (pos - cur <= v < pos)
    }

    /** The links of the node of `x`. */
    ghost predicate NodeRefs(x: int)
      reads `pos, `cur, `cyclicBufferPos, son
    {
      && x <= cur
      && var p := Place(x, cur, cyclicBufferPos, cyclicBufferSize);
         0 <= p < son.Length - 1 && Ref(son[p]) && Ref(son[p + 1])
    }

    /** The nodes that were inserted hold links; other entries may be anything. */
    ghost predicate RefsOk()
      reads `pos, `cur, `cyclicBufferPos, son
    {
      forall x | x in LivePositions(cur, cyclicBufferSize, cur - 1) :: NodeRefs(x)
    }

    /** The lower link of the current position is written. */
    ghost predicate LowWritten()
      reads `pos, `cur, `cyclicBufferPos, son
    {
      2 * cyclicBufferPos < son.Length && Ref(son[2 * cyclicBufferPos])
    }

    ghost predicate HighWritten()
      reads `pos, `cur, `cyclicBufferPos, son
    {
      2 * cyclicBufferPos + 1 < son.Length && Ref(son[2 * cyclicBufferPos + 1])
    }

    /** The link of the chain entry of `x`. */
    ghost predicate ChainRef(x: int)
      reads `pos, `cur, `cyclicBufferPos, son
    {
      x <= cur && var p := Slot(cur - x, cyclicBufferPos, cyclicBufferSize); 0 <= p < son.Length && Ref(son[p])
    }

    /** The chain entry of `x` leads to the latest position before it with the same hash. */
    ghost predicate ChainLatest(x: int)
      requires hashSize > 0
      reads `pos, `cur, `cyclicBufferPos, son
    {
      LinkLatest(son[..], pos, cur, cyclicBufferPos, cyclicBufferSize, text, crc, hashSize, x)
    }

    ghost predicate ChainOk(last: int)
      requires hashSize > 0
      reads `pos, `cur, `cyclicBufferPos, son
    {
      forall x | x in LivePositions(cur, cyclicBufferSize, last) :: ChainRef(x) && ChainLatest(x)
    }

    /** The head `v` of list `j` is empty or an earlier position with that hash. */
    ghost predicate HeadOk(v: nat, j: nat, top: nat)
      requires hashSize > 0
      reads `pos, `cur, `cyclicBufferPos
    {
      v == 0 || (pos - cur <= v < top && Hashed(text, crc, hashSize, v - (pos - cur), j))
    }

    ghost predicate HeadsOk(top: nat)
      requires hashSize > 0
      reads `pos, `cur, `cyclicBufferPos, hash
    {
      forall j | 0 <= j < hash.Length :: HeadOk(hash[j], j, top)
    }

    /** Each head is the latest of its list. */
    ghost predicate HeadsLatest(upTo: int)
      requires hashSize > 0
      reads `pos, `cur, `cyclicBufferPos, hash
    {
      forall j | 0 <= j < hash.Length :: LatestHead(hash[j], j, upTo)
    }

    ghost predicate LatestHead(v: nat, j: nat, upTo: int)
      requires hashSize > 0
      reads `pos, `cur, `cyclicBufferPos
    {
      Latest(text, crc, hashSize, v - (pos - cur), j, cur, cyclicBufferSize, upTo)
    }

    /** Up to `posLimit` the cyclic buffer does not wrap and `lenLimit` bytes are there. */
    ghost predicate Limits()
      reads `pos, `cur, `cyclicBufferPos, `posLimit, `lenLimit
    {
      && pos <= posLimit <= MAX_VAL_FOR_NORMALIZE && (cur < |text| ==> pos < posLimit)
      && posLimit - pos <= cyclicBufferSize - cyclicBufferPos
      && (pos < posLimit ==> lenLimit + (posLimit - 1 - pos) <= |text| - cur)
      && (if |text| - cur < matchMaxLen then |text| - cur else matchMaxLen) <= lenLimit <= matchMaxLen
    }

    ghost predicate Valid()
      reads this, hash, son
    {
      && Shape() && Sizes() && HeadsOk(pos) && Limits()
      && (lenLimit >= 4 ==> HeadsLatest(cur))
      && (lenLimit >= 4 ==> if btMode then TreesOk() else ChainOk(cur - 1))
    }

    /** The trees are ordered, each is one of its list, and what is not lost is in them. */
    ghost predicate TreesOk()
      requires Shape() && Sizes() && btMode
      reads this, hash, son
    {
      && RefsOk() && Ordered(Trees(), text, lenLimit) && Forest(Trees()) && Pure(Trees(), text, crc, hashSize)
      && Complete(Trees(), text, crc, hashSize, hash[..], pos - cur, cur, cyclicBufferSize, cur, lenLimit, lost)
    }

    /** The same with the current position in its tree. */
    ghost predicate TreesGrown()
      requires Shape() && Sizes() && btMode
      reads this, hash, son
    {
      && RefsOk() && LowWritten() && HighWritten()
      && Ordered(Grown(), text, lenLimit) && Forest(Grown()) && Pure(Grown(), text, crc, hashSize)
      && Complete(Grown(), text, crc, hashSize, hash[..], pos - cur, cur, cyclicBufferSize, cur + 1, lenLimit, lost)
    }

    predicate Sizes()
    {
      && cyclicBufferSize <= MAX_HISTORY_SIZE + 1 && matchMaxLen <= keepSizeAfter && hashSize > 0
      && hash.Length == FIX4_HASH_SIZE + hashSize && hash != son
    }

    /** MatchFinder_SetLimits. */
    method SetLimits()
      requires pos < MAX_VAL_FOR_NORMALIZE && cyclicBufferPos < cyclicBufferSize && cur <= |text|
               && matchMaxLen <= keepSizeAfter
      modifies this`posLimit, this`lenLimit
      ensures Limits() && lenLimit == if |text| - cur < matchMaxLen then |text| - cur else matchMaxLen
    {
      var limit := MAX_VAL_FOR_NORMALIZE - pos;
      var limit2 := cyclicBufferSize - cyclicBufferPos;
      if limit2 < limit {
        limit := limit2;
      }
      limit2 := |text| - cur;
      if limit2 <= keepSizeAfter {
        if limit2 > 0 {
          limit2 := 1;
        }
      } else {
        limit2 := limit2 - keepSizeAfter;
      }
      if limit2 < limit {
        limit := limit2;
      }
      lenLimit := |text| - cur;
      if lenLimit > matchMaxLen {
        lenLimit := matchMaxLen;
      }
      posLimit := pos + limit;
    }

    /** The trees before the current position is inserted. */
    ghost function Trees(): Tree
      reads `pos, `cur, `cyclicBufferPos, son
      requires Shape() && btMode
    {
      View(son[..], pos, cur, cyclicBufferPos, cyclicBufferSize, cur - 1)
    }

    /** The trees with the node of the current position. */
    ghost function Grown(): Tree
      reads `pos, `cur, `cyclicBufferPos, son
      requires Shape() && btMode
    {
      View(son[..], pos, cur, cyclicBufferPos, cyclicBufferSize, cur)
    }

    /** The walk of the current position is at `k`, with the open links at `ptr1` and `ptr0`. */
    ghost predicate OnWalk(t0: Tree, lenLimit: nat, k: Walk, sides: Sides, ptr0: nat, ptr1: nat, curMatch: nat)
      reads `pos, `cur, `cyclicBufferPos, son
    {
      && Shape() && btMode && RefsOk() && Ref(curMatch) && curMatch < pos
      && (k.s != cur ==> LowWritten()) && (k.g != cur ==> HighWritten())
      && t0.Keys == LivePositions(cur, cyclicBufferSize, cur - 1)
      && Walking(t0, Grown(), text, lenLimit, cur, k, sides)
      && k.cur == curMatch - (pos - cur)
      && ptr1 == (if k.s == cur then Place(cur, cur, cyclicBufferPos, cyclicBufferSize)
                  else Place(k.s, cur, cyclicBufferPos, cyclicBufferSize) + 1)
      && ptr0 == (if k.g == cur then Place(cur, cur, cyclicBufferPos, cyclicBufferSize) + 1
                  else Place(k.g, cur, cyclicBufferPos, cyclicBufferSize))
    }

    /** `*ptr1 = v`, as a change of the trees. */
    method WriteSmaller(ptr1: nat, v: nat, ghost k: Walk)
      requires Shape() && btMode && RefsOk() && Ref(v) && (k.s == cur || k.s in Trees())
      requires ptr1 == if k.s == cur then Place(cur, cur, cyclicBufferPos, cyclicBufferSize)
                       else Place(k.s, cur, cyclicBufferPos, cyclicBufferSize) + 1
      modifies son
      ensures RefsOk() && k.s in old(Grown()) && Grown() == SetSmaller(old(Grown()), cur, k, v - (pos - cur))
      ensures (k.s == cur || old(LowWritten()) ==> LowWritten()) && (old(HighWritten()) ==> HighWritten())
      ensures son[..] == old(son[..])[ptr1 := v]
    {
      hide Place, View;
      Spots(k.s);
      if k.s == cur {
        SetLo(son[..], pos, cur, cyclicBufferPos, cyclicBufferSize, cur, cur, v);
      } else {
        SetHi(son[..], pos, cur, cyclicBufferPos, cyclicBufferSize, cur, k.s, v);
      }
      son[ptr1] := v;
      forall x | x in LivePositions(cur, cyclicBufferSize, cur - 1)
        ensures NodeRefs(x)
      {
        assert old(NodeRefs(x));
      }
    }

    /** `*ptr0 = v`. */
    method WriteLarger(ptr0: nat, v: nat, ghost k: Walk)
      requires Shape() && btMode && RefsOk() && Ref(v) && (k.g == cur || k.g in Trees())
      requires ptr0 == if k.g == cur then Place(cur, cur, cyclicBufferPos, cyclicBufferSize) + 1
                       else Place(k.g, cur, cyclicBufferPos, cyclicBufferSize)
      modifies son
      ensures RefsOk() && k.g in old(Grown()) && Grown() == SetLarger(old(Grown()), cur, k, v - (pos - cur))
      ensures (k.g == cur || old(HighWritten()) ==> HighWritten()) && (old(LowWritten()) ==> LowWritten())
      ensures son[..] == old(son[..])[ptr0 := v]
    {
      hide Place, View;
      Spots(k.g);
      if k.g == cur {
        SetHi(son[..], pos, cur, cyclicBufferPos, cyclicBufferSize, cur, cur, v);
      } else {
        SetLo(son[..], pos, cur, cyclicBufferPos, cyclicBufferSize, cur, k.g, v);
      }
      son[ptr0] := v;
      forall x | x in LivePositions(cur, cyclicBufferSize, cur - 1)
        ensures NodeRefs(x)
      {
        assert old(NodeRefs(x));
      }
    }

    /** Where the nodes of the current position and of a live one lie. */
    lemma Spots(x: int)
      requires Shape() && btMode && (x == cur || x in Trees())
      ensures Live(x, cur, cyclicBufferSize) && 0 <= Place(x, cur, cyclicBufferPos, cyclicBufferSize) < son.Length - 1
      ensures Place(cur, cur, cyclicBufferPos, cyclicBufferSize) == 2 * cyclicBufferPos
      ensures Place(x, cur, cyclicBufferPos, cyclicBufferSize) % 2 == 0
      ensures x != cur ==> Place(x, cur, cyclicBufferPos, cyclicBufferSize) != 2 * cyclicBufferPos
    {
      PlaceInside(x, cur, cur, cyclicBufferPos, cyclicBufferSize);
    }

    /** The links of a node, read from the array. */
    lemma ReadNode(x: int)
      requires Shape() && btMode && Live(x, cur, cyclicBufferSize)
      ensures 0 <= Place(x, cur, cyclicBufferPos, cyclicBufferSize) < son.Length - 1
      ensures x in Grown() && Grown()[x] == NodeAt(son[..], pos - cur, Place(x, cur, cyclicBufferPos, cyclicBufferSize))
    {
      PlaceInside(x, x, cur, cyclicBufferPos, cyclicBufferSize);
    }

    /** The node at `curMatch` is smaller: hang it up and turn to its larger side. */
    method TurnSmaller(ptr1: nat, pair: nat, curMatch: nat, ghost ptr0: nat, ghost t0: Tree, ghost top: int,
                       ghost l: nat, ghost k: Walk, ghost sides: Sides, ghost len: nat)
      returns (ptr1': nat, curMatch': nat, ghost k': Walk, ghost sides': Sides)
      requires OnWalk(t0, l, k, sides, ptr0, ptr1, curMatch) && pos - curMatch < cyclicBufferSize
      requires pair == Place(k.cur, cur, cyclicBufferPos, cyclicBufferSize) && Before(text, k.cur, cur, len, l)
      requires Gathered(t0, Grown(), cur, top, k, sides) && Forest(t0)
      modifies son
      ensures Gathered(t0, Grown(), cur, top, k', sides')
      ensures OnWalk(t0, l, k', sides', ptr0, ptr1', curMatch') && k'.len1 == len && k'.len0 == k.len0
      ensures k.cur in t0 && k'.cur == t0[k.cur].hi
    {
      hide Place, View, Walking, RefsOk, Before, Live, Under, Gathered, Forest;
      RefLive(curMatch, cur, pos, cyclicBufferSize);
      WalkFacts(t0, Grown(), text, l, cur, k, sides);
      StepSmaller(t0, Grown(), text, l, cur, k, sides, len);
      GatherSmaller(t0, Grown(), text, l, cur, top, k, sides, len);
      k' := k.(cur := t0[k.cur].hi, s := k.cur, len1 := len);
      sides' := sides.(low := sides.low + {k.cur} + Under(t0, t0[k.cur].lo));
      ghost var t := Grown();
      WriteSmaller(ptr1, curMatch, k);
      assert Grown()[k.cur] == t[k.cur];
      ReadNode(k.cur);
      ptr1' := pair + 1;
      curMatch' := son[ptr1'];
      SonRef(k.cur);
    }

    /** The node at `curMatch` is larger. */
    method TurnLarger(ptr0: nat, pair: nat, curMatch: nat, ghost ptr1: nat, ghost t0: Tree, ghost top: int,
                      ghost l: nat, ghost k: Walk, ghost sides: Sides, ghost len: nat)
      returns (ptr0': nat, curMatch': nat, ghost k': Walk, ghost sides': Sides)
      requires OnWalk(t0, l, k, sides, ptr0, ptr1, curMatch) && pos - curMatch < cyclicBufferSize
      requires pair == Place(k.cur, cur, cyclicBufferPos, cyclicBufferSize) && Before(text, cur, k.cur, len, l)
      requires Gathered(t0, Grown(), cur, top, k, sides) && Forest(t0)
      modifies son
      ensures Gathered(t0, Grown(), cur, top, k', sides')
      ensures OnWalk(t0, l, k', sides', ptr0', ptr1, curMatch') && k'.len0 == len && k'.len1 == k.len1
      ensures k.cur in t0 && k'.cur == t0[k.cur].lo
    {
      hide Place, View, Walking, RefsOk, Before, Live, Under, Gathered, Forest;
      RefLive(curMatch, cur, pos, cyclicBufferSize);
      WalkFacts(t0, Grown(), text, l, cur, k, sides);
      StepLarger(t0, Grown(), text, l, cur, k, sides, len);
      GatherLarger(t0, Grown(), text, l, cur, top, k, sides, len);
      k' := k.(cur := t0[k.cur].lo, g := k.cur, len0 := len);
      sides' := sides.(high := sides.high + {k.cur} + Under(t0, t0[k.cur].hi));
      ghost var t := Grown();
      WriteLarger(ptr0, curMatch, k);
      assert Grown()[k.cur] == t[k.cur];
      ReadNode(k.cur);
      ptr0' := pair;
      curMatch' := son[ptr0'];
      SonRef(k.cur);
    }

    /** The current position differs from `m` at byte `len`: turn to the side where it belongs. */
    method Turn(ptr0: nat, ptr1: nat, pair: nat, curMatch: nat, m: nat, len: nat, len0: nat, len1: nat, lenLimit: nat,
                ghost t0: Tree, ghost top: int, ghost k: Walk, ghost sides: Sides)
      returns (ptr0': nat, ptr1': nat, curMatch': nat, len0': nat, len1': nat, ghost k': Walk, ghost sides': Sides)
      requires OnWalk(t0, lenLimit, k, sides, ptr0, ptr1, curMatch) && pos - curMatch < cyclicBufferSize
      requires pair == Place(k.cur, cur, cyclicBufferPos, cyclicBufferSize) && m == k.cur && len0 == k.len0
               && len1 == k.len1
      requires m < cur && cur + lenLimit <= |text| && len < lenLimit && Same(text, m, cur, len)
               && text[m + len] != text[cur + len]
      requires Gathered(t0, Grown(), cur, top, k, sides) && Forest(t0)
      modifies son
      ensures OnWalk(t0, lenLimit, k', sides', ptr0', ptr1', curMatch') && Gathered(t0, Grown(), cur, top, k', sides')
      ensures len0' == k'.len0 && len1' == k'.len1
      ensures (len0' == len0 || len0' == len) && (len1' == len1 || len1' == len)
      ensures k.cur in t0 && k'.cur == if text[m + len] < text[cur + len] then t0[m].hi else t0[m].lo
    {
      hide OnWalk, Before, Same, Place, Gathered, Forest;
      WalkShape(t0, lenLimit, k, sides, ptr0, ptr1, curMatch);
      ptr0', ptr1', len0', len1' := ptr0, ptr1, len0, len1;
      if text[m + len] < text[cur + len] {
        DefineBefore(text, m, cur, len, lenLimit);
        ptr1', curMatch', k', sides' := TurnSmaller(ptr1, pair, curMatch, ptr0, t0, top, lenLimit, k, sides, len);
        len1' := len;
      } else {
        SameSwap(text, m, cur, len);
        DefineBefore(text, cur, m, len, lenLimit);
        ptr0', curMatch', k', sides' := TurnLarger(ptr0, pair, curMatch, ptr1, t0, top, lenLimit, k, sides, len);
        len0' := len;
      }
    }

    lemma WalkShape(t0: Tree, l: nat, k: Walk, sides: Sides, ptr0: nat, ptr1: nat, curMatch: nat)
      requires OnWalk(t0, l, k, sides, ptr0, ptr1, curMatch)
      ensures Shape() && btMode
    {
    }

    /** The walk is given up: the open links become empty. */
    method EndEmpty(ptr0: nat, ptr1: nat, ghost curMatch: nat, ghost t0: Tree, ghost top: int, ghost l: nat,
                    ghost k: Walk, ghost sides: Sides)
      requires OnWalk(t0, l, k, sides, ptr0, ptr1, curMatch)
      requires Gathered(t0, Grown(), cur, top, k, sides) && Forest(t0)
      modifies son
      ensures RefsOk() && LowWritten() && HighWritten() && Ordered(Grown(), text, l)
      ensures Kept(t0, Grown(), cur, top, Under(t0, k.cur)) && Forest(Grown())
    {
      hide Place, View, Walking, RefsOk, Before, Under, Ordered, Enclosed, Fits, Gathered, Forest, Kept;
      WalkFacts(t0, Grown(), text, l, cur, k, sides);
      RefLive(0, cur, pos, cyclicBufferSize);
      EmptyFits(t0, text, l, cur, k, cur - pos);
      Closed(t0, Grown(), text, l, cur, k, sides, cur - pos, cur - pos);
      ClosedKeeps(t0, Grown(), text, l, cur, top, k, sides, cur - pos, cur - pos);
      WriteSmaller(ptr1, 0, k);
      WriteLarger(ptr0, 0, k);
    }

    /** The node at `curMatch` is the same as far as we look: its links pass to the new node. */
    method EndMatch(ptr0: nat, ptr1: nat, pair: nat, curMatch: nat, ghost t0: Tree, ghost top: int, ghost l: nat,
                    ghost k: Walk, ghost sides: Sides)
      requires OnWalk(t0, l, k, sides, ptr0, ptr1, curMatch) && pos - curMatch < cyclicBufferSize
      requires pair == Place(k.cur, cur, cyclicBufferPos, cyclicBufferSize) && Same(text, k.cur, cur, l)
      requires Gathered(t0, Grown(), cur, top, k, sides) && Forest(t0)
      modifies son
      ensures RefsOk() && LowWritten() && HighWritten() && Ordered(Grown(), text, l)
      ensures Kept(t0, Grown(), cur, top, Gone(t0, k, t0[k.cur].lo, t0[k.cur].hi)) && Forest(Grown())
    {
      hide Place, View, Walking, RefsOk, Before, Live, Under, Ordered, Enclosed, Fits, Same, Gathered, Forest, Kept,
           Gone;
      WalkFacts(t0, Grown(), text, l, cur, k, sides);
      RefLive(curMatch, cur, pos, cyclicBufferSize);
      MatchFits(t0, text, l, cur, k);
      Closed(t0, Grown(), text, l, cur, k, sides, t0[k.cur].lo, t0[k.cur].hi);
      ClosedKeeps(t0, Grown(), text, l, cur, top, k, sides, t0[k.cur].lo, t0[k.cur].hi);
      ghost var t := Grown();
      ReadNode(k.cur);
      SonRef(k.cur);
      WriteSmaller(ptr1, son[pair], k);
      assert Grown()[k.cur] == t[k.cur];
      ReadNode(k.cur);
      SonRef(k.cur);
      WriteLarger(ptr0, son[pair + 1], k);
    }

    /** Compares from byte `from` on. */
    method MatchLen(m: nat, from: nat, lenLimit: nat) returns (len: nat)
      requires m < cur && cur + lenLimit <= |text| && from <= lenLimit && Same(text, m, cur, from)
      ensures from <= len <= lenLimit && Same(text, m, cur, len)
      ensures len < lenLimit ==> text[m + len] != text[cur + len]
    {
      len := from;
      while len != lenLimit
        invariant from <= len <= lenLimit && Same(text, m, cur, len)
      {
        SameNext(text, m, cur, len);
        if text[m + len] != text[cur + len] {
          break;
        }
        len := len + 1;
      }
    }

    /**
     GetMatchesSpec1: searches the tree below `root`, rebuilds it with the current
     position on top and reports matches longer than `minLen`.  If the search may
     take as many steps as the tree is high, the last pair is the longest match in
     the tree.
     */
    method GetMatchesSpec1(lenLimit: nat, root: nat, minLen: nat) returns (found: seq<Found>, ghost gone: set<int>)
      requires Shape() && btMode && RefsOk() && Ref(root) && root < pos
      requires 0 < lenLimit && minLen < lenLimit && cur + lenLimit <= |text|
      requires Ordered(Trees(), text, lenLimit) && Forest(Trees())
      modifies son
      ensures RefsOk() && LowWritten() && HighWritten() && Ordered(Grown(), text, lenLimit)
      ensures Forest(Grown()) && Kept(old(Trees()), Grown(), cur, root - (pos - cur), gone)
      ensures Height(old(Trees()), root - (pos - cur)) <= cutValue ==>
                Replaced(old(Trees()), text, cur, root - (pos - cur), gone, lenLimit)
      ensures TrueMatches(found, text, cur, cyclicBufferSize, lenLimit) && LensIn(found, minLen, lenLimit)
      ensures Height(old(Trees()), root - (pos - cur)) <= cutValue ==>
                Longest(old(Trees()), text, cur, root - (pos - cur), LastLen(found, minLen), lenLimit)
    {
      hide OnWalk, Ordered, RefsOk, View, Before, TrueMatches, LensIn, Same, Place, Searched, Longest, Height, Gathered,
           Forest, Kept, Replaced, Gone, Under, Live, Ref, LowWritten, HighWritten;
      ghost var t0, k, sides := Trees(), Walk(root - (pos - cur), cur, cur, 0, 0), Sides({}, {});
      ghost var top := k.cur;
      StartWalk(t0, lenLimit, root);
      SearchStarts(t0, text, cur, top, minLen, cutValue);
      found := [];
      NoMatches(text, cur, cyclicBufferSize, lenLimit, minLen);
      var ptr0: nat, ptr1: nat := 2 * cyclicBufferPos + 1, 2 * cyclicBufferPos;
      var len0: nat, len1: nat, maxLen := 0, 0, minLen;
      var curMatch, cut := root, cutValue;
      while true
        invariant OnWalk(t0, lenLimit, k, sides, ptr0, ptr1, curMatch)
        invariant len0 == k.len0 < lenLimit && len1 == k.len1 < lenLimit && minLen <= maxLen < lenLimit
        invariant TrueMatches(found, text, cur, cyclicBufferSize, lenLimit) && LensIn(found, minLen, maxLen)
        invariant len0 <= maxLen && len1 <= maxLen && maxLen == LastLen(found, minLen)
        invariant 0 <= cut <= cutValue && Searched(t0, text, cur, top, k.cur, maxLen, cutValue - cut)
        invariant Shape() && Gathered(t0, Grown(), cur, top, k, sides)
        decreases cut
      {
        LookAt(t0, lenLimit, k, sides, ptr0, ptr1, curMatch);
        var delta := pos - curMatch;
        if cut == 0 || delta >= cyclicBufferSize {
          LensLess(found, minLen, maxLen, lenLimit);
          SearchEnds(t0, lenLimit, k, sides, ptr0, ptr1, curMatch, top, found, minLen, cutValue - cut);
          EndEmpty(ptr0, ptr1, curMatch, t0, top, lenLimit, k, sides);
          gone := Under(t0, k.cur);
          return;
        }
        cut := cut - 1;
        var pair := 2 * (cyclicBufferPos - delta + if delta > cyclicBufferPos then cyclicBufferSize else 0);
        var m, len := cur - delta, if len0 < len1 then len0 else len1;
        if text[m + len] == text[cur + len] {
          ghost var before := maxLen;
          found, maxLen, len := Longer(found, m, len, lenLimit, minLen, maxLen);
          SearchedMore(t0, text, cur, top, k.cur, before, maxLen, cutValue - cut - 1);
          if len == lenLimit {
            LongestAtLimit(t0, text, cur, top, LastLen(found, minLen), lenLimit);
            gone := NodeGone(t0, lenLimit, k, sides, ptr0, ptr1, curMatch, top);
            EndMatch(ptr0, ptr1, pair, curMatch, t0, top, lenLimit, k, sides);
            return;
          }
        }
        SearchTurns(t0, lenLimit, k, sides, ptr0, ptr1, curMatch, top, len, maxLen, cutValue - cut - 1);
        ptr0, ptr1, curMatch, len0, len1, k, sides :=
            Turn(ptr0, ptr1, pair, curMatch, m, len, len0, len1, lenLimit, t0, top, k, sides);
      }
    }

    /** The search stops: at the end of the tree, or because the steps are used up. */
    lemma SearchEnds(t0: Tree, l: nat, k: Walk, sides: Sides, ptr0: nat, ptr1: nat, curMatch: nat, top: int,
                     found: seq<Found>, minLen: nat, steps: nat)
      requires OnWalk(t0, l, k, sides, ptr0, ptr1, curMatch)
               && Searched(t0, text, cur, top, k.cur, LastLen(found, minLen), steps)
      requires steps == cutValue || pos - curMatch >= cyclicBufferSize
      ensures Height(t0, top) <= cutValue ==> Longest(t0, text, cur, top, LastLen(found, minLen), l)
      ensures Height(t0, top) <= cutValue ==> Replaced(t0, text, cur, top, Under(t0, k.cur), l)
    {
      hide Ordered, RefsOk, View, Before, Walking;
      RefLive(curMatch, cur, pos, cyclicBufferSize);
      if Height(t0, top) <= cutValue {
        assert k.cur !in t0 || k.cur < 0;
        SearchedAll(t0, text, cur, top, k.cur, LastLen(found, minLen), l, steps);
        NoneReplaced(t0, text, cur, top, k.cur, l);
      }
    }

    /** The node looked at is the same, so that only it is gone. */
    lemma NodeGone(t0: Tree, l: nat, k: Walk, sides: Sides, ptr0: nat, ptr1: nat, curMatch: nat, top: int)
      returns (gone: set<int>)
      requires OnWalk(t0, l, k, sides, ptr0, ptr1, curMatch) && pos - curMatch < cyclicBufferSize
      requires Same(text, k.cur, cur, l)
      ensures k.cur in t0 && gone == Gone(t0, k, t0[k.cur].lo, t0[k.cur].hi)
      ensures Replaced(t0, text, cur, top, gone, l)
    {
      hide RefsOk, View, Before, Same, Gone, Replaced, Under;
      RefLive(curMatch, cur, pos, cyclicBufferSize);
      gone := Gone(t0, k, t0[k.cur].lo, t0[k.cur].hi);
      OneReplaced(t0, text, cur, top, k, l);
    }

    /** The search turns to one side. */
    lemma SearchTurns(t0: Tree, l: nat, k: Walk, sides: Sides, ptr0: nat, ptr1: nat, curMatch: nat, top: int, len: nat,
                      maxLen: nat, steps: nat)
      requires OnWalk(t0, l, k, sides, ptr0, ptr1, curMatch) && pos - curMatch < cyclicBufferSize && 0 <= k.cur
               && cur + l <= |text|
      requires len < l && Same(text, k.cur, cur, len) && text[k.cur + len] != text[cur + len] && len <= maxLen < l
      requires Searched(t0, text, cur, top, k.cur, maxLen, steps)
      ensures k.cur in t0
      ensures var at := if text[k.cur + len] < text[cur + len] then t0[k.cur].hi else t0[k.cur].lo;
              Searched(t0, text, cur, top, at, maxLen, steps + 1)
    {
      hide RefsOk, View, Sorted, Rewired, Narrowed, Height, Under;
      RefLive(curMatch, cur, pos, cyclicBufferSize);
      if text[k.cur + len] < text[cur + len] {
        NarrowSmaller(t0, text, l, cur, top, k.cur, len, maxLen);
      } else {
        NarrowLarger(t0, text, l, cur, top, k.cur, len, maxLen);
      }
    }

    /** The match at `m` is drawn out, and noted if it is longer than all before. */
    method Longer(found: seq<Found>, m: nat, len: nat, lenLimit: nat, ghost minLen: nat, maxLen: nat)
      returns (found': seq<Found>, maxLen': nat, len': nat)
      requires m < cur < m + cyclicBufferSize && len < lenLimit && minLen <= maxLen < lenLimit
               && cur + lenLimit <= |text|
      requires Same(text, m, cur, len) && text[m + len] == text[cur + len]
      requires TrueMatches(found, text, cur, cyclicBufferSize, lenLimit) && LensIn(found, minLen, maxLen)
      ensures len < len' <= lenLimit && Same(text, m, cur, len')
              && (len' < lenLimit ==> text[m + len'] != text[cur + len'])
      ensures TrueMatches(found', text, cur, cyclicBufferSize, lenLimit) && LensIn(found', minLen, maxLen')
      ensures maxLen <= maxLen' <= lenLimit && (maxLen' == lenLimit <==> len' == lenLimit) && len' <= maxLen'
      ensures maxLen == LastLen(found, minLen) ==> maxLen' == LastLen(found', minLen)
    {
      hide TrueMatches, LensIn, Same;
      SameNext(text, m, cur, len);
      found', maxLen' := found, maxLen;
      len' := MatchLen(m, len + 1, lenLimit);
      if maxLen < len' {
        AddMatch(found, text, cur, cyclicBufferSize, lenLimit, Found(len', cur - m - 1), minLen, maxLen);
        found' := found + [Found(len', cur - m - 1)];
        maxLen' := len';
      }
    }

    /** What a walker sees at `curMatch`. */
    lemma LookAt(t0: Tree, l: nat, k: Walk, sides: Sides, ptr0: nat, ptr1: nat, curMatch: nat)
      requires OnWalk(t0, l, k, sides, ptr0, ptr1, curMatch)
      ensures Shape() && curMatch < pos && k.cur == curMatch - (pos - cur) && cur + l <= |text|
      ensures pos - curMatch < cyclicBufferSize ==>
        && 0 <= k.cur < cur && 0 <= Slot(pos - curMatch, cyclicBufferPos, cyclicBufferSize)
        && 2 * Slot(pos - curMatch, cyclicBufferPos, cyclicBufferSize) == Place(k.cur, cur, cyclicBufferPos, cyclicBufferSize)
        && Same(text, k.cur, cur, if k.len0 < k.len1 then k.len0 else k.len1)
    {
      hide Ordered, RefsOk, View, Before, Same, Walking;
      WalkFacts(t0, Grown(), text, l, cur, k, sides);
      RefLive(curMatch, cur, pos, cyclicBufferSize);
      if pos - curMatch < cyclicBufferSize {
        KnownSame(t0, Grown(), text, l, cur, k, sides);
      }
    }

    /** SkipMatchesSpec: only rebuilds the tree. */
    method SkipMatchesSpec(lenLimit: nat, root: nat) returns (ghost gone: set<int>)
      requires Shape() && btMode && RefsOk() && Ref(root) && root < pos && 0 < lenLimit && cur + lenLimit <= |text|
      requires Ordered(Trees(), text, lenLimit) && Forest(Trees())
      modifies son
      ensures RefsOk() && LowWritten() && HighWritten() && Ordered(Grown(), text, lenLimit)
      ensures Forest(Grown()) && Kept(old(Trees()), Grown(), cur, root - (pos - cur), gone)
      ensures Height(old(Trees()), root - (pos - cur)) <= cutValue ==>
                Replaced(old(Trees()), text, cur, root - (pos - cur), gone, lenLimit)
    {
      hide OnWalk, Ordered, RefsOk, View, Before, Same, Place, Height, Gathered, Forest, Kept, Replaced, Gone, Under,
           Live, Ref, LowWritten, HighWritten;
      ghost var t0, k, sides := Trees(), Walk(root - (pos - cur), cur, cur, 0, 0), Sides({}, {});
      ghost var top := k.cur;
      StartWalk(t0, lenLimit, root);
      var ptr0: nat, ptr1: nat := 2 * cyclicBufferPos + 1, 2 * cyclicBufferPos;
      var len0: nat, len1: nat := 0, 0;
      var curMatch, cut := root, cutValue;
      while true
        invariant OnWalk(t0, lenLimit, k, sides, ptr0, ptr1, curMatch)
        invariant len0 == k.len0 < lenLimit && len1 == k.len1 < lenLimit
        invariant Shape() && Gathered(t0, Grown(), cur, top, k, sides)
        invariant 0 <= cut <= cutValue && cutValue - cut + Height(t0, k.cur) <= Height(t0, top)
        decreases cut
      {
        LookAt(t0, lenLimit, k, sides, ptr0, ptr1, curMatch);
        var delta := pos - curMatch;
        if cut == 0 || delta >= cyclicBufferSize {
          SkipEnds(t0, lenLimit, k, sides, ptr0, ptr1, curMatch, top, cutValue - cut);
          EndEmpty(ptr0, ptr1, curMatch, t0, top, lenLimit, k, sides);
          gone := Under(t0, k.cur);
          return;
        }
        cut := cut - 1;
        var pair := 2 * (cyclicBufferPos - delta + if delta > cyclicBufferPos then cyclicBufferSize else 0);
        var m, len := cur - delta, if len0 < len1 then len0 else len1;
        if text[m + len] == text[cur + len] {
          SameNext(text, m, cur, len);
          len := MatchLen(m, len + 1, lenLimit);
          if len == lenLimit {
            gone := NodeGone(t0, lenLimit, k, sides, ptr0, ptr1, curMatch, top);
            EndMatch(ptr0, ptr1, pair, curMatch, t0, top, lenLimit, k, sides);
            return;
          }
        }
        SinkOne(t0, lenLimit, k, sides, ptr0, ptr1, curMatch);
        ptr0, ptr1, curMatch, len0, len1, k, sides :=
            Turn(ptr0, ptr1, pair, curMatch, m, len, len0, len1, lenLimit, t0, top, k, sides);
      }
    }

    lemma SkipEnds(t0: Tree, l: nat, k: Walk, sides: Sides, ptr0: nat, ptr1: nat, curMatch: nat, top: int, steps: nat)
      requires OnWalk(t0, l, k, sides, ptr0, ptr1, curMatch) && steps + Height(t0, k.cur) <= Height(t0, top)
      requires steps == cutValue || pos - curMatch >= cyclicBufferSize
      ensures Height(t0, top) <= cutValue ==> Replaced(t0, text, cur, top, Under(t0, k.cur), l)
    {
      hide Ordered, RefsOk, View, Before, Walking;
      RefLive(curMatch, cur, pos, cyclicBufferSize);
      if Height(t0, top) <= cutValue {
        assert k.cur !in t0 || k.cur < 0;
        NoneReplaced(t0, text, cur, top, k.cur, l);
      }
    }

    lemma SinkOne(t0: Tree, l: nat, k: Walk, sides: Sides, ptr0: nat, ptr1: nat, curMatch: nat)
      requires OnWalk(t0, l, k, sides, ptr0, ptr1, curMatch) && pos - curMatch < cyclicBufferSize
      ensures k.cur in t0
      ensures Height(t0, t0[k.cur].lo) < Height(t0, k.cur) && Height(t0, t0[k.cur].hi) < Height(t0, k.cur)
    {
      hide RefsOk, View, Before, Sorted, Rewired, Height, Under;
      RefLive(curMatch, cur, pos, cyclicBufferSize);
      HeightChild(t0, k.cur);
    }

    lemma StartWalk(t0: Tree, l: nat, root: nat)
      requires Shape() && btMode && RefsOk() && Ref(root) && root < pos && cur + l <= |text| && t0 == Trees()
               && Ordered(t0, text, l)
      ensures OnWalk(t0, l, Walk(root - (pos - cur), cur, cur, 0, 0), Sides({}, {}), 2 * cyclicBufferPos + 1,
                     2 * cyclicBufferPos, root)
      ensures Gathered(t0, Grown(), cur, root - (pos - cur), Walk(root - (pos - cur), cur, cur, 0, 0), Sides({}, {}))
    {
      hide Ordered, RefsOk, Walking, Gathered;
      assert Grown().Keys == t0.Keys + {cur};
      GatherStarts(t0, Grown(), cur, root - (pos - cur));
      WalkStarts(t0, Grown(), text, l, cur, root - (pos - cur));
    }

    /** MatchFinder_CheckLimits: rebases the tables when the counter is about to overflow. */
    method CheckLimits() returns (ghost sub: nat)
      requires cyclicBufferPos <= cyclicBufferSize && 0 < cyclicBufferSize <= pos <= MAX_VAL_FOR_NORMALIZE
               && cur <= |text| && Sizes()
      modifies this`pos, this`posLimit, this`lenLimit, this`cyclicBufferPos, hash, son
      ensures sub <= old(pos) - cyclicBufferSize && pos == old(pos) - sub
      ensures son[..] == Normalised(old(son[..]), sub) && hash[..] == Normalised(old(hash[..]), sub)
      ensures cyclicBufferPos == if old(cyclicBufferPos) == cyclicBufferSize then 0 else old(cyclicBufferPos)
      ensures Limits() && lenLimit == if |text| - cur < matchMaxLen then |text| - cur else matchMaxLen
    {
      sub := 0;
      NormalisedByZero(son[..]);
      NormalisedByZero(hash[..]);
      if pos == MAX_VAL_FOR_NORMALIZE {
        var subValue := (pos - cyclicBufferSize) / 1024 * 1024;
        Normalize3(subValue, hash);
        Normalize3(subValue, son);
        pos := pos - subValue;
        sub := subValue;
      }
      if cyclicBufferPos == cyclicBufferSize {
        cyclicBufferPos := 0;
      }
      SetLimits();
    }

    /** The current position is in its tree, or in its chain. */
    ghost predicate Inserted()
      requires Shape() && Sizes()
      reads this, son, hash
    {
      lenLimit >= 4 ==>
        HeadsLatest(cur + 1) && if btMode then TreesGrown() else ChainOk(cur)
    }

    /** MOVE_POS. */
    method MovePos()
      requires Shape() && Sizes() && Limits() && HeadsOk(pos + 1) && cur < |text| && Inserted()
      modifies this`pos, this`posLimit, this`lenLimit, this`cyclicBufferPos, this`cur, hash, son
      ensures Valid() && cur == old(cur) + 1 && lenLimit <= old(lenLimit)
    {
      hide Ordered, View, Hashed, RefsOk, ChainOk, LowWritten, HighWritten, Latest, Forest, Pure, Complete,
           ChainsLatest, LinksOk;
      ghost var sub := 0;
      ghost var pos0, cur0, cyc0, len0, son0, hash0 := pos, cur, cyclicBufferPos, lenLimit, son[..], hash[..];
      NormalisedByZero(son[..]);
      NormalisedByZero(hash[..]);
      if len0 >= 4 {
        AllLinked();
      }
      cyclicBufferPos := cyclicBufferPos + 1;
      cur := cur + 1;
      pos := pos + 1;
      if pos == posLimit {
        sub := CheckLimits();
      }
      assert HeadsOk(pos) by {
        forall j | 0 <= j < hash.Length
          ensures HeadOk(hash[j], j, pos)
        {
          assert hash[j] == Rebase(hash0[j], sub);
        }
      }
      if len0 >= 4 {
        forall j | 0 <= j < hash.Length
          ensures LatestHead(hash[j], j, cur)
        {
          assert hash[j] == Rebase(hash0[j], sub) && hash0[j] == old(hash[j]) && old(LatestHead(hash[j], j, cur + 1));
          MoveLatest(text, crc, hashSize, hash0[j], j, sub, pos0, cur0, cyclicBufferSize);
        }
        MoveLinks(son0, sub, pos0, cur0, cyc0, cyclicBufferSize, btMode);
        if !btMode {
          MoveChains(son0, sub, pos0, cur0, cyc0, cyclicBufferSize, text, crc, hashSize);
        }
        LinksAre();
        if btMode {
          MoveTrees(son0, hash0, sub, pos0, cur0, cyc0, cyclicBufferSize, text, crc, hashSize, len0, lenLimit, lost);
        }
      }
    }

    /** With the current position inserted, all live entries hold links. */
    lemma AllLinked()
      requires Shape() && Sizes() && Inserted() && lenLimit >= 4
      ensures LinksOk(son[..], pos, cur, cyclicBufferPos, cyclicBufferSize, cur, btMode)
      ensures !btMode ==> ChainsLatest(son[..], pos, cur, cyclicBufferPos, cyclicBufferSize, cur, text, crc, hashSize)
    {
      hide Ordered, View, LinkLatest;
      forall x | x in LivePositions(cur, cyclicBufferSize, cur)
        ensures LinksAt(son[..], pos, cur, cyclicBufferPos, cyclicBufferSize, x, btMode)
      {
        if btMode {
          assert x < cur ==> x in LivePositions(cur, cyclicBufferSize, cur - 1) && NodeRefs(x);
        } else {
          assert ChainRef(x);
        }
      }
      if !btMode {
        forall x | x in LivePositions(cur, cyclicBufferSize, cur)
          ensures LinkLatest(son[..], pos, cur, cyclicBufferPos, cyclicBufferSize, text, crc, hashSize, x)
        {
          assert ChainRef(x) && ChainLatest(x);
        }
      }
    }

    lemma LinksAre()
      requires Shape() && Sizes() && LinksOk(son[..], pos, cur, cyclicBufferPos, cyclicBufferSize, cur - 1, btMode)
      requires !btMode ==>
                 ChainsLatest(son[..], pos, cur, cyclicBufferPos, cyclicBufferSize, cur - 1, text, crc, hashSize)
      ensures if btMode then RefsOk() else ChainOk(cur - 1)
    {
      hide LinkLatest;
      forall x | x in LivePositions(cur, cyclicBufferSize, cur - 1)
        ensures if btMode then NodeRefs(x) else ChainRef(x)
      {
        assert LinksAt(son[..], pos, cur, cyclicBufferPos, cyclicBufferSize, x, btMode);
      }
    }

    /** A head in the window is a position before the current one. */
    lemma HeadNear(v: nat, j: nat)
      requires Shape() && Sizes() && HeadOk(v, j, pos)
      ensures pos - v < cyclicBufferSize ==> 1 <= pos - v <= cur
    {
    }

    /** A head in the window whose first byte fits is a match of two or three bytes. */
    lemma HeadMatches(v: nat, j: nat)
      requires Shape() && Sizes() && HeadOk(v, j, pos) && cur + 4 <= |text| && pos - v < cyclicBufferSize
               && text[cur - (pos - v)] == text[cur]
      ensures 1 <= pos - v <= cur
      ensures j == Hash2(crc, text[cur], text[cur + 1]) ==> Same(text, cur - (pos - v), cur, 2)
      ensures j == FIX3_HASH_SIZE + Hash3(crc, text[cur], text[cur + 1], text[cur + 2]) ==>
              Same(text, cur - (pos - v), cur, 3)
    {
      hide Hash2, Hash3;
      var x := cur - (pos - v);
      if j == Hash2(crc, text[cur], text[cur + 1]) {
        Hash2Tells(crc, text[cur], text[cur + 1], text[x + 1]);
      }
      if j == FIX3_HASH_SIZE + Hash3(crc, text[cur], text[cur + 1], text[cur + 2]) {
        Hash3Tells(crc, text[cur], text[cur + 1], text[cur + 2], text[x + 1], text[x + 2]);
      }
    }

    /** The matches that the heads of the two short hashes give; the last one is drawn out. */
    method ShortMatches(head2: nat, head3: nat, ghost h2: nat, ghost h3: nat) returns (found: seq<Found>, maxLen: nat)
      requires Shape() && Sizes() && 4 <= lenLimit && cur + lenLimit <= |text|
      requires HeadOk(head2, h2, pos) && h2 == Hash2(crc, text[cur], text[cur + 1])
      requires HeadOk(head3, h3, pos) && h3 == FIX3_HASH_SIZE + Hash3(crc, text[cur], text[cur + 1], text[cur + 2])
      ensures TrueMatches(found, text, cur, cyclicBufferSize, lenLimit) && LensIn(found, 1, maxLen)
      ensures 1 <= maxLen <= lenLimit && maxLen == LastLen(found, 1)
      ensures HeadFound(found, text, cur, cyclicBufferSize, lenLimit, pos - head2, pos - head3)
    {
      hide Hash2, Hash3, Hashed, TrueMatches, LensIn, Same, HeadOk, Near, HeadFound, FirstPairs;
      var delta;
      found, maxLen, delta := HeadPairs(head2, head3, h2, h3);
      NoMatches(text, cur, cyclicBufferSize, lenLimit, 1);
      PairsAre(found, text, cur, cyclicBufferSize, lenLimit, pos - head2, pos - head3);
      if found != [] {
        PairsTrue(found, head2, head3, h2, h3);
        ghost var first, between := found[..|found| - 1], if |found| == 1 then 1 else 2;
        maxLen := MatchLen(cur - delta, maxLen, lenLimit);
        PairsDrawn(found, text, cur, cyclicBufferSize, lenLimit, pos - head2, pos - head3, maxLen);
        found := found[|found| - 1 := Found(maxLen, delta - 1)];
        AddMatch(first, text, cur, cyclicBufferSize, lenLimit, Found(maxLen, delta - 1), 1, between);
        assert found == first + [Found(maxLen, delta - 1)];
      }
    }

    /** The pairs of two and three bytes that the heads stand for, the last one at distance `delta`. */
    method HeadPairs(head2: nat, head3: nat, ghost h2: nat, ghost h3: nat)
      returns (found: seq<Found>, maxLen: nat, delta: int)
      requires Shape() && Sizes() && cur + 4 <= |text| && HeadOk(head2, h2, pos) && HeadOk(head3, h3, pos)
      ensures found == FirstPairs(text, cur, cyclicBufferSize, pos - head2, pos - head3)
      ensures maxLen == LastLen(found, 1) && (found != [] ==> delta == found[|found| - 1].dist + 1)
    {
      hide HeadOk;
      HeadNear(head2, h2);
      HeadNear(head3, h3);
      found, maxLen := [], 1;
      var delta2, delta3 := pos - head2, pos - head3;
      if delta2 < cyclicBufferSize && text[cur - delta2] == text[cur] {
        maxLen := 2;
        found := [Found(2, delta2 - 1)];
      }
      delta := delta2;
      if delta2 != delta3 && delta3 < cyclicBufferSize && text[cur - delta3] == text[cur] {
        maxLen := 3;
        found := found + [Found(3, delta3 - 1)];
        delta := delta3;
      }
    }

    /** These pairs are matches. */
    lemma PairsTrue(found: seq<Found>, head2: nat, head3: nat, h2: nat, h3: nat)
      requires Shape() && Sizes() && 4 <= lenLimit && cur + lenLimit <= |text|
      requires HeadOk(head2, h2, pos) && h2 == Hash2(crc, text[cur], text[cur + 1])
      requires HeadOk(head3, h3, pos) && h3 == FIX3_HASH_SIZE + Hash3(crc, text[cur], text[cur + 1], text[cur + 2])
      requires found == FirstPairs(text, cur, cyclicBufferSize, pos - head2, pos - head3) && found != []
      ensures var last := found[|found| - 1];
              && last.dist < cur && last.dist + 1 < cyclicBufferSize && Same(text, cur - last.dist - 1, cur, last.len)
              && |found| < last.len <= 3
      ensures TrueMatches(found[..|found| - 1], text, cur, cyclicBufferSize, lenLimit)
              && LensIn(found[..|found| - 1], 1, if |found| == 1 then 1 else 2)
    {
      hide Hash2, Hash3, Hashed, TrueMatches, LensIn, Same, HeadOk, FirstPairs;
      var delta2, delta3 := pos - head2, pos - head3;
      PairsLook(text, cur, cyclicBufferSize, delta2, delta3);
      NoMatches(text, cur, cyclicBufferSize, lenLimit, 1);
      if Near(text, cur, cyclicBufferSize, delta2) {
        HeadMatches(head2, h2);
        AddMatch([], text, cur, cyclicBufferSize, lenLimit, Found(2, delta2 - 1), 1, 1);
        assert [] + [Found(2, delta2 - 1)] == [Found(2, delta2 - 1)];
      }
      if delta2 != delta3 && Near(text, cur, cyclicBufferSize, delta3) {
        HeadMatches(head3, h3);
      }
    }

    lemma HeadsStay()
      requires Shape() && Sizes() && HeadsOk(pos)
      ensures HeadsOk(pos + 1)
    {
      forall j | 0 <= j < hash.Length
        ensures HeadOk(hash[j], j, pos + 1)
      {
        assert HeadOk(hash[j], j, pos);
      }
    }

    /** The current position becomes the head of its three lists; the old heads are returned. */
    method TakeHeads() returns (head2: nat, head3: nat, head4: nat, ghost h2: nat, ghost h3: nat)
      requires Shape() && Sizes() && HeadsOk(pos) && HeadsLatest(cur) && cur + 4 <= |text|
      modifies hash
      ensures HeadsOk(pos + 1) && HeadsLatest(cur + 1)
      ensures HeadOk(head2, h2, pos) && h2 == Hash2(crc, text[cur], text[cur + 1])
      ensures HeadOk(head3, h3, pos) && h3 == FIX3_HASH_SIZE + Hash3(crc, text[cur], text[cur + 1], text[cur + 2])
      ensures h3 < hash.Length && (head2, head3, head4) == (old(hash[h2]), old(hash[h3]), old(Root()))
      ensures Ref(head4) && head4 < pos && Root() == pos
      ensures forall j | FIX4_HASH_SIZE <= j < hash.Length && j != List4(text, crc, hashSize, cur) ::
                hash[j] == old(hash[j])
    {
      hide Hash2, Hash3, Hash4, Latest;
      var hash2Value := Hash2(crc, text[cur], text[cur + 1]);
      var hash3Value := Hash3(crc, text[cur], text[cur + 1], text[cur + 2]);
      var hashValue := Hash4(crc, hashSize, text[cur], text[cur + 1], text[cur + 2], text[cur + 3]);
      head2, head3, head4 := hash[hash2Value], hash[FIX3_HASH_SIZE + hash3Value], hash[FIX4_HASH_SIZE + hashValue];
      h2, h3 := hash2Value, FIX3_HASH_SIZE + hash3Value;
      assert HeadOk(head2, h2, pos) && HeadOk(head3, h3, pos) && HeadOk(head4, FIX4_HASH_SIZE + hashValue, pos);
      HeadsStay();
      hash[hash2Value] := pos;
      hash[FIX3_HASH_SIZE + hash3Value] := pos;
      hash[FIX4_HASH_SIZE + hashValue] := pos;
      forall j | 0 <= j < hash.Length
        ensures LatestHead(hash[j], j, cur + 1)
      {
        NewLatest(text, crc, hashSize, old(hash[j]) - (pos - cur), j, cur, cyclicBufferSize);
      }
    }

    /** The head of the tree or chain that the current position belongs to. */
    ghost function Root(): nat
      requires Sizes() && cur + 4 <= |text|
      reads `pos, `cur, `cyclicBufferPos, hash
    {
      hash[List4(text, crc, hashSize, cur)]
    }

    /** How far back the heads of the short hashes of the current position are. */
    ghost function Delta2(): int
      requires Sizes() && cur + 4 <= |text|
      reads `pos, `cur, `cyclicBufferPos, hash
    {
      pos - hash[Hash2(crc, text[cur], text[cur + 1])]
    }

    ghost function Delta3(): int
      requires Sizes() && cur + 4 <= |text|
      reads `pos, `cur, `cyclicBufferPos, hash
    {
      pos - hash[FIX3_HASH_SIZE + Hash3(crc, text[cur], text[cur + 1], text[cur + 2])]
    }

    /** There are as many bytes as `lenLimit` says. */
    lemma EnoughBytes()
      requires Valid() && cur < |text|
      ensures lenLimit <= |text| - cur
    {
    }

    /**
     Bt4_MatchFinder_GetMatches: every pair it returns is a true match inside the
     window, and the lengths grow strictly.  First come `n` pairs for the heads of
     the short hashes, then longer ones from the tree.  If the search may take as
     many steps as the tree is high, no position of the tree has a longer match
     than the last pair, and so no position of the window, but for those that
     earlier searches have dropped; this one drops none.
     */
    method GetMatches() returns (found: seq<Found>, ghost n: nat)
      requires Valid() && btMode && cur < |text|
      modifies this`pos, this`posLimit, this`lenLimit, this`cyclicBufferPos, this`cur, this`lost, hash, son
      ensures Valid() && cur == old(cur) + 1 && old(lenLimit) <= |text| - old(cur)
      ensures TrueMatches(found, text, old(cur), cyclicBufferSize, old(lenLimit))
      ensures old(lenLimit) < 4 ==> found == []
      ensures old(lenLimit) >= 4 ==>
                && n <= |found| && LensIn(found[n..], AtLeast3(found[..n]), old(lenLimit))
                && HeadFound(found[..n], text, old(cur), cyclicBufferSize, old(lenLimit), old(Delta2()), old(Delta3()))
      ensures old(lenLimit) >= 4 && Height(old(Trees()), old(Root() - (pos - cur))) <= cutValue ==>
                Longest(old(Trees()), text, old(cur), old(Root() - (pos - cur)), AtLeast3(found), old(lenLimit))
                && LongestInWindow(text, old(cur), cyclicBufferSize, old(lost), AtLeast3(found), old(lenLimit))
                && lost == old(lost)
    {
      hide Ordered, View, RefsOk, HeadsOk, HeadOk, TrueMatches, LensIn, Hash2, Hash3, Hash4, HeadFound, Longest, Height,
           Latest, HeadsLatest, LowWritten, HighWritten, AtLeast3, Forest, Pure, Complete, Kept, Replaced, HeadsPure,
           Missing, LongestInWindow;
      EnoughBytes();
      if lenLimit < 4 {
        NoMatches(text, cur, cyclicBufferSize, lenLimit, 0);
        HeadsStay();
        MovePos();
        return [], 0;
      }
      ghost var t0, hash0 := Trees(), hash[..];
      HeadsArePure();
      ghost var h2, h3;
      var head2, head3, curMatch, maxLen;
      head2, head3, curMatch, h2, h3 := TakeHeads();
      found, maxLen := ShortMatches(head2, head3, h2, h3);
      n := |found|;
      ghost var gone;
      found, gone := Search(found, maxLen, curMatch);
      InWindow(t0, text, crc, hashSize, hash0, pos - cur, cur, cyclicBufferSize, lenLimit, lost, curMatch - (pos - cur),
               AtLeast3(found));
      Account(t0, hash0, curMatch - (pos - cur), gone);
      MovePos();
    }

    lemma HeadsArePure()
      requires Shape() && Sizes() && btMode && HeadsOk(pos)
      ensures HeadsPure(Trees(), text, crc, hashSize, hash[..], pos - cur)
    {
      hide List4;
      forall x, head | ListHead(text, crc, hashSize, hash[..], pos - cur, x, head) && head in Trees()
        ensures SameList(text, crc, hashSize, x, head)
      {
        assert HeadOk(hash[List4(text, crc, hashSize, x)], List4(text, crc, hashSize, x), pos);
      }
    }

    /** The current position is in its tree; what that tree does not represent any more is lost. */
    ghost method Account(t0: Tree, hash0: seq<nat>, root: int, gone: set<int>)
      requires Shape() && Sizes() && btMode && 4 <= lenLimit && cur + lenLimit <= |text|
      requires RefsOk() && LowWritten() && HighWritten() && Ordered(Grown(), text, lenLimit) && Forest(Grown())
      requires Kept(t0, Grown(), cur, root, gone) && Pure(t0, text, crc, hashSize)
      requires HeadsPure(t0, text, crc, hashSize, hash0, pos - cur)
      requires Complete(t0, text, crc, hashSize, hash0, pos - cur, cur, cyclicBufferSize, cur, lenLimit, lost)
      requires ListHead(text, crc, hashSize, hash0, pos - cur, cur, root) && Root() == pos
      requires forall j | FIX4_HASH_SIZE <= j < |hash0| && j != List4(text, crc, hashSize, cur) :: hash[j] == hash0[j]
      modifies this`lost
      ensures TreesGrown() && lost == old(lost) + Missing(Grown(), text, crc, hashSize, cur, cyclicBufferSize, lenLimit)
      ensures Replaced(t0, text, cur, root, gone, lenLimit) ==> lost == old(lost)
    {
      hide Ordered, View, RefsOk, LowWritten, HighWritten, Forest, Pure, Kept, Complete, HeadsPure, List4, Missing;
      InsertComplete(t0, Grown(), text, crc, hashSize, hash0, hash[..], pos - cur, cur, cyclicBufferSize, lenLimit,
                     lost, root, gone);
      RootList(t0, hash0, root);
      PureInsert(t0, Grown(), text, crc, hashSize, cur, root, gone);
      lost := lost + Missing(Grown(), text, crc, hashSize, cur, cyclicBufferSize, lenLimit);
    }

    lemma RootList(t0: Tree, hash0: seq<nat>, root: int)
      requires Sizes() && HeadsPure(t0, text, crc, hashSize, hash0, pos - cur)
      requires ListHead(text, crc, hashSize, hash0, pos - cur, cur, root)
      ensures root in t0 ==> SameList(text, crc, hashSize, cur, root)
    {
    }

    /** The pairs of the tree behind those of the heads; none if these are as long as can be. */
    method Search(short: seq<Found>, len: nat, curMatch: nat) returns (found: seq<Found>, ghost gone: set<int>)
      requires Shape() && btMode && RefsOk() && Ref(curMatch) && curMatch < pos
      requires 4 <= lenLimit && cur + lenLimit <= |text| && Ordered(Trees(), text, lenLimit) && Forest(Trees())
      requires TrueMatches(short, text, cur, cyclicBufferSize, lenLimit) && LensIn(short, 1, len)
      requires 1 <= len <= lenLimit && len == LastLen(short, 1)
      modifies son
      ensures RefsOk() && LowWritten() && HighWritten() && Ordered(Grown(), text, lenLimit)
      ensures Forest(Grown()) && Kept(old(Trees()), Grown(), cur, curMatch - (pos - cur), gone)
      ensures Height(old(Trees()), curMatch - (pos - cur)) <= cutValue ==>
                Replaced(old(Trees()), text, cur, curMatch - (pos - cur), gone, lenLimit)
      ensures TrueMatches(found, text, cur, cyclicBufferSize, lenLimit)
      ensures |short| <= |found| && found[..|short|] == short
      ensures LensIn(found[|short|..], AtLeast3(short), lenLimit)
      ensures Height(old(Trees()), curMatch - (pos - cur)) <= cutValue ==>
                Longest(old(Trees()), text, cur, curMatch - (pos - cur), AtLeast3(found), lenLimit)
    {
      hide Ordered, View, RefsOk, TrueMatches, LensIn, Longest, Height, LowWritten, HighWritten, Forest, Kept, Replaced;
      if short != [] && len == lenLimit {
        LongestAtLimit(Trees(), text, cur, curMatch - (pos - cur), len, lenLimit);
        FromHeads(short, [], lenLimit);
        gone := SkipMatchesSpec(lenLimit, curMatch);
        found := short;
        assert found == short + [];
      } else {
        var maxLen := if len < 3 then 3 else len;
        LensLess(short, 1, len, maxLen);
        var longer;
        longer, gone := GetMatchesSpec1(lenLimit, curMatch, maxLen);
        JoinMatches(short, longer, text, cur, cyclicBufferSize, lenLimit, maxLen);
        FromHeads(short, longer, lenLimit);
        found := short + longer;
      }
    }

    /** Bt4_MatchFinder_Skip: keeps the trees without looking for matches. */
    method Skip(num: nat)
      requires Valid() && btMode && num <= |text| - cur
      modifies this`pos, this`posLimit, this`lenLimit, this`cyclicBufferPos, this`cur, this`lost, hash, son
      ensures Valid() && cur == old(cur) + num && old(lost) <= lost
    {
      hide Valid;
      var left := num;
      while left != 0
        invariant Valid() && 0 <= left && cur == old(cur) + num - left && old(lost) <= lost
      {
        SkipOne();
        left := left - 1;
      }
    }

    /** One round of it: the position goes into its tree, and nothing gets lost that can be searched for. */
    method SkipOne()
      requires Valid() && btMode && cur < |text|
      modifies this`pos, this`posLimit, this`lenLimit, this`cyclicBufferPos, this`cur, this`lost, hash, son
      ensures Valid() && cur == old(cur) + 1 && old(lenLimit) <= |text| - old(cur) && old(lost) <= lost
      ensures old(lenLimit) < 4 || Height(old(Trees()), old(Root() - (pos - cur))) <= cutValue ==> lost == old(lost)
    {
      hide Ordered, View, RefsOk, HeadsOk, HeadOk, Hash2, Hash3, Hash4, Height, Latest, HeadsLatest, LowWritten,
           HighWritten, Forest, Pure, Complete, Kept, Replaced, HeadsPure, Missing;
      EnoughBytes();
      if lenLimit < 4 {
        HeadsStay();
        MovePos();
        return;
      }
      ghost var t0, hash0 := Trees(), hash[..];
      HeadsArePure();
      ghost var h2, h3;
      var head2, head3, curMatch;
      head2, head3, curMatch, h2, h3 := TakeHeads();
      ghost var gone := SkipMatchesSpec(lenLimit, curMatch);
      Account(t0, hash0, curMatch - (pos - cur), gone);
      MovePos();
    }

    // ---------------------------------------------------------- hash chains

    /**
     Hc_GetMatchesSpec: follows the chain of positions with the same hash, the
     latest first, for as many steps as it may; the last pair is the longest match
     of these positions.
     */
    method HcGetMatchesSpec(lenLimit: nat, root: nat, minLen: nat) returns (found: seq<Found>)
      requires Shape() && Sizes() && !btMode && ChainOk(cur - 1) && Ref(root) && RootLatest(root)
      requires 1 <= minLen < lenLimit && 4 <= lenLimit && cur + lenLimit <= |text|
      modifies son
      ensures ChainOk(cur) && TrueMatches(found, text, cur, cyclicBufferSize, lenLimit)
              && LensIn(found, minLen, lenLimit)
      ensures LongestOfFirst(text, crc, hashSize, cur, cyclicBufferSize, cutValue, LastLen(found, minLen), lenLimit)
    {
      hide TrueMatches, LensIn, Same, ChainOk, LongestOfFirst, Checked, Candidates, Chained;
      Link(root);
      found := [];
      NoMatches(text, cur, cyclicBufferSize, lenLimit, minLen);
      ChainStarts(root, minLen, lenLimit);
      var maxLen, curMatch: nat, cut := minLen, root, cutValue;
      while true
        invariant Ref(curMatch) && curMatch < pos && minLen <= maxLen < lenLimit && maxLen == LastLen(found, minLen)
        invariant TrueMatches(found, text, cur, cyclicBufferSize, lenLimit) && LensIn(found, minLen, maxLen)
        invariant OnChain(curMatch - (pos - cur), cutValue - cut, maxLen, lenLimit) && 0 <= cut <= cutValue
        decreases cut
        modifies {}
      {
        var delta := pos - curMatch;
        if cut == 0 || delta >= cyclicBufferSize {
          LensLess(found, minLen, maxLen, lenLimit);
          ChainEnds(curMatch, cutValue - cut, maxLen, lenLimit);
          return;
        }
        cut := cut - 1;
        var m := cur - delta;
        ChainStep(m);
        curMatch := son[cyclicBufferPos - delta + if delta > cyclicBufferPos then cyclicBufferSize else 0];
        ghost var before := maxLen;
        found, maxLen := HcLonger(found, m, lenLimit, minLen, maxLen);
        ChainOn(m, curMatch - (pos - cur), cutValue - cut - 1, before, maxLen, lenLimit);
        if maxLen == lenLimit {
          AllChecked(text, crc, hashSize, cur, cyclicBufferSize, cutValue, maxLen, lenLimit);
          return;
        }
      }
    }

    /** The candidate `m` is compared, and noted if its match is longer than all before. */
    method HcLonger(found: seq<Found>, m: nat, lenLimit: nat, ghost minLen: nat, maxLen: nat)
      returns (found': seq<Found>, maxLen': nat)
      requires m < cur < m + cyclicBufferSize && 1 <= minLen <= maxLen < lenLimit && cur + lenLimit <= |text|
      requires TrueMatches(found, text, cur, cyclicBufferSize, lenLimit) && LensIn(found, minLen, maxLen)
      requires maxLen == LastLen(found, minLen)
      ensures TrueMatches(found', text, cur, cyclicBufferSize, lenLimit) && LensIn(found', minLen, maxLen')
      ensures maxLen <= maxLen' <= lenLimit && maxLen' == LastLen(found', minLen)
      ensures forall n: nat | n <= lenLimit && Same(text, m, cur, n) :: n <= maxLen'
    {
      hide TrueMatches, LensIn, Same;
      found', maxLen' := found, maxLen;
      if text[m + maxLen] == text[cur + maxLen] && text[m] == text[cur] {
        SameOne(text, m, cur);
        var len := MatchLen(m, 1, lenLimit);
        NoLonger(text, m, cur, len, lenLimit);
        if maxLen < len {
          AddMatch(found, text, cur, cyclicBufferSize, lenLimit, Found(len, cur - m - 1), minLen, maxLen);
          found' := found + [Found(len, cur - m - 1)];
          maxLen' := len;
        }
      } else {
        NotSoLong(text, m, cur, maxLen, lenLimit);
      }
    }

    /** The head that the current position is linked to is the latest of its list. */
    ghost predicate RootLatest(root: nat)
      requires hashSize > 0
      reads `pos, `cur
    {
      Chained(text, crc, hashSize, cur, root - (pos - cur), cur, cyclicBufferSize)
    }

    /** The walk along the chain is at `at`: after some steps, and all candidates passed are checked. */
    ghost predicate OnChain(at: int, steps: nat, most: nat, l: nat)
      requires hashSize > 0
      reads `cur
    {
      && (Live(at, cur, cyclicBufferSize) ==> SameList(text, crc, hashSize, cur, at))
      && |Candidates(text, crc, hashSize, cur, cyclicBufferSize, at)| == steps
      && Checked(text, crc, hashSize, cur, cyclicBufferSize, at, most, l)
    }

    lemma ChainStarts(root: nat, most: nat, l: nat)
      requires Shape() && Sizes() && Ref(root) && cur + 4 <= |text| && RootLatest(root)
      ensures root < pos && OnChain(root - (pos - cur), cutValue - cutValue, most, l)
    {
      hide Same, List4;
      NoneAfterHead(text, crc, hashSize, root - (pos - cur), cur, cyclicBufferSize);
    }

    lemma ChainEnds(curMatch: nat, steps: nat, most: nat, l: nat)
      requires Shape() && Sizes() && Ref(curMatch) && curMatch < pos && OnChain(curMatch - (pos - cur), steps, most, l)
      requires steps == cutValue || pos - curMatch >= cyclicBufferSize
      ensures LongestOfFirst(text, crc, hashSize, cur, cyclicBufferSize, cutValue, most, l)
    {
      hide Checked, Candidates, LongestOfFirst;
      CheckedFirst(text, crc, hashSize, curMatch - (pos - cur), cur, cyclicBufferSize, cutValue, most, l);
    }

    /** What the entry of a live position shows. */
    lemma ChainStep(m: nat)
      requires Shape() && Sizes() && ChainOk(cur) && m < cur && Live(m, cur, cyclicBufferSize)
      ensures var p := Slot(cur - m, cyclicBufferPos, cyclicBufferSize);
              && 0 <= p < son.Length && Ref(son[p]) && son[p] < pos
              && Chained(text, crc, hashSize, m, son[p] - (pos - cur), cur, cyclicBufferSize)
    {
      assert m in LivePositions(cur, cyclicBufferSize, cur) && ChainRef(m) && ChainLatest(m);
    }

    lemma ChainOn(m: nat, link: int, steps: nat, most: nat, most': nat, l: nat)
      requires Shape() && Sizes() && m < cur && Live(m, cur, cyclicBufferSize) && OnChain(m, steps, most, l)
      requires Chained(text, crc, hashSize, m, link, cur, cyclicBufferSize) && most <= most'
      requires forall n: nat | n <= l && Same(text, m, cur, n) :: n <= most'
      ensures OnChain(link, steps + 1, most', l)
    {
      hide Same, List4, Candidates;
      NextCandidate(text, crc, hashSize, m, link, cur, cyclicBufferSize);
      CheckedOne(text, crc, hashSize, m, link, cur, cyclicBufferSize, most, most', l);
    }

    /** The current position joins its chain. */
    method Link(root: nat)
      requires Shape() && Sizes() && !btMode && ChainOk(cur - 1) && Ref(root) && RootLatest(root)
      modifies son
      ensures ChainOk(cur)
    {
      hide Chained;
      son[cyclicBufferPos] := root;
      forall x | x in LivePositions(cur, cyclicBufferSize, cur)
        ensures ChainRef(x) && ChainLatest(x)
      {
        if x < cur {
          assert x in LivePositions(cur, cyclicBufferSize, cur - 1) && old(ChainRef(x)) && old(ChainLatest(x));
          assert Slot(cur - x, cyclicBufferPos, cyclicBufferSize) != cyclicBufferPos;
        }
      }
    }

    /** Hc4_MatchFinder_GetMatches: the same out of chains. */
    method HcGetMatches() returns (found: seq<Found>, ghost n: nat)
      requires Valid() && !btMode && cur < |text|
      modifies this`pos, this`posLimit, this`lenLimit, this`cyclicBufferPos, this`cur, hash, son
      ensures Valid() && cur == old(cur) + 1 && old(lenLimit) <= |text| - old(cur)
      ensures TrueMatches(found, text, old(cur), cyclicBufferSize, old(lenLimit))
      ensures old(lenLimit) < 4 ==> found == []
      ensures old(lenLimit) >= 4 ==>
                && n <= |found| && LensIn(found[n..], AtLeast3(found[..n]), old(lenLimit))
                && HeadFound(found[..n], text, old(cur), cyclicBufferSize, old(lenLimit), old(Delta2()), old(Delta3()))
                && LongestOfFirst(text, crc, hashSize, old(cur), cyclicBufferSize, cutValue, AtLeast3(found),
                                  old(lenLimit))
    {
      hide HeadsOk, HeadOk, ChainOk, TrueMatches, LensIn, Hash2, Hash3, Hash4, HeadFound, Latest, HeadsLatest, AtLeast3,
           LongestOfFirst;
      EnoughBytes();
      if lenLimit < 4 {
        NoMatches(text, cur, cyclicBufferSize, lenLimit, 0);
        HeadsStay();
        MovePos();
        return [], 0;
      }
      RootIsLatest();
      ghost var h2, h3;
      var head2, head3, curMatch, maxLen;
      head2, head3, curMatch, h2, h3 := TakeHeads();
      found, maxLen := ShortMatches(head2, head3, h2, h3);
      n := |found|;
      found := HcSearch(found, maxLen, curMatch);
      MovePos();
    }

    /** The pairs of the chain behind those of the heads; none if these are as long as can be. */
    method HcSearch(short: seq<Found>, len: nat, curMatch: nat) returns (found: seq<Found>)
      requires Shape() && Sizes() && !btMode && ChainOk(cur - 1) && Ref(curMatch) && RootLatest(curMatch)
      requires 4 <= lenLimit && cur + lenLimit <= |text|
      requires TrueMatches(short, text, cur, cyclicBufferSize, lenLimit) && LensIn(short, 1, len)
      requires 1 <= len <= lenLimit && len == LastLen(short, 1)
      modifies son
      ensures ChainOk(cur) && TrueMatches(found, text, cur, cyclicBufferSize, lenLimit)
      ensures |short| <= |found| && found[..|short|] == short
      ensures LensIn(found[|short|..], AtLeast3(short), lenLimit)
      ensures LongestOfFirst(text, crc, hashSize, cur, cyclicBufferSize, cutValue, AtLeast3(found), lenLimit)
    {
      hide ChainOk, TrueMatches, LensIn, LongestOfFirst, Chained;
      if short != [] && len == lenLimit {
        FromHeads(short, [], lenLimit);
        AllChecked(text, crc, hashSize, cur, cyclicBufferSize, cutValue, len, lenLimit);
        Link(curMatch);
        found := short;
        assert found == short + [];
      } else {
        var maxLen := if len < 3 then 3 else len;
        LensLess(short, 1, len, maxLen);
        var longer := HcGetMatchesSpec(lenLimit, curMatch, maxLen);
        JoinMatches(short, longer, text, cur, cyclicBufferSize, lenLimit, maxLen);
        FromHeads(short, longer, lenLimit);
        found := short + longer;
      }
    }

    lemma RootIsLatest()
      requires Shape() && Sizes() && HeadsOk(pos) && HeadsLatest(cur) && cur + 4 <= |text|
      ensures RootLatest(Root())
    {
      hide List4;
      var j := List4(text, crc, hashSize, cur);
      assert HeadOk(hash[j], j, pos) && LatestHead(hash[j], j, cur);
      forall y: int | y < cur && Live(y, cur, cyclicBufferSize) && SameList(text, crc, hashSize, cur, y)
        ensures y <= Root() - (pos - cur)
      {
        assert Hashed(text, crc, hashSize, y, j);
      }
    }

    /** Hc4_MatchFinder_Skip. */
    method HcSkip(num: nat)
      requires Valid() && !btMode && num <= |text| - cur
      modifies this`pos, this`posLimit, this`lenLimit, this`cyclicBufferPos, this`cur, hash, son
      ensures Valid() && cur == old(cur) + num
    {
      hide HeadsOk, HeadOk, ChainOk, Latest, HeadsLatest;
      var left := num;
      while left != 0
        invariant Valid() && 0 <= left && cur == old(cur) + num - left
      {
        if lenLimit < 4 {
          HeadsStay();
        } else {
          EnoughBytes();
          RootIsLatest();
          ghost var h2, h3;
          var head2, head3, curMatch;
          head2, head3, curMatch, h2, h3 := TakeHeads();
          Link(curMatch);
        }
        MovePos();
        left := left - 1;
      }
    }

    /** The links of a live node. */
    lemma SonRef(x: int)
      requires RefsOk() && x in LivePositions(cur, cyclicBufferSize, cur - 1)
      ensures NodeRefs(x)
    {
    }
  }

  /** A head in the window is not lost when the counter is lowered. */
  lemma MoveLatest(text: seq<Byte>, crc: Table, hashSize: nat, v: nat, j: nat, sub: nat, pos: nat, cur: nat, size: nat)
    requires hashSize > 0 && size <= pos && sub <= pos + 1 - size
    requires Latest(text, crc, hashSize, v - (pos - cur), j, cur, size, cur + 1)
    ensures Latest(text, crc, hashSize, Rebase(v, sub) - (pos - sub - cur), j, cur + 1, size, cur + 1)
  {
    hide Hashed;
  }

  predicate RefAt(v: nat, pos: nat, cur: nat)
  {
    v == 0 || (pos - cur <= v < pos)
  }

  /** The entries of position `x` in the array: two links in a tree, one in a chain. */
  ghost predicate LinksAt(son: seq<nat>, pos: nat, cur: nat, cyc: nat, size: nat, x: int, bt: bool)
  {
    && x <= cur
    && var p := Slot(cur - x, cyc, size);
       if bt then 0 <= 2 * p < |son| - 1 && RefAt(son[2 * p], pos, cur) && RefAt(son[2 * p + 1], pos, cur)
       else 0 <= p < |son| && RefAt(son[p], pos, cur)
  }

  ghost predicate LinkLatest(son: seq<nat>, pos: nat, cur: nat, cyc: nat, size: nat, text: seq<Byte>, crc: Table,
                             hashSize: nat, x: int)
    requires hashSize > 0
  {
    && x <= cur
    && var p := Slot(cur - x, cyc, size);
       0 <= p < |son| && Chained(text, crc, hashSize, x, son[p] - (pos - cur), cur, size)
  }

  ghost predicate ChainsLatest(son: seq<nat>, pos: nat, cur: nat, cyc: nat, size: nat, last: int, text: seq<Byte>,
                               crc: Table, hashSize: nat)
    requires hashSize > 0
  {
    forall x | x in LivePositions(cur, size, last) ::
      LinkLatest(son, pos, cur, cyc, size, text, crc, hashSize, x)
  }

  /** Chains survive the move to the next position. */
  lemma MoveChains(son: seq<nat>, sub: nat, pos: nat, cur: nat, cyc: nat, size: nat, text: seq<Byte>, crc: Table,
                   hashSize: nat)
    requires cyc < size <= pos && sub <= pos + 1 - size && hashSize > 0
    requires ChainsLatest(son, pos, cur, cyc, size, cur, text, crc, hashSize)
    ensures ChainsLatest(Normalised(son, sub), pos + 1 - sub, cur + 1, if cyc + 1 == size then 0 else cyc + 1, size,
                         cur, text, crc, hashSize)
  {
    hide Chained;
    var cyc' := if cyc + 1 == size then 0 else cyc + 1;
    var live := LivePositions(cur + 1, size, cur);
    forall x | x in live
      ensures LinkLatest(Normalised(son, sub), pos + 1 - sub, cur + 1, cyc', size, text, crc, hashSize, x)
    {
      assert x in LivePositions(cur, size, cur) && LinkLatest(son, pos, cur, cyc, size, text, crc, hashSize, x);
      assert Slot(cur + 1 - x, cyc', size) == Slot(cur - x, cyc, size);
      MoveChained(text, crc, hashSize, x, son[Slot(cur - x, cyc, size)], sub, pos, cur, size);
    }
  }

  lemma MoveChained(text: seq<Byte>, crc: Table, hashSize: nat, x: int, v: nat, sub: nat, pos: nat, cur: nat, size: nat)
    requires size <= pos && sub <= pos + 1 - size && hashSize > 0 && x <= cur && Live(x, cur + 1, size)
    requires Chained(text, crc, hashSize, x, v - (pos - cur), cur, size)
    ensures Chained(text, crc, hashSize, x, Rebase(v, sub) - (pos - sub - cur), cur + 1, size)
  {
    hide SameList;
  }

  ghost predicate LinksOk(son: seq<nat>, pos: nat, cur: nat, cyc: nat, size: nat, last: int, bt: bool)
  {
    forall x | x in LivePositions(cur, size, last) :: LinksAt(son, pos, cur, cyc, size, x, bt)
  }

  /** Links survive the move to the next position and the rebasing of the table. */
  lemma MoveLinks(son: seq<nat>, sub: nat, pos: nat, cur: nat, cyc: nat, size: nat, bt: bool)
    requires cyc < size <= pos && sub <= pos + 1 - size && LinksOk(son, pos, cur, cyc, size, cur, bt)
    ensures LinksOk(Normalised(son, sub), pos + 1 - sub, cur + 1, if cyc + 1 == size then 0 else cyc + 1, size, cur, bt)
  {
    var cyc' := if cyc + 1 == size then 0 else cyc + 1;
    var live := LivePositions(cur + 1, size, cur);
    forall x | x in live
      ensures LinksAt(Normalised(son, sub), pos + 1 - sub, cur + 1, cyc', size, x, bt)
    {
      assert x in LivePositions(cur, size, cur) && LinksAt(son, pos, cur, cyc, size, x, bt);
      assert Slot(cur + 1 - x, cyc', size) == Slot(cur - x, cyc, size);
    }
  }

  lemma RefLive(v: nat, cur: nat, pos: nat, size: nat)
    requires (v == 0 || pos - cur <= v) && v < pos && size <= pos
    ensures pos - v < size <==> v - (pos - cur) in LivePositions(cur, size, cur - 1)
    ensures pos - v < size ==> Live(v - (pos - cur), cur, size)
  {
  }

  lemma DefineBefore(text: seq<Byte>, a: int, b: int, k: nat, l: nat)
    requires k < l && 0 <= a && a + l <= |text| && 0 <= b && b + l <= |text| && Same(text, a, b, k)
             && text[a + k] < text[b + k]
    ensures Before(text, a, b, k, l)
  {
  }

  lemma SameSwap(text: seq<Byte>, a: int, b: int, k: nat)
    requires Same(text, a, b, k)
    ensures Same(text, b, a, k)
  {
  }

  lemma NoLonger(text: seq<Byte>, m: nat, cur: nat, len: nat, l: nat)
    requires m <= cur && cur + l <= |text| && len <= l && (len < l ==> text[m + len] != text[cur + len])
    ensures forall n: nat | n <= l && Same(text, m, cur, n) :: n <= len
  {
    forall n: nat | n <= l && Same(text, m, cur, n)
      ensures n <= len
    {
      if len < n {
        SameLess(text, m, cur, len, n);
      }
    }
  }

  lemma NotSoLong(text: seq<Byte>, m: nat, cur: nat, most: nat, l: nat)
    requires m <= cur && cur + l <= |text| && most < l
    requires text[m + most] != text[cur + most] || text[m] != text[cur]
    ensures forall n: nat | n <= l && Same(text, m, cur, n) :: n <= most
  {
    forall n: nat | n <= l && Same(text, m, cur, n)
      ensures n <= most
    {
      if most < n {
        SameLess(text, m, cur, most, n);
        SameLess(text, m, cur, 0, n);
      }
    }
  }

  lemma SameOne(text: seq<Byte>, a: int, b: int)
    requires 0 <= a < |text| && 0 <= b < |text| && text[a] == text[b]
    ensures Same(text, a, b, 1)
  {
  }

  /** A match as far as the bytes agree. */
  ghost predicate DrawnOut(text: seq<Byte>, m: int, cur: nat, len: nat, l: nat)
  {
    && len <= l && Same(text, m, cur, len) && cur + l <= |text| && m <= cur
    && (len < l ==> text[m + len] != text[cur + len])
  }

  /** The position `delta` back is in the window and starts with the same byte. */
  ghost predicate Near(text: seq<Byte>, cur: nat, size: nat, delta: int)
  {
    0 < delta < size && delta <= cur < |text| && text[cur - delta] == text[cur]
  }

  /**
   What the heads of the short hashes give: each that is near, the one for three
   bytes last and only if it is another position; the last pair is drawn out, the
   one before it stays at two bytes.
   */
  ghost predicate HeadFound(found: seq<Found>, text: seq<Byte>, cur: nat, size: nat, l: nat, delta2: int, delta3: int)
  {
    var near2, near3 := Near(text, cur, size, delta2), delta2 != delta3 && Near(text, cur, size, delta3);
    if !near2 && !near3 then found == []
    else
      var delta := if near3 then delta3 else delta2;
      && found != [] && found[|found| - 1].dist == delta - 1
      && DrawnOut(text, cur - delta, cur, found[|found| - 1].len, l)
      && found[..|found| - 1] == if near2 && near3 then [Found(2, delta2 - 1)] else []
  }

  /** A pair for each head that is near. */
  ghost function FirstPairs(text: seq<Byte>, cur: nat, size: nat, delta2: int, delta3: int): seq<Found>
  {
    (if Near(text, cur, size, delta2) then [Found(2, delta2 - 1)] else [])
    + if delta2 != delta3 && Near(text, cur, size, delta3) then [Found(3, delta3 - 1)] else []
  }

  lemma PairsLook(text: seq<Byte>, cur: nat, size: nat, delta2: int, delta3: int)
    ensures var found := FirstPairs(text, cur, size, delta2, delta3);
            var near2, near3 := Near(text, cur, size, delta2), delta2 != delta3 && Near(text, cur, size, delta3);
            if near3 then
              && found != [] && found[|found| - 1] == Found(3, delta3 - 1)
              && found[..|found| - 1] == if near2 then [Found(2, delta2 - 1)] else []
            else if near2 then |found| == 1 && found[0] == Found(2, delta2 - 1) && found[..0] == []
            else found == []
  {
    hide Near;
  }

  lemma PairsAre(found: seq<Found>, text: seq<Byte>, cur: nat, size: nat, l: nat, delta2: int, delta3: int)
    requires found == FirstPairs(text, cur, size, delta2, delta3)
    ensures found == [] ==> HeadFound(found, text, cur, size, l, delta2, delta3)
  {
  }

  lemma PairsDrawn(found: seq<Found>, text: seq<Byte>, cur: nat, size: nat, l: nat, delta2: int, delta3: int, len: nat)
    requires found == FirstPairs(text, cur, size, delta2, delta3) && found != []
    requires DrawnOut(text, cur - found[|found| - 1].dist - 1, cur, len, l)
    ensures HeadFound(found[|found| - 1 := Found(len, found[|found| - 1].dist)], text, cur, size, l, delta2, delta3)
  {
    hide DrawnOut, FirstPairs, Near;
    PairsLook(text, cur, size, delta2, delta3);
    var last := |found| - 1;
    var found' := found[last := Found(len, found[last].dist)];
    assert found'[..last] == found[..last];
  }

  /** What the tree or chain is searched for: more than this. */
  function AtLeast3(found: seq<Found>): nat
  {
    if LastLen(found, 3) < 3 then 3 else LastLen(found, 3)
  }

  /** The pairs of the heads and those of the tree in one list. */
  lemma FromHeads(found: seq<Found>, longer: seq<Found>, l: nat)
    requires LensIn(longer, AtLeast3(found), l) || longer == []
    ensures LensIn(longer, AtLeast3(found), l)
    ensures (found + longer)[..|found|] == found && (found + longer)[|found|..] == longer
    ensures AtLeast3(found + longer) == LastLen(longer, AtLeast3(found))
  {
  }

  /** The length of the last pair. */
  function LastLen(found: seq<Found>, minLen: nat): nat
  {
    if found == [] then minLen else found[|found| - 1].len
  }

  /** No position below `root` has a match of more than `most` bytes, as far as `l` bytes tell. */
  ghost predicate Longest(t0: Tree, text: seq<Byte>, cur: nat, root: int, most: nat, l: nat)
  {
    forall d, n: nat | d in Under(t0, root) && n <= l && Same(text, d, cur, n) :: n <= most
  }

  /** No position of the window that is not lost has a match of four bytes or more that is longer than `most`. */
  ghost predicate LongestInWindow(text: seq<Byte>, cur: nat, size: nat, lost: set<int>, most: nat, l: nat)
  {
    forall x: int, n: nat | x < cur && Live(x, cur, size) && x !in lost && 4 <= n <= l && Same(text, x, cur, n) ::
      n <= most
  }

  lemma InWindow(t: Tree, text: seq<Byte>, crc: Table, hashSize: nat, hash: seq<nat>, base: int, cur: nat, size: nat,
                 l: nat, lost: set<int>, root: int, most: nat)
    requires hashSize > 0 && cur + l <= |text| && 4 <= l
    requires Complete(t, text, crc, hashSize, hash, base, cur, size, cur, l, lost)
    requires ListHead(text, crc, hashSize, hash, base, cur, root)
    ensures Longest(t, text, cur, root, most, l) ==> LongestInWindow(text, cur, size, lost, most, l)
  {
    hide Under, Same, List4;
    if Longest(t, text, cur, root, most, l) {
      forall x: int, n: nat | x < cur && Live(x, cur, size) && x !in lost && 4 <= n <= l && Same(text, x, cur, n)
        ensures n <= most
      {
        SameFour(text, crc, hashSize, x, cur, n);
        assert ListHead(text, crc, hashSize, hash, base, x, root);
        assert Represented(t, text, root, x, l);
        var y :| y in Under(t, root) && x <= y && Same(text, x, y, l);
        SameLess(text, x, y, n, l);
        SameSwap(text, x, y, n);
        SameTrans(text, y, x, cur, n);
      }
    }
  }

  /** Positions with the same four bytes are of the same list. */
  lemma SameFour(text: seq<Byte>, crc: Table, hashSize: nat, x: int, y: int, n: nat)
    requires hashSize > 0 && 4 <= n && Same(text, x, y, n)
    ensures SameList(text, crc, hashSize, x, y)
  {
    SameLess(text, x, y, 0, n);
    SameLess(text, x, y, 1, n);
    SameLess(text, x, y, 2, n);
    SameLess(text, x, y, 3, n);
  }

  /** After some steps the search is at `at`: whatever has more than `n` bytes in common is below. */
  ghost predicate Searched(t0: Tree, text: seq<Byte>, cur: nat, top: int, at: int, n: nat, steps: nat)
  {
    Narrowed(t0, text, cur, top, at, n) && steps + Height(t0, at) <= Height(t0, top)
  }

  lemma SearchStarts(t0: Tree, text: seq<Byte>, cur: nat, top: int, n: nat, cutValue: nat)
    ensures Searched(t0, text, cur, top, top, n, cutValue - cutValue)
  {
  }

  lemma SearchedMore(t0: Tree, text: seq<Byte>, cur: nat, top: int, at: int, n: nat, n': nat, steps: nat)
    requires Searched(t0, text, cur, top, at, n, steps) && n <= n'
    ensures Searched(t0, text, cur, top, at, n', steps)
  {
    NarrowedMore(t0, text, cur, top, at, n, n');
  }

  lemma SearchedAll(t0: Tree, text: seq<Byte>, cur: nat, top: int, at: int, last: nat, l: nat, steps: nat)
    requires Searched(t0, text, cur, top, at, last, steps) && (at !in t0 || at < 0)
    ensures Longest(t0, text, cur, top, last, l)
  {
    assert Under(t0, at) == {};
    forall d, n: nat | d in Under(t0, top) && n <= l && Same(text, d, cur, n)
      ensures n <= last
    {
      if n > last {
        SameLess(text, d, cur, last + 1, n);
      }
    }
  }

  lemma LongestAtLimit(t0: Tree, text: seq<Byte>, cur: nat, root: int, most: nat, l: nat)
    requires most >= l
    ensures Longest(t0, text, cur, root, most, l)
  {
  }

  lemma NoMatches(text: seq<Byte>, cur: nat, size: nat, lenLimit: nat, len: nat)
    ensures TrueMatches([], text, cur, size, lenLimit) && LensIn([], len, len)
  {
  }

  lemma AddMatch(fs: seq<Found>, text: seq<Byte>, cur: nat, size: nat, lenLimit: nat, f: Found, above: nat, upTo: nat)
    requires TrueMatches(fs, text, cur, size, lenLimit) && LensIn(fs, above, upTo) && above <= upTo < f.len
    requires f.len <= lenLimit && f.dist + 1 < size && Same(text, cur - f.dist - 1, cur, f.len)
    ensures TrueMatches(fs + [f], text, cur, size, lenLimit) && LensIn(fs + [f], above, f.len)
  {
  }

  lemma LensLess(fs: seq<Found>, above: nat, upTo: nat, upTo': nat)
    requires LensIn(fs, above, upTo) && upTo <= upTo'
    ensures LensIn(fs, above, upTo')
  {
  }

  // ------------------------------------------------------------ moving on

  /** What rebasing makes of one entry: expired ones may become empty. */
  function Rebase(v: nat, sub: nat): nat
  {
    if v <= sub then 0 else v - sub
  }

  ghost function Normalised(items: seq<nat>, sub: nat): (r: seq<nat>)
    ensures |r| == |items| && forall i | 0 <= i < |r| :: r[i] == Rebase(items[i], sub)
  {
    seq(|items|, i requires 0 <= i < |items| => Rebase(items[i], sub))
  }

  lemma NormalisedByZero(items: seq<nat>)
    ensures Normalised(items, 0) == items
  {
  }

  /** MatchFinder_Normalize3. */
  method Normalize3(subValue: nat, items: array<nat>)
    modifies items
    ensures items[..] == Normalised(old(items[..]), subValue)
  {
    var i := 0;
    while i < items.Length
      invariant 0 <= i <= items.Length
      invariant forall k | 0 <= k < i :: items[k] == Rebase(old(items[k]), subValue)
      invariant forall k | i <= k < items.Length :: items[k] == old(items[k])
    {
      var value := items[i];
      if value <= subValue {
        value := 0;
      } else {
        value := value - subValue;
      }
      items[i] := value;
      i := i + 1;
    }
  }

  lemma MovedLink(v: nat, sub: nat, pos: nat, cur: nat, size: nat, x: int)
    requires size <= pos && sub <= pos + 1 - size && Live(x, cur + 1, size) && v - (pos - cur) < x <= cur
    ensures var y := Rebase(v, sub) - (pos - sub - cur);
            y < x && (y == v - (pos - cur) || y !in LivePositions(cur + 1, size, cur))
  {
  }

  /** Links in the window keep their distance, the others stay out of it. */
  lemma MoveShrinks(son: seq<nat>, sub: nat, pos: nat, cur: nat, cyc: nat, size: nat, text: seq<Byte>, l: nat)
    requires cyc < size <= pos && |son| == 2 * size && sub <= pos + 1 - size
    requires Ordered(View(son, pos, cur, cyc, size, cur), text, l)
    ensures Shrunk(View(son, pos, cur, cyc, size, cur),
                   View(Normalised(son, sub), pos + 1 - sub, cur + 1, if cyc + 1 == size then 0 else cyc + 1, size,
                       cur))
  {
    hide Under, Le, LivePositions, Place;
    var cyc' := if cyc + 1 == size then 0 else cyc + 1;
    var t, t' := View(son, pos, cur, cyc, size, cur),
        View(Normalised(son, sub), pos + 1 - sub, cur + 1, cyc', size, cur);
    forall x | x in t'
      ensures x in t && t'[x].lo < x && t'[x].hi < x
      ensures t'[x].lo == t[x].lo || t'[x].lo !in t'
      ensures t'[x].hi == t[x].hi || t'[x].hi !in t'
    {
      PlaceInside(x, x, cur, cyc, size);
      SamePlace(x, cur, cyc, size);
      var place := Place(x, cur, cyc, size);
      assert t[x] == NodeAt(son, pos - cur, place) && t[x].lo < x && t[x].hi < x;
      MovedLink(son[place], sub, pos, cur, size, x);
      MovedLink(son[place + 1], sub, pos, cur, size, x);
    }
  }

  lemma SamePlace(x: int, cur: nat, cyc: nat, size: nat)
    requires cyc < size && x <= cur && Live(x, cur + 1, size)
    ensures Live(x, cur, size)
    ensures Place(x, cur + 1, if cyc + 1 == size then 0 else cyc + 1, size) == Place(x, cur, cyc, size)
  {
  }

  /** The moved trees are the later part of the old ones. */
  lemma MoveLater(son: seq<nat>, sub: nat, pos: nat, cur: nat, cyc: nat, size: nat)
    requires cyc < size <= pos && |son| == 2 * size && sub <= pos + 1 - size
    ensures LaterPart(View(son, pos, cur, cyc, size, cur),
                      View(Normalised(son, sub), pos + 1 - sub, cur + 1, if cyc + 1 == size then 0 else cyc + 1, size,
                          cur))
  {
    hide Place;
    var cyc' := if cyc + 1 == size then 0 else cyc + 1;
    var t, t' := View(son, pos, cur, cyc, size, cur),
        View(Normalised(son, sub), pos + 1 - sub, cur + 1, cyc', size, cur);
    forall x | x in t'
      ensures x in t && (t[x].lo in t' ==> t'[x].lo == t[x].lo) && (t[x].hi in t' ==> t'[x].hi == t[x].hi)
    {
      PlaceInside(x, x, cur, cyc, size);
      SamePlace(x, cur, cyc, size);
      var place := Place(x, cur, cyc, size);
      assert t[x] == NodeAt(son, pos - cur, place);
      KeptLink(son[place], sub, pos, cur, size);
      KeptLink(son[place + 1], sub, pos, cur, size);
    }
  }

  /** A link into the window keeps its distance. */
  lemma KeptLink(v: nat, sub: nat, pos: nat, cur: nat, size: nat)
    requires size <= pos && sub <= pos + 1 - size
    ensures v - (pos - cur) in LivePositions(cur + 1, size, cur) ==>
              Rebase(v, sub) - (pos - sub - cur) == v - (pos - cur)
  {
  }

  lemma MoveComplete(t: Tree, t': Tree, text: seq<Byte>, crc: Table, hashSize: nat, hash: seq<nat>, sub: nat, pos: nat,
                     cur: nat, size: nat, l: nat, l': nat, lost: set<int>)
    requires hashSize > 0 && size <= pos && sub <= pos + 1 - size && l' <= l && LaterPart(t, t')
    requires t'.Keys == LivePositions(cur + 1, size, cur)
    requires Complete(t, text, crc, hashSize, hash, pos - cur, cur, size, cur + 1, l, lost)
    ensures Complete(t', text, crc, hashSize, Normalised(hash, sub), pos - sub - cur, cur + 1, size, cur + 1, l', lost)
  {
    hide Under, Same, List4, LaterPart, Represented;
    forall x, head' | x < cur + 1 && Live(x, cur + 1, size) && x !in lost
                      && ListHead(text, crc, hashSize, Normalised(hash, sub), pos - sub - cur, x, head')
      ensures Represented(t', text, head', x, l')
    {
      var v := hash[List4(text, crc, hashSize, x)];
      var head := v - (pos - cur);
      assert ListHead(text, crc, hashSize, hash, pos - cur, x, head);
      assert Represented(t, text, head, x, l);
      HeadLater(t, t', text, head, x, l);
      KeptLink(v, sub, pos, cur, size);
      MoveRepresented(t, t', text, head, x, l, l');
    }
  }

  lemma HeadLater(t: Tree, t': Tree, text: seq<Byte>, head: int, x: int, l: nat)
    requires LaterPart(t, t') && Represented(t, text, head, x, l) && x in t'
    ensures head in t'
  {
    hide Under, Same;
    var y :| y in Under(t, head) && x <= y && Same(text, x, y, l);
    UnderBelow(t, head);
    InTree(t, head, y);
  }

  /** What holds of the trees holds when the window has moved. */
  lemma MoveTrees(son: seq<nat>, hash: seq<nat>, sub: nat, pos: nat, cur: nat, cyc: nat, size: nat, text: seq<Byte>,
                  crc: Table, hashSize: nat, l: nat, l': nat, lost: set<int>)
    requires cyc < size <= pos && |son| == 2 * size && sub <= pos + 1 - size && l' <= l && hashSize > 0
    requires var t := View(son, pos, cur, cyc, size, cur);
             && Ordered(t, text, l) && Forest(t) && Pure(t, text, crc, hashSize)
             && Complete(t, text, crc, hashSize, hash, pos - cur, cur, size, cur + 1, l, lost)
    ensures var t' := View(Normalised(son, sub), pos + 1 - sub, cur + 1, if cyc + 1 == size then 0 else cyc + 1, size,
                          cur);
            && Ordered(t', text, l') && Forest(t') && Pure(t', text, crc, hashSize)
            && Complete(t', text, crc, hashSize, Normalised(hash, sub), pos + 1 - sub - (cur + 1), cur + 1, size,
                        cur + 1, l', lost)
  {
    hide View, Ordered, Shrunk, Forest, Pure, Complete, LaterPart;
    var t, t' := View(son, pos, cur, cyc, size, cur),
        View(Normalised(son, sub), pos + 1 - sub, cur + 1, if cyc + 1 == size then 0 else cyc + 1, size, cur);
    MoveShrinks(son, sub, pos, cur, cyc, size, text, l);
    ShrunkOrdered(t, t', text, l, l');
    ShrunkForest(t, t', text, l);
    ShrunkPure(t, t', text, l, crc, hashSize);
    MoveLater(son, sub, pos, cur, cyc, size);
    MoveComplete(t, t', text, crc, hashSize, hash, sub, pos, cur, size, l, l', lost);
  }

  lemma JoinMatches(a: seq<Found>, b: seq<Found>, text: seq<Byte>, cur: nat, size: nat, lenLimit: nat, between: nat)
    requires TrueMatches(a, text, cur, size, lenLimit) && LensIn(a, 1, between)
    requires TrueMatches(b, text, cur, size, lenLimit) && LensIn(b, between, lenLimit)
    ensures TrueMatches(a + b, text, cur, size, lenLimit)
  {
  }
}
