/**
 The decisions the encoder codes for literals, lengths and distances, and the
 proof that each of them is a path of the decoder's automaton to the same value.
 */
module Events {
  import opened Bytes
  import opened Lists
  import opened RangeCoder
  import opened Layout
  import opened Lockstep
  import opened PosSlots
  import S = Symbols

  /** The bit trees of the encoder. */
  datatype Tree =
    | SlotTree(lenState: nat)
    | LowTree(rep: bool, posState: nat)
    | MidTree(rep: bool, posState: nat)
    | HighTree(rep: bool)
    | SpecTree(slot: nat)
    | AlignTree

  function Node(t: Tree, m: nat): EncCell
    requires m >= 1 && (t.SpecTree? ==> t.slot >= 4)
  {
    match t
    case SlotTree(lenState) => PosSlotEncoder(lenState, m)
    case LowTree(rep, posState) => LenLow(rep, posState * 8 + m)
    case MidTree(rep, posState) => LenMid(rep, posState * 8 + m)
    case HighTree(rep) => LenHigh(rep, m)
    case SpecTree(slot) =>
      SlotBaseLarge(slot);
      PosEncoder(S.SlotBase(slot) - slot - 1 + m)
    case AlignTree => PosAlignEncoder(m)
  }

  lemma {:induction false} SlotBaseLarge(slot: nat)
    requires slot >= 4
    ensures S.SlotBase(slot) >= slot
  {
    if slot < 6 {
      assert Pow2(1) == 2;
    } else {
      SlotBaseLarge(slot - 2);
      assert S.FooterBits(slot) == S.FooterBits(slot - 2) + 1;
      assert S.SlotBase(slot) == 2 * S.SlotBase(slot - 2);
    }
  }

  /** RcTree_Encode: the bits of `symbol` from the top, from node `m` down. */
  function TreeEvents(t: Tree, n: nat, symbol: nat, m: nat): List<Event>
    requires m >= 1 && (t.SpecTree? ==> t.slot >= 4)
  {
    if n == 0 then Nil
    else
      var bit := symbol / Pow2(n - 1) % 2;
      Cons(Coded(Node(t, m), bit), TreeEvents(t, n - 1, symbol, 2 * m + bit))
  }

  /** RcTree_ReverseEncode: the bits of `symbol` from the bottom. */
  function ReverseEvents(t: Tree, n: nat, symbol: nat, m: nat): List<Event>
    requires m >= 1 && (t.SpecTree? ==> t.slot >= 4)
  {
    if n == 0 then Nil
    else Cons(Coded(Node(t, m), symbol % 2), ReverseEvents(t, n - 1, symbol / 2, 2 * m + symbol % 2))
  }

  /** RangeEnc_EncodeDirectBits. */
  function RawEvents(value: nat, n: nat): List<Event>
  {
    if n == 0 then Nil else Cons(Raw(value / Pow2(n - 1) % 2), RawEvents(value, n - 1))
  }

  /** LitEnc_Encode; `x` is the symbol with its marker bit, shifted as the loop shifts it. */
  function LitEvents(base: nat, x: nat): List<Event>
    requires x >= 0x100
    decreases 0x10000 - x
  {
    if x >= 0x10000 then Nil else Cons(Coded(LitProb(base + x / 0x100), x / 0x80 % 2), LitEvents(base, 2 * x))
  }

  /** LitEnc_EncodeMatched. */
  function MatchedEvents(base: nat, x: nat, mb: nat, offs: nat): List<Event>
    requires x >= 0x100 && (offs == 0 || offs == 0x100)
    decreases 0x10000 - x
  {
    if x >= 0x10000 then Nil
    else
      var mbit := 2 * mb / 0x100 % 2;
      var sub := if offs == 0x100 && mbit == 1 then 0x100 else 0;
      var offs' := if offs == 0x100 && mbit == 2 * x / 0x100 % 2 then 0x100 else 0;
      Cons(Coded(LitProb(base + offs + sub + x / 0x100), x / 0x80 % 2), MatchedEvents(base, 2 * x, 2 * mb, offs'))
  }

  /** LenEnc_Encode. */
  function LenEvents(rep: bool, symbol: nat, posState: nat): List<Event>
  {
    if symbol < 8 then Cons(Coded(LenChoice(rep), 0), TreeEvents(LowTree(rep, posState), 3, symbol, 1))
    else Cons(Coded(LenChoice(rep), 1), LongLenEvents(rep, symbol, posState))
  }

  function LongLenEvents(rep: bool, symbol: nat, posState: nat): List<Event>
    requires 8 <= symbol
  {
    if symbol < 16 then Cons(Coded(LenChoice2(rep), 0), TreeEvents(MidTree(rep, posState), 3, symbol - 8, 1))
    else Cons(Coded(LenChoice2(rep), 1), TreeEvents(HighTree(rep), 8, symbol - 16, 1))
  }

  /** The footer of a distance: nothing, a reverse tree, or direct bits and the align tree. */
  function FooterEvents(dist: nat): List<Event>
  {
    var slot := PosSlot(dist);
    if slot < 4 then Nil
    else
      SlotOfSmall(dist);
      SlotRange(dist);
      var footer := S.FooterBits(slot);
      var reduced := dist - S.SlotBase(slot);
      if slot < 14 then ReverseEvents(SpecTree(slot), footer, reduced, 1)
      else Append(RawEvents(reduced / 16, footer - 4), ReverseEvents(AlignTree, 4, reduced % 16, 1))
  }

  lemma SlotOfSmall(dist: nat)
    ensures dist < 4 <==> PosSlot(dist) < 4
  {
    if dist >= 4 {
      SlotRange(dist);
    }
  }

  function DistEvents(dist: nat, lenState: nat): List<Event>
  {
    Append(TreeEvents(SlotTree(lenState), 6, PosSlot(dist), 1), FooterEvents(dist))
  }

  // ------------------------------------------------------------ paths

  /** The bit at `n - 1` and what is below it. */
  lemma BitSplit(symbol: nat, n: nat)
    requires n > 0
    ensures symbol % Pow2(n) == symbol / Pow2(n - 1) % 2 * Pow2(n - 1) + symbol % Pow2(n - 1)
  {
    var w := Pow2(n - 1);
    var q := symbol / w;
    assert symbol == q * w + symbol % w;
    assert (q / 2 * 2 + q % 2) * w == q / 2 * (2 * w) + q % 2 * w;
    DivModUnique(symbol, 2 * w, q / 2, q % 2 * w + symbol % w);
  }

  lemma ModSmall(a: nat, m: nat)
    requires a < m
    ensures a % m == a
  {
    DivModUnique(a, m, 0, a);
  }

  /** A node with `n` levels below it, on the way to leaf `limit + symbol`. */
  ghost predicate OnWay(m: nat, n: nat, symbol: nat, limit: nat)
  {
    m >= 1 && symbol < limit && m * Pow2(n) + symbol % Pow2(n) == limit + symbol
  }

  lemma OnWayStep(m: nat, n: nat, symbol: nat, limit: nat)
    requires n > 0 && OnWay(m, n, symbol, limit)
    ensures m < limit
    ensures OnWay(2 * m + symbol / Pow2(n - 1) % 2, n - 1, symbol, limit)
    ensures n == 1 ==> 2 * m + symbol / Pow2(n - 1) % 2 == limit + symbol
    ensures n > 1 ==> 2 * m + symbol / Pow2(n - 1) % 2 < limit
  {
    BitSplit(symbol, n);
    var w, bit := Pow2(n - 1), symbol / Pow2(n - 1) % 2;
    Distribute(m, bit, w);
    InnerNode(m, Pow2(n), symbol % Pow2(n), symbol, limit);
    if n > 1 {
      assert w == 2 * Pow2(n - 2);
      InnerNode(2 * m + bit, w, symbol % w, symbol, limit);
    }
  }

  lemma Distribute(m: nat, bit: nat, w: nat)
    ensures m * (2 * w) + bit * w == (2 * m + bit) * w
  {
  }

  lemma InnerNode(m: nat, w: nat, low: nat, symbol: nat, limit: nat)
    requires m * w + low == limit + symbol && symbol < limit && w >= 2
    ensures m < limit
  {
    assert m >= limit ==> (m - limit) * w >= 0;
    assert limit * (w - 2) >= 0;
  }

  /** The encoder's tree for a length control point. */
  function LenTree(q: S.Ctl, env: S.Env): Tree
    requires q.AtLenTree?
  {
    if q.offset == 0 then LowTree(q.kind.Repeat?, env.posState)
    else if q.offset == 8 then MidTree(q.kind.Repeat?, env.posState)
    else HighTree(q.kind.Repeat?)
  }

  lemma LenAsks(q: S.Ctl, env: S.Env, bit: Bit)
    requires q.AtLenTree? && S.Wf(q, env) && env.posState < 16
    ensures Asks(q, env, Coded(Node(LenTree(q, env), q.i), bit))
  {
  }

  lemma {:induction false} LenTreePath(q: S.Ctl, n: nat, symbol: nat, env: S.Env)
    requires q.AtLenTree? && S.Wf(q, env) && env.posState < 16
    requires n > 0 && OnWay(q.i, n, symbol, q.limit)
    ensures Follows(q, env, TreeEvents(LenTree(q, env), n, symbol, q.i), S.AfterLen(q.kind, symbol + q.offset))
    decreases n
  {
    hide Pow2;
    OnWayStep(q.i, n, symbol, q.limit);
    var bit := symbol / Pow2(n - 1) % 2;
    S.HeadNextWf(q, env, bit);
    LenAsks(q, env, bit);
    var m := S.Next(q, env, bit);
    if n > 1 {
      LenTreePath(m, n - 1, symbol, env);
    }
  }

  lemma {:induction false} SlotTreePath(len: nat, i: nat, n: nat, slot: nat, env: S.Env)
    requires n > 0 && OnWay(i, n, slot, 64) && i < 64 && len < 272 && slot < 64
    ensures S.Wf(S.AtSlot(len, i), env)
    ensures Follows(S.AtSlot(len, i), env, TreeEvents(SlotTree(if len < 4 then len else 3), n, slot, i),
                    S.AfterSlot(len, slot))
    decreases n
  {
    hide Pow2, S.SlotBase;
    var q, t := S.AtSlot(len, i), SlotTree(if len < 4 then len else 3);
    OnWayStep(i, n, slot, 64);
    var bit := slot / Pow2(n - 1) % 2;
    S.SlotNextWf(q, env, bit);
    if n > 1 {
      SlotTreePath(len, 2 * i + bit, n - 1, slot, env);
    }
  }

  lemma SpecLeft(q: S.Ctl, env: S.Env, bit: Bit)
    requires q.AtSpec? && S.Wf(q, env)
    ensures q.left >= 1 && q.i >= 1 && q.slot >= 4
  {
  }

  lemma SpecAsks(q: S.Ctl, env: S.Env, bit: Bit)
    requires q.AtSpec? && S.Wf(q, env)
    ensures Asks(q, env, Coded(Node(SpecTree(q.slot), q.i), bit))
  {
    SlotBaseLarge(q.slot);
    S.SpecInside(q.slot);
  }

  /** What the decoder adds up from the low bits of `symbol`. */
  ghost function LowBits(dist: nat, mask: nat, symbol: nat, n: nat): nat
    decreases n
  {
    if n == 0 then dist
    else LowBits(if symbol % 2 == 0 then dist else dist + mask, 2 * mask, symbol / 2, n - 1)
  }

  lemma {:induction false} LowBitsSum(dist: nat, mask: nat, symbol: nat, n: nat)
    requires symbol < Pow2(n)
    ensures LowBits(dist, mask, symbol, n) == dist + mask * symbol
    decreases n
  {
    if n > 0 {
      LowBitsSum(if symbol % 2 == 0 then dist else dist + mask, 2 * mask, symbol / 2, n - 1);
      Halves(mask, symbol / 2, symbol % 2);
    }
  }

  lemma Halves(mask: nat, h: nat, bit: Bit)
    ensures mask * (2 * h + bit) == 2 * mask * h + if bit == 0 then 0 else mask
  {
    assert mask * (2 * h) == 2 * mask * h;
  }

  lemma {:induction false} SpecPath(q: S.Ctl, symbol: nat, env: S.Env)
    requires q.AtSpec? && S.Wf(q, env)
    ensures Follows(q, env, ReverseEvents(SpecTree(q.slot), q.left, symbol, q.i),
                    S.Done(S.Match(LowBits(q.dist, q.mask, symbol, q.left), q.len)))
    decreases q.left
  {
    hide Pow2, S.SlotBase, S.SpecBase, Asks, Node, S.Wf;
    var bit := symbol % 2;
    var n := S.Next(q, env, bit);
    S.SpecNextWf(q, env, bit);
    SpecLeft(q, env, bit);
    if q.left > 1 {
      SpecPath(n, symbol / 2, env);
    }
    SpecAsks(q, env, bit);
  }

  lemma {:induction false} AlignPath(q: S.Ctl, n: nat, symbol: nat, env: S.Env)
    requires q.AtAlign? && S.Wf(q, env)
    requires n == if q.mask == 1 then 4 else if q.mask == 2 then 3 else if q.mask == 4 then 2 else 1
    ensures Follows(q, env, ReverseEvents(AlignTree, n, symbol, q.i),
                    S.Done(S.Match(LowBits(q.dist, q.mask, symbol, n), q.len)))
    decreases n
  {
    hide Pow2;
    var bit := symbol % 2;
    var m := S.Next(q, env, bit);
    S.HeadNextWf(q, env, bit);
    if n > 1 {
      AlignPath(m, n - 1, symbol / 2, env);
    }
  }

  /** What the decoder shifts in from the high bits of `value`. */
  ghost function HighBits(dist: nat, value: nat, n: nat): nat
    decreases n
  {
    if n == 0 then dist else HighBits(2 * dist + value / Pow2(n - 1) % 2, value, n - 1)
  }

  lemma {:induction false} HighBitsSum(dist: nat, value: nat, n: nat)
    ensures HighBits(dist, value, n) == dist * Pow2(n) + value % Pow2(n)
    decreases n
  {
    if n == 0 {
      assert value % 1 == 0;
    } else {
      var bit := value / Pow2(n - 1) % 2;
      HighBitsSum(2 * dist + bit, value, n - 1);
      BitSplit(value, n);
      Distribute(dist, bit, Pow2(n - 1));
    }
  }

  lemma {:induction false} DirectPath(q: S.Ctl, value: nat, env: S.Env)
    requires q.AtDirect? && S.Wf(q, env)
    ensures Follows(q, env, RawEvents(value, q.left), S.AtAlign(q.len, HighBits(q.dist, value, q.left) * 16, 1, 1))
    decreases q.left
  {
    hide Pow2;
    var bit := value / Pow2(q.left - 1) % 2;
    var n := S.Next(q, env, bit);
    S.DirectNextWf(q, env, bit);
    if q.left > 1 {
      DirectPath(n, value, env);
    }
  }

  /** A distance is decoded from the slot and the footer it was split into. */
  lemma FooterPath(len: nat, dist: nat, env: S.Env)
    requires len < 272 && dist < WORD
    ensures PosSlot(dist) < 64
    ensures S.Wf(S.AfterSlot(len, PosSlot(dist)), env)
    ensures Follows(S.AfterSlot(len, PosSlot(dist)), env, FooterEvents(dist), S.Done(S.Match(dist, len)))
  {
    assert Pow2(32) == WORD by {
      S.SmallPow2();
      S.Pow2Sum(26, 6);
    }
    SlotSmall(dist, 32);
    SlotOfSmall(dist);
    if PosSlot(dist) >= 14 {
      S.LargeSlotWf(len, PosSlot(dist), env);
      LargeFooterPath(len, dist, env);
    } else if PosSlot(dist) >= 4 {
      S.MiddleSlotWf(len, PosSlot(dist), env);
      MiddleFooterPath(len, dist, env);
    }
  }

  lemma MiddleFooterPath(len: nat, dist: nat, env: S.Env)
    requires len < 272 && 4 <= PosSlot(dist) < 14 && S.Wf(S.AfterSlot(len, PosSlot(dist)), env)
    ensures Follows(S.AfterSlot(len, PosSlot(dist)), env, FooterEvents(dist), S.Done(S.Match(dist, len)))
  {
    hide Pow2, S.SlotBase, Follows, LowBits, HighBits, ReverseEvents, RawEvents;
    var slot := PosSlot(dist);
    SlotOfSmall(dist);
    SlotRange(dist);
    MiddleFooterSum(slot, dist - S.SlotBase(slot));
    SpecPath(S.AfterSlot(len, slot), dist - S.SlotBase(slot), env);
  }

  lemma MiddleFooterSum(slot: nat, reduced: nat)
    requires 4 <= slot && reduced < Pow2(S.FooterBits(slot))
    ensures LowBits(S.SlotBase(slot), 1, reduced, S.FooterBits(slot)) == S.SlotBase(slot) + reduced
  {
    LowBitsSum(S.SlotBase(slot), 1, reduced, S.FooterBits(slot));
  }

  lemma LargeFooterPath(len: nat, dist: nat, env: S.Env)
    requires len < 272 && 14 <= PosSlot(dist) < 64 && S.Wf(S.AfterSlot(len, PosSlot(dist)), env)
    ensures Follows(S.AfterSlot(len, PosSlot(dist)), env, FooterEvents(dist), S.Done(S.Match(dist, len)))
  {
    hide Pow2, S.SlotBase, Follows, LowBits, HighBits, ReverseEvents, RawEvents;
    var slot := PosSlot(dist);
    SlotOfSmall(dist);
    SlotRange(dist);
    var reduced := dist - S.SlotBase(slot);
    LargeFooterSum(slot, reduced);
    DirectThenAlign(S.AfterSlot(len, slot), reduced / 16, reduced % 16, env);
  }

  lemma DirectThenAlign(q: S.Ctl, high: nat, low: nat, env: S.Env)
    requires q.AtDirect? && S.Wf(q, env)
    ensures Follows(q, env, Append(RawEvents(high, q.left), ReverseEvents(AlignTree, 4, low, 1)),
                    S.Done(S.Match(LowBits(HighBits(q.dist, high, q.left) * 16, 1, low, 4), q.len)))
  {
    var m := S.AtAlign(q.len, HighBits(q.dist, high, q.left) * 16, 1, 1);
    DirectPath(q, high, env);
    FollowsWf(q, env, RawEvents(high, q.left), m);
    AlignPath(m, 4, low, env);
    FollowsConcat(q, env, RawEvents(high, q.left), m, ReverseEvents(AlignTree, 4, low, 1),
                  S.Done(S.Match(LowBits(m.dist, 1, low, 4), q.len)));
  }

  lemma LargeFooterSum(slot: nat, reduced: nat)
    requires 14 <= slot && reduced < Pow2(S.FooterBits(slot))
    ensures LowBits(HighBits(2 + slot % 2, reduced / 16, S.FooterBits(slot) - 4) * 16, 1, reduced % 16, 4)
            == S.SlotBase(slot) + reduced
  {
    var high, n := reduced / 16, S.FooterBits(slot) - 4;
    SplitFooter(slot, reduced);
    ModSmall(high, Pow2(n));
    HighBitsSum(2 + slot % 2, high, n);
    assert Pow2(4) == 16 by { S.SmallPow2(); }
    LowBitsSum(HighBits(2 + slot % 2, high, n) * 16, 1, reduced % 16, 4);
  }

  lemma SplitFooter(slot: nat, reduced: nat)
    requires 14 <= slot && reduced < Pow2(S.FooterBits(slot))
    ensures reduced / 16 < Pow2(S.FooterBits(slot) - 4)
    ensures S.SlotBase(slot) == (2 + slot % 2) * Pow2(S.FooterBits(slot) - 4) * 16
  {
    S.SmallPow2();
    S.Pow2Sum(4, S.FooterBits(slot) - 4);
    var w := Pow2(S.FooterBits(slot) - 4);
    assert (2 + slot % 2) * (16 * w) == (2 + slot % 2) * w * 16;
  }

  /** Paths stay among the control points that exist. */
  lemma {:induction false} FollowsWf(q: S.Ctl, env: S.Env, evs: List<Event>, r: S.Ctl)
    requires S.Wf(q, env) && Follows(q, env, evs, r)
    ensures S.Wf(r, env)
    decreases evs
  {
    match evs
    case Nil =>
    case Cons(ev, rest) =>
      S.NextWf(q, env, ev.bit);
      FollowsWf(S.Next(q, env, ev.bit), env, rest, r);
  }

  lemma DistPath(len: nat, dist: nat, env: S.Env)
    requires len < 272 && dist < WORD
    ensures Follows(S.AtSlot(len, 1), env, DistEvents(dist, if len < 4 then len else 3), S.Done(S.Match(dist, len)))
  {
    FooterPath(len, dist, env);
    var slot, t := PosSlot(dist), SlotTree(if len < 4 then len else 3);
    assert Pow2(6) == 64 by { S.SmallPow2(); }
    ModSmall(slot, 64);
    SlotTreePath(len, 1, 6, slot, env);
    FollowsConcat(S.AtSlot(len, 1), env, TreeEvents(t, 6, slot, 1), S.AfterSlot(len, slot), FooterEvents(dist),
        S.Done(S.Match(dist, len)));
  }

  lemma LenPath(kind: S.Kind, symbol: nat, env: S.Env)
    requires S.KindOk(kind) && symbol < 272 && env.posState < 16
    ensures Follows(S.AtLenChoice(kind), env, LenEvents(kind.Repeat?, symbol, env.posState), S.AfterLen(kind, symbol))
  {
    var q, rep := S.AtLenChoice(kind), kind.Repeat?;
    if symbol < 8 {
      var n := S.Next(q, env, 0);
      assert Pow2(3) == 8 by { S.SmallPow2(); }
      ModSmall(symbol, 8);
      LenTreePath(n, 3, symbol, env);
    } else {
      LongLenPath(kind, symbol, env);
    }
  }

  lemma LongLenPath(kind: S.Kind, symbol: nat, env: S.Env)
    requires S.KindOk(kind) && 8 <= symbol < 272 && env.posState < 16
    ensures Follows(S.AtLenChoice2(kind), env, LongLenEvents(kind.Repeat?, symbol, env.posState),
                    S.AfterLen(kind, symbol))
  {
    hide Pow2;
    var q := S.AtLenChoice2(kind);
    var bit, depth := if symbol < 16 then 0 else 1, if symbol < 16 then 3 else 8;
    var n := S.Next(q, env, bit);
    assert Pow2(depth) == n.limit by { S.SmallPow2(); }
    ModSmall(symbol - n.offset, n.limit);
    LenTreePath(n, depth, symbol - n.offset, env);
  }

  /** The literal `b`, `n` bits before the end of its loop. */
  ghost predicate OnLiteral(x: nat, n: nat, b: Byte)
  {
    x * Pow2(n) == (0x100 + b) * 0x100
  }

  lemma LiteralStep(x: nat, n: nat, b: Byte)
    requires 1 <= n <= 8 && OnLiteral(x, n, b)
    ensures 0x100 <= x < 0x10000 && 1 <= x / 0x100 < 0x100
    ensures OnLiteral(2 * x, n - 1, b)
    ensures 2 * x / 0x100 == 2 * (x / 0x100) + x / 0x80 % 2
    ensures n == 1 ==> 2 * x / 0x100 == 0x100 + b
    ensures n > 1 ==> 2 * x < 0x10000 && 2 * x / 0x100 < 0x100
  {
    hide Pow2;
    var w := Pow2(n - 1);
    LiteralWeight(n);
    assert (2 * x) * w == x * (2 * w);
    TopByte(x, Pow2(n), b);
    DoubledByte(x);
    if n > 1 {
      NotYet(2 * x, w, b);
    }
  }

  lemma LiteralWeight(n: nat)
    requires 1 <= n <= 8
    ensures Pow2(n) == 2 * Pow2(n - 1) && 2 <= Pow2(n) <= 256 && (if n == 1 then Pow2(n - 1) == 1 else Pow2(n - 1) >= 2)
  {
    S.Pow2Mono(n, 8);
    S.SmallPow2();
  }

  lemma DoubledByte(x: nat)
    ensures 2 * x / 0x100 == 2 * (x / 0x100) + x / 0x80 % 2
  {
    var q, r := x / 0x80, x % 0x80;
    assert x == q * 0x80 + r;
    DivModUnique(2 * x, 0x100, q, 2 * r);
    DivModUnique(x, 0x100, q / 2, q % 2 * 0x80 + r);
  }

  lemma TopByte(x: nat, w: nat, b: Byte)
    requires x * w == (0x100 + b) * 0x100 && 2 <= w <= 256
    ensures 0x100 <= x < 0x10000
  {
    MulLe(x, 0xFF, w, 256);
    NotYet(x, w, b);
  }

  lemma MulLe(a: nat, b: nat, v: nat, w: nat)
    ensures a <= b && v <= w ==> a * v <= b * w
  {
    if a <= b && v <= w {
      assert a * v <= b * v;
      assert b * v <= b * w;
    }
  }

  lemma NotYet(x: nat, w: nat, b: Byte)
    requires x * w == (0x100 + b) * 0x100 && 2 <= w
    ensures x < 0x10000
  {
    MulLe(0x10000, x, 2, w);
  }

  lemma {:induction false} LitPath(x: nat, n: nat, b: Byte, env: S.Env)
    requires 1 <= n <= 8 && OnLiteral(x, n, b) && x >= 0x100 && env.lit >= S.LITERAL
    requires S.Wf(S.AtLit(x / 0x100), env)
    ensures Follows(S.AtLit(x / 0x100), env, LitEvents(env.lit - S.LITERAL, x), S.Done(S.Lit(b)))
    decreases n
  {
    LiteralStep(x, n, b);
    var q, bit := S.AtLit(x / 0x100), x / 0x80 % 2;
    if n > 1 {
      LitPath(2 * x, n - 1, b, env);
    }
  }

  /** Both sides leave the match sub-table at the same bit, though they test it differently. */
  lemma {:induction false} MatchedPath(x: nat, n: nat, b: Byte, mb: nat, offs: nat, env: S.Env)
    requires 1 <= n <= 8 && OnLiteral(x, n, b) && x >= 0x100 && env.lit >= S.LITERAL
    requires S.Wf(S.AtMatched(x / 0x100, offs, mb), env)
    ensures Follows(S.AtMatched(x / 0x100, offs, mb), env, MatchedEvents(env.lit - S.LITERAL, x, mb, offs),
                    S.Done(S.Lit(b)))
    decreases n
  {
    hide OnLiteral, MatchedEvents, S.Next, Asks, S.AskAt;
    LiteralStep(x, n, b);
    MatchedNext(x, mb, offs, env);
    var offs' := if offs == 0x100 && 2 * mb / 0x100 % 2 == 2 * x / 0x100 % 2 then 0x100 else 0;
    MatchedStep(env.lit - S.LITERAL, x, mb, offs);
    if n > 1 {
      MatchedPath(2 * x, n - 1, b, 2 * mb, offs', env);
    } else {
      MatchedDone(env.lit - S.LITERAL, 2 * x, 2 * mb, offs');
    }
  }

  /** The decoder at a bit of a matched literal: the cell it asks for and where it goes. */
  lemma MatchedNext(x: nat, mb: nat, offs: nat, env: S.Env)
    requires env.lit >= S.LITERAL && S.Wf(S.AtMatched(x / 0x100, offs, mb), env)
             && 2 * x / 0x100 == 2 * (x / 0x100) + x / 0x80 % 2
    ensures var q, bit := S.AtMatched(x / 0x100, offs, mb), x / 0x80 % 2;
            var offs' := if offs == 0x100 && 2 * mb / 0x100 % 2 == 2 * x / 0x100 % 2 then 0x100 else 0;
            && Asks(q, env, Coded(LitProb(env.lit - S.LITERAL + offs + S.MatchBit(offs, mb) + x / 0x100), bit))
            && S.Next(q, env, bit) == if 2 * x / 0x100 < 0x100 then S.AtMatched(2 * x / 0x100, offs', 2 * mb)
                                      else S.Done(S.Lit(2 * x / 0x100 - 0x100))
  {
    assert 2 * x / 0x100 % 2 == x / 0x80 % 2;
  }

  lemma MatchedStep(base: nat, x: nat, mb: nat, offs: nat)
    requires 0x100 <= x < 0x10000 && (offs == 0 || offs == 0x100)
    ensures var offs' := if offs == 0x100 && 2 * mb / 0x100 % 2 == 2 * x / 0x100 % 2 then 0x100 else 0;
            MatchedEvents(base, x, mb, offs) ==
            Cons(Coded(LitProb(base + offs + S.MatchBit(offs, mb) + x / 0x100), x / 0x80 % 2),
                MatchedEvents(base, 2 * x, 2 * mb, offs'))
  {
  }

  lemma MatchedDone(base: nat, x: nat, mb: nat, offs: nat)
    requires x >= 0x10000 && (offs == 0 || offs == 0x100)
    ensures MatchedEvents(base, x, mb, offs) == Nil
  {
  }
}
