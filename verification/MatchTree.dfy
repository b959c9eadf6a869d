/**
 The trees of the binary-tree match finder.  A node is a position of the text;
 below it hang older positions, the smaller ones on one side and the larger
 ones on the other, as far as their first `l` bytes tell.
 */
module MatchTree {
  import opened Bytes

  // ------------------------------------------------------------ order of positions

  /** The `k` bytes at `a` and at `b` are the same. */
  predicate Same(text: seq<Byte>, a: int, b: int, k: nat)
  {
    && 0 <= a && a + k <= |text| && 0 <= b && b + k <= |text|
    && text[a..a + k] == text[b..b + k]
  }

  lemma SameNext(text: seq<Byte>, a: int, b: int, k: nat)
    requires 0 <= a && a + k < |text| && 0 <= b && b + k < |text|
    ensures Same(text, a, b, k + 1) <==> Same(text, a, b, k) && text[a + k] == text[b + k]
  {
    var u, v := text[a..a + k + 1], text[b..b + k + 1];
    assert u == text[a..a + k] + [text[a + k]] && v == text[b..b + k] + [text[b + k]];
    assert u[..k] == text[a..a + k] && v[..k] == text[b..b + k] && u[k] == text[a + k] && v[k] == text[b + k];
  }

  lemma FrontPart(text: seq<Byte>, a: int, j: nat, k: nat)
    requires 0 <= a && a + k <= |text| && j <= k
    ensures text[a..a + j] == text[a..a + k][..j] && (j < k ==> text[a + j] == text[a..a + k][j])
  {
  }

  lemma SameLess(text: seq<Byte>, a: int, b: int, j: nat, k: nat)
    requires Same(text, a, b, k) && j <= k
    ensures Same(text, a, b, j)
    ensures j < k ==> text[a + j] == text[b + j]
  {
    FrontPart(text, a, j, k);
    FrontPart(text, b, j, k);
  }

  /** In dictionary order of their first `l` bytes, `a` is not behind `b`. */
  ghost predicate Le(text: seq<Byte>, a: int, b: int, l: nat)
  {
    && 0 <= a && a + l <= |text| && 0 <= b && b + l <= |text|
    && forall k: nat | k < l && Same(text, a, b, k) :: text[a + k] <= text[b + k]
  }

  /** What lies between two positions that start the same starts the same. */
  lemma {:induction false} Between(text: seq<Byte>, a: int, b: int, c: int, l: nat, k: nat)
    requires Le(text, a, b, l) && Le(text, b, c, l) && k <= l && Same(text, a, c, k)
    ensures Same(text, a, b, k) && Same(text, b, c, k)
    decreases k
  {
    if k > 0 {
      SameLess(text, a, c, k - 1, k);
      Between(text, a, b, c, l, k - 1);
      SameNext(text, a, b, k - 1);
      SameNext(text, b, c, k - 1);
    }
  }

  lemma LeTrans(text: seq<Byte>, a: int, b: int, c: int, l: nat)
    requires Le(text, a, b, l) && Le(text, b, c, l)
    ensures Le(text, a, c, l)
  {
    forall k: nat | k < l && Same(text, a, c, k)
      ensures text[a + k] <= text[c + k]
    {
      Between(text, a, b, c, l, k);
    }
  }

  /** `a` is before `b`: they differ first at `k`, within the first `l` bytes. */
  ghost predicate Before(text: seq<Byte>, a: int, b: int, k: nat, l: nat)
  {
    && k < l && 0 <= a && a + l <= |text| && 0 <= b && b + l <= |text|
    && Same(text, a, b, k) && text[a + k] < text[b + k]
  }

  lemma BeforeLe(text: seq<Byte>, a: int, b: int, k: nat, l: nat)
    requires Before(text, a, b, k, l)
    ensures Le(text, a, b, l) && !Le(text, b, a, l)
  {
    assert Same(text, b, a, k);
    forall j: nat | j < l && Same(text, a, b, j)
      ensures text[a + j] <= text[b + j]
    {
      if j < k {
        SameLess(text, a, b, j, k);
      } else if j > k {
        SameLess(text, a, b, k, j);
      }
    }
  }

  lemma SameLe(text: seq<Byte>, a: int, b: int, l: nat)
    requires Same(text, a, b, l)
    ensures Le(text, a, b, l) && Le(text, b, a, l)
  {
    forall j: nat | j < l && Same(text, a, b, j)
      ensures text[a + j] <= text[b + j]
    {
      SameLess(text, a, b, j, l);
    }
    forall j: nat | j < l && Same(text, b, a, j)
      ensures text[b + j] <= text[a + j]
    {
      SameLess(text, a, b, j, l);
    }
  }

  // ------------------------------------------------------------ trees

  datatype Node = Node(lo: int, hi: int)

  /** The live positions; a link to any other position is no link. */
  type Tree = map<int, Node>

  /** `x` and everything that hangs below it. */
  ghost function Under(t: Tree, x: int): set<int>
    decreases x
  {
    if x !in t || x < 0 then {}
    else
      {x} + (if t[x].lo < x then Under(t, t[x].lo) else {}) + (if t[x].hi < x then Under(t, t[x].hi) else {})
  }

  /** Parents are newer than their children and lie between the two sides. */
  ghost predicate Ordered(t: Tree, text: seq<Byte>, l: nat)
  {
    && (forall x | x in t :: x >= 0 && t[x].lo < x && t[x].hi < x)
    && (forall x, d | x in t && d in Under(t, t[x].lo) :: Le(text, d, x, l))
    && (forall x, d | x in t && d in Under(t, t[x].hi) :: Le(text, x, d, l))
  }

  lemma {:induction false} UnderBelow(t: Tree, x: int)
    ensures forall d | d in Under(t, x) :: d <= x && d in t && d >= 0
    decreases x
  {
    if x in t && x >= 0 {
      if t[x].lo < x {
        UnderBelow(t, t[x].lo);
      }
      if t[x].hi < x {
        UnderBelow(t, t[x].hi);
      }
    }
  }

  lemma {:induction false} UnderTrans(t: Tree, x: int, d: int)
    requires d in Under(t, x)
    ensures Under(t, d) <= Under(t, x)
    decreases x
  {
    if d != x {
      if t[x].lo < x && d in Under(t, t[x].lo) {
        UnderTrans(t, t[x].lo, d);
      } else {
        UnderTrans(t, t[x].hi, d);
      }
    }
  }

  /** `t'` has some of the nodes of `t`, and each link leads to part of what it led to. */
  ghost predicate Shrunk(t: Tree, t': Tree)
  {
    && (forall x | x in t' :: x in t && t'[x].lo < x && t'[x].hi < x)
    && (forall x | x in t' :: Under(t, t'[x].lo) <= Under(t, t[x].lo) || t'[x].lo !in t')
    && (forall x | x in t' :: Under(t, t'[x].hi) <= Under(t, t[x].hi) || t'[x].hi !in t')
  }

  lemma {:induction false} ShrunkUnder(t: Tree, t': Tree, text: seq<Byte>, l: nat, x: int)
    requires Ordered(t, text, l) && Shrunk(t, t')
    ensures Under(t', x) <= Under(t, x)
    decreases x
  {
    if x in t' && x >= 0 {
      ShrunkUnder(t, t', text, l, t'[x].lo);
      ShrunkUnder(t, t', text, l, t'[x].hi);
    }
  }

  lemma ShrunkOrdered(t: Tree, t': Tree, text: seq<Byte>, l: nat, l': nat)
    requires Ordered(t, text, l) && Shrunk(t, t') && l' <= l
    ensures Ordered(t', text, l')
  {
    forall x, d | x in t' && d in Under(t', t'[x].lo)
      ensures Le(text, d, x, l')
    {
      ShrunkUnder(t, t', text, l, t'[x].lo);
      assert d in Under(t, t[x].lo);
    }
    forall x, d | x in t' && d in Under(t', t'[x].hi)
      ensures Le(text, x, d, l')
    {
      ShrunkUnder(t, t', text, l, t'[x].hi);
      assert d in Under(t, t[x].hi);
    }
  }

  // ------------------------------------------------------------ inserting a position

  /**
   The walk down from a root: `cur` is the node looked at, `s` the last node
   found smaller and `g` the last one found larger (or `p` if there is none
   yet).  The link on the larger side of `s` and the one on the smaller side of
   `g` are open: they are to be set later.
   */
  datatype Walk = Walk(cur: int, s: int, g: int, len1: nat, len0: nat)

  /** Sets the open link below `s`. */
  function SetSmaller(t: Tree, p: int, k: Walk, v: int): Tree
    requires k.s in t
  {
    if k.s == p then t[p := t[p].(lo := v)] else t[k.s := t[k.s].(hi := v)]
  }

  /** Sets the open link below `g`. */
  function SetLarger(t: Tree, p: int, k: Walk, v: int): Tree
    requires k.g in t
  {
    if k.g == p then t[p := t[p].(hi := v)] else t[k.g := t[k.g].(lo := v)]
  }

  /** All links of the nodes of `part`, but for the open ones, stay in `part`. */
  ghost predicate Shut(t: Tree, part: set<int>, k: Walk)
  {
    forall x | x in part ::
      && x in t
      && (t[x].lo in part || t[x].lo !in t || k.g == x)
      && (t[x].hi in part || t[x].hi !in t || k.s == x)
  }

  /** The nodes of `low` go below `p` on the smaller side, those of `high` on the larger side. */
  datatype Sides = Sides(low: set<int>, high: set<int>)

  /** Every node still looks like before, or its links lead to part of what they led to. */
  ghost predicate Rewired(t0: Tree, t: Tree, p: int, cur: int)
  {
    && p !in t0 && t.Keys == t0.Keys + {p}
    && (forall x | x in t0 :: x < p && t[x].lo < x && t[x].hi < x)
    && (forall x | x in t0 && x <= cur :: t[x] == t0[x])
    && (forall x | x in t0 :: Under(t0, t[x].lo) <= Under(t0, t0[x].lo))
    && (forall x | x in t0 :: Under(t0, t[x].hi) <= Under(t0, t0[x].hi))
  }

  /** `s` and `g` enclose `p`, and everything below `cur` lies between them. */
  ghost predicate Enclosed(t0: Tree, text: seq<Byte>, l: nat, p: int, k: Walk)
  {
    && k.cur < p
    && (if k.s == p then k.len1 == 0
        else k.s in t0 && k.cur < k.s && Before(text, k.s, p, k.len1, l) && Under(t0, k.cur) <= Under(t0, t0[k.s].hi))
    && (if k.g == p then k.len0 == 0
        else k.g in t0 && k.cur < k.g && Before(text, p, k.g, k.len0, l) && Under(t0, k.cur) <= Under(t0, t0[k.g].lo))
  }

  ghost predicate Sorted(t: Tree, text: seq<Byte>, l: nat, p: int, k: Walk, sides: Sides)
    requires p in t
  {
    && p !in sides.low && p !in sides.high
    && Shut(t, sides.low, k) && Shut(t, sides.high, k)
    && (forall d | d in sides.low :: Le(text, d, p, l)) && (forall d | d in sides.high :: Le(text, p, d, l))
    && (k.s == p || t[p].lo in sides.low) && (k.g == p || t[p].hi in sides.high)
    && (k.s == p || k.s in sides.low) && (k.g == p || k.g in sides.high)
  }

  ghost predicate Walking(t0: Tree, t: Tree, text: seq<Byte>, l: nat, p: int, k: Walk, sides: Sides)
  {
    && Ordered(t0, text, l) && 0 <= p && p + l <= |text|
    && Rewired(t0, t, p, k.cur) && Enclosed(t0, text, l, p, k) && Sorted(t, text, l, p, k, sides)
  }

  lemma WalkFacts(t0: Tree, t: Tree, text: seq<Byte>, l: nat, p: int, k: Walk, sides: Sides)
    requires Walking(t0, t, text, l, p, k, sides)
    ensures (k.s == p || k.s in t0) && (k.g == p || k.g in t0) && k.cur < k.s && k.cur < k.g && k.cur < p
    ensures p in t && Ordered(t0, text, l) && Enclosed(t0, text, l, p, k)
    ensures k.cur in t0 ==> k.cur in t && t[k.cur] == t0[k.cur]
    ensures (k.len0 < l || k.len0 == 0) && (k.len1 < l || k.len1 == 0) && 0 <= p && p + l <= |text|
  {
  }

  /** The bytes that are not compared: those that both bounds share with `p`. */
  lemma KnownSame(t0: Tree, t: Tree, text: seq<Byte>, l: nat, p: int, k: Walk, sides: Sides)
    requires Walking(t0, t, text, l, p, k, sides) && k.cur in t0
    ensures Same(text, k.cur, p, if k.len0 < k.len1 then k.len0 else k.len1)
  {
    var c := if k.len0 < k.len1 then k.len0 else k.len1;
    if c > 0 {
      assert k.cur in Under(t0, k.cur);
      assert Le(text, k.s, k.cur, l) && Le(text, k.cur, k.g, l);
      SameLess(text, k.s, p, c, k.len1);
      SameLess(text, p, k.g, c, k.len0);
      Between(text, k.s, k.cur, k.g, l, c);
    }
  }

  lemma SetHiRewired(t0: Tree, t: Tree, p: int, o: int, v: int, cur: int, cur': int)
    requires Rewired(t0, t, p, cur) && cur' <= cur && cur' < o
    requires o == p || (o in t0 && v < o && Under(t0, v) <= Under(t0, t0[o].hi))
    ensures Rewired(t0, t[o := t[o].(hi := v)], p, cur')
  {
    hide Under;
  }

  lemma SetLoRewired(t0: Tree, t: Tree, p: int, o: int, v: int, cur: int, cur': int)
    requires Rewired(t0, t, p, cur) && cur' <= cur && cur' < o
    requires o == p || (o in t0 && v < o && Under(t0, v) <= Under(t0, t0[o].lo))
    ensures Rewired(t0, t[o := t[o].(lo := v)], p, cur')
  {
    hide Under;
  }

  /** What hangs below a node that was not passed keeps its links. */
  lemma UnderShut(t0: Tree, t: Tree, p: int, k: Walk, x: int)
    requires Rewired(t0, t, p, k.cur) && x <= k.cur < p && k.cur < k.s && k.cur < k.g
    requires forall y | y in t0 :: y >= 0
    ensures Shut(t, Under(t0, x), k)
    ensures x in Under(t0, x) || x !in t
  {
    UnderBelow(t0, x);
    forall y | y in Under(t0, x)
      ensures y in t && (t[y].lo in Under(t0, x) || t[y].lo !in t) && (t[y].hi in Under(t0, x) || t[y].hi !in t)
    {
      UnderTrans(t0, x, y);
      assert t[y] == t0[y];
      LinkUnder(t0, y);
    }
  }

  lemma LinkUnder(t0: Tree, y: int)
    requires y in t0 && y >= 0 && t0[y].lo < y && t0[y].hi < y && forall x | x in t0 :: x >= 0
    ensures t0[y].lo in Under(t0, y) || t0[y].lo !in t0
    ensures t0[y].hi in Under(t0, y) || t0[y].hi !in t0
  {
  }

  /** A node before `p` is not among those behind it, and the other way round. */
  lemma OtherSide(text: seq<Byte>, l: nat, p: int, k: Walk, t: Tree, sides: Sides)
    requires p in t && Sorted(t, text, l, p, k, sides)
    requires k.s == p || Before(text, k.s, p, k.len1, l)
    requires k.g == p || Before(text, p, k.g, k.len0, l)
    ensures k.s !in sides.high && k.g !in sides.low
  {
    if k.s != p {
      BeforeLe(text, k.s, p, k.len1, l);
    }
    if k.g != p {
      BeforeLe(text, p, k.g, k.len0, l);
    }
  }

  /** Filling the open link of `s` with a node of `part`. */
  lemma FillSmaller(t: Tree, p: int, k: Walk, v: int, part: set<int>, s': int)
    requires k.s in t && Shut(t, part, k) && p !in part && (v in part || v !in t || k.s !in part)
    ensures Shut(SetSmaller(t, p, k, v), part, k.(s := s'))
  {
  }

  lemma FillLarger(t: Tree, p: int, k: Walk, v: int, part: set<int>, g': int)
    requires k.g in t && Shut(t, part, k) && p !in part && (v in part || v !in t || k.g !in part)
    ensures Shut(SetLarger(t, p, k, v), part, k.(g := g'))
  {
  }

  /** The node `m` joins `part`, filling the link of `s`; what is below it on the smaller side comes along. */
  lemma JoinSmaller(t: Tree, p: int, k: Walk, m: int, part: set<int>, below: set<int>)
    requires k.s in t && Shut(t, part, k) && Shut(t, below, k) && p !in part && p !in below
    requires m in t && m != p && (t[m].lo in below || t[m].lo !in t)
    ensures Shut(SetSmaller(t, p, k, m), part + {m} + below, k.(s := m))
  {
  }

  lemma JoinLarger(t: Tree, p: int, k: Walk, m: int, part: set<int>, below: set<int>)
    requires k.g in t && Shut(t, part, k) && Shut(t, below, k) && p !in part && p !in below
    requires m in t && m != p && (t[m].hi in below || t[m].hi !in t)
    ensures Shut(SetLarger(t, p, k, m), part + {m} + below, k.(g := m))
  {
  }

  lemma LowerLe(t0: Tree, text: seq<Byte>, l: nat, m: int, p: int)
    requires Ordered(t0, text, l) && m in t0 && Le(text, m, p, l)
    ensures forall d | d in Under(t0, t0[m].lo) :: Le(text, d, p, l)
  {
    hide Le;
    forall d | d in Under(t0, t0[m].lo)
      ensures Le(text, d, p, l)
    {
      LeTrans(text, d, m, p, l);
    }
  }

  lemma HigherLe(t0: Tree, text: seq<Byte>, l: nat, m: int, p: int)
    requires Ordered(t0, text, l) && m in t0 && Le(text, p, m, l)
    ensures forall d | d in Under(t0, t0[m].hi) :: Le(text, p, d, l)
  {
    hide Le;
    forall d | d in Under(t0, t0[m].hi)
      ensures Le(text, p, d, l)
    {
      LeTrans(text, p, m, d, l);
    }
  }

  lemma OrderedBasics(t0: Tree, text: seq<Byte>, l: nat)
    requires Ordered(t0, text, l)
    ensures forall x | x in t0 :: x >= 0 && t0[x].lo < x && t0[x].hi < x
  {
  }

  lemma StepSmallerSorted(t0: Tree, t: Tree, text: seq<Byte>, l: nat, p: int, k: Walk, sides: Sides, len: nat)
    requires Walking(t0, t, text, l, p, k, sides) && k.cur in t0 && Before(text, k.cur, p, len, l)
    ensures p in t && k.s in t
    ensures Sorted(SetSmaller(t, p, k, k.cur), text, l, p, k.(cur := t0[k.cur].hi, s := k.cur, len1 := len),
                   sides.(low := sides.low + {k.cur} + Under(t0, t0[k.cur].lo)))
  {
    hide Le, Ordered, Under, Shut, Before;
    var m := k.cur;
    OrderedBasics(t0, text, l);
    OtherSide(text, l, p, k, t, sides);
    FillSmaller(t, p, k, m, sides.high, m);
    UnderShut(t0, t, p, k, t0[m].lo);
    UnderBelow(t0, t0[m].lo);
    JoinSmaller(t, p, k, m, sides.low, Under(t0, t0[m].lo));
    BeforeLe(text, m, p, len, l);
    LowerLe(t0, text, l, m, p);
    ShutAnyCur(SetSmaller(t, p, k, m), k.(s := m), k.(cur := t0[m].hi, s := m, len1 := len),
               sides.low + {m} + Under(t0, t0[m].lo), sides.high);
  }

  /** Only the open links count in a walk for `Shut`. */
  lemma ShutAnyCur(t: Tree, k: Walk, k': Walk, low: set<int>, high: set<int>)
    requires Shut(t, low, k) && Shut(t, high, k) && k.s == k'.s && k.g == k'.g
    ensures Shut(t, low, k') && Shut(t, high, k')
  {
  }

  lemma StepLargerSorted(t0: Tree, t: Tree, text: seq<Byte>, l: nat, p: int, k: Walk, sides: Sides, len: nat)
    requires Walking(t0, t, text, l, p, k, sides) && k.cur in t0 && Before(text, p, k.cur, len, l)
    ensures p in t && k.g in t
    ensures Sorted(SetLarger(t, p, k, k.cur), text, l, p, k.(cur := t0[k.cur].lo, g := k.cur, len0 := len),
                   sides.(high := sides.high + {k.cur} + Under(t0, t0[k.cur].hi)))
  {
    hide Le, Ordered, Under, Shut, Before;
    var m := k.cur;
    OrderedBasics(t0, text, l);
    OtherSide(text, l, p, k, t, sides);
    FillLarger(t, p, k, m, sides.low, m);
    UnderShut(t0, t, p, k, t0[m].hi);
    UnderBelow(t0, t0[m].hi);
    JoinLarger(t, p, k, m, sides.high, Under(t0, t0[m].hi));
    BeforeLe(text, p, m, len, l);
    HigherLe(t0, text, l, m, p);
    ShutAnyCur(SetLarger(t, p, k, m), k.(g := m), k.(cur := t0[m].lo, g := m, len0 := len),
               sides.low, sides.high + {m} + Under(t0, t0[m].hi));
  }

  lemma ChildrenUnder(t0: Tree, text: seq<Byte>, l: nat, m: int)
    requires Ordered(t0, text, l) && m in t0
    ensures t0[m].lo < m && t0[m].hi < m && Under(t0, t0[m].lo) <= Under(t0, m) && Under(t0, t0[m].hi) <= Under(t0, m)
  {
  }

  /** The node looked at is smaller: it goes below `s`, and the walk turns to its larger side. */
  lemma StepSmaller(t0: Tree, t: Tree, text: seq<Byte>, l: nat, p: int, k: Walk, sides: Sides, len: nat)
    requires Walking(t0, t, text, l, p, k, sides) && k.cur in t0 && Before(text, k.cur, p, len, l)
    ensures k.s in t
    ensures Walking(t0, SetSmaller(t, p, k, k.cur), text, l, p, k.(cur := t0[k.cur].hi, s := k.cur, len1 := len),
                    sides.(low := sides.low + {k.cur} + Under(t0, t0[k.cur].lo)))
  {
    hide Under, Ordered, Rewired, Sorted;
    StepSmallerSorted(t0, t, text, l, p, k, sides, len);
    ChildrenUnder(t0, text, l, k.cur);
    if k.s == p {
      SetLoRewired(t0, t, p, p, k.cur, k.cur, t0[k.cur].hi);
    } else {
      SetHiRewired(t0, t, p, k.s, k.cur, k.cur, t0[k.cur].hi);
    }
  }

  /** The node looked at is larger. */
  lemma StepLarger(t0: Tree, t: Tree, text: seq<Byte>, l: nat, p: int, k: Walk, sides: Sides, len: nat)
    requires Walking(t0, t, text, l, p, k, sides) && k.cur in t0 && Before(text, p, k.cur, len, l)
    ensures k.g in t
    ensures Walking(t0, SetLarger(t, p, k, k.cur), text, l, p, k.(cur := t0[k.cur].lo, g := k.cur, len0 := len),
                    sides.(high := sides.high + {k.cur} + Under(t0, t0[k.cur].hi)))
  {
    hide Under, Ordered, Rewired, Sorted;
    StepLargerSorted(t0, t, text, l, p, k, sides, len);
    ChildrenUnder(t0, text, l, k.cur);
    if k.g == p {
      SetHiRewired(t0, t, p, p, k.cur, k.cur, t0[k.cur].lo);
    } else {
      SetLoRewired(t0, t, p, k.g, k.cur, k.cur, t0[k.cur].lo);
    }
  }

  // ------------------------------------------------------------ the end of the walk

  /** Both open links are set: to `a` below `s`, to `b` below `g`. */
  function Close(t: Tree, p: int, k: Walk, a: int, b: int): Tree
    requires k.s in t && k.g in t
  {
    SetLarger(SetSmaller(t, p, k, a), p, k, b)
  }

  /** Nothing is open. */
  ghost predicate Whole(t: Tree, part: set<int>)
  {
    forall x | x in part :: x in t && (t[x].lo in part || t[x].lo !in t) && (t[x].hi in part || t[x].hi !in t)
  }

  lemma {:induction false} WholeUnder(t: Tree, part: set<int>, x: int)
    requires Whole(t, part) && (x in part || x !in t)
    ensures Under(t, x) <= part
    decreases x
  {
    if x in t && x >= 0 {
      if t[x].lo < x {
        WholeUnder(t, part, t[x].lo);
      }
      if t[x].hi < x {
        WholeUnder(t, part, t[x].hi);
      }
    }
  }

  lemma CloseShut(t: Tree, p: int, k: Walk, a: int, b: int, part: set<int>, below: set<int>)
    requires k.s in t && k.g in t && Shut(t, part, k) && Shut(t, below, k) && p !in part && p !in below
    requires k.s !in below && k.g !in below
    requires k.s in part ==> a in below || a !in t
    requires k.g in part ==> b in below || b !in t
    ensures Whole(Close(t, p, k, a, b), part + below)
  {
  }

  /** The links that close the walk lead to part of what is below `cur`, each to its side. */
  ghost predicate Fits(t0: Tree, text: seq<Byte>, l: nat, p: int, k: Walk, a: int, b: int)
  {
    && (a !in t0 || (a <= k.cur && Under(t0, a) <= Under(t0, k.cur)))
    && (b !in t0 || (b <= k.cur && Under(t0, b) <= Under(t0, k.cur)))
    && a < p && b < p && (k.s != p ==> a < k.s) && (k.g != p ==> b < k.g)
    && (forall d | d in Under(t0, a) :: Le(text, d, p, l)) && (forall d | d in Under(t0, b) :: Le(text, p, d, l))
  }

  lemma {:induction false} RewiredUnder(t0: Tree, t: Tree, p: int, cur: int, x: int)
    requires Rewired(t0, t, p, cur) && x < p
    requires forall y | y in t0 :: t0[y].lo < y && t0[y].hi < y
    ensures Under(t, x) <= Under(t0, x)
    decreases x
  {
    if x in t && x >= 0 {
      RewiredUnder(t0, t, p, cur, t[x].lo);
      RewiredUnder(t0, t, p, cur, t[x].hi);
    }
  }

  lemma CloseRewired(t0: Tree, t: Tree, text: seq<Byte>, l: nat, p: int, k: Walk, sides: Sides, a: int, b: int)
    requires Walking(t0, t, text, l, p, k, sides) && Fits(t0, text, l, p, k, a, b)
    ensures k.s in t && k.g in t && exists low | low <= k.cur :: Rewired(t0, Close(t, p, k, a, b), p, low)
  {
    var low := if k.cur < -1 then k.cur else -1;
    var t1 := SetSmaller(t, p, k, a);
    assert Rewired(t0, t1, p, low) by {
      hide Sorted, Le, Before;
      if k.s == p {
        SetLoRewired(t0, t, p, p, a, k.cur, low);
      } else {
        SetHiRewired(t0, t, p, k.s, a, k.cur, low);
      }
    }
    assert Rewired(t0, Close(t, p, k, a, b), p, low) by {
      hide Sorted, Le, Before;
      if k.g == p {
        SetHiRewired(t0, t1, p, p, b, low, low);
      } else {
        SetLoRewired(t0, t1, p, k.g, b, low, low);
      }
    }
  }

  lemma CloseLow(t0: Tree, t: Tree, text: seq<Byte>, l: nat, p: int, k: Walk, sides: Sides, a: int, b: int)
    requires Walking(t0, t, text, l, p, k, sides) && Fits(t0, text, l, p, k, a, b) && k.s in t && k.g in t
    ensures Under(Close(t, p, k, a, b), Close(t, p, k, a, b)[p].lo) <= sides.low + Under(t0, a)
    ensures forall d | d in Under(Close(t, p, k, a, b), Close(t, p, k, a, b)[p].lo) :: Le(text, d, p, l)
  {
    var below, tF := Under(t0, a), Close(t, p, k, a, b);
    BelowShut(t0, t, text, l, p, k, a);
    OtherSide(text, l, p, k, t, sides);
    CloseShut(t, p, k, a, b, sides.low, below);
    WholeUnder(tF, sides.low + below, tF[p].lo);
  }

  lemma CloseHigh(t0: Tree, t: Tree, text: seq<Byte>, l: nat, p: int, k: Walk, sides: Sides, a: int, b: int)
    requires Walking(t0, t, text, l, p, k, sides) && Fits(t0, text, l, p, k, a, b) && k.s in t && k.g in t
    ensures Under(Close(t, p, k, a, b), Close(t, p, k, a, b)[p].hi) <= sides.high + Under(t0, b)
    ensures forall d | d in Under(Close(t, p, k, a, b), Close(t, p, k, a, b)[p].hi) :: Le(text, p, d, l)
  {
    var below, tF := Under(t0, b), Close(t, p, k, a, b);
    BelowShut(t0, t, text, l, p, k, b);
    OtherSide(text, l, p, k, t, sides);
    CloseShut(t, p, k, a, b, sides.high, below);
    WholeUnder(tF, sides.high + below, tF[p].hi);
  }

  lemma BelowShut(t0: Tree, t: Tree, text: seq<Byte>, l: nat, p: int, k: Walk, a: int)
    requires Ordered(t0, text, l) && Rewired(t0, t, p, k.cur) && Enclosed(t0, text, l, p, k)
    requires a !in t0 || a <= k.cur
    ensures Shut(t, Under(t0, a), k) && (a in Under(t0, a) || a !in t0)
    ensures p !in Under(t0, a) && k.s !in Under(t0, a) && k.g !in Under(t0, a)
  {
    if a in t0 {
      UnderBelow(t0, a);
      UnderShut(t0, t, p, k, a);
    }
  }

  /** The old nodes stay ordered, so only `p` has to be looked at. */
  lemma RewiredOrdered(t0: Tree, t: Tree, text: seq<Byte>, l: nat, p: int, cur: int)
    requires Ordered(t0, text, l) && Rewired(t0, t, p, cur) && 0 <= p && t[p].lo < p && t[p].hi < p
    requires forall d | d in Under(t, t[p].lo) :: Le(text, d, p, l)
    requires forall d | d in Under(t, t[p].hi) :: Le(text, p, d, l)
    ensures Ordered(t, text, l)
  {
    forall x, d | x in t && d in Under(t, t[x].lo)
      ensures Le(text, d, x, l)
    {
      if x != p {
        RewiredUnder(t0, t, p, cur, t[x].lo);
        assert d in Under(t0, t0[x].lo);
      }
    }
    forall x, d | x in t && d in Under(t, t[x].hi)
      ensures Le(text, x, d, l)
    {
      if x != p {
        RewiredUnder(t0, t, p, cur, t[x].hi);
        assert d in Under(t0, t0[x].hi);
      }
    }
  }

  /** However the walk ends, the tree with `p` on top is ordered. */
  lemma Closed(t0: Tree, t: Tree, text: seq<Byte>, l: nat, p: int, k: Walk, sides: Sides, a: int, b: int)
    requires Walking(t0, t, text, l, p, k, sides) && Fits(t0, text, l, p, k, a, b)
    ensures k.s in t && k.g in t && Ordered(Close(t, p, k, a, b), text, l)
  {
    hide Under, Le, Ordered, Rewired;
    CloseRewired(t0, t, text, l, p, k, sides, a, b);
    var tF := Close(t, p, k, a, b);
    var low :| low <= k.cur && Rewired(t0, tF, p, low);
    CloseLow(t0, t, text, l, p, k, sides, a, b);
    CloseHigh(t0, t, text, l, p, k, sides, a, b);
    SidesBelow(t0, t, text, l, p, k, sides);
    RewiredOrdered(t0, tF, text, l, p, low);
  }

  lemma SidesBelow(t0: Tree, t: Tree, text: seq<Byte>, l: nat, p: int, k: Walk, sides: Sides)
    requires Walking(t0, t, text, l, p, k, sides)
    ensures (k.s == p || t[p].lo < p) && (k.g == p || t[p].hi < p)
  {
  }

  /** Ending with empty links. */
  lemma EmptyFits(t0: Tree, text: seq<Byte>, l: nat, p: int, k: Walk, none: int)
    requires Ordered(t0, text, l) && Enclosed(t0, text, l, p, k) && none !in t0 && none < p
    requires (k.s != p ==> none < k.s) && (k.g != p ==> none < k.g)
    ensures Fits(t0, text, l, p, k, none, none)
  {
  }

  /** Ending at a node that is the same as `p`: `p` takes its place. */
  lemma MatchFits(t0: Tree, text: seq<Byte>, l: nat, p: int, k: Walk)
    requires Ordered(t0, text, l) && Enclosed(t0, text, l, p, k) && k.cur in t0 && Same(text, k.cur, p, l)
    ensures Fits(t0, text, l, p, k, t0[k.cur].lo, t0[k.cur].hi)
  {
    var m := k.cur;
    ChildrenUnder(t0, text, l, m);
    SameLe(text, m, p, l);
    forall d | d in Under(t0, t0[m].lo)
      ensures Le(text, d, p, l)
    {
      LeTrans(text, d, m, p, l);
    }
    forall d | d in Under(t0, t0[m].hi)
      ensures Le(text, p, d, l)
    {
      LeTrans(text, p, m, d, l);
    }
  }

  /** The walk starts at a root older than `p`. */
  lemma WalkStarts(t0: Tree, t: Tree, text: seq<Byte>, l: nat, p: int, root: int)
    requires Ordered(t0, text, l) && p !in t0 && 0 <= p && p + l <= |text| && root < p
    requires t.Keys == t0.Keys + {p} && forall x | x in t0 :: x < p && t[x] == t0[x]
    ensures Walking(t0, t, text, l, p, Walk(root, p, p, 0, 0), Sides({}, {}))
  {
  }

  // ------------------------------------------------------------ what a walk can miss

  /** The longest way down from `x`. */
  ghost function Height(t: Tree, x: int): nat
    decreases x
  {
    if x !in t || x < 0 then 0
    else
      var lo, hi := if t[x].lo < x then Height(t, t[x].lo) else 0, if t[x].hi < x then Height(t, t[x].hi) else 0;
      1 + if lo < hi then hi else lo
  }

  /** Nothing below `root` but what is below `at` shares more than `n` bytes with `p`. */
  ghost predicate Narrowed(t0: Tree, text: seq<Byte>, p: int, root: int, at: int, n: nat)
  {
    forall d | d in Under(t0, root) && d !in Under(t0, at) :: !Same(text, d, p, n + 1)
  }

  lemma NarrowedMore(t0: Tree, text: seq<Byte>, p: int, root: int, at: int, n: nat, n': nat)
    requires Narrowed(t0, text, p, root, at, n) && n <= n'
    ensures Narrowed(t0, text, p, root, at, n')
  {
    forall d | d in Under(t0, root) && d !in Under(t0, at)
      ensures !Same(text, d, p, n' + 1)
    {
      if Same(text, d, p, n' + 1) {
        SameLess(text, d, p, n + 1, n' + 1);
      }
    }
  }

  /** Once `m` is found to differ from `p`, the other side of `m` cannot share more with `p` than `m` does. */
  lemma NarrowSmaller(t0: Tree, text: seq<Byte>, l: nat, p: int, root: int, m: int, len: nat, n: nat)
    requires Ordered(t0, text, l) && m in t0 && Before(text, m, p, len, l) && len <= n < l
             && Narrowed(t0, text, p, root, m, n)
    ensures Narrowed(t0, text, p, root, t0[m].hi, n) && Height(t0, t0[m].hi) < Height(t0, m)
  {
    BeforeLe(text, m, p, len, l);
    forall d | d in Under(t0, root) && d !in Under(t0, t0[m].hi)
      ensures !Same(text, d, p, n + 1)
    {
      if d in Under(t0, m) && Same(text, d, p, n + 1) {
        if d != m {
          assert Le(text, d, m, l);
          Between(text, d, m, p, l, n + 1);
        }
        SameLess(text, m, p, len, n + 1);
      }
    }
  }

  lemma NarrowLarger(t0: Tree, text: seq<Byte>, l: nat, p: int, root: int, m: int, len: nat, n: nat)
    requires Ordered(t0, text, l) && m in t0 && Before(text, p, m, len, l) && len <= n < l
             && Narrowed(t0, text, p, root, m, n)
    ensures Narrowed(t0, text, p, root, t0[m].lo, n) && Height(t0, t0[m].lo) < Height(t0, m)
  {
    BeforeLe(text, p, m, len, l);
    forall d | d in Under(t0, root) && d !in Under(t0, t0[m].lo)
      ensures !Same(text, d, p, n + 1)
    {
      if d in Under(t0, m) && Same(text, d, p, n + 1) {
        if d != m {
          assert Le(text, m, d, l) && Same(text, p, d, n + 1);
          Between(text, p, m, d, l, n + 1);
        }
        SameLess(text, p, m, len, n + 1);
      }
    }
  }
}
