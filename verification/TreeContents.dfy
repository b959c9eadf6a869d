/**
 What inserting a position does to the contents of the trees: everything that
 was below the root is below the new position, but for what the walk did not get
 to and for a node that the new position takes the place of; other trees do not
 change.
 */
module TreeContents {
  import opened Bytes
  import opened MatchTree

  /** The link of `y` on the smaller side is still to be set. */
  predicate OpenLo(p: int, k: Walk, y: int)
  {
    if y == p then k.s == p else k.g == y
  }

  predicate OpenHi(p: int, k: Walk, y: int)
  {
    if y == p then k.g == p else k.s == y
  }

  /** `x` hangs below `y` by a link that is set for good. */
  ghost predicate Linked(t: Tree, p: int, k: Walk, y: int, x: int)
  {
    y in t && x < y && ((t[y].lo == x && !OpenLo(p, k, y)) || (t[y].hi == x && !OpenHi(p, k, y)))
  }

  /** Every node of `part` hangs below another one of them, or below `p`. */
  ghost predicate Hung(t: Tree, p: int, k: Walk, part: set<int>)
  {
    forall x | x in part :: exists y :: (y in part || y == p) && Linked(t, p, k, y, x)
  }

  /** What was below `root` is hung up or still below the node looked at, and nothing else has changed. */
  ghost predicate Gathered(t0: Tree, t: Tree, p: int, root: int, k: Walk, sides: Sides)
  {
    && Hung(t, p, k, sides.low + sides.high)
    && sides.low + sides.high <= Under(t0, root) <= sides.low + sides.high + Under(t0, k.cur)
    && sides.low !! sides.high && (sides.low + sides.high) !! Under(t0, k.cur)
    && (k.cur in t0 ==> k.cur in Under(t0, root))
    && (forall x | x in t0 && x !in Under(t0, root) :: x in t && t[x] == t0[x])
  }

  /** No node hangs on both sides of another. */
  ghost predicate Forest(t: Tree)
  {
    forall x | x in t :: Under(t, t[x].lo) !! Under(t, t[x].hi)
  }

  lemma GatherStarts(t0: Tree, t: Tree, p: int, root: int)
    requires t.Keys == t0.Keys + {p} && p !in t0 && forall x | x in t0 :: x >= 0 && t[x] == t0[x]
    ensures Gathered(t0, t, p, root, Walk(root, p, p, 0, 0), Sides({}, {}))
  {
  }

  // ------------------------------------------------------------ a step

  /** Below the top everything hangs below something. */
  lemma {:induction false} UnderParent(t0: Tree, top: int, x: int)
    requires x in Under(t0, top) && x != top
    ensures exists y :: y in Under(t0, top) && x < y && y in t0 && (t0[y].lo == x || t0[y].hi == x)
    decreases top
  {
    UnderBelow(t0, top);
    assert top in Under(t0, top);
    var child := if t0[top].lo < top && x in Under(t0, t0[top].lo) then t0[top].lo else t0[top].hi;
    assert child < top && x in Under(t0, child);
    if x != child {
      UnderParent(t0, child, x);
      UnderTrans(t0, top, child);
    }
  }

  lemma ChildIn(t0: Tree, m: int)
    requires m in t0 && m >= 0 && t0[m].lo < m && t0[m].hi < m && forall x | x in t0 :: x >= 0
    ensures Under(t0, m) == {m} + Under(t0, t0[m].lo) + Under(t0, t0[m].hi)
    ensures t0[m].lo in t0 ==> t0[m].lo in Under(t0, t0[m].lo)
    ensures t0[m].hi in t0 ==> t0[m].hi in Under(t0, t0[m].hi)
  {
  }

  /** What hangs below a node that was not passed stays hung, with that node on top. */
  lemma BelowHung(t0: Tree, t: Tree, p: int, k: Walk, top: int, cur: int)
    requires Rewired(t0, t, p, cur) && top <= cur && top < k.s && top < k.g && top < p
    ensures forall x | x in Under(t0, top) && x != top :: exists y :: y in Under(t0, top) && Linked(t, p, k, y, x)
  {
    hide Under;
    UnderBelow(t0, top);
    forall x | x in Under(t0, top) && x != top
      ensures exists y :: y in Under(t0, top) && Linked(t, p, k, y, x)
    {
      UnderParent(t0, top, x);
      var y :| y in Under(t0, top) && x < y && y in t0 && (t0[y].lo == x || t0[y].hi == x);
      assert Linked(t, p, k, y, x);
    }
  }

  /** A link that is set for good stays when an open one is filled with `m` and one of `m` is opened. */
  lemma StaysSmaller(t: Tree, p: int, k: Walk, m: int, y: int, x: int)
    requires k.s in t && m != p && y != m && Linked(t, p, k, y, x)
    ensures Linked(SetSmaller(t, p, k, m), p, k.(s := m), y, x)
  {
  }

  lemma StaysLarger(t: Tree, p: int, k: Walk, m: int, y: int, x: int)
    requires k.g in t && m != p && y != m && Linked(t, p, k, y, x)
    ensures Linked(SetLarger(t, p, k, m), p, k.(g := m), y, x)
  {
  }

  /** The filled link, and the one of `m` that stays as it is. */
  lemma LinksSmaller(t: Tree, p: int, k: Walk, m: int)
    requires k.s in t && m in t && m != p && m < k.s && m != k.g && t[m].lo < m
    ensures Linked(SetSmaller(t, p, k, m), p, k.(s := m), k.s, m)
    ensures Linked(SetSmaller(t, p, k, m), p, k.(s := m), m, t[m].lo)
  {
  }

  lemma LinksLarger(t: Tree, p: int, k: Walk, m: int)
    requires k.g in t && m in t && m != p && m < k.g && m != k.s && t[m].hi < m
    ensures Linked(SetLarger(t, p, k, m), p, k.(g := m), k.g, m)
    ensures Linked(SetLarger(t, p, k, m), p, k.(g := m), m, t[m].hi)
  {
  }

  /** `part` is hung up, and `below` as well but for its top. */
  ghost predicate HungBelow(t: Tree, p: int, k: Walk, below: set<int>, top: int)
  {
    forall x | x in below && x != top :: exists y :: y in below && Linked(t, p, k, y, x)
  }

  lemma HungSmaller(t: Tree, p: int, k: Walk, m: int, part: set<int>, below: set<int>)
    requires k.s in t && m in t && m != p && m < k.s && m != k.g && t[m].lo < m
    requires Hung(t, p, k, part) && HungBelow(t, p, k, below, t[m].lo)
    requires m !in part && m !in below && (k.s == p || k.s in part)
    ensures Hung(SetSmaller(t, p, k, m), p, k.(s := m), part + {m} + below)
  {
    hide Linked, SetSmaller;
    var t', k', all := SetSmaller(t, p, k, m), k.(s := m), part + {m} + below;
    LinksSmaller(t, p, k, m);
    forall x | x in all
      ensures exists y :: (y in all || y == p) && Linked(t', p, k', y, x)
    {
      if x in part {
        var y :| (y in part || y == p) && Linked(t, p, k, y, x);
        StaysSmaller(t, p, k, m, y, x);
      } else if x in below && x != t[m].lo {
        var y :| y in below && Linked(t, p, k, y, x);
        StaysSmaller(t, p, k, m, y, x);
      }
    }
  }

  lemma HungLarger(t: Tree, p: int, k: Walk, m: int, part: set<int>, below: set<int>)
    requires k.g in t && m in t && m != p && m < k.g && m != k.s && t[m].hi < m
    requires Hung(t, p, k, part) && HungBelow(t, p, k, below, t[m].hi)
    requires m !in part && m !in below && (k.g == p || k.g in part)
    ensures Hung(SetLarger(t, p, k, m), p, k.(g := m), part + {m} + below)
  {
    hide Linked, SetLarger;
    var t', k', all := SetLarger(t, p, k, m), k.(g := m), part + {m} + below;
    LinksLarger(t, p, k, m);
    forall x | x in all
      ensures exists y :: (y in all || y == p) && Linked(t', p, k', y, x)
    {
      if x in part {
        var y :| (y in part || y == p) && Linked(t, p, k, y, x);
        StaysLarger(t, p, k, m, y, x);
      } else if x in below && x != t[m].hi {
        var y :| y in below && Linked(t, p, k, y, x);
        StaysLarger(t, p, k, m, y, x);
      }
    }
  }

  /** Only the open links count. */
  lemma HungAnyCur(t: Tree, p: int, k: Walk, k': Walk, part: set<int>)
    requires Hung(t, p, k, part) && k.s == k'.s && k.g == k'.g
    ensures Hung(t, p, k', part)
  {
    forall x | x in part
      ensures exists y :: (y in part || y == p) && Linked(t, p, k', y, x)
    {
      var y :| (y in part || y == p) && Linked(t, p, k, y, x);
      assert Linked(t, p, k', y, x);
    }
  }

  /** Facts of a walk that the contents need. */
  lemma WalkPlace(t0: Tree, t: Tree, text: seq<Byte>, l: nat, p: int, k: Walk, sides: Sides)
    requires Walking(t0, t, text, l, p, k, sides)
    ensures p in t && k.s in t && k.g in t && k.cur < k.s && k.cur < k.g && k.cur < p && Rewired(t0, t, p, k.cur)
    ensures (k.s == p || k.s in sides.low) && (k.g == p || k.g in sides.high) && p !in sides.low + sides.high
    ensures k.cur in t0 ==> t[k.cur] == t0[k.cur] && k.cur in t && k.cur >= 0 && t0[k.cur].lo < k.cur
                            && t0[k.cur].hi < k.cur
    ensures forall x | x in t0 :: x >= 0 && t0[x].lo < x && t0[x].hi < x
  {
  }

  lemma UnderIn(t0: Tree, root: int, m: int)
    requires m in Under(t0, root) && m in t0 && t0[m].lo < m && t0[m].hi < m && forall x | x in t0 :: x >= 0
    ensures Under(t0, m) <= Under(t0, root)
    ensures t0[m].lo in t0 ==> t0[m].lo in Under(t0, root)
    ensures t0[m].hi in t0 ==> t0[m].hi in Under(t0, root)
  {
    UnderTrans(t0, root, m);
    ChildIn(t0, m);
  }

  /** The node looked at goes to the smaller side, with what hangs below it there. */
  lemma GatherSmaller(t0: Tree, t: Tree, text: seq<Byte>, l: nat, p: int, root: int, k: Walk, sides: Sides, len: nat)
    requires Walking(t0, t, text, l, p, k, sides) && Gathered(t0, t, p, root, k, sides) && Forest(t0) && k.cur in t0
    ensures k.s in t
    ensures Gathered(t0, SetSmaller(t, p, k, k.cur), p, root, k.(cur := t0[k.cur].hi, s := k.cur, len1 := len),
                     sides.(low := sides.low + {k.cur} + Under(t0, t0[k.cur].lo)))
  {
    hide Under, Hung, Walking, Rewired;
    var m, part := k.cur, sides.low + sides.high;
    WalkPlace(t0, t, text, l, p, k, sides);
    ChildIn(t0, m);
    UnderIn(t0, root, m);
    UnderBelow(t0, t0[m].lo);
    UnderBelow(t0, t0[m].hi);
    BelowHung(t0, t, p, k, t0[m].lo, m);
    HungSmaller(t, p, k, m, part, Under(t0, t0[m].lo));
    var low := sides.low + {m} + Under(t0, t0[m].lo);
    assert part + {m} + Under(t0, t0[m].lo) == low + sides.high;
    HungAnyCur(SetSmaller(t, p, k, m), p, k.(s := m), k.(cur := t0[m].hi, s := m, len1 := len), low + sides.high);
  }

  lemma GatherLarger(t0: Tree, t: Tree, text: seq<Byte>, l: nat, p: int, root: int, k: Walk, sides: Sides, len: nat)
    requires Walking(t0, t, text, l, p, k, sides) && Gathered(t0, t, p, root, k, sides) && Forest(t0) && k.cur in t0
    ensures k.g in t
    ensures Gathered(t0, SetLarger(t, p, k, k.cur), p, root, k.(cur := t0[k.cur].lo, g := k.cur, len0 := len),
                     sides.(high := sides.high + {k.cur} + Under(t0, t0[k.cur].hi)))
  {
    hide Under, Hung, Walking, Rewired;
    var m, part := k.cur, sides.low + sides.high;
    WalkPlace(t0, t, text, l, p, k, sides);
    ChildIn(t0, m);
    UnderIn(t0, root, m);
    UnderBelow(t0, t0[m].lo);
    UnderBelow(t0, t0[m].hi);
    BelowHung(t0, t, p, k, t0[m].hi, m);
    HungLarger(t, p, k, m, part, Under(t0, t0[m].hi));
    var high := sides.high + {m} + Under(t0, t0[m].hi);
    assert part + {m} + Under(t0, t0[m].hi) == sides.low + high;
    HungAnyCur(SetLarger(t, p, k, m), p, k.(g := m), k.(cur := t0[m].lo, g := m, len0 := len), sides.low + high);
  }

  // ------------------------------------------------------------ the end of the walk

  /** All links are set. */
  ghost predicate Rooted(t: Tree, p: int, part: set<int>)
  {
    forall x | x in part :: exists y :: (y in part || y == p) && y in t && x < y && (t[y].lo == x || t[y].hi == x)
  }

  /** What hangs below `p` by links is below `p`. */
  lemma {:induction false} RootedUnder(t: Tree, p: int, part: set<int>, x: int)
    requires Rooted(t, p, part) && x in part && p in t && 0 <= x <= p && p !in part
    requires forall y | y in part :: y in t && 0 <= y < p
    ensures x in Under(t, p)
    decreases p - x
  {
    var y :| (y in part || y == p) && y in t && x < y && (t[y].lo == x || t[y].hi == x);
    assert x in Under(t, y);
    if y != p {
      RootedUnder(t, p, part, y);
      UnderTrans(t, p, y);
    }
  }

  /** A link that is set for good stays when the walk is closed. */
  lemma StaysClosed(t: Tree, p: int, k: Walk, a: int, b: int, y: int, x: int)
    requires k.s in t && k.g in t && Linked(t, p, k, y, x)
    ensures var tF := Close(t, p, k, a, b); y in tF && (tF[y].lo == x || tF[y].hi == x)
  {
  }

  /** The links that close the walk. */
  lemma ClosingLinks(t: Tree, p: int, k: Walk, a: int, b: int)
    requires k.s in t && k.g in t && (k.s == p || k.s != k.g)
    ensures var tF := Close(t, p, k, a, b);
            && k.s in tF && (tF[k.s].lo == a || tF[k.s].hi == a)
            && k.g in tF && (tF[k.g].lo == b || tF[k.g].hi == b)
  {
  }

  lemma CloseRooted(t: Tree, p: int, k: Walk, a: int, b: int, part: set<int>, belowA: set<int>, belowB: set<int>)
    requires k.s in t && k.g in t && (k.s == p || k.s != k.g) && a < k.s && b < k.g
    requires Hung(t, p, k, part) && HungBelow(t, p, k, belowA, a) && HungBelow(t, p, k, belowB, b)
    requires (k.s == p || k.s in part) && (k.g == p || k.g in part)
    ensures Rooted(Close(t, p, k, a, b), p, part + belowA + belowB)
  {
    hide Linked, Close;
    var tF, all := Close(t, p, k, a, b), part + belowA + belowB;
    ClosingLinks(t, p, k, a, b);
    forall x | x in all
      ensures exists y :: (y in all || y == p) && y in tF && x < y && (tF[y].lo == x || tF[y].hi == x)
    {
      if x in part {
        var y :| (y in part || y == p) && Linked(t, p, k, y, x);
        LinkDown(t, p, k, y, x);
        StaysClosed(t, p, k, a, b, y, x);
      } else if x in belowA {
        if x != a {
          var y :| y in belowA && Linked(t, p, k, y, x);
          LinkDown(t, p, k, y, x);
          StaysClosed(t, p, k, a, b, y, x);
        }
      } else if x != b {
        var y :| y in belowB && Linked(t, p, k, y, x);
        LinkDown(t, p, k, y, x);
        StaysClosed(t, p, k, a, b, y, x);
      }
    }
  }

  lemma LinkDown(t: Tree, p: int, k: Walk, y: int, x: int)
    requires Linked(t, p, k, y, x)
    ensures x < y && y in t
  {
  }

  /** How the walk may end: with empty links, or with those of the node looked at. */
  ghost predicate Ending(t0: Tree, k: Walk, a: int, b: int)
  {
    (a !in t0 && b !in t0) || (k.cur in t0 && a == t0[k.cur].lo && b == t0[k.cur].hi)
  }

  /** What is not below the new position any more. */
  ghost function Gone(t0: Tree, k: Walk, a: int, b: int): set<int>
  {
    if a !in t0 && b !in t0 then Under(t0, k.cur) else {k.cur}
  }

  /** All that was below `root` but for `gone` is below `p`, and no node that was not below `root` has changed. */
  ghost predicate Kept(t0: Tree, tF: Tree, p: int, root: int, gone: set<int>)
  {
    && Under(t0, root) - gone <= Under(tF, p) <= {p} + Under(t0, root)
    && tF.Keys == t0.Keys + {p} && (forall x | x in t0 && x !in Under(t0, root) :: tF[x] == t0[x])
    && (forall x | x in t0 :: Under(tF, x) <= Under(t0, x))
  }

  lemma ClosedKeeps(t0: Tree, t: Tree, text: seq<Byte>, l: nat, p: int, root: int, k: Walk, sides: Sides, a: int,
                    b: int)
    requires Walking(t0, t, text, l, p, k, sides) && Gathered(t0, t, p, root, k, sides) && Forest(t0)
    requires Fits(t0, text, l, p, k, a, b) && Ending(t0, k, a, b)
    ensures k.s in t && k.g in t
    ensures Kept(t0, Close(t, p, k, a, b), p, root, Gone(t0, k, a, b)) && Forest(Close(t, p, k, a, b))
  {
    hide Under, Hung, Walking, Rewired, Gathered, Fits, Close, Forest, Rooted, Gone;
    WalkPlace(t0, t, text, l, p, k, sides);
    OldBelow(t0, t, p, k.cur);
    EndParts(t0, text, l, p, root, k, sides, t, a, b);
    ClosedWhole(t0, t, text, l, p, k, sides, a, b, root);
    ClosedFrame(t0, t, p, root, k, sides, a, b);
    var tF := Close(t, p, k, a, b);
    CloseLow(t0, t, text, l, p, k, sides, a, b);
    CloseHigh(t0, t, text, l, p, k, sides, a, b);
    CloseRewired(t0, t, text, l, p, k, sides, a, b);
    var low :| low <= k.cur && Rewired(t0, tF, p, low);
    TopUnder(tF, p);
    RewiredForest(t0, tF, p, low);
  }

  lemma TopUnder(t: Tree, p: int)
    requires p in t
    ensures Under(t, p) <= {p} + Under(t, t[p].lo) + Under(t, t[p].hi)
  {
  }

  /** The old nodes have less below them, and so nothing on both sides. */
  lemma RewiredForest(t0: Tree, tF: Tree, p: int, cur: int)
    requires Rewired(t0, tF, p, cur) && Forest(t0) && Under(tF, tF[p].lo) !! Under(tF, tF[p].hi)
    requires forall y | y in t0 :: t0[y].lo < y && t0[y].hi < y
    ensures Forest(tF) && forall x | x in t0 :: Under(tF, x) <= Under(t0, x)
  {
    hide Under;
    forall x | x in t0
      ensures Under(tF, x) <= Under(t0, x) && Under(tF, tF[x].lo) !! Under(tF, tF[x].hi)
    {
      RewiredUnder(t0, tF, p, cur, x);
      RewiredUnder(t0, tF, p, cur, tF[x].lo);
      RewiredUnder(t0, tF, p, cur, tF[x].hi);
    }
  }

  /** How the parts of the old tree lie at the end. */
  lemma EndParts(t0: Tree, text: seq<Byte>, l: nat, p: int, root: int, k: Walk, sides: Sides, t: Tree, a: int, b: int)
    requires Walking(t0, t, text, l, p, k, sides) && Gathered(t0, t, p, root, k, sides) && Forest(t0)
             && Ending(t0, k, a, b)
    ensures Under(t0, a) <= Under(t0, root) && Under(t0, b) <= Under(t0, root) && Under(t0, a) !! Under(t0, b)
    ensures (sides.low + sides.high) !! Under(t0, a) && (sides.low + sides.high) !! Under(t0, b)
    ensures Under(t0, root) - Gone(t0, k, a, b) <= sides.low + sides.high + Under(t0, a) + Under(t0, b)
    ensures sides.low !! sides.high && sides.low + sides.high <= Under(t0, root)
  {
    hide Hung, Walking, Rewired;
    WalkPlace(t0, t, text, l, p, k, sides);
    if a in t0 || b in t0 {
      ChildIn(t0, k.cur);
      UnderIn(t0, root, k.cur);
    }
  }

  lemma ClosedWhole(t0: Tree, t: Tree, text: seq<Byte>, l: nat, p: int, k: Walk, sides: Sides, a: int, b: int,
                    root: int)
    requires Walking(t0, t, text, l, p, k, sides) && Gathered(t0, t, p, root, k, sides)
    requires Fits(t0, text, l, p, k, a, b) && k.s in t && k.g in t
    ensures sides.low + sides.high + Under(t0, a) + Under(t0, b) <= Under(Close(t, p, k, a, b), p)
  {
    hide Under, Hung, Rooted, Rewired, Close, HungBelow, Fits, Walking, Linked;
    var tF, part := Close(t, p, k, a, b), sides.low + sides.high;
    var all := part + Under(t0, a) + Under(t0, b);
    WalkPlace(t0, t, text, l, p, k, sides);
    EndBelow(t0, text, l, p, k, a, b);
    BelowHungAt(t0, t, p, k, a);
    BelowHungAt(t0, t, p, k, b);
    CloseKeys(t, p, k, a, b);
    CloseRooted(t, p, k, a, b, part, Under(t0, a), Under(t0, b));
    UnderBelow(t0, root);
    UnderBelow(t0, a);
    UnderBelow(t0, b);
    OldBelow(t0, t, p, k.cur);
    forall x | x in all
      ensures x in Under(tF, p)
    {
      RootedUnder(tF, p, all, x);
    }
  }

  lemma EndBelow(t0: Tree, text: seq<Byte>, l: nat, p: int, k: Walk, a: int, b: int)
    requires Fits(t0, text, l, p, k, a, b)
    ensures a < p && b < p && (k.s != p ==> a < k.s) && (k.g != p ==> b < k.g)
    ensures (a in t0 ==> a <= k.cur) && (b in t0 ==> b <= k.cur)
  {
  }

  lemma OldBelow(t0: Tree, t: Tree, p: int, cur: int)
    requires Rewired(t0, t, p, cur)
    ensures p !in t0 && t.Keys == t0.Keys + {p} && forall x | x in t0 :: x < p
  {
  }

  lemma BelowHungAt(t0: Tree, t: Tree, p: int, k: Walk, a: int)
    requires Rewired(t0, t, p, k.cur) && (a in t0 ==> a <= k.cur) && k.cur < k.s && k.cur < k.g && k.cur < p
    ensures HungBelow(t, p, k, Under(t0, a), a)
  {
    if a in t0 {
      BelowHung(t0, t, p, k, a, k.cur);
    }
  }

  lemma CloseKeys(t: Tree, p: int, k: Walk, a: int, b: int)
    requires k.s in t && k.g in t
    ensures Close(t, p, k, a, b).Keys == t.Keys
    ensures forall x | x in t && x != p && x != k.s && x != k.g :: Close(t, p, k, a, b)[x] == t[x]
  {
  }

  lemma ClosedFrame(t0: Tree, t: Tree, p: int, root: int, k: Walk, sides: Sides, a: int, b: int)
    requires Gathered(t0, t, p, root, k, sides) && k.s in t && k.g in t && t.Keys == t0.Keys + {p} && p !in t0
    requires (k.s == p || k.s in sides.low) && (k.g == p || k.g in sides.high)
    ensures Close(t, p, k, a, b).Keys == t0.Keys + {p}
    ensures forall x | x in t0 && x !in Under(t0, root) :: Close(t, p, k, a, b)[x] == t0[x]
  {
    hide Hung, Under, Close;
    CloseKeys(t, p, k, a, b);
  }

  /** What is gone from below `root` is the same as `p` for `l` bytes. */
  ghost predicate Replaced(t0: Tree, text: seq<Byte>, p: int, root: int, gone: set<int>, l: nat)
  {
    forall d | d in gone && d in Under(t0, root) :: Same(text, d, p, l)
  }

  lemma OneReplaced(t0: Tree, text: seq<Byte>, p: int, root: int, k: Walk, l: nat)
    requires k.cur in t0 && Same(text, k.cur, p, l) && t0[k.cur].lo < k.cur && t0[k.cur].hi < k.cur
    ensures Replaced(t0, text, p, root, Gone(t0, k, t0[k.cur].lo, t0[k.cur].hi), l)
  {
    assert t0[k.cur].lo !in t0 && t0[k.cur].hi !in t0 ==> Under(t0, k.cur) <= {k.cur};
  }

  lemma NoneReplaced(t0: Tree, text: seq<Byte>, p: int, root: int, at: int, l: nat)
    requires at !in t0 || at < 0
    ensures Replaced(t0, text, p, root, Under(t0, at), l)
  {
  }

  lemma HeightChild(t0: Tree, m: int)
    requires m in t0 && m >= 0 && t0[m].lo < m && t0[m].hi < m
    ensures Height(t0, t0[m].lo) < Height(t0, m) && Height(t0, t0[m].hi) < Height(t0, m)
  {
  }

  lemma ShrunkForest(t: Tree, t': Tree, text: seq<Byte>, l: nat)
    requires Ordered(t, text, l) && Shrunk(t, t') && Forest(t)
    ensures Forest(t')
  {
    hide Under, Le;
    forall x | x in t'
      ensures Under(t', t'[x].lo) !! Under(t', t'[x].hi)
    {
      ShrunkUnder(t, t', text, l, t'[x].lo);
      ShrunkUnder(t, t', text, l, t'[x].hi);
      UnderBelow(t', t'[x].lo);
      UnderBelow(t', t'[x].hi);
      NoNode(t', t'[x].lo);
      NoNode(t', t'[x].hi);
    }
  }

  lemma NoNode(t: Tree, x: int)
    ensures x !in t ==> Under(t, x) == {}
  {
  }
}
