/**
 The lists of positions with the same hash: their heads, and the trees and chains
 that hang from the heads.  The window are the positions less than its size back.
 */
module HashLists {
  import opened Bytes
  import opened MatchTree
  import opened TreeContents
  import opened MatchHash

  predicate Live(x: int, cur: nat, size: nat)
  {
    0 <= x <= cur && cur - x < size
  }

  ghost function LivePositions(cur: nat, size: nat, last: int): set<int>
  {
    set x: int | 0 <= x <= last && Live(x, cur, size)
  }

  /** Position `x` belongs into list `j` of the heads. */
  ghost predicate Hashed(text: seq<Byte>, crc: Table, hashSize: nat, x: int, j: nat)
    requires hashSize > 0
  {
    && 0 <= x && x + 4 <= |text|
    && (j < FIX3_HASH_SIZE ==> Hash2(crc, text[x], text[x + 1]) == j)
    && (FIX3_HASH_SIZE <= j < FIX4_HASH_SIZE ==> Hash3(crc, text[x], text[x + 1], text[x + 2]) == j - FIX3_HASH_SIZE)
    && (FIX4_HASH_SIZE <= j ==> List4(text, crc, hashSize, x) == j)
  }

  /** The list of the tree or chain of position `x`. */
  ghost function List4(text: seq<Byte>, crc: Table, hashSize: nat, x: int): (j: nat)
    requires hashSize > 0 && 0 <= x && x + 4 <= |text|
    ensures FIX4_HASH_SIZE <= j < FIX4_HASH_SIZE + hashSize
  {
    FIX4_HASH_SIZE + Hash4(crc, hashSize, text[x], text[x + 1], text[x + 2], text[x + 3])
  }

  /** No position of the window before `upTo` that belongs into list `j` comes after `head`. */
  ghost predicate Latest(text: seq<Byte>, crc: Table, hashSize: nat, head: int, j: nat, cur: nat, size: nat, upTo: int)
    requires hashSize > 0
  {
    forall x: int | x < upTo && Live(x, cur, size) && Hashed(text, crc, hashSize, x, j) :: x <= head
  }

  /** A position that becomes the head of its own lists leaves the others alone. */
  lemma NewLatest(text: seq<Byte>, crc: Table, hashSize: nat, head: int, j: nat, cur: nat, size: nat)
    requires hashSize > 0
    ensures Latest(text, crc, hashSize, cur, j, cur, size, cur + 1)
    ensures Latest(text, crc, hashSize, head, j, cur, size, cur) && !Hashed(text, crc, hashSize, cur, j) ==>
            Latest(text, crc, hashSize, head, j, cur, size, cur + 1)
  {
    hide Hashed;
  }

  // ------------------------------------------------------------ what the trees hold

  ghost predicate SameList(text: seq<Byte>, crc: Table, hashSize: nat, x: int, y: int)
    requires hashSize > 0
  {
    && 0 <= x && x + 4 <= |text| && 0 <= y && y + 4 <= |text|
    && List4(text, crc, hashSize, x) == List4(text, crc, hashSize, y)
  }

  /** A tree holds positions of one list only. */
  ghost predicate Pure(t: Tree, text: seq<Byte>, crc: Table, hashSize: nat)
    requires hashSize > 0
  {
    forall x, d | x in t && d in Under(t, x) :: SameList(text, crc, hashSize, x, d)
  }

  /** `x`, or a later position that is the same for `l` bytes, is below `head`. */
  ghost predicate Represented(t: Tree, text: seq<Byte>, head: int, x: int, l: nat)
  {
    exists y :: y in Under(t, head) && x <= y && Same(text, x, y, l)
  }

  /** The tree list of `x` has a head at `head`. */
  ghost predicate ListHead(text: seq<Byte>, crc: Table, hashSize: nat, hash: seq<nat>, base: int, x: int, head: int)
    requires hashSize > 0
  {
    && 0 <= x && x + 4 <= |text| && |hash| == FIX4_HASH_SIZE + hashSize
    && head == hash[List4(text, crc, hashSize, x)] - base
  }

  /** Every position of the window before `upTo` that is not lost is represented in the tree of its list. */
  ghost predicate Complete(t: Tree, text: seq<Byte>, crc: Table, hashSize: nat, hash: seq<nat>, base: int, cur: nat,
                           size: nat, upTo: int, l: nat, lost: set<int>)
    requires hashSize > 0
  {
    forall x, head | x < upTo && Live(x, cur, size) && x !in lost
                     && ListHead(text, crc, hashSize, hash, base, x, head) ::
      Represented(t, text, head, x, l)
  }

  /** The heads of the tree lists that are in the trees are of their lists. */
  ghost predicate HeadsPure(t: Tree, text: seq<Byte>, crc: Table, hashSize: nat, hash: seq<nat>, base: int)
    requires hashSize > 0
  {
    forall x, head | ListHead(text, crc, hashSize, hash, base, x, head) && head in t ::
      SameList(text, crc, hashSize, x, head)
  }

  /** The positions of the list of `cur` that its tree does not represent. */
  ghost function Missing(t: Tree, text: seq<Byte>, crc: Table, hashSize: nat, cur: nat, size: nat, l: nat): set<int>
    requires hashSize > 0
  {
    set x: int | 0 <= x < cur && Live(x, cur, size) && SameList(text, crc, hashSize, x, cur)
                 && !Represented(t, text, cur, x, l)
  }

  lemma SameTrans(text: seq<Byte>, a: int, b: int, c: int, l: nat)
    requires Same(text, a, b, l) && Same(text, b, c, l)
    ensures Same(text, a, c, l)
  {
  }

  /** Trees none of whose nodes has changed hold the same. */
  lemma {:induction false} UnderSame(t0: Tree, t: Tree, x: int)
    requires forall y | y in Under(t0, x) && y in t0 :: y in t && t[y] == t0[y]
    ensures Under(t0, x) <= Under(t, x)
    decreases x
  {
    if x in t0 && x >= 0 {
      assert x in Under(t0, x);
      if t0[x].lo < x {
        UnderSame(t0, t, t0[x].lo);
      }
      if t0[x].hi < x {
        UnderSame(t0, t, t0[x].hi);
      }
    }
  }

  lemma PureInsert(t0: Tree, t: Tree, text: seq<Byte>, crc: Table, hashSize: nat, cur: nat, root: int, gone: set<int>)
    requires hashSize > 0 && Pure(t0, text, crc, hashSize) && Kept(t0, t, cur, root, gone) && cur + 4 <= |text|
    requires root in t0 ==> SameList(text, crc, hashSize, cur, root)
    ensures Pure(t, text, crc, hashSize)
  {
    hide List4;
    forall x, d | x in t && d in Under(t, x)
      ensures SameList(text, crc, hashSize, x, d)
    {
      if x == cur {
        if d != cur {
          UnderBelow(t0, root);
          assert d in Under(t0, root) && root in t0;
        }
      } else {
        assert d in Under(t0, x);
      }
    }
  }

  /** Trees of other lists do not change. */
  lemma OtherTree(t0: Tree, t: Tree, text: seq<Byte>, crc: Table, hashSize: nat, cur: nat, root: int, gone: set<int>,
                  head: int)
    requires hashSize > 0 && Pure(t0, text, crc, hashSize) && Kept(t0, t, cur, root, gone)
    requires head in t0 && root in t0 && !SameList(text, crc, hashSize, head, root)
    ensures Under(t0, head) <= Under(t, head)
  {
    hide List4, Under;
    UnderBelow(t0, head);
    forall y | y in Under(t0, head)
      ensures y in t && t[y] == t0[y]
    {
      if y in Under(t0, root) {
        OneTree(t0, text, crc, hashSize, head, root, y);
      }
    }
    UnderSame(t0, t, head);
  }

  lemma OneTree(t: Tree, text: seq<Byte>, crc: Table, hashSize: nat, a: int, b: int, y: int)
    requires hashSize > 0 && Pure(t, text, crc, hashSize) && a in t && b in t && y in Under(t, a) && y in Under(t, b)
    ensures SameList(text, crc, hashSize, a, b)
  {
    hide List4, Under;
    assert SameList(text, crc, hashSize, a, y) && SameList(text, crc, hashSize, b, y);
  }

  /** A position inserted at the top of the tree of its list: only positions of that list can get lost. */
  lemma InsertComplete(t0: Tree, t: Tree, text: seq<Byte>, crc: Table, hashSize: nat, hash: seq<nat>, hash': seq<nat>,
                       base: int, cur: nat, size: nat, l: nat, lost: set<int>, root: int, gone: set<int>)
    requires hashSize > 0 && Pure(t0, text, crc, hashSize) && Kept(t0, t, cur, root, gone) && 4 <= l
             && cur + l <= |text|
    requires HeadsPure(t0, text, crc, hashSize, hash, base) && ListHead(text, crc, hashSize, hash, base, cur, root)
    requires |hash'| == |hash| && ListHead(text, crc, hashSize, hash', base, cur, cur)
    requires forall j | FIX4_HASH_SIZE <= j < |hash| && j != List4(text, crc, hashSize, cur) :: hash'[j] == hash[j]
    requires Complete(t0, text, crc, hashSize, hash, base, cur, size, cur, l, lost)
    ensures Complete(t, text, crc, hashSize, hash', base, cur, size, cur + 1, l,
                     lost + Missing(t, text, crc, hashSize, cur, size, l))
    ensures (forall d | d in gone && d in Under(t0, root) :: Same(text, d, cur, l)) ==>
              Missing(t, text, crc, hashSize, cur, size, l) <= lost
  {
    hide List4, Under, Same;
    forall x, head | x < cur + 1 && Live(x, cur, size) && x !in lost + Missing(t, text, crc, hashSize, cur, size, l)
                     && ListHead(text, crc, hashSize, hash', base, x, head)
      ensures Represented(t, text, head, x, l)
    {
      if x == cur {
        TopItself(t0, t, cur, root, gone);
        SameItself(text, cur, l);
      } else if !SameList(text, crc, hashSize, x, cur) {
        assert ListHead(text, crc, hashSize, hash, base, x, head);
        OtherRepresented(t0, t, text, crc, hashSize, hash, base, cur, l, root, gone, x, head);
      }
    }
    if forall d | d in gone && d in Under(t0, root) :: Same(text, d, cur, l) {
      forall x | x in Missing(t, text, crc, hashSize, cur, size, l)
        ensures x in lost
      {
        if x !in lost {
          assert ListHead(text, crc, hashSize, hash, base, x, root);
          StillRepresented(t0, t, text, cur, l, root, gone, x);
        }
      }
    }
  }

  lemma TopItself(t0: Tree, t: Tree, cur: nat, root: int, gone: set<int>)
    requires Kept(t0, t, cur, root, gone)
    ensures cur in Under(t, cur)
  {
  }

  lemma SameItself(text: seq<Byte>, cur: nat, l: nat)
    requires cur + l <= |text|
    ensures Same(text, cur, cur, l)
  {
  }

  lemma OtherRepresented(t0: Tree, t: Tree, text: seq<Byte>, crc: Table, hashSize: nat, hash: seq<nat>, base: int,
                         cur: nat, l: nat, root: int, gone: set<int>, x: int, head: int)
    requires hashSize > 0 && Pure(t0, text, crc, hashSize) && Kept(t0, t, cur, root, gone) && cur + 4 <= |text|
    requires HeadsPure(t0, text, crc, hashSize, hash, base) && ListHead(text, crc, hashSize, hash, base, cur, root)
    requires ListHead(text, crc, hashSize, hash, base, x, head) && !SameList(text, crc, hashSize, x, cur)
    requires Represented(t0, text, head, x, l)
    ensures Represented(t, text, head, x, l)
  {
    hide List4, Under, Same;
    var y :| y in Under(t0, head) && x <= y && Same(text, x, y, l);
    InTree(t0, head, y);
    if root in t0 {
      OtherTree(t0, t, text, crc, hashSize, cur, root, gone, head);
    } else {
      InNoTree(t0, root);
      UnderSame(t0, t, head);
    }
  }

  lemma InTree(t: Tree, head: int, y: int)
    requires y in Under(t, head)
    ensures head in t && y in t
  {
    UnderBelow(t, head);
  }

  lemma InNoTree(t: Tree, root: int)
    requires root !in t
    ensures Under(t, root) == {}
  {
  }

  lemma StillRepresented(t0: Tree, t: Tree, text: seq<Byte>, cur: nat, l: nat, root: int, gone: set<int>, x: int)
    requires Kept(t0, t, cur, root, gone) && forall d | d in gone && d in Under(t0, root) :: Same(text, d, cur, l)
    requires Represented(t0, text, root, x, l) && x <= cur
    ensures Represented(t, text, cur, x, l)
  {
    hide Under, Same;
    var y :| y in Under(t0, root) && x <= y && Same(text, x, y, l);
    if y in gone {
      SameTrans(text, x, y, cur, l);
      TopItself(t0, t, cur, root, gone);
    }
  }

  // ------------------------------------------------------------ moving on

  /** `t'` has the nodes of `t` from some position on, and the links between them. */
  ghost predicate LaterPart(t: Tree, t': Tree)
  {
    && (forall x | x in t' :: x in t) && (forall x, y | x in t' && y in t && x <= y :: y in t')
    && (forall x | x in t' && t[x].lo in t' :: t'[x].lo == t[x].lo)
    && (forall x | x in t' && t[x].hi in t' :: t'[x].hi == t[x].hi)
  }

  lemma {:induction false} LaterUnder(t: Tree, t': Tree, head: int, y: int)
    requires LaterPart(t, t') && y in Under(t, head) && y in t'
    ensures y in Under(t', head)
    decreases head
  {
    UnderBelow(t, head);
    assert head in t';
    if y != head {
      if t[head].lo < head && y in Under(t, t[head].lo) {
        UnderBelow(t, t[head].lo);
        LaterUnder(t, t', t[head].lo, y);
      } else {
        UnderBelow(t, t[head].hi);
        LaterUnder(t, t', t[head].hi, y);
      }
    }
  }

  /** When the window moves on and fewer bytes count, positions in it stay represented. */
  lemma MoveRepresented(t: Tree, t': Tree, text: seq<Byte>, head: int, x: int, l: nat, l': nat)
    requires LaterPart(t, t') && Represented(t, text, head, x, l) && x in t' && l' <= l
    ensures Represented(t', text, head, x, l')
  {
    hide Under, Same;
    var y :| y in Under(t, head) && x <= y && Same(text, x, y, l);
    InTree(t, head, y);
    LaterUnder(t, t', head, y);
    SameLess(text, x, y, l', l);
  }

  lemma ShrunkPure(t: Tree, t': Tree, text: seq<Byte>, l: nat, crc: Table, hashSize: nat)
    requires hashSize > 0 && Ordered(t, text, l) && Shrunk(t, t') && Pure(t, text, crc, hashSize)
    ensures Pure(t', text, crc, hashSize)
  {
    hide Under, Le, SameList;
    forall x, d | x in t' && d in Under(t', x)
      ensures SameList(text, crc, hashSize, x, d)
    {
      ShrunkUnder(t, t', text, l, x);
    }
  }

  // ------------------------------------------------------------ chains

  /** The link of `x` leads to the latest position of the window before it with the same hash. */
  ghost predicate Chained(text: seq<Byte>, crc: Table, hashSize: nat, x: int, link: int, cur: nat, size: nat)
    requires hashSize > 0
  {
    && link < x && (Live(link, cur, size) ==> SameList(text, crc, hashSize, x, link))
    && (forall y: int | y < x && Live(y, cur, size) && SameList(text, crc, hashSize, x, y) :: y <= link)
  }

  /** The positions of the window after `above` with the hash of the current one. */
  ghost function Candidates(text: seq<Byte>, crc: Table, hashSize: nat, cur: nat, size: nat, above: int): set<int>
    requires hashSize > 0
  {
    set y: int | 0 <= y < cur && above < y && Live(y, cur, size) && SameList(text, crc, hashSize, cur, y)
  }

  /** No candidate after `above` has a match of more than `most` bytes. */
  ghost predicate Checked(text: seq<Byte>, crc: Table, hashSize: nat, cur: nat, size: nat, above: int, most: nat,
                          l: nat)
    requires hashSize > 0
  {
    forall y, n: nat | y in Candidates(text, crc, hashSize, cur, size, above) && n <= l && Same(text, y, cur, n) ::
      n <= most
  }

  /** None of the first `count` candidates, from the latest on, has a match of more than `most` bytes. */
  ghost predicate LongestOfFirst(text: seq<Byte>, crc: Table, hashSize: nat, cur: nat, size: nat, count: nat, most: nat,
                                 l: nat)
    requires hashSize > 0
  {
    forall y, n: nat |
      && y in Candidates(text, crc, hashSize, cur, size, -1)
      && |Candidates(text, crc, hashSize, cur, size, y)| < count && n <= l && Same(text, y, cur, n) ::
      n <= most
  }

  /** Following the link of a candidate leads past no other. */
  lemma NextCandidate(text: seq<Byte>, crc: Table, hashSize: nat, m: int, link: int, cur: nat, size: nat)
    requires hashSize > 0 && m < cur && Live(m, cur, size) && SameList(text, crc, hashSize, cur, m)
    requires Chained(text, crc, hashSize, m, link, cur, size)
    ensures Candidates(text, crc, hashSize, cur, size, link)
            == Candidates(text, crc, hashSize, cur, size, m) + {m}
    ensures |Candidates(text, crc, hashSize, cur, size, link)| == |Candidates(text, crc, hashSize, cur, size, m)| + 1
  {
    hide List4;
    var a, b := Candidates(text, crc, hashSize, cur, size, m), Candidates(text, crc, hashSize, cur, size, link);
    assert b == a + {m} && m !in a;
  }

  /** The head of its list leads past no candidate. */
  lemma NoneAfterHead(text: seq<Byte>, crc: Table, hashSize: nat, head: int, cur: nat, size: nat)
    requires hashSize > 0 && 0 <= cur && cur + 4 <= |text| && Chained(text, crc, hashSize, cur, head, cur, size)
    ensures Candidates(text, crc, hashSize, cur, size, head) == {}
  {
    hide List4;
  }

  lemma CheckedOne(text: seq<Byte>, crc: Table, hashSize: nat, m: int, link: int, cur: nat, size: nat, most: nat,
                   most': nat, l: nat)
    requires hashSize > 0 && Checked(text, crc, hashSize, cur, size, m, most, l) && most <= most'
    requires Candidates(text, crc, hashSize, cur, size, link) == Candidates(text, crc, hashSize, cur, size, m) + {m}
    requires forall n: nat | n <= l && Same(text, m, cur, n) :: n <= most'
    ensures Checked(text, crc, hashSize, cur, size, link, most', l)
  {
    hide Candidates, Same;
  }

  /** The search stopped at `at`: at the end of the chain, or after `count` steps. */
  lemma CheckedFirst(text: seq<Byte>, crc: Table, hashSize: nat, at: int, cur: nat, size: nat, count: nat, most: nat,
                     l: nat)
    requires hashSize > 0 && Checked(text, crc, hashSize, cur, size, at, most, l)
    requires at < cur && (!Live(at, cur, size) || |Candidates(text, crc, hashSize, cur, size, at)| == count)
    ensures LongestOfFirst(text, crc, hashSize, cur, size, count, most, l)
  {
    hide Same, List4;
    forall y, n: nat |
      && y in Candidates(text, crc, hashSize, cur, size, -1)
      && |Candidates(text, crc, hashSize, cur, size, y)| < count && n <= l && Same(text, y, cur, n)
      ensures n <= most
    {
      if y <= at && Live(at, cur, size) {
        Fewer(Candidates(text, crc, hashSize, cur, size, at), Candidates(text, crc, hashSize, cur, size, y));
      }
      assert y in Candidates(text, crc, hashSize, cur, size, at);
    }
  }

  lemma Fewer(a: set<int>, b: set<int>)
    requires a <= b
    ensures |a| <= |b|
  {
    assert a + (b - a) == b;
  }

  lemma AllChecked(text: seq<Byte>, crc: Table, hashSize: nat, cur: nat, size: nat, count: nat, most: nat, l: nat)
    requires hashSize > 0 && most >= l
    ensures LongestOfFirst(text, crc, hashSize, cur, size, count, most, l)
  {
    hide Candidates, Same;
  }
}
