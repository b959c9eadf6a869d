/** Circular doubly linked lists, as the kernel threads them through its objects. */
module Rings {
  import opened Seqs

  type Links = map<nat, nat>

  function Succ(k: nat, n: nat): nat
    requires k < n
  {
    if k + 1 < n then k + 1 else 0
  }

  /** `b` comes right after `a`. */
  ghost predicate Step(next: Links, prev: Links, a: nat, b: nat)
  {
    a in next && next[a] == b && b in prev && prev[b] == a
  }

  ghost predicate StepAt(next: Links, prev: Links, ring: seq<nat>, k: nat)
    requires k < |ring|
  {
    Step(next, prev, ring[k], ring[Succ(k, |ring|)])
  }

  /** Following `next` goes once around `ring`, following `prev` goes back. */
  ghost predicate Ring(next: Links, prev: Links, ring: seq<nat>)
  {
    Distinct(ring) && forall k: nat | k < |ring| :: StepAt(next, prev, ring, k)
  }

  /** Two rings along the same links that start together go the same way. */
  lemma {:induction false} SameWay(next: Links, prev: Links, a: seq<nat>, b: seq<nat>, k: nat)
    requires Ring(next, prev, a) && Ring(next, prev, b) && a != [] && k < |b| && a[0] == b[0]
    ensures k < |a| && a[k] == b[k]
    decreases k
  {
    if k > 0 {
      SameWay(next, prev, a, b, k - 1);
      assert StepAt(next, prev, a, k - 1) && StepAt(next, prev, b, k - 1);
    }
  }

  /** Links `x` in behind `p`. */
  function InsertNext(next: Links, p: nat, x: nat): Links
    requires p in next
  {
    next[x := next[p]][p := x]
  }

  function InsertPrev(next: Links, prev: Links, p: nat, x: nat): Links
    requires p in next
  {
    prev[x := p][next[p] := x]
  }

  ghost function Grown(ring: seq<nat>, k: nat, x: nat): seq<nat>
    requires k < |ring|
  {
    ring[..k + 1] + [x] + ring[k + 1..]
  }

  lemma GrownAt(ring: seq<nat>, k: nat, x: nat, i: nat)
    requires k < |ring| && i <= |ring|
    ensures |Grown(ring, k, x)| == |ring| + 1
    ensures Grown(ring, k, x)[i] == if i <= k then ring[i] else if i == k + 1 then x else ring[i - 1]
  {
  }

  lemma GrownDistinct(ring: seq<nat>, k: nat, x: nat)
    requires Distinct(ring) && k < |ring| && x !in ring
    ensures Distinct(Grown(ring, k, x))
  {
    var ring' := Grown(ring, k, x);
    forall i, j | 0 <= i < j < |ring'|
      ensures ring'[i] != ring'[j]
    {
      GrownAt(ring, k, x, i);
      GrownAt(ring, k, x, j);
    }
  }

  lemma Insert(next: Links, prev: Links, ring: seq<nat>, k: nat, x: nat)
    requires Ring(next, prev, ring) && k < |ring| && x !in ring
    ensures ring[k] in next
    ensures Ring(InsertNext(next, ring[k], x), InsertPrev(next, prev, ring[k], x), Grown(ring, k, x))
  {
    GrownDistinct(ring, k, x);
    var ring', n := Grown(ring, k, x), |ring|;
    assert StepAt(next, prev, ring, k);
    forall i: nat | i < |ring'|
      ensures StepAt(InsertNext(next, ring[k], x), InsertPrev(next, prev, ring[k], x), ring', i)
    {
      GrownAt(ring, k, x, i);
      GrownAt(ring, k, x, Succ(i, n + 1));
      if i != k && i != k + 1 {
        var o := if i < k then i else i - 1;
        assert StepAt(next, prev, ring, o);
        assert ring[o] != ring[k];
        assert ring[Succ(o, n)] != ring[Succ(k, n)];
      }
    }
  }

  /** Takes `x` out. */
  function RemoveNext(next: Links, prev: Links, x: nat): Links
    requires x in next && x in prev
  {
    next[prev[x] := next[x]]
  }

  function RemovePrev(next: Links, prev: Links, x: nat): Links
    requires x in next && x in prev
  {
    prev[next[x] := prev[x]]
  }

  ghost function Shrunk(ring: seq<nat>, k: nat): seq<nat>
    requires k < |ring|
  {
    ring[..k] + ring[k + 1..]
  }

  lemma ShrunkAt(ring: seq<nat>, k: nat, i: nat)
    requires k < |ring| && i < |ring| - 1
    ensures |Shrunk(ring, k)| == |ring| - 1 && Shrunk(ring, k)[i] == if i < k then ring[i] else ring[i + 1]
  {
  }

  lemma ShrunkDistinct(ring: seq<nat>, k: nat)
    requires Distinct(ring) && k < |ring|
    ensures Distinct(Shrunk(ring, k))
    ensures forall y :: y in Shrunk(ring, k) <==> y in ring && y != ring[k]
  {
    var ring' := Shrunk(ring, k);
    forall i, j | 0 <= i < j < |ring'|
      ensures ring'[i] != ring'[j]
    {
      ShrunkAt(ring, k, i);
      ShrunkAt(ring, k, j);
    }
    forall y | y in ring && y != ring[k]
      ensures y in ring'
    {
      var i :| 0 <= i < |ring| && ring[i] == y;
      if i < k {
        ShrunkAt(ring, k, i);
        assert ring'[i] == y;
      } else {
        ShrunkAt(ring, k, i - 1);
        assert ring'[i - 1] == y;
      }
    }
  }

  lemma RingPrev(next: Links, prev: Links, ring: seq<nat>, k: nat)
    requires Ring(next, prev, ring) && 0 < k < |ring|
    ensures ring[k] in next && ring[k] in prev && prev[ring[k]] == ring[k - 1]
    ensures next[ring[k]] == if k + 1 < |ring| then ring[k + 1] else ring[0]
  {
    assert StepAt(next, prev, ring, k - 1) && StepAt(next, prev, ring, k);
  }

  /** The first element is never taken out here: it is the head of the list. */
  lemma Remove(next: Links, prev: Links, ring: seq<nat>, k: nat)
    requires Ring(next, prev, ring) && 0 < k < |ring|
    ensures ring[k] in next && ring[k] in prev
    ensures Ring(RemoveNext(next, prev, ring[k]), RemovePrev(next, prev, ring[k]), Shrunk(ring, k))
  {
    RingPrev(next, prev, ring, k);
    ShrunkDistinct(ring, k);
    var ring', n := Shrunk(ring, k), |ring|;
    forall i: nat | i < |ring'|
      ensures StepAt(RemoveNext(next, prev, ring[k]), RemovePrev(next, prev, ring[k]), ring', i)
    {
      ShrunkAt(ring, k, i);
      ShrunkAt(ring, k, Succ(i, n - 1));
      if i != k - 1 {
        var o := if i < k then i else i + 1;
        assert StepAt(next, prev, ring, o);
        assert ring[o] != ring[k - 1];
        assert ring[Succ(o, n)] != ring[Succ(k, n)];
      }
    }
  }
}
