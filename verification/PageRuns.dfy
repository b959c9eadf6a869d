/** The page allocator of the slab: runs of free pages in order of address. */
module PageRuns {
  datatype Run = Run(addr: nat, n: nat)

  predicate Holds(r: Run, p: nat)
  {
    r.addr <= p < r.addr + r.n
  }

  /** Page `p` is free. */
  ghost predicate In(runs: seq<Run>, p: nat)
  {
    exists r | r in runs :: Holds(r, p)
  }

  /** `a` ends before `b` starts, with a page between them. */
  predicate Before(a: Run, b: Run)
  {
    a.addr + a.n < b.addr
  }

  /** Sorted, disjoint, and no two runs touch. */
  ghost predicate Good(runs: seq<Run>)
  {
    && (forall i, j | 0 <= i < j < |runs| :: Before(runs[i], runs[j]))
    && (forall r | r in runs :: r.n > 0)
  }

  /** All pages from `a` on, `n` of them, are free. */
  ghost predicate AllIn(runs: seq<Run>, a: nat, n: nat)
  {
    forall p | a <= p < a + n :: In(runs, p)
  }

  lemma InParts(a: seq<Run>, b: seq<Run>, p: nat)
    ensures In(a + b, p) <==> In(a, p) || In(b, p)
  {
    if In(a, p) {
      var r :| r in a && Holds(r, p);
      assert r in a + b;
    }
    if In(b, p) {
      var r :| r in b && Holds(r, p);
      assert r in a + b;
    }
  }

  lemma InOne(r: Run, p: nat)
    ensures In([r], p) <==> Holds(r, p)
  {
    if Holds(r, p) {
      assert r in [r];
    }
  }

  /** Other runs in the place of `runs[i..j]`. */
  ghost function Spliced(runs: seq<Run>, i: nat, j: nat, mid: seq<Run>): seq<Run>
    requires i <= j <= |runs|
  {
    runs[..i] + mid + runs[j..]
  }

  lemma InSpliced(runs: seq<Run>, i: nat, j: nat, mid: seq<Run>, p: nat)
    requires i <= j <= |runs|
    ensures In(Spliced(runs, i, j, mid), p) <==> In(runs[..i], p) || In(mid, p) || In(runs[j..], p)
    ensures In(runs, p) <==> In(runs[..i], p) || In(runs[i..j], p) || In(runs[j..], p)
  {
    hide In;
    InParts(runs[..i] + mid, runs[j..], p);
    InParts(runs[..i], mid, p);
    assert runs == runs[..i] + runs[i..j] + runs[j..];
    InParts(runs[..i] + runs[i..j], runs[j..], p);
    InParts(runs[..i], runs[i..j], p);
  }

  lemma GoodParts(a: seq<Run>, b: seq<Run>)
    ensures Good(a + b) <==> Good(a) && Good(b) && forall x, y | x in a && y in b :: Before(x, y)
  {
    var s := a + b;
    if Good(s) {
      assert forall i | 0 <= i < |a| :: a[i] == s[i];
      assert forall i | 0 <= i < |b| :: b[i] == s[|a| + i];
      forall x, y | x in a && y in b
        ensures Before(x, y)
      {
        var i :| 0 <= i < |a| && a[i] == x;
        var j :| 0 <= j < |b| && b[j] == y;
        assert Before(s[i], s[|a| + j]);
      }
    }
    if Good(a) && Good(b) && forall x, y | x in a && y in b :: Before(x, y) {
      forall i, j | 0 <= i < j < |s|
        ensures Before(s[i], s[j])
      {
        if j < |a| {
          assert s[i] == a[i] && s[j] == a[j];
        } else if i >= |a| {
          assert s[i] == b[i - |a|] && s[j] == b[j - |a|];
        } else {
          assert s[i] == a[i] && s[j] == b[j - |a|];
        }
      }
    }
  }

  /** What a new run has to respect. */
  ghost predicate Between(runs: seq<Run>, i: nat, j: nat, r: Run)
    requires i <= j <= |runs|
  {
    r.n > 0 && (forall x | x in runs[..i] :: Before(x, r)) && (forall x | x in runs[j..] :: Before(r, x))
  }

  lemma GoodSpliced(runs: seq<Run>, i: nat, j: nat, r: Run)
    requires Good(runs) && i <= j <= |runs| && Between(runs, i, j, r)
    ensures Good(Spliced(runs, i, j, [r]))
  {
    hide Good, Before;
    GoodCut(runs, i, j);
    GoodOne(r);
    GoodParts(runs[..i] + [r], runs[j..]);
    GoodParts(runs[..i], [r]);
  }

  lemma GoodOne(r: Run)
    requires r.n > 0
    ensures Good([r])
  {
  }

  lemma GoodCut(runs: seq<Run>, i: nat, j: nat)
    requires Good(runs) && i <= j <= |runs|
    ensures Good(runs[..i]) && Good(runs[j..]) && forall x, y | x in runs[..i] && y in runs[j..] :: Before(x, y)
    ensures Good(Spliced(runs, i, j, []))
  {
    hide Good, Before;
    assert runs == runs[..i] + runs[i..] && runs == runs[..j] + runs[j..];
    GoodParts(runs[..i], runs[i..]);
    GoodParts(runs[..j], runs[j..]);
    assert forall y | y in runs[j..] :: y in runs[i..];
    assert runs[..i] + [] + runs[j..] == runs[..i] + runs[j..];
    GoodParts(runs[..i], runs[j..]);
  }

  /** Who stands where around run `i`. */
  lemma Around(runs: seq<Run>, i: nat)
    requires Good(runs) && i < |runs|
    ensures (forall x | x in runs[..i] :: Before(x, runs[i])) && (forall x | x in runs[i + 1..] :: Before(runs[i], x))
    ensures runs[i].n > 0 && runs[i..i + 1] == [runs[i]]
  {
    forall x | x in runs[..i]
      ensures Before(x, runs[i])
    {
      var k :| 0 <= k < i && runs[k] == x;
    }
    forall x | x in runs[i + 1..]
      ensures Before(runs[i], x)
    {
      var k :| i + 1 <= k < |runs| && runs[k] == x;
    }
  }

  lemma Narrower(runs: seq<Run>, i: nat, j: nat, b: Run, r: Run)
    requires i <= j <= |runs| && Between(runs, i, j, b) && r.n > 0 && b.addr <= r.addr && r.addr + r.n <= b.addr + b.n
    ensures Between(runs, i, j, r)
  {
    forall x | x in runs[..i]
      ensures Before(x, r)
    {
      assert Before(x, b);
    }
    forall x | x in runs[j..]
      ensures Before(r, x)
    {
      assert Before(b, x);
    }
  }

  /** Free pages in a row lie in one run. */
  lemma {:induction false} OneRun(runs: seq<Run>, a: nat, n: nat) returns (r: Run)
    requires Good(runs) && n > 0 && AllIn(runs, a, n)
    ensures r in runs && r.addr <= a && a + n <= r.addr + r.n
  {
    assert In(runs, a + n - 1);
    var q :| q in runs && Holds(q, a + n - 1);
    if n == 1 {
      r := q;
    } else {
      r := OneRun(runs, a, n - 1);
      var i :| 0 <= i < |runs| && runs[i] == r;
      var j :| 0 <= j < |runs| && runs[j] == q;
      assert i < j ==> Before(r, q);
      assert j < i ==> Before(q, r);
    }
  }

  /** Whether some `n` pages in a row are free is whether some run is long enough. */
  lemma SomeRun(runs: seq<Run>, n: nat)
    requires Good(runs) && n > 0
    ensures (exists a :: AllIn(runs, a, n)) <==> exists r | r in runs :: r.n >= n
  {
    if exists a :: AllIn(runs, a, n) {
      var a :| AllIn(runs, a, n);
      var r := OneRun(runs, a, n);
    }
    if exists r | r in runs :: r.n >= n {
      var r :| r in runs && r.n >= n;
      forall p | r.addr <= p < r.addr + n
        ensures In(runs, p)
      {
        assert Holds(r, p);
      }
      assert AllIn(runs, r.addr, n);
    }
  }

  /** Where the first run of at least `n` pages starts. */
  function FirstFit(runs: seq<Run>, n: nat): nat
  {
    if runs == [] then 0 else if runs[0].n >= n then runs[0].addr else FirstFit(runs[1..], n)
  }

  /**
   rt_page_alloc: the front of the first run that is long enough.  It fails
   exactly if no `n` pages in a row are free.
   */
  method PageAlloc(runs: seq<Run>, n: nat) returns (found: bool, addr: nat, runs': seq<Run>)
    requires Good(runs)
    ensures Good(runs')
    ensures found <==> n > 0 && exists a :: AllIn(runs, a, n)
    ensures if found then AllIn(runs, addr, n) && forall p: nat :: In(runs', p) <==>
            In(runs, p) && !(addr <= p < addr + n)
            else runs' == runs
    ensures found ==> addr == FirstFit(runs, n)
    ensures |runs| == 1 && 0 < n < runs[0].n ==> runs' == [Run(addr + n, runs[0].n - n)]
  {
    hide Good, In, AllIn;
    found, addr, runs' := false, 0, runs;
    if n == 0 {
      return;
    }
    SomeRun(runs, n);
    var i := 0;
    while i < |runs|
      invariant 0 <= i <= |runs| && forall k | 0 <= k < i :: runs[k].n < n
      invariant FirstFit(runs, n) == FirstFit(runs[i..], n)
    {
      var b := runs[i];
      if b.n >= n {
        found, addr := true, b.addr;
        if b.n > n {
          runs' := runs[..i] + [Run(b.addr + n, b.n - n)] + runs[i + 1..];
        } else {
          runs' := runs[..i] + runs[i + 1..];
        }
        FrontTaken(runs, i, n, runs');
        return;
      }
      i := i + 1;
    }
  }

  lemma FrontTaken(runs: seq<Run>, i: nat, n: nat, runs': seq<Run>)
    requires Good(runs) && i < |runs| && 0 < n <= runs[i].n
    requires runs' == runs[..i] + (if runs[i].n > n then [Run(runs[i].addr + n, runs[i].n - n)] else []) + runs[i + 1..]
    ensures Good(runs') && AllIn(runs, runs[i].addr, n)
    ensures forall p: nat :: In(runs', p) <==> In(runs, p) && !(runs[i].addr <= p < runs[i].addr + n)
    ensures exists r | r in runs :: r.n >= n
  {
    hide Good, In;
    var b := runs[i];
    assert b in runs;
    Around(runs, i);
    var mid := if b.n > n then [Run(b.addr + n, b.n - n)] else [];
    if b.n > n {
      assert runs' == Spliced(runs, i, i + 1, mid) && mid == [Run(b.addr + n, b.n - n)];
      Narrower(runs, i, i + 1, b, mid[0]);
      GoodSpliced(runs, i, i + 1, mid[0]);
    } else {
      GoodCut(runs, i, i + 1);
    }
    forall p: nat
      ensures In(runs', p) <==> In(runs, p) && !(b.addr <= p < b.addr + n)
      ensures b.addr <= p < b.addr + n ==> In(runs, p)
    {
      TakenAt(runs, i, n, mid, p);
    }
  }

  lemma TakenAt(runs: seq<Run>, i: nat, n: nat, mid: seq<Run>, p: nat)
    requires Good(runs) && i < |runs| && 0 < n <= runs[i].n
    requires mid == if runs[i].n > n then [Run(runs[i].addr + n, runs[i].n - n)] else []
    ensures In(Spliced(runs, i, i + 1, mid), p) <==> In(runs, p) && !(runs[i].addr <= p < runs[i].addr + n)
    ensures runs[i].addr <= p < runs[i].addr + n ==> In(runs, p)
  {
    var b := runs[i];
    Around(runs, i);
    InSpliced(runs, i, i + 1, mid, p);
    InOne(b, p);
    if b.n > n {
      InOne(mid[0], p);
    }
    assert forall x | x in runs[..i] && Holds(x, p) :: p < b.addr;
    assert forall x | x in runs[i + 1..] && Holds(x, p) :: p > b.addr + b.n;
  }

  /** rt_page_free: pages that are not free come back and join the runs they touch. */
  method PageFree(runs: seq<Run>, addr: nat, n: nat) returns (runs': seq<Run>)
    requires Good(runs) && n > 0 && forall p | addr <= p < addr + n :: !In(runs, p)
    ensures Good(runs') && forall p: nat :: In(runs', p) <==> In(runs, p) || addr <= p < addr + n
    ensures runs == [] ==> runs' == [Run(addr, n)]
  {
    hide Good, In;
    var i := 0;
    while i < |runs|
      invariant 0 <= i <= |runs| && forall x | x in runs[..i] :: x.addr + x.n < addr
    {
      var b := runs[i];
      NotIn(runs, i, addr, n);
      NextRuns(runs, i, addr, n);
      if b.addr + b.n == addr {
        if i + 1 < |runs| && b.addr + b.n + n == runs[i + 1].addr {
          Joined(runs, i, i + 2, addr, n, Run(b.addr, b.n + n + runs[i + 1].n));
          return runs[..i] + [Run(b.addr, b.n + n + runs[i + 1].n)] + runs[i + 2..];
        }
        Joined(runs, i, i + 1, addr, n, Run(b.addr, b.n + n));
        return runs[..i] + [Run(b.addr, b.n + n)] + runs[i + 1..];
      }
      if b.addr == addr + n {
        Joined(runs, i, i + 1, addr, n, Run(addr, b.n + n));
        return runs[..i] + [Run(addr, b.n + n)] + runs[i + 1..];
      }
      if b.addr > addr + n {
        break;
      }
      assert runs[..i + 1] == runs[..i] + [b];
      i := i + 1;
    }
    Joined(runs, i, i, addr, n, Run(addr, n));
    runs' := runs[..i] + [Run(addr, n)] + runs[i..];
  }

  /** The runs behind a run that ends at the pages that come back. */
  lemma NextRuns(runs: seq<Run>, i: nat, addr: nat, n: nat)
    requires Good(runs) && i < |runs| && n > 0 && forall p | addr <= p < addr + n :: !In(runs, p)
    ensures runs[i].addr + runs[i].n == addr && i + 1 < |runs| ==> addr + n <= runs[i + 1].addr
    ensures i + 2 < |runs| ==> runs[i + 1].addr < runs[i + 2].addr
  {
    hide In;
    assert i + 1 < |runs| ==> Before(runs[i], runs[i + 1]);
    assert i + 2 < |runs| ==> Before(runs[i + 1], runs[i + 2]);
    if i + 1 < |runs| {
      NotIn(runs, i + 1, addr, n);
    }
  }

  /** A run does not reach into pages that are not free. */
  lemma NotIn(runs: seq<Run>, i: nat, addr: nat, n: nat)
    requires Good(runs) && i < |runs| && n > 0 && forall p | addr <= p < addr + n :: !In(runs, p)
    ensures runs[i].addr + runs[i].n <= addr || addr + n <= runs[i].addr
  {
    var b := runs[i];
    assert b in runs && b.n > 0;
    assert Holds(b, b.addr) ==> In(runs, b.addr);
    assert b.addr < addr < b.addr + b.n ==> Holds(b, addr);
    assert Holds(b, addr) ==> In(runs, addr);
  }

  /** Which runs `from` to `to` touch the pages that come back, and what they become together. */
  ghost predicate Touch(runs: seq<Run>, i: nat, j: nat, addr: nat, n: nat, r: Run)
    requires i <= j <= |runs|
  {
    if j == i then r == Run(addr, n)
    else if j == i + 1 then
      var b := runs[i];
      || (b.addr + b.n == addr && r == Run(b.addr, b.n + n))
      || (b.addr == addr + n && r == Run(addr, b.n + n))
    else
      && j == i + 2 && runs[i].addr + runs[i].n == addr && addr + n == runs[i + 1].addr
      && r == Run(runs[i].addr, runs[i].n + n + runs[i + 1].n)
  }

  lemma Joined(runs: seq<Run>, i: nat, j: nat, addr: nat, n: nat, r: Run)
    requires Good(runs) && n > 0 && i <= j <= |runs| && Touch(runs, i, j, addr, n, r)
    requires forall x | x in runs[..i] :: x.addr + x.n < addr
    requires j < |runs| ==> addr + n < runs[j].addr || (j == i + 1 && runs[i].addr == addr + n)
    ensures Good(Spliced(runs, i, j, [r])) && forall p: nat :: In(Spliced(runs, i, j, [r]), p) <==>
            In(runs, p) || addr <= p < addr + n
  {
    hide Good, In;
    assert forall p: nat :: Holds(r, p) <==>
           addr <= p < addr + n || (i < j && Holds(runs[i], p)) || (i + 1 < j && Holds(runs[i + 1], p));
    JoinedFits(runs, i, j, addr, n, r);
    GoodSpliced(runs, i, j, r);
    forall p: nat
      ensures In(Spliced(runs, i, j, [r]), p) <==> In(runs, p) || addr <= p < addr + n
    {
      InSpliced(runs, i, j, [r], p);
      InOne(r, p);
      InStretch(runs, i, j, p);
    }
  }

  lemma InStretch(runs: seq<Run>, i: nat, j: nat, p: nat)
    requires i <= j <= |runs| && j <= i + 2
    ensures In(runs[i..j], p) <==> (i < j && Holds(runs[i], p)) || (i + 1 < j && Holds(runs[i + 1], p))
  {
    var s := runs[i..j];
    if i < j && Holds(runs[i], p) {
      assert s[0] in s;
    }
    if i + 1 < j && Holds(runs[i + 1], p) {
      assert s[1] in s;
    }
  }

  lemma JoinedFits(runs: seq<Run>, i: nat, j: nat, addr: nat, n: nat, r: Run)
    requires Good(runs) && n > 0 && i <= j <= |runs| && Touch(runs, i, j, addr, n, r)
    requires forall x | x in runs[..i] :: x.addr + x.n < addr
    requires j < |runs| ==> addr + n < runs[j].addr || (j == i + 1 && runs[i].addr == addr + n)
    ensures Between(runs, i, j, r)
  {
    hide Good;
    forall x | x in runs[..i]
      ensures Before(x, r)
    {
      if i < j {
        Around(runs, i);
        assert Before(x, runs[i]);
      }
    }
    forall x | x in runs[j..]
      ensures Before(r, x)
    {
      assert j < |runs| && runs[j..] == [runs[j]] + runs[j + 1..];
      Around(runs, j);
      if i < j {
        Around(runs, j - 1);
        assert Before(runs[j - 1], x);
      }
      assert x == runs[j] || Before(runs[j], x);
    }
    if i < j {
      Around(runs, i);
    }
  }
}
