/** Lists without repetition. */
module Seqs {
  ghost predicate Distinct(s: seq<nat>)
  {
    forall i, j | 0 <= i < j < |s| :: s[i] != s[j]
  }

  lemma DistinctTail(s: seq<nat>)
    requires s != []
    ensures Distinct(s) <==> Distinct(s[1..]) && s[0] !in s[1..]
  {
    var rest := s[1..];
    assert forall i | 0 <= i < |rest| :: rest[i] == s[i + 1];
    if Distinct(rest) && s[0] !in rest {
      forall i, j | 0 <= i < j < |s|
        ensures s[i] != s[j]
      {
        assert s[j] == rest[j - 1];
        if i > 0 {
          assert s[i] == rest[i - 1];
        }
      }
    }
  }

  lemma TailMembers(s: seq<nat>)
    requires s != []
    ensures forall x :: x in s <==> x == s[0] || x in s[1..]
  {
    assert s == [s[0]] + s[1..];
  }

  /** Putting an element in behind the first one is putting it into the rest. */
  lemma PutBehind<T>(s: seq<T>, x: T, n: nat)
    requires 0 < n <= |s|
    ensures s[..n] + [x] + s[n..] == [s[0]] + (s[1..][..n - 1] + [x] + s[1..][n - 1..])
  {
  }

  /** The list without `x`. */
  function Without(s: seq<nat>, x: nat): seq<nat>
  {
    if s == [] then []
    else if s[0] == x then Without(s[1..], x)
    else [s[0]] + Without(s[1..], x)
  }

  lemma {:induction false} WithoutMembers(s: seq<nat>, x: nat)
    ensures forall y :: y in Without(s, x) <==> y in s && y != x
    ensures |Without(s, x)| <= |s| && (x in s ==> |Without(s, x)| < |s|)
  {
    if s != [] {
      WithoutMembers(s[1..], x);
      assert s == [s[0]] + s[1..];
    }
  }

  lemma {:induction false} WithoutAbsent(s: seq<nat>, x: nat)
    requires x !in s
    ensures Without(s, x) == s
  {
    if s != [] {
      WithoutAbsent(s[1..], x);
    }
  }

  /** Taking out the element at one place. */
  lemma {:induction false} WithoutAt(s: seq<nat>, k: nat)
    requires Distinct(s) && k < |s|
    ensures Without(s, s[k]) == s[..k] + s[k + 1..]
    decreases k
  {
    DistinctTail(s);
    var rest := s[1..];
    if k == 0 {
      WithoutAbsent(rest, s[0]);
    } else {
      WithoutAt(rest, k - 1);
      assert s[k] == rest[k - 1] && s[0] != s[k];
      assert [s[0]] + (rest[..k - 1] + rest[k..]) == s[..k] + s[k + 1..];
    }
  }

  lemma {:induction false} WithoutDistinct(s: seq<nat>, x: nat)
    requires Distinct(s)
    ensures Distinct(Without(s, x))
  {
    if s != [] {
      DistinctTail(s);
      WithoutDistinct(s[1..], x);
      WithoutMembers(s[1..], x);
      if s[0] != x {
        var r := Without(s, x);
        assert r[0] == s[0] && r[1..] == Without(s[1..], x);
        DistinctTail(r);
      }
    }
  }

  /** Taking out the first element of a list without repetition. */
  lemma WithoutFirst(s: seq<nat>)
    requires Distinct(s) && s != []
    ensures Without(s, s[0]) == s[1..]
  {
    DistinctTail(s);
    WithoutAbsent(s[1..], s[0]);
  }
}
