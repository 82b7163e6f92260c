/** Sequences of distinct numbers. */
module Sequences {
  predicate Distinct(q: seq<int>)
  {
    forall i, j :: 0 <= i < j < |q| ==> q[i] != q[j]
  }

  /** The sequence without the first `t`. */
  function Without(q: seq<int>, t: int): seq<int>
  {
    if q == [] then [] else if q[0] == t then q[1..] else [q[0]] + Without(q[1..], t)
  }

  lemma {:induction false} WithoutAt(q: seq<int>, t: int, i: nat)
    requires i < |q| && q[i] == t && forall j :: 0 <= j < i ==> q[j] != t
    ensures Without(q, t) == q[..i] + q[i + 1..]
  {
    if i > 0 {
      WithoutAt(q[1..], t, i - 1);
      assert q[1..][..i - 1] == q[1..i] && q[1..][i..] == q[i + 1..];
    }
  }

  lemma {:induction false} WithoutAbsent(q: seq<int>, t: int)
    requires t !in q
    ensures Without(q, t) == q
  {
    if q != [] { WithoutAbsent(q[1..], t); }
  }

  /** Deleting a member keeps the others, in order. */
  lemma {:induction false} WithoutMembers(q: seq<int>, t: int)
    requires Distinct(q)
    ensures Distinct(Without(q, t)) && forall x :: x in Without(q, t) <==> x in q && x != t
  {
    if q != [] {
      WithoutMembers(q[1..], t);
      var rest := Without(q[1..], t);
      assert forall x :: x in q <==> x == q[0] || x in q[1..];
      assert q[0] !in q[1..];
      if q[0] != t { assert forall x :: x in [q[0]] + rest <==> x == q[0] || x in rest; }
    }
  }

  lemma {:induction false} WithoutLength(q: seq<int>, t: int)
    ensures |q| - 1 <= |Without(q, t)| <= |q|
  {
    if q != [] { WithoutLength(q[1..], t); }
  }

  /** Distinct numbers below `n` are at most `n` many. */
  lemma {:induction false} Pigeonhole(q: seq<int>, n: nat)
    requires Distinct(q) && forall i :: 0 <= i < |q| ==> 0 <= q[i] < n
    ensures |q| <= n
    decreases n
  {
    hide Without, Distinct;
    if q != [] {
      assert q[0] < n;
      WithoutMembers(q, n - 1);
      WithoutLength(q, n - 1);
      var rest := Without(q, n - 1);
      forall i | 0 <= i < |rest| ensures 0 <= rest[i] < n - 1 {
        assert rest[i] in rest;
        var j :| 0 <= j < |q| && q[j] == rest[i];
      }
      Pigeonhole(rest, n - 1);
    }
  }
}
