/** Shared vocabulary of the nonogram engine: lines, grids and a few
    sequence helpers used by the enumerator, the expander and the solver. */
module Seqs {

  /** One row or column of a puzzle: `true` is a painted cell. */
  type Line = seq<bool>

  /** A grid as a list of rows. */
  type Grid = seq<Line>

  /** A line of `n` cells that all hold `b`. */
  function Fill(n: nat, b: bool): (r: Line)
    ensures |r| == n
    ensures forall i :: 0 <= i < n ==> r[i] == b
  {
    seq(n, _ => b)
  }

  /** A line that starts with `j` cells holding `b` is those cells followed
      by the rest of it. */
  lemma FillPrefix(t: Line, j: nat, b: bool)
    requires j <= |t|
    requires forall i :: 0 <= i < j ==> t[i] == b
    ensures t == Fill(j, b) + t[j..]
  {
  }

  lemma Regroup<T>(a: seq<T>, b: seq<T>, c: seq<T>, d: seq<T>)
    ensures a + (b + (c + d)) == a + b + c + d
  {
  }

  /** Every element of `ts` with `p` put in front of it. */
  function Prefixed<T>(p: seq<T>, ts: seq<seq<T>>): (r: seq<seq<T>>)
    ensures |r| == |ts|
    ensures forall i :: 0 <= i < |ts| ==> r[i] == p + ts[i]
  {
    seq(|ts|, i requires 0 <= i < |ts| => p + ts[i])
  }

  lemma PrefixedMember<T>(p: seq<T>, ts: seq<seq<T>>, t: seq<T>)
    requires t in ts
    ensures p + t in Prefixed(p, ts)
  {
    var i :| 0 <= i < |ts| && ts[i] == t;
    assert Prefixed(p, ts)[i] == p + t;
  }

  lemma PrefixedNil<T>(ts: seq<seq<T>>)
    ensures Prefixed([], ts) == ts
  {
    forall i | 0 <= i < |ts| ensures Prefixed([], ts)[i] == ts[i] {
      assert [] + ts[i] == ts[i];
    }
  }

  lemma PrefixedAppend<T>(p: seq<T>, a: seq<seq<T>>, b: seq<seq<T>>)
    ensures Prefixed(p, a + b) == Prefixed(p, a) + Prefixed(p, b)
  {
  }

  lemma PrefixedPrefixed<T>(p: seq<T>, q: seq<T>, ts: seq<seq<T>>)
    ensures Prefixed(p, Prefixed(q, ts)) == Prefixed(p + q, ts)
  {
    forall i | 0 <= i < |ts|
      ensures Prefixed(p, Prefixed(q, ts))[i] == Prefixed(p + q, ts)[i]
    {
      assert p + (q + ts[i]) == (p + q) + ts[i];
    }
  }

  /** No element occurs twice. */
  predicate Distinct<T(==)>(s: seq<T>) {
    forall i, j :: 0 <= i < j < |s| ==> s[i] != s[j]
  }

  lemma DistinctAppend<T>(a: seq<T>, b: seq<T>)
    requires Distinct(a) && Distinct(b)
    requires forall x :: x in a ==> x !in b
    ensures Distinct(a + b)
  {
    forall i, j | 0 <= i < j < |a + b|
      ensures (a + b)[i] != (a + b)[j]
    {
      if j >= |a| && i < |a| {
        assert (a + b)[i] in a;
        assert (a + b)[j] == b[j - |a|];
      }
    }
  }

  lemma DistinctPrefixed<T>(p: seq<T>, ts: seq<seq<T>>)
    requires Distinct(ts)
    ensures Distinct(Prefixed(p, ts))
  {
    forall i, j | 0 <= i < j < |ts|
      ensures Prefixed(p, ts)[i] != Prefixed(p, ts)[j]
    {
      assert ts[i] == (p + ts[i])[|p|..];
      assert ts[j] == (p + ts[j])[|p|..];
    }
  }

  /** The sum of a list of integers. */
  function Sum(s: seq<int>): int {
    if s == [] then 0 else s[0] + Sum(s[1..])
  }

  lemma {:induction false} SumAppend(a: seq<int>, b: seq<int>)
    ensures Sum(a + b) == Sum(a) + Sum(b)
  {
    if a == [] {
      assert a + b == b;
    } else {
      assert (a + b)[1..] == a[1..] + b;
      SumAppend(a[1..], b);
    }
  }

  /** Every hint of the list is a positive run length. */
  predicate AllPositive(hs: seq<int>) {
    forall k :: 0 <= k < |hs| ==> hs[k] >= 1
  }

  /** The number of cells the runs `hs` need at least: their lengths plus
      one gap between each two neighbours. */
  function MinLength(hs: seq<int>): int {
    if hs == [] then 0 else Sum(hs) + |hs| - 1
  }
}
