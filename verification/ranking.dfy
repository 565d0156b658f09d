/** `sortedOrder`: the indices `0 .. n` of the coefficient vector (index `n`
    being the constant term) ranked by ascending coefficient. */
module Ranking {
  import opened Sorting

  /** The identity order `[0, 1, ..., L - 1]`. */
  function Iota(L: nat): (s: seq<int>)
    ensures |s| == L && forall i :: 0 <= i < L ==> s[i] == i
  {
    if L == 0 then [] else Iota(L - 1) + [L - 1]
  }

  /** `order` holds each of `0 .. L - 1` exactly once. */
  ghost predicate IsPermutation(order: seq<int>, L: nat)
  {
    && |order| == L
    && (forall p :: 0 <= p < L ==> 0 <= order[p] < L)
    && multiset(order) == multiset(Iota(L))
  }

  lemma {:induction false} IotaCounts(L: nat, x: int)
    ensures multiset(Iota(L))[x] == if 0 <= x < L then 1 else 0
  {
    if L > 0 {
      IotaCounts(L - 1, x);
    }
  }

  /** A permutation repeats no index and misses none. */
  lemma PermutationFacts(order: seq<int>, L: nat)
    requires IsPermutation(order, L)
    ensures forall p, q :: 0 <= p < q < L ==> order[p] != order[q]
    ensures forall i :: 0 <= i < L ==> i in order
  {
    forall i | 0 <= i < L
      ensures i in order
    {
      IotaCounts(L, i);
      assert i in multiset(order);
    }
    forall p, q | 0 <= p < q < L
      ensures order[p] != order[q]
    {
      if order[p] == order[q] {
        var x := order[p];
        assert order == order[..q] + order[q..];
        assert order[..q][p] == x;
        assert order[q..][0] == x;
        IotaCounts(L, x);
        assert false;
      }
    }
  }

  /** The coefficient of index `i`, 0 where `i` is outside the vector. */
  function Coef(coef: seq<real>, i: int): real
  {
    if 0 <= i < |coef| then coef[i] else 0.0
  }

  /** The indices of `order` point at non-decreasing coefficients. */
  ghost predicate Ranked(order: seq<int>, coef: seq<real>)
    requires forall p :: 0 <= p < |order| ==> 0 <= order[p] < |coef|
  {
    forall p, q :: 0 <= p < q < |order| ==> coef[order[p]] <= coef[order[q]]
  }

  /** Fills `sortedOrder` with `0 .. n` and sorts it in place by coefficient.
      Ties may end up in either order. */
  method RankCoefficients(coef: seq<real>) returns (order: seq<int>)
    ensures IsPermutation(order, |coef|)
    ensures Ranked(order, coef)
  {
    var sortedOrder := new int[|coef|];
    for i := 0 to |coef|
      invariant forall k :: 0 <= k < i ==> sortedOrder[k] == k
    {
      sortedOrder[i] := i;
    }
    assert sortedOrder[..] == Iota(|coef|);
    var key := (i: int) => Coef(coef, i);
    SortByKey(sortedOrder, key);
    order := sortedOrder[..];
    forall p | 0 <= p < |order|
      ensures 0 <= order[p] < |coef|
    {
      assert order[p] in multiset(order);
      IotaCounts(|coef|, order[p]);
    }
    forall p, q | 0 <= p < q < |order|
      ensures coef[order[p]] <= coef[order[q]]
    {
      assert key(order[p]) <= key(order[q]);
    }
  }

  /** `s` with every occurrence of `x` taken out, in the original order. */
  function Without(s: seq<int>, x: int): seq<int>
  {
    if |s| == 0 then []
    else Without(s[..|s| - 1], x) + (if s[|s| - 1] == x then [] else [s[|s| - 1]])
  }

  lemma {:induction false} WithoutAppend(s: seq<int>, t: seq<int>, x: int)
    ensures Without(s + t, x) == Without(s, x) + Without(t, x)
    decreases |t|
  {
    if |t| > 0 {
      var k := |t| - 1;
      assert (s + t)[..|s + t| - 1] == s + t[..k];
      WithoutAppend(s, t[..k], x);
    } else {
      assert s + t == s;
    }
  }

  /** Removing `x` removes every copy of it and nothing else. */
  lemma {:induction false} WithoutCounts(s: seq<int>, x: int)
    ensures multiset(Without(s, x)) == multiset(s)[x := 0]
    ensures |Without(s, x)| == |s| - multiset(s)[x]
    decreases |s|
  {
    if |s| > 0 {
      var k := |s| - 1;
      WithoutCounts(s[..k], x);
      assert s == s[..k] + [s[k]];
      assert multiset(s) == multiset(s[..k]) + multiset{s[k]};
      assert Without(s, x) == Without(s[..k], x) + (if s[k] == x then [] else [s[k]]);
    }
  }

  /** Skipping the constant term `n` in a ranking of `0 .. n` leaves a
      ranking of the real records `0 .. n - 1`. */
  lemma WithoutConstantIsPermutation(order: seq<int>, n: nat)
    requires IsPermutation(order, n + 1)
    ensures IsPermutation(Without(order, n), n)
  {
    var w := Without(order, n);
    WithoutCounts(order, n);
    assert Iota(n + 1) == Iota(n) + [n];
    IotaCounts(n, n);
    assert multiset(w) == multiset(Iota(n));
    forall p | 0 <= p < |w|
      ensures 0 <= w[p] < n
    {
      assert w[p] in multiset(w);
      IotaCounts(n, w[p]);
    }
  }

  /** What survives the removal of `x` was in `s` and is not `x`. */
  lemma WithoutMember(s: seq<int>, x: int, p: int)
    requires 0 <= p < |Without(s, x)|
    ensures Without(s, x)[p] in s && Without(s, x)[p] != x
  {
    var w := Without(s, x);
    WithoutCounts(s, x);
    assert w[p] in multiset(w);
  }

  /** Skipping an index keeps the rest in ranked order. */
  lemma {:induction false} WithoutKeepsRanking(s: seq<int>, coef: seq<real>, x: int)
    requires forall p :: 0 <= p < |s| ==> 0 <= s[p] < |coef|
    requires Ranked(s, coef)
    ensures forall p :: 0 <= p < |Without(s, x)| ==> 0 <= Without(s, x)[p] < |coef|
    ensures Ranked(Without(s, x), coef)
    decreases |s|
  {
    var w := Without(s, x);
    forall p | 0 <= p < |w|
      ensures 0 <= w[p] < |coef|
    {
      WithoutMember(s, x, p);
    }
    if |s| > 0 {
      var k := |s| - 1;
      var front := s[..k];
      WithoutKeepsRanking(front, coef, x);
      var wf := Without(front, x);
      if s[k] != x {
        assert w == wf + [s[k]];
        forall p | 0 <= p < |wf|
          ensures coef[wf[p]] <= coef[s[k]]
        {
          WithoutMember(front, x, p);
          var i :| 0 <= i < |front| && front[i] == wf[p];
          assert s[i] == wf[p];
        }
        forall p, q | 0 <= p < q < |w|
          ensures coef[w[p]] <= coef[w[q]]
        {
          if q == |wf| {
            assert w[p] == wf[p] && w[q] == s[k];
          } else {
            assert w[p] == wf[p] && w[q] == wf[q];
          }
        }
      } else {
        assert w == wf;
      }
    }
  }
}
