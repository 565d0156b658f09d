/** The `-best N` / `-worst N` output: the records with the smallest and the
    largest coefficients, as positions in the ranking `order` of `0 .. n`,
    where `n` (the number of records) stands for the constant term. */
module BestWorst {
  import opened Inlines
  import opened Ranking

  /** Every rank that best mode visits points at a real record. */
  ghost predicate BestPrefixInRange(order: seq<int>, n: nat, bestN: int)
  {
    forall p :: 0 <= p < Min(bestN, |order|) ==> 0 <= order[p] < n
  }

  /** Best mode as the program has it: the first `Min(bestN, n + 1)` ranks,
      best first, each used unchecked as an index into the record list, so the
      walk stops with an index-out-of-range failure at the first rank that is
      not a real record. */
  method BestRecords(order: seq<int>, n: nat, bestN: int) returns (r: Result<seq<int>>)
    requires bestN > 0
    ensures r.Ok? <==> BestPrefixInRange(order, n, bestN)
    ensures r.Ok? ==> r.value == order[..Min(bestN, |order|)]
    ensures r.Err? ==>
      exists p :: 0 <= p < Min(bestN, |order|) && !(0 <= order[p] < n)
        && r.error == IndexOutOfRange(order[p], n)
        && (forall q :: 0 <= q < p ==> 0 <= order[q] < n)
  {
    var k := Min(bestN, |order|);
    var printed := [];
    var i := 0;
    while i < k
      invariant 0 <= i <= k
      invariant printed == order[..i]
      invariant forall q :: 0 <= q < i ==> 0 <= order[q] < n
    {
      var o := order[i];
      if !(0 <= o < n) {
        return Err(IndexOutOfRange(o, n));
      }
      printed := printed + [o];
      i := i + 1;
    }
    r := Ok(printed);
  }

  /** Best mode fails exactly when the constant term ranks among the first
      `Min(bestN, n + 1)`; in particular it always fails when `bestN > n`. */
  lemma BestFailsIffConstantInPrefix(order: seq<int>, n: nat, bestN: int)
    requires IsPermutation(order, n + 1) && bestN > 0
    ensures BestPrefixInRange(order, n, bestN) <==> n !in order[..Min(bestN, n + 1)]
    ensures bestN > n ==> !BestPrefixInRange(order, n, bestN)
  {
    var k := Min(bestN, n + 1);
    if n in order[..k] {
      var p :| 0 <= p < k && order[..k][p] == n;
      assert order[p] == n;
    }
    if bestN > n {
      PermutationFacts(order, n + 1);
      assert order[..k] == order;
    }
  }

  /** Skipping the constant term in the first `l` ranks gives a prefix of the
      ranking of real records, one shorter when the constant term is there. */
  lemma PrefixSkip(order: seq<int>, n: nat, l: nat)
    requires IsPermutation(order, n + 1) && l <= n + 1
    ensures |Without(order, n)| == n
    ensures |Without(order[..l], n)| == l - (if n in order[..l] then 1 else 0) <= n
    ensures Without(order[..l], n) == Without(order, n)[..|Without(order[..l], n)|]
  {
    var head, tail := order[..l], order[l..];
    assert order == head + tail;
    WithoutAppend(head, tail, n);
    SplitCounts(order, n, head, tail);
  }

  /** Skipping the constant term in the last `l` ranks gives a suffix of the
      ranking of real records, one shorter when the constant term is there. */
  lemma SuffixSkip(order: seq<int>, n: nat, l: nat)
    requires IsPermutation(order, n + 1) && l <= n + 1
    ensures |Without(order, n)| == n
    ensures |Without(order[n + 1 - l..], n)| == l - (if n in order[n + 1 - l..] then 1 else 0) <= n
    ensures Without(order[n + 1 - l..], n) == Without(order, n)[n - |Without(order[n + 1 - l..], n)|..]
  {
    var head, tail := order[..n + 1 - l], order[n + 1 - l..];
    assert order == head + tail;
    WithoutAppend(head, tail, n);
    SplitCounts(order, n, head, tail);
  }

  /** The constant term occurs once in the ranking, so in exactly one of two
      pieces that make it up. */
  lemma SplitCounts(order: seq<int>, n: nat, head: seq<int>, tail: seq<int>)
    requires IsPermutation(order, n + 1) && order == head + tail
    ensures |Without(order, n)| == n
    ensures |Without(head, n)| == |head| - (if n in head then 1 else 0)
    ensures |Without(tail, n)| == |tail| - (if n in tail then 1 else 0)
    ensures n in head <==> n !in tail
  {
    IotaCounts(n + 1, n);
    WithoutCounts(order, n);
    WithoutCounts(head, n);
    WithoutCounts(tail, n);
    assert multiset(order) == multiset(head) + multiset(tail);
  }

  /** Best mode with the constant term skipped the way worst mode skips it:
      the window grows by one when the constant term falls inside it, so
      `Min(bestN, n)` real records come out, best first. */
  method BestRecordsSkippingConstant(order: seq<int>, n: nat, bestN: int) returns (printed: seq<int>)
    requires IsPermutation(order, n + 1) && bestN > 0
    ensures |Without(order, n)| == n
    ensures printed == Without(order, n)[..Min(bestN, n)]
  {
    var l := BestWindowLength(order, n, bestN);
    printed := [];
    var i := 0;
    while i < l
      invariant 0 <= i <= l <= |order|
      invariant printed == Without(order[..i], n)
    {
      var o := order[i];
      if o != n {
        printed := printed + [o];
      }
      assert order[..i + 1][..i] == order[..i];
      i := i + 1;
    }
    BestWindow(order, n, bestN, l);
  }

  /** The first pass of the corrected best mode: the first `Min(bestN, n + 1)`
      ranks, one more when the constant term is among them and there is room. */
  method BestWindowLength(order: seq<int>, n: nat, bestN: int) returns (l: int)
    requires |order| == n + 1 && bestN > 0
    ensures var l0 := Min(bestN, n + 1);
      if l0 < n + 1 && n in order[..l0] then l == l0 + 1 else l == l0
  {
    var L := |order|;
    l := Min(bestN, L);
    ghost var l0, at := l, -1;
    var i := 0;
    while i < l
      invariant 0 <= i <= l == l0 && at == -1
      invariant l0 < L ==> forall p :: 0 <= p < i ==> order[p] != n
    {
      if order[i] == n && l < L {
        l, at := l + 1, i;
        break;
      }
      i := i + 1;
    }
    if at != -1 {
      assert order[..l0][at] == n;
    } else if l0 < L {
      assert n !in order[..l0];
    }
  }

  /** The window best mode settles on: the first `Min(bestN, n + 1)` ranks,
      one more when the constant term is among them and there is room. */
  lemma BestWindow(order: seq<int>, n: nat, bestN: int, l: int)
    requires IsPermutation(order, n + 1) && bestN > 0
    requires var l0 := Min(bestN, n + 1);
      if l0 < n + 1 && n in order[..l0] then l == l0 + 1 else l == l0
    ensures |Without(order, n)| == n
    ensures Without(order[..l], n) == Without(order, n)[..Min(bestN, n)]
  {
    var l0 := Min(bestN, n + 1);
    PrefixSkip(order, n, l);
    if l == l0 + 1 {
      var p :| 0 <= p < l0 && order[..l0][p] == n;
      assert order[..l][p] == n;
    } else if l0 < n + 1 {
      assert n !in order[..l];
    } else {
      PermutationFacts(order, n + 1);
      assert order[..l] == order;
    }
  }

  /** Worst mode: the last `Min(worstN, n + 1)` ranks, grown by one when the
      constant term falls among them, printed in ascending rank with the
      constant term skipped. The result is the `Min(worstN, n)` real records
      with the largest coefficients, the single worst one last. */
  method WorstRecords(order: seq<int>, n: nat, worstN: int) returns (printed: seq<int>)
    requires IsPermutation(order, n + 1) && worstN > 0
    ensures |Without(order, n)| == n
    ensures printed == Without(order, n)[n - Min(worstN, n)..]
  {
    var L := |order|;
    var l := WorstWindowLength(order, n, worstN);
    ghost var window := order[L - l..];
    printed := [];
    var i := 0;
    while i < l
      invariant 0 <= i <= l <= L
      invariant printed == Without(window[..i], n)
    {
      var j := L - l + i;
      var o := order[j];
      if o != n {
        printed := printed + [o];
      }
      assert window[..i + 1] == window[..i] + [o];
      i := i + 1;
    }
    assert window[..l] == window;
    WorstWindow(order, n, worstN, l);
  }

  /** The first pass of worst mode: the last `Min(worstN, n + 1)` ranks, one
      more when the constant term is among them and there is room. */
  method WorstWindowLength(order: seq<int>, n: nat, worstN: int) returns (l: int)
    requires |order| == n + 1 && worstN > 0
    ensures var l0 := Min(worstN, n + 1);
      if l0 < n + 1 && n in order[n + 1 - l0..] then l == l0 + 1 else l == l0
  {
    var L := |order|;
    l := Min(worstN, L);
    ghost var l0, at := l, -1;
    var i := 0;
    while i < l
      invariant 0 <= i <= l == l0 && at == -1
      invariant l0 < L ==> forall p :: L - l0 <= p < L - l0 + i ==> order[p] != n
    {
      var j := L - l + i;
      if order[j] == n && l < L {
        l, at := l + 1, j;
        break;
      }
      i := i + 1;
    }
    if at != -1 {
      assert order[L - l0..][at - (L - l0)] == n;
    } else if l0 < L {
      assert n !in order[L - l0..];
    }
  }

  /** The window worst mode settles on: the last `Min(worstN, n + 1)` ranks,
      one more when the constant term is among them and there is room. */
  lemma WorstWindow(order: seq<int>, n: nat, worstN: int, l: int)
    requires IsPermutation(order, n + 1) && worstN > 0
    requires var l0 := Min(worstN, n + 1);
      if l0 < n + 1 && n in order[n + 1 - l0..] then l == l0 + 1 else l == l0
    ensures |Without(order, n)| == n
    ensures Without(order[n + 1 - l..], n) == Without(order, n)[n - Min(worstN, n)..]
  {
    var l0 := Min(worstN, n + 1);
    SuffixSkip(order, n, l);
    if l == l0 + 1 {
      var p :| 0 <= p < l0 && order[n + 1 - l0..][p] == n;
      assert order[n + 1 - l..][p + 1] == n;
    } else if l0 < n + 1 {
      assert n !in order[n + 1 - l..];
    } else {
      PermutationFacts(order, n + 1);
      assert order[n + 1 - l..] == order;
    }
  }

  /** Over a ranking of the coefficients, the real records that best and worst
      mode print keep ascending coefficient order, the single best record
      first and the single worst last. */
  lemma RealRecordsRanked(order: seq<int>, coef: seq<real>, n: nat)
    requires |coef| == n + 1 && IsPermutation(order, n + 1) && Ranked(order, coef)
    ensures IsPermutation(Without(order, n), n)
    ensures Ranked(Without(order, n), coef)
    ensures n >= 1 ==> forall i :: 0 <= i < n ==>
      coef[Without(order, n)[0]] <= coef[i] <= coef[Without(order, n)[n - 1]]
  {
    var w := Without(order, n);
    WithoutConstantIsPermutation(order, n);
    WithoutKeepsRanking(order, coef, n);
    PermutationFacts(w, n);
    forall i | 0 <= i < n
      ensures coef[w[0]] <= coef[i] <= coef[w[n - 1]]
    {
      assert i in w;
      var p :| 0 <= p < n && w[p] == i;
    }
  }
}
