/** The default full report: percentile table, the 50 most and least
    beneficial entries, and the run of negative coefficients. `coef` is the
    solved coefficient vector (last entry: the constant term) and `order` its
    ranking. */
module Report {
  import opened Inlines
  import opened Ranking

  /** Position of the `10 * i`-th percentile among `len` ranked values:
      `i * len / 10` rounded half up, pulled back to the last position when it
      runs off the end. */
  function PercentileIndex(i: int, len: int): (j: int)
    requires 0 <= i <= 10 && len >= 1
    ensures 0 <= j < len
    ensures i == 0 ==> j == 0
    ensures i == 10 ==> j == len - 1
    ensures 10 * j <= i * len + 5
    ensures j == len - 1 || i * len + 5 < 10 * j + 10
  {
    var j := (i * len + 5) / 10;
    if j == len then j - 1 else j
  }

  /** Higher percentiles never sit at lower positions. */
  lemma PercentileMonotone(i1: int, i2: int, len: int)
    requires 0 <= i1 <= i2 <= 10 && len >= 1
    ensures PercentileIndex(i1, len) <= PercentileIndex(i2, len)
  {
    assert i1 * len <= i2 * len by {
      assert (i2 - i1) * len >= 0;
    }
  }

  /** With eleven values the 50th percentile is read at position 6, and the
      0th and 100th at the two ends. */
  lemma PercentileExample()
    ensures PercentileIndex(5, 11) == 6
    ensures PercentileIndex(0, 11) == 0 && PercentileIndex(10, 11) == 10
  {
  }

  /** The indices of `order` all lie inside the coefficient vector. */
  ghost predicate Indexes(order: seq<int>, coef: seq<real>)
  {
    |order| == |coef| && forall p :: 0 <= p < |order| ==> 0 <= order[p] < |coef|
  }

  /** The eleven-line percentile table as (position, coefficient) pairs. Over
      a ranking, its values climb from the smallest coefficient to the
      largest. */
  method Percentiles(coef: seq<real>, order: seq<int>) returns (table: seq<(int, real)>)
    requires |coef| >= 1 && Indexes(order, coef)
    ensures |table| == 11
    ensures forall i :: 0 <= i < 11 ==>
      table[i].0 == PercentileIndex(i, |order|) && table[i].1 == coef[order[table[i].0]]
    ensures Ranked(order, coef) ==> forall i1, i2 :: 0 <= i1 <= i2 < 11 ==> table[i1].1 <= table[i2].1
    ensures IsPermutation(order, |coef|) && Ranked(order, coef) ==>
      forall c :: 0 <= c < |coef| ==> table[0].1 <= coef[c] <= table[10].1
  {
    table := [];
    for i := 0 to 11
      invariant |table| == i
      invariant forall k :: 0 <= k < i ==>
        table[k].0 == PercentileIndex(k, |order|) && table[k].1 == coef[order[table[k].0]]
    {
      var j := PercentileIndex(i, |order|);
      table := table + [(j, coef[order[j]])];
    }
    if Ranked(order, coef) {
      TableClimbs(coef, order, table);
    }
  }

  /** Over a ranking, the percentile values never decrease, and over a
      ranking of every index they run from the smallest coefficient to the
      largest. */
  lemma TableClimbs(coef: seq<real>, order: seq<int>, table: seq<(int, real)>)
    requires |coef| >= 1 && Indexes(order, coef) && Ranked(order, coef)
    requires |table| == 11
    requires forall i :: 0 <= i < 11 ==>
      table[i].0 == PercentileIndex(i, |order|) && table[i].1 == coef[order[table[i].0]]
    ensures forall i1, i2 :: 0 <= i1 <= i2 < 11 ==> table[i1].1 <= table[i2].1
    ensures IsPermutation(order, |coef|) ==>
      forall c :: 0 <= c < |coef| ==> table[0].1 <= coef[c] <= table[10].1
  {
    forall i1, i2 | 0 <= i1 <= i2 < 11
      ensures table[i1].1 <= table[i2].1
    {
      PercentileMonotone(i1, i2, |order|);
      RankedAt(coef, order, table[i1].0, table[i2].0);
    }
    if IsPermutation(order, |coef|) {
      forall c | 0 <= c < |coef|
        ensures table[0].1 <= coef[c] <= table[10].1
      {
        RankedEnds(coef, order, c);
      }
    }
  }

  lemma RankedAt(coef: seq<real>, order: seq<int>, p: int, q: int)
    requires Indexes(order, coef) && Ranked(order, coef)
    requires 0 <= p <= q < |order|
    ensures coef[order[p]] <= coef[order[q]]
  {
  }

  /** The first and last ranks of a ranking hold the smallest and the largest
      coefficient. */
  lemma RankedEnds(coef: seq<real>, order: seq<int>, c: int)
    requires IsPermutation(order, |coef|) && Ranked(order, coef)
    requires 0 <= c < |coef|
    ensures coef[order[0]] <= coef[c] <= coef[order[|order| - 1]]
  {
    PermutationFacts(order, |coef|);
    assert c in order;
    var p :| 0 <= p < |order| && order[p] == c;
  }

  /** One line of a listing: a ranked real record, or the constant term. */
  datatype Listed = RecordAt(rank: nat, index: nat) | ConstantAt(rank: nat)

  /** How a listing names rank `rank`: any index past the records is the
      constant term. */
  function Tag(order: seq<int>, n: nat, rank: nat): Listed
    requires rank < |order| && order[rank] >= 0
  {
    if order[rank] >= n then ConstantAt(rank) else RecordAt(rank, order[rank])
  }

  /** Among any ranks of a ranking of `0 .. n`, only the rank holding `n`
      is tagged as the constant term, and every other rank names a real
      record. */
  lemma TagOnce(order: seq<int>, n: nat, r1: nat, r2: nat)
    requires IsPermutation(order, n + 1) && r1 < |order| && r2 < |order|
    ensures Tag(order, n, r1).ConstantAt? <==> order[r1] == n
    ensures Tag(order, n, r1).RecordAt? ==> Tag(order, n, r1).index < n
    ensures Tag(order, n, r1).ConstantAt? && Tag(order, n, r2).ConstantAt? ==> r1 == r2
  {
    PermutationFacts(order, n + 1);
  }

  /** The ranks the top listing walks all point at real records. */
  ghost predicate TopInRange(order: seq<int>, n: nat)
  {
    forall t :: 0 <= t < Min(50, |order|) ==> order[t] < n
  }

  /** The top listing as the program has it: the first `Min(50, n + 1)`
      ranks, each used unchecked as an index into the record list, so it
      stops with an index-out-of-range failure at the constant term. */
  method TopListing(order: seq<int>, n: nat) returns (r: Result<seq<Listed>>)
    requires forall p :: 0 <= p < |order| ==> 0 <= order[p]
    ensures r.Ok? <==> TopInRange(order, n)
    ensures r.Ok? ==>
      && |r.value| == Min(50, |order|)
      && (forall t :: 0 <= t < |r.value| ==> r.value[t] == RecordAt(t, order[t]))
    ensures r.Err? ==>
      exists t :: 0 <= t < Min(50, |order|) && order[t] >= n
        && r.error == IndexOutOfRange(order[t], n)
        && (forall q :: 0 <= q < t ==> order[q] < n)
  {
    var listing := [];
    for i := 0 to Min(50, |order|)
      invariant |listing| == i
      invariant forall t :: 0 <= t < i ==> order[t] < n && listing[t] == RecordAt(t, order[t])
    {
      var k := order[i];
      if k >= n {
        return Err(IndexOutOfRange(k, n));
      }
      listing := listing + [RecordAt(i, k)];
    }
    r := Ok(listing);
  }

  /** With fewer than 50 records the top listing reaches the constant term
      and fails, whatever the coefficients; with more it fails exactly when
      the constant term ranks among the first 50. */
  lemma TopListingFails(order: seq<int>, n: nat)
    requires IsPermutation(order, n + 1)
    ensures TopInRange(order, n) <==> n !in order[..Min(50, n + 1)]
    ensures n < 50 ==> !TopInRange(order, n)
  {
    var k := Min(50, n + 1);
    if n in order[..k] {
      var p :| 0 <= p < k && order[..k][p] == n;
      assert order[p] == n;
    }
    if n < 50 {
      PermutationFacts(order, n + 1);
      assert order[..k] == order;
    }
  }

  /** The top listing with the constant term tagged the way the bottom
      listing tags it: never fails. */
  method TopListingTagged(order: seq<int>, n: nat) returns (listing: seq<Listed>)
    requires forall p :: 0 <= p < |order| ==> 0 <= order[p]
    ensures |listing| == Min(50, |order|)
    ensures forall t :: 0 <= t < |listing| ==> listing[t] == Tag(order, n, t)
  {
    listing := [];
    for i := 0 to Min(50, |order|)
      invariant |listing| == i
      invariant forall t :: 0 <= t < i ==> listing[t] == Tag(order, n, t)
    {
      var k := order[i];
      if k >= n {
        listing := listing + [ConstantAt(i)];
      } else {
        listing := listing + [RecordAt(i, k)];
      }
    }
  }

  /** The bottom listing: the last `Min(50, n + 1)` ranks in ascending rank,
      the constant term tagged rather than looked up. */
  method BottomListing(order: seq<int>, n: nat) returns (listing: seq<Listed>)
    requires forall p :: 0 <= p < |order| ==> 0 <= order[p]
    ensures |listing| == Min(50, |order|)
    ensures forall t :: 0 <= t < |listing| ==> listing[t] == Tag(order, n, |order| - |listing| + t)
  {
    var m := Min(50, |order|);
    listing := [];
    var i := m;
    while i > 0
      invariant 0 <= i <= m
      invariant |listing| == m - i
      invariant forall t :: 0 <= t < m - i ==> listing[t] == Tag(order, n, |order| - m + t)
    {
      var j := |order| - i;
      var k := order[j];
      if k >= n {
        listing := listing + [ConstantAt(j)];
      } else {
        listing := listing + [RecordAt(j, k)];
      }
      i := i - 1;
    }
  }

  /** Sum of the coefficients at the first `k` ranks. */
  function RunSum(coef: seq<real>, order: seq<int>, k: nat): real
    requires k <= |order| && Indexes(order, coef)
  {
    if k == 0 then 0.0 else RunSum(coef, order, k - 1) + coef[order[k - 1]]
  }

  /** A diagnostic line of the scan: running count, running total, and the
      coefficient just added. */
  datatype TraceLine = TraceLine(count: nat, benefit: real, last: real)

  /** The scan over ranked coefficients: counts and sums them until the first
      one that is not negative. Trace lines come out each time the running
      total crosses the next whole-number mark, among the first 50 ranks;
      they change nothing in the count or the total. */
  method NegativeScan(coef: seq<real>, order: seq<int>)
    returns (count: nat, benefit: real, printAtBenefit: real, trace: seq<TraceLine>)
    requires Indexes(order, coef)
    ensures count <= |order|
    ensures forall t :: 0 <= t < count ==> coef[order[t]] < 0.0
    ensures count < |order| ==> coef[order[count]] >= 0.0
    ensures benefit == RunSum(coef, order, count)
    ensures printAtBenefit <= -1.0
    ensures forall e :: e in trace ==>
      && 1 <= e.count <= count && e.count <= 50
      && e.benefit == RunSum(coef, order, e.count) <= -1.0
      && e.last == coef[order[e.count - 1]]
    ensures forall a, b :: 0 <= a < b < |trace| ==> trace[a].count < trace[b].count
  {
    count, benefit, printAtBenefit, trace := 0, 0.0, -1.0, [];
    for k := 0 to |order|
      invariant count == k
      invariant forall t :: 0 <= t < k ==> coef[order[t]] < 0.0
      invariant benefit == RunSum(coef, order, count)
      invariant printAtBenefit <= -1.0
      invariant forall e :: e in trace ==>
        && 1 <= e.count <= count && e.count <= 50
        && e.benefit == RunSum(coef, order, e.count) <= -1.0
        && e.last == coef[order[e.count - 1]]
      invariant forall a, b :: 0 <= a < b < |trace| ==> trace[a].count < trace[b].count
    {
      var v := coef[order[k]];
      if v >= 0.0 {
        break;
      }
      count := count + 1;
      benefit := benefit + v;
      if benefit <= printAtBenefit {
        if k < 50 {
          trace := trace + [TraceLine(count, benefit, v)];
        }
        printAtBenefit := printAtBenefit - 1.0;
      }
    }
  }

  /** The positions of the strictly negative coefficients. */
  ghost function NegativeIndices(coef: seq<real>): set<int>
  {
    set i | 0 <= i < |coef| && coef[i] < 0.0
  }

  /** Over a ranking, the run the scan counts is exactly the set of negative
      coefficients, so its count is their number. */
  lemma ScanCountsNegatives(coef: seq<real>, order: seq<int>, count: nat)
    requires IsPermutation(order, |coef|) && Ranked(order, coef)
    requires count <= |order|
    requires forall t :: 0 <= t < count ==> coef[order[t]] < 0.0
    requires count < |order| ==> coef[order[count]] >= 0.0
    ensures NegativeIndices(coef) == RankedIndices(order, count)
    ensures |NegativeIndices(coef)| == count
  {
    PermutationFacts(order, |coef|);
    forall i | i in NegativeIndices(coef)
      ensures i in RankedIndices(order, count)
    {
      assert 0 <= i < |coef| && i in order;
      var p :| 0 <= p < |order| && order[p] == i;
      if p >= count {
        assert false;
      }
    }
    RankedIndicesCount(order, count);
  }

  /** The indices at the first `k` ranks. */
  ghost function RankedIndices(order: seq<int>, k: nat): set<int>
    requires k <= |order|
  {
    set t | 0 <= t < k :: order[t]
  }

  /** Distinct ranks name distinct indices, so the first `k` ranks name `k`
      of them. */
  lemma {:induction false} RankedIndicesCount(order: seq<int>, k: nat)
    requires k <= |order|
    requires forall p, q :: 0 <= p < q < |order| ==> order[p] != order[q]
    ensures |RankedIndices(order, k)| == k
  {
    if k > 0 {
      RankedIndicesCount(order, k - 1);
      assert RankedIndices(order, k) == RankedIndices(order, k - 1) + {order[k - 1]};
      assert order[k - 1] !in RankedIndices(order, k - 1);
    }
  }
}
