/** The header statistics over the trials: minimum, median, mean and maximum
    observed time, read off the trials once they are sorted by time. */
module TrialStats {
  import opened Inlines
  import opened Sorting

  /** The sort key of a trial. */
  function TimeOf(t: BenchmarkTrial): real
  {
    t.time
  }

  function Times(trials: seq<BenchmarkTrial>): seq<real>
  {
    seq(|trials|, i requires 0 <= i < |trials| => trials[i].time)
  }

  function Sum(s: seq<real>): real
  {
    if |s| == 0 then 0.0 else Sum(s[..|s| - 1]) + s[|s| - 1]
  }

  /** A sum of values that all lie between `lo` and `hi` lies between the
      count times `lo` and the count times `hi`. */
  lemma {:induction false} SumBounds(s: seq<real>, lo: real, hi: real)
    requires forall i :: 0 <= i < |s| ==> lo <= s[i] <= hi
    ensures |s| as real * lo <= Sum(s) <= |s| as real * hi
    decreases |s|
  {
    if |s| > 0 {
      var k := |s| - 1;
      SumBounds(s[..k], lo, hi);
      assert |s| as real * lo == k as real * lo + lo;
      assert |s| as real * hi == k as real * hi + hi;
    }
  }

  lemma {:induction false} SumAppend(a: seq<real>, b: seq<real>)
    ensures Sum(a + b) == Sum(a) + Sum(b)
    decreases |b|
  {
    if |b| == 0 {
      assert a + b == a;
    } else {
      var k := |b| - 1;
      assert (a + b)[..|a + b| - 1] == a + b[..k];
      SumAppend(a, b[..k]);
    }
  }

  lemma TimesAppend(a: seq<BenchmarkTrial>, b: seq<BenchmarkTrial>)
    ensures Times(a + b) == Times(a) + Times(b)
  {
  }

  /** The total time does not depend on the order of the trials. */
  lemma {:induction false} SumPermutation(s: seq<BenchmarkTrial>, t: seq<BenchmarkTrial>)
    requires multiset(s) == multiset(t)
    ensures Sum(Times(s)) == Sum(Times(t))
    decreases |s|
  {
    assert |s| == |multiset(s)| == |t|;
    if |s| > 0 {
      var k := |s| - 1;
      var x := s[k];
      assert s == s[..k] + [x];
      assert x in multiset(t);
      var i :| 0 <= i < |t| && t[i] == x;
      var rest := t[..i] + t[i + 1..];
      assert t == t[..i] + [x] + t[i + 1..];
      assert multiset(t) == multiset(rest) + multiset{x};
      MultisetCancel(s[..k], rest, x);
      SumPermutation(s[..k], rest);
      SumRemove(t, i);
      assert Times(s)[..k] == Times(s[..k]);
    }
  }

  /** Taking one trial out of the list takes its time out of the total. */
  lemma SumRemove(t: seq<BenchmarkTrial>, i: int)
    requires 0 <= i < |t|
    ensures Sum(Times(t)) == Sum(Times(t[..i] + t[i + 1..])) + t[i].time
  {
    var front, back := t[..i], t[i + 1..];
    assert t == front + [t[i]] + back;
    TimesAppend(front + [t[i]], back);
    TimesAppend(front, [t[i]]);
    TimesAppend(front, back);
    assert Times([t[i]]) == [t[i].time];
    SumAppend(Times(front) + [t[i].time], Times(back));
    SumAppend(Times(front), [t[i].time]);
    assert Sum([t[i].time]) == t[i].time by {
      assert [t[i].time][..0] == [];
    }
    SumAppend(Times(front), Times(back));
  }

  lemma MultisetCancel(a: seq<BenchmarkTrial>, b: seq<BenchmarkTrial>, x: BenchmarkTrial)
    requires multiset(a) + multiset{x} == multiset(b) + multiset{x}
    ensures multiset(a) == multiset(b)
  {
    var m1, m2 := multiset(a), multiset(b);
    forall y
      ensures m1[y] == m2[y]
    {
      assert (m1 + multiset{x})[y] == (m2 + multiset{x})[y];
    }
  }

  /** The two middle positions of `len` sorted items: mirror images of each
      other about the centre, equal exactly when `len` is odd. */
  function MiddlePositions(len: nat): (r: (nat, nat))
    requires len >= 1
    ensures r.0 <= r.1 < len
    ensures r.0 + r.1 == len - 1
    ensures r.0 == r.1 <==> len % 2 == 1
  {
    ((len - 1) / 2, len / 2)
  }

  ghost predicate Ascending(s: seq<real>)
  {
    forall p, q :: 0 <= p < q < |s| ==> s[p] <= s[q]
  }

  /** The mean of the two middle values. Of a sorted list it is no smaller
      than anything in the lower half and no larger than anything in the
      upper half. */
  function Median(s: seq<real>): (m: real)
    requires |s| >= 1
    ensures Ascending(s) ==> forall i :: 0 <= i <= MiddlePositions(|s|).0 ==> s[i] <= m
    ensures Ascending(s) ==> forall i :: MiddlePositions(|s|).1 <= i < |s| ==> m <= s[i]
  {
    var (lo, hi) := MiddlePositions(|s|);
    (s[lo] + s[hi]) / 2.0
  }

  lemma MedianExamples()
    ensures Median([1.0, 2.0, 3.0]) == 2.0
    ensures Median([1.0, 2.0, 3.0, 4.0]) == 2.5
  {
  }

  datatype Summary = Summary(min: real, median: real, avg: real, max: real)

  /** Sorts the trials by time, as the program does in place, and reads the
      statistics off the sorted list; an empty list fails at its first index.
      The minimum and maximum are times of actual trials and bound every
      time, and the median and the mean lie between them. */
  method Summarize(trials: seq<BenchmarkTrial>) returns (sorted: seq<BenchmarkTrial>, r: Result<Summary>)
    ensures multiset(sorted) == multiset(trials) && SortedByKey(sorted, TimeOf)
    ensures r.Err? <==> |trials| == 0
    ensures r.Err? ==> r.error == IndexOutOfRange(0, 0)
    ensures r.Ok? ==> (
      && |sorted| == |trials|
      && r.value.min == sorted[0].time && r.value.max == sorted[|sorted| - 1].time
      && r.value.median == Median(Times(sorted)))
    ensures r.Ok? ==> r.value.avg == Sum(Times(trials)) / |trials| as real
    ensures r.Ok? ==>
      && (exists i :: 0 <= i < |trials| && trials[i].time == r.value.min)
      && (exists i :: 0 <= i < |trials| && trials[i].time == r.value.max)
      && (forall i :: 0 <= i < |trials| ==> r.value.min <= trials[i].time <= r.value.max)
    ensures r.Ok? ==>
      && r.value.min <= r.value.median <= r.value.max
      && r.value.min <= r.value.avg <= r.value.max
  {
    sorted := SortTrials(trials);
    if |sorted| == 0 {
      return sorted, Err(IndexOutOfRange(0, 0));
    }
    var min := sorted[0].time;
    var max := sorted[|sorted| - 1].time;
    var median := (sorted[(|sorted| - 1) / 2].time + sorted[|sorted| / 2].time) / 2.0;
    var total := TotalTime(sorted);
    var avg := total / |sorted| as real;
    r := Ok(Summary(min, median, avg, max));
    SortedSummaryBounds(sorted);
    SummaryOfInput(trials, sorted);
  }

  /** The trials sorted by time in place, as a new list: a permutation of
      the input in non-decreasing time order. */
  method SortTrials(trials: seq<BenchmarkTrial>) returns (sorted: seq<BenchmarkTrial>)
    ensures |sorted| == |trials|
    ensures multiset(sorted) == multiset(trials) && SortedByKey(sorted, TimeOf)
  {
    var arr := new BenchmarkTrial[|trials|](i requires 0 <= i < |trials| => trials[i]);
    assert arr[..] == trials;
    SortByKey(arr, TimeOf);
    sorted := arr[..];
  }

  /** The total of the trial times, accumulated front to back. */
  method TotalTime(trials: seq<BenchmarkTrial>) returns (total: real)
    ensures total == Sum(Times(trials))
  {
    var times := Times(trials);
    total := 0.0;
    for i := 0 to |trials|
      invariant total == Sum(times[..i])
    {
      assert times[..i + 1][..i] == times[..i];
      total := total + trials[i].time;
    }
    assert times[..|trials|] == times;
  }

  /** Statistics read off a time-sorted copy of the trials describe the
      trials themselves: the ends of the copy are times of actual trials that
      bound every time, and the mean of the copy is the mean of the trials
      and lies between those ends. */
  lemma SummaryOfInput(trials: seq<BenchmarkTrial>, sorted: seq<BenchmarkTrial>)
    requires |trials| >= 1 && multiset(sorted) == multiset(trials) && SortedByKey(sorted, TimeOf)
    ensures |sorted| == |trials|
    ensures Sum(Times(sorted)) == Sum(Times(trials))
    ensures exists i :: 0 <= i < |trials| && trials[i].time == sorted[0].time
    ensures exists i :: 0 <= i < |trials| && trials[i].time == sorted[|sorted| - 1].time
    ensures forall i :: 0 <= i < |trials| ==> sorted[0].time <= trials[i].time <= sorted[|sorted| - 1].time
    ensures sorted[0].time <= Sum(Times(trials)) / |trials| as real <= sorted[|sorted| - 1].time
  {
    assert |sorted| == |multiset(sorted)| == |trials|;
    var min, max := sorted[0].time, sorted[|sorted| - 1].time;
    SumPermutation(sorted, trials);
    SortedSummaryBounds(sorted);
    forall i | 0 <= i < |trials|
      ensures min <= trials[i].time <= max
    {
      assert trials[i] in multiset(sorted);
      var p :| 0 <= p < |sorted| && sorted[p] == trials[i];
    }
    assert sorted[0] in multiset(trials);
    assert sorted[|sorted| - 1] in multiset(trials);
    MeanBounds(Times(trials), min, max);
  }

  /** Of trials sorted by time, the first and last times bound every time
      and the median. */
  lemma SortedSummaryBounds(trials: seq<BenchmarkTrial>)
    requires |trials| >= 1 && SortedByKey(trials, TimeOf)
    ensures forall i :: 0 <= i < |trials| ==> trials[0].time <= trials[i].time <= trials[|trials| - 1].time
    ensures trials[0].time <= Median(Times(trials)) <= trials[|trials| - 1].time
  {
    var times := Times(trials);
    forall p, q | 0 <= p < q < |times| ensures times[p] <= times[q] {
      assert TimeOf(trials[p]) <= TimeOf(trials[q]);
    }
    assert Ascending(times);
    forall i | 0 <= i < |trials| ensures trials[0].time <= trials[i].time <= trials[|trials| - 1].time {
      if 0 < i { assert TimeOf(trials[0]) <= TimeOf(trials[i]); }
      if i < |trials| - 1 { assert TimeOf(trials[i]) <= TimeOf(trials[|trials| - 1]); }
    }
  }

  /** The mean of values that all lie between `lo` and `hi` lies between them. */
  lemma MeanBounds(s: seq<real>, lo: real, hi: real)
    requires |s| >= 1
    requires forall i :: 0 <= i < |s| ==> lo <= s[i] <= hi
    ensures lo <= Sum(s) / |s| as real <= hi
  {
    SumBounds(s, lo, hi);
    DivideBounds(Sum(s), |s| as real, lo, hi);
  }

  /** Dividing by a positive count keeps a value between the bounds it had
      as a multiple of them. */
  lemma DivideBounds(x: real, c: real, lo: real, hi: real)
    requires c > 0.0 && c * lo <= x <= c * hi
    ensures lo <= x / c <= hi
  {
    assert x / c - lo == (x - c * lo) / c;
    assert hi - x / c == (c * hi - x) / c;
  }
}
