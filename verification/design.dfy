/** The regression system: one matrix row and one target value per trial. */
module Design {
  import opened Inlines
  import opened Selector
  import opened TrialStats

  /** Builds the matrix of `|trials|` rows and `n + 1` columns, and the vector
      of observed times, filling each row with the selector seeded by that
      trial's seed. `gen` stands for the seeded `math/rand` generator; `avg`
      is the mean time the program has just computed over these trials. The
      constant column therefore holds the mean of the target vector. */
  method BuildSystem(trials: seq<BenchmarkTrial>, n: nat, gen: Generator, avg: real)
    returns (a: seq<seq<real>>, b: seq<real>)
    requires |trials| >= 1 && avg == Sum(Times(trials)) / |trials| as real
    ensures |a| == |trials| && b == Times(trials)
    ensures forall i :: 0 <= i < |trials| ==>
      a[i] == Row(gen(trials[i].seed), trials[i].threshold, n + 1, avg)
    ensures forall i :: 0 <= i < |trials| ==>
      |a[i]| == n + 1 && a[i][n] == Sum(b) / |b| as real
  {
    a, b := [], [];
    for i := 0 to |trials|
      invariant |a| == i && |b| == i
      invariant forall k :: 0 <= k < i ==>
        a[k] == Row(gen(trials[k].seed), trials[k].threshold, n + 1, avg) && b[k] == trials[k].time
    {
      var row := new real[n + 1];
      FillRow(gen(trials[i].seed), trials[i].threshold, row, avg);
      a := a + [row[..]];
      b := b + [trials[i].time];
    }
    assert b == Times(trials);
    forall i | 0 <= i < |trials|
      ensures |a[i]| == n + 1 && a[i][n] == Sum(b) / |b| as real
    {
      assert a[i][n] == avg;
    }
  }
}
