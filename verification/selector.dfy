/** The site selector `fillRow`: one trial's row of the regression matrix. */
module Selector {

  /** The draws of one seeded `math/rand` generator: `d(k)` is the result of
      the k-th call of `Int31n(100)`. */
  type Draws = nat -> int

  /** A seeded generator: the draw sequence that a given seed produces. */
  type Generator = int -> Draws

  /** The first `k` draws lie in `[0, 100)`, as `Int31n(100)` promises. */
  ghost predicate InRange(d: Draws, k: nat)
  {
    forall i: nat :: i < k ==> 0 <= d(i) < 100
  }

  /** The row of `width` slots that `fillRow` leaves behind: the last slot is
      the constant-term value, slot `i` before it is the site indicator. */
  function Row(d: Draws, threshold: int, width: nat, avg: real): seq<real>
    requires width >= 1
  {
    seq(width, i requires 0 <= i < width =>
      if i == width - 1 then avg else if d(i) < threshold then 1.0 else 0.0)
  }

  /** Fills `row` in place: the constant slot first, then one draw per site. */
  method FillRow(d: Draws, threshold: int, row: array<real>, avg: real)
    requires row.Length >= 1
    modifies row
    ensures row[..] == Row(d, threshold, row.Length, avg)
  {
    row[row.Length - 1] := avg;
    var i := 0;
    while i < row.Length - 1
      invariant 0 <= i <= row.Length - 1
      invariant row[row.Length - 1] == avg
      invariant forall k :: 0 <= k < i ==> row[k] == (if d(k) < threshold then 1.0 else 0.0)
    {
      if d(i) < threshold {
        row[i] := 1.0;
      } else {
        row[i] := 0.0;
      }
      i := i + 1;
    }
  }

  /** The row keeps its width, the last slot holds the constant, and every
      other slot is an indicator that is set exactly when its draw is below
      the threshold. */
  lemma RowSlots(d: Draws, threshold: int, width: nat, avg: real, i: nat)
    requires width >= 1 && i < width - 1
    ensures |Row(d, threshold, width, avg)| == width
    ensures Row(d, threshold, width, avg)[width - 1] == avg
    ensures Row(d, threshold, width, avg)[i] in {0.0, 1.0}
    ensures Row(d, threshold, width, avg)[i] == 1.0 <==> d(i) < threshold
  {
  }

  /** With draws in `[0, 100)`, threshold 0 or less activates no site and
      threshold 100 or more activates every site. */
  lemma RowAtExtremeThresholds(d: Draws, threshold: int, width: nat, avg: real)
    requires width >= 1 && InRange(d, width - 1)
    ensures threshold <= 0 ==> forall i :: 0 <= i < width - 1 ==> Row(d, threshold, width, avg)[i] == 0.0
    ensures threshold >= 100 ==> forall i :: 0 <= i < width - 1 ==> Row(d, threshold, width, avg)[i] == 1.0
  {
  }

  /** The row depends on nothing but the first `width - 1` draws, the
      threshold and the constant: generators that agree on those draws (in
      particular, the same seed used twice) give the same row. */
  lemma RowDeterministic(d1: Draws, d2: Draws, threshold: int, width: nat, avg: real)
    requires width >= 1
    requires forall i: nat :: i < width - 1 ==> d1(i) == d2(i)
    ensures Row(d1, threshold, width, avg) == Row(d2, threshold, width, avg)
  {
  }
}
