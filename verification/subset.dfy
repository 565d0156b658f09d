/** Subset mode: the records active in a single seed/threshold trial, written
    out to build that trial's input. */
module Subset {
  import opened Inlines
  import opened Selector

  /** The positions of the active sites among the first `n`, in increasing
      order. */
  function Picked(n: nat, d: Draws, threshold: int): (p: seq<nat>)
    ensures forall k :: 0 <= k < |p| ==> p[k] < n
    ensures forall k, m :: 0 <= k < m < |p| ==> p[k] < p[m]
    ensures forall i :: 0 <= i < n ==> (i in p <==> d(i) < threshold)
  {
    if n == 0 then []
    else Picked(n - 1, d, threshold) + (if d(n - 1) < threshold then [n - 1] else [])
  }

  /** The records whose site is active, in input order. */
  function Selected(inlines: seq<InlineRecord>, d: Draws, threshold: int): seq<InlineRecord>
  {
    if |inlines| == 0 then []
    else
      var last := |inlines| - 1;
      Selected(inlines[..last], d, threshold) + (if d(last) < threshold then [inlines[last]] else [])
  }

  /** The records at the given positions, in the order the positions come. */
  function Gather(inlines: seq<InlineRecord>, idx: seq<nat>): seq<InlineRecord>
    requires forall k :: 0 <= k < |idx| ==> idx[k] < |inlines|
  {
    seq(|idx|, k requires 0 <= k < |idx| => inlines[idx[k]])
  }

  /** Runs the selector once over a buffer one slot longer than the record list
      (the constant slot gets -1 and is never looked at) and keeps each record
      whose slot is positive. */
  method SubsetMode(inlines: seq<InlineRecord>, d: Draws, threshold: int) returns (out: seq<InlineRecord>)
    ensures out == Selected(inlines, d, threshold)
  {
    var vstore := new real[1 + |inlines|];
    FillRow(d, threshold, vstore, -1.0);
    out := [];
    for i := 0 to |inlines|
      invariant out == Selected(inlines[..i], d, threshold)
    {
      assert vstore[i] == Row(d, threshold, vstore.Length, -1.0)[i];
      if vstore[i] > 0.0 {
        out := out + [inlines[i]];
      }
      assert inlines[..i + 1][..i] == inlines[..i];
    }
    assert inlines[..|inlines|] == inlines;
  }

  /** The output is exactly the records at the active positions, in input
      order: a subsequence of the input, and no other record. */
  lemma {:induction false} SelectedIsPicked(inlines: seq<InlineRecord>, d: Draws, threshold: int)
    ensures Selected(inlines, d, threshold) == Gather(inlines, Picked(|inlines|, d, threshold))
    decreases |inlines|
  {
    if |inlines| > 0 {
      var last := |inlines| - 1;
      var front := inlines[..last];
      SelectedIsPicked(front, d, threshold);
      var p := Picked(last, d, threshold);
      GatherPrefix(inlines, front, p);
      if d(last) < threshold {
        GatherAppend(inlines, p, [last]);
      } else {
        assert p + [] == p;
      }
    }
  }

  /** Positions inside a prefix gather the same records from it as from the
      whole list. */
  lemma GatherPrefix(inlines: seq<InlineRecord>, front: seq<InlineRecord>, p: seq<nat>)
    requires |front| <= |inlines| && front == inlines[..|front|]
    requires forall k :: 0 <= k < |p| ==> p[k] < |front|
    ensures Gather(inlines, p) == Gather(front, p)
  {
  }

  lemma GatherAppend(inlines: seq<InlineRecord>, p: seq<nat>, t: seq<nat>)
    requires forall k :: 0 <= k < |p| ==> p[k] < |inlines|
    requires forall k :: 0 <= k < |t| ==> t[k] < |inlines|
    ensures Gather(inlines, p + t) == Gather(inlines, p) + Gather(inlines, t)
  {
  }

  /** Threshold 100 or more keeps every record, unchanged and in order. */
  lemma {:induction false} SelectAllAtFullThreshold(inlines: seq<InlineRecord>, d: Draws, threshold: int)
    requires InRange(d, |inlines|) && threshold >= 100
    ensures Selected(inlines, d, threshold) == inlines
    decreases |inlines|
  {
    if |inlines| > 0 {
      var last := |inlines| - 1;
      SelectAllAtFullThreshold(inlines[..last], d, threshold);
      assert inlines[..last] + [inlines[last]] == inlines;
    }
  }

  /** Threshold 0 or less keeps nothing. */
  lemma {:induction false} SelectNoneAtZeroThreshold(inlines: seq<InlineRecord>, d: Draws, threshold: int)
    requires InRange(d, |inlines|) && threshold <= 0
    ensures Selected(inlines, d, threshold) == []
    decreases |inlines|
  {
    if |inlines| > 0 {
      SelectNoneAtZeroThreshold(inlines[..|inlines| - 1], d, threshold);
    }
  }

  /** The two uses of the selector agree: a record is written out in subset
      mode for a seed and threshold exactly when the regression row built for
      a trial with that seed and threshold has a 1 in the record's column,
      whatever the constant slot holds. */
  lemma PickedAgreesWithRow(n: nat, d: Draws, threshold: int, avg: real, i: nat)
    requires i < n
    ensures i in Picked(n, d, threshold) <==> Row(d, threshold, n + 1, avg)[i] == 1.0
  {
    RowSlots(d, threshold, n + 1, avg, i);
  }
}
