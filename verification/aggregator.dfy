/** `avg_slope_intercept`: fit, classify and average a frame's segments, then
    reconstruct both lane lines inside one protected block, so that a failure
    on either side discards the whole frame. */
module Aggregator {
  import opened Options
  import opened Fitting
  import opened Reconstruction

  /** The left and right groups of a batch of segments. */
  function Groups(segs: seq<Segment>): (seq<Fit>, seq<Fit>)
    requires AllNonVertical(segs)
  {
    Partition(Fits(segs))
  }

  /** `avg_slope_intercept(image, lines)` for a frame of `height` rows: the
      `[left, right]` pair of lane lines, or `None` where the source prints the
      caught exception and returns `None`. An empty batch never binds the
      averages, so the first reconstruction raises a `NameError`; here both
      groups are empty and the first reconstruction fails all the same
      (`AggregateFrame` keeps the unbound names). Each line of a result is
      built from its own group's mean, the first from the left group's and the
      second from the right group's: both means exist with non-zero slope, and
      each endpoint is that mean's crossing of the endpoint's row, truncated
      toward zero. */
  function AvgSlopeIntercept(height: nat, segs: seq<Segment>): (lanes: Option<(LaneLine, LaneLine)>)
    requires AllNonVertical(segs)
    ensures |segs| == 0 ==> lanes.None?
    ensures lanes.Some? ==> lanes.value.0.y1 == height && lanes.value.1.y1 == height
    ensures lanes.Some? ==> lanes.value.0.y2 == UpperRow(height) && lanes.value.1.y2 == UpperRow(height)
    ensures lanes.Some? ==>
      var left := Average(Groups(segs).0);
      && left.Some? && left.value.m != 0.0
      && NearLine(left.value, lanes.value.0.x1, height)
      && NearLine(left.value, lanes.value.0.x2, UpperRow(height))
    ensures lanes.Some? ==>
      var right := Average(Groups(segs).1);
      && right.Some? && right.value.m != 0.0
      && NearLine(right.value, lanes.value.1.x1, height)
      && NearLine(right.value, lanes.value.1.x2, UpperRow(height))
  {
    var groups := Groups(segs);
    match MakeCoordinates(height, Average(groups.0))
    case None => None
    case Some(left) =>
      match MakeCoordinates(height, Average(groups.1))
      case None => None
      case Some(right) => Some((left, right))
  }

  /** Some segment of the batch has a strictly negative slope. */
  ghost predicate HasNegative(segs: seq<Segment>) {
    exists i :: 0 <= i < |segs| && NegativeSlope(segs[i])
  }

  /** Some segment of the batch has a strictly positive slope. */
  ghost predicate HasPositive(segs: seq<Segment>) {
    exists i :: 0 <= i < |segs| && PositiveSlope(segs[i])
  }

  /** The left group is non-empty exactly when some segment slopes negatively,
      and then its average slope is negative. */
  lemma LeftGroupNonEmptyIff(segs: seq<Segment>)
    requires AllNonVertical(segs)
    ensures |Groups(segs).0| > 0 <==> HasNegative(segs)
    ensures |Groups(segs).0| > 0 ==> Average(Groups(segs).0).Some? && Average(Groups(segs).0).value.m < 0.0
  {
    var fs := Fits(segs);
    var left := Groups(segs).0;
    if HasNegative(segs) {
      var i :| 0 <= i < |segs| && NegativeSlope(segs[i]);
      FitSlopeSign(segs[i]);
      PartitionMembership(fs, i);
    }
    if |left| > 0 {
      assert left[0] in multiset(fs);
      var i :| 0 <= i < |fs| && fs[i] == left[0];
      FitSlopeSign(segs[i]);
      AverageNegative(left);
    }
  }

  /** The right group averages to a usable (non-zero) slope exactly when some
      segment slopes positively; horizontal segments alone average to zero. */
  lemma RightSlopeNonZeroIff(segs: seq<Segment>)
    requires AllNonVertical(segs)
    ensures (Average(Groups(segs).1).Some? && Average(Groups(segs).1).value.m != 0.0) <==> HasPositive(segs)
  {
    var fs := Fits(segs);
    var right := Groups(segs).1;
    if HasPositive(segs) {
      var i :| 0 <= i < |segs| && PositiveSlope(segs[i]);
      FitSlopeSign(segs[i]);
      PartitionMembership(fs, i);
      var k :| 0 <= k < |right| && right[k] == fs[i];
      AverageNonNegative(right);
    }
    if Average(right).Some? && Average(right).value.m != 0.0 {
      AverageNonNegative(right);
      var k :| 0 <= k < |right| && right[k].m != 0.0;
      assert right[k] in multiset(fs);
      var i :| 0 <= i < |fs| && fs[i] == right[k];
      FitSlopeSign(segs[i]);
    }
  }

  /** The frame yields lane lines exactly when it holds a segment of negative
      slope and one of positive slope; otherwise the result is `None`. */
  lemma SucceedsIff(height: nat, segs: seq<Segment>)
    requires AllNonVertical(segs)
    ensures AvgSlopeIntercept(height, segs).Some? <==> HasNegative(segs) && HasPositive(segs)
  {
    LeftGroupNonEmptyIff(segs);
    RightSlopeNonZeroIff(segs);
  }

  /** A well-determined left side does not rescue a frame without a positive
      slope: the left line alone would reconstruct, yet nothing is returned. */
  lemma OneSidedFrameDiscarded(height: nat, segs: seq<Segment>)
    requires AllNonVertical(segs)
    requires HasNegative(segs)
    requires forall i :: 0 <= i < |segs| ==> !PositiveSlope(segs[i])
    ensures MakeCoordinates(height, Average(Groups(segs).0)).Some?
    ensures AvgSlopeIntercept(height, segs).None?
  {
    LeftGroupNonEmptyIff(segs);
    SucceedsIff(height, segs);
  }

  /** A successful result is ordered `[left, right]`: the first line comes from
      the negative-slope group and leans right as it rises, the second from the
      positive-slope group and leans left. */
  lemma LeftThenRight(height: nat, segs: seq<Segment>)
    requires AllNonVertical(segs)
    ensures AvgSlopeIntercept(height, segs).Some? ==>
      var lanes := AvgSlopeIntercept(height, segs).value;
      && lanes.0.x1 <= lanes.0.x2
      && lanes.1.x1 >= lanes.1.x2
  {
    if AvgSlopeIntercept(height, segs).Some? {
      var groups := Groups(segs);
      LeftGroupNonEmptyIff(segs);
      var left, right := Average(groups.0).value, Average(groups.1).value;
      AverageNonNegative(groups.1);
      LaneLineLeans(height, left);
      LaneLineLeans(height, right);
    }
  }

  /** The order of the segments in a frame does not matter. */
  lemma OrderIrrelevant(height: nat, segs: seq<Segment>, segs': seq<Segment>)
    requires AllNonVertical(segs) && AllNonVertical(segs')
    requires multiset(segs) == multiset(segs')
    ensures AvgSlopeIntercept(height, segs) == AvgSlopeIntercept(height, segs')
  {
    assert |segs| == |multiset(segs)| == |multiset(segs')| == |segs'|;
    FitsPermutation(segs, segs');
    PartitionPermutation(Fits(segs), Fits(segs'));
    AveragePermutation(Groups(segs).0, Groups(segs').0);
    AveragePermutation(Groups(segs).1, Groups(segs').1);
  }

  /** Extending the processed prefix by one segment appends that segment's fit
      to the group its slope sign selects. */
  lemma GroupsStep(segs: seq<Segment>, k: int)
    requires AllNonVertical(segs)
    requires 0 <= k < |segs|
    ensures AllNonVertical(segs[..k]) && AllNonVertical(segs[..k + 1])
    ensures var f, groups := FitSegment(segs[k]), Groups(segs[..k]);
      Groups(segs[..k + 1]) == if f.m < 0.0 then (groups.0 + [f], groups.1) else (groups.0, groups.1 + [f])
  {
    assert segs[..k + 1][..k] == segs[..k];
  }

  /** The source's loop as written: each segment is fitted and appended to its
      group, and both averages are recomputed inside the loop body, so they are
      bound only once the loop has run. The `try` block follows. */
  method AggregateFrame(height: nat, lines: seq<Segment>) returns (lanes: Option<(LaneLine, LaneLine)>)
    requires AllNonVertical(lines)
    ensures lanes == AvgSlopeIntercept(height, lines)
  {
    var leftFit: seq<Fit> := [];
    var rightFit: seq<Fit> := [];
    // `None` while the name is unbound; `Some(None)` is numpy's scalar NaN.
    var leftFitAvg: Option<Option<Fit>> := None;
    var rightFitAvg: Option<Option<Fit>> := None;
    for k := 0 to |lines|
      invariant AllNonVertical(lines[..k])
      invariant (leftFit, rightFit) == Groups(lines[..k])
      invariant k == 0 ==> leftFitAvg.None? && rightFitAvg.None?
      invariant k > 0 ==> leftFitAvg == Some(Average(leftFit)) && rightFitAvg == Some(Average(rightFit))
    {
      GroupsStep(lines, k);
      var parameters := FitSegment(lines[k]);
      if parameters.m < 0.0 {
        leftFit := leftFit + [parameters];
      } else {
        rightFit := rightFit + [parameters];
      }
      leftFitAvg := Some(Average(leftFit));
      rightFitAvg := Some(Average(rightFit));
    }
    assert lines[..|lines|] == lines;
    if leftFitAvg.None? {
      return None;
    }
    var left := MakeCoordinates(height, leftFitAvg.value);
    if left.None? {
      return None;
    }
    var right := MakeCoordinates(height, rightFitAvg.value);
    if right.None? {
      return None;
    }
    lanes := Some((left.value, right.value));
  }
}
