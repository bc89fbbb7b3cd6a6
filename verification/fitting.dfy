/** The first half of the lane aggregator: every detected segment gets a
    degree-1 fit through its two endpoints, the fits are split by the sign of
    their slope into a left and a right group, and each group is averaged
    component-wise. Python floats are modelled as exact `real`s. */
module Fitting {
  import opened Options

  /** One detected segment: two endpoints in integer pixel coordinates. */
  datatype Segment = Segment(x1: int, y1: int, x2: int, y2: int)

  /** A line `y = m * x + b` in image coordinates: slope first, then intercept,
      the order in which `np.polyfit` returns them. */
  datatype Fit = Fit(m: real, b: real)

  /** A vertical segment has no slope; it is outside the model. */
  predicate NonVertical(s: Segment) {
    s.x1 != s.x2
  }

  predicate AllNonVertical(segs: seq<Segment>) {
    forall i :: 0 <= i < |segs| ==> NonVertical(segs[i])
  }

  /** The point `(x, y)` lies on the line `f`. */
  predicate PassesThrough(f: Fit, x: int, y: int) {
    f.m * x as real + f.b == y as real
  }

  /** The segment's slope is strictly negative, read off its integer
      coordinates alone: the rise and the run have opposite signs. */
  predicate NegativeSlope(s: Segment) {
    (s.y2 - s.y1) * (s.x2 - s.x1) < 0
  }

  /** The segment's slope is strictly positive: the rise and the run have the
      same sign. A horizontal segment satisfies neither this nor `NegativeSlope`. */
  predicate PositiveSlope(s: Segment) {
    (s.y2 - s.y1) * (s.x2 - s.x1) > 0
  }

  // ---------------------------------------------------------------------------
  // Fit
  // ---------------------------------------------------------------------------

  /** The degree-1 polynomial fit through a segment's two endpoints. */
  function FitSegment(s: Segment): (f: Fit)
    requires NonVertical(s)
    ensures PassesThrough(f, s.x1, s.y1)
    ensures PassesThrough(f, s.x2, s.y2)
  {
    var dx := (s.x2 - s.x1) as real;
    var dy := (s.y2 - s.y1) as real;
    var m := dy / dx;
    assert m * dx == dy;
    assert m * s.x2 as real - m * s.x1 as real == m * dx;
    Fit(m, s.y1 as real - m * s.x1 as real)
  }

  /** Two distinct columns determine the line: a fit through both endpoints is
      the one `FitSegment` returns, so the least-squares fit is exact. */
  lemma FitUnique(s: Segment, f: Fit)
    requires NonVertical(s)
    requires PassesThrough(f, s.x1, s.y1)
    requires PassesThrough(f, s.x2, s.y2)
    ensures f == FitSegment(s)
  {
    var dx := (s.x2 - s.x1) as real;
    var dy := (s.y2 - s.y1) as real;
    assert f.m * s.x2 as real - f.m * s.x1 as real == f.m * dx;
    assert f.m * dx == dy;
    assert f.m == dy / dx;
  }

  /** The fitted slope has the sign the integer coordinates give it. */
  lemma FitSlopeSign(s: Segment)
    requires NonVertical(s)
    ensures FitSegment(s).m < 0.0 <==> NegativeSlope(s)
    ensures FitSegment(s).m > 0.0 <==> PositiveSlope(s)
  {
    var dx := (s.x2 - s.x1) as real;
    var dy := (s.y2 - s.y1) as real;
    var m := FitSegment(s).m;
    assert m * dx == dy;
    assert m * (dx * dx) == dy * dx;
    assert dx * dx > 0.0;
    assert ((s.y2 - s.y1) * (s.x2 - s.x1)) as real == dy * dx;
  }

  /** The fits of a batch of segments, in order. */
  function Fits(segs: seq<Segment>): (fs: seq<Fit>)
    requires AllNonVertical(segs)
    ensures |fs| == |segs|
    ensures forall i :: 0 <= i < |segs| ==> fs[i] == FitSegment(segs[i])
  {
    if |segs| == 0 then [] else Fits(segs[..|segs| - 1]) + [FitSegment(segs[|segs| - 1])]
  }

  // ---------------------------------------------------------------------------
  // Classify
  // ---------------------------------------------------------------------------

  /** The left group (slope strictly negative) and the right group (every other
      slope, zero included). */
  function Partition(fs: seq<Fit>): (groups: (seq<Fit>, seq<Fit>))
    ensures forall i :: 0 <= i < |groups.0| ==> groups.0[i].m < 0.0
    ensures forall i :: 0 <= i < |groups.1| ==> groups.1[i].m >= 0.0
    ensures multiset(groups.0) + multiset(groups.1) == multiset(fs)
    ensures |groups.0| + |groups.1| == |fs|
  {
    if |fs| == 0 then ([], [])
    else
      var groups := Partition(fs[..|fs| - 1]);
      var f := fs[|fs| - 1];
      assert fs == fs[..|fs| - 1] + [f];
      PartitionStep(fs[..|fs| - 1], groups.0, groups.1, f);
      if f.m < 0.0 then (groups.0 + [f], groups.1) else (groups.0, groups.1 + [f])
  }

  /** Appending one fit to the group its slope selects keeps both groups a
      sign-respecting split of the extended input. */
  lemma PartitionStep(fs: seq<Fit>, left: seq<Fit>, right: seq<Fit>, f: Fit)
    requires forall i :: 0 <= i < |left| ==> left[i].m < 0.0
    requires forall i :: 0 <= i < |right| ==> right[i].m >= 0.0
    requires multiset(left) + multiset(right) == multiset(fs)
    requires |left| + |right| == |fs|
    ensures f.m < 0.0 ==>
      && (forall i :: 0 <= i < |left + [f]| ==> (left + [f])[i].m < 0.0)
      && multiset(left + [f]) + multiset(right) == multiset(fs + [f])
      && |left + [f]| + |right| == |fs + [f]|
    ensures f.m >= 0.0 ==>
      && (forall i :: 0 <= i < |right + [f]| ==> (right + [f])[i].m >= 0.0)
      && multiset(left) + multiset(right + [f]) == multiset(fs + [f])
      && |left| + |right + [f]| == |fs + [f]|
  {
    assert multiset(fs + [f]) == multiset(fs) + multiset{f};
  }

  /** Each fit lands in exactly one group: a negative-slope fit occurs in the
      left group as often as in the input and never in the right one, and every
      other fit the other way round. */
  lemma PartitionExact(fs: seq<Fit>, f: Fit)
    ensures multiset(Partition(fs).0)[f] == (if f.m < 0.0 then multiset(fs)[f] else 0)
    ensures multiset(Partition(fs).1)[f] == (if f.m < 0.0 then 0 else multiset(fs)[f])
  {
    var groups := Partition(fs);
    if f in groups.0 {
      var i :| 0 <= i < |groups.0| && groups.0[i] == f;
    }
    if f in groups.1 {
      var i :| 0 <= i < |groups.1| && groups.1[i] == f;
    }
  }

  /** A fit with negative slope is in the left group, any other in the right. */
  lemma PartitionMembership(fs: seq<Fit>, i: int)
    requires 0 <= i < |fs|
    ensures fs[i].m < 0.0 ==> fs[i] in Partition(fs).0
    ensures fs[i].m >= 0.0 ==> fs[i] in Partition(fs).1
  {
    PartitionExact(fs, fs[i]);
    assert fs[i] in multiset(fs);
  }

  /** Classification does not depend on the order of the fits. */
  lemma PartitionPermutation(a: seq<Fit>, b: seq<Fit>)
    requires multiset(a) == multiset(b)
    ensures multiset(Partition(a).0) == multiset(Partition(b).0)
    ensures multiset(Partition(a).1) == multiset(Partition(b).1)
  {
    forall f
      ensures multiset(Partition(a).0)[f] == multiset(Partition(b).0)[f]
      ensures multiset(Partition(a).1)[f] == multiset(Partition(b).1)[f]
    {
      PartitionExact(a, f);
      PartitionExact(b, f);
    }
  }

  // ---------------------------------------------------------------------------
  // Average
  // ---------------------------------------------------------------------------

  /** Component-wise sum of a sequence of fits. */
  function Total(fs: seq<Fit>): Fit
  {
    if |fs| == 0 then Fit(0.0, 0.0)
    else
      var t := Total(fs[..|fs| - 1]);
      Fit(t.m + fs[|fs| - 1].m, t.b + fs[|fs| - 1].b)
  }

  /** `np.average(group, axis=0)`: the component-wise mean of a group, or
      `None` for an empty group (numpy gives a scalar NaN there, which the
      later unpacking into slope and intercept rejects). */
  function Average(fs: seq<Fit>): (avg: Option<Fit>)
    ensures avg.None? <==> |fs| == 0
    ensures avg.Some? ==> avg.value.m * |fs| as real == Total(fs).m
    ensures avg.Some? ==> avg.value.b * |fs| as real == Total(fs).b
  {
    if |fs| == 0 then None
    else Some(Fit(Total(fs).m / |fs| as real, Total(fs).b / |fs| as real))
  }

  lemma {:induction false} TotalAppend(a: seq<Fit>, b: seq<Fit>)
    ensures Total(a + b) == Fit(Total(a).m + Total(b).m, Total(a).b + Total(b).b)
    decreases |b|
  {
    if |b| == 0 {
      assert a + b == a;
    } else {
      var b' := b[..|b| - 1];
      assert (a + b)[..|a + b| - 1] == a + b';
      TotalAppend(a, b');
    }
  }

  /** Removing the element at `j` leaves the rest of the multiset. */
  lemma MultisetSplit<T>(s: seq<T>, j: int)
    requires 0 <= j < |s|
    ensures s == s[..j] + [s[j]] + s[j + 1..]
    ensures multiset(s) == multiset(s[..j] + s[j + 1..]) + multiset{s[j]}
  {
    assert s == s[..j] + [s[j]] + s[j + 1..];
  }

  /** When `b` is a permutation of a non-empty `a`, the last element of `a`
      sits at some index `j` of `b`, and the rest of `a` is a permutation of
      `b` without that index. */
  lemma MatchLast<T>(a: seq<T>, b: seq<T>) returns (j: int)
    requires |a| > 0
    requires multiset(a) == multiset(b)
    ensures 0 <= j < |b| && b[j] == a[|a| - 1]
    ensures b == b[..j] + [b[j]] + b[j + 1..]
    ensures multiset(a[..|a| - 1]) == multiset(b[..j] + b[j + 1..])
  {
    var x := a[|a| - 1];
    MultisetSplit(a, |a| - 1);
    assert a[..|a| - 1] + a[|a|..] == a[..|a| - 1];
    assert x in multiset(b);
    j :| 0 <= j < |b| && b[j] == x;
    MultisetSplit(b, j);
    MultisetCancel(multiset(a[..|a| - 1]), multiset(b[..j] + b[j + 1..]), x);
  }

  /** Multisets that agree once the same element is added to each agree before. */
  lemma MultisetCancel<T>(p: multiset<T>, q: multiset<T>, x: T)
    requires p + multiset{x} == q + multiset{x}
    ensures p == q
  {
    assert p == p + multiset{x} - multiset{x};
  }

  /** The sum of a group does not depend on the order of its members. */
  lemma {:induction false} TotalPermutation(a: seq<Fit>, b: seq<Fit>)
    requires multiset(a) == multiset(b)
    ensures Total(a) == Total(b)
    decreases |a|
  {
    assert |a| == |multiset(a)| == |multiset(b)| == |b|;
    if |a| != 0 {
      var x := a[|a| - 1];
      var a' := a[..|a| - 1];
      assert a == a' + [x];
      var j := MatchLast(a, b);
      var b' := b[..j] + b[j + 1..];
      TotalPermutation(a', b');
      TotalAppend(b[..j] + [x], b[j + 1..]);
      TotalAppend(b[..j], [x]);
      TotalAppend(b[..j], b[j + 1..]);
      assert [x][..0] == [];
    }
  }

  /** The mean does not depend on segment order. */
  lemma AveragePermutation(a: seq<Fit>, b: seq<Fit>)
    requires multiset(a) == multiset(b)
    ensures Average(a) == Average(b)
  {
    assert |a| == |multiset(a)| == |multiset(b)| == |b|;
    TotalPermutation(a, b);
  }

  /** The mean of a one-member group is that member. */
  lemma AverageSingleton(f: Fit)
    ensures Average([f]) == Some(f)
  {
    assert [f][..0] == [];
    assert Total([f]) == Fit(0.0 + f.m, 0.0 + f.b);
  }

  lemma {:induction false} TotalConstant(fs: seq<Fit>, f: Fit)
    requires forall i :: 0 <= i < |fs| ==> fs[i] == f
    ensures Total(fs) == Fit(|fs| as real * f.m, |fs| as real * f.b)
  {
    if |fs| != 0 {
      TotalConstant(fs[..|fs| - 1], f);
    }
  }

  /** The mean of N copies of one fit is that fit, whatever N is. */
  lemma AverageConstant(fs: seq<Fit>, f: Fit)
    requires |fs| > 0
    requires forall i :: 0 <= i < |fs| ==> fs[i] == f
    ensures Average(fs) == Some(f)
  {
    TotalConstant(fs, f);
    var n := |fs| as real;
    var avg := Average(fs).value;
    assert n > 0.0;
    assert avg.m == (n * f.m) / n == f.m;
    assert avg.b == (n * f.b) / n == f.b;
  }

  lemma {:induction false} TotalNegative(fs: seq<Fit>)
    requires |fs| > 0
    requires forall i :: 0 <= i < |fs| ==> fs[i].m < 0.0
    ensures Total(fs).m < 0.0
  {
    if |fs| > 1 {
      TotalNegative(fs[..|fs| - 1]);
    }
  }

  lemma {:induction false} TotalNonNegative(fs: seq<Fit>)
    requires forall i :: 0 <= i < |fs| ==> fs[i].m >= 0.0
    ensures Total(fs).m >= 0.0
    ensures Total(fs).m == 0.0 <==> forall i :: 0 <= i < |fs| ==> fs[i].m == 0.0
  {
    if |fs| != 0 {
      TotalNonNegative(fs[..|fs| - 1]);
      assert forall i :: 0 <= i < |fs| - 1 ==> fs[..|fs| - 1][i] == fs[i];
    }
  }

  /** A group of strictly negative slopes averages to a strictly negative slope. */
  lemma AverageNegative(fs: seq<Fit>)
    requires |fs| > 0
    requires forall i :: 0 <= i < |fs| ==> fs[i].m < 0.0
    ensures Average(fs).Some? && Average(fs).value.m < 0.0
  {
    TotalNegative(fs);
  }

  /** A group of non-negative slopes averages to a non-negative slope, which is
      zero exactly when every slope in the group is zero. */
  lemma AverageNonNegative(fs: seq<Fit>)
    requires |fs| > 0
    requires forall i :: 0 <= i < |fs| ==> fs[i].m >= 0.0
    ensures Average(fs).Some? && Average(fs).value.m >= 0.0
    ensures Average(fs).value.m == 0.0 <==> forall i :: 0 <= i < |fs| ==> fs[i].m == 0.0
  {
    TotalNonNegative(fs);
  }

  // ---------------------------------------------------------------------------
  // Order of the segments
  // ---------------------------------------------------------------------------

  /** Taking a segment out of a batch keeps the batch free of vertical segments. */
  lemma NonVerticalRemove(b: seq<Segment>, j: int)
    requires AllNonVertical(b)
    requires 0 <= j < |b|
    ensures AllNonVertical(b[..j] + b[j + 1..])
  {
    var r := b[..j] + b[j + 1..];
    forall i | 0 <= i < |r| ensures NonVertical(r[i]) {
      assert r[i] == if i < j then b[i] else b[i + 1];
    }
  }

  /** Taking the segment at `j` out of a batch takes its fit out of the fits. */
  lemma FitsRemove(b: seq<Segment>, j: int, r: seq<Segment>)
    requires AllNonVertical(b) && AllNonVertical(r)
    requires 0 <= j < |b|
    requires r == b[..j] + b[j + 1..]
    ensures multiset(Fits(b)) == multiset(Fits(r)) + multiset{FitSegment(b[j])}
  {
    var fb, fr := Fits(b), Fits(r);
    forall i | 0 <= i < |fr| ensures fr[i] == (fb[..j] + fb[j + 1..])[i] {
      assert r[i] == if i < j then b[i] else b[i + 1];
    }
    assert fr == fb[..j] + fb[j + 1..];
    MultisetSplit(fb, j);
  }

  /** Permuting the segments permutes their fits. */
  lemma {:induction false} FitsPermutation(a: seq<Segment>, b: seq<Segment>)
    requires AllNonVertical(a) && AllNonVertical(b)
    requires multiset(a) == multiset(b)
    ensures multiset(Fits(a)) == multiset(Fits(b))
    decreases |a|
  {
    assert |a| == |multiset(a)| == |multiset(b)| == |b|;
    if |a| != 0 {
      var a' := a[..|a| - 1];
      var j := MatchLast(a, b);
      NonVerticalRemove(b, j);
      FitsRemove(b, j, b[..j] + b[j + 1..]);
      FitsPermutation(a', b[..j] + b[j + 1..]);
      assert Fits(a) == Fits(a') + [FitSegment(b[j])];
    }
  }
}
