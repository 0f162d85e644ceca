/**
 * The single-trajectory engine `msd`: mean displacements and mean squared
 * displacements of one probe at every lag 1..L-1, in microns and seconds.
 */
module MsdEngine {
  import opened Stats
  import opened Trajectory

  /**
   * One row of the result, keyed by the lag in frames: the columns
   * <x>, <y>, <x^2>, <y^2>, msd, N (missing unless detail was asked for)
   * and lagt (the lag in seconds).
   */
  datatype MsdRow = MsdRow(
    lag: nat,
    x: Option<real>, y: Option<real>,
    x2: Option<real>, y2: Option<real>,
    msd: Option<real>,
    n: Option<real>,
    lagt: real)

  /** The columns of a result row, by name. */
  datatype Column = MeanX | MeanY | MeanX2 | MeanY2 | MeanR2 | Count | LagTime

  function Cell(r: MsdRow, c: Column): Option<real>
  {
    match c
    case MeanX => r.x
    case MeanY => r.y
    case MeanX2 => r.x2
    case MeanY2 => r.y2
    case MeanR2 => r.msd
    case Count => r.n
    case LagTime => Some(r.lagt)
  }

  /** Which quantity of a displacement is averaged. */
  datatype Moment = DX | DY | DX2 | DY2

  function Value(v: Vec, m: Moment): real
  {
    match m
    case DX => v.dx
    case DY => v.dy
    case DX2 => v.dx * v.dx
    case DY2 => v.dy * v.dy
  }

  function Sample(ds: seq<Vec>, m: Moment): (s: seq<real>)
    ensures |s| == |ds|
  {
    seq(|ds|, i requires 0 <= i < |ds| => Value(ds[i], m))
  }

  /** The number of lags computed: max_lagtime clamped to the number of observations. */
  function LagCount(t: seq<Obs>, maxLag: nat): nat
  {
    if maxLag < |t| then maxLag else |t|
  }

  /**
   * The statistics at one lag. The count column divides by lag + 1, not by
   * lag: the divisor series is indexed from 0 while the counts are indexed
   * by lag, and the division aligns the two by index; at the last lag there
   * is no divisor and the count is missing.
   */
  function LagRow(t: seq<Obs>, mpp: real, fps: real, lag: nat, last: nat, detail: bool): (r: MsdRow)
    requires ValidTrack(t) && fps != 0.0
    ensures r.x.Some? <==> LagDisplacements(t, lag) != []
    ensures r.msd.Some? <==> r.x.Some?
    ensures r.n.Some? ==> r.n.value >= 0.0
  {
    var ds := LagDisplacements(t, lag);
    var x2 := Mean(Sample(ds, DX2));
    var y2 := Mean(Sample(ds, DY2));
    MsdRow(
      lag,
      Scale(mpp, Mean(Sample(ds, DX))), Scale(mpp, Mean(Sample(ds, DY))),
      Scale(mpp * mpp, x2), Scale(mpp * mpp, y2),
      Scale(mpp * mpp, SkipSum(x2, y2)),
      if detail && lag < last then Some(2.0 * |ds| as real / (lag + 1) as real) else None,
      lag as real / fps)
  }

  /** All lags 1..L, before the last row is dropped. */
  function AllLags(t: seq<Obs>, mpp: real, fps: real, maxLag: nat, detail: bool): (r: seq<MsdRow>)
    requires ValidTrack(t) && fps != 0.0
    ensures |r| == LagCount(t, maxLag)
  {
    var last := LagCount(t, maxLag);
    seq(last, k requires 0 <= k < last => LagRow(t, mpp, fps, k + 1, last, detail))
  }

  /**
   * msd(traj, mpp, fps, max_lagtime, detail): one row per lag 1..L-1 where
   * L = min(max_lagtime, number of observations); the row for lag L is
   * computed and dropped, so one observation gives an empty table.
   */
  function Msd(t: seq<Obs>, mpp: real, fps: real, maxLag: nat, detail: bool): (r: seq<MsdRow>)
    requires ValidTrack(t) && maxLag >= 1 && fps != 0.0
    ensures |r| == LagCount(t, maxLag) - 1
    ensures |t| == 1 ==> r == []
    ensures forall k :: 0 <= k < |r| ==> r[k].lag == k + 1 && r[k].lagt == (k + 1) as real / fps
  {
    var all := AllLags(t, mpp, fps, maxLag, detail);
    all[..|all| - 1]
  }

  lemma RowAt(t: seq<Obs>, mpp: real, fps: real, maxLag: nat, detail: bool, k: nat)
    requires ValidTrack(t) && maxLag >= 1 && fps != 0.0
    requires k < |Msd(t, mpp, fps, maxLag, detail)|
    ensures Msd(t, mpp, fps, maxLag, detail)[k] == LagRow(t, mpp, fps, k + 1, LagCount(t, maxLag), detail)
  {
  }

  /**
   * Gap handling at the level of a result row: every column is computed from
   * the displacements between observed frames exactly `lag` apart, and from
   * nothing else.
   */
  lemma {:induction false} RowFromObservedPairs(t: seq<Obs>, mpp: real, fps: real, maxLag: nat, detail: bool, k: nat)
    requires ValidTrack(t) && maxLag >= 1 && fps != 0.0
    requires k < |Msd(t, mpp, fps, maxLag, detail)|
    ensures var r := Msd(t, mpp, fps, maxLag, detail)[k]; var ps := ObservedPairs(t, k + 1);
      && r.x == Scale(mpp, Mean(Sample(ps, DX)))
      && r.y == Scale(mpp, Mean(Sample(ps, DY)))
      && r.x2 == Scale(mpp * mpp, Mean(Sample(ps, DX2)))
      && r.y2 == Scale(mpp * mpp, Mean(Sample(ps, DY2)))
      && r.msd == Scale(mpp * mpp, SkipSum(Mean(Sample(ps, DX2)), Mean(Sample(ps, DY2))))
  {
    RowAt(t, mpp, fps, maxLag, detail, k);
    GapHandling(t, k + 1);
  }

  /**
   * A lag with no pair of observed frames that far apart has missing means,
   * never zero; the five position columns are present or missing together,
   * and msd is <x^2> + <y^2> where present.
   */
  lemma MissingWithoutPairs(t: seq<Obs>, mpp: real, fps: real, maxLag: nat, detail: bool, k: nat)
    requires ValidTrack(t) && maxLag >= 1 && fps != 0.0
    requires k < |Msd(t, mpp, fps, maxLag, detail)|
    ensures var r := Msd(t, mpp, fps, maxLag, detail)[k];
      && (r.x.None? <==> !exists i, j :: 0 <= i < |t| && 0 <= j < |t| && t[j].frame - t[i].frame == k + 1)
      && r.y.Some? == r.x.Some? && r.x2.Some? == r.x.Some? && r.y2.Some? == r.x.Some?
      && r.msd.Some? == r.x.Some?
      && (r.msd.Some? ==> r.msd.value == r.x2.value + r.y2.value)
  {
    PresentWithPairs(t, mpp, fps, maxLag, detail, k);
    PairsExist(t, k + 1, |t|);
  }

  lemma PresentWithPairs(t: seq<Obs>, mpp: real, fps: real, maxLag: nat, detail: bool, k: nat)
    requires ValidTrack(t) && maxLag >= 1 && fps != 0.0
    requires k < |Msd(t, mpp, fps, maxLag, detail)|
    ensures var r := Msd(t, mpp, fps, maxLag, detail)[k];
      && (r.x.Some? <==> ObservedPairs(t, k + 1) != [])
      && r.y.Some? == r.x.Some? && r.x2.Some? == r.x.Some? && r.y2.Some? == r.x.Some?
      && r.msd.Some? == r.x.Some?
      && (r.msd.Some? ==> r.msd.value == r.x2.value + r.y2.value)
  {
    RowFromObservedPairs(t, mpp, fps, maxLag, detail, k);
    MomentsTogether(ObservedPairs(t, k + 1), mpp);
  }

  lemma MomentsTogether(ps: seq<Vec>, mpp: real)
    ensures var x, x2, y2 := Mean(Sample(ps, DX)), Mean(Sample(ps, DX2)), Mean(Sample(ps, DY2));
      && (x.Some? <==> ps != []) && Mean(Sample(ps, DY)).Some? == x.Some?
      && x2.Some? == x.Some? && y2.Some? == x.Some?
      && (x.Some? ==> Scale(mpp * mpp, SkipSum(x2, y2)).value == Scale(mpp * mpp, x2).value + Scale(mpp * mpp, y2).value)
  {
  }

  /** Unit scaling: mpp times s scales the first moments by s and the second moments by s^2. */
  lemma ScaledUnits(t: seq<Obs>, mpp: real, s: real, fps: real, maxLag: nat, detail: bool, k: nat)
    requires ValidTrack(t) && maxLag >= 1 && fps != 0.0
    requires k < |Msd(t, mpp, fps, maxLag, detail)|
    ensures |Msd(t, s * mpp, fps, maxLag, detail)| == |Msd(t, mpp, fps, maxLag, detail)|
    ensures var r, q := Msd(t, mpp, fps, maxLag, detail)[k], Msd(t, s * mpp, fps, maxLag, detail)[k];
      && q.x == Scale(s, r.x) && q.y == Scale(s, r.y)
      && q.x2 == Scale(s * s, r.x2) && q.y2 == Scale(s * s, r.y2)
      && q.msd == Scale(s * s, r.msd)
      && q.n == r.n && q.lagt == r.lagt && q.lag == r.lag
  {
    RowAt(t, mpp, fps, maxLag, detail, k);
    RowAt(t, s * mpp, fps, maxLag, detail, k);
    ScaledRow(t, mpp, s, fps, k + 1, LagCount(t, maxLag), detail);
  }

  lemma ScaledRow(t: seq<Obs>, mpp: real, s: real, fps: real, lag: nat, last: nat, detail: bool)
    requires ValidTrack(t) && fps != 0.0
    ensures var r, q := LagRow(t, mpp, fps, lag, last, detail), LagRow(t, s * mpp, fps, lag, last, detail);
      && q.x == Scale(s, r.x) && q.y == Scale(s, r.y)
      && q.x2 == Scale(s * s, r.x2) && q.y2 == Scale(s * s, r.y2)
      && q.msd == Scale(s * s, r.msd)
      && q.n == r.n && q.lagt == r.lagt && q.lag == r.lag
  {
    var ds := LagDisplacements(t, lag);
    var x2, y2 := Mean(Sample(ds, DX2)), Mean(Sample(ds, DY2));
    ScaleTwice(s, mpp, Mean(Sample(ds, DX)));
    ScaleTwice(s, mpp, Mean(Sample(ds, DY)));
    ScaleBySquare(s, mpp, x2);
    ScaleBySquare(s, mpp, y2);
    ScaleBySquare(s, mpp, SkipSum(x2, y2));
  }

  /**
   * The count column as computed: twice the number of displacements at the
   * lag, divided by lag + 1 (the documented formula divides by lag).
   */
  lemma IndependentCount(t: seq<Obs>, mpp: real, fps: real, maxLag: nat, k: nat)
    requires ValidTrack(t) && maxLag >= 1 && fps != 0.0
    requires k < |Msd(t, mpp, fps, maxLag, true)|
    ensures Msd(t, mpp, fps, maxLag, true)[k].n == Some(2.0 * |ObservedPairs(t, k + 1)| as real / (k + 2) as real)
    ensures Msd(t, mpp, fps, maxLag, false)[k].n == None
  {
    RowAt(t, mpp, fps, maxLag, true, k);
    RowAt(t, mpp, fps, maxLag, false, k);
    GapHandling(t, k + 1);
  }

  /**
   * The count as documented, 2N/tau, is the computed count times
   * (tau + 1)/tau: one factor per lag, common to every probe.
   */
  lemma DocumentedCount(t: seq<Obs>, mpp: real, fps: real, maxLag: nat, k: nat)
    requires ValidTrack(t) && maxLag >= 1 && fps != 0.0
    requires k < |Msd(t, mpp, fps, maxLag, true)|
    ensures Scale(DocumentedFactor(k), Msd(t, mpp, fps, maxLag, true)[k].n)
         == Some(2.0 * |ObservedPairs(t, k + 1)| as real / (k + 1) as real)
  {
    var n := Msd(t, mpp, fps, maxLag, true)[k].n;
    var c := 2.0 * |ObservedPairs(t, k + 1)| as real;
    IndependentCount(t, mpp, fps, maxLag, k);
    assert n == Some(c / (k + 2) as real);
    RescaledCount(c, k);
    assert Scale(DocumentedFactor(k), n).value == DocumentedFactor(k) * (c / (k + 2) as real);
  }

  lemma RescaledCount(c: real, k: nat)
    ensures DocumentedFactor(k) * (c / (k + 2) as real) == c / (k + 1) as real
  {
    var a, b := (k + 1) as real, (k + 2) as real;
    assert b / a == b * (1.0 / a) && c / b == c * (1.0 / b);
    assert b * (1.0 / b) == 1.0;
  }

  /** At row k (lag k + 1): the factor (tau + 1)/tau that turns 2N/(tau + 1) into 2N/tau. */
  function DocumentedFactor(k: nat): real
  {
    (k + 2) as real / (k + 1) as real
  }

  /** Without gaps the count at lag tau of n observations is 2(n - tau)/(tau + 1). */
  lemma IndependentCountGapFree(t: seq<Obs>, mpp: real, fps: real, maxLag: nat, k: nat)
    requires ValidTrack(t) && GapFree(t) && maxLag >= 1 && fps != 0.0
    requires k < |Msd(t, mpp, fps, maxLag, true)|
    ensures Msd(t, mpp, fps, maxLag, true)[k].n == Some(2.0 * (|t| - (k + 1)) as real / (k + 2) as real)
  {
    IndependentCount(t, mpp, fps, maxLag, k);
    GapFreePairCount(t, k + 1, |t|);
  }

  /**
   * With detail every returned row carries a count, never negative, and the
   * count is zero exactly on the rows whose statistics are all missing.
   */
  lemma CountMarksMissing(t: seq<Obs>, mpp: real, fps: real, maxLag: nat, k: nat)
    requires ValidTrack(t) && maxLag >= 1 && fps != 0.0
    requires k < |Msd(t, mpp, fps, maxLag, true)|
    ensures var r := Msd(t, mpp, fps, maxLag, true)[k];
      && r.n.Some? && r.n.value >= 0.0
      && (r.n.value == 0.0 <==> r.x.None?)
      && r.y.Some? == r.x.Some? && r.x2.Some? == r.x.Some? && r.y2.Some? == r.x.Some? && r.msd.Some? == r.x.Some?
  {
    IndependentCount(t, mpp, fps, maxLag, k);
    RowFromObservedPairs(t, mpp, fps, maxLag, true, k);
    MissingWithoutPairs(t, mpp, fps, maxLag, true, k);
  }

  lemma SampleOfConstant(ds: seq<Vec>, v: Vec, m: Moment)
    requires ds != []
    requires forall i :: 0 <= i < |ds| ==> ds[i] == v
    ensures Mean(Sample(ds, m)) == Some(Value(v, m))
  {
    MeanOfConstant(Sample(ds, m), Value(v, m));
  }

  /** Displacements that are all equal to v: the scaled means are those of v, (ux, uy) = mpp v. */
  lemma ScaledMomentsOfConstant(ps: seq<Vec>, v: Vec, mpp: real, ux: real, uy: real)
    requires ps != []
    requires forall i :: 0 <= i < |ps| ==> ps[i] == v
    requires ux == mpp * v.dx && uy == mpp * v.dy
    ensures Scale(mpp, Mean(Sample(ps, DX))).value == ux
    ensures Scale(mpp, Mean(Sample(ps, DY))).value == uy
    ensures Scale(mpp * mpp, Mean(Sample(ps, DX2))).value == ux * ux
    ensures Scale(mpp * mpp, Mean(Sample(ps, DY2))).value == uy * uy
    ensures Scale(mpp * mpp, SkipSum(Mean(Sample(ps, DX2)), Mean(Sample(ps, DY2)))).value == ux * ux + uy * uy
  {
    SampleOfConstant(ps, v, DX);
    SampleOfConstant(ps, v, DY);
    SampleOfConstant(ps, v, DX2);
    SampleOfConstant(ps, v, DY2);
    SquareOfProduct(mpp, v.dx);
    SquareOfProduct(mpp, v.dy);
    var a, b := v.dx * v.dx, v.dy * v.dy;
    assert SkipSum(Mean(Sample(ps, DX2)), Mean(Sample(ps, DY2))).value == a + b;
    assert (mpp * mpp) * (a + b) == (mpp * mpp) * a + (mpp * mpp) * b;
  }

  /**
   * The statistics of a row whose every displacement is (ux, uy) in microns:
   * where present, the first moments are ux, uy, the second their squares.
   */
  predicate UniformRow(r: MsdRow, ux: real, uy: real)
  {
    && (r.x.Some? ==> r.x.value == ux) && (r.y.Some? ==> r.y.value == uy)
    && (r.x2.Some? ==> r.x2.value == ux * ux) && (r.y2.Some? ==> r.y2.value == uy * uy)
    && (r.msd.Some? ==> r.msd.value == ux * ux + uy * uy)
  }

  /** A row whose observed displacements all equal v: every present statistic is that of v. */
  lemma {:induction false} RowOfUniformDisplacement(t: seq<Obs>, mpp: real, fps: real, maxLag: nat, detail: bool, k: nat,
                                                    v: Vec, ux: real, uy: real)
    requires ValidTrack(t) && maxLag >= 1 && fps != 0.0
    requires k < |Msd(t, mpp, fps, maxLag, detail)|
    requires var ps := ObservedPairs(t, k + 1); forall i :: 0 <= i < |ps| ==> ps[i] == v
    requires ux == mpp * v.dx && uy == mpp * v.dy
    ensures UniformRow(Msd(t, mpp, fps, maxLag, detail)[k], ux, uy)
    ensures Msd(t, mpp, fps, maxLag, detail)[k].x.Some? <==> ObservedPairs(t, k + 1) != []
  {
    var ps := ObservedPairs(t, k + 1);
    var r := Msd(t, mpp, fps, maxLag, detail)[k];
    assert r.x.Some? <==> ps != [] by {
      RowFromObservedPairs(t, mpp, fps, maxLag, detail, k);
    }
    if ps != [] {
      assert r.x.value == ux && r.y.value == uy by {
        RowFromObservedPairs(t, mpp, fps, maxLag, detail, k);
        ScaledMomentsOfConstant(ps, v, mpp, ux, uy);
      }
      assert r.x2.value == ux * ux && r.y2.value == uy * uy by {
        RowFromObservedPairs(t, mpp, fps, maxLag, detail, k);
        ScaledMomentsOfConstant(ps, v, mpp, ux, uy);
      }
      assert r.msd.value == ux * ux + uy * uy by {
        RowFromObservedPairs(t, mpp, fps, maxLag, detail, k);
        ScaledMomentsOfConstant(ps, v, mpp, ux, uy);
      }
    }
  }

  /**
   * Constant velocity (vx, vy) pixels per frame: wherever present, <x> is
   * mpp*vx*lag, <x^2> its square, and msd is mpp^2 (vx^2 + vy^2) lag^2.
   * Without gaps every row is present.
   */
  lemma {:induction false} ConstantVelocity(t: seq<Obs>, mpp: real, fps: real, maxLag: nat, detail: bool, k: nat,
                                            x0: real, y0: real, vx: real, vy: real)
    requires ValidTrack(t) && maxLag >= 1 && fps != 0.0 && Linear(t, x0, y0, vx, vy)
    requires k < |Msd(t, mpp, fps, maxLag, detail)|
    ensures UniformRow(Msd(t, mpp, fps, maxLag, detail)[k], mpp * (vx * (k + 1) as real), mpp * (vy * (k + 1) as real))
    ensures GapFree(t) ==> Msd(t, mpp, fps, maxLag, detail)[k].x.Some? && Msd(t, mpp, fps, maxLag, detail)[k].msd.Some?
  {
    var ux, uy := mpp * (vx * (k + 1) as real), mpp * (vy * (k + 1) as real);
    var v := Vec(vx * (k + 1) as real, vy * (k + 1) as real);
    var ps := ObservedPairs(t, k + 1);
    assert forall i :: 0 <= i < |ps| ==> ps[i] == v by {
      LinearPairs(t, k + 1, |t|, x0, y0, vx, vy);
    }
    RowOfUniformDisplacement(t, mpp, fps, maxLag, detail, k, v, ux, uy);
    if GapFree(t) {
      assert |ps| > 0 by {
        GapFreePairCount(t, k + 1, |t|);
      }
      var r := Msd(t, mpp, fps, maxLag, detail)[k];
      assert r.x.Some?;
      MissingWithoutPairs(t, mpp, fps, maxLag, detail, k);
    }
  }

  /** A probe that never moves: every statistic present is zero, and without gaps all are present. */
  lemma Stationary(t: seq<Obs>, mpp: real, fps: real, maxLag: nat, detail: bool, k: nat)
    requires ValidTrack(t) && maxLag >= 1 && fps != 0.0
    requires forall i :: 0 <= i < |t| ==> t[i].x == t[0].x && t[i].y == t[0].y
    requires k < |Msd(t, mpp, fps, maxLag, detail)|
    ensures var r := Msd(t, mpp, fps, maxLag, detail)[k];
      && (r.x.Some? ==> r.x.value == 0.0 && r.y.value == 0.0 && r.x2.value == 0.0 && r.y2.value == 0.0)
      && (r.msd.Some? ==> r.msd.value == 0.0)
      && (GapFree(t) ==> r.x.Some? && r.msd.Some?)
  {
    assert Linear(t, t[0].x, t[0].y, 0.0, 0.0) by {
      forall i | 0 <= i < |t| ensures OnLine(t[i], t[0].x, t[0].y, 0.0, 0.0) { }
    }
    ConstantVelocity(t, mpp, fps, maxLag, detail, k, t[0].x, t[0].y, 0.0, 0.0);
    MissingWithoutPairs(t, mpp, fps, maxLag, detail, k);
  }

  /**
   * Frames 0, 1, 3, 4 (frame 2 missed): at lag 1 only the steps 0->1 and
   * 3->4 are averaged; the gap at frame 2 contributes nothing.
   */
  lemma GapExcludedExample(t: seq<Obs>)
    requires |t| == 4 && t[0].frame == 0 && t[1].frame == 1 && t[2].frame == 3 && t[3].frame == 4
    ensures ValidTrack(t) && |Msd(t, 1.0, 1.0, 4, false)| == 3
    ensures Msd(t, 1.0, 1.0, 4, false)[0].x == Mean([t[1].x - t[0].x, t[3].x - t[2].x])
  {
    assert ValidTrack(t);
    var ps := ObservedPairs(t, 1);
    assert ps == [Minus(PosOf(t[1]), PosOf(t[0])), Minus(PosOf(t[3]), PosOf(t[2]))] by {
      ExamplePairs(t);
    }
    RowFromObservedPairs(t, 1.0, 1.0, 4, false, 0);
    assert Sample(ps, DX) == [t[1].x - t[0].x, t[3].x - t[2].x];
  }

  /**
   * Frames 0, 2, 4: no two observations are one frame apart, so the row for
   * lag 1 has count 0 and every statistic missing.
   */
  lemma NoUnitStepExample(t: seq<Obs>, mpp: real, fps: real)
    requires |t| == 3 && t[0].frame == 0 && t[1].frame == 2 && t[2].frame == 4 && fps != 0.0
    ensures ValidTrack(t) && |Msd(t, mpp, fps, 3, true)| == 2
    ensures Msd(t, mpp, fps, 3, true)[0].n == Some(0.0) && Msd(t, mpp, fps, 3, true)[0].msd.None?
    ensures Msd(t, mpp, fps, 3, true)[0].x2.None? && Msd(t, mpp, fps, 3, true)[0].y2.None?
  {
    assert ValidTrack(t);
    CountMarksMissing(t, mpp, fps, 3, 0);
    MissingWithoutPairs(t, mpp, fps, 3, true, 0);
  }

  lemma ExamplePairs(t: seq<Obs>)
    requires |t| == 4 && t[0].frame == 0 && t[1].frame == 1 && t[2].frame == 3 && t[3].frame == 4
    ensures ObservedPairs(t, 1) == [Minus(PosOf(t[1]), PosOf(t[0])), Minus(PosOf(t[3]), PosOf(t[2]))]
  {
    assert Increasing(t);
    var p2 := PairsUpTo(t, 1, 2);
    assert PairsUpTo(t, 1, 1) == [] by {
      assert Lookup(t, -1).None?;
    }
    assert p2 == [Minus(PosOf(t[1]), PosOf(t[0]))] by {
      LookupRow(t, 0);
    }
    assert PairsUpTo(t, 1, 3) == p2 by {
      assert Lookup(t, 2).None?;
    }
    assert PairsUpTo(t, 1, 4) == p2 + [Minus(PosOf(t[3]), PosOf(t[2]))] by {
      LookupRow(t, 2);
    }
  }
}
