/**
 * emsd: msd with counts, probe by probe, folded at each lag into an
 * ensemble average in which each probe is weighted by its count N.
 */
module EnsembleMsd {
  import opened Stats
  import opened Trajectory
  import opened MsdEngine
  import opened Groups
  import opened PerProbe
  import opened IndividualMsd

  /** A running sum and the number of values added to it. */
  datatype Total = Total(sum: real, count: nat)

  /** Adds a value to a total; a missing value is skipped. */
  function Add(t: Total, v: Option<real>): Total
  {
    match v
    case None => t
    case Some(x) => Total(t.sum + x, t.count + 1)
  }

  /** Product of two cells, missing if either is. */
  function Product(a: Option<real>, b: Option<real>): Option<real>
  {
    if a.Some? && b.Some? then Some(a.value * b.value) else None
  }

  /** A probe's statistic c at row k times its count there; missing when the probe has no row k. */
  function Weighted(rows: seq<MsdRow>, k: nat, c: Column): Option<real>
  {
    if k < |rows| then Product(Cell(rows[k], c), rows[k].n) else None
  }

  /** A probe's count at row k; missing when the probe has no row k. */
  function Weight(rows: seq<MsdRow>, k: nat): Option<real>
  {
    if k < |rows| then rows[k].n else None
  }

  /** A probe's count at row k, but only where its statistic c is present. */
  function PresentWeight(rows: seq<MsdRow>, k: nat, c: Column): Option<real>
  {
    if k < |rows| && Cell(rows[k], c).Some? then rows[k].n else None
  }

  /** The numerator of the fold: the present products v * N at row k, over the probes. */
  function ColumnTotal(rs: seq<seq<MsdRow>>, k: nat, c: Column): (t: Total)
    ensures t.count <= |rs|
    ensures t.count == 0 ==> t.sum == 0.0
  {
    if rs == [] then Total(0.0, 0)
    else Add(ColumnTotal(rs[..|rs| - 1], k, c), Weighted(rs[|rs| - 1], k, c))
  }

  /** The denominator of the fold: the counts N present at row k, over the probes. */
  function WeightTotal(rs: seq<seq<MsdRow>>, k: nat): (t: Total)
    ensures t.count <= |rs|
    ensures t.count == 0 ==> t.sum == 0.0
  {
    if rs == [] then Total(0.0, 0)
    else Add(WeightTotal(rs[..|rs| - 1], k), Weight(rs[|rs| - 1], k))
  }

  /** The counts N at row k of the probes whose statistic c is present there. */
  function PresentWeightTotal(rs: seq<seq<MsdRow>>, k: nat, c: Column): (t: Total)
    ensures t.count <= |rs|
    ensures t.count == 0 ==> t.sum == 0.0
  {
    if rs == [] then Total(0.0, 0)
    else Add(PresentWeightTotal(rs[..|rs| - 1], k, c), PresentWeight(rs[|rs| - 1], k, c))
  }

  /**
   * mean(v N) / mean(N), each mean taken over the values present; an empty
   * mean or a zero mean weight gives a missing cell.
   */
  function Ratio(num: Total, den: Total): (r: Option<real>)
    ensures r.Some? <==> num.count > 0 && den.count > 0 && den.sum != 0.0
  {
    if num.count == 0 || den.count == 0 || den.sum == 0.0 then None
    else Some((num.sum / num.count as real) / (den.sum / den.count as real))
  }

  /** The ensemble statistic c at row k (lag k + 1), as emsd computes it. */
  function EnsembleCell(rs: seq<seq<MsdRow>>, k: nat, c: Column): (e: Option<real>)
    ensures e.Some? ==> ColumnTotal(rs, k, c).count > 0 && WeightTotal(rs, k).sum != 0.0
  {
    Ratio(ColumnTotal(rs, k, c), WeightTotal(rs, k))
  }

  /** One row of emsd's table: every column of msd, weighted; lagt can be missing. */
  datatype EnsembleRow = EnsembleRow(
    x: Option<real>, y: Option<real>,
    x2: Option<real>, y2: Option<real>,
    msd: Option<real>,
    n: Option<real>,
    lagt: Option<real>)

  function EnsembleAt(rs: seq<seq<MsdRow>>, k: nat): EnsembleRow
  {
    EnsembleRow(
      EnsembleCell(rs, k, MeanX), EnsembleCell(rs, k, MeanY),
      EnsembleCell(rs, k, MeanX2), EnsembleCell(rs, k, MeanY2),
      EnsembleCell(rs, k, MeanR2),
      EnsembleCell(rs, k, Count),
      EnsembleCell(rs, k, LagTime))
  }

  /** The weighted table: one row for every lag that some probe reaches. */
  function EnsembleTable(rs: seq<seq<MsdRow>>): seq<EnsembleRow>
  {
    seq(Width(rs), k requires 0 <= k < Width(rs) => EnsembleAt(rs, k))
  }

  /** Without detail only msd is returned, keyed by the weighted lag time; with it, the whole table. */
  datatype EmsdResult =
    | MsdSeries(points: seq<(Option<real>, Option<real>)>)
    | Detail(rows: seq<EnsembleRow>)

  /** emsd(traj, mpp, fps, max_lagtime, detail). */
  method Emsd(table: seq<Observation>, mpp: real, fps: real, maxLag: nat, detail: bool) returns (r: EmsdResult)
    requires ValidTable(table) && maxLag >= 1 && fps != 0.0
    ensures var rs := ProbeResults(table, mpp, fps, maxLag, true);
      && (detail ==> r == Detail(EnsembleTable(rs)))
      && (!detail ==>
            && r.MsdSeries? && |r.points| == Width(rs)
            && forall k :: 0 <= k < Width(rs) ==>
                 r.points[k] == (EnsembleCell(rs, k, LagTime), EnsembleCell(rs, k, MeanR2)))
  {
    var msds, width := Gather(table, mpp, fps, maxLag, true);
    var rows := FoldAll(msds, width);
    if detail {
      r := Detail(rows);
    } else {
      r := MsdSeries(seq(width, i requires 0 <= i < width => (rows[i].lagt, rows[i].msd)));
    }
  }

  /** The fold at every lag that some probe reaches. */
  method FoldAll(msds: seq<seq<MsdRow>>, width: nat) returns (rows: seq<EnsembleRow>)
    requires width == Width(msds)
    ensures rows == EnsembleTable(msds)
  {
    rows := [];
    var k := 0;
    while k < width
      invariant 0 <= k <= width && |rows| == k
      invariant forall i :: 0 <= i < k ==> rows[i] == EnsembleAt(msds, i)
    {
      var row := FoldLag(msds, k);
      rows := rows + [row];
      k := k + 1;
    }
  }

  /** The fold at one lag: one pass over the probes accumulating sum(v N) per column and sum(N). */
  method FoldLag(msds: seq<seq<MsdRow>>, k: nat) returns (row: EnsembleRow)
    ensures row == EnsembleAt(msds, k)
  {
    var cols := [MeanX, MeanY, MeanX2, MeanY2, MeanR2, Count, LagTime];
    var sums: seq<Total> := seq(7, _ => Total(0.0, 0));
    var weight := Total(0.0, 0);
    var j := 0;
    while j < |msds|
      invariant 0 <= j <= |msds| && |sums| == 7
      invariant forall i :: 0 <= i < 7 ==> sums[i] == ColumnTotal(msds[..j], k, cols[i])
      invariant weight == WeightTotal(msds[..j], k)
    {
      assert msds[..j + 1][..j] == msds[..j];
      sums := seq(7, i requires 0 <= i < 7 => Add(sums[i], Weighted(msds[j], k, cols[i])));
      weight := Add(weight, Weight(msds[j], k));
      j := j + 1;
    }
    assert msds[..j] == msds;
    row := EnsembleRow(
      Ratio(sums[0], weight), Ratio(sums[1], weight),
      Ratio(sums[2], weight), Ratio(sums[3], weight),
      Ratio(sums[4], weight),
      Ratio(sums[5], weight),
      Ratio(sums[6], weight));
  }

  /** Every probe with a row at k has its statistic c and its count there. */
  predicate AllPresent(rs: seq<seq<MsdRow>>, k: nat, c: Column)
  {
    forall j :: 0 <= j < |rs| && k < |rs[j]| ==> Cell(rs[j][k], c).Some? && rs[j][k].n.Some?
  }

  /**
   * The N-weighted average the fold is meant to compute: the sum of v N over
   * the sum of N, both over the probes whose statistic c is present at k.
   */
  function WeightedAverage(rs: seq<seq<MsdRow>>, k: nat, c: Column): (w: Option<real>)
    ensures w.Some? <==> PresentWeightTotal(rs, k, c).sum != 0.0
    ensures w.Some? ==> w.value * PresentWeightTotal(rs, k, c).sum == ColumnTotal(rs, k, c).sum
  {
    var num, den := ColumnTotal(rs, k, c), PresentWeightTotal(rs, k, c);
    if den.sum == 0.0 then None else Some(num.sum / den.sum)
  }

  lemma {:induction false} TotalsWhenAllPresent(rs: seq<seq<MsdRow>>, k: nat, c: Column)
    requires AllPresent(rs, k, c)
    ensures ColumnTotal(rs, k, c).count == WeightTotal(rs, k).count
    ensures PresentWeightTotal(rs, k, c) == WeightTotal(rs, k)
  {
    if rs != [] {
      var init := rs[..|rs| - 1];
      assert forall j :: 0 <= j < |init| ==> init[j] == rs[j];
      TotalsWhenAllPresent(init, k, c);
    }
  }

  lemma MeansCancel(a: real, b: real, n: real)
    requires n > 0.0 && b != 0.0
    ensures (a / n) / (b / n) == a / b
  {
    assert a / n == a * (1.0 / n);
    assert b / n == b * (1.0 / n);
  }

  /**
   * Where every probe that reaches lag k + 1 has statistic c there, emsd's
   * value is the weighted average sum(v N) / sum(N).
   */
  lemma EnsembleIsWeightedAverage(rs: seq<seq<MsdRow>>, k: nat, c: Column)
    requires AllPresent(rs, k, c)
    ensures EnsembleCell(rs, k, c) == WeightedAverage(rs, k, c)
  {
    TotalsWhenAllPresent(rs, k, c);
    var num, den := ColumnTotal(rs, k, c), WeightTotal(rs, k);
    if num.count > 0 && den.sum != 0.0 {
      MeansCancel(num.sum, den.sum, num.count as real);
    }
  }

  /** Every count present at row k is at least zero. */
  predicate NonNegativeCounts(rs: seq<seq<MsdRow>>, k: nat)
  {
    forall j :: 0 <= j < |rs| && k < |rs[j]| && rs[j][k].n.Some? ==> rs[j][k].n.value >= 0.0
  }

  /** Every statistic c present at row k lies in [lo, hi]. */
  predicate WithinRange(rs: seq<seq<MsdRow>>, k: nat, c: Column, lo: real, hi: real)
  {
    forall j :: 0 <= j < |rs| && k < |rs[j]| && Cell(rs[j][k], c).Some? ==> lo <= Cell(rs[j][k], c).value <= hi
  }

  /** What one probe adds to the fold at row k: nothing, or v N to the numerator and N to the weights. */
  lemma Contribution(rows: seq<MsdRow>, k: nat, c: Column)
    ensures || (Weighted(rows, k, c).None? && PresentWeight(rows, k, c).None?)
            || (&& k < |rows| && Cell(rows[k], c).Some? && rows[k].n.Some?
                && Weighted(rows, k, c) == Some(Cell(rows[k], c).value * rows[k].n.value)
                && PresentWeight(rows, k, c) == Some(rows[k].n.value))
  {
  }

  /** num is a sum of values in [lo, hi], each weighted, over a total weight den that is not negative. */
  predicate Between(num: real, den: real, lo: real, hi: real)
  {
    den >= 0.0 && lo * den <= num <= hi * den
  }

  lemma StepBounds(num: real, den: real, v: real, w: real, lo: real, hi: real)
    requires Between(num, den, lo, hi)
    requires lo <= v <= hi && w >= 0.0
    ensures Between(num + v * w, den + w, lo, hi)
  {
    assert lo * w <= v * w <= hi * w;
  }

  lemma {:induction false} WeightedSumBounds(rs: seq<seq<MsdRow>>, k: nat, c: Column, lo: real, hi: real)
    requires NonNegativeCounts(rs, k) && WithinRange(rs, k, c, lo, hi)
    ensures Between(ColumnTotal(rs, k, c).sum, PresentWeightTotal(rs, k, c).sum, lo, hi)
  {
    if rs != [] {
      var init, last := rs[..|rs| - 1], rs[|rs| - 1];
      assert forall j :: 0 <= j < |init| ==> init[j] == rs[j];
      WeightedSumBounds(init, k, c, lo, hi);
      assert init + [last] == rs;
      BoundsStep(init, last, k, c, lo, hi);
    }
  }

  lemma BoundsStep(init: seq<seq<MsdRow>>, last: seq<MsdRow>, k: nat, c: Column, lo: real, hi: real)
    requires Between(ColumnTotal(init, k, c).sum, PresentWeightTotal(init, k, c).sum, lo, hi)
    requires k < |last| && last[k].n.Some? ==> last[k].n.value >= 0.0
    requires k < |last| && Cell(last[k], c).Some? ==> lo <= Cell(last[k], c).value <= hi
    ensures Between(ColumnTotal(init + [last], k, c).sum, PresentWeightTotal(init + [last], k, c).sum, lo, hi)
  {
    var rs := init + [last];
    assert rs[..|rs| - 1] == init;
    Contribution(last, k, c);
    var num0, den0 := ColumnTotal(init, k, c).sum, PresentWeightTotal(init, k, c).sum;
    if Weighted(last, k, c).Some? {
      var v, w := Cell(last[k], c).value, last[k].n.value;
      assert ColumnTotal(rs, k, c).sum == num0 + v * w;
      assert PresentWeightTotal(rs, k, c).sum == den0 + w;
      StepBounds(num0, den0, v, w, lo, hi);
    } else {
      assert ColumnTotal(rs, k, c).sum == num0;
      assert PresentWeightTotal(rs, k, c).sum == den0;
    }
  }

  lemma QuotientBounds(a: real, b: real, lo: real, hi: real)
    requires Between(a, b, lo, hi) && b != 0.0
    ensures lo <= a / b <= hi
  {
    assert (a / b) * b == a;
  }

  /**
   * The weighted average lies between the smallest and the largest of the
   * probes' values, whenever the counts are not negative.
   */
  lemma WeightedAverageBounds(rs: seq<seq<MsdRow>>, k: nat, c: Column, lo: real, hi: real)
    requires NonNegativeCounts(rs, k) && WithinRange(rs, k, c, lo, hi)
    ensures WeightedAverage(rs, k, c).Some? ==> lo <= WeightedAverage(rs, k, c).value <= hi
  {
    WeightedSumBounds(rs, k, c, lo, hi);
    var num, den := ColumnTotal(rs, k, c).sum, PresentWeightTotal(rs, k, c).sum;
    if den != 0.0 {
      QuotientBounds(num, den, lo, hi);
    }
  }

  /** num is v times den. */
  predicate Proportional(num: real, den: real, v: real)
  {
    num == v * den
  }

  lemma StepConstant(num: real, den: real, v: real, w: real)
    requires Proportional(num, den, v)
    ensures Proportional(num + v * w, den + w, v)
  {
  }

  lemma {:induction false} WeightedSumOfConstant(rs: seq<seq<MsdRow>>, k: nat, c: Column, v: real)
    requires forall j :: 0 <= j < |rs| && k < |rs[j]| && Cell(rs[j][k], c).Some? ==> Cell(rs[j][k], c).value == v
    ensures Proportional(ColumnTotal(rs, k, c).sum, PresentWeightTotal(rs, k, c).sum, v)
  {
    if rs != [] {
      var init, last := rs[..|rs| - 1], rs[|rs| - 1];
      assert forall j :: 0 <= j < |init| ==> init[j] == rs[j];
      WeightedSumOfConstant(init, k, c, v);
      assert init + [last] == rs;
      ConstantStep(init, last, k, c, v);
    }
  }

  lemma ConstantStep(init: seq<seq<MsdRow>>, last: seq<MsdRow>, k: nat, c: Column, v: real)
    requires Proportional(ColumnTotal(init, k, c).sum, PresentWeightTotal(init, k, c).sum, v)
    requires k < |last| && Cell(last[k], c).Some? ==> Cell(last[k], c).value == v
    ensures Proportional(ColumnTotal(init + [last], k, c).sum, PresentWeightTotal(init + [last], k, c).sum, v)
  {
    var rs := init + [last];
    assert rs[..|rs| - 1] == init;
    Contribution(last, k, c);
    var num0, den0 := ColumnTotal(init, k, c).sum, PresentWeightTotal(init, k, c).sum;
    if Weighted(last, k, c).Some? {
      var w := last[k].n.value;
      assert ColumnTotal(rs, k, c).sum == num0 + v * w;
      assert PresentWeightTotal(rs, k, c).sum == den0 + w;
      StepConstant(num0, den0, v, w);
    } else {
      assert ColumnTotal(rs, k, c).sum == num0;
      assert PresentWeightTotal(rs, k, c).sum == den0;
    }
  }

  lemma QuotientOfProportional(num: real, den: real, v: real)
    requires Proportional(num, den, v) && den != 0.0
    ensures num / den == v
  {
  }

  /** Probes that all agree on statistic c at k: the weighted average is that value. */
  lemma WeightedAverageOfConstant(rs: seq<seq<MsdRow>>, k: nat, c: Column, v: real)
    requires forall j :: 0 <= j < |rs| && k < |rs[j]| && Cell(rs[j][k], c).Some? ==> Cell(rs[j][k], c).value == v
    ensures WeightedAverage(rs, k, c).Some? ==> WeightedAverage(rs, k, c).value == v
  {
    WeightedSumOfConstant(rs, k, c, v);
    var num, den := ColumnTotal(rs, k, c).sum, PresentWeightTotal(rs, k, c).sum;
    if den != 0.0 {
      QuotientOfProportional(num, den, v);
    }
  }
  /**
   * When every probe that reaches lag k + 1 has statistic c there, emsd's
   * value lies between the smallest and the largest of the probes' values.
   */
  lemma EnsembleWithinRange(rs: seq<seq<MsdRow>>, k: nat, c: Column, lo: real, hi: real)
    requires AllPresent(rs, k, c) && NonNegativeCounts(rs, k) && WithinRange(rs, k, c, lo, hi)
    ensures EnsembleCell(rs, k, c).Some? ==> lo <= EnsembleCell(rs, k, c).value <= hi
  {
    EnsembleIsWeightedAverage(rs, k, c);
    WeightedAverageBounds(rs, k, c, lo, hi);
  }

  /**
   * A row of msd with detail: it carries its count, never negative, zero
   * exactly where the row's statistics are missing (the five position
   * columns are present or missing together), and its lag time.
   */
  predicate CountedRow(r: MsdRow, lagt: real)
  {
    && r.n.Some? && r.n.value >= 0.0
    && r.lagt == lagt
    && (r.n.value == 0.0 <==> r.x.None?)
    && r.y.Some? == r.x.Some? && r.x2.Some? == r.x.Some? && r.y2.Some? == r.x.Some? && r.msd.Some? == r.x.Some?
  }

  /** Every per-probe row k computed with detail is a counted row with lag time (k + 1) / fps. */
  lemma DetailRows(table: seq<Observation>, mpp: real, fps: real, maxLag: nat, k: nat)
    requires FramesIncreasePerProbe(table) && maxLag >= 1 && fps != 0.0
    ensures var rs := ProbeResults(table, mpp, fps, maxLag, true);
      forall j :: 0 <= j < |rs| && k < |rs[j]| ==> CountedRow(rs[j][k], (k + 1) as real / fps)
  {
    var rs: seq<seq<MsdRow>> := ProbeResults(table, mpp, fps, maxLag, true);
    var ids: seq<int> := ProbeIds(table);
    forall j | 0 <= j < |rs| && k < |rs[j]|
      ensures CountedRow(rs[j][k], (k + 1) as real / fps)
    {
      GroupIsTrack(table, ids[j]);
      CountMarksMissing(Group(table, ids[j]), mpp, fps, maxLag, k);
    }
  }

  /**
   * The weighted lag time at row k is (k + 1) / fps: every probe's lag time
   * there is the same. It is missing only when every count at k is zero.
   */
  lemma EnsembleLagTime(table: seq<Observation>, mpp: real, fps: real, maxLag: nat, k: nat)
    requires FramesIncreasePerProbe(table) && maxLag >= 1 && fps != 0.0
    ensures var rs := ProbeResults(table, mpp, fps, maxLag, true);
      EnsembleCell(rs, k, LagTime) == if WeightTotal(rs, k).sum == 0.0 then None else Some((k + 1) as real / fps)
  {
    var rs := ProbeResults(table, mpp, fps, maxLag, true);
    DetailRows(table, mpp, fps, maxLag, k);
    EnsembleIsWeightedAverage(rs, k, LagTime);
    TotalsWhenAllPresent(rs, k, LagTime);
    WeightedAverageOfConstant(rs, k, LagTime, (k + 1) as real / fps);
  }

  lemma SingleRatio(v: real, w: real)
    requires w != 0.0
    ensures Ratio(Total(0.0 + v * w, 1), Total(0.0 + w, 1)) == Some(v)
  {
    MeansCancel(v * w, w, 1.0);
    var e := Ratio(Total(0.0 + v * w, 1), Total(0.0 + w, 1));
    assert e.Some? && e.value == (v * w) / w;
    assert (v * w) / w == v;
  }

  /** A single probe with a nonzero count at row k: the ensemble is that probe's own value. */
  lemma SingleProbe(rows: seq<MsdRow>, k: nat, c: Column)
    requires k < |rows| && rows[k].n.Some? && rows[k].n.value != 0.0
    ensures EnsembleCell([rows], k, c) == Cell(rows[k], c)
  {
    var rs := [rows];
    assert rs[..0] == [];
    var w := rows[k].n.value;
    assert WeightTotal(rs, k) == Total(0.0 + w, 1);
    if Cell(rows[k], c).Some? {
      var v := Cell(rows[k], c).value;
      assert ColumnTotal(rs, k, c) == Total(0.0 + v * w, 1);
      SingleRatio(v, w);
    } else {
      assert ColumnTotal(rs, k, c) == Total(0.0, 0);
    }
  }

  /** A table with one probe id has that one id. */
  lemma {:induction false} OneProbe(table: seq<Observation>)
    requires table != [] && forall i :: 0 <= i < |table| ==> table[i].probe == table[0].probe
    ensures ProbeIds(table) == [table[0].probe]
  {
    if |table| > 1 {
      var init := table[..|table| - 1];
      OneProbe(init);
    }
  }

  /**
   * emsd of a table holding one probe: at every lag where that probe's
   * count is not zero, each ensemble statistic is the probe's own msd value.
   */
  lemma SingleProbeTable(table: seq<Observation>, mpp: real, fps: real, maxLag: nat, k: nat, c: Column)
    requires ValidTable(table) && maxLag >= 1 && fps != 0.0
    requires forall i :: 0 <= i < |table| ==> table[i].probe == table[0].probe
    requires table[0].probe in ProbeIds(table)
    requires var own := ProbeMsd(table, table[0].probe, mpp, fps, maxLag, true);
      k < |own| && own[k].n.Some? && own[k].n.value != 0.0
    ensures EnsembleCell(ProbeResults(table, mpp, fps, maxLag, true), k, c)
         == Cell(ProbeMsd(table, table[0].probe, mpp, fps, maxLag, true)[k], c)
  {
    OneProbe(table);
    var own := ProbeMsd(table, table[0].probe, mpp, fps, maxLag, true);
    assert ProbeResults(table, mpp, fps, maxLag, true) == [own];
    SingleProbe(own, k, c);
  }

  lemma {:induction false} AbsentProbeTotals(front: seq<seq<MsdRow>>, r: seq<MsdRow>, back: seq<seq<MsdRow>>, k: nat, c: Column)
    requires |r| <= k
    ensures ColumnTotal(front + [r] + back, k, c) == ColumnTotal(front + back, k, c)
    ensures WeightTotal(front + [r] + back, k) == WeightTotal(front + back, k)
    decreases |back|
  {
    var with, without := front + [r] + back, front + back;
    if back == [] {
      assert with[..|with| - 1] == front && without == front;
    } else {
      var init := back[..|back| - 1];
      AbsentProbeTotals(front, r, init, k, c);
      assert with[..|with| - 1] == front + [r] + init;
      assert without[..|without| - 1] == front + init;
      assert with[|with| - 1] == without[|without| - 1];
    }
  }

  /** A probe whose result stops before row k contributes nothing to the ensemble there. */
  lemma AbsentProbe(front: seq<seq<MsdRow>>, r: seq<MsdRow>, back: seq<seq<MsdRow>>, k: nat, c: Column)
    requires |r| <= k
    ensures EnsembleCell(front + [r] + back, k, c) == EnsembleCell(front + back, k, c)
  {
    AbsentProbeTotals(front, r, back, k, c);
  }
  /** Rows at k that lack statistic c carry a zero count, as the rows msd produces do. */
  predicate ZeroWhereMissing(rs: seq<seq<MsdRow>>, k: nat, c: Column)
  {
    forall j :: 0 <= j < |rs| && k < |rs[j]| ==> rs[j][k].n.Some? && (Cell(rs[j][k], c).None? ==> rs[j][k].n.value == 0.0)
  }

  lemma {:induction false} ZeroWhereMissingTotals(rs: seq<seq<MsdRow>>, k: nat, c: Column)
    requires ZeroWhereMissing(rs, k, c)
    ensures PresentWeightTotal(rs, k, c).sum == WeightTotal(rs, k).sum
    ensures PresentWeightTotal(rs, k, c).count == ColumnTotal(rs, k, c).count
  {
    if rs != [] {
      var init := rs[..|rs| - 1];
      assert forall j :: 0 <= j < |init| ==> init[j] == rs[j];
      ZeroWhereMissingTotals(init, k, c);
      Contribution(rs[|rs| - 1], k, c);
    }
  }

  lemma SkewAlgebra(a: real, b: real, p: real, n: real)
    requires p > 0.0 && n > 0.0 && b != 0.0
    ensures (a / p) / (b / n) == (a / b) * (n / p)
  {
    assert a / p == a * (1.0 / p);
    assert b / n == b * (1.0 / n);
  }

  /**
   * emsd as written: where the probes lacking statistic c have count 0,
   * its value is the weighted average multiplied by (probes with a row at k)
   * / (probes with c at k). The numerator's mean skips those probes and the
   * denominator's mean counts them, so the factor exceeds 1 as soon as one
   * probe reaches the lag without a pair at it.
   */
  lemma SkewFactor(rs: seq<seq<MsdRow>>, k: nat, c: Column)
    requires ZeroWhereMissing(rs, k, c)
    ensures Inflated(EnsembleCell(rs, k, c), WeightedAverage(rs, k, c), WeightTotal(rs, k).count, ColumnTotal(rs, k, c).count)
  {
    ZeroWhereMissingTotals(rs, k, c);
    SkewRatio(ColumnTotal(rs, k, c), WeightTotal(rs, k), PresentWeightTotal(rs, k, c));
  }

  /** e is w scaled by rows / present whenever e is defined. */
  predicate Inflated(e: Option<real>, w: Option<real>, rows: nat, present: nat)
  {
    e.Some? ==> w.Some? && present > 0 && e.value == w.value * (rows as real / present as real)
  }

  lemma SkewRatio(num: Total, den: Total, present: Total)
    requires present.sum == den.sum
    ensures Inflated(Ratio(num, den), if present.sum == 0.0 then None else Some(num.sum / present.sum), den.count, num.count)
  {
    if num.count > 0 && den.count > 0 && den.sum != 0.0 {
      SkewAlgebra(num.sum, den.sum, num.count as real, den.count as real);
    }
  }

  /** The rows of emsd's own input meet SkewFactor's condition for every position column. */
  lemma EmsdSkew(table: seq<Observation>, mpp: real, fps: real, maxLag: nat, k: nat, c: Column)
    requires FramesIncreasePerProbe(table) && maxLag >= 1 && fps != 0.0
    requires c != Count && c != LagTime
    ensures var rs := ProbeResults(table, mpp, fps, maxLag, true);
      Inflated(EnsembleCell(rs, k, c), WeightedAverage(rs, k, c), WeightTotal(rs, k).count, ColumnTotal(rs, k, c).count)
  {
    var rs := ProbeResults(table, mpp, fps, maxLag, true);
    DetailRows(table, mpp, fps, maxLag, k);
    SkewFactor(rs, k, c);
  }

  /**
   * The smallest case: a probe with statistic v and count w beside a probe
   * that reaches the lag with count 0 and the statistic missing (frames 0, 2,
   * 4 at lag 1, say, for any of the four moments). emsd gives 2 v where the
   * weighted average is v.
   */
  lemma ZeroCountProbeInflates(a: MsdRow, b: MsdRow, c: Column, v: real, w: real)
    requires Cell(a, c) == Some(v) && a.n == Some(w) && w > 0.0
    requires Cell(b, c) == None && b.n == Some(0.0)
    ensures EnsembleCell([[a], [b]], 0, c) == Some(2.0 * v)
    ensures WeightedAverage([[a], [b]], 0, c) == Some(v)
  {
    var rs := [[a], [b]];
    assert rs[..1] == [[a]] && [[a]][..0] == [];
    assert ColumnTotal(rs, 0, c) == Total(0.0 + v * w, 1);
    assert WeightTotal(rs, 0) == Total(0.0 + w + 0.0, 2);
    assert PresentWeightTotal(rs, 0, c) == Total(0.0 + w, 1);
    InflatedRatio(v, w);
  }

  lemma InflatedRatio(v: real, w: real)
    requires w > 0.0
    ensures Ratio(Total(0.0 + v * w, 1), Total(0.0 + w + 0.0, 2)) == Some(2.0 * v)
    ensures (0.0 + v * w) / (0.0 + w) == v
  {
    var e := Ratio(Total(0.0 + v * w, 1), Total(0.0 + w + 0.0, 2));
    assert e.Some? && e.value == ((v * w) / 1.0) / (w / 2.0);
    assert ((v * w) / 1.0) / (w / 2.0) == 2.0 * v;
  }

  /** A probe's rows with the count at row k multiplied by x. */
  function Reweigh(rows: seq<MsdRow>, k: nat, x: real): seq<MsdRow>
  {
    if k < |rows| then rows[k := rows[k].(n := Scale(x, rows[k].n))] else rows
  }

  /** Every probe's count at row k multiplied by the same factor x. */
  function Reweighted(rs: seq<seq<MsdRow>>, k: nat, x: real): (re: seq<seq<MsdRow>>)
    ensures |re| == |rs|
  {
    if rs == [] then []
    else Reweighted(rs[..|rs| - 1], k, x) + [Reweigh(rs[|rs| - 1], k, x)]
  }

  /** The factor a column's product v N picks up: N N for the count column, N otherwise. */
  function ColumnFactor(c: Column, x: real): real
  {
    if c == Count then x * x else x
  }

  /** t' is t with its sum multiplied by x and the same number of values. */
  predicate ScaledTotal(t': Total, t: Total, x: real)
  {
    t'.count == t.count && t'.sum == x * t.sum
  }

  lemma AddScaled(t: Total, v: Option<real>, x: real, t': Total, v': Option<real>)
    requires ScaledTotal(t', t, x) && v' == Scale(x, v)
    ensures ScaledTotal(Add(t', v'), Add(t, v), x)
  {
    if v.Some? {
      assert x * t.sum + x * v.value == x * (t.sum + v.value);
    }
  }

  lemma ProductScaledRight(a: Option<real>, b: Option<real>, x: real)
    ensures Product(a, Scale(x, b)) == Scale(x, Product(a, b))
  {
    if a.Some? && b.Some? {
      var lhs, rhs := Product(a, Scale(x, b)), Scale(x, Product(a, b));
      assert a.value * (x * b.value) == x * (a.value * b.value);
      assert lhs.Some? && rhs.Some? && lhs.value == rhs.value;
    }
  }

  lemma ProductScaledSquare(b: Option<real>, x: real)
    ensures Product(Scale(x, b), Scale(x, b)) == Scale(x * x, Product(b, b))
  {
    if b.Some? {
      var lhs, rhs := Product(Scale(x, b), Scale(x, b)), Scale(x * x, Product(b, b));
      assert (x * b.value) * (x * b.value) == (x * x) * (b.value * b.value);
      assert lhs.Some? && rhs.Some? && lhs.value == rhs.value;
    }
  }

  lemma ReweighedProducts(rows: seq<MsdRow>, k: nat, c: Column, x: real)
    ensures Weighted(Reweigh(rows, k, x), k, c) == Scale(ColumnFactor(c, x), Weighted(rows, k, c))
    ensures Weight(Reweigh(rows, k, x), k) == Scale(x, Weight(rows, k))
  {
    if k < |rows| {
      var r := rows[k];
      var r' := Reweigh(rows, k, x)[k];
      assert r' == r.(n := Scale(x, r.n));
      if c == Count {
        assert Cell(r', c) == r'.n && Cell(r, c) == r.n;
        ProductScaledSquare(r.n, x);
      } else {
        assert Cell(r', c) == Cell(r, c);
        ProductScaledRight(Cell(r, c), r.n, x);
      }
    }
  }

  /** Both sums of the fold pick up the factor; the numbers of values summed stay the same. */
  lemma {:induction false} ReweightedTotals(rs: seq<seq<MsdRow>>, k: nat, c: Column, x: real)
    ensures ScaledTotal(ColumnTotal(Reweighted(rs, k, x), k, c), ColumnTotal(rs, k, c), ColumnFactor(c, x))
    ensures ScaledTotal(WeightTotal(Reweighted(rs, k, x), k), WeightTotal(rs, k), x)
  {
    if rs != [] {
      var n := |rs|;
      var init, last := rs[..n - 1], rs[n - 1];
      var re := Reweighted(rs, k, x);
      var prev := Reweighted(init, k, x);
      assert re == prev + [Reweigh(last, k, x)];
      assert re[..n - 1] == prev;
      ReweightedTotals(init, k, c, x);
      ReweighedProducts(last, k, c, x);
      AddScaled(ColumnTotal(init, k, c), Weighted(last, k, c), ColumnFactor(c, x), ColumnTotal(prev, k, c), Weighted(re[n - 1], k, c));
      AddScaled(WeightTotal(init, k), Weight(last, k), x, WeightTotal(prev, k), Weight(re[n - 1], k));
    }
  }

  lemma FactorCancels(x: real, a: real, b: real, cn: real, dn: real)
    requires x > 0.0 && b != 0.0 && cn > 0.0 && dn > 0.0
    ensures ((x * a) / cn) / ((x * b) / dn) == (a / cn) / (b / dn)
    ensures ((x * x * a) / cn) / ((x * b) / dn) == x * ((a / cn) / (b / dn))
  {
    var r := (a / cn) / (b / dn);
    assert r * (b / dn) == a / cn;
    assert (x * a) / cn == x * (a / cn);
    assert (x * b) / dn == x * (b / dn);
    assert (x * x * a) / cn == x * x * (a / cn);
    assert (x * (b / dn)) * r == x * (a / cn);
  }

  /** Scaling numerator and weights by the same positive x leaves the ratio unchanged. */
  lemma RatioOfScaled(num: Total, den: Total, num': Total, den': Total, x: real)
    requires x > 0.0 && ScaledTotal(num', num, x) && ScaledTotal(den', den, x)
    ensures Ratio(num', den') == Ratio(num, den)
  {
    if num.count > 0 && den.count > 0 && den.sum != 0.0 {
      FactorCancels(x, num.sum, den.sum, num.count as real, den.count as real);
      var r', r := Ratio(num', den'), Ratio(num, den);
      assert r'.Some? && r.Some? && r'.value == r.value;
    }
  }

  /** Scaling the numerator by x squared and the weights by x scales the ratio by x. */
  lemma RatioOfSquareScaled(num: Total, den: Total, num': Total, den': Total, x: real)
    requires x > 0.0 && ScaledTotal(num', num, x * x) && ScaledTotal(den', den, x)
    ensures Ratio(num', den') == Scale(x, Ratio(num, den))
  {
    if num.count > 0 && den.count > 0 && den.sum != 0.0 {
      FactorCancels(x, num.sum, den.sum, num.count as real, den.count as real);
      var r', r := Ratio(num', den'), Ratio(num, den);
      assert r'.Some? && r.Some? && r'.value == x * r.value;
      var sr := Scale(x, r);
      assert sr.Some? && sr.value == r'.value;
    }
  }

  /**
   * Multiplying every probe's count at a lag by the same positive factor
   * leaves the weighted moments, msd and lag time of that lag unchanged, and
   * multiplies emsd's own count column by the factor.
   */
  lemma CommonFactorInvariance(rs: seq<seq<MsdRow>>, k: nat, c: Column, x: real)
    requires x > 0.0
    ensures c != Count ==> EnsembleCell(Reweighted(rs, k, x), k, c) == EnsembleCell(rs, k, c)
    ensures c == Count ==> EnsembleCell(Reweighted(rs, k, x), k, c) == Scale(x, EnsembleCell(rs, k, c))
  {
    ReweightedTotals(rs, k, c, x);
    var num, den := ColumnTotal(rs, k, c), WeightTotal(rs, k);
    var num', den' := ColumnTotal(Reweighted(rs, k, x), k, c), WeightTotal(Reweighted(rs, k, x), k);
    if c == Count {
      RatioOfSquareScaled(num, den, num', den', x);
    } else {
      RatioOfScaled(num, den, num', den', x);
    }
  }

  /**
   * With the count at lag tau as documented (2N/tau rather than the
   * computed 2N/(tau + 1)), every column of emsd but the count itself is the
   * same.
   */
  lemma DocumentedWeights(rs: seq<seq<MsdRow>>, k: nat, c: Column)
    requires c != Count
    ensures EnsembleCell(Reweighted(rs, k, DocumentedFactor(k)), k, c) == EnsembleCell(rs, k, c)
  {
    CommonFactorInvariance(rs, k, c, DocumentedFactor(k));
  }
}
