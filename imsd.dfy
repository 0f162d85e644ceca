/**
 * imsd: one chosen statistic of msd, probe by probe, pivoted into a table
 * with one column per probe and one row per lag, keyed by lag time.
 */
module IndividualMsd {
  import opened Stats
  import opened Trajectory
  import opened MsdEngine
  import opened Groups
  import opened PerProbe

  /**
   * A table keyed by lag time (row k is the lag k + 1 frames) with one
   * column per probe id; every column is as long as the index.
   */
  datatype LagTable = LagTable(index: seq<real>, columns: map<int, seq<Option<real>>>)

  /**
   * imsd(traj, mpp, fps, max_lagtime, statistic). The count column is not a
   * choice: msd is run without it.
   */
  method Imsd(table: seq<Observation>, mpp: real, fps: real, maxLag: nat, stat: Column) returns (r: LagTable)
    requires ValidTable(table) && maxLag >= 1 && fps != 0.0 && stat != Count
    ensures var ids, rs := ProbeIds(table), ProbeResults(table, mpp, fps, maxLag, false);
      // the rows are the lags of the longest per-probe result, keyed by lag time
      && |r.index| == Width(rs)
      && (forall k :: 0 <= k < |r.index| ==> r.index[k] == (k + 1) as real / fps)
      // a column for every probe whose own result has at least one row, and no other
      && (forall p :: p in r.columns ==> p in ids)
      && (forall j :: 0 <= j < |ids| ==> (ids[j] in r.columns <==> rs[j] != []))
      // each cell is the probe's own statistic at that lag, missing past its last lag
      && (forall j :: 0 <= j < |ids| && rs[j] != [] ==> r.columns[ids[j]] == Pivoted(rs[j], stat, |r.index|))
    // the same, probe by probe
    ensures forall p :: p in ProbeIds(table) ==> |ProbeMsd(table, p, mpp, fps, maxLag, false)| <= |r.index|
    ensures forall p :: p in r.columns <==> p in ProbeIds(table) && ProbeMsd(table, p, mpp, fps, maxLag, false) != []
    ensures forall p :: p in r.columns ==> r.columns[p] == Pivoted(ProbeMsd(table, p, mpp, fps, maxLag, false), stat, |r.index|)
  {
    var ids := ProbeIds(table);
    ProbeIdsDistinct(table);
    var msds, width := Gather(table, mpp, fps, maxLag, false);
    var columns := Unstack(ids, msds, stat, width);
    r := LagTable(LagIndex(width, fps), columns);
    forall p | p in ProbeIds(table)
      ensures |ProbeMsd(table, p, mpp, fps, maxLag, false)| <= width
      ensures p in r.columns <==> ProbeMsd(table, p, mpp, fps, maxLag, false) != []
    {
      var j :| 0 <= j < |ids| && ids[j] == p;
    }
  }

  /** Probes become columns, aligned on lag; a probe without rows gets no column. */
  method Unstack(ids: seq<int>, msds: seq<seq<MsdRow>>, stat: Column, width: nat) returns (columns: map<int, seq<Option<real>>>)
    requires |ids| == |msds|
    requires forall i, j :: 0 <= i < j < |ids| ==> ids[i] != ids[j]
    ensures forall p :: p in columns ==> p in ids
    ensures forall j :: 0 <= j < |ids| ==> (ids[j] in columns <==> msds[j] != [])
    ensures forall j :: 0 <= j < |ids| && msds[j] != [] ==> columns[ids[j]] == Pivoted(msds[j], stat, width)
  {
    columns := map[];
    var i := 0;
    while i < |ids|
      invariant 0 <= i <= |ids|
      invariant forall p :: p in columns ==> p in ids
      invariant forall j :: 0 <= j < |ids| ==> (ids[j] in columns <==> j < i && msds[j] != [])
      invariant forall j :: 0 <= j < i && msds[j] != [] ==> columns[ids[j]] == Pivoted(msds[j], stat, width)
    {
      if msds[i] != [] {
        columns := columns[ids[i] := Pivoted(msds[i], stat, width)];
      }
      i := i + 1;
    }
  }

  /** The row keys: lag k + 1 frames in seconds. */
  function LagIndex(width: nat, fps: real): (index: seq<real>)
    requires fps != 0.0
    ensures |index| == width
    ensures forall k :: 0 <= k < width ==> index[k] == (k + 1) as real / fps
  {
    seq(width, k => (k + 1) as real / fps)
  }

  /** One probe's statistic, padded with missing cells to the common number of lags. */
  function Pivoted(own: seq<MsdRow>, stat: Column, width: nat): (col: seq<Option<real>>)
    ensures |col| == width
    ensures forall k :: 0 <= k < width ==> col[k] == (if k < |own| then Cell(own[k], stat) else None)
  {
    seq(width, k requires 0 <= k < width => if k < |own| then Cell(own[k], stat) else None)
  }

  /** The loop over probe groups: msd of each probe in turn, and the longest result. */
  method Gather(table: seq<Observation>, mpp: real, fps: real, maxLag: nat, detail: bool)
    returns (msds: seq<seq<MsdRow>>, width: nat)
    requires FramesIncreasePerProbe(table) && maxLag >= 1 && fps != 0.0
    ensures msds == ProbeResults(table, mpp, fps, maxLag, detail)
    ensures width == Width(msds)
  {
    var ids := ProbeIds(table);
    ghost var rs := ProbeResults(table, mpp, fps, maxLag, detail);
    msds, width := [], 0;
    var i := 0;
    while i < |ids|
      invariant 0 <= i <= |ids|
      invariant msds == rs[..i]
      invariant width == Width(msds)
    {
      var own := ProbeMsd(table, ids[i], mpp, fps, maxLag, detail);
      GatherStep(rs, i, own);
      WidthAppend(msds, own);
      msds := msds + [own];
      if |own| > width {
        width := |own|;
      }
      i := i + 1;
    }
    assert rs[..|ids|] == rs;
  }

  /** The prefix of the results grows by the next result. */
  lemma GatherStep(rs: seq<seq<MsdRow>>, i: nat, own: seq<MsdRow>)
    requires i < |rs| && own == rs[i]
    ensures rs[..i + 1] == rs[..i] + [own]
  {
  }

  /** One more result widens the table only if it is longer than all before it. */
  lemma WidthAppend(rs: seq<seq<MsdRow>>, r: seq<MsdRow>)
    ensures Width(rs + [r]) == if |r| > Width(rs) then |r| else Width(rs)
  {
    assert (rs + [r])[..|rs|] == rs;
  }
}
