/**
 * msd run probe by probe over a multi-probe table: the per-probe results
 * that imsd pivots and emsd averages.
 */
module PerProbe {
  import opened Stats
  import opened Trajectory
  import opened MsdEngine
  import opened Groups

  /** msd of the rows of probe p alone. */
  function ProbeMsd(table: seq<Observation>, p: int, mpp: real, fps: real, maxLag: nat, detail: bool): (r: seq<MsdRow>)
    requires FramesIncreasePerProbe(table) && p in ProbeIds(table) && maxLag >= 1 && fps != 0.0
    ensures |r| < maxLag && |r| < |Group(table, p)|
  {
    GroupIsTrack(table, p);
    Msd(Group(table, p), mpp, fps, maxLag, detail)
  }

  /** The per-probe results, in the order of ProbeIds. */
  function ProbeResults(table: seq<Observation>, mpp: real, fps: real, maxLag: nat, detail: bool): (rs: seq<seq<MsdRow>>)
    requires FramesIncreasePerProbe(table) && maxLag >= 1 && fps != 0.0
    ensures |rs| == |ProbeIds(table)|
    ensures forall j :: 0 <= j < |rs| ==> rs[j] == ProbeMsd(table, ProbeIds(table)[j], mpp, fps, maxLag, detail)
  {
    var ids := ProbeIds(table);
    seq(|ids|, j requires 0 <= j < |ids| => ProbeMsd(table, ids[j], mpp, fps, maxLag, detail))
  }

  /** The number of lag rows once the results are aligned on lag: the longest result. */
  function Width(rs: seq<seq<MsdRow>>): (w: nat)
    ensures forall j :: 0 <= j < |rs| ==> |rs[j]| <= w
    ensures w > 0 ==> exists j :: 0 <= j < |rs| && |rs[j]| == w
  {
    if rs == [] then 0
    else
      var w := Width(rs[..|rs| - 1]);
      assert forall j :: 0 <= j < |rs| - 1 ==> rs[..|rs| - 1][j] == rs[j];
      if |rs[|rs| - 1]| > w then |rs[|rs| - 1]| else w
  }
}
