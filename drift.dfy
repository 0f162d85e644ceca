/**
 * compute_drift without smoothing: the steps each probe takes between
 * consecutive frames, averaged frame by frame over the probes that take one,
 * and summed up to each frame.
 */
module Drift {
  import opened Stats
  import opened Trajectory
  import opened Groups

  /** A displacement from one frame to the next, labelled with the frame it ends at. */
  datatype Step = Step(frame: int, dx: real, dy: real)

  /** The two coordinates, so that what holds for x is stated once for both. */
  datatype Axis = X | Y

  /** One row of the drift: the cumulative mean displacement up to a frame. */
  datatype DriftRow = DriftRow(frame: int, x: real, y: real)

  function Component(s: Step, a: Axis): real
  {
    match a
    case X => s.dx
    case Y => s.dy
  }

  function Coordinate(r: DriftRow, a: Axis): real
  {
    match a
    case X => r.x
    case Y => r.y
  }

  /** The difference of two rows of one probe, labelled with the later row's frame. */
  function StepBetween(a: Obs, b: Obs): Step
  {
    Step(b.frame, b.x - a.x, b.y - a.y)
  }

  /** Row-to-row differences along one trajectory, kept where the frame difference is 1. */
  function GroupSteps(g: seq<Obs>): (s: seq<Step>)
    ensures |s| < |g| || s == []
  {
    if |g| < 2 then []
    else
      var n := |g|;
      GroupSteps(g[..n - 1]) + (if g[n - 1].frame - g[n - 2].frame == 1 then [StepBetween(g[n - 2], g[n - 1])] else [])
  }

  /**
   * Along a trajectory with increasing frames, the steps kept are exactly
   * the differences between two observations one frame apart: frames never
   * repeat, so two such rows are always adjacent.
   */
  lemma GroupStepsMembers(g: seq<Obs>)
    requires Increasing(g)
    ensures forall s :: s in GroupSteps(g) <==>
      exists a, b :: 0 <= a < |g| && 0 <= b < |g| && g[b].frame == g[a].frame + 1 && s == StepBetween(g[a], g[b])
    ensures forall i, j :: 0 <= i < j < |GroupSteps(g)| ==> GroupSteps(g)[i].frame < GroupSteps(g)[j].frame
  {
    GroupStepsSound(g);
    GroupStepsOrdered(g);
    forall a, b | 0 <= a < |g| && 0 <= b < |g| && g[b].frame == g[a].frame + 1
      ensures StepBetween(g[a], g[b]) in GroupSteps(g)
    {
      GroupStepsComplete(g, a, b);
    }
  }

  lemma {:induction false} GroupStepsSound(g: seq<Obs>)
    ensures forall s :: s in GroupSteps(g) ==>
      exists a, b :: 0 <= a < |g| && 0 <= b < |g| && g[b].frame == g[a].frame + 1 && s == StepBetween(g[a], g[b])
  {
    if |g| >= 2 {
      var n := |g|;
      var init := g[..n - 1];
      GroupStepsSound(init);
      forall s | s in GroupSteps(g)
        ensures exists a, b :: 0 <= a < |g| && 0 <= b < |g| && g[b].frame == g[a].frame + 1 && s == StepBetween(g[a], g[b])
      {
        if s in GroupSteps(init) {
          var a, b :| 0 <= a < |init| && 0 <= b < |init| && init[b].frame == init[a].frame + 1 && s == StepBetween(init[a], init[b]);
          assert g[a] == init[a] && g[b] == init[b];
        } else {
          assert g[n - 1].frame == g[n - 2].frame + 1 && s == StepBetween(g[n - 2], g[n - 1]);
        }
      }
    }
  }

  /** Each step ends after the one before it, so one probe contributes at most one step per frame. */
  lemma {:induction false} GroupStepsOrdered(g: seq<Obs>)
    requires Increasing(g)
    ensures forall i, j :: 0 <= i < j < |GroupSteps(g)| ==> GroupSteps(g)[i].frame < GroupSteps(g)[j].frame
  {
    if |g| >= 2 {
      var n := |g|;
      var init := g[..n - 1];
      GroupStepsOrdered(init);
      GroupStepsSound(init);
      var prev := GroupSteps(init);
      forall i | 0 <= i < |prev|
        ensures prev[i].frame < g[n - 1].frame
      {
        assert prev[i] in prev;
        var a, b :| 0 <= a < |init| && 0 <= b < |init| && init[b].frame == init[a].frame + 1 && prev[i] == StepBetween(init[a], init[b]);
        assert init[b] == g[b];
      }
    }
  }

  lemma {:induction false} GroupStepsComplete(g: seq<Obs>, a: int, b: int)
    requires Increasing(g)
    requires 0 <= a < |g| && 0 <= b < |g| && g[b].frame == g[a].frame + 1
    ensures StepBetween(g[a], g[b]) in GroupSteps(g)
  {
    var n := |g|;
    assert a < b;
    var init := g[..n - 1];
    if b < n - 1 {
      assert init[a] == g[a] && init[b] == g[b];
      GroupStepsComplete(init, a, b);
    } else {
      assert g[a].frame <= g[n - 2].frame < g[n - 1].frame;
    }
  }

  /** The steps of the probes in ids, probe after probe. */
  function StepsOf(table: seq<Observation>, ids: seq<int>): seq<Step>
  {
    if ids == [] then []
    else StepsOf(table, ids[..|ids| - 1]) + GroupSteps(Group(table, ids[|ids| - 1]))
  }

  lemma {:induction false} StepsOfMembers(table: seq<Observation>, ids: seq<int>)
    ensures forall s :: s in StepsOf(table, ids) <==> exists j :: 0 <= j < |ids| && s in GroupSteps(Group(table, ids[j]))
  {
    if ids != [] {
      var init := ids[..|ids| - 1];
      StepsOfMembers(table, init);
      assert forall j :: 0 <= j < |init| ==> init[j] == ids[j];
    }
  }

  /** Rows i and j belong to one probe and j is observed one frame after i. */
  predicate UnitApart(table: seq<Observation>, i: int, j: int)
  {
    0 <= i < |table| && 0 <= j < |table| && table[i].probe == table[j].probe && table[j].frame == table[i].frame + 1
  }

  /** The consecutive-frame steps of every probe of the table. */
  function Steps(table: seq<Observation>): seq<Step>
  {
    StepsOf(table, ProbeIds(table))
  }

  /**
   * Only same-probe steps between frames exactly one apart contribute: a step
   * is kept if and only if two rows of one probe are one frame apart and the
   * step is their difference.
   */
  lemma StepsMembers(table: seq<Observation>)
    requires FramesIncreasePerProbe(table)
    ensures forall s :: s in Steps(table) <==>
      exists i, j :: UnitApart(table, i, j) && s == StepBetween(ObsOf(table[i]), ObsOf(table[j]))
  {
    var ids := ProbeIds(table);
    StepsOfMembers(table, ids);
    ProbeIdsMembers(table);
    forall s | s in Steps(table)
      ensures exists i, j :: UnitApart(table, i, j) && s == StepBetween(ObsOf(table[i]), ObsOf(table[j]))
    {
      var m :| 0 <= m < |ids| && s in GroupSteps(Group(table, ids[m]));
      StepFromRows(table, ids[m], s);
    }
    forall s | exists i, j :: UnitApart(table, i, j) && s == StepBetween(ObsOf(table[i]), ObsOf(table[j]))
      ensures s in Steps(table)
    {
      var i, j :| UnitApart(table, i, j) && s == StepBetween(ObsOf(table[i]), ObsOf(table[j]));
      var p := table[i].probe;
      assert p in ids;
      var m :| 0 <= m < |ids| && ids[m] == p;
      StepOfRows(table, p, i, j);
      assert s in GroupSteps(Group(table, ids[m]));
    }
  }

  lemma StepFromRows(table: seq<Observation>, p: int, s: Step)
    requires FramesIncreasePerProbe(table)
    requires s in GroupSteps(Group(table, p))
    ensures exists i, j :: UnitApart(table, i, j) && table[i].probe == p && s == StepBetween(ObsOf(table[i]), ObsOf(table[j]))
  {
    var g := Group(table, p);
    GroupIncreasing(table, p);
    GroupStepsMembers(g);
    GroupMembers(table, p);
    var a, b :| 0 <= a < |g| && 0 <= b < |g| && g[b].frame == g[a].frame + 1 && s == StepBetween(g[a], g[b]);
    assert g[a] in g && g[b] in g;
    var i :| 0 <= i < |table| && table[i].probe == p && g[a] == ObsOf(table[i]);
    var j :| 0 <= j < |table| && table[j].probe == p && g[b] == ObsOf(table[j]);
    assert UnitApart(table, i, j);
  }

  lemma StepOfRows(table: seq<Observation>, p: int, i: int, j: int)
    requires FramesIncreasePerProbe(table)
    requires 0 <= i < |table| && 0 <= j < |table| && table[i].probe == p && table[j].probe == p
    requires table[j].frame == table[i].frame + 1
    ensures StepBetween(ObsOf(table[i]), ObsOf(table[j])) in GroupSteps(Group(table, p))
  {
    var g := Group(table, p);
    GroupIncreasing(table, p);
    GroupStepsMembers(g);
    GroupMembers(table, p);
    assert ObsOf(table[i]) in g && ObsOf(table[j]) in g;
    var a :| 0 <= a < |g| && g[a] == ObsOf(table[i]);
    var b :| 0 <= b < |g| && g[b] == ObsOf(table[j]);
    assert g[b].frame == g[a].frame + 1;
  }

  /** Frames in strictly increasing order: sorted, each once. */
  predicate StrictlySorted(fs: seq<int>)
  {
    forall i, j :: 0 <= i < j < |fs| ==> fs[i] < fs[j]
  }

  /** f added to a sorted set of frames, in its place. */
  function Insert(fs: seq<int>, f: int): (r: seq<int>)
    requires StrictlySorted(fs)
    ensures StrictlySorted(r)
    ensures forall x :: x in r <==> x in fs || x == f
  {
    if fs == [] then [f]
    else if f < fs[0] then [f] + fs
    else if f == fs[0] then fs
    else
      var rest := Insert(fs[1..], f);
      InsertAfterHead(fs, f, rest);
      [fs[0]] + rest
  }

  /** Putting the head back in front of the insertion into the tail keeps the order. */
  lemma InsertAfterHead(fs: seq<int>, f: int, rest: seq<int>)
    requires StrictlySorted(fs) && fs != [] && f > fs[0]
    requires StrictlySorted(rest) && forall x :: x in rest <==> x in fs[1..] || x == f
    ensures StrictlySorted([fs[0]] + rest)
    ensures forall x :: x in [fs[0]] + rest <==> x in fs || x == f
  {
    assert forall x :: x in fs[1..] ==> x > fs[0];
    assert forall x :: x in rest ==> x > fs[0];
    var r := [fs[0]] + rest;
    assert forall i :: 1 <= i < |r| ==> r[i] == rest[i - 1] && r[i] in rest;
    assert fs == [fs[0]] + fs[1..];
  }

  /**
   * The frames the steps end at, sorted, each once: the index of the
   * per-frame means.
   */
  function EndFrames(steps: seq<Step>): (fs: seq<int>)
    ensures StrictlySorted(fs)
    ensures forall f :: f in fs <==> exists i :: 0 <= i < |steps| && steps[i].frame == f
    ensures AllEndFrames(steps, fs)
  {
    if steps == [] then []
    else
      var init := steps[..|steps| - 1];
      assert forall i :: 0 <= i < |init| ==> init[i] == steps[i];
      var fs := Insert(EndFrames(init), steps[|steps| - 1].frame);
      assert forall k :: 0 <= k < |fs| ==> fs[k] in fs;
      fs
  }

  /** Some step ends at frame f. */
  predicate IsEndFrame(steps: seq<Step>, f: int)
  {
    exists i :: 0 <= i < |steps| && steps[i].frame == f
  }

  /** Every frame of fs ends some step. */
  predicate AllEndFrames(steps: seq<Step>, fs: seq<int>)
  {
    forall k :: 0 <= k < |fs| ==> IsEndFrame(steps, fs[k])
  }

  /** The steps that end at frame f. */
  function AtFrame(steps: seq<Step>, f: int): (r: seq<Step>)
    ensures forall s :: s in r <==> s in steps && s.frame == f
  {
    if steps == [] then []
    else
      var last := steps[|steps| - 1];
      AtFrame(steps[..|steps| - 1], f) + (if last.frame == f then [last] else [])
  }

  /** The filter keeps every step ending at f as often as it occurs, and nothing else. */
  lemma {:induction false} AtFrameMultiset(steps: seq<Step>, f: int)
    ensures forall s :: multiset(AtFrame(steps, f))[s] == if s.frame == f then multiset(steps)[s] else 0
  {
    if steps != [] {
      var init, last := steps[..|steps| - 1], steps[|steps| - 1];
      assert steps == init + [last];
      AtFrameMultiset(init, f);
      assert multiset(AtFrame(steps, f)) == multiset(AtFrame(init, f)) + multiset(if last.frame == f then [last] else []);
    }
  }

  /** Filtering a concatenation filters each part. */
  lemma {:induction false} AtFrameAppend(a: seq<Step>, b: seq<Step>, f: int)
    ensures AtFrame(a + b, f) == AtFrame(a, f) + AtFrame(b, f)
    decreases |b|
  {
    if b == [] {
      assert a + b == a;
    } else {
      var init, last := b[..|b| - 1], b[|b| - 1];
      var tail := if last.frame == f then [last] else [];
      assert (a + b)[..|a + b| - 1] == a + init;
      assert (a + b)[|a + b| - 1] == last;
      assert AtFrame(a + b, f) == AtFrame(a + init, f) + tail;
      AtFrameAppend(a, init, f);
      assert AtFrame(b, f) == AtFrame(init, f) + tail;
    }
  }

  /** In a sequence whose frames strictly increase, at most one step ends at f. */
  lemma {:induction false} AtFrameOfOrdered(ss: seq<Step>, f: int)
    requires forall i, j :: 0 <= i < j < |ss| ==> ss[i].frame < ss[j].frame
    ensures |AtFrame(ss, f)| == if exists i :: 0 <= i < |ss| && ss[i].frame == f then 1 else 0
  {
    if ss != [] {
      var n := |ss|;
      var init := ss[..n - 1];
      assert forall i :: 0 <= i < n - 1 ==> init[i] == ss[i];
      AtFrameOfOrdered(init, f);
      if ss[n - 1].frame == f {
        assert forall i :: 0 <= i < n - 1 ==> init[i].frame < f;
      }
    }
  }

  /** Probe p is observed at frame f - 1 and at frame f. */
  predicate StepsAt(table: seq<Observation>, p: int, f: int)
  {
    exists i, j :: 0 <= i < |table| && 0 <= j < |table| && UnitApart(table, i, j) && table[i].probe == p && table[j].frame == f
  }

  /** One probe contributes one step at frame f if it is observed at f - 1 and f, and none otherwise. */
  lemma GroupStepCount(table: seq<Observation>, p: int, f: int)
    requires FramesIncreasePerProbe(table)
    ensures |AtFrame(GroupSteps(Group(table, p)), f)| == if StepsAt(table, p, f) then 1 else 0
  {
    var ss := GroupSteps(Group(table, p));
    GroupIncreasing(table, p);
    GroupStepsMembers(Group(table, p));
    AtFrameOfOrdered(ss, f);
    if StepsAt(table, p, f) {
      var i, j :| 0 <= i < |table| && 0 <= j < |table| && UnitApart(table, i, j) && table[i].probe == p && table[j].frame == f;
      StepOfRows(table, p, i, j);
      var m :| 0 <= m < |ss| && ss[m] == StepBetween(ObsOf(table[i]), ObsOf(table[j]));
      assert ss[m].frame == f;
    } else {
      forall m | 0 <= m < |ss|
        ensures ss[m].frame != f
      {
        assert ss[m] in ss;
        StepFromRows(table, p, ss[m]);
        var i, j :| UnitApart(table, i, j) && table[i].probe == p && ss[m] == StepBetween(ObsOf(table[i]), ObsOf(table[j]));
        assert ss[m].frame == table[j].frame;
      }
    }
  }

  /** Over distinct probes, the steps ending at f number the probes observed at f - 1 and f. */
  lemma {:induction false} StepsOfCount(table: seq<Observation>, ids: seq<int>, f: int)
    requires FramesIncreasePerProbe(table)
    requires forall i, j :: 0 <= i < j < |ids| ==> ids[i] != ids[j]
    ensures |AtFrame(StepsOf(table, ids), f)| == |set p | p in ids && StepsAt(table, p, f)|
  {
    if ids != [] {
      var init, last := ids[..|ids| - 1], ids[|ids| - 1];
      assert forall i :: 0 <= i < |init| ==> init[i] == ids[i];
      StepsOfCount(table, init, f);
      AtFrameAppend(StepsOf(table, init), GroupSteps(Group(table, last)), f);
      GroupStepCount(table, last, f);
      SteppingOneMore(table, ids, f);
    }
  }

  /** Counting the probes observed at f - 1 and f: the last, distinct id adds one or none. */
  lemma SteppingOneMore(table: seq<Observation>, ids: seq<int>, f: int)
    requires ids != [] && forall i :: 0 <= i < |ids| - 1 ==> ids[i] != ids[|ids| - 1]
    ensures |set p | p in ids && StepsAt(table, p, f)|
         == |set p | p in ids[..|ids| - 1] && StepsAt(table, p, f)| + (if StepsAt(table, ids[|ids| - 1], f) then 1 else 0)
  {
    var init, last := ids[..|ids| - 1], ids[|ids| - 1];
    var before := set p | p in init && StepsAt(table, p, f);
    var after := set p | p in ids && StepsAt(table, p, f);
    assert ids == init + [last];
    assert last !in before;
    if StepsAt(table, last, f) {
      assert after == before + {last};
    } else {
      assert after == before;
    }
  }

  /**
   * The mean at frame f is over one step for each probe observed at both
   * f - 1 and f: two probes moving alike are two steps, not one.
   */
  lemma StepCountAtFrame(table: seq<Observation>, f: int)
    requires FramesIncreasePerProbe(table)
    ensures |AtFrame(Steps(table), f)| == |set p | p in ProbeIds(table) && StepsAt(table, p, f)|
  {
    ProbeIdsDistinct(table);
    StepsOfCount(table, ProbeIds(table), f);
  }

  lemma AtEndFrame(steps: seq<Step>, f: int)
    requires IsEndFrame(steps, f)
    ensures AtFrame(steps, f) != []
  {
    var i :| 0 <= i < |steps| && steps[i].frame == f;
    assert steps[i] in AtFrame(steps, f);
  }

  function Components(ss: seq<Step>, a: Axis): (r: seq<real>)
    ensures |r| == |ss|
    ensures forall i :: 0 <= i < |ss| ==> r[i] == Component(ss[i], a)
  {
    seq(|ss|, i requires 0 <= i < |ss| => Component(ss[i], a))
  }

  /** The mean step at frame f over the probes that take one: never of an empty set. */
  function MeanStep(steps: seq<Step>, f: int, a: Axis): (m: real)
    requires IsEndFrame(steps, f)
  {
    AtEndFrame(steps, f);
    var xs := Components(AtFrame(steps, f), a);
    assert xs != [];
    Mean(xs).value
  }

  /** The cumulative sum of the per-frame means along fs. */
  function CumSum(steps: seq<Step>, fs: seq<int>): (d: seq<DriftRow>)
    requires AllEndFrames(steps, fs)
    ensures |d| == |fs|
    ensures forall k :: 0 <= k < |fs| ==> d[k].frame == fs[k]
  {
    if fs == [] then []
    else
      var n := |fs|;
      assert forall k :: 0 <= k < n - 1 ==> fs[..n - 1][k] == fs[k];
      var prev := CumSum(steps, fs[..n - 1]);
      var x0 := if n == 1 then 0.0 else prev[n - 2].x;
      var y0 := if n == 1 then 0.0 else prev[n - 2].y;
      prev + [DriftRow(fs[n - 1], x0 + MeanStep(steps, fs[n - 1], X), y0 + MeanStep(steps, fs[n - 1], Y))]
  }

  /** Extending fs leaves the earlier points of the cumulative sum alone. */
  lemma CumSumPrefix(steps: seq<Step>, fs: seq<int>, k: nat)
    requires AllEndFrames(steps, fs) && k < |fs| - 1
    ensures AllEndFrames(steps, fs[..|fs| - 1])
    ensures CumSum(steps, fs)[k] == CumSum(steps, fs[..|fs| - 1])[k]
  {
    assert forall m :: 0 <= m < |fs| - 1 ==> fs[..|fs| - 1][m] == fs[m];
  }

  /** The last point is the one before it plus the mean step at the last frame. */
  lemma CumSumLast(steps: seq<Step>, fs: seq<int>, a: Axis)
    requires AllEndFrames(steps, fs) && |fs| > 0
    ensures AllEndFrames(steps, fs[..|fs| - 1])
    ensures var n := |fs|;
      Coordinate(CumSum(steps, fs)[n - 1], a)
      == (if n == 1 then 0.0 else Coordinate(CumSum(steps, fs[..n - 1])[n - 2], a)) + MeanStep(steps, fs[n - 1], a)
  {
    assert forall m :: 0 <= m < |fs| - 1 ==> fs[..|fs| - 1][m] == fs[m];
  }

  /**
   * compute_drift(traj, 0): the drift indexed by the frames that end a
   * step, in increasing order.
   */
  function ComputeDrift(table: seq<Observation>): (d: seq<DriftRow>)
    requires table != []
    ensures forall i, j :: 0 <= i < j < |d| ==> d[i].frame < d[j].frame
  {
    var steps := Steps(table);
    var fs := EndFrames(steps);
    CumSum(steps, fs)
  }

  /** The reference drift: the per-frame means summed over the frames of fs up to f. */
  function TotalUpTo(steps: seq<Step>, fs: seq<int>, f: int, a: Axis): real
    requires AllEndFrames(steps, fs)
  {
    if fs == [] then 0.0
    else
      var n := |fs|;
      assert forall k :: 0 <= k < n - 1 ==> fs[..n - 1][k] == fs[k];
      TotalUpTo(steps, fs[..n - 1], f, a) + (if fs[n - 1] <= f then MeanStep(steps, fs[n - 1], a) else 0.0)
  }

  /** One more frame adds its mean step to the total when it is not past f. */
  lemma TotalUpToLast(steps: seq<Step>, fs: seq<int>, f: int, a: Axis)
    requires AllEndFrames(steps, fs) && |fs| > 0
    ensures AllEndFrames(steps, fs[..|fs| - 1])
    ensures var n := |fs|;
      TotalUpTo(steps, fs, f, a)
      == TotalUpTo(steps, fs[..n - 1], f, a) + (if fs[n - 1] <= f then MeanStep(steps, fs[n - 1], a) else 0.0)
  {
    assert forall m :: 0 <= m < |fs| - 1 ==> fs[..|fs| - 1][m] == fs[m];
  }

  /** Once f and g are both past every frame of fs, the totals up to them agree. */
  lemma {:induction false} TotalPastAll(steps: seq<Step>, fs: seq<int>, f: int, g: int, a: Axis)
    requires AllEndFrames(steps, fs)
    requires forall k :: 0 <= k < |fs| ==> fs[k] <= f && fs[k] <= g
    ensures TotalUpTo(steps, fs, f, a) == TotalUpTo(steps, fs, g, a)
  {
    if fs != [] {
      var n := |fs|;
      assert forall k :: 0 <= k < n - 1 ==> fs[..n - 1][k] == fs[k];
      TotalPastAll(steps, fs[..n - 1], f, g, a);
    }
  }

  /** Each point of the cumulative sum is the total of the means up to its frame. */
  lemma {:induction false} CumSumIsTotal(steps: seq<Step>, fs: seq<int>, k: nat, a: Axis)
    requires AllEndFrames(steps, fs) && StrictlySorted(fs) && k < |fs|
    ensures Coordinate(CumSum(steps, fs)[k], a) == TotalUpTo(steps, fs, fs[k], a)
  {
    var n := |fs|;
    var init := fs[..n - 1];
    assert forall m :: 0 <= m < n - 1 ==> init[m] == fs[m];
    if k < n - 1 {
      CumSumIsTotal(steps, init, k, a);
      EarlierIsTotal(steps, fs, k, a);
    } else {
      if n > 1 {
        CumSumIsTotal(steps, init, n - 2, a);
      }
      LastIsTotal(steps, fs, a);
    }
  }

  /** The inductive step for a point before the last one. */
  lemma EarlierIsTotal(steps: seq<Step>, fs: seq<int>, k: nat, a: Axis)
    requires AllEndFrames(steps, fs) && StrictlySorted(fs) && k < |fs| - 1
    requires AllEndFrames(steps, fs[..|fs| - 1])
    requires Coordinate(CumSum(steps, fs[..|fs| - 1])[k], a) == TotalUpTo(steps, fs[..|fs| - 1], fs[k], a)
    ensures Coordinate(CumSum(steps, fs)[k], a) == TotalUpTo(steps, fs, fs[k], a)
  {
    TotalUpToLast(steps, fs, fs[k], a);
    CumSumPrefix(steps, fs, k);
  }

  /** The inductive step for the last point. */
  lemma LastIsTotal(steps: seq<Step>, fs: seq<int>, a: Axis)
    requires AllEndFrames(steps, fs) && StrictlySorted(fs) && |fs| > 0
    requires AllEndFrames(steps, fs[..|fs| - 1])
    requires |fs| > 1 ==>
      Coordinate(CumSum(steps, fs[..|fs| - 1])[|fs| - 2], a) == TotalUpTo(steps, fs[..|fs| - 1], fs[|fs| - 2], a)
    ensures Coordinate(CumSum(steps, fs)[|fs| - 1], a) == TotalUpTo(steps, fs, fs[|fs| - 1], a)
  {
    var n := |fs|;
    var init := fs[..n - 1];
    TotalUpToLast(steps, fs, fs[n - 1], a);
    CumSumLast(steps, fs, a);
    if n > 1 {
      assert forall m :: 0 <= m < n - 1 ==> init[m] == fs[m];
      TotalPastAll(steps, init, fs[n - 2], fs[n - 1], a);
    }
  }

  /**
   * drift(f) at each indexed frame f is the sum, over the indexed frames
   * g <= f, of the mean step at g.
   */
  lemma DriftIsCumulative(table: seq<Observation>, k: nat, a: Axis)
    requires table != [] && k < |ComputeDrift(table)|
    ensures var steps := Steps(table);
      Coordinate(ComputeDrift(table)[k], a) == TotalUpTo(steps, EndFrames(steps), ComputeDrift(table)[k].frame, a)
  {
    CumSumIsTotal(Steps(table), EndFrames(Steps(table)), k, a);
  }

  /**
   * The drift index is exactly the set of frames at which some probe
   * ends a step from the frame before.
   */
  lemma DriftIndex(table: seq<Observation>)
    requires table != [] && FramesIncreasePerProbe(table)
    ensures forall k :: 0 <= k < |ComputeDrift(table)| ==>
      exists i, j :: UnitApart(table, i, j) && ComputeDrift(table)[k].frame == table[j].frame
    ensures forall i, j :: UnitApart(table, i, j) ==>
      exists k :: 0 <= k < |ComputeDrift(table)| && ComputeDrift(table)[k].frame == table[j].frame
  {
    var steps := Steps(table);
    var fs := EndFrames(steps);
    var d := ComputeDrift(table);
    StepsMembers(table);
    forall k | 0 <= k < |d|
      ensures exists i, j :: UnitApart(table, i, j) && d[k].frame == table[j].frame
    {
      assert fs[k] in fs;
      var m :| 0 <= m < |steps| && steps[m].frame == fs[k];
      assert steps[m] in steps;
      var i, j :| UnitApart(table, i, j) && steps[m] == StepBetween(ObsOf(table[i]), ObsOf(table[j]));
      assert d[k].frame == table[j].frame;
    }
    forall i, j | UnitApart(table, i, j)
      ensures exists k :: 0 <= k < |d| && d[k].frame == table[j].frame
    {
      var s := StepBetween(ObsOf(table[i]), ObsOf(table[j]));
      assert s in steps;
      var m :| 0 <= m < |steps| && steps[m] == s;
      assert table[j].frame in fs;
      var k :| 0 <= k < |fs| && fs[k] == table[j].frame;
      assert d[k].frame == table[j].frame;
    }
  }

  /** c added up m times: m c, kept as a sum so that proofs about the drift stay linear. */
  function Times(m: nat, c: real): (r: real)
  {
    if m == 0 then 0.0 else Times(m - 1, c) + c
  }

  /** Repeated addition is multiplication. */
  lemma {:induction false} TimesIsProduct(m: nat, c: real)
    ensures Times(m, c) == m as real * c
  {
    if m > 0 {
      TimesIsProduct(m - 1, c);
    }
  }

  /** Every step has component c along a. */
  predicate Uniform(steps: seq<Step>, a: Axis, c: real)
  {
    forall i :: 0 <= i < |steps| ==> Component(steps[i], a) == c
  }

  /** Every step the same: the mean step at any end frame is that step. */
  lemma MeanOfUniform(steps: seq<Step>, f: int, a: Axis, c: real)
    requires IsEndFrame(steps, f) && Uniform(steps, a, c)
    ensures MeanStep(steps, f, a) == c
  {
    var at := AtFrame(steps, f);
    AtEndFrame(steps, f);
    assert forall i :: 0 <= i < |at| ==> at[i] in steps;
    MeanOfConstant(Components(at, a), c);
  }

  lemma {:induction false} CumSumOfUniform(steps: seq<Step>, fs: seq<int>, k: nat, a: Axis, c: real)
    requires AllEndFrames(steps, fs) && k < |fs| && Uniform(steps, a, c)
    ensures Coordinate(CumSum(steps, fs)[k], a) == Times(k + 1, c)
  {
    var n := |fs|;
    var init := fs[..n - 1];
    assert forall m :: 0 <= m < n - 1 ==> init[m] == fs[m];
    if k < n - 1 {
      CumSumOfUniform(steps, init, k, a, c);
      CumSumPrefix(steps, fs, k);
    } else {
      if n > 1 {
        CumSumOfUniform(steps, init, n - 2, a, c);
      }
      LastOfUniform(steps, fs, a, c);
    }
  }

  /** The inductive step of CumSumOfUniform for the last point. */
  lemma LastOfUniform(steps: seq<Step>, fs: seq<int>, a: Axis, c: real)
    requires AllEndFrames(steps, fs) && |fs| > 0 && Uniform(steps, a, c)
    requires AllEndFrames(steps, fs[..|fs| - 1])
    requires |fs| > 1 ==> Coordinate(CumSum(steps, fs[..|fs| - 1])[|fs| - 2], a) == Times(|fs| - 1, c)
    ensures Coordinate(CumSum(steps, fs)[|fs| - 1], a) == Times(|fs|, c)
  {
    CumSumLast(steps, fs, a);
    MeanOfUniform(steps, fs[|fs| - 1], a, c);
  }

  /**
   * Every probe moving by (dx, dy) per frame: the k-th indexed frame has
   * drift (k + 1) (dx, dy) (see TimesIsProduct), k + 1 being the number of
   * indexed frames up to it.
   */
  lemma UniformDrift(table: seq<Observation>, dx: real, dy: real, k: nat)
    requires FramesIncreasePerProbe(table)
    requires forall i, j :: UnitApart(table, i, j) ==> table[j].x - table[i].x == dx && table[j].y - table[i].y == dy
    requires table != [] && k < |ComputeDrift(table)|
    ensures ComputeDrift(table)[k].x == Times(k + 1, dx)
    ensures ComputeDrift(table)[k].y == Times(k + 1, dy)
  {
    UniformSteps(table, dx, dy);
    var steps := Steps(table);
    CumSumOfUniform(steps, EndFrames(steps), k, X, dx);
    CumSumOfUniform(steps, EndFrames(steps), k, Y, dy);
  }

  lemma UniformSteps(table: seq<Observation>, dx: real, dy: real)
    requires FramesIncreasePerProbe(table)
    requires forall i, j :: UnitApart(table, i, j) ==> table[j].x - table[i].x == dx && table[j].y - table[i].y == dy
    ensures Uniform(Steps(table), X, dx) && Uniform(Steps(table), Y, dy)
  {
    var steps := Steps(table);
    StepsMembers(table);
    forall m | 0 <= m < |steps|
      ensures steps[m].dx == dx && steps[m].dy == dy
    {
      assert steps[m] in steps;
    }
  }
}
