/**
 * One probe's trajectory, its reindexing onto a dense frame range with
 * missing markers in the gaps, and the displacements at a lag.
 */
module Trajectory {
  import opened Stats

  /** One observed row of a single trajectory: the frame and the position in pixels. */
  datatype Obs = Obs(frame: int, x: real, y: real)

  /** A displacement or a position, in pixels. */
  datatype Vec = Vec(dx: real, dy: real)

  function PosOf(o: Obs): Vec
  {
    Vec(o.x, o.y)
  }

  function Minus(a: Vec, b: Vec): Vec
  {
    Vec(a.dx - b.dx, a.dy - b.dy)
  }

  /** Frames strictly increase along the rows: sorted, and no frame twice. */
  predicate Increasing(t: seq<Obs>)
  {
    forall i, j :: 0 <= i < j < |t| ==> t[i].frame < t[j].frame
  }

  /** What the engine needs of a trajectory: at least one row, frames strictly increasing. */
  predicate ValidTrack(t: seq<Obs>)
  {
    |t| > 0 && Increasing(t)
  }

  /** The position observed at frame f, or missing when no row has that frame. */
  function Lookup(t: seq<Obs>, f: int): (p: Option<Vec>)
    ensures p.Some? <==> exists i :: 0 <= i < |t| && t[i].frame == f
    ensures p.Some? ==> exists i :: 0 <= i < |t| && t[i].frame == f && p.value == PosOf(t[i])
  {
    if t == [] then None
    else if t[0].frame == f then Some(PosOf(t[0]))
    else
      var p := Lookup(t[1..], f);
      assert forall i :: 1 <= i < |t| ==> t[i] == t[1..][i - 1];
      assert p.Some? ==> exists i :: 0 <= i < |t[1..]| && t[1..][i].frame == f && p.value == PosOf(t[1..][i]);
      p
  }

  /** With unique frames, Lookup finds exactly the row that has the frame. */
  lemma LookupRow(t: seq<Obs>, i: int)
    requires Increasing(t) && 0 <= i < |t|
    ensures Lookup(t, t[i].frame) == Some(PosOf(t[i]))
  {
    var p := Lookup(t, t[i].frame);
    var j :| 0 <= j < |t| && t[j].frame == t[i].frame && p.value == PosOf(t[j]);
    assert j == i;
  }

  /** The number of frames from the first row's frame to the last row's, inclusive. */
  function Span(t: seq<Obs>): nat
    requires ValidTrack(t)
  {
    assert t[0].frame <= t[|t| - 1].frame;
    t[|t| - 1].frame - t[0].frame + 1
  }

  /** The trajectory reindexed onto consecutive frames: cell k is frame t[0].frame + k. */
  function Dense(t: seq<Obs>): (d: seq<Option<Vec>>)
    requires ValidTrack(t)
    ensures |d| == Span(t)
  {
    seq(Span(t), k requires 0 <= k < Span(t) => Lookup(t, t[0].frame + k))
  }

  /** Every cell of the dense series holds the observation at its frame, and a gap holds the missing marker. */
  lemma ReindexMarksGaps(t: seq<Obs>, k: int)
    requires ValidTrack(t) && 0 <= k < Span(t)
    ensures Dense(t)[k].None? <==> forall i :: 0 <= i < |t| ==> t[i].frame != t[0].frame + k
    ensures forall i :: 0 <= i < |t| && t[i].frame == t[0].frame + k ==> Dense(t)[k] == Some(PosOf(t[i]))
    ensures |t| <= Span(t)
  {
    assert Dense(t)[k] == Lookup(t, t[0].frame + k);
    forall i | 0 <= i < |t| && t[i].frame == t[0].frame + k
      ensures Dense(t)[k] == Some(PosOf(t[i]))
    {
      LookupRow(t, i);
    }
    FramesWithinSpan(t, |t| - 1);
  }

  /** Frames advance by at least one per row. */
  lemma {:induction false} FramesWithinSpan(t: seq<Obs>, i: int)
    requires Increasing(t) && 0 <= i < |t|
    ensures t[i].frame >= t[0].frame + i
  {
    if i > 0 {
      FramesWithinSpan(t, i - 1);
    }
  }

  /**
   * The displacements d[i] - d[i - lag] for the end cells i < hi whose two
   * endpoints are both present, in frame order: the shifted difference of
   * the dense series with the missing results dropped.
   */
  function Displacements(d: seq<Option<Vec>>, lag: nat, hi: nat): (r: seq<Vec>)
    requires hi <= |d|
    ensures r == [] || |r| + lag <= hi
  {
    if hi <= lag then []
    else
      Displacements(d, lag, hi - 1) +
      (if d[hi - 1].Some? && d[hi - 1 - lag].Some?
       then [Minus(d[hi - 1].value, d[hi - 1 - lag].value)] else [])
  }

  /** The displacements the engine averages at a lag: those of the whole dense series. */
  function LagDisplacements(t: seq<Obs>, lag: nat): (r: seq<Vec>)
    requires ValidTrack(t)
    ensures r == [] || |r| + lag <= Span(t)
  {
    Displacements(Dense(t), lag, Span(t))
  }

  /**
   * Reference definition over the rows themselves, with no reindexing: for
   * each observed frame f in order, pos(f) - pos(f - lag) when frame f - lag
   * was observed too.
   */
  function PairsUpTo(t: seq<Obs>, lag: nat, m: nat): seq<Vec>
    requires m <= |t|
  {
    if m == 0 then []
    else
      var q := Lookup(t, t[m - 1].frame - lag);
      PairsUpTo(t, lag, m - 1) + (if q.Some? then [Minus(PosOf(t[m - 1]), q.value)] else [])
  }

  function ObservedPairs(t: seq<Obs>, lag: nat): seq<Vec>
  {
    PairsUpTo(t, lag, |t|)
  }

  /** Cells strictly between two consecutive rows' frames are gaps. */
  lemma GapCell(t: seq<Obs>, m: int, k: int)
    requires ValidTrack(t) && 0 < m < |t|
    requires t[m - 1].frame < t[0].frame + k < t[m].frame
    ensures 0 <= k < Span(t) && Dense(t)[k].None?
  {
    FramesWithinSpan(t, m - 1);
    assert t[m].frame <= t[|t| - 1].frame;
    assert Dense(t)[k] == Lookup(t, t[0].frame + k);
    forall i | 0 <= i < |t|
      ensures t[i].frame != t[0].frame + k
    {
      if i < m { assert t[i].frame <= t[m - 1].frame; }
      else { assert t[i].frame >= t[m].frame; }
    }
  }

  /** Running over a gap adds no displacement. */
  lemma {:induction false} SkipGap(t: seq<Obs>, lag: nat, m: int, hi: int)
    requires ValidTrack(t) && 0 < m < |t|
    requires t[m - 1].frame - t[0].frame + 1 <= hi < t[m].frame - t[0].frame + 1
    ensures hi <= Span(t)
    ensures Displacements(Dense(t), lag, hi) == Displacements(Dense(t), lag, t[m - 1].frame - t[0].frame + 1)
    decreases hi
  {
    assert t[m].frame <= t[|t| - 1].frame;
    if hi > t[m - 1].frame - t[0].frame + 1 {
      GapCell(t, m, hi - 1);
      SkipGap(t, lag, m, hi - 1);
    }
  }

  /** No row has a frame before the first row's. */
  lemma NothingBeforeStart(t: seq<Obs>, f: int)
    requires ValidTrack(t) && f < t[0].frame
    ensures Lookup(t, f).None?
  {
    forall i | 0 <= i < |t| ensures t[i].frame != f {
      if i > 0 { assert t[0].frame < t[i].frame; }
    }
  }

  /** Displacements of the dense series up to row m's cell equal the row-pair reference up to row m. */
  lemma {:induction false} DisplacementsUpToRow(t: seq<Obs>, lag: nat, m: nat)
    requires ValidTrack(t) && lag >= 1 && 0 < m <= |t|
    ensures t[m - 1].frame - t[0].frame + 1 <= Span(t)
    ensures Displacements(Dense(t), lag, t[m - 1].frame - t[0].frame + 1) == PairsUpTo(t, lag, m)
  {
    var hi := t[m - 1].frame - t[0].frame + 1;
    RowCell(t, lag, m);
    PairsStep(t, lag, m);
    if m > 1 {
      DisplacementsUpToRow(t, lag, m - 1);
      SkipGap(t, lag, m - 1, hi - 1);
    }
  }

  lemma PairsStep(t: seq<Obs>, lag: nat, m: nat)
    requires ValidTrack(t) && lag >= 1 && 0 < m <= |t|
    ensures t[m - 1].frame - t[0].frame + 1 <= Span(t)
    ensures var q := Lookup(t, t[m - 1].frame - lag);
      var tail := if q.Some? then [Minus(PosOf(t[m - 1]), q.value)] else [];
      && PairsUpTo(t, lag, m) == PairsUpTo(t, lag, m - 1) + tail
      && (m == 1 ==> Displacements(Dense(t), lag, t[m - 1].frame - t[0].frame) == [] == PairsUpTo(t, lag, m - 1))
  {
    assert t[m - 1].frame <= t[|t| - 1].frame;
  }

  /** Row m's cell adds the displacement from frame f - lag when that frame was observed, and nothing otherwise. */
  lemma RowCell(t: seq<Obs>, lag: nat, m: nat)
    requires ValidTrack(t) && lag >= 1 && 0 < m <= |t|
    ensures t[m - 1].frame - t[0].frame + 1 <= Span(t)
    ensures var hi, q := t[m - 1].frame - t[0].frame + 1, Lookup(t, t[m - 1].frame - lag);
      var tail := if q.Some? then [Minus(PosOf(t[m - 1]), q.value)] else [];
      Displacements(Dense(t), lag, hi) == Displacements(Dense(t), lag, hi - 1) + tail
  {
    var hi := t[m - 1].frame - t[0].frame + 1;
    CellsOfRow(t, lag, m);
    if hi <= lag {
      EmptyBelowLag(Dense(t), lag, hi - 1);
    }
  }

  /** Row m's cell holds its position; the cell lag frames earlier holds the lookup of that frame. */
  lemma CellsOfRow(t: seq<Obs>, lag: nat, m: nat)
    requires ValidTrack(t) && lag >= 1 && 0 < m <= |t|
    ensures t[m - 1].frame - t[0].frame + 1 <= Span(t)
    ensures var hi, d := t[m - 1].frame - t[0].frame + 1, Dense(t);
      && d[hi - 1] == Some(PosOf(t[m - 1]))
      && (hi > lag ==> d[hi - 1 - lag] == Lookup(t, t[m - 1].frame - lag))
      && (hi <= lag ==> Lookup(t, t[m - 1].frame - lag).None?)
  {
    var d := Dense(t);
    assert t[m - 1].frame <= t[|t| - 1].frame;
    var hi := t[m - 1].frame - t[0].frame + 1;
    LookupRow(t, m - 1);
    if hi <= lag {
      NothingBeforeStart(t, t[m - 1].frame - lag);
    }
  }

  lemma {:induction false} EmptyBelowLag(d: seq<Option<Vec>>, lag: nat, hi: nat)
    requires hi <= |d| && hi <= lag
    ensures Displacements(d, lag, hi) == []
  {
  }

  /**
   * Gap handling: the displacements averaged at lag `lag` are exactly, in
   * frame order, pos(f) - pos(f - lag) over the observed frames f whose
   * frame f - lag was observed too; no gap contributes a value.
   */
  lemma GapHandling(t: seq<Obs>, lag: nat)
    requires ValidTrack(t) && lag >= 1
    ensures LagDisplacements(t, lag) == ObservedPairs(t, lag)
  {
    DisplacementsUpToRow(t, lag, |t|);
  }

  /** Some displacement exists at a lag exactly when two rows are that many frames apart. */
  lemma {:induction false} PairsExist(t: seq<Obs>, lag: nat, m: nat)
    requires Increasing(t) && m <= |t|
    ensures |PairsUpTo(t, lag, m)| > 0 <==>
      exists i, j :: 0 <= i < |t| && 0 <= j < m && t[j].frame - t[i].frame == lag
  {
    if m > 0 {
      PairsExist(t, lag, m - 1);
      var q := Lookup(t, t[m - 1].frame - lag);
      if q.Some? {
        var i :| 0 <= i < |t| && t[i].frame == t[m - 1].frame - lag;
        assert t[m - 1].frame - t[i].frame == lag;
      }
    }
  }

  /** Frames with no gap: row i is at frame t[0].frame + i. */
  predicate GapFree(t: seq<Obs>)
  {
    forall i :: 0 <= i < |t| ==> t[i].frame == t[0].frame + i
  }

  /** Without gaps, lag `lag` has one displacement per row from row `lag` on. */
  lemma {:induction false} GapFreePairCount(t: seq<Obs>, lag: nat, m: nat)
    requires |t| > 0 && GapFree(t) && lag >= 1 && m <= |t|
    ensures |PairsUpTo(t, lag, m)| == if m <= lag then 0 else m - lag
  {
    if m > 0 {
      GapFreePairCount(t, lag, m - 1);
      if m - 1 >= lag {
        assert t[m - 1 - lag].frame == t[m - 1].frame - lag;
      } else {
        forall i | 0 <= i < |t| ensures t[i].frame != t[m - 1].frame - lag { }
      }
    }
  }

  /** Motion at constant velocity: x = x0 + vx * frame and y = y0 + vy * frame on every row. */
  predicate Linear(t: seq<Obs>, x0: real, y0: real, vx: real, vy: real)
  {
    forall i :: 0 <= i < |t| ==> OnLine(t[i], x0, y0, vx, vy)
  }

  predicate OnLine(o: Obs, x0: real, y0: real, vx: real, vy: real)
  {
    o.x == x0 + vx * o.frame as real && o.y == y0 + vy * o.frame as real
  }

  lemma LinearStep(a: Obs, b: Obs, lag: nat, x0: real, y0: real, vx: real, vy: real)
    requires OnLine(a, x0, y0, vx, vy) && OnLine(b, x0, y0, vx, vy)
    requires a.frame - b.frame == lag
    ensures Minus(PosOf(a), PosOf(b)) == Vec(vx * lag as real, vy * lag as real)
  {
    var fa, fb := a.frame as real, b.frame as real;
    assert fa - fb == lag as real;
    assert a.x - b.x == vx * (fa - fb);
    assert a.y - b.y == vy * (fa - fb);
  }

  /** At constant velocity every displacement at lag `lag` is the velocity times the lag. */
  lemma {:induction false} LinearPairs(t: seq<Obs>, lag: nat, m: nat, x0: real, y0: real, vx: real, vy: real)
    requires m <= |t| && Linear(t, x0, y0, vx, vy)
    ensures forall k :: 0 <= k < |PairsUpTo(t, lag, m)| ==>
      PairsUpTo(t, lag, m)[k] == Vec(vx * lag as real, vy * lag as real)
  {
    if m > 0 {
      var v := Vec(vx * lag as real, vy * lag as real);
      var prev := PairsUpTo(t, lag, m - 1);
      LinearPairs(t, lag, m - 1, x0, y0, vx, vy);
      var q := Lookup(t, t[m - 1].frame - lag);
      var extra := if q.Some? then [Minus(PosOf(t[m - 1]), q.value)] else [];
      if q.Some? {
        var i :| 0 <= i < |t| && t[i].frame == t[m - 1].frame - lag && q.value == PosOf(t[i]);
        LinearStep(t[m - 1], t[i], lag, x0, y0, vx, vy);
      }
      assert forall k :: 0 <= k < |extra| ==> extra[k] == v;
      assert PairsUpTo(t, lag, m) == prev + extra;
    }
  }
}
