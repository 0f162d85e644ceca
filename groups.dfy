/** The multi-probe trajectory table and its grouping by probe. */
module Groups {
  import opened Trajectory

  /** One row of the table: probe id, frame and position in pixels. */
  datatype Observation = Observation(probe: int, frame: int, x: real, y: real)

  /** A row without its probe id. */
  function ObsOf(o: Observation): Obs
  {
    Obs(o.frame, o.x, o.y)
  }

  /** The rows of probe p, in table order, as one trajectory. */
  function Group(table: seq<Observation>, p: int): (g: seq<Obs>)
    ensures |g| <= |table|
  {
    if table == [] then []
    else
      (if table[0].probe == p then [ObsOf(table[0])] else []) +
      Group(table[1..], p)
  }

  /** Probe p's trajectory holds exactly the rows of p. */
  lemma {:induction false} GroupMembers(table: seq<Observation>, p: int)
    ensures forall o :: o in Group(table, p) <==> exists i :: 0 <= i < |table| && table[i].probe == p && o == ObsOf(table[i])
  {
    if table != [] {
      var rest := table[1..];
      GroupMembers(rest, p);
      assert forall i :: 0 <= i < |rest| ==> rest[i] == table[i + 1];
      forall o | exists i :: 0 <= i < |table| && table[i].probe == p && o == ObsOf(table[i])
        ensures o in Group(table, p)
      {
        var i :| 0 <= i < |table| && table[i].probe == p && o == ObsOf(table[i]);
        if i > 0 {
          assert rest[i - 1].probe == p && o == ObsOf(rest[i - 1]);
        }
      }
    }
  }

  /** The distinct probe ids in the order they first appear (pandas sorts them; see the README). */
  function ProbeIds(table: seq<Observation>): seq<int>
  {
    if table == [] then []
    else
      var prev := ProbeIds(table[..|table| - 1]);
      var p := table[|table| - 1].probe;
      if p in prev then prev else prev + [p]
  }

  /** Every probe of the table appears among the ids, and nothing else does. */
  lemma {:induction false} ProbeIdsMembers(table: seq<Observation>)
    ensures forall p :: p in ProbeIds(table) <==> exists i :: 0 <= i < |table| && table[i].probe == p
  {
    if table != [] {
      var init := table[..|table| - 1];
      ProbeIdsMembers(init);
      assert forall i :: 0 <= i < |init| ==> init[i] == table[i];
    }
  }

  /** No id appears twice. */
  lemma {:induction false} ProbeIdsDistinct(table: seq<Observation>)
    ensures forall i, j :: 0 <= i < j < |ProbeIds(table)| ==> ProbeIds(table)[i] != ProbeIds(table)[j]
  {
    if table != [] {
      ProbeIdsDistinct(table[..|table| - 1]);
    }
  }

  /** Each probe's rows are in strictly increasing frame order. */
  predicate FramesIncreasePerProbe(table: seq<Observation>)
  {
    forall i, j :: 0 <= i < j < |table| && table[i].probe == table[j].probe ==> table[i].frame < table[j].frame
  }

  /** What imsd and emsd need of their input: some rows, and each probe a valid trajectory. */
  predicate ValidTable(table: seq<Observation>)
  {
    |table| > 0 && FramesIncreasePerProbe(table)
  }

  lemma {:induction false} GroupFramesAbove(s: seq<Observation>, p: int, f: int)
    requires forall j :: 0 <= j < |s| && s[j].probe == p ==> s[j].frame > f
    ensures forall k :: 0 <= k < |Group(s, p)| ==> Group(s, p)[k].frame > f
  {
    if s != [] {
      GroupFramesAbove(s[1..], p, f);
    }
  }

  lemma {:induction false} GroupIncreasing(s: seq<Observation>, p: int)
    requires FramesIncreasePerProbe(s)
    ensures Increasing(Group(s, p))
  {
    if s != [] {
      GroupIncreasing(s[1..], p);
      if s[0].probe == p {
        GroupFramesAbove(s[1..], p, s[0].frame);
      }
    }
  }

  lemma {:induction false} GroupNonEmpty(s: seq<Observation>, p: int, i: int)
    requires 0 <= i < |s| && s[i].probe == p
    ensures |Group(s, p)| > 0
  {
    if s[0].probe != p {
      GroupNonEmpty(s[1..], p, i - 1);
    }
  }

  /** Every probe of a valid table has a valid trajectory, which msd accepts. */
  lemma GroupIsTrack(table: seq<Observation>, p: int)
    requires FramesIncreasePerProbe(table) && p in ProbeIds(table)
    ensures ValidTrack(Group(table, p))
  {
    ProbeIdsMembers(table);
    var i :| 0 <= i < |table| && table[i].probe == p;
    GroupNonEmpty(table, p, i);
    GroupIncreasing(table, p);
  }
}
