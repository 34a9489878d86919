/**
  The generation step of the genetic search (GenAlgo/GeneticAlgorithm.py):
  pairwise crossover of the selected parents, the fuzz-test arguments
  `run_probe` builds from each probe row, and the record `packager` makes of
  a probe and its flight outcome.
*/
module Genetic {
  import opened Wrappers
  import opened Chromosome
  import FuzzEntities

  // ------------------------------------------------------------------
  // crossover

  /** The parents a crossover takes: rows of the six probe columns, and one
      point in [1, 4] per pair. */
  predicate CrossoverInput(parents: seq<Row>, points: seq<nat>)
  {
    && (forall k :: 0 <= k < |parents| ==> |parents[k]| == |COLUMN_NAMES|)
    && |points| >= |parents| / 2
    && (forall k :: 0 <= k < |parents| / 2 ==> 1 <= points[k] <= |COLUMN_NAMES| - 2)
  }

  lemma CrossoverInputTail(parents: seq<Row>, points: seq<nat>)
    requires |parents| >= 2 && CrossoverInput(parents, points)
    ensures CrossoverInput(parents[2..], points[1..])
  {
    forall k | 0 <= k < |parents[2..]| / 2
      ensures 1 <= points[1..][k] <= |COLUMN_NAMES| - 2
    {
      assert points[1..][k] == points[k + 1];
    }
  }

  /** The loop body: the two children of a pair, the geofence block being the
      columns GF, GFPRED and GFACT. */
  function Children(p1: Row, p2: Row, point: nat): (r: (Row, Row))
    requires |p1| == |p2| == |COLUMN_NAMES| && 1 <= point <= |COLUMN_NAMES| - 2
  {
    var idx := {GF, GFPRED, GFACT};
    (Restore(Splice(p1, p2, point), p1, idx), Restore(Splice(p2, p1, point), p2, idx))
  }

  /** The loop body is the crossover of two rows over COLUMN_NAMES. */
  lemma ChildrenAreCrossover(p1: Row, p2: Row, point: nat)
    requires |p1| == |p2| == |COLUMN_NAMES| && 1 <= point <= |COLUMN_NAMES| - 2
    ensures Crossover(p1, p2, COLUMN_NAMES, point) == Ok(Children(p1, p2, point))
  {
    ColumnGeofenceIndices();
  }

  /** The children of the pairs (0, 1), (2, 3), ...; an odd last parent has none. */
  function Offspring(parents: seq<Row>, points: seq<nat>): (children: seq<Row>)
    requires CrossoverInput(parents, points)
    ensures |children| == 2 * (|parents| / 2)
    decreases |parents|
  {
    if |parents| < 2 then []
    else
      CrossoverInputTail(parents, points);
      var c := Children(parents[0], parents[1], points[0]);
      [c.0, c.1] + Offspring(parents[2..], points[1..])
  }

  /** Row `j`'s partner in its pair. */
  function Partner(j: nat): nat
  {
    if j % 2 == 0 then j + 1 else j - 1
  }

  /** With the six probe columns a child is its own parent's states and
      geofence block followed by its partner's modes and throttle, whatever
      the point. */
  lemma ChildrenOfColumns(p1: Row, p2: Row, point: nat)
    requires |p1| == |p2| == |COLUMN_NAMES| && 1 <= point <= |COLUMN_NAMES| - 2
    ensures Children(p1, p2, point) == (p1[..MODES] + p2[MODES..], p2[..MODES] + p1[MODES..])
  {
    var c := Children(p1, p2, point);
    assert c.0 == p1[..MODES] + p2[MODES..] by {
      assert c.0[0] == p1[0] && c.0[1] == p1[1] && c.0[2] == p1[2] && c.0[3] == p1[3];
      assert c.0[4] == p2[4] && c.0[5] == p2[5];
    }
    assert c.1 == p2[..MODES] + p1[MODES..] by {
      assert c.1[0] == p2[0] && c.1[1] == p2[1] && c.1[2] == p2[2] && c.1[3] == p2[3];
      assert c.1[4] == p1[4] && c.1[5] == p1[5];
    }
  }

  lemma {:induction false} OffspringAt(parents: seq<Row>, points: seq<nat>, j: nat)
    requires CrossoverInput(parents, points)
    requires j < 2 * (|parents| / 2)
    ensures Partner(j) < |parents|
    ensures Offspring(parents, points)[j] == parents[j][..MODES] + parents[Partner(j)][MODES..]
    decreases j
  {
    CrossoverInputTail(parents, points);
    if j < 2 {
      ChildrenOfColumns(parents[0], parents[1], points[0]);
    } else {
      var tail := parents[2..];
      OffspringAt(tail, points[1..], j - 2);
      assert Offspring(parents, points)[j] == Offspring(tail, points[1..])[j - 2];
      assert Partner(j - 2) + 2 == Partner(j);
      assert tail[j - 2] == parents[j] && tail[Partner(j - 2)] == parents[Partner(j)];
    }
  }

  /** The crossover yields two children per pair, and child `j` takes its first
      four columns from parent `j` and its last two from `j`'s partner. */
  lemma OffspringShape(parents: seq<Row>, points: seq<nat>)
    requires CrossoverInput(parents, points)
    ensures |Offspring(parents, points)| == 2 * (|parents| / 2)
    ensures forall j :: 0 <= j < |Offspring(parents, points)| ==>
              Partner(j) < |parents| && Offspring(parents, points)[j] == parents[j][..MODES] + parents[Partner(j)][MODES..]
  {
    forall j | 0 <= j < |Offspring(parents, points)|
      ensures Partner(j) < |parents| && Offspring(parents, points)[j] == parents[j][..MODES] + parents[Partner(j)][MODES..]
    {
      OffspringAt(parents, points, j);
    }
  }

  /** One turn of the crossover loop: the pair at `i` and the pairs after it. */
  lemma OffspringStep(parents: seq<Row>, points: seq<nat>, i: nat)
    requires |points| >= |parents| / 2
    requires i + 1 < |parents| && i % 2 == 0 && CrossoverInput(parents[i..], points[i / 2..])
    ensures CrossoverInput(parents[i + 2..], points[(i + 2) / 2..])
    ensures Offspring(parents[i..], points[i / 2..])
      == [Children(parents[i], parents[i + 1], points[i / 2]).0, Children(parents[i], parents[i + 1], points[i / 2]).1]
         + Offspring(parents[i + 2..], points[(i + 2) / 2..])
  {
    var rest := parents[i..];
    CrossoverInputTail(rest, points[i / 2..]);
    assert rest[2..] == parents[i + 2..];
    assert points[i / 2..][1..] == points[(i + 2) / 2..];
    assert rest[0] == parents[i] && rest[1] == parents[i + 1] && points[i / 2..][0] == points[i / 2];
  }

  /** `crossover(parents)`: the loop over the pairs, extending the children list. */
  method CrossoverPopulation(parents: seq<Row>, points: seq<nat>) returns (children: seq<Row>)
    requires CrossoverInput(parents, points)
    ensures children == Offspring(parents, points)
  {
    children := [];
    var i := 0;
    while i < |parents| - 1
      invariant 0 <= i <= |parents| && i % 2 == 0
      invariant CrossoverInput(parents[i..], points[i / 2..])
      invariant children + Offspring(parents[i..], points[i / 2..]) == Offspring(parents, points)
    {
      OffspringStep(parents, points, i);
      var pair := Children(parents[i], parents[i + 1], points[i / 2]);
      children := children + [pair.0, pair.1];
      i := i + 2;
    }
    assert |parents[i..]| < 2;
  }

  // ------------------------------------------------------------------
  // THROTTLE_DICT

  /** THROTTLE_DICT: a physical throttle value to its index in the fuzzer's table. */
  const THROTTLE_DICT: map<int, int> := map[0 := 1, 260 := 2, 550 := 3, 600 := 4, 615 := 5]

  /** THROTTLE_DICT undoes the POSCTL/ALTCTL row of the throttle table: its keys
      are that row's values and each maps to its 1-based index. */
  lemma ThrottleDictInvertsTable()
    ensures THROTTLE_DICT.Keys == set i | 0 <= i < |FuzzEntities.POSCTL_ROW| :: FuzzEntities.POSCTL_ROW[i]
    ensures forall i :: 0 <= i < |FuzzEntities.POSCTL_ROW| ==>
              THROTTLE_DICT[FuzzEntities.POSCTL_ROW[i]] == i + 1
    ensures forall t :: t in THROTTLE_DICT ==> 1 <= THROTTLE_DICT[t] <= 5 && FuzzEntities.POSCTL_ROW[THROTTLE_DICT[t] - 1] == t
  {
    var row := FuzzEntities.POSCTL_ROW;
    assert row == [0, 260, 550, 600, 615];
    assert row[0] == 0 && row[1] == 260 && row[2] == 550 && row[3] == 600 && row[4] == 615;
    assert THROTTLE_DICT.Keys == {0, 260, 550, 600, 615};
    assert (set i | 0 <= i < |row| :: row[i]) == {0, 260, 550, 600, 615} by {
      assert forall i :: 0 <= i < |row| ==> row[i] in {0, 260, 550, 600, 615};
      assert 0 == row[0] && 260 == row[1] && 550 == row[2] && 600 == row[3] && 615 == row[4];
    }
  }

  // ------------------------------------------------------------------
  // run_probe: the fuzz-test arguments of one probe row

  /** The throttle argument: not given, given as `None`, or the table index. */
  datatype ThrottleArg = NoThrottle | NullThrottle | ThrottleIndex(index: int)

  /** `fuzz_test_args`; each list has one element. */
  datatype FuzzArgs = FuzzArgs(
    droneId: string,
    modes: Cell,
    states: Option<string>,
    geofence: Option<Option<int>>,
    throttle: ThrottleArg)

  /** Why building the arguments raises: a state STATES_DICT does not know
      (`KeyError`), or a throttle cell `int()` rejects (`ValueError`). */
  datatype ProbeError = UnknownState | BadThrottle

  /** The waypoint missions a Flying probe picks from. */
  const WAYPOINTS: seq<string> := ["BriarWaypoint", "BriarWaypoint2", "BriarWaypoint3"]

  /** STATES_DICT for the states other than Flying. */
  const STATES_DICT: map<string, string> :=
    map["Land" := "Land", "Disarm" := "Disarm", "Takeoff" := "Takeoff", "Arm" := "Takeoff", "Hover" := "BriarHover"]

  /** GEOFENCE_ACTION, read with `.get`. */
  const GEOFENCE_ACTION: map<string, int> :=
    map["None" := 0, "Warning" := 1, "Hold mode" := 2, "Return mode" := 3, "Terminate" := 4, "Land mode" := 5]

  function GeofenceCode(c: Cell): Option<int>
  {
    if c.Text? && c.s in GEOFENCE_ACTION then Some(GEOFENCE_ACTION[c.s]) else None
  }

  /** A probe that has both a state and an action either flies or drops its
      geofence: `flies` is the coin `random.choice([True, False])` threw. */
  function Settled(row: Row, flies: bool): (r: Row)
    requires |row| == |COLUMN_NAMES|
    ensures |r| == |row|
  {
    if row[STATES] != Null && row[GFACT] != Null then
      if flies then row[STATES := Text("Flying")]
      else row[GFACT := Null][GFPRED := Null][GF := Text("No")]
    else row
  }

  /** The state argument of a settled row. */
  function StateArg(row: Row, waypoint: string): Result<Option<string>, ProbeError>
    requires |row| == |COLUMN_NAMES|
  {
    var st := row[STATES];
    if st == Null then Ok(None)
    else if st == Text("Flying") then Ok(Some(waypoint))
    else if st.Text? && st.s in STATES_DICT then Ok(Some(STATES_DICT[st.s]))
    else Err(UnknownState)
  }

  /** The throttle argument: table values become their index, any other value `None`. */
  function ThrottleArgOf(c: Cell): Result<ThrottleArg, ProbeError>
  {
    match c
      case Null => Ok(NoThrottle)
      case Text(_) => Err(BadThrottle)
      case Int(n) => Ok(if n in THROTTLE_DICT then ThrottleIndex(THROTTLE_DICT[n]) else NullThrottle)
  }

  /** The arguments `run_probe` passes to `Fuzz_Test` for `row`, with the row
      as it stands afterwards (the one handed to the packager). */
  function ProbeArgs(row: Row, flies: bool, waypoint: string): Result<(FuzzArgs, Row), ProbeError>
    requires |row| == |COLUMN_NAMES|
  {
    var settled := Settled(row, flies);
    match StateArg(settled, waypoint)
      case Err(e) => Err(e)
      case Ok(states) =>
        match ThrottleArgOf(settled[THROTTLE])
          case Err(e) => Err(e)
          case Ok(throttle) =>
            var geofence := if settled[GFACT] == Null then None else Some(GeofenceCode(settled[GFACT]));
            Ok((FuzzArgs("Polkadot", settled[MODES], states, geofence, throttle), settled))
  }

  /** A probe never sends a geofence action together with a non-flying state:
      when both are present the state is a waypoint mission. The throttle
      index, when given, names the row's throttle in the table; a throttle
      outside the table is sent as `None`. */
  lemma ProbeArgsProperties(row: Row, flies: bool, waypoint: string)
    requires |row| == |COLUMN_NAMES| && waypoint in WAYPOINTS
    requires ProbeArgs(row, flies, waypoint).Ok?
    ensures var args := ProbeArgs(row, flies, waypoint).value.0;
      && (args.geofence.Some? && args.states.Some? ==> args.states.value in WAYPOINTS)
      && (args.throttle.ThrottleIndex? ==>
            row[THROTTLE].Int? && 1 <= args.throttle.index <= 5
            && FuzzEntities.POSCTL_ROW[args.throttle.index - 1] == row[THROTTLE].n)
      && (args.throttle == NullThrottle <==> row[THROTTLE].Int? && row[THROTTLE].n !in FuzzEntities.POSCTL_ROW)
      && (args.throttle == NoThrottle <==> row[THROTTLE] == Null)
  {
    ThrottleDictInvertsTable();
    var settled := Settled(row, flies);
    assert settled[THROTTLE] == row[THROTTLE];
    var row5 := FuzzEntities.POSCTL_ROW;
    assert row5 == [0, 260, 550, 600, 615];
    if row[THROTTLE].Int? {
      var n := row[THROTTLE].n;
      assert n in THROTTLE_DICT <==> n in row5 by {
        if n in row5 {
          var i :| 0 <= i < |row5| && row5[i] == n;
          assert THROTTLE_DICT[row5[i]] == i + 1;
        }
      }
    }
  }

  /** Errors come from an unknown state or a textual throttle only. */
  lemma ProbeArgsFails(row: Row, flies: bool, waypoint: string)
    requires |row| == |COLUMN_NAMES|
    ensures ProbeArgs(row, flies, waypoint) == Err(BadThrottle) ==> row[THROTTLE].Text?
    ensures ProbeArgs(row, flies, waypoint) == Err(UnknownState) ==>
              row[STATES] != Null && row[STATES] != Text("Flying") && !(row[STATES].Text? && row[STATES].s in STATES_DICT)
    ensures row[THROTTLE].Text? ==> ProbeArgs(row, flies, waypoint).Err?
  {
  }

  // ------------------------------------------------------------------
  // packager

  /** The outcome the fuzz tester reports for a probe, with the duration
      already converted to seconds. */
  datatype Outcome = Outcome(
    maxDeviation: Cell, maxAltitude: Cell, durationSeconds: real,
    finalLandingState: Cell, freefallOccurred: Cell, missionComplete: Cell)

  /** One row of the next generation. */
  datatype ProbeRecord = ProbeRecord(
    initialMode: string, states: Cell, wind: Cell, gf: Cell, gfpred: Cell, gfact: Cell,
    killSwitch: string, modes: Cell, throttle: Cell,
    maxDeviation: Cell, maxAltitude: Cell, duration: real,
    finalLandingState: Cell, freefallOccurred: Cell, missionComplete: Cell)

  /** `packager(row, values)`. */
  function Packager(row: Row, out: Outcome): ProbeRecord
    requires |row| == |COLUMN_NAMES|
  {
    var initialMode := if row[STATES] in [Text("Arm"), Text("Disarm"), Text("Land")] then "AUTO.LAND" else "OFFBOARD";
    var gfpred := if row[GF] == Text("Yes") then Text("Yes") else Null;
    var throttle := if row[THROTTLE].Int? && row[THROTTLE].n in FuzzEntities.POSCTL_ROW then row[THROTTLE] else Null;
    ProbeRecord(initialMode, row[STATES], Null, row[GF], gfpred, row[GFACT], "No", row[MODES], throttle,
      out.maxDeviation, out.maxAltitude, out.durationSeconds,
      out.finalLandingState, out.freefallOccurred, out.missionComplete)
  }

  /** The packaged record starts landed exactly for Arm, Disarm and Land,
      predicts a geofence exactly when GF is 'Yes', keeps the probe columns
      and the outcome, and records a throttle only when THROTTLE_DICT can
      index it. */
  lemma PackagerFields(row: Row, out: Outcome)
    requires |row| == |COLUMN_NAMES|
    ensures var p := Packager(row, out);
      && (p.initialMode == "AUTO.LAND" <==> row[STATES] in {Text("Arm"), Text("Disarm"), Text("Land")})
      && (p.initialMode != "AUTO.LAND" ==> p.initialMode == "OFFBOARD")
      && (p.gfpred == Text("Yes") <==> row[GF] == Text("Yes"))
      && (p.gfpred != Text("Yes") ==> p.gfpred == Null)
      && p.wind == Null && p.killSwitch == "No"
      && p.states == row[STATES] && p.gf == row[GF] && p.gfact == row[GFACT] && p.modes == row[MODES]
      && (p.throttle != Null <==> row[THROTTLE].Int? && row[THROTTLE].n in THROTTLE_DICT)
      && (p.throttle != Null ==> p.throttle == row[THROTTLE])
      && p.duration == out.durationSeconds && p.maxDeviation == out.maxDeviation
      && p.maxAltitude == out.maxAltitude && p.finalLandingState == out.finalLandingState
      && p.freefallOccurred == out.freefallOccurred && p.missionComplete == out.missionComplete
  {
    ThrottleDictInvertsTable();
    if row[THROTTLE].Int? {
      var n := row[THROTTLE].n;
      var row5 := FuzzEntities.POSCTL_ROW;
      if n in row5 {
        var i :| 0 <= i < |row5| && row5[i] == n;
        assert THROTTLE_DICT[row5[i]] == i + 1;
      }
    }
  }

  /** The record of a probe whose row was settled by `run_probe` never holds a
      geofence action without a flying state or without GF. */
  lemma PackagedProbeIsConsistent(row: Row, flies: bool, waypoint: string, out: Outcome)
    requires |row| == |COLUMN_NAMES| && ProbeArgs(row, flies, waypoint).Ok?
    ensures var p := Packager(ProbeArgs(row, flies, waypoint).value.1, out);
      p.gfact != Null && p.states != Null ==> p.states == Text("Flying")
  {
  }

  /**
    `run_probe(df)` without the simulator: for each row, the coin, the
    waypoint and the outcome the flight produced are given; the result holds
    the packaged record of each probe in row order, or the first error.
  */
  method RunProbe(rows: seq<Row>, coins: seq<bool>, waypoints: seq<string>, outcomes: seq<Outcome>)
    returns (r: Result<seq<ProbeRecord>, ProbeError>)
    requires forall k :: 0 <= k < |rows| ==> |rows[k]| == |COLUMN_NAMES|
    requires |coins| == |waypoints| == |outcomes| == |rows|
    ensures r.Ok? ==> |r.value| == |rows|
    ensures r.Ok? ==> forall k :: 0 <= k < |rows| ==>
              ProbeArgs(rows[k], coins[k], waypoints[k]).Ok?
              && r.value[k] == Packager(ProbeArgs(rows[k], coins[k], waypoints[k]).value.1, outcomes[k])
    ensures r.Err? ==> exists k ::
              && 0 <= k < |rows| && ProbeArgs(rows[k], coins[k], waypoints[k]) == Err(r.error)
              && forall j :: 0 <= j < k ==> ProbeArgs(rows[j], coins[j], waypoints[j]).Ok?
    ensures (forall k :: 0 <= k < |rows| ==> ProbeArgs(rows[k], coins[k], waypoints[k]).Ok?) ==> r.Ok?
  {
    var probeData: seq<ProbeRecord> := [];
    for k := 0 to |rows|
      invariant |probeData| == k
      invariant forall j :: 0 <= j < k ==>
                  ProbeArgs(rows[j], coins[j], waypoints[j]).Ok?
                  && probeData[j] == Packager(ProbeArgs(rows[j], coins[j], waypoints[j]).value.1, outcomes[j])
    {
      var built := ProbeArgs(rows[k], coins[k], waypoints[k]);
      if built.Err? {
        return Err(built.error);
      }
      var (_, row) := built.value;
      probeData := probeData + [Packager(row, outcomes[k])];
    }
    return Ok(probeData);
  }
}
