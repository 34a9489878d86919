/**
  The rule chain that labels the outcome of one probe mission anomalous:
  `decision_tree` of ClusteringFT/decisionTreeLogic.py, whose chain is repeated
  word for word inside `ClusteringFT.decision_tree` of ClusteringFT/pipelineFT.py.

  The probe's JSON report is taken already parsed: the mission tuple as fuzz
  values, `int(max_deviation)` and `int(max_altitude)` as integers, the duration
  as whole seconds, and the two booleans as JSON flags that may also be `null`.
*/
module AnomalyRules {
  import opened Wrappers
  import opened Strings
  import opened FuzzEntities

  /** A JSON boolean field of the report: `true`, `false` or `null`. */
  datatype Flag = JTrue | JFalse | JNull

  /** The parsed report of one probe mission. */
  datatype Outcome = Outcome(
    mission: seq<Value>,
    maxDeviation: int,
    maxAltitude: int,
    durationSeconds: int,
    finalLanding: Flag,
    missionComplete: Flag)

  /** `i.split('_')[1]` on a feature name without `_` raises `IndexError`;
      `int(...)` on a non-numeral raises `ValueError`. */
  datatype RuleError = MissingPart | NotAnInteger

  // ---------------------------------------------------------------------------
  // The guards, in the order the chain tries them

  /** The mission has the named mode and no `Takeoff` state. */
  predicate Grounded(o: Outcome, mode: string)
  {
    Str(mode) in o.mission && Str("Takeoff") !in o.mission
  }

  predicate LandGuard(o: Outcome)
  {
    Grounded(o, "AUTO.LAND")
  }

  predicate ManualGuard(o: Outcome)
  {
    (Str("ALTCTL") in o.mission || Str("POSCTL") in o.mission || Str("AUTO.LOITER") in o.mission)
    && Str("Takeoff") !in o.mission
  }

  predicate RtlGuard(o: Outcome)
  {
    Grounded(o, "AUTO.RTL")
  }

  /** Some feature of the row names a geofence action (`'GFACT' in item`). */
  predicate GfactGuard(cols: seq<string>)
  {
    exists i :: 0 <= i < |cols| && Contains(cols[i], "GFACT")
  }

  // ---------------------------------------------------------------------------
  // The geofence-action rule

  /** `col.split('_')[1]`, or `None` where Python raises `IndexError`. */
  function SecondPart(col: string): (r: Option<string>)
    ensures r.Some? <==> '_' in col
  {
    SplitHasSecondPart(col);
    var pieces := Split(col, '_');
    if |pieces| < 2 then None else Some(pieces[1])
  }

  /** A string splits into at least two pieces at `_` exactly when it holds a `_`. */
  lemma {:induction false} SplitHasSecondPart(s: string)
    ensures |Split(s, '_')| >= 2 <==> '_' in s
    decreases |s|
  {
    if |s| > 0 {
      SplitHasSecondPart(s[1..]);
      assert '_' in s <==> s[0] == '_' || '_' in s[1..];
    }
  }

  /** Whether one geofence action makes the mission anomalous: `Land` when the drone
      did not land or stayed within 10 m, any other action but `None` when it stayed
      within 10 m or completed the mission. */
  predicate ActionFires(o: Outcome, action: string)
  {
    if action == "Land" then o.finalLanding == JFalse || o.maxDeviation < 10
    else if action != "None" then o.maxDeviation < 10 || o.missionComplete == JTrue
    else false
  }

  /** Column `i` is a geofence-action feature without a second part. */
  predicate MalformedAt(cols: seq<string>, i: int)
    requires 0 <= i < |cols|
  {
    Contains(cols[i], "GFACT") && '_' !in cols[i]
  }

  /** Column `i` is a geofence-action feature whose action fires. */
  predicate FiresAt(o: Outcome, cols: seq<string>, i: int)
    requires 0 <= i < |cols|
  {
    Contains(cols[i], "GFACT") && '_' in cols[i] && ActionFires(o, SecondPart(cols[i]).value)
  }

  /** The loop over all geofence-action columns: it raises if any of them lacks a
      second part, and otherwise flags the mission when any action fires. */
  function GfactVerdict(o: Outcome, cols: seq<string>): Result<bool, RuleError>
  {
    if exists i :: 0 <= i < |cols| && MalformedAt(cols, i) then Err(MissingPart)
    else Ok(exists i :: 0 <= i < |cols| && FiresAt(o, cols, i))
  }

  /** The loop of the geofence-action branch, column by column. */
  method ScanGfact(o: Outcome, cols: seq<string>) returns (r: Result<bool, RuleError>)
    ensures r == GfactVerdict(o, cols)
  {
    var anomaly := false;
    var k := 0;
    while k < |cols|
      invariant 0 <= k <= |cols|
      invariant forall i :: 0 <= i < k ==> !MalformedAt(cols, i)
      invariant anomaly <==> exists i :: 0 <= i < k && FiresAt(o, cols, i)
    {
      assert !Contains(cols[k], "GFACT") ==> !FiresAt(o, cols, k);
      var col := cols[k];
      if Contains(col, "GFACT") {
        var action := SecondPart(col);
        if action.None? {
          assert MalformedAt(cols, k);
          return Err(MissingPart);
        }
        assert FiresAt(o, cols, k) <==> ActionFires(o, action.value);
        if action.value == "Land" {
          if o.finalLanding == JFalse || o.maxDeviation < 10 {
            anomaly := true;
          }
        } else if action.value != "None" {
          if o.maxDeviation < 10 || o.missionComplete == JTrue {
            anomaly := true;
          }
        }
      }
      k := k + 1;
    }
    return Ok(anomaly);
  }

  // ---------------------------------------------------------------------------
  // The chain

  /** The last rule: an incomplete mission that drifted more than 2 m or left the
      10–15 m altitude band. */
  predicate DriftFires(o: Outcome)
  {
    o.missionComplete == JFalse && (o.maxDeviation > 2 || o.maxAltitude < 10 || o.maxAltitude > 15)
  }

  /** The verdict of the rule chain: the first guard that holds decides alone. */
  function Anomaly(o: Outcome, cols: seq<string>): Result<bool, RuleError>
  {
    if LandGuard(o) then Ok(o.finalLanding != JTrue)
    else if ManualGuard(o) then
      Ok(o.missionComplete == JTrue || o.finalLanding == JTrue || o.maxDeviation < 2)
    else if RtlGuard(o) then Ok(o.finalLanding != JTrue)
    else if GfactGuard(cols) then GfactVerdict(o, cols)
    else if o.durationSeconds < 40 then Ok(true)
    else Ok(DriftFires(o))
  }

  /** The chain with the geofence loop run as a loop. */
  method Classify(o: Outcome, cols: seq<string>) returns (r: Result<bool, RuleError>)
    ensures r == Anomaly(o, cols)
  {
    if Str("AUTO.LAND") in o.mission && Str("Takeoff") !in o.mission {
      r := Ok(o.finalLanding != JTrue);
    } else if (Str("ALTCTL") in o.mission || Str("POSCTL") in o.mission || Str("AUTO.LOITER") in o.mission)
      && Str("Takeoff") !in o.mission {
      r := Ok(o.missionComplete == JTrue || o.finalLanding == JTrue || o.maxDeviation < 2);
    } else if Str("AUTO.RTL") in o.mission && Str("Takeoff") !in o.mission {
      r := Ok(o.finalLanding != JTrue);
    } else if exists i :: 0 <= i < |cols| && Contains(cols[i], "GFACT") {
      r := ScanGfact(o, cols);
    } else if o.durationSeconds < 40 {
      r := Ok(true);
    } else {
      r := Ok(DriftFires(o));
    }
  }

  /** `decision_tree`: 1 for an anomaly, 0 otherwise, or the exception the
      geofence loop raises. */
  method DecisionTree(o: Outcome, cols: seq<string>) returns (r: Result<int, RuleError>)
    ensures r.Ok? ==> r.value == 0 || r.value == 1
    ensures r.Ok? <==> Anomaly(o, cols).Ok?
    ensures r.Ok? ==> (r.value == 1 <==> Anomaly(o, cols).value)
    ensures r.Err? ==> r.error == Anomaly(o, cols).error
  {
    var verdict := Classify(o, cols);
    match verdict
    case Err(e) => r := Err(e);
    case Ok(anomaly) => r := Ok(if anomaly then 1 else 0);
  }

  // ---------------------------------------------------------------------------
  // What each rule decides

  /** A landing mission without take-off is anomalous unless the drone reports a
      final landed state. */
  lemma LandRule(o: Outcome, cols: seq<string>)
    requires Str("AUTO.LAND") in o.mission && Str("Takeoff") !in o.mission
    ensures Anomaly(o, cols) == Ok(o.finalLanding == JFalse || o.finalLanding == JNull)
  {
  }

  /** A manual-mode mission without take-off is anomalous when it completed, landed
      or drifted less than 2 m. */
  lemma ManualRule(o: Outcome, cols: seq<string>, mode: string)
    requires mode == "ALTCTL" || mode == "POSCTL" || mode == "AUTO.LOITER"
    requires Str(mode) in o.mission && Str("Takeoff") !in o.mission
    requires Str("AUTO.LAND") !in o.mission
    ensures Anomaly(o, cols).Ok?
    ensures Anomaly(o, cols).value
      <==> o.missionComplete == JTrue || o.finalLanding == JTrue || o.maxDeviation < 2
  {
  }

  /** A return-to-launch mission without take-off (and without the modes tried
      before it) is anomalous unless the drone landed. */
  lemma RtlRule(o: Outcome, cols: seq<string>)
    requires Grounded(o, "AUTO.RTL")
    requires Str("AUTO.LAND") !in o.mission && Str("ALTCTL") !in o.mission
    requires Str("POSCTL") !in o.mission && Str("AUTO.LOITER") !in o.mission
    ensures Anomaly(o, cols) == Ok(o.finalLanding != JTrue)
  {
  }

  /** Once a take-off state is in the mission the mode rules never apply. */
  lemma TakeoffSkipsModeRules(o: Outcome, cols: seq<string>)
    requires Str("Takeoff") in o.mission
    ensures Anomaly(o, cols)
      == if GfactGuard(cols) then GfactVerdict(o, cols)
         else Ok(o.durationSeconds < 40 || DriftFires(o))
  {
  }

  /** A row with one geofence-action column `GFACT_<action>` is judged by that action
      alone; with `Land` it fires when the drone did not land or deviated less than
      10 m. */
  lemma SingleGfactColumn(o: Outcome, action: string)
    requires '_' !in action
    ensures GfactVerdict(o, ["GFACT_" + action]) == Ok(ActionFires(o, action))
    ensures action == "Land" ==>
      GfactVerdict(o, ["GFACT_" + action]) == Ok(o.finalLanding == JFalse || o.maxDeviation < 10)
  {
    var col := "GFACT_" + action;
    ContainsInfix("", "GFACT", "_" + action);
    assert col == "" + "GFACT" + ("_" + action);
    assert col == "GFACT" + ['_'] + action;
    SplitTwo("GFACT", '_', action);
    assert SecondPart(col) == Some(action);
    assert FiresAt(o, [col], 0) <==> ActionFires(o, action);
  }

  /** A `None` action never makes a mission anomalous: with only `None` geofence
      columns the branch answers no. */
  lemma NoneActionNeverFires(o: Outcome, cols: seq<string>)
    requires forall i :: 0 <= i < |cols| && Contains(cols[i], "GFACT") ==>
      '_' in cols[i] && SecondPart(cols[i]) == Some("None")
    ensures GfactVerdict(o, cols) == Ok(false)
  {
  }

  /** The geofence branch raises exactly when one of its columns has no `_`. */
  lemma GfactRaisesIff(o: Outcome, cols: seq<string>)
    ensures GfactVerdict(o, cols).Err?
      <==> exists i :: 0 <= i < |cols| && Contains(cols[i], "GFACT") && '_' !in cols[i]
  {
    if exists i :: 0 <= i < |cols| && Contains(cols[i], "GFACT") && '_' !in cols[i] {
      var i :| 0 <= i < |cols| && Contains(cols[i], "GFACT") && '_' !in cols[i];
      assert MalformedAt(cols, i);
    }
  }

  /** The first rule that applies decides: without take-off modes, geofence columns
      or a short flight, only the drift rule is left, and it applies to incomplete
      missions only. */
  lemma CompletedLongMissionIsNormal(o: Outcome, cols: seq<string>)
    requires Str("Takeoff") in o.mission && !GfactGuard(cols)
    requires o.durationSeconds >= 40 && o.missionComplete != JFalse
    ensures Anomaly(o, cols) == Ok(false)
  {
  }

  /** A short flight is anomalous whatever its deviation and altitude, once the
      earlier rules do not apply. */
  lemma ShortFlightRule(o: Outcome, cols: seq<string>)
    requires !LandGuard(o) && !ManualGuard(o) && !RtlGuard(o) && !GfactGuard(cols)
    ensures Anomaly(o, cols).Ok?
    ensures o.durationSeconds < 40 ==> Anomaly(o, cols).value
    ensures o.durationSeconds >= 40 ==> (Anomaly(o, cols).value <==> DriftFires(o))
  {
  }
}
