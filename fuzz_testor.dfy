/**
  The campaign runner of ClusteringFT/Fuzz/BackupFuzzTestor.py: it reacts to the
  drone's state updates by picking an untested combination, dispatching it once per
  mission, recording it as executed, and restarting missions on success or timeout.
  The MQTT broker, Docker, ROS, the log files and the clock are outside the model:
  each callback is one atomic step (the code holds `critical_lock` for the parts
  that matter), and elapsed mission time is a parameter.
*/
module FuzzTestor {
  import opened Wrappers
  import opened Strings
  import opened FuzzEntities

  /** Seconds after which a running mission is declared hung. */
  const THRESHOLD: int := 74

  /** The JSON body of an `update_drone` message, as far as `load_msg` looks at it. */
  datatype Payload =
    | StatusText(text: string)         // {"status": "<text>"}
    | StatusState(stateName: Value)    // {"status": {"state_name": ...}}
    | Malformed                        // anything else: the lookup raises

  /** `load_msg`: "success" for a finished mission, the state name otherwise; `None`
      when the lookup raises. */
  function LoadMsg(p: Payload): (r: Option<Value>)
    ensures r == Some(Str("success")) <==> p == StatusText("success") || p == StatusState(Str("success"))
    ensures p.StatusState? ==> r == Some(p.stateName)
    ensures r.None? <==> p.Malformed? || (p.StatusText? && p.text != "success")
  {
    match p
    case StatusText(t) => if t == "success" then Some(Str("success")) else None
    case StatusState(n) => Some(n)
    case Malformed => None
  }

  /** One line written by `write_to_file`: the test of the mission and whether the
      mission completed. */
  datatype Record = Record(test: Combination, complete: bool)

  /** What one `mqtt_on_message` call did. */
  datatype Outcome =
    | Ignored                  // aborting, not ready, or an unreadable message
    | Completed                // mission success recorded and the next one queued
    | NoRecentTest             // success before any test: `self.recent_test` raises
    | AlreadySent              // this mission already carries its test
    | Idle(shutdown: bool)     // nothing left to test in this state
    | Dispatched(test: Combination)

  /** The (prefix, state) index of executed tuples: each tuple filed under its last
      field, as its prefix without that field. */
  function IndexOf(executed: set<Combination>): map<Value, set<Combination>>
  {
    map s | s in LastFields(executed) :: PrefixesUnder(executed, s)
  }

  /** Every tuple's last field. */
  function LastFields(executed: set<Combination>): set<Value>
  {
    set t | t in executed && |t| > 0 :: t[|t| - 1]
  }

  /** The prefixes of the tuples whose last field is `s`. */
  function PrefixesUnder(executed: set<Combination>, s: Value): set<Combination>
  {
    set t | t in executed && |t| > 0 && t[|t| - 1] == s :: t[..|t| - 1]
  }

  /** A prefix is filed under `s` exactly when it completes with `s` to an executed tuple. */
  lemma IndexOfMembership(executed: set<Combination>, s: Value, p: Combination)
    ensures (s in IndexOf(executed) && p in IndexOf(executed)[s]) <==> p + [s] in executed
  {
    var u := p + [s];
    assert u[..|u| - 1] == p && u[|u| - 1] == s;
    if s in IndexOf(executed) && p in IndexOf(executed)[s] {
      var t :| t in executed && |t| > 0 && t[|t| - 1] == s && t[..|t| - 1] == p;
      assert t == u;
    }
    if u in executed {
      assert s in LastFields(executed);
    }
  }

  /** Filing one more executed tuple adds its prefix under its last field and nothing else. */
  lemma IndexOfAdd(executed: set<Combination>, s: Value, p: Combination)
    ensures IndexOf(executed + {p + [s]})
      == IndexOf(executed)[s := (if s in IndexOf(executed) then IndexOf(executed)[s] else {}) + {p}]
  {
    var e2 := executed + {p + [s]};
    var m := IndexOf(executed)[s := (if s in IndexOf(executed) then IndexOf(executed)[s] else {}) + {p}];
    LastFieldsAdd(executed, s, p);
    assert IndexOf(e2).Keys == m.Keys;
    forall k | k in m.Keys ensures IndexOf(e2)[k] == m[k] {
      PrefixesUnderAdd(executed, s, p, k);
    }
  }

  lemma LastFieldsAdd(executed: set<Combination>, s: Value, p: Combination)
    ensures LastFields(executed + {p + [s]}) == LastFields(executed) + {s}
  {
    var u := p + [s];
    assert u[|u| - 1] == s;
  }

  lemma PrefixesUnderAdd(executed: set<Combination>, s: Value, p: Combination, k: Value)
    ensures PrefixesUnder(executed + {p + [s]}, k) == PrefixesUnder(executed, k) + (if k == s then {p} else {})
  {
    var u := p + [s];
    var e2 := executed + {u};
    assert u[..|u| - 1] == p && u[|u| - 1] == s;
    forall x | x in PrefixesUnder(e2, k)
      ensures x in PrefixesUnder(executed, k) + (if k == s then {p} else {})
    {
      var t :| t in e2 && |t| > 0 && t[|t| - 1] == k && t[..|t| - 1] == x;
      if t != u {
        assert t in executed;
      }
    }
    if k == s {
      assert u in e2 && |u| > 0 && u[|u| - 1] == k;
    }
  }

  /** `_process_executed_tests`: each loaded tuple unpacks into its fields per the kind
      string and is filed under its state. A tuple of the wrong length fails to unpack,
      and a kind with neither modes nor throttle never binds `executed_test`; both raise. */
  function ProcessExecuted(executed: set<Combination>, fuzzType: string): (r: Option<map<Value, set<Combination>>>)
    ensures r.Some? ==> r.value == IndexOf(executed)
  {
    var modes := Contains(fuzzType, "_mode");
    var throttles := Contains(fuzzType, "_throttle");
    var arity := 1 + (if modes then 1 else 0) + (if throttles then 1 else 0);
    if !modes && !throttles && executed != {} then None
    else if exists t :: t in executed && |t| != arity then None
    else Some(IndexOf(executed))
  }

  /** A test whose modes are not states and whose states are names, so that removing
      the states leaves exactly the (mode, throttle) part of every combination. */
  predicate Clean(spec: FuzzSpec)
  {
    && HasContext(spec) && WellFormed(spec)
    && (forall m :: m in spec.modes ==> m !in spec.states)
    && (forall s :: s in spec.states ==> s.Str?)
  }

  /** Completing a generated tuple's (mode, throttle) part with any state of a state
      campaign gives a generated tuple again. */
  lemma PairWithStateInCampaign(spec: FuzzSpec, c: Combination, s: Value)
    requires spec.geofence == [] && spec.states != [] && WellFormed(spec) && Generate(spec).Ok?
    requires c in Generate(spec).value && s in spec.states
    ensures |c| > 0 && c[..|c| - 1] + [s] in Generate(spec).value
  {
    GenerateShape(spec, c);
    var d := c[..|c| - 1] + [s];
    if spec.throttle != [] {
      var t :| t in spec.throttle && t.Num? && 1 <= t.n <= 5 &&
        c[ThrottlePos(spec)] == Num(ThrottleRow(ModeField(spec, c))[t.n - 1]);
      assert d[ThrottlePos(spec)] == c[ThrottlePos(spec)];
      assert ModeField(spec, d) == ModeField(spec, c);
      assert IsThrottleOf(spec, d);
    }
    assert spec.modes != [] ==> d[0] == c[0];
    GenerateShape(spec, d);
  }

  function Elems(ts: seq<Combination>): set<Combination>
  {
    set t | t in ts
  }

  /** Python truthiness of a selected test: `None` and the empty tuple are false. */
  predicate Truthy(sel: Option<Combination>)
  {
    sel.Some? && sel.value != []
  }

  /** The runner's copies describe the test `spec`. */
  ghost predicate CampaignValid(spec: FuzzSpec, fuzzType: string, combos: set<Combination>,
                                states: seq<Value>, modeThrottleCombos: set<Combination>)
  {
    && HasContext(spec) && fuzzType == FuzzTypeOf(spec)
    && (spec.geofence == [] ==>
          && states == spec.states
          && modeThrottleCombos == RemoveStates(combos, spec.states)
          && (Clean(spec) ==> PairsComplete(modeThrottleCombos, states, combos)))
  }

  /** Every (mode, throttle) part completed with any state is a combination. */
  ghost predicate PairsComplete(pairs: set<Combination>, states: seq<Value>, combos: set<Combination>)
  {
    forall p, s {:trigger Completes(p, s, combos)} :: p in pairs && s in states ==> Completes(p, s, combos)
  }

  /** `p` completed with the state `s` is a combination. */
  predicate Completes(p: Combination, s: Value, combos: set<Combination>)
  {
    p + [s] in combos
  }

  /** A clean state campaign's (mode, throttle) parts complete with every state. */
  lemma CleanPairsComplete(spec: FuzzSpec)
    requires spec.geofence == [] && Clean(spec)
    ensures Generate(spec).Ok?
    ensures PairsComplete(RemoveStates(Generate(spec).value, spec.states), spec.states, Generate(spec).value)
  {
    StateCampaignPairs(spec);
    var combos := Generate(spec).value;
    forall p, s | p in RemoveStates(combos, spec.states) && s in spec.states ensures Completes(p, s, combos) {
      var c :| c in combos && |c| > 0 && c[..|c| - 1] == p;
      PairWithStateInCampaign(spec, c, s);
    }
  }

  /** The executed set, its index and the dispatch history agree: the executed set is
      what was loaded plus what was dispatched, and no test was dispatched twice or
      after it was loaded. */
  ghost predicate LogValid(spec: FuzzSpec, combos: set<Combination>, executed: set<Combination>,
                           tested: map<Value, set<Combination>>, loaded: set<Combination>, dispatched: seq<Combination>)
  {
    && (spec.geofence == [] ==> tested == IndexOf(executed))
    && executed == loaded + Elems(dispatched)
    && Distinct(dispatched)
    && (forall i :: 0 <= i < |dispatched| ==> dispatched[i] !in loaded)
    && (Clean(spec) ==> forall i :: 0 <= i < |dispatched| ==> dispatched[i] in combos)
  }

  /** Whatever is written out names executed tests only. */
  ghost predicate RecordsValid(executed: set<Combination>, saved: set<Combination>, results: seq<Record>,
                               recentTest: Option<Combination>)
  {
    && saved <= executed
    && (forall i :: 0 <= i < |results| ==> results[i].test in executed)
    && (recentTest.Some? ==> recentTest.value in executed)
  }

  /** The tests `select_fuzz_test` may choose from in `state`: in a geofence campaign
      the combinations not yet executed, in a state campaign the (mode, throttle) parts
      not yet filed under `state` (none when `state` is not a listed state). */
  function Untested(fuzzType: string, combos: set<Combination>, executed: set<Combination>,
                    states: seq<Value>, pairs: set<Combination>, tested: map<Value, set<Combination>>,
                    state: Value): set<Combination>
  {
    if Contains(fuzzType, "geo") then combos - executed
    else if state !in states then {}
    else pairs - (if state in tested then tested[state] else {})
  }

  /** The tuple recorded as executed for test `t` run in `state`. */
  function RecordOf(fuzzType: string, state: Value, t: Combination): Combination
  {
    if Contains(fuzzType, "state") then t + [state] else t
  }

  /** The index after filing `t` under `state`. */
  function FileUnder(tested: map<Value, set<Combination>>, state: Value, t: Combination): map<Value, set<Combination>>
  {
    tested[state := (if state in tested then tested[state] else {}) + {t}]
  }

  /** Dispatching an untested test records a tuple that was not executed, and filing
      it keeps the log consistent. */
  lemma DispatchKeepsLog(spec: FuzzSpec, fuzzType: string, combos: set<Combination>, states: seq<Value>,
                         pairs: set<Combination>, executed: set<Combination>, tested: map<Value, set<Combination>>,
                         loaded: set<Combination>, dispatched: seq<Combination>, state: Value, t: Combination)
    requires CampaignValid(spec, fuzzType, combos, states, pairs)
    requires LogValid(spec, combos, executed, tested, loaded, dispatched)
    requires t in Untested(fuzzType, combos, executed, states, pairs, tested, state)
    ensures RecordOf(fuzzType, state, t) !in executed
    ensures LogValid(spec, combos, executed + {RecordOf(fuzzType, state, t)},
                     if Contains(fuzzType, "state") then FileUnder(tested, state, t) else tested,
                     loaded, dispatched + [RecordOf(fuzzType, state, t)])
  {
    GeoKindFlag(spec);
    StateKindFlag(spec);
    var r := RecordOf(fuzzType, state, t);
    assert spec.geofence == [] && Clean(spec) ==> Completes(t, state, combos);
    if spec.geofence == [] {
      IndexOfMembership(executed, state, t);
      IndexOfAdd(executed, state, t);
    }
    assert Elems(dispatched + [r]) == Elems(dispatched) + {r};
  }

  /** Dispatching an untested test keeps the whole invariant, with the dispatched
      tuple as the recent test. */
  lemma DispatchKeepsValid(spec: FuzzSpec, fuzzType: string, combos: set<Combination>, states: seq<Value>,
                           pairs: set<Combination>, executed: set<Combination>, tested: map<Value, set<Combination>>,
                           saved: set<Combination>, results: seq<Record>, recentTest: Option<Combination>,
                           loaded: set<Combination>, dispatched: seq<Combination>, state: Value, t: Combination)
    requires TestorValid(spec, fuzzType, combos, states, pairs, executed, tested, saved, results, recentTest, loaded, dispatched)
    requires t in Untested(fuzzType, combos, executed, states, pairs, tested, state)
    ensures RecordOf(fuzzType, state, t) !in executed
    ensures TestorValid(spec, fuzzType, combos, states, pairs, executed + {RecordOf(fuzzType, state, t)},
                        if Contains(fuzzType, "state") then FileUnder(tested, state, t) else tested,
                        saved, results, Some(RecordOf(fuzzType, state, t)),
                        loaded, dispatched + [RecordOf(fuzzType, state, t)])
  {
    DispatchKeepsLog(spec, fuzzType, combos, states, pairs, executed, tested, loaded, dispatched, state, t);
  }

  /** The invariant of a running `Fuzz_Testor`, over its fields' values. */
  ghost predicate TestorValid(spec: FuzzSpec, fuzzType: string, combos: set<Combination>, states: seq<Value>,
                              pairs: set<Combination>, executed: set<Combination>, tested: map<Value, set<Combination>>,
                              saved: set<Combination>, results: seq<Record>, recentTest: Option<Combination>,
                              loaded: set<Combination>, dispatched: seq<Combination>)
  {
    && CampaignValid(spec, fuzzType, combos, states, pairs)
    && LogValid(spec, combos, executed, tested, loaded, dispatched)
    && RecordsValid(executed, saved, results, recentTest)
  }

  /** The runner's copies of a generated test describe it. */
  lemma AdoptValid(spec: FuzzSpec, pairs: set<Combination>)
    requires HasContext(spec) && Generate(spec).Ok?
    requires spec.geofence == [] ==> pairs == RemoveStates(Generate(spec).value, spec.states)
    ensures CampaignValid(spec, FuzzTypeOf(spec), Generate(spec).value, spec.states, pairs)
  {
    if spec.geofence == [] && Clean(spec) {
      CleanPairsComplete(spec);
    }
  }

  /** A test starts from the loaded tuples with nothing dispatched or recorded. */
  lemma StartValid(spec: FuzzSpec, fuzzType: string, combos: set<Combination>, states: seq<Value>,
                   pairs: set<Combination>, executed: set<Combination>, tested: map<Value, set<Combination>>)
    requires CampaignValid(spec, fuzzType, combos, states, pairs)
    requires spec.geofence == [] ==> tested == IndexOf(executed)
    ensures TestorValid(spec, fuzzType, combos, states, pairs, executed, tested, executed, [], None, executed, [])
  {
    assert Elems([]) == {};
  }

  /** `Fuzz_Testor`. */
  class FuzzTestor {
    const uavId: string
    var running: bool
    var fuzzType: string
    var combos: set<Combination>
    var modeThrottleCombos: set<Combination>
    var states: seq<Value>
    var executed: set<Combination>
    var tested: map<Value, set<Combination>>
    var saved: set<Combination>
    var results: seq<Record>
    var recentTest: Option<Combination>
    var messageSent: bool
    var missionReady: bool
    var missionTime: bool
    var missionAbort: bool
    var shutdown: bool
    var watchdogAlive: bool
    var queued: nat
    ghost var spec: FuzzSpec
    ghost var loaded: set<Combination>
    ghost var dispatched: seq<Combination>

    /** While a test runs: the runner's copies describe the test; a state campaign keeps
        its (prefix, state) index in step with the executed set; the executed set is
        what was loaded plus what was dispatched, no test is dispatched twice or after
        it was loaded; every record, the saved file and the most recent test are
        executed tests; and for a clean test every dispatched tuple is a combination. */
    ghost predicate Valid()
      reads this`running, this`spec, this`fuzzType, this`combos, this`modeThrottleCombos, this`states
      reads this`executed, this`tested, this`saved, this`results, this`recentTest, this`loaded, this`dispatched
    {
      running ==> TestorValid(spec, fuzzType, combos, states, modeThrottleCombos,
                              executed, tested, saved, results, recentTest, loaded, dispatched)
    }

    /** `__init__`: connected, no test yet, the watchdog running. */
    constructor (uavId: string)
      ensures Valid() && !running && this.uavId == uavId
      ensures executed == {} && results == [] && recentTest.None? && queued == 0
      ensures !messageSent && !missionReady && !missionTime && !missionAbort && !shutdown && watchdogAlive
    {
      this.uavId := uavId;
      running := false;
      fuzzType := "";
      combos := {};
      modeThrottleCombos := {};
      states := [];
      executed := {};
      tested := map[];
      saved := {};
      results := [];
      recentTest := None;
      messageSent := false;
      missionReady := false;
      missionTime := false;
      missionAbort := false;
      shutdown := false;
      watchdogAlive := true;
      queued := 0;
      spec := FuzzSpec([], [], [], []);
      loaded := {};
      dispatched := [];
    }

    /** `run_test`: adopts the test, loads the executed tests and queues the first
        mission. Loading can raise; the test is then not started and nothing is queued. */
    method RunTest(test: FuzzTest, fileTests: set<Combination>) returns (ok: bool)
      requires test.Valid() && !running
      modifies this`fuzzType, this`combos, this`modeThrottleCombos, this`states, this`spec
      modifies this`executed, this`saved, this`tested
      modifies this`loaded, this`dispatched, this`results, this`recentTest, this`queued, this`running
      ensures Valid() && ok == running
      ensures fuzzType == test.fuzzType && combos == test.testCombinations && executed == fileTests
      ensures ok <==> test.spec.geofence != [] || ProcessExecuted(fileTests, test.fuzzType).Some?
      ensures ok ==> queued == old(queued) + 1 && dispatched == [] && saved == fileTests && results == [] && recentTest.None?
      ensures !ok ==> queued == old(queued)
    {
      AdoptTest(test);
      ok := LoadAndStart(fileTests);
    }

    /** The rest of `run_test` once the test is adopted: load the executed tests and,
        unless that raises, start the test. */
    method LoadAndStart(fileTests: set<Combination>) returns (ok: bool)
      requires CampaignValid(spec, fuzzType, combos, states, modeThrottleCombos) && !running
      modifies this`executed, this`saved, this`tested
      modifies this`loaded, this`dispatched, this`results, this`recentTest, this`queued, this`running
      ensures Valid() && ok == running && executed == fileTests
      ensures ok <==> spec.geofence != [] || ProcessExecuted(fileTests, fuzzType).Some?
      ensures ok ==> queued == old(queued) + 1 && dispatched == [] && saved == fileTests && results == [] && recentTest.None?
      ensures !ok ==> queued == old(queued)
    {
      ok := LoadExecutedTests(fileTests);
      if !ok {
        return;
      }
      Start();
    }

    /** The end of `run_test`: the loaded tests are the starting point, nothing is
        dispatched yet, and the first mission is queued. */
    method Start()
      requires CampaignValid(spec, fuzzType, combos, states, modeThrottleCombos)
      requires spec.geofence == [] ==> tested == IndexOf(executed)
      requires saved == executed
      modifies this`loaded, this`dispatched, this`results, this`recentTest, this`queued, this`running
      ensures Valid() && running
      ensures loaded == executed && dispatched == [] && results == [] && recentTest.None?
      ensures queued == old(queued) + 1
    {
      StartValid(spec, fuzzType, combos, states, modeThrottleCombos, executed, tested);
      ResetLog();
      queued := queued + 1;
      running := true;
    }

    /** The executed set so far is what was loaded; nothing is dispatched or recorded. */
    method ResetLog()
      modifies this`loaded, this`dispatched, this`results, this`recentTest
      ensures loaded == executed && dispatched == [] && results == [] && recentTest.None?
    {
      loaded := executed;
      dispatched := [];
      results := [];
      recentTest := None;
    }

    /** The first half of `run_test`: the runner copies the test's kind, combinations,
        states, and for a state campaign its (mode, throttle) parts. */
    method AdoptTest(test: FuzzTest)
      requires test.Valid()
      modifies this`fuzzType, this`combos, this`modeThrottleCombos, this`states, this`spec
      ensures spec == test.spec && fuzzType == test.fuzzType && combos == test.testCombinations
      ensures CampaignValid(spec, fuzzType, combos, states, modeThrottleCombos)
    {
      var pairs := if test.spec.geofence == [] then RemoveStates(test.testCombinations, test.spec.states)
                   else modeThrottleCombos;
      AdoptValid(test.spec, pairs);
      fuzzType := test.fuzzType;
      combos := test.testCombinations;
      if test.spec.geofence == [] {
        modeThrottleCombos := RemoveStates(test.testCombinations, test.spec.states);
      }
      states := test.spec.states;
      spec := test.spec;
    }

    /** `load_executed_tests`: the executed set becomes the file's tuples, and a state
        campaign files them by state, which can raise. */
    method LoadExecutedTests(fileTests: set<Combination>) returns (ok: bool)
      requires HasContext(spec) && fuzzType == FuzzTypeOf(spec)
      modifies this`executed, this`saved, this`tested
      ensures executed == fileTests && saved == fileTests
      ensures ok <==> spec.geofence != [] || ProcessExecuted(fileTests, fuzzType).Some?
      ensures ok && spec.geofence == [] ==> tested == IndexOf(executed)
    {
      StateKindFlag(spec);
      executed, saved := fileTests, fileTests;
      ok := true;
      if Contains(fuzzType, "state") {
        var index := ProcessExecuted(fileTests, fuzzType);
        if index.None? {
          return false;
        }
        tested := index.value;
      }
    }

    /** The tests `select_fuzz_test` may choose from in `state`. */
    function Available(state: Value): set<Combination>
      reads this
    {
      Untested(fuzzType, combos, executed, states, modeThrottleCombos, tested, state)
    }

    /** `select_fuzz_test`: some untested test when one exists (Python's `set.pop`
        picks an unspecified one), `None` otherwise. */
    method SelectFuzzTest(state: Value) returns (sel: Option<Combination>)
      ensures sel.None? <==> Available(state) == {}
      ensures sel.Some? ==> sel.value in Available(state)
    {
      var available := Available(state);
      if available == {} {
        return None;
      }
      var t :| t in available;
      sel := Some(t);
    }

    /** A test chosen in `state` has never run in that state: in a geofence campaign it
        is not executed, in a state campaign it completed with `state` is not. */
    lemma SelectedIsNew(state: Value, t: Combination)
      requires Valid() && running && t in Available(state)
      ensures Contains(fuzzType, "geo") ==> t !in executed
      ensures !Contains(fuzzType, "geo") ==> t + [state] !in executed
    {
      GeoKindFlag(spec);
      if !Contains(fuzzType, "geo") {
        IndexOfMembership(executed, state, t);
      }
    }

    /** In a clean geofence campaign started from a file of its own combinations,
        nothing is left to choose exactly when every combination has been executed. */
    lemma GeofenceDone(state: Value)
      requires Valid() && running && spec.geofence != [] && Clean(spec) && loaded <= combos
      ensures Available(state) == {} <==> executed == combos
    {
      GeoKindFlag(spec);
      assert CampaignValid(spec, fuzzType, combos, states, modeThrottleCombos);
      assert LogValid(spec, combos, executed, tested, loaded, dispatched);
      forall x | x in Elems(dispatched) ensures x in combos {
        var i :| 0 <= i < |dispatched| && dispatched[i] == x;
      }
      assert executed <= combos;
      if Available(state) == {} {
        forall x | x in combos ensures x in executed {
          assert x !in combos - executed;
        }
      }
    }

    /** `mqtt_on_message`. On success the mission's test is recorded as complete, the
        executed set saved and the next mission queued. Otherwise, at most once per
        mission, an untested test is chosen for the current state, dispatched and
        recorded as executed; when none is left the runner shuts down if every
        combination has been executed. */
    method OnStatus(p: Payload) returns (outcome: Outcome)
      requires Valid() && running
      modifies this`missionTime, this`results, this`saved, this`queued, this`messageSent
      modifies this`shutdown, this`tested, this`executed, this`recentTest, this`dispatched
      ensures Valid() && running
      ensures outcome == Ignored <==> old(missionAbort) || !old(missionReady) || LoadMsg(p).None?
      ensures outcome == Ignored || outcome == AlreadySent ==> unchanged(this)
      ensures outcome == NoRecentTest <==>
        outcome != Ignored && LoadMsg(p) == Some(Str("success")) && old(recentTest).None?
      ensures outcome == NoRecentTest ==>
        !missionTime && executed == old(executed) && results == old(results) && queued == old(queued)
      ensures outcome == Completed ==>
        && old(recentTest).Some? && !missionTime && !messageSent && queued == old(queued) + 1
        && saved == executed == old(executed)
        && results == old(results) + [Record(old(recentTest).value, true)]
      ensures outcome == AlreadySent <==>
        outcome != Ignored && LoadMsg(p) != Some(Str("success")) && old(messageSent)
      ensures outcome.Idle? ==>
        && LoadMsg(p).Some? && (old(Available(LoadMsg(p).value)) == {} || [] in old(Available(LoadMsg(p).value)))
        && executed == old(executed) && messageSent == old(messageSent)
        && shutdown == (old(shutdown) || old(executed) == old(combos))
        && outcome.shutdown == (old(executed) == old(combos))
      ensures outcome.Dispatched? ==>
        && LoadMsg(p).Some? && LoadMsg(p).value != Str("success")
        && old(!messageSent) && messageSent
        && outcome.test in old(Available(LoadMsg(p).value)) && outcome.test != []
        && executed == old(executed) + {Recorded(LoadMsg(p).value, outcome.test)}
        && Recorded(LoadMsg(p).value, outcome.test) !in old(executed)
        && recentTest == Some(Recorded(LoadMsg(p).value, outcome.test))
        && dispatched == old(dispatched) + [Recorded(LoadMsg(p).value, outcome.test)]
        && tested == (if Contains(fuzzType, "state") then FileUnder(old(tested), LoadMsg(p).value, outcome.test) else old(tested))
      ensures !outcome.Dispatched? ==> executed == old(executed) && dispatched == old(dispatched)
      ensures !outcome.Dispatched? ==> tested == old(tested) && recentTest == old(recentTest)
      ensures !outcome.Idle? ==> shutdown == old(shutdown)
      ensures LoadMsg(p) != Some(Str("success")) ==>
        missionTime == old(missionTime) && results == old(results) && saved == old(saved) && queued == old(queued)
      ensures outcome == NoRecentTest ==> saved == old(saved) && messageSent == old(messageSent)
      ensures outcome != Ignored && LoadMsg(p) == Some(Str("success")) ==>
        outcome == if old(recentTest).None? then NoRecentTest else Completed
    {
      if missionAbort || !missionReady {
        return Ignored;
      }
      var msg := LoadMsg(p);
      if msg.None? {
        return Ignored;
      }
      if msg.value == Str("success") {
        outcome := OnSuccess();
      } else {
        outcome := OnState(msg.value);
      }
    }

    /** The success branch of `mqtt_on_message`: the mission timer stops, and the recent
        test is recorded as complete and the next mission queued, or, before any test,
        reading the recent test raises. */
    method OnSuccess() returns (outcome: Outcome)
      requires Valid() && running
      modifies this`missionTime, this`results, this`saved, this`queued, this`messageSent
      ensures Valid() && !missionTime
      ensures outcome == (if old(recentTest).None? then NoRecentTest else Completed)
      ensures outcome == NoRecentTest ==>
        results == old(results) && saved == old(saved) && queued == old(queued) && messageSent == old(messageSent)
      ensures outcome == Completed ==>
        && !messageSent && queued == old(queued) + 1 && saved == executed
        && results == old(results) + [Record(recentTest.value, true)]
    {
      missionTime := false;
      if recentTest.None? {
        return NoRecentTest;
      }
      RecordSuccess();
      return Completed;
    }

    /** A state report in `mqtt_on_message`: at most once per mission an untested test
        is chosen for the state and dispatched; when none is left the runner shuts down
        if every combination has been executed. */
    method OnState(state: Value) returns (outcome: Outcome)
      requires Valid() && running
      modifies this`shutdown, this`tested, this`executed, this`recentTest, this`dispatched, this`messageSent
      ensures Valid()
      ensures outcome.AlreadySent? || outcome.Idle? || outcome.Dispatched?
      ensures outcome == AlreadySent <==> old(messageSent)
      ensures outcome == AlreadySent ==> unchanged(this)
      ensures outcome.Idle? ==>
        && (old(Available(state)) == {} || [] in old(Available(state)))
        && executed == old(executed) && messageSent == old(messageSent) && dispatched == old(dispatched)
        && shutdown == (old(shutdown) || old(executed) == old(combos))
        && outcome.shutdown == (old(executed) == old(combos))
      ensures outcome.Dispatched? ==>
        && old(!messageSent) && messageSent
        && outcome.test in old(Available(state)) && outcome.test != []
        && executed == old(executed) + {Recorded(state, outcome.test)}
        && Recorded(state, outcome.test) !in old(executed)
        && recentTest == Some(Recorded(state, outcome.test))
        && dispatched == old(dispatched) + [Recorded(state, outcome.test)]
        && tested == (if Contains(fuzzType, "state") then FileUnder(old(tested), state, outcome.test) else old(tested))
      ensures !outcome.Dispatched? ==> tested == old(tested) && recentTest == old(recentTest)
      ensures !outcome.Idle? ==> shutdown == old(shutdown)
    {
      if messageSent {
        return AlreadySent;
      }
      var sel := SelectFuzzTest(state);
      if !Truthy(sel) {
        var done := executed == combos;
        if done {
          shutdown := true;
        }
        return Idle(done);
      }
      Dispatch(state, sel.value);
      return Dispatched(sel.value);
    }

    /** The success branch of `mqtt_on_message` once the recent test exists. */
    method RecordSuccess()
      requires Valid() && running && recentTest.Some?
      modifies this`results, this`saved, this`queued, this`messageSent
      ensures Valid()
      ensures results == old(results) + [Record(recentTest.value, true)]
      ensures saved == executed && queued == old(queued) + 1 && !messageSent
    {
      SaveRecord(true);
      QueueNext();
    }

    /** `record_test_result` followed by `save_executed_tests`: the recent test is
        recorded as complete or not, and the executed set written out. */
    method SaveRecord(complete: bool)
      requires Valid() && recentTest.Some?
      modifies this`results, this`saved
      ensures Valid()
      ensures results == old(results) + [Record(recentTest.value, complete)] && saved == executed
    {
      results := results + [Record(recentTest.value, complete)];
      saved := executed;
    }

    /** The dispatch branch of `mqtt_on_message`: the chosen test is sent and recorded
        as executed, filed under the state in a state campaign. */
    method Dispatch(state: Value, t: Combination)
      requires Valid() && running && t in Available(state)
      modifies this`tested, this`executed, this`recentTest, this`dispatched, this`messageSent
      ensures Valid()
      ensures executed == old(executed) + {Recorded(state, t)} && Recorded(state, t) !in old(executed)
      ensures recentTest == Some(Recorded(state, t)) && messageSent
      ensures dispatched == old(dispatched) + [Recorded(state, t)]
      ensures tested == if Contains(fuzzType, "state") then FileUnder(old(tested), state, t) else old(tested)
    {
      DispatchKeepsValid(spec, fuzzType, combos, states, modeThrottleCombos, executed, tested, saved, results, recentTest,
                         loaded, dispatched, state, t);
      FileRecord(state, t);
      messageSent := true;
    }

    /** Records `t` run in `state` as executed and as the recent test, filed under the
        state in a state campaign. */
    method FileRecord(state: Value, t: Combination)
      modifies this`tested, this`executed, this`recentTest, this`dispatched
      ensures tested == if Contains(fuzzType, "state") then FileUnder(old(tested), state, t) else old(tested)
      ensures executed == old(executed) + {Recorded(state, t)} && recentTest == Some(Recorded(state, t))
      ensures dispatched == old(dispatched) + [Recorded(state, t)]
    {
      var record := RecordOf(fuzzType, state, t);
      if Contains(fuzzType, "state") {
        tested := FileUnder(tested, state, t);
      }
      executed := executed + {record};
      recentTest := Some(record);
      dispatched := dispatched + [record];
    }

    /** The tuple recorded as executed for test `t` run in `state`. */
    function Recorded(state: Value, t: Combination): Combination
      reads this
    {
      RecordOf(fuzzType, state, t)
    }

    /** One pass of `check_time_threshold` after `mission_time` was set: a mission
        running for `elapsed >= THRESHOLD` seconds is recorded as incomplete, the
        executed set saved, the mission aborted and the next one queued. Without a
        recent test the record raises: the watchdog dies with the abort flag still
        set, so every later status message is ignored. */
    method CheckTimeout(elapsed: int)
      requires Valid()
      modifies this`results, this`saved, this`missionReady, this`missionTime, this`missionAbort
      modifies this`queued, this`messageSent, this`watchdogAlive
      ensures Valid()
      ensures executed == old(executed) && dispatched == old(dispatched) && running == old(running)
      ensures !old(watchdogAlive) || (!old(shutdown) && (elapsed < THRESHOLD || !old(missionTime))) ==> unchanged(this)
      ensures old(watchdogAlive) && old(shutdown) ==>
        && !watchdogAlive && missionAbort == old(missionAbort)
        && unchanged(this`results, this`saved, this`missionReady, this`missionTime, this`queued, this`messageSent)
      ensures old(watchdogAlive && !shutdown && missionTime && recentTest.None?) && elapsed >= THRESHOLD ==>
        unchanged(this`saved, this`missionReady, this`missionTime, this`queued, this`messageSent)
      ensures old(watchdogAlive && !shutdown && missionTime) && elapsed >= THRESHOLD ==>
        if old(recentTest).None? then missionAbort && !watchdogAlive && results == old(results)
        else
          && results == old(results) + [Record(old(recentTest).value, false)]
          && saved == executed && !missionReady && !missionTime && !missionAbort && !messageSent
          && queued == old(queued) + 1 && watchdogAlive
    {
      if !watchdogAlive {
        return;
      }
      if shutdown {
        watchdogAlive := false;
        return;
      }
      if elapsed < THRESHOLD || !missionTime {
        return;
      }
      missionAbort := true;
      if recentTest.None? {
        watchdogAlive := false;
        return;
      }
      RecordTimeout();
    }

    /** The acting part of `check_time_threshold` once the recent test exists. */
    method RecordTimeout()
      requires Valid() && recentTest.Some?
      modifies this`results, this`saved, this`missionReady, this`missionTime, this`missionAbort
      modifies this`queued, this`messageSent
      ensures Valid()
      ensures results == old(results) + [Record(recentTest.value, false)]
      ensures saved == executed && !missionReady && !missionTime && !missionAbort && !messageSent
      ensures queued == old(queued) + 1
    {
      SaveRecord(false);
      ClearMission();
      QueueNext();
    }

    /** The mission is over: not ready, not timed, not aborting. */
    method ClearMission()
      modifies this`missionReady, this`missionTime, this`missionAbort
      ensures !missionReady && !missionTime && !missionAbort
    {
      missionReady := false;
      missionTime := false;
      missionAbort := false;
    }

    /** `send_mission`: the next mission is queued and no test is sent for it yet. */
    method QueueNext()
      modifies this`queued, this`messageSent
      ensures queued == old(queued) + 1 && !messageSent
    {
      queued := queued + 1;
      messageSent := false;
    }

    /** `mqtt_on_mission_ready`. */
    method OnMissionReady()
      requires Valid()
      modifies this`missionReady
      ensures Valid() && missionReady
    {
      missionReady := true;
    }

    /** One pass of `send_mission_thread`: a queued mission is published once the state
        machine is ready, and the mission timer starts. */
    method PublishMission()
      requires Valid()
      modifies this`queued, this`missionTime
      ensures Valid()
      ensures old(queued > 0 && missionReady && !shutdown) ==> queued == old(queued) - 1 && missionTime
      ensures !old(queued > 0 && missionReady && !shutdown) ==> unchanged(this)
    {
      if queued > 0 && missionReady && !shutdown {
        queued := queued - 1;
        missionTime := true;
      }
    }
  }
}
