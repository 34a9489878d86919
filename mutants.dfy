/**
  Column mutation of probes (GenAlgo/GeneticAlgorithm.py `mutate` and the
  standalone GenAlgo/mutants_test.py `mutate`): up to ten sampled rows are
  copied, and in each one column is redrawn, the geofence columns being kept
  consistent with GF and with the flight state.
*/
module Mutation {
  import opened Chromosome

  /** The two versions of `mutate`: the pipeline's `GeneticAlgorithm.mutate`
      and the standalone one, which also redraws GFPRED and never draws a
      `None` action. */
  datatype Variant = Pipeline | Standalone

  /** The eligible values of the feature dictionary. */
  const MODE_CHOICES: seq<Cell> :=
    [Text("POSCTL"), Text("STABILIZED"), Text("OFFBOARD"), Text("ALTCTL"), Text("AUTO.LOITER"), Text("AUTO.RTL"), Text("AUTO.LAND")]
  const STATE_CHOICES: seq<Cell> :=
    [Text("Flying"), Text("Land"), Text("Disarm"), Text("Takeoff"), Text("Arm"), Text("Hover")]
  const ACTIONS: seq<Cell> :=
    [Text("Warning"), Text("Hold mode"), Text("Return mode"), Text("Terminate"), Text("Land mode")]
  const THROTTLE_CHOICES: seq<Cell> :=
    [Int(0), Int(225), Int(-100), Int(260), Int(600), Int(100), Int(550), Int(445), Int(435), Int(450),
     Int(615), Int(570), Int(300), Null]
  const YES_NO: seq<Cell> := [Text("Yes"), Text("No")]

  /** The geofence actions a variant draws from: the pipeline's list begins with `None`. */
  function ActionChoices(v: Variant): seq<Cell>
  {
    if v == Pipeline then [Null] + ACTIONS else ACTIONS
  }

  /** The random draws for one row: the column chosen, its new value, and for a
      GF mutation the GFPRED and GFACT drawn alongside. */
  datatype Draw = Draw(column: nat, value: Cell, pred: Cell, action: Cell)

  /** Each draw comes from the list `random.choice` is given. */
  predicate Drawable(v: Variant, d: Draw)
  {
    && d.column < |COLUMN_NAMES|
    && (d.column == GF ==> d.value in YES_NO && d.pred in YES_NO && d.action in ActionChoices(v))
    && (d.column == MODES ==> d.value in MODE_CHOICES)
    && (d.column == STATES ==> d.value in STATE_CHOICES)
    && (d.column == THROTTLE ==> d.value in THROTTLE_CHOICES)
    && (d.column == GFPRED ==> d.value in YES_NO)
    && (d.column == GFACT ==> d.value in ActionChoices(v))
  }

  /** A row whose GF is not 'Yes' has no geofence prediction and no action. This is
      the invariant the code keeps; it implies the property the tests state, that a
      row whose GF is 'No' has GFPRED and GFACT None. */
  predicate GeofenceConsistent(row: Row)
    requires |row| == |COLUMN_NAMES|
  {
    row[GF] != Text("Yes") ==> row[GFPRED] == Null && row[GFACT] == Null
  }

  /** The new row after the mutation of one row: the specification of the
      loop body. */
  function Mutated(v: Variant, row: Row, d: Draw): (r: Row)
    requires |row| == |COLUMN_NAMES|
    ensures |r| == |row|
  {
    if d.column == GF then
      if d.value == Text("No") then row[GF := d.value][GFPRED := Null][GFACT := Null]
      else row[GF := d.value][GFPRED := if v == Pipeline then Text("Yes") else d.pred][GFACT := d.action]
    else if d.column == MODES then row[MODES := d.value]
    else if d.column == STATES then
      if d.value != Text("Flying") then row[STATES := d.value][GFPRED := Null][GFACT := Null]
      else row[STATES := d.value]
    else if d.column == THROTTLE then row[THROTTLE := d.value]
    else if d.column == GFPRED then
      if v == Pipeline then row
      else if row[GF] == Text("Yes") then row[GFPRED := d.value]
      else row[GFPRED := Null]
    else if d.column == GFACT then
      if row[GF] == Text("Yes") then row[GFACT := d.value] else row[GFACT := Null]
    else row
  }

  /** Every mutation keeps a consistent row consistent. */
  lemma MutatedKeepsGeofence(v: Variant, row: Row, d: Draw)
    requires |row| == |COLUMN_NAMES| && Drawable(v, d)
    requires GeofenceConsistent(row)
    ensures GeofenceConsistent(Mutated(v, row, d))
  {
  }

  /** Only the chosen column changes, apart from GFPRED and GFACT; modes and
      throttle mutations touch nothing else. */
  lemma MutatedChangesOnlyItsColumn(v: Variant, row: Row, d: Draw)
    requires |row| == |COLUMN_NAMES|
    ensures forall c :: 0 <= c < |row| && c != d.column && c != GFPRED && c != GFACT ==>
              Mutated(v, row, d)[c] == row[c]
    ensures d.column == MODES || d.column == THROTTLE ==> Mutated(v, row, d) == row[d.column := d.value]
    ensures d.column == GFACT ==> Mutated(v, row, d)[GFPRED] == row[GFPRED]
    ensures d.column == GFPRED ==> Mutated(v, row, d)[GFACT] == row[GFACT]
  {
  }

  /** What each kind of draw leaves in the row. */
  lemma MutatedValues(v: Variant, row: Row, d: Draw)
    requires |row| == |COLUMN_NAMES| && Drawable(v, d)
    ensures var r := Mutated(v, row, d);
      && (d.column == GF ==> r[GF] == d.value)
      && (d.column == GF && d.value == Text("Yes") ==>
            r[GFACT] in ActionChoices(v)
            && (v == Pipeline ==> r[GFPRED] == Text("Yes"))
            && (v == Standalone ==> r[GFPRED] in YES_NO && r[GFACT] != Null))
      && (d.column == STATES ==> r[STATES] in STATE_CHOICES)
      && (d.column == STATES && d.value != Text("Flying") ==> r[GFPRED] == Null && r[GFACT] == Null)
      && (d.column == STATES && d.value == Text("Flying") ==> r[GFPRED] == row[GFPRED] && r[GFACT] == row[GFACT])
      && (d.column == MODES ==> r[MODES] in MODE_CHOICES)
      && (d.column == THROTTLE ==> r[THROTTLE] in THROTTLE_CHOICES)
      && (d.column == GFACT && row[GF] != Text("Yes") ==> r[GFACT] == Null)
      && (d.column == GFPRED && v == Pipeline ==> r == row)
      && (d.column == GFPRED && v == Standalone && row[GF] != Text("Yes") ==> r[GFPRED] == Null)
  {
    if v == Standalone && d.column == GF {
      assert d.action in ACTIONS;
      assert Null !in ACTIONS;
    }
  }

  /** Row `i` of a frame. */
  function RowOf(frame: array2<Cell>, i: nat): (row: Row)
    requires i < frame.Length0
    reads frame
    ensures |row| == frame.Length1
  {
    seq(frame.Length1, c requires 0 <= c < frame.Length1 reads frame => frame[i, c])
  }

  /** The rows of a frame. */
  function Rows(frame: array2<Cell>): (rows: seq<Row>)
    reads frame
    ensures |rows| == frame.Length0
    ensures forall i :: 0 <= i < |rows| ==> rows[i] == RowOf(frame, i)
  {
    seq(frame.Length0, i requires 0 <= i < frame.Length0 reads frame => RowOf(frame, i))
  }

  /** `min(10, n)`. */
  function SampleSize(n: nat): nat
  {
    if n < 10 then n else 10
  }

  /** The `.at[index, column]` writes of one loop turn, on row `i` of the copy. */
  method MutateRow(v: Variant, frame: array2<Cell>, i: nat, d: Draw)
    requires frame.Length1 == |COLUMN_NAMES| && i < frame.Length0
    modifies frame
    ensures RowOf(frame, i) == Mutated(v, old(RowOf(frame, i)), d)
    ensures forall k, c :: 0 <= k < frame.Length0 && k != i && 0 <= c < frame.Length1 ==> frame[k, c] == old(frame[k, c])
  {
    ghost var before := RowOf(frame, i);
    if d.column == GF {
      frame[i, GF] := d.value;
      if frame[i, GF] == Text("No") {
        frame[i, GFPRED] := Null;
        frame[i, GFACT] := Null;
      } else {
        frame[i, GFPRED] := if v == Pipeline then Text("Yes") else d.pred;
        frame[i, GFACT] := d.action;
      }
    } else if d.column == MODES {
      frame[i, MODES] := d.value;
    } else if d.column == STATES {
      if d.value != Text("Flying") {
        frame[i, STATES] := d.value;
        frame[i, GFPRED] := Null;
        frame[i, GFACT] := Null;
      } else {
        frame[i, STATES] := d.value;
      }
    } else if d.column == THROTTLE {
      frame[i, THROTTLE] := d.value;
    } else if d.column == GFPRED {
      if v == Standalone {
        if frame[i, GF] == Text("Yes") {
          frame[i, GFPRED] := d.value;
        } else {
          frame[i, GFPRED] := Null;
        }
      }
    } else if d.column == GFACT {
      if frame[i, GF] == Text("Yes") {
        frame[i, GFACT] := d.value;
      } else {
        frame[i, GFACT] := Null;
      }
    }
    assert forall c :: 0 <= c < frame.Length1 ==> RowOf(frame, i)[c] == Mutated(v, before, d)[c];
  }

  /**
    `mutate(mutant_candidates_df)`: `picks` are the positions `random.sample`
    drew and `draws` the per-row random choices. The result holds one mutated
    copy per pick, in pick order; the candidates themselves are values and
    stay as they were.
  */
  method Mutate(v: Variant, candidates: seq<Row>, picks: seq<nat>, draws: seq<Draw>) returns (sampled: seq<Row>)
    requires forall k :: 0 <= k < |candidates| ==> |candidates[k]| == |COLUMN_NAMES|
    requires |picks| == SampleSize(|candidates|) && |draws| == |picks|
    requires forall k :: 0 <= k < |picks| ==> picks[k] < |candidates|
    requires forall a, b :: 0 <= a < b < |picks| ==> picks[a] != picks[b]
    requires forall k :: 0 <= k < |draws| ==> Drawable(v, draws[k])
    ensures |sampled| == SampleSize(|candidates|) == |draws|
    ensures forall k :: 0 <= k < |sampled| ==> sampled[k] == Mutated(v, candidates[picks[k]], draws[k])
  {
    var frame := new Cell[|picks|, |COLUMN_NAMES|]((k, c) requires 0 <= k < |picks| && 0 <= c < |COLUMN_NAMES| =>
      candidates[picks[k]][c]);
    assert forall k :: 0 <= k < |picks| ==> RowOf(frame, k) == candidates[picks[k]];
    for k := 0 to |picks|
      invariant forall j :: 0 <= j < k ==> RowOf(frame, j) == Mutated(v, candidates[picks[j]], draws[j])
      invariant forall j :: k <= j < |picks| ==> RowOf(frame, j) == candidates[picks[j]]
    {
      ghost var before := Rows(frame);
      MutateRow(v, frame, k, draws[k]);
      forall j | 0 <= j < |picks| && j != k
        ensures RowOf(frame, j) == before[j]
      {
        assert forall c :: 0 <= c < frame.Length1 ==> RowOf(frame, j)[c] == before[j][c];
      }
    }
    sampled := Rows(frame);
  }

  /** Mutating consistent candidates yields consistent probes. */
  lemma MutateKeepsGeofence(v: Variant, candidates: seq<Row>, picks: seq<nat>, draws: seq<Draw>, sampled: seq<Row>)
    requires forall k :: 0 <= k < |candidates| ==> |candidates[k]| == |COLUMN_NAMES| && GeofenceConsistent(candidates[k])
    requires |draws| == |picks| == |sampled|
    requires forall k :: 0 <= k < |picks| ==> picks[k] < |candidates| && Drawable(v, draws[k])
    requires forall k :: 0 <= k < |sampled| ==> sampled[k] == Mutated(v, candidates[picks[k]], draws[k])
    ensures forall k :: 0 <= k < |sampled| ==> |sampled[k]| == |COLUMN_NAMES| && GeofenceConsistent(sampled[k])
  {
    forall k | 0 <= k < |sampled|
      ensures |sampled[k]| == |COLUMN_NAMES| && GeofenceConsistent(sampled[k])
    {
      MutatedKeepsGeofence(v, candidates[picks[k]], draws[k]);
    }
  }
}
