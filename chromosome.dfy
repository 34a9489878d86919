/**
  A probe of the genetic search (GenAlgo/): one data-set row read as a
  chromosome, and the single-point crossover that keeps the geofence block
  (GF, GFPRED, GFACT) of each child together with its own parent.
*/
module Chromosome {
  import opened Wrappers

  /** A cell of a data-set row: text, an integer, or a missing value (None or NaN). */
  datatype Cell = Text(s: string) | Int(n: int) | Null

  type Row = seq<Cell>

  /** COLUMN_NAMES, and the positions of its columns. */
  const COLUMN_NAMES: seq<string> := ["states", "GF", "GFPRED", "GFACT", "modes", "throttle"]
  const STATES: nat := 0
  const GF: nat := 1
  const GFPRED: nat := 2
  const GFACT: nat := 3
  const MODES: nat := 4
  const THROTTLE: nat := 5

  /** `xs.index(x)`: the first position of `x`; None where Python raises `ValueError`. */
  function IndexOf(xs: seq<string>, x: string): (r: Option<nat>)
    ensures r.None? <==> x !in xs
    ensures r.Some? ==> r.value < |xs| && xs[r.value] == x
    ensures r.Some? ==> forall i :: 0 <= i < r.value ==> xs[i] != x
  {
    if |xs| == 0 then None
    else if xs[0] == x then Some(0)
    else match IndexOf(xs[1..], x)
      case None => None
      case Some(i) => Some(i + 1)
  }

  /** `gf_indices`: the positions of GF, GFPRED and GFACT in `names`. */
  function GeofenceIndices(names: seq<string>): (r: Option<set<nat>>)
    ensures r.None? <==> ("GF" !in names || "GFPRED" !in names || "GFACT" !in names)
    ensures r.Some? ==> forall j :: j in r.value ==> j < |names| && names[j] in {"GF", "GFPRED", "GFACT"}
  {
    match (IndexOf(names, "GF"), IndexOf(names, "GFPRED"), IndexOf(names, "GFACT"))
      case (Some(a), Some(b), Some(c)) => Some({a, b, c})
      case _ => None
  }

  lemma ColumnGeofenceIndices()
    ensures GeofenceIndices(COLUMN_NAMES) == Some({GF, GFPRED, GFACT})
  {
    assert IndexOf(COLUMN_NAMES, "GF") == Some(1) by {
      assert COLUMN_NAMES[0] != "GF" && COLUMN_NAMES[1] == "GF";
    }
    assert IndexOf(COLUMN_NAMES, "GFPRED") == Some(2) by {
      assert COLUMN_NAMES[0] != "GFPRED" && COLUMN_NAMES[1] != "GFPRED" && COLUMN_NAMES[2] == "GFPRED";
    }
    assert IndexOf(COLUMN_NAMES, "GFACT") == Some(3) by {
      assert COLUMN_NAMES[0] != "GFACT" && COLUMN_NAMES[1] != "GFACT" && COLUMN_NAMES[2] != "GFACT";
      assert COLUMN_NAMES[3] == "GFACT";
    }
  }

  /** The columns of a frame are distinct. */
  predicate Distinct(names: seq<string>)
  {
    forall a, b :: 0 <= a < b < |names| ==> names[a] != names[b]
  }

  /** `np.concatenate((a[:point], b[point:]))`. */
  function Splice(a: Row, b: Row, point: nat): Row
    requires point <= |a| == |b|
  {
    a[..point] + b[point..]
  }

  /** `child[idx] = parent[idx]`: the positions `idx` are copied back from `parent`. */
  function Restore(child: Row, parent: Row, idx: set<nat>): (r: Row)
    requires |child| == |parent|
  {
    seq(|child|, j requires 0 <= j < |child| => if j in idx then parent[j] else child[j])
  }

  /** Why the crossover raises: a geofence column missing from `column_names`. */
  datatype CrossoverError = MissingColumn

  /**
    `crossover(parent1, parent2, column_names)` with the point that
    `random.randint(1, len(parent1) - 2)` drew.  Both parents are rows of the
    same frame, so they have one cell per column name.
  */
  function Crossover(p1: Row, p2: Row, names: seq<string>, point: nat): Result<(Row, Row), CrossoverError>
    requires |p1| == |p2| == |names|
    requires |p1| >= 3 ==> 1 <= point <= |p1| - 2
  {
    match GeofenceIndices(names)
      case None => Err(MissingColumn)
      case Some(idx) =>
        Ok((Restore(Splice(p1, p2, point), p1, idx), Restore(Splice(p2, p1, point), p2, idx)))
  }

  /** The crossover fails exactly when a geofence column is missing; the
      geofence columns always exist in a frame of at least three columns. */
  lemma CrossoverFails(p1: Row, p2: Row, names: seq<string>, point: nat)
    requires |p1| == |p2| == |names|
    requires |p1| >= 3 ==> 1 <= point <= |p1| - 2
    ensures Crossover(p1, p2, names, point).Err? <==> ("GF" !in names || "GFPRED" !in names || "GFACT" !in names)
    ensures Crossover(p1, p2, names, point).Ok? ==> |names| >= 3
  {
    var r := Crossover(p1, p2, names, point);
    if r.Ok? {
      var a := IndexOf(names, "GF").value;
      var b := IndexOf(names, "GFPRED").value;
      var c := IndexOf(names, "GFACT").value;
      assert names[a] == "GF" && names[b] == "GFPRED" && names[c] == "GFACT";
      assert a != b && b != c && a != c;
    }
  }

  /**
    Both children have the parents' length; each keeps its own parent's
    geofence cells; elsewhere child 1 takes parent 1 before the point and
    parent 2 from it on, and child 2 the other way round.
  */
  lemma CrossoverCells(p1: Row, p2: Row, names: seq<string>, point: nat, j: nat)
    requires Distinct(names)
    requires |p1| == |p2| == |names|
    requires |p1| >= 3 ==> 1 <= point <= |p1| - 2
    requires Crossover(p1, p2, names, point).Ok?
    requires j < |names|
    ensures |Crossover(p1, p2, names, point).value.0| == |Crossover(p1, p2, names, point).value.1| == |p1|
    ensures names[j] in {"GF", "GFPRED", "GFACT"} ==>
              Crossover(p1, p2, names, point).value.0[j] == p1[j] && Crossover(p1, p2, names, point).value.1[j] == p2[j]
    ensures names[j] !in {"GF", "GFPRED", "GFACT"} ==>
              Crossover(p1, p2, names, point).value.0[j] == (if j < point then p1[j] else p2[j])
              && Crossover(p1, p2, names, point).value.1[j] == (if j < point then p2[j] else p1[j])
  {
    var idx := GeofenceIndices(names).value;
    if names[j] in {"GF", "GFPRED", "GFACT"} {
      var k := if names[j] == "GF" then IndexOf(names, "GF").value
        else if names[j] == "GFPRED" then IndexOf(names, "GFPRED").value
        else IndexOf(names, "GFACT").value;
      assert names[k] == names[j];
      assert j in idx;
    }
  }

  /** At every position the two children hold the parents' two values, kept or
      swapped: the crossover invents nothing. */
  lemma CrossoverKeepsOrSwaps(p1: Row, p2: Row, names: seq<string>, point: nat)
    requires Distinct(names)
    requires |p1| == |p2| == |names|
    requires |p1| >= 3 ==> 1 <= point <= |p1| - 2
    requires Crossover(p1, p2, names, point).Ok?
    ensures forall j :: 0 <= j < |p1| ==>
              multiset{Crossover(p1, p2, names, point).value.0[j], Crossover(p1, p2, names, point).value.1[j]}
              == multiset{p1[j], p2[j]}
  {
    var r := Crossover(p1, p2, names, point).value;
    forall j | 0 <= j < |p1|
      ensures multiset{r.0[j], r.1[j]} == multiset{p1[j], p2[j]}
    {
      CrossoverCells(p1, p2, names, point, j);
    }
  }

  /** Crossing the two children at the same point gives back the parents. */
  lemma CrossoverInvolution(p1: Row, p2: Row, names: seq<string>, point: nat)
    requires Distinct(names)
    requires |p1| == |p2| == |names|
    requires |p1| >= 3 ==> 1 <= point <= |p1| - 2
    requires Crossover(p1, p2, names, point).Ok?
    ensures Crossover(Crossover(p1, p2, names, point).value.0, Crossover(p1, p2, names, point).value.1, names, point)
            == Ok((p1, p2))
  {
    var r := Crossover(p1, p2, names, point).value;
    CrossoverCells(p1, p2, names, point, 0);
    var back := Crossover(r.0, r.1, names, point).value;
    forall j | 0 <= j < |p1|
      ensures back.0[j] == p1[j] && back.1[j] == p2[j]
    {
      CrossoverCells(p1, p2, names, point, j);
      CrossoverCells(r.0, r.1, names, point, j);
    }
    assert back.0 == p1 && back.1 == p2;
  }
}
