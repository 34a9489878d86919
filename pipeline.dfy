/**
  The truth-table pipeline of ClusteringFT/pipelineFT.py: the 0/1 table over a
  feature combination, the row validation that marks impossible rows with 0, the
  translation of a row's feature names into the arguments of a fuzz test, the
  recording of probe verdicts, and the throttle relabelling that follows the
  anomaly rules.
*/
module Pipeline {
  import opened Wrappers
  import opened Strings
  import opened FuzzEntities
  import opened AnomalyRules

  // ---------------------------------------------------------------------------
  // The rows of the truth table

  function Pow2(n: nat): nat
  {
    if n == 0 then 1 else 2 * Pow2(n - 1)
  }

  /** `b` in front of every row. */
  function Prepend(b: int, rows: seq<seq<int>>): (r: seq<seq<int>>)
    ensures |r| == |rows|
    ensures forall i :: 0 <= i < |r| ==> r[i] == [b] + rows[i]
  {
    seq(|rows|, i requires 0 <= i < |rows| => [b] + rows[i])
  }

  /** `itertools.product([0, 1], repeat=n)`, in its order: the first column changes
      slowest. */
  function BitRows(n: nat): seq<seq<int>>
  {
    if n == 0 then [[]] else Prepend(0, BitRows(n - 1)) + Prepend(1, BitRows(n - 1))
  }

  predicate IsBits(row: seq<int>)
  {
    forall j :: 0 <= j < |row| ==> row[j] == 0 || row[j] == 1
  }

  /** The table has 2^n rows, each a 0/1 assignment to the n features. */
  lemma {:induction false} BitRowsShape(n: nat)
    ensures |BitRows(n)| == Pow2(n)
    ensures forall i :: 0 <= i < |BitRows(n)| ==> |BitRows(n)[i]| == n && IsBits(BitRows(n)[i])
    decreases n
  {
    if n > 0 {
      BitRowsShape(n - 1);
      var half := BitRows(n - 1);
      forall i | 0 <= i < |BitRows(n)| ensures |BitRows(n)[i]| == n && IsBits(BitRows(n)[i]) {
        if i < |half| {
          assert BitRows(n)[i] == [0] + half[i];
        } else {
          assert BitRows(n)[i] == [1] + half[i - |half|];
        }
      }
    }
  }

  /** Every 0/1 assignment is a row of the table. */
  lemma {:induction false} BitRowsComplete(n: nat, row: seq<int>)
    requires |row| == n && IsBits(row)
    ensures row in BitRows(n)
    decreases n
  {
    if n > 0 {
      var tail := row[1..];
      assert IsBits(tail) by {
        forall j | 0 <= j < |tail| ensures tail[j] == 0 || tail[j] == 1 {
          assert tail[j] == row[j + 1];
        }
      }
      BitRowsComplete(n - 1, tail);
      var half := BitRows(n - 1);
      assert row == [row[0]] + tail;
      PrependMember(row[0], half, tail);
      if row[0] == 0 {
        assert row in Prepend(0, half);
      } else {
        assert row in Prepend(1, half);
      }
    }
  }

  lemma PrependMember(b: int, rows: seq<seq<int>>, r: seq<int>)
    requires r in rows
    ensures [b] + r in Prepend(b, rows)
  {
    var i :| 0 <= i < |rows| && rows[i] == r;
    assert Prepend(b, rows)[i] == [b] + r;
  }

  /** No assignment occurs twice. */
  lemma {:induction false} BitRowsDistinct(n: nat)
    ensures Distinct(BitRows(n))
    decreases n
  {
    if n > 0 {
      BitRowsDistinct(n - 1);
      var half := BitRows(n - 1);
      var rows := BitRows(n);
      forall i, j | 0 <= i < j < |rows| ensures rows[i] != rows[j] {
        var a := if i < |half| then i else i - |half|;
        var b := if j < |half| then j else j - |half|;
        assert rows[i] == [if i < |half| then 0 else 1] + half[a];
        assert rows[j] == [if j < |half| then 0 else 1] + half[b];
        assert rows[i][1..] == half[a] && rows[j][1..] == half[b];
      }
    }
  }

  // ---------------------------------------------------------------------------
  // Row validation

  /** `ones_columns`: the features a row sets to 1, in column order. */
  function OnesColumns(features: seq<string>, row: seq<int>): seq<string>
    requires |row| == |features|
  {
    if features == [] then []
    else (if row[0] == 1 then [features[0]] else []) + OnesColumns(features[1..], row[1..])
  }

  /** The part of each name before its first `_`. */
  function Prefixes(cols: seq<string>): (r: seq<string>)
    ensures |r| == |cols|
  {
    seq(|cols|, i requires 0 <= i < |cols| => BeforeFirst(cols[i], '_'))
  }

  /** The six feature patterns a meaningful row can take. */
  const VALID_PATTERNS: seq<seq<string>> := [
    ["GFACT"],
    ["GFACT", "modes"],
    ["GFACT", "modes", "throttle"],
    ["states", "modes"],
    ["states", "throttle"],
    ["states", "modes", "throttle"]]

  /** Each prefix of `pattern` starts one of the row's columns. */
  predicate Covers(ones: seq<string>, pattern: seq<string>)
  {
    forall p :: p in pattern ==> exists c :: c in ones && StartsWith(c, p)
  }

  /** The checks of `validate_combinations`: a row survives when no two columns share
      a prefix, it does not mix a geofence action with a state, it is not a single
      state column, and it covers one of the six patterns. */
  predicate RowAccepted(ones: seq<string>)
  {
    var prefixes := Prefixes(ones);
    && !(|set p | p in prefixes| < |prefixes|)
    && !("GFACT" in prefixes && "states" in prefixes)
    && !(|ones| == 1 && StartsWith(ones[0], "states"))
    && exists k :: 0 <= k < |VALID_PATTERNS| && Covers(ones, VALID_PATTERNS[k])
  }

  /** One row of the validation loop: the early `continue`s, then the pattern search
      that stops at the first match. */
  method CheckRow(ones: seq<string>) returns (valid: bool)
    ensures valid == RowAccepted(ones)
  {
    var prefixes := Prefixes(ones);
    if |set p | p in prefixes| < |prefixes| {
      return false;
    }
    if "GFACT" in prefixes && "states" in prefixes {
      return false;
    }
    if |ones| == 1 && StartsWith(ones[0], "states") {
      return false;
    }
    valid := false;
    var k := 0;
    while k < |VALID_PATTERNS|
      invariant 0 <= k <= |VALID_PATTERNS|
      invariant !valid
      invariant forall j :: 0 <= j < k ==> !Covers(ones, VALID_PATTERNS[j])
    {
      if Covers(ones, VALID_PATTERNS[k]) {
        valid := true;
        break;
      }
      k := k + 1;
    }
  }

  /** The distinct elements of a sequence are no more than its length, and as many
      exactly when nothing repeats. */
  lemma {:induction false} SetOfSeqCard<T>(xs: seq<T>)
    ensures |set x | x in xs| <= |xs|
    ensures |set x | x in xs| == |xs| <==> Distinct(xs)
    decreases |xs|
  {
    if xs != [] {
      var last := xs[|xs| - 1];
      var init := xs[..|xs| - 1];
      SetOfSeqCard(init);
      assert (set x | x in xs) == (set x | x in init) + {last};
      if last in init {
        assert (set x | x in xs) == (set x | x in init);
        var i :| 0 <= i < |init| && init[i] == last;
        assert xs[i] == xs[|xs| - 1];
      } else {
        if Distinct(init) {
          forall i, j | 0 <= i < j < |xs| ensures xs[i] != xs[j] {
            if j == |xs| - 1 {
              assert xs[i] in init;
            } else {
              assert xs[i] == init[i] && xs[j] == init[j];
            }
          }
        } else {
          var i, j :| 0 <= i < j < |init| && init[i] == init[j];
          assert xs[i] == xs[j];
        }
      }
    }
  }

  /** Two columns with the same prefix make a row invalid. */
  lemma SharedPrefixRejected(ones: seq<string>, i: int, j: int)
    requires 0 <= i < j < |ones|
    requires BeforeFirst(ones[i], '_') == BeforeFirst(ones[j], '_')
    ensures !RowAccepted(ones)
  {
    var prefixes := Prefixes(ones);
    SetOfSeqCard(prefixes);
    assert prefixes[i] == prefixes[j];
  }

  /** A row with a geofence-action column and a state column is invalid. */
  lemma GfactWithStateRejected(ones: seq<string>, i: int, j: int, a: string, s: string)
    requires 0 <= i < |ones| && 0 <= j < |ones|
    requires ones[i] == "GFACT_" + a && ones[j] == "states_" + s
    ensures !RowAccepted(ones)
  {
    BeforeFirstOf("GFACT", '_', a);
    BeforeFirstOf("states", '_', s);
    assert "GFACT_" + a == "GFACT" + ['_'] + a;
    assert "states_" + s == "states" + ['_'] + s;
    assert Prefixes(ones)[i] == "GFACT" && Prefixes(ones)[j] == "states";
  }

  /** A row with one column is valid exactly when that column is a geofence action:
      a lone state, mode or throttle column is rejected. */
  lemma LoneColumn(c: string)
    ensures RowAccepted([c]) <==> StartsWith(c, "GFACT")
  {
    var prefixes := Prefixes([c]);
    assert prefixes == [BeforeFirst(c, '_')];
    assert (set p | p in prefixes) == {prefixes[0]};
    if StartsWith(c, "GFACT") {
      assert Covers([c], VALID_PATTERNS[0]);
      assert c[0] == 'G';
    } else {
      forall k | 0 <= k < |VALID_PATTERNS| ensures !Covers([c], VALID_PATTERNS[k]) {
        if k >= 3 {
          var p0 := VALID_PATTERNS[k][0];
          var p1 := VALID_PATTERNS[k][1];
          assert p0 in VALID_PATTERNS[k] && p1 in VALID_PATTERNS[k];
          assert p0[0] != p1[0];
          assert !(StartsWith(c, p0) && StartsWith(c, p1)) by {
            if StartsWith(c, p0) {
              assert c[0] == p0[0];
            }
          }
        } else {
          assert "GFACT" in VALID_PATTERNS[k];
        }
      }
    }
  }

  /** The all-zero row is rejected. */
  lemma EmptyRowRejected()
    ensures !RowAccepted([])
  {
    forall k | 0 <= k < |VALID_PATTERNS| ensures !Covers([], VALID_PATTERNS[k]) {
      assert VALID_PATTERNS[k][0] in VALID_PATTERNS[k];
    }
  }

  /** The truth table of one feature combination: the 0/1 rows and their `result`
      column, `None` until a row is judged. */
  class TruthTable {
    const features: seq<string>
    const rows: seq<seq<int>>
    const result: array<Option<int>>

    predicate Valid()
      reads this
    {
      && rows == BitRows(|features|)
      && result.Length == |rows|
      && forall i :: 0 <= i < |rows| ==> |rows[i]| == |features|
    }

    /** `pd.DataFrame(itertools.product([0, 1], repeat=n))` with a `result` column of
        `None`. */
    constructor (features: seq<string>)
      ensures this.features == features && Valid() && fresh(result)
      ensures result.Length == Pow2(|features|)
      ensures forall i :: 0 <= i < result.Length ==> result[i] == None
    {
      this.features := features;
      var all := BitRows(|features|);
      BitRowsShape(|features|);
      rows := all;
      result := new Option<int>[|all|](_ => None);
    }

    /** The features row `i` sets to 1. */
    function Ones(i: int): seq<string>
      reads this
      requires Valid() && 0 <= i < |rows|
    {
      OnesColumns(features, rows[i])
    }

    /** `validate_combinations`: marks every rejected row with 0 and leaves the
        others as they are. */
    method ValidateCombinations()
      requires Valid()
      modifies result
      ensures forall i :: 0 <= i < result.Length ==>
        result[i] == if RowAccepted(Ones(i)) then old(result[i]) else Some(0)
    {
      var i := 0;
      while i < result.Length
        invariant 0 <= i <= result.Length
        invariant forall j :: 0 <= j < i ==>
          result[j] == if RowAccepted(Ones(j)) then old(result[j]) else Some(0)
        invariant forall j :: i <= j < result.Length ==> result[j] == old(result[j])
      {
        var valid := CheckRow(OnesColumns(features, rows[i]));
        if !valid {
          result[i] := Some(0);
        }
        i := i + 1;
      }
    }

    /** The probing loop of `run_pipeline`: every row still `None` gets the verdict its
        probe returned; rows already judged are skipped. */
    method RecordVerdicts(verdicts: seq<int>)
      requires Valid() && |verdicts| == result.Length
      modifies result
      ensures forall i :: 0 <= i < result.Length ==>
        result[i] == if old(result[i]).None? then Some(verdicts[i]) else old(result[i])
    {
      var i := 0;
      while i < result.Length
        invariant 0 <= i <= result.Length
        invariant forall j :: 0 <= j < i ==>
          result[j] == if old(result[j]).None? then Some(verdicts[j]) else old(result[j])
        invariant forall j :: i <= j < result.Length ==> result[j] == old(result[j])
      {
        if result[i].None? {
          result[i] := Some(verdicts[i]);
        }
        i := i + 1;
      }
    }
  }

  /** One feature combination of `run_pipeline`: build the table, reject the
      impossible rows, then probe the others. Rejected rows end with 0, the others
      with their probe's verdict. */
  method RunCombination(features: seq<string>, verdicts: seq<int>) returns (table: TruthTable)
    requires |verdicts| == Pow2(|features|)
    ensures table.Valid() && table.features == features && table.result.Length == |verdicts|
    ensures forall i :: 0 <= i < table.result.Length ==>
      table.result[i] == if RowAccepted(table.Ones(i)) then Some(verdicts[i]) else Some(0)
  {
    table := new TruthTable(features);
    table.ValidateCombinations();
    table.RecordVerdicts(verdicts);
  }

  /** The outer loop of `run_pipeline` counts combinations and stops when the count
      reaches 2, so only the first combination is ever processed. */
  method ProcessedCombinations(n: nat) returns (processed: seq<nat>)
    ensures processed == if n == 0 then [] else [0]
  {
    processed := [];
    var count := 0;
    var comb := 0;
    while comb < n
      invariant 0 <= comb <= n && count == comb
      invariant processed == if comb == 0 then [] else [0]
    {
      count := count + 1;
      if count >= 2 {
        break;
      }
      processed := processed + [comb];
      comb := comb + 1;
    }
  }

  // ---------------------------------------------------------------------------
  // Fuzz-test arguments from a row

  const GEOFENCE_ACTION: map<string, int> :=
    map["None" := 0, "Warning" := 1, "Hold" := 2, "Return" := 3, "Terminate" := 4, "Land" := 5]

  const MODES_MAP: map<string, string> :=
    map["LOITER" := "AUTO.LOITER", "RTL" := "AUTO.RTL", "LAND" := "AUTO.LAND"]

  const FLYING_STATES: seq<string> := ["BriarWaypoint", "BriarWaypoint2", "BriarWaypoint3"]

  /** `random.choice(xs)`, the draw given as any natural number. */
  function Pick<T>(xs: seq<T>, draw: nat): (r: T)
    requires |xs| > 0
    ensures r in xs
  {
    xs[draw % |xs|]
  }

  /** `int(float(s))` on decimal numerals only, with an optional sign and an optional
      fraction that is truncated; every other text is taken as the `ValueError` path. */
  function FloatToInt(s: string): (r: Option<int>)
  {
    var pieces := Split(s, '.');
    if |pieces| == 1 then ParseInt(s)
    else if |pieces| == 2 && ParseDigits(pieces[1]).Some? then
      if pieces[0] == "" || pieces[0] == "-" || pieces[0] == "+" then
        (if pieces[1] == "" then None else Some(0))
      else ParseInt(pieces[0])
    else None
  }

  /** The throttle index a physical throttle value stands for; the low values share
      indices 1 and 2, chosen at random, and a value outside the table stays the text
      it was. */
  function ThrottleIndex(v: int, text: string, draw: nat): Value
  {
    if v in [-100, 0, 225, 260] then Num(Pick([1, 2], draw))
    else if v in [100, 435, 550] then Num(3)
    else if v in [300, 445, 600] then Num(4)
    else if v in [570, 450, 615] then Num(5)
    else Str(text)
  }

  datatype ArgError = NoSeparator | NotANumber

  /** The dictionary key and the list entry one feature name contributes to
      `create_fuzz_args`, or the exception it raises. */
  function FuzzArg(combination: string, draw: nat): Result<(string, Value), ArgError>
  {
    match SplitOnce(combination, '_')
    case None => Err(NoSeparator)
    case Some((prefix, suffix)) => ArgFor(prefix, suffix, draw)
  }

  /** The translation of one feature name split into its prefix and suffix. */
  function ArgFor(prefix: string, suffix: string, draw: nat): Result<(string, Value), ArgError>
  {
    if prefix == "GFACT" then
      Ok(("geofence", if suffix in GEOFENCE_ACTION then Num(GEOFENCE_ACTION[suffix]) else Str(suffix)))
    else if prefix == "states" then
      Ok((prefix, Str(if suffix == "Hover" then "BriarHover"
                      else if suffix == "Flying" then Pick(FLYING_STATES, draw)
                      else suffix)))
    else if prefix == "modes" && suffix in MODES_MAP then Ok((prefix, Str(MODES_MAP[suffix])))
    else if prefix == "throttle" then
      match FloatToInt(suffix)
      case None => Err(NotANumber)
      case Some(v) => Ok((prefix, ThrottleIndex(v, suffix, draw)))
    else Ok((prefix, Str(suffix)))
  }

  /** How one feature name is translated: `FuzzArg`, passed as a value so that the
      loop's reasoning does not depend on the translation's cases. */
  type Translation = (string, nat) -> Result<(string, Value), ArgError>

  /** The pairs of a whole row, or the exception of its first failing name. */
  function PairsOf(translate: Translation, combinations: seq<string>, draws: seq<nat>): (r: Result<seq<(string, Value)>, ArgError>)
    requires |draws| == |combinations|
    ensures r.Ok? ==> |r.value| == |combinations|
  {
    if combinations == [] then Ok([])
    else
      var n := |combinations| - 1;
      match PairsOf(translate, combinations[..n], draws[..n])
      case Err(e) => Err(e)
      case Ok(ps) =>
        match translate(combinations[n], draws[n])
        case Err(e) => Err(e)
        case Ok(p) => Ok(ps + [p])
  }

  function FuzzArgPairs(combinations: seq<string>, draws: seq<nat>): (r: Result<seq<(string, Value)>, ArgError>)
    requires |draws| == |combinations|
  {
    PairsOf(FuzzArg, combinations, draws)
  }

  /** The lists under each key after appending the pairs in turn, where a value its
      list already holds is not appended again. */
  function Collect(pairs: seq<(string, Value)>): map<string, seq<Value>>
  {
    if pairs == [] then map[]
    else AddArg(Collect(pairs[..|pairs| - 1]), pairs[|pairs| - 1].0, pairs[|pairs| - 1].1)
  }

  /** `v` appended to the list under `key`, which starts empty, unless the list
      already holds it. */
  function AddArg(lists: map<string, seq<Value>>, key: string, v: Value): map<string, seq<Value>>
  {
    var list := if key in lists then lists[key] else [];
    lists[key := if v in list then list else list + [v]]
  }

  /** The two dictionary updates of one loop step. */
  method Append(lists: map<string, seq<Value>>, key: string, v: Value) returns (r: map<string, seq<Value>>)
    ensures r == AddArg(lists, key, v)
  {
    r := lists;
    if key !in r {
      r := r[key := []];
    }
    if v !in r[key] {
      r := r[key := r[key] + [v]];
    } else {
      assert r == r[key := r[key]];
    }
  }

  /** The keyword arguments of a fuzz test: the drone id and one list per key. */
  datatype FuzzArgs = FuzzArgs(droneId: string, lists: map<string, seq<Value>>)

  /** `create_fuzz_args`: the drone id, then every name of the row translated and
      appended under its key, or the exception of the first name that fails. */
  method CreateFuzzArgs(combinations: seq<string>, draws: seq<nat>) returns (r: Result<FuzzArgs, ArgError>)
    requires |draws| == |combinations|
    ensures r.Ok? <==> FuzzArgPairs(combinations, draws).Ok?
    ensures r.Ok? ==> r.value == FuzzArgs("Polkadot", Collect(FuzzArgPairs(combinations, draws).value))
    ensures r.Err? ==> r.error == FuzzArgPairs(combinations, draws).error
  {
    r := CollectArgs(FuzzArg, combinations, draws);
  }

  /** The loop of `create_fuzz_args`. */
  method CollectArgs(translate: Translation, combinations: seq<string>, draws: seq<nat>)
    returns (r: Result<FuzzArgs, ArgError>)
    requires |draws| == |combinations|
    ensures r.Ok? <==> PairsOf(translate, combinations, draws).Ok?
    ensures r.Ok? ==> r.value == FuzzArgs("Polkadot", Collect(PairsOf(translate, combinations, draws).value))
    ensures r.Err? ==> r.error == PairsOf(translate, combinations, draws).error
  {
    var lists: map<string, seq<Value>> := map[];
    var pairs: seq<(string, Value)> := [];
    var i := 0;
    while i < |combinations|
      invariant 0 <= i <= |combinations|
      invariant PairsOf(translate, combinations[..i], draws[..i]) == Ok(pairs)
      invariant lists == Collect(pairs)
    {
      var arg := translate(combinations[i], draws[i]);
      if arg.Err? {
        PairsFailAt(translate, combinations, draws, i, pairs);
        return Err(arg.error);
      }
      PairsGrowAt(translate, combinations, draws, i, pairs);
      CollectSnoc(pairs, arg.value);
      lists := Append(lists, arg.value.0, arg.value.1);
      pairs := pairs + [arg.value];
      i := i + 1;
    }
    assert combinations[..i] == combinations && draws[..i] == draws;
    return Ok(FuzzArgs("Polkadot", lists));
  }

  /** The pairs of a prefix one name longer. */
  lemma PairsExtend(translate: Translation, combinations: seq<string>, draws: seq<nat>, i: int)
    requires |draws| == |combinations| && 0 <= i < |combinations|
    ensures PairsOf(translate, combinations[..i + 1], draws[..i + 1])
      == match PairsOf(translate, combinations[..i], draws[..i])
         case Err(e) => Err(e)
         case Ok(ps) =>
           match translate(combinations[i], draws[i])
           case Err(e) => Err(e)
           case Ok(p) => Ok(ps + [p])
  {
    assert combinations[..i + 1][..i] == combinations[..i];
    assert draws[..i + 1][..i] == draws[..i];
  }

  /** A name that translates extends the pairs of the prefix. */
  lemma PairsGrowAt(translate: Translation, combinations: seq<string>, draws: seq<nat>, i: int, pairs: seq<(string, Value)>)
    requires |draws| == |combinations| && 0 <= i < |combinations|
    requires PairsOf(translate, combinations[..i], draws[..i]) == Ok(pairs)
    requires translate(combinations[i], draws[i]).Ok?
    ensures PairsOf(translate, combinations[..i + 1], draws[..i + 1]) == Ok(pairs + [translate(combinations[i], draws[i]).value])
  {
    PairsExtend(translate, combinations, draws, i);
  }

  /** A name that fails to translate after a good prefix fails the whole row. */
  lemma PairsFailAt(translate: Translation, combinations: seq<string>, draws: seq<nat>, i: int, pairs: seq<(string, Value)>)
    requires |draws| == |combinations| && 0 <= i < |combinations|
    requires PairsOf(translate, combinations[..i], draws[..i]) == Ok(pairs)
    requires translate(combinations[i], draws[i]).Err?
    ensures PairsOf(translate, combinations, draws) == Err(translate(combinations[i], draws[i]).error)
  {
    PairsExtend(translate, combinations, draws, i);
    PairsStopAt(translate, combinations, draws, i + 1);
  }

  /** Once a prefix of the row fails, the whole row fails with the same exception. */
  lemma {:induction false} PairsStopAt(translate: Translation, combinations: seq<string>, draws: seq<nat>, i: int)
    requires |draws| == |combinations| && 0 <= i <= |combinations|
    requires PairsOf(translate, combinations[..i], draws[..i]).Err?
    ensures PairsOf(translate, combinations, draws) == PairsOf(translate, combinations[..i], draws[..i])
    decreases |combinations| - i
  {
    if i < |combinations| {
      var n := |combinations| - 1;
      assert combinations[..n][..i] == combinations[..i];
      assert draws[..n][..i] == draws[..i];
      PairsStopAt(translate, combinations[..n], draws[..n], i);
    } else {
      assert combinations[..i] == combinations && draws[..i] == draws;
    }
  }

  /** Appending one pair updates only its key's list. */
  lemma CollectSnoc(pairs: seq<(string, Value)>, p: (string, Value))
    ensures Collect(pairs + [p]) == AddArg(Collect(pairs), p.0, p.1)
  {
    assert (pairs + [p])[..|pairs|] == pairs;
  }

  /** A key's list holds exactly the values paired with it, and every list is free of
      duplicates. */
  lemma {:induction false} CollectContents(pairs: seq<(string, Value)>, key: string, v: Value)
    ensures key in Collect(pairs) <==> exists i :: 0 <= i < |pairs| && pairs[i].0 == key
    ensures key in Collect(pairs) ==>
      (v in Collect(pairs)[key] <==> exists i :: 0 <= i < |pairs| && pairs[i] == (key, v))
    ensures key in Collect(pairs) ==> Distinct(Collect(pairs)[key])
    decreases |pairs|
  {
    if pairs != [] {
      var init := pairs[..|pairs| - 1];
      var last := pairs[|pairs| - 1];
      CollectContents(init, key, v);
      var m := Collect(init);
      if key in m {
        CollectContents(init, key, last.1);
      }
      assert forall i :: 0 <= i < |init| ==> init[i] == pairs[i];
      if exists i :: 0 <= i < |pairs| && pairs[i].0 == key {
        var i :| 0 <= i < |pairs| && pairs[i].0 == key;
        if i < |init| { assert init[i].0 == key; }
      }
      if key in Collect(pairs) && exists i :: 0 <= i < |pairs| && pairs[i] == (key, v) {
        var i :| 0 <= i < |pairs| && pairs[i] == (key, v);
        if i < |init| { assert init[i] == (key, v); }
      }
    }
  }

  /** A name `<prefix>_<suffix>` with no `_` in the prefix is translated from those
      two parts. */
  lemma FuzzArgOf(prefix: string, suffix: string, draw: nat)
    requires '_' !in prefix
    ensures FuzzArg(prefix + "_" + suffix, draw) == ArgFor(prefix, suffix, draw)
  {
    assert prefix + "_" + suffix == prefix + ['_'] + suffix;
    SplitOnceOf(prefix, '_', suffix);
  }

  /** A geofence-action feature becomes the action's code under `geofence`, and an
      action name outside the table is kept as text. */
  lemma GeofenceArg(action: string, draw: nat)
    ensures ArgFor("GFACT", action, draw)
      == Ok(("geofence", if action in GEOFENCE_ACTION then Num(GEOFENCE_ACTION[action]) else Str(action)))
  {
  }

  /** The mode abbreviations become the autopilot's mode names. */
  lemma ModeArg(mode: string, draw: nat)
    requires mode == "LOITER" || mode == "RTL" || mode == "LAND"
    ensures ArgFor("modes", mode, draw) == Ok(("modes", Str("AUTO." + mode)))
  {
    assert mode in MODES_MAP && MODES_MAP[mode] == "AUTO." + mode;
  }

  /** A throttle feature named by a physical throttle value becomes the value's table
      index: 3, 4 or 5 for the mid and high values, 1 or 2 for the low ones. */
  lemma ThrottleArg(v: int, draw: nat)
    ensures ArgFor("throttle", IntToString(v), draw)
      == Ok(("throttle", ThrottleIndex(v, IntToString(v), draw)))
    ensures v in [100, 435, 550] ==> ThrottleIndex(v, IntToString(v), draw) == Num(3)
    ensures v in [300, 445, 600] ==> ThrottleIndex(v, IntToString(v), draw) == Num(4)
    ensures v in [570, 450, 615] ==> ThrottleIndex(v, IntToString(v), draw) == Num(5)
    ensures v in [-100, 0, 225, 260] ==>
      ThrottleIndex(v, IntToString(v), draw) in [Num(1), Num(2)]
  {
    FloatToIntOfNumeral(v);
  }

  /** `int(float(str(v))) == v`. */
  lemma FloatToIntOfNumeral(v: int)
    ensures FloatToInt(IntToString(v)) == Some(v)
  {
    NoDotInNumeral(v);
    SplitNone(IntToString(v), '.');
    ParseIntToString(v);
  }

  lemma NoDotInNumeral(v: int)
    ensures '.' !in IntToString(v)
  {
    if v < 0 {
      NatToStringDigits(-v);
      assert IntToString(v) == "-" + NatToString(-v);
    } else {
      NatToStringDigits(v);
    }
  }

  /** The throttle tables read back: every entry of a table row buckets to its own
      index, the two lowest indices up to the random choice between 1 and 2. */
  lemma BucketsInvertTable(mode: Value, t: int, draw: nat)
    requires 1 <= t <= 5
    ensures var v := ThrottleRow(mode)[t - 1];
      if t >= 3 then ThrottleIndex(v, IntToString(v), draw) == Num(t)
      else ThrottleIndex(v, IntToString(v), draw) in [Num(1), Num(2)]
  {
  }

  // ---------------------------------------------------------------------------
  // The pipeline's own decision: the rule chain, then the throttle relabelling

  /** The bucket name a throttle value is relabelled with, or the number itself. */
  function ThrottleLabel(v: int): string
  {
    if v in [-100, 0, 225, 260] then "Low"
    else if v in [100, 435, 550] then "Mid"
    else if v in [300, 445, 600, 570, 450, 615] then "High"
    else IntToString(v)
  }

  /** One entry of `ones_columns` after the relabelling, or the exception it raises. */
  function RewriteColumn(col: string): Result<string, RuleError>
  {
    if !Contains(col, "throttle") then Ok(col)
    else match SecondPart(col)
      case None => Err(MissingPart)
      case Some(num) =>
        match ParseInt(num)
        case None => Err(NotAnInteger)
        case Some(v) => Ok("throttle_" + ThrottleLabel(v))
  }

  /** The relabelling loop, in place: on an exception the entries before the failing
      one are already rewritten and the rest are untouched. */
  method RewriteThrottles(cols: array<string>) returns (err: Option<RuleError>)
    modifies cols
    ensures err.None? ==> forall i :: 0 <= i < cols.Length ==>
      RewriteColumn(old(cols[i])).Ok? && cols[i] == RewriteColumn(old(cols[i])).value
    ensures err.Some? ==> exists k :: (0 <= k < cols.Length
      && RewriteColumn(old(cols[k])) == Err(err.value)
      && (forall i :: 0 <= i < k ==> RewriteColumn(old(cols[i])).Ok? && cols[i] == RewriteColumn(old(cols[i])).value)
      && (forall i :: k <= i < cols.Length ==> cols[i] == old(cols[i])))
  {
    var i := 0;
    while i < cols.Length
      invariant 0 <= i <= cols.Length
      invariant forall j :: 0 <= j < i ==>
        RewriteColumn(old(cols[j])).Ok? && cols[j] == RewriteColumn(old(cols[j])).value
      invariant forall j :: i <= j < cols.Length ==> cols[j] == old(cols[j])
    {
      var bucket := RewriteColumn(cols[i]);
      if bucket.Err? {
        return Some(bucket.error);
      }
      cols[i] := bucket.value;
      i := i + 1;
    }
    return None;
  }

  /** `decision_tree` of the pipeline: the verdict of the rule chain, after which
      the throttle entries of `ones_columns` are relabelled in place. */
  method PipelineDecision(o: Outcome, cols: array<string>) returns (r: Result<int, RuleError>)
    modifies cols
    ensures Anomaly(o, old(cols[..])).Err? ==>
      r == Err(Anomaly(o, old(cols[..])).error) && cols[..] == old(cols[..])
    ensures r.Ok? ==> (Anomaly(o, old(cols[..])).Ok?
      && (r.value == 1 <==> Anomaly(o, old(cols[..])).value)
      && (r.value == 0 <==> !Anomaly(o, old(cols[..])).value))
    ensures r.Ok? <==> (Anomaly(o, old(cols[..])).Ok?
      && forall i :: 0 <= i < cols.Length ==> RewriteColumn(old(cols[i])).Ok?)
    ensures r.Ok? ==> forall i :: 0 <= i < cols.Length ==> cols[i] == RewriteColumn(old(cols[i])).value
    ensures Anomaly(o, old(cols[..])).Ok? && r.Err? ==> exists k :: (0 <= k < cols.Length
      && RewriteColumn(old(cols[k])) == Err(r.error)
      && (forall i :: 0 <= i < k ==> RewriteColumn(old(cols[i])).Ok? && cols[i] == RewriteColumn(old(cols[i])).value)
      && (forall i :: k <= i < cols.Length ==> cols[i] == old(cols[i])))
  {
    var verdict := Classify(o, cols[..]);
    if verdict.Err? {
      return Err(verdict.error);
    }
    var err := RewriteThrottles(cols);
    if err.Some? {
      return Err(err.value);
    }
    r := Ok(if verdict.value then 1 else 0);
  }

  /** A column `throttle_<text>` with no `_` in the text is relabelled from the text. */
  lemma ThrottleColumn(text: string)
    requires '_' !in text
    ensures Contains("throttle_" + text, "throttle") && SecondPart("throttle_" + text) == Some(text)
  {
    var col := "throttle_" + text;
    ContainsInfix("", "throttle", "_" + text);
    assert col == "" + "throttle" + ("_" + text);
    assert col == "throttle" + ['_'] + text;
    SplitTwo("throttle", '_', text);
  }

  /** A throttle entry named by a listed value is relabelled by its bucket. */
  lemma RelabelBuckets(v: int)
    ensures RewriteColumn("throttle_" + IntToString(v)) == Ok("throttle_" + ThrottleLabel(v))
    ensures v in [-100, 0, 225, 260] ==> ThrottleLabel(v) == "Low"
    ensures v in [100, 435, 550] ==> ThrottleLabel(v) == "Mid"
    ensures v in [300, 445, 600, 570, 450, 615] ==> ThrottleLabel(v) == "High"
  {
    var text := IntToString(v);
    NatToStringDigits(if v < 0 then -v else v);
    assert '_' !in text by {
      if v < 0 { assert text == "-" + NatToString(-v); }
    }
    ThrottleColumn(text);
    ParseIntToString(v);
  }

  /** The relabelling cannot run twice: a bucket name is not a number, so a second
      pass raises `ValueError`. */
  lemma RelabelNotRepeatable(bucket: string)
    requires bucket == "Low" || bucket == "Mid" || bucket == "High"
    ensures RewriteColumn("throttle_" + bucket) == Err(NotAnInteger)
  {
    ThrottleColumn(bucket);
    assert !IsDigit(bucket[|bucket| - 1]);
  }

  /** Columns that do not mention throttle are left as they are. */
  lemma RelabelKeepsOthers(col: string)
    requires !Contains(col, "throttle")
    ensures RewriteColumn(col) == Ok(col)
  {
  }
}
