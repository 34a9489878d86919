/**
  The fuzz test scenario of ClusteringFT/Fuzz/entities.py: the combination
  generator with its per-mode throttle remapping, the kind string `fuzz_type`,
  the removal of states from combinations, and the command template that a
  combination is filled into.
*/
module FuzzEntities {
  import opened Wrappers
  import opened Strings

  /** A field of a test tuple; the Python tuples mix strings and integers. */
  datatype Value = Str(s: string) | Num(n: int)

  /** One test combination, a Python tuple `(mode?, throttle?, context)`. */
  type Combination = seq<Value>

  /** The argument lists of a `Fuzz_Test`; an empty list means "not part of the test". */
  datatype FuzzSpec = FuzzSpec(modes: seq<Value>, states: seq<Value>, geofence: seq<Value>, throttle: seq<Value>)

  /** Why generation raises: no context list (`variable_list` unbound), or a throttle
      entry that is not an integer or indexes outside its table row. */
  datatype GenError = NoContext | BadThrottle

  const STABILIZED_ROW: seq<int> := [0, 225, 435, 445, 450]
  const POSCTL_ROW: seq<int> := [0, 260, 550, 600, 615]

  /** MODE_TO_THROTTLE: the physical throttle values of the indices 1..5, per mode. */
  const MODE_TO_THROTTLE: map<Value, seq<int>> :=
    map[Str("STABILIZED") := STABILIZED_ROW, Str("POSCTL") := POSCTL_ROW, Str("ALTCTL") := POSCTL_ROW]

  /** The table row used for `mode`: modes outside the table use the POSCTL row. */
  function ThrottleRow(mode: Value): (row: seq<int>)
    ensures |row| == 5
    ensures row == (if mode == Str("STABILIZED") then STABILIZED_ROW else POSCTL_ROW)
  {
    if mode in MODE_TO_THROTTLE then MODE_TO_THROTTLE[mode] else MODE_TO_THROTTLE[Str("POSCTL")]
  }

  /** Python `xs[i]`: negative indices count from the end; anything else raises `IndexError`. */
  function PyIndex(xs: seq<int>, i: int): (r: Option<int>)
    ensures r.Some? <==> -|xs| <= i < |xs|
    ensures 0 <= i < |xs| ==> r == Some(xs[i])
  {
    if 0 <= i < |xs| then Some(xs[i])
    else if -|xs| <= i < 0 then Some(xs[|xs| + i])
    else None
  }

  /** Each table row lists five distinct values, so the indices 1..5 never collide. */
  lemma RowsAreInjective(mode: Value, t1: int, t2: int)
    requires 1 <= t1 <= 5 && 1 <= t2 <= 5
    requires ThrottleRow(mode)[t1 - 1] == ThrottleRow(mode)[t2 - 1]
    ensures t1 == t2
  {
  }

  // ---------------------------------------------------------------------------
  // The kind string

  /** The list the test is scoped against: the geofence actions when there are
      any (the states are then ignored), the states otherwise. */
  function ContextList(spec: FuzzSpec): seq<Value>
  {
    if spec.geofence != [] then spec.geofence else spec.states
  }

  predicate HasContext(spec: FuzzSpec)
  {
    spec.geofence != [] || spec.states != []
  }

  /** `fuzz_type` as `generate_combinations` builds it from an empty string. */
  function FuzzTypeOf(spec: FuzzSpec): string
  {
    var mode := if spec.modes != [] then "_mode" else "";
    var throttle := if spec.throttle != [] then "_throttle" else "";
    if spec.geofence != [] then "geo" + mode + throttle + "_geo"
    else if spec.states != [] then "state" + mode + throttle
    else ""
  }

  /** The pieces `fuzz_type` is built from. */
  predicate KindPieces(head: string, mode: string, throttle: string, tail: string)
  {
    && (head == "geo" || head == "state")
    && (mode == "" || mode == "_mode")
    && (throttle == "" || throttle == "_throttle")
    && (tail == (if head == "geo" then "_geo" else ""))
  }

  /** The head of the kind, "geo" or "state", is the only place either word occurs. */
  lemma HeadFlag(word: string, head: string, mode: string, throttle: string, tail: string)
    requires KindPieces(head, mode, throttle, tail) && (word == "geo" || word == "state")
    ensures Contains(head + mode + throttle + tail, word) <==> head == word
  {
    var kind := head + mode + throttle + tail;
    if head == word {
      ContainsInfix("", word, mode + throttle + tail);
      assert kind == "" + word + (mode + throttle + tail);
    } else {
      OtherHeadLacks(word, head, mode, throttle, tail);
    }
  }

  /** With the other head, the first letter of `word` appears in no piece. */
  lemma OtherHeadLacks(word: string, head: string, mode: string, throttle: string, tail: string)
    requires KindPieces(head, mode, throttle, tail) && (word == "geo" || word == "state")
    requires head != word
    ensures !Contains(head + mode + throttle + tail, word)
  {
    var c := word[0];
    assert c !in mode && c !in throttle;
    if word == "geo" {
      assert head == "state" && tail == "";
      assert c !in head;
    } else {
      assert head == "geo" && tail == "_geo";
      assert c !in head && c !in tail;
    }
    CharAbsentFromPieces(c, head, mode, throttle, tail);
    NotContainsFirstCharAbsent(head + mode + throttle + tail, word);
  }

  /** A character none of the four pieces holds is absent from their join. */
  lemma CharAbsentFromPieces(c: char, head: string, mode: string, throttle: string, tail: string)
    requires c !in head && c !in mode && c !in throttle && c !in tail
    ensures c !in head + mode + throttle + tail
  {
  }

  /** `word` follows an underscore inside a kind string. */
  lemma WordAfterUnderscore(a: string, word: string, b: string)
    ensures Contains(a + ("_" + word) + b, word)
  {
    ContainsInfix(a + "_", word, b);
    assert a + ("_" + word) + b == (a + "_") + word + b;
  }

  lemma ModeWordFlag(head: string, mode: string, throttle: string, tail: string)
    requires KindPieces(head, mode, throttle, tail)
    ensures Contains(head + mode + throttle + tail, "mode") <==> mode != ""
  {
    var ft := head + mode + throttle + tail;
    if mode != "" {
      assert mode == "_" + "mode";
      WordAfterUnderscore(head, "mode", throttle + tail);
      assert ft == head + ("_" + "mode") + (throttle + tail);
    } else {
      assert 'm' !in head && 'm' !in throttle && 'm' !in tail;
      assert ft == head + throttle + tail;
      NotContainsFirstCharAbsent(ft, "mode");
    }
  }

  lemma ModeFieldFlag(head: string, mode: string, throttle: string, tail: string)
    requires KindPieces(head, mode, throttle, tail)
    ensures Contains(head + mode + throttle + tail, "_mode") <==> mode != ""
  {
    var ft := head + mode + throttle + tail;
    if mode != "" {
      ContainsInfix(head, "_mode", throttle + tail);
      assert ft == head + "_mode" + (throttle + tail);
    } else {
      assert 'm' !in ft;
      NotContainsLaterCharAbsent(ft, "_mode", 1);
    }
  }

  lemma ModeFlag(head: string, mode: string, throttle: string, tail: string)
    requires KindPieces(head, mode, throttle, tail)
    ensures Contains(head + mode + throttle + tail, "mode") <==> mode != ""
    ensures Contains(head + mode + throttle + tail, "_mode") <==> mode != ""
  {
    ModeWordFlag(head, mode, throttle, tail);
    ModeFieldFlag(head, mode, throttle, tail);
  }

  lemma ThrottleWordFlag(head: string, mode: string, throttle: string, tail: string)
    requires KindPieces(head, mode, throttle, tail)
    ensures Contains(head + mode + throttle + tail, "throttle") <==> throttle != ""
  {
    var ft := head + mode + throttle + tail;
    if throttle != "" {
      assert throttle == "_" + "throttle";
      WordAfterUnderscore(head + mode, "throttle", tail);
      assert ft == (head + mode) + ("_" + "throttle") + tail;
    } else {
      assert 'h' !in head && 'h' !in mode && 'h' !in tail;
      assert ft == head + mode + tail;
      NotContainsLaterCharAbsent(ft, "throttle", 1);
    }
  }

  lemma ThrottleFieldFlag(head: string, mode: string, throttle: string, tail: string)
    requires KindPieces(head, mode, throttle, tail)
    ensures Contains(head + mode + throttle + tail, "_throttle") <==> throttle != ""
  {
    var ft := head + mode + throttle + tail;
    if throttle != "" {
      ContainsInfix(head + mode, "_throttle", tail);
      assert ft == (head + mode) + "_throttle" + tail;
    } else {
      assert 'h' !in ft;
      NotContainsLaterCharAbsent(ft, "_throttle", 2);
    }
  }

  lemma ThrottleFlag(head: string, mode: string, throttle: string, tail: string)
    requires KindPieces(head, mode, throttle, tail)
    ensures Contains(head + mode + throttle + tail, "throttle") <==> throttle != ""
    ensures Contains(head + mode + throttle + tail, "_throttle") <==> throttle != ""
  {
    ThrottleWordFlag(head, mode, throttle, tail);
    ThrottleFieldFlag(head, mode, throttle, tail);
  }

  /** The substring tests that the rest of the program applies to `fuzz_type` recover
      exactly the shape of the test: "geo" for geofence scope, "state" for state
      scope, "mode" / "_mode" for modes, "throttle" / "_throttle" for throttle. */
  lemma FuzzTypeFlags(spec: FuzzSpec)
    requires HasContext(spec)
    ensures Contains(FuzzTypeOf(spec), "geo") <==> spec.geofence != []
    ensures Contains(FuzzTypeOf(spec), "state") <==> spec.geofence == []
    ensures Contains(FuzzTypeOf(spec), "mode") <==> spec.modes != []
    ensures Contains(FuzzTypeOf(spec), "_mode") <==> spec.modes != []
    ensures Contains(FuzzTypeOf(spec), "throttle") <==> spec.throttle != []
    ensures Contains(FuzzTypeOf(spec), "_throttle") <==> spec.throttle != []
  {
    var mode := if spec.modes != [] then "_mode" else "";
    var throttle := if spec.throttle != [] then "_throttle" else "";
    var head := if spec.geofence != [] then "geo" else "state";
    var tail := if spec.geofence != [] then "_geo" else "";
    assert FuzzTypeOf(spec) == head + mode + throttle + tail;
    HeadFlag("geo", head, mode, throttle, tail);
    HeadFlag("state", head, mode, throttle, tail);
    ModeFlag(head, mode, throttle, tail);
    ThrottleFlag(head, mode, throttle, tail);
  }

  /** The kind string names a state campaign exactly when there are no geofence actions. */
  lemma StateKindFlag(spec: FuzzSpec)
    requires HasContext(spec)
    ensures Contains(FuzzTypeOf(spec), "state") <==> spec.geofence == []
  {
    FuzzTypeFlags(spec);
  }

  /** The kind string names a geofence campaign exactly when there are geofence actions. */
  lemma GeoKindFlag(spec: FuzzSpec)
    requires HasContext(spec)
    ensures Contains(FuzzTypeOf(spec), "geo") <==> spec.geofence != []
  {
    FuzzTypeFlags(spec);
  }

  /** A string one of whose characters does not occur in `s` is not a substring of `s`. */
  lemma {:induction false} NotContainsLaterCharAbsent(s: string, t: string, k: nat)
    requires k < |t| && t[k] !in s
    ensures !Contains(s, t)
    decreases |s|
  {
    if |t| <= |s| {
      assert s[k] in s;
      assert s[..|t|][k] == s[k];
    }
    if |s| > 0 {
      assert forall c :: c in s[1..] ==> c in s;
      NotContainsLaterCharAbsent(s[1..], t, k);
    }
  }

  // ---------------------------------------------------------------------------
  // The Cartesian product

  /** `[x] + p` for every `p` in `rest`. */
  function Prefixed(x: Value, rest: set<Combination>): set<Combination>
  {
    set p | p in rest :: [x] + p
  }

  /** Every `x` of `xs` in front of every tuple of `rest`. */
  function ProductWith(xs: seq<Value>, rest: set<Combination>): set<Combination>
  {
    if xs == [] then {} else Prefixed(xs[0], rest) + ProductWith(xs[1..], rest)
  }

  /** `set(itertools.product(*lists))`. */
  function ProductSet(lists: seq<seq<Value>>): set<Combination>
  {
    if lists == [] then {[]} else ProductWith(lists[0], ProductSet(lists[1..]))
  }

  lemma {:induction false} ProductWithMembership(xs: seq<Value>, rest: set<Combination>, c: Combination)
    ensures c in ProductWith(xs, rest) <==> |c| > 0 && c[0] in xs && c[1..] in rest
    decreases |xs|
  {
    if xs != [] {
      ProductWithMembership(xs[1..], rest, c);
      if |c| > 0 && c[0] == xs[0] && c[1..] in rest {
        assert c == [xs[0]] + c[1..];
      }
      assert |c| > 0 && c[0] in xs ==> c[0] == xs[0] || c[0] in xs[1..];
    }
  }

  /** A tuple is in the product exactly when it has one field per list and each field
      comes from its own list, in the lists' order. */
  lemma {:induction false} ProductSetMembership(lists: seq<seq<Value>>, c: Combination)
    ensures c in ProductSet(lists) <==> |c| == |lists| && forall i :: 0 <= i < |c| ==> c[i] in lists[i]
    decreases |lists|
  {
    if lists != [] {
      ProductWithMembership(lists[0], ProductSet(lists[1..]), c);
      if |c| > 0 {
        ProductSetMembership(lists[1..], c[1..]);
        if |c| == |lists| && forall i :: 0 <= i < |c| ==> c[i] in lists[i] {
          assert forall i :: 0 <= i < |c[1..]| ==> c[1..][i] == c[i + 1];
        }
        if c[0] in lists[0] && c[1..] in ProductSet(lists[1..]) {
          forall i | 0 <= i < |c| ensures c[i] in lists[i] {
            if i > 0 { assert c[i] == c[1..][i - 1]; }
          }
        }
      }
    } else {
      assert c in {[]} <==> c == [];
    }
  }

  lemma {:induction false} PrefixedCard(x: Value, rest: set<Combination>)
    ensures |Prefixed(x, rest)| == |rest|
    decreases |rest|
  {
    if rest != {} {
      var p :| p in rest;
      var smaller := rest - {p};
      PrefixedCard(x, smaller);
      assert Prefixed(x, rest) == Prefixed(x, smaller) + {[x] + p};
      forall q | q in smaller ensures [x] + q != [x] + p {
        assert ([x] + q)[1..] == q && ([x] + p)[1..] == p;
      }
    } else {
      assert Prefixed(x, rest) == {};
    }
  }

  lemma {:induction false} ProductWithCard(xs: seq<Value>, rest: set<Combination>)
    requires Distinct(xs)
    ensures |ProductWith(xs, rest)| == |xs| * |rest|
    decreases |xs|
  {
    if xs != [] {
      var tail := xs[1..];
      assert Distinct(tail) by {
        forall i, j | 0 <= i < j < |tail| ensures tail[i] != tail[j] {
          assert tail[i] == xs[i + 1] && tail[j] == xs[j + 1];
        }
      }
      ProductWithCard(tail, rest);
      PrefixedCard(xs[0], rest);
      assert xs[0] !in tail by {
        forall j | 0 <= j < |tail| ensures tail[j] != xs[0] {
          assert tail[j] == xs[j + 1];
        }
      }
      PrefixedDisjoint(xs[0], tail, rest);
      var a := Prefixed(xs[0], rest);
      var b := ProductWith(tail, rest);
      assert ProductWith(xs, rest) == a + b;
      assert |a + b| == |a| + |b|;
      assert |xs| * |rest| == |rest| + |tail| * |rest| by {
        assert |xs| == |tail| + 1;
      }
    }
  }

  /** Tuples starting with `x` are not among those starting with an element of `xs`
      when `x` is not in `xs`. */
  lemma PrefixedDisjoint(x: Value, xs: seq<Value>, rest: set<Combination>)
    requires x !in xs
    ensures Prefixed(x, rest) !! ProductWith(xs, rest)
  {
    forall c | c in Prefixed(x, rest) ensures c !in ProductWith(xs, rest) {
      ProductWithMembership(xs, rest, c);
      assert c[0] == x;
    }
  }

  /** No value occurs twice in `xs`. */
  predicate Distinct<T(==)>(xs: seq<T>)
  {
    forall i, j :: 0 <= i < j < |xs| ==> xs[i] != xs[j]
  }

  /** The product of the lengths of `lists`. */
  function LengthProduct(lists: seq<seq<Value>>): nat
  {
    if lists == [] then 1 else |lists[0]| * LengthProduct(lists[1..])
  }

  /** Over duplicate-free lists, the product has one tuple per choice of one field
      from each list. */
  lemma {:induction false} ProductSetCard(lists: seq<seq<Value>>)
    requires forall i :: 0 <= i < |lists| ==> Distinct(lists[i])
    ensures |ProductSet(lists)| == LengthProduct(lists)
    decreases |lists|
  {
    if lists != [] {
      ProductSetCard(lists[1..]);
      ProductWithCard(lists[0], ProductSet(lists[1..]));
    }
  }

  // ---------------------------------------------------------------------------
  // Generation

  /** `non_empty_lists`: the non-empty ones of modes, throttle and the context, in that order. */
  function NonEmptyLists(spec: FuzzSpec): seq<seq<Value>>
  {
    (if spec.modes != [] then [spec.modes] else [])
    + (if spec.throttle != [] then [spec.throttle] else [])
    + (if ContextList(spec) != [] then [ContextList(spec)] else [])
  }

  /** `lists.index(l)`: the first position holding a list equal to `l`. */
  function ListIndex(lists: seq<seq<Value>>, l: seq<Value>): (r: Option<nat>)
    ensures r.Some? ==> r.value < |lists| && lists[r.value] == l
    ensures r.None? <==> l !in lists
    ensures r.Some? ==> forall j :: 0 <= j < r.value ==> lists[j] != l
  {
    if lists == [] then None
    else if lists[0] == l then Some(0)
    else match ListIndex(lists[1..], l)
      case None => None
      case Some(i) => Some(i + 1)
  }

  /** The remapping of one product tuple: the throttle index at the throttle position
      becomes the physical value of the mode's table row. */
  function RemapOne(spec: FuzzSpec, lists: seq<seq<Value>>, c: Combination): Result<Combination, GenError>
    requires |c| == |lists|
  {
    var modeIndex := ListIndex(lists, spec.modes);
    var throttleIndex := ListIndex(lists, spec.throttle);
    var mode := if modeIndex.Some? then c[modeIndex.value] else Str("POSCTL");
    var row := ThrottleRow(mode);
    if throttleIndex.None? || !c[throttleIndex.value].Num? then Err(BadThrottle)
    else match PyIndex(row, c[throttleIndex.value].n - 1)
      case None => Err(BadThrottle)
      case Some(v) => Ok(c[throttleIndex.value := Num(v)])
  }

  /** `generate_combinations`: the product of the non-empty lists, with the throttle
      field remapped when the test has throttle values. */
  function Generate(spec: FuzzSpec): (r: Result<set<Combination>, GenError>)
  {
    if !HasContext(spec) then Err(NoContext)
    else
      var lists := NonEmptyLists(spec);
      var all := ProductSet(lists);
      if spec.throttle == [] then Ok(all)
      else if exists c :: c in all && |c| == |lists| && RemapOne(spec, lists, c).Err? then Err(BadThrottle)
      else Ok(Remapped(spec, lists, all))
  }

  /** The remapped tuples of `cs`. */
  function Remapped(spec: FuzzSpec, lists: seq<seq<Value>>, cs: set<Combination>): set<Combination>
  {
    set c | c in cs && |c| == |lists| && RemapOne(spec, lists, c).Ok? :: RemapOne(spec, lists, c).value
  }

  /** A spec whose lists hold what the program passes: mode names, throttle indices
      1..5 and no repeated entries. */
  predicate WellFormed(spec: FuzzSpec)
  {
    && (forall m :: m in spec.modes ==> m.Str?)
    && (forall t :: t in spec.throttle ==> t.Num? && 1 <= t.n <= 5)
    && Distinct(spec.modes) && Distinct(spec.throttle) && Distinct(ContextList(spec))
  }

  /** Without a geofence action and without a state the generator fails. */
  lemma GenerateNeedsContext(spec: FuzzSpec)
    ensures Generate(spec).Err? && Generate(spec).error == NoContext <==> !HasContext(spec)
  {
  }

  /** The number of fields of a generated tuple. */
  function Arity(spec: FuzzSpec): nat
  {
    (if spec.modes != [] then 1 else 0) + (if spec.throttle != [] then 1 else 0) + 1
  }

  /** Where the throttle field sits in a generated tuple. */
  function ThrottlePos(spec: FuzzSpec): nat
  {
    if spec.modes != [] then 1 else 0
  }

  /** The mode a tuple's throttle is looked up under. */
  function ModeField(spec: FuzzSpec, c: Combination): Value
    requires |c| > 0
  {
    if spec.modes != [] then c[0] else Str("POSCTL")
  }

  /** What a generated tuple of `spec` looks like: a mode from the modes when there are
      modes, then the physical throttle value of one of the throttle indices under
      that mode's table row, then an entry of the context list, last. */
  predicate InCampaign(spec: FuzzSpec, c: Combination)
  {
    && |c| == Arity(spec)
    && c[|c| - 1] in ContextList(spec)
    && (spec.modes != [] ==> c[0] in spec.modes)
    && (spec.throttle != [] ==> IsThrottleOf(spec, c))
  }

  /** The throttle field of `c` is the physical value of one of the throttle indices. */
  predicate IsThrottleOf(spec: FuzzSpec, c: Combination)
    requires |c| > ThrottlePos(spec)
  {
    exists t :: t in spec.throttle && t.Num? && 1 <= t.n <= 5
      && c[ThrottlePos(spec)] == Num(ThrottleRow(ModeField(spec, c))[t.n - 1])
  }

  /** The non-empty lists line up with the field positions of `InCampaign`. */
  lemma ListPositions(spec: FuzzSpec)
    requires HasContext(spec) && WellFormed(spec)
    ensures |NonEmptyLists(spec)| == Arity(spec)
    ensures NonEmptyLists(spec)[Arity(spec) - 1] == ContextList(spec)
    ensures spec.modes != [] ==> NonEmptyLists(spec)[0] == spec.modes
    ensures spec.throttle != [] ==> NonEmptyLists(spec)[ThrottlePos(spec)] == spec.throttle
    ensures ListIndex(NonEmptyLists(spec), spec.modes) == (if spec.modes != [] then Some(0) else None)
    ensures spec.throttle != [] ==> ListIndex(NonEmptyLists(spec), spec.throttle) == Some(ThrottlePos(spec))
  {
    var lists := NonEmptyLists(spec);
    if spec.modes == [] {
      assert forall i :: 0 <= i < |lists| ==> lists[i] != [];
    }
    if spec.modes != [] && spec.throttle != [] {
      assert spec.modes[0] in spec.modes;
      assert spec.throttle[0] in spec.throttle;
      var m: Value := lists[0][0];
      var t: Value := lists[1][0];
      assert m.Str? && t.Num?;
    }
  }

  /** The throttle replacement of `RemapOne`, on a tuple whose throttle field is an
      index 1..5. */
  function SwapThrottle(spec: FuzzSpec, c: Combination): Combination
    requires |c| > ThrottlePos(spec) && c[ThrottlePos(spec)].Num? && 1 <= c[ThrottlePos(spec)].n <= 5
  {
    c[ThrottlePos(spec) := Num(ThrottleRow(ModeField(spec, c))[c[ThrottlePos(spec)].n - 1])]
  }

  /** Over a well-formed spec every product tuple remaps, to its throttle field replaced. */
  lemma RemapProductTuple(spec: FuzzSpec, c: Combination)
    requires HasContext(spec) && WellFormed(spec) && spec.throttle != []
    requires c in ProductSet(NonEmptyLists(spec))
    ensures |c| == Arity(spec) && c[ThrottlePos(spec)] in spec.throttle
    ensures c[ThrottlePos(spec)].Num? && 1 <= c[ThrottlePos(spec)].n <= 5
    ensures RemapOne(spec, NonEmptyLists(spec), c) == Ok(SwapThrottle(spec, c))
  {
    ListPositions(spec);
    ProductSetMembership(NonEmptyLists(spec), c);
    assert c[ThrottlePos(spec)] in NonEmptyLists(spec)[ThrottlePos(spec)];
  }

  /** With no throttle values the campaign is the plain product. */
  lemma GenerateWithoutThrottle(spec: FuzzSpec, c: Combination)
    requires HasContext(spec) && WellFormed(spec) && spec.throttle == []
    ensures Generate(spec) == Ok(ProductSet(NonEmptyLists(spec)))
    ensures c in Generate(spec).value <==> InCampaign(spec, c)
  {
    var lists := NonEmptyLists(spec);
    ListPositions(spec);
    ProductSetMembership(lists, c);
    if InCampaign(spec, c) {
      forall i | 0 <= i < |c| ensures c[i] in lists[i] {
        if spec.modes != [] && i == 0 { } else { assert i == |c| - 1; }
      }
    }
  }

  /** With throttle values the campaign is the remapped product. */
  lemma GenerateWithThrottle(spec: FuzzSpec)
    requires HasContext(spec) && WellFormed(spec) && spec.throttle != []
    ensures Generate(spec) == Ok(Remapped(spec, NonEmptyLists(spec), ProductSet(NonEmptyLists(spec))))
  {
    var lists := NonEmptyLists(spec);
    forall c0 | c0 in ProductSet(lists) && |c0| == |lists| ensures RemapOne(spec, lists, c0).Ok? {
      RemapProductTuple(spec, c0);
    }
  }

  /** Swapping the throttle index of a tuple drawn from the lists gives a tuple of
      the campaign's shape. */
  lemma SwapInCampaign(spec: FuzzSpec, c0: Combination)
    requires spec.throttle != []
    requires |c0| == Arity(spec) && c0[|c0| - 1] in ContextList(spec)
    requires spec.modes != [] ==> c0[0] in spec.modes
    requires c0[ThrottlePos(spec)] in spec.throttle
    requires c0[ThrottlePos(spec)].Num? && 1 <= c0[ThrottlePos(spec)].n <= 5
    ensures InCampaign(spec, SwapThrottle(spec, c0))
  {
    var c := SwapThrottle(spec, c0);
    var t := c0[ThrottlePos(spec)];
    assert ModeField(spec, c) == ModeField(spec, c0);
    assert c[|c| - 1] == c0[|c0| - 1];
    assert c[ThrottlePos(spec)] == Num(ThrottleRow(ModeField(spec, c))[t.n - 1]);
  }

  /** Every remapped tuple has the campaign's shape. */
  lemma RemappedInCampaign(spec: FuzzSpec, c: Combination)
    requires HasContext(spec) && WellFormed(spec) && spec.throttle != []
    requires c in Remapped(spec, NonEmptyLists(spec), ProductSet(NonEmptyLists(spec)))
    ensures InCampaign(spec, c)
  {
    var lists := NonEmptyLists(spec);
    ListPositions(spec);
    var c0 :| c0 in ProductSet(lists) && |c0| == |lists| && RemapOne(spec, lists, c0).Ok?
      && RemapOne(spec, lists, c0).value == c;
    RemapProductTuple(spec, c0);
    ProductSetMembership(lists, c0);
    assert c0[|c0| - 1] in lists[|lists| - 1];
    assert spec.modes != [] ==> c0[0] in lists[0];
    SwapInCampaign(spec, c0);
  }

  /** Putting the throttle index back into a tuple of the campaign's shape gives a
      product tuple. */
  lemma UnswapInProduct(spec: FuzzSpec, c: Combination, t: Value)
    requires HasContext(spec) && WellFormed(spec) && spec.throttle != []
    requires InCampaign(spec, c) && t in spec.throttle
    ensures c[ThrottlePos(spec) := t] in ProductSet(NonEmptyLists(spec))
  {
    var lists := NonEmptyLists(spec);
    var tp := ThrottlePos(spec);
    ListPositions(spec);
    var c0 := c[tp := t];
    forall i | 0 <= i < |c0| ensures c0[i] in lists[i] {
      if i == tp { } else if spec.modes != [] && i == 0 { } else { assert i == |c| - 1; }
    }
    ProductSetMembership(lists, c0);
  }

  /** Every tuple of the campaign's shape is a remapped product tuple. */
  lemma InCampaignRemapped(spec: FuzzSpec, c: Combination)
    requires HasContext(spec) && WellFormed(spec) && spec.throttle != []
    requires InCampaign(spec, c)
    ensures c in Remapped(spec, NonEmptyLists(spec), ProductSet(NonEmptyLists(spec)))
  {
    var lists := NonEmptyLists(spec);
    var tp := ThrottlePos(spec);
    var t :| t in spec.throttle && t.Num? && 1 <= t.n <= 5 &&
      c[tp] == Num(ThrottleRow(ModeField(spec, c))[t.n - 1]);
    var c0 := c[tp := t];
    UnswapInProduct(spec, c, t);
    RemapProductTuple(spec, c0);
    SwapBack(spec, c, t);
    RemappedMember(spec, lists, ProductSet(lists), c0);
  }

  /** Swapping the index back in and remapping it again restores the tuple. */
  lemma SwapBack(spec: FuzzSpec, c: Combination, t: Value)
    requires |c| > ThrottlePos(spec) && t.Num? && 1 <= t.n <= 5
    requires c[ThrottlePos(spec)] == Num(ThrottleRow(ModeField(spec, c))[t.n - 1])
    ensures SwapThrottle(spec, c[ThrottlePos(spec) := t]) == c
  {
    var tp := ThrottlePos(spec);
    var c0 := c[tp := t];
    assert ModeField(spec, c0) == ModeField(spec, c);
    assert c0[tp := Num(ThrottleRow(ModeField(spec, c0))[c0[tp].n - 1])] == c;
  }

  lemma RemappedMember(spec: FuzzSpec, lists: seq<seq<Value>>, cs: set<Combination>, c: Combination)
    requires c in cs && |c| == |lists| && RemapOne(spec, lists, c).Ok?
    ensures RemapOne(spec, lists, c).value in Remapped(spec, lists, cs)
  {
  }

  /** A tuple is generated exactly when it has the campaign's shape: generation
      neither loses nor invents combinations. */
  lemma GenerateShape(spec: FuzzSpec, c: Combination)
    requires HasContext(spec) && WellFormed(spec)
    ensures Generate(spec).Ok?
    ensures c in Generate(spec).value <==> InCampaign(spec, c)
  {
    if spec.throttle == [] {
      GenerateWithoutThrottle(spec, c);
    } else {
      GenerateWithThrottle(spec);
      if c in Generate(spec).value {
        RemappedInCampaign(spec, c);
      }
      if InCampaign(spec, c) {
        InCampaignRemapped(spec, c);
      }
    }
  }

  /** Replacing throttle indices 1..5 by table values never merges two tuples. */
  lemma SwapInjective(spec: FuzzSpec, c1: Combination, c2: Combination)
    requires |c1| == |c2| > ThrottlePos(spec)
    requires c1[ThrottlePos(spec)].Num? && 1 <= c1[ThrottlePos(spec)].n <= 5
    requires c2[ThrottlePos(spec)].Num? && 1 <= c2[ThrottlePos(spec)].n <= 5
    requires SwapThrottle(spec, c1) == SwapThrottle(spec, c2)
    ensures c1 == c2
  {
    var tp := ThrottlePos(spec);
    var r := SwapThrottle(spec, c1);
    assert forall i :: 0 <= i < |c1| && i != tp ==> c1[i] == r[i] == c2[i];
    var row := ThrottleRow(ModeField(spec, c1));
    assert ModeField(spec, c1) == ModeField(spec, c2);
    assert r[tp] == Num(row[c1[tp].n - 1]) == Num(row[c2[tp].n - 1]);
    RowsAreInjective(ModeField(spec, c1), c1[tp].n, c2[tp].n);
  }

  /** Remapping is injective on the product of a well-formed spec. */
  lemma RemapInjective(spec: FuzzSpec, c1: Combination, c2: Combination)
    requires HasContext(spec) && WellFormed(spec) && spec.throttle != []
    requires c1 in ProductSet(NonEmptyLists(spec)) && c2 in ProductSet(NonEmptyLists(spec))
    requires |c1| == |NonEmptyLists(spec)| && |c2| == |NonEmptyLists(spec)|
    requires RemapOne(spec, NonEmptyLists(spec), c1) == RemapOne(spec, NonEmptyLists(spec), c2)
    ensures c1 == c2
  {
    RemapProductTuple(spec, c1);
    RemapProductTuple(spec, c2);
    SwapInjective(spec, c1, c2);
  }

  /** Taking one remappable tuple out of `cs` takes exactly its image out of the
      remapped set. */
  lemma RemappedSplit(spec: FuzzSpec, lists: seq<seq<Value>>, cs: set<Combination>, c: Combination)
    requires c in cs && |c| == |lists| && RemapOne(spec, lists, c).Ok?
    ensures Remapped(spec, lists, cs) == Remapped(spec, lists, cs - {c}) + {RemapOne(spec, lists, c).value}
  {
  }

  lemma {:induction false} RemappedCard(spec: FuzzSpec, cs: set<Combination>)
    requires HasContext(spec) && WellFormed(spec) && spec.throttle != []
    requires cs <= ProductSet(NonEmptyLists(spec))
    ensures |Remapped(spec, NonEmptyLists(spec), cs)| == |cs|
    decreases |cs|
  {
    var lists := NonEmptyLists(spec);
    if cs == {} {
      assert Remapped(spec, lists, cs) == {};
    } else {
      var c :| c in cs;
      var smaller := cs - {c};
      RemappedCard(spec, smaller);
      RemapProductTuple(spec, c);
      ListPositions(spec);
      RemappedSplit(spec, lists, cs, c);
      var r := RemapOne(spec, lists, c).value;
      if r in Remapped(spec, lists, smaller) {
        var d :| d in smaller && |d| == |lists| && RemapOne(spec, lists, d).Ok? && RemapOne(spec, lists, d).value == r;
        RemapInjective(spec, c, d);
      }
    }
  }

  /** Over duplicate-free lists the campaign holds one combination per choice of a
      mode, a throttle index and a context entry. */
  lemma GenerateSize(spec: FuzzSpec)
    requires HasContext(spec) && WellFormed(spec)
    ensures Generate(spec).Ok?
    ensures |Generate(spec).value| == LengthProduct(NonEmptyLists(spec))
  {
    var lists := NonEmptyLists(spec);
    ListPositions(spec);
    forall i | 0 <= i < |lists| ensures Distinct(lists[i]) {
      if spec.modes != [] && i == 0 { } else if spec.throttle != [] && i == ThrottlePos(spec) { } else {
        assert i == |lists| - 1;
      }
    }
    ProductSetCard(lists);
    if spec.throttle != [] {
      forall c0 | c0 in ProductSet(lists) && |c0| == |lists| ensures RemapOne(spec, lists, c0).Ok? {
        RemapProductTuple(spec, c0);
      }
      RemappedCard(spec, ProductSet(lists));
    }
  }

  /** A throttle entry that is not an integer, or whose index falls outside the table
      row even with Python's negative indexing, makes the whole generation fail. */
  lemma GenerateRejectsBadThrottle(spec: FuzzSpec, t: Value)
    requires HasContext(spec) && t in spec.throttle
    requires !t.Num? || t.n < -4 || t.n > 5
    ensures Generate(spec) == Err(BadThrottle)
  {
    var lists := NonEmptyLists(spec);
    var c: Combination := [];
    var i := 0;
    while i < |lists|
      invariant 0 <= i <= |lists| && |c| == i
      invariant forall j :: 0 <= j < i ==> c[j] in lists[j]
      invariant forall j :: 0 <= j < i && lists[j] == spec.throttle ==> c[j] == t
    {
      assert lists[i] != [];
      var x := if lists[i] == spec.throttle then t else lists[i][0];
      c := c + [x];
      i := i + 1;
    }
    ProductSetMembership(lists, c);
    var ti := ListIndex(lists, spec.throttle);
    assert spec.throttle in lists;
    assert c[ti.value] == t;
    assert RemapOne(spec, lists, c).Err?;
  }

  // ---------------------------------------------------------------------------
  // Removing the states

  /** One tuple of `remove_states_from_combinations`: its fields that are not states, in order. */
  function WithoutStates(c: Combination, states: seq<Value>): (r: Combination)
    ensures |r| <= |c|
  {
    if c == [] then []
    else (if c[0] in states then [] else [c[0]]) + WithoutStates(c[1..], states)
  }

  /** The positions, counted from `off`, of the fields of `c` that are not states. */
  function KeptFrom(c: Combination, states: seq<Value>, off: nat): (pos: seq<nat>)
    ensures |pos| <= |c|
    ensures forall k :: 0 <= k < |pos| ==> off <= pos[k] < off + |c|
  {
    if c == [] then []
    else (if c[0] in states then [] else [off]) + KeptFrom(c[1..], states, off + 1)
  }

  /** There are as many positions as fields in the reduced tuple. */
  lemma {:induction false} KeptFromLength(c: Combination, states: seq<Value>, off: nat)
    ensures |KeptFrom(c, states, off)| == |WithoutStates(c, states)|
    decreases |c|
  {
    if c != [] {
      KeptFromLength(c[1..], states, off + 1);
    }
  }

  /** The reduced tuple's `k`-th field is the field at the `k`-th position, not a state. */
  lemma {:induction false} KeptFromReads(c: Combination, states: seq<Value>, off: nat, k: nat)
    requires k < |KeptFrom(c, states, off)|
    ensures k < |WithoutStates(c, states)|
    ensures c[KeptFrom(c, states, off)[k] - off] !in states
    ensures WithoutStates(c, states)[k] == c[KeptFrom(c, states, off)[k] - off]
    decreases |c|
  {
    KeptFromLength(c, states, off);
    assert c != [];
    var pos := KeptFrom(c, states, off);
    var r := WithoutStates(c, states);
    var tail := KeptFrom(c[1..], states, off + 1);
    var rest := WithoutStates(c[1..], states);
    KeptFromLength(c[1..], states, off + 1);
    var h: seq<nat> := if c[0] in states then [] else [off];
    var hr: Combination := if c[0] in states then [] else [c[0]];
    assert pos == h + tail;
    assert r == hr + rest;
    if k < |h| {
      assert pos[0] == off && r[0] == c[0];
    } else {
      var k' := k - |h|;
      assert pos[k] == tail[k'] && r[k] == rest[k'];
      KeptFromReads(c[1..], states, off + 1, k');
      var i := tail[k'] - (off + 1);
      assert c[1..][i] == c[i + 1];
    }
  }

  /** The positions increase. */
  lemma {:induction false} KeptFromIncreasing(c: Combination, states: seq<Value>, off: nat)
    ensures forall k, l :: 0 <= k < l < |KeptFrom(c, states, off)| ==>
      KeptFrom(c, states, off)[k] < KeptFrom(c, states, off)[l]
    decreases |c|
  {
    if c != [] {
      KeptFromIncreasing(c[1..], states, off + 1);
    }
  }

  /** Every non-state field is at one of the positions. */
  lemma {:induction false} KeptFromCovers(c: Combination, states: seq<Value>, off: nat)
    ensures forall j :: 0 <= j < |c| && c[j] !in states ==> off + j in KeptFrom(c, states, off)
    decreases |c|
  {
    if c != [] {
      KeptFromCovers(c[1..], states, off + 1);
      var pos := KeptFrom(c, states, off);
      var tail := KeptFrom(c[1..], states, off + 1);
      assert pos == (if c[0] in states then [] else [off]) + tail;
      forall j | 0 < j < |c| && c[j] !in states ensures off + j in pos {
        assert c[1..][j - 1] == c[j];
        assert off + 1 + (j - 1) in tail;
      }
    }
  }

  /** `pos` lists, in increasing order, exactly the positions of `c` that hold no state. */
  ghost predicate KeptPositions(c: Combination, states: seq<Value>, pos: seq<nat>)
  {
    && (forall k :: 0 <= k < |pos| ==> pos[k] < |c| && c[pos[k]] !in states)
    && (forall k, l :: 0 <= k < l < |pos| ==> pos[k] < pos[l])
    && (forall j :: 0 <= j < |c| && c[j] !in states ==> j in pos)
  }

  /** The generator keeps the order: the reduced tuple reads the tuple's non-state
      fields at increasing positions, every one of them once. */
  lemma WithoutStatesInOrder(c: Combination, states: seq<Value>)
    ensures KeptPositions(c, states, KeptFrom(c, states, 0))
    ensures |KeptFrom(c, states, 0)| == |WithoutStates(c, states)|
    ensures forall k :: 0 <= k < |KeptFrom(c, states, 0)| ==>
      WithoutStates(c, states)[k] == c[KeptFrom(c, states, 0)[k]]
  {
    KeptFromLength(c, states, 0);
    forall k | 0 <= k < |KeptFrom(c, states, 0)|
      ensures c[KeptFrom(c, states, 0)[k]] !in states
      ensures WithoutStates(c, states)[k] == c[KeptFrom(c, states, 0)[k]]
    {
      KeptFromReads(c, states, 0, k);
    }
    KeptFromIncreasing(c, states, 0);
    KeptFromCovers(c, states, 0);
  }

  /** The reduced tuple holds exactly the tuple's fields that are not states. */
  lemma WithoutStatesMembers(c: Combination, states: seq<Value>)
    ensures forall v :: v in WithoutStates(c, states) <==> v in c && v !in states
  {
    WithoutStatesInOrder(c, states);
    var pos := KeptFrom(c, states, 0);
    var r := WithoutStates(c, states);
    assert KeptPositions(c, states, pos);
    forall v ensures v in r <==> v in c && v !in states {
      if v in r {
        var k :| 0 <= k < |r| && r[k] == v;
        assert c[pos[k]] == v;
      }
      if v in c && v !in states {
        var j :| 0 <= j < |c| && c[j] == v;
        var k :| 0 <= k < |pos| && pos[k] == j;
        assert r[k] == v;
      }
    }
  }

  /** `remove_states_from_combinations`. */
  function RemoveStates(cs: set<Combination>, states: seq<Value>): set<Combination>
  {
    set c | c in cs :: WithoutStates(c, states)
  }

  /** A tuple with no state among its leading fields and a state as its last field
      loses exactly that last field. */
  lemma {:induction false} WithoutTrailingState(c: Combination, states: seq<Value>)
    requires |c| > 0 && c[|c| - 1] in states
    requires forall i :: 0 <= i < |c| - 1 ==> c[i] !in states
    ensures WithoutStates(c, states) == c[..|c| - 1]
    decreases |c|
  {
    if |c| > 1 {
      WithoutTrailingState(c[1..], states);
      assert c[1..][..|c| - 2] == c[1..|c| - 1];
      assert c[..|c| - 1] == [c[0]] + c[1..|c| - 1];
    }
  }

  /** Every tuple without its last field. */
  function DropLast(cs: set<Combination>): set<Combination>
  {
    set c | c in cs && |c| > 0 :: c[..|c| - 1]
  }

  /** In a state campaign whose modes are not states and whose states are names, the
      (mode, throttle) pairs left after removing the states are exactly the generated
      tuples without their last field. */
  lemma StateCampaignPairs(spec: FuzzSpec)
    requires spec.geofence == [] && spec.states != [] && WellFormed(spec)
    requires forall m :: m in spec.modes ==> m !in spec.states
    requires forall s :: s in spec.states ==> s.Str?
    ensures Generate(spec).Ok?
    ensures RemoveStates(Generate(spec).value, spec.states) == DropLast(Generate(spec).value)
  {
    GenerateShape(spec, []);
    var cs := Generate(spec).value;
    forall c | c in cs ensures WithoutStates(c, spec.states) == c[..|c| - 1] {
      GenerateShape(spec, c);
      forall i | 0 <= i < |c| - 1 ensures c[i] !in spec.states {
        if spec.modes != [] && i == 0 {
        } else {
          assert spec.throttle != [] && i == ThrottlePos(spec);
          var t :| t in spec.throttle && t.Num? && 1 <= t.n <= 5 &&
            c[ThrottlePos(spec)] == Num(ThrottleRow(ModeField(spec, c))[t.n - 1]);
        }
      }
      WithoutTrailingState(c, spec.states);
    }
    assert forall c :: c in cs ==> |c| > 0 by {
      forall c | c in cs ensures |c| > 0 {
        GenerateShape(spec, c);
      }
    }
  }

  // ---------------------------------------------------------------------------
  // Commands

  /** The tuple positions `setup_command_structure` records; `None` is an attribute
      that is never set. */
  datatype CommandIndices = CommandIndices(mode: Option<nat>, throttle: Option<nat>, geofence: Option<nat>)

  /** `setup_command_structure`: positions counted up in the order mode, throttle, geofence. */
  function IndicesOf(fuzzType: string): CommandIndices
  {
    var hasMode := Contains(fuzzType, "mode");
    var hasThrottle := Contains(fuzzType, "throttle");
    var throttleAt: nat := if hasMode then 1 else 0;
    var geoAt: nat := throttleAt + (if hasThrottle then 1 else 0);
    CommandIndices(
      if hasMode then Some(0) else None,
      if hasThrottle then Some(throttleAt) else None,
      if Contains(fuzzType, "geo") then Some(geoAt) else None)
  }

  /** The recorded positions are the positions of the mode, the throttle value and the
      geofence action in every generated tuple; a state campaign records no geofence
      position, so its last field, the state, is never sent. */
  lemma CommandIndicesMatchFields(spec: FuzzSpec)
    requires HasContext(spec)
    ensures IndicesOf(FuzzTypeOf(spec)).mode == (if spec.modes != [] then Some(0) else None)
    ensures IndicesOf(FuzzTypeOf(spec)).throttle == (if spec.throttle != [] then Some(ThrottlePos(spec)) else None)
    ensures IndicesOf(FuzzTypeOf(spec)).geofence == (if spec.geofence != [] then Some(Arity(spec) - 1) else None)
  {
    FuzzTypeFlags(spec);
  }

  /** The services a command is made of, the keys of the command template:
      `set_param` (the geofence action parameter), `set_mode` and `set_throttle`. */
  datatype Service = SetParam | SetMode | SetThrottle

  /** The keys of the services' request dictionaries: `param_id` and `value` of
      `set_param`, `custom_mode` of `set_mode`, `throttle_value` of `set_throttle`. */
  datatype FieldKey = ParamIdKey | ValueKey | CustomModeKey | ThrottleValueKey

  /** The keys of `create_command_template`. */
  function TemplateKeys(fuzzType: string): set<Service>
  {
    (if Contains(fuzzType, "geo") then {SetParam} else {})
    + (if Contains(fuzzType, "_mode") then {SetMode} else {})
    + (if Contains(fuzzType, "_throttle") then {SetThrottle} else {})
  }

  /** A ROS `ParamValue(integer, real)`. */
  datatype ParamValue = ParamValue(integer: Value, realValue: real)

  /** An entry of a command dictionary: `None`, a text, a tuple field, or a parameter value. */
  datatype Field = Unset | Text(text: string) | Val(v: Value) | Param(p: ParamValue)

  /** One inner dictionary of the command template. It is an object because
      `populate_command` copies the template shallowly: every command built from the
      template shares, and overwrites, the template's inner dictionaries. */
  class CommandParams {
    var fields: map<FieldKey, Field>

    constructor (fields: map<FieldKey, Field>)
      ensures this.fields == fields
    {
      this.fields := fields;
    }
  }

  /** The template holds one distinct dictionary per command kind of `fuzzType`, with
      the keys `create_command_template` gives it. */
  ghost predicate TemplateShaped(template: map<Service, CommandParams>, fuzzType: string)
    reads template.Values
  {
    template.Keys == TemplateKeys(fuzzType) && DictionariesShaped(template)
  }

  /** Distinct dictionaries, each with the keys of its service. */
  ghost predicate DictionariesShaped(template: map<Service, CommandParams>)
    reads template.Values
  {
    && (forall k1, k2 :: k1 in template && k2 in template && k1 != k2 ==> template[k1] != template[k2])
    && (SetParam in template ==>
          template[SetParam].fields.Keys == {ParamIdKey, ValueKey}
          && template[SetParam].fields[ParamIdKey] == Text("GF_ACTION"))
    && (SetMode in template ==> template[SetMode].fields.Keys == {CustomModeKey})
    && (SetThrottle in template ==> template[SetThrottle].fields.Keys == {ThrottleValueKey})
  }

  /** The dictionaries of `create_command_template` for the services chosen by the
      three flags, each fresh and with every value `None` but the parameter name. */
  method NewTemplate(geo: bool, mode: bool, throttle: bool) returns (template: map<Service, CommandParams>)
    ensures template.Keys == (if geo then {SetParam} else {}) + (if mode then {SetMode} else {})
                             + (if throttle then {SetThrottle} else {})
    ensures forall k :: k in template ==> template[k].fields == InitialFields(k)
    ensures forall k1, k2 :: k1 in template && k2 in template && k1 != k2 ==> template[k1] != template[k2]
    ensures fresh(template.Values)
  {
    template := map[];
    if geo {
      var p := new CommandParams(InitialFields(SetParam));
      template := template[SetParam := p];
    }
    if mode {
      var p := new CommandParams(InitialFields(SetMode));
      template := template[SetMode := p];
    }
    if throttle {
      var p := new CommandParams(InitialFields(SetThrottle));
      template := template[SetThrottle := p];
    }
  }

  /** Distinct dictionaries with their initial entries are shaped and unset. */
  lemma InitialShaped(template: map<Service, CommandParams>)
    requires forall k :: k in template ==> template[k].fields == InitialFields(k)
    requires forall k1, k2 :: k1 in template && k2 in template && k1 != k2 ==> template[k1] != template[k2]
    ensures DictionariesShaped(template) && AllUnset(template)
  {
  }

  /** A service's dictionary as `create_command_template` writes it. */
  function InitialFields(s: Service): map<FieldKey, Field>
  {
    match s
    case SetParam => map[ParamIdKey := Text("GF_ACTION"), ValueKey := Unset]
    case SetMode => map[CustomModeKey := Unset]
    case SetThrottle => map[ThrottleValueKey := Unset]
  }

  /** Every entry but the parameter name is still `None`. */
  ghost predicate AllUnset(template: map<Service, CommandParams>)
    reads template.Values
  {
    forall k :: k in template ==> forall f :: f in template[k].fields && f != ParamIdKey ==>
      template[k].fields[f] == Unset
  }

  /** A recorded position exists exactly when the matching command exists, and the
      positions grow in the order mode, throttle, geofence. */
  lemma IndicesHaveCommands(spec: FuzzSpec)
    requires HasContext(spec)
    ensures IndexedCommands(IndicesOf(FuzzTypeOf(spec)), TemplateKeys(FuzzTypeOf(spec)))
  {
    FuzzTypeFlags(spec);
  }

  /** A position is recorded exactly for each service present, in ascending order. */
  predicate IndexedCommands(ix: CommandIndices, services: set<Service>)
  {
    && (ix.mode.Some? <==> SetMode in services)
    && (ix.throttle.Some? <==> SetThrottle in services)
    && (ix.geofence.Some? <==> SetParam in services)
    && Ascending(ix)
  }

  /** Each recorded position lies beyond the earlier recorded ones. */
  predicate Ascending(ix: CommandIndices)
  {
    && (ix.mode.Some? && ix.throttle.Some? ==> ix.mode.value < ix.throttle.value)
    && (ix.mode.Some? && ix.geofence.Some? ==> ix.mode.value < ix.geofence.value)
    && (ix.throttle.Some? && ix.geofence.Some? ==> ix.throttle.value < ix.geofence.value)
  }

  /** The kind, the combinations and the positions are those of the test `spec`. */
  ghost predicate ConfiguredFor(spec: FuzzSpec, fuzzType: string, combos: set<Combination>, indices: CommandIndices)
  {
    && fuzzType == FuzzTypeOf(spec)
    && HasContext(spec)
    && Generate(spec).Ok? && combos == Generate(spec).value
    && indices == IndicesOf(fuzzType)
  }

  /** `setup_command_structure`: counts the positions up in the order mode, throttle,
      geofence. */
  method SetupCommandStructure(fuzzType: string) returns (ix: CommandIndices)
    ensures ix == IndicesOf(fuzzType)
  {
    var index: nat := 0;
    var mode: Option<nat> := None;
    var throttle: Option<nat> := None;
    var geofence: Option<nat> := None;
    if Contains(fuzzType, "mode") {
      mode := Some(index);
      index := index + 1;
    }
    if Contains(fuzzType, "throttle") {
      throttle := Some(index);
      index := index + 1;
    }
    if Contains(fuzzType, "geo") {
      geofence := Some(index);
    }
    ix := CommandIndices(mode, throttle, geofence);
  }

  /** `create_command_template`: one fresh dictionary per command kind of the test,
      every value still `None`. */
  method CreateCommandTemplate(fuzzType: string) returns (template: map<Service, CommandParams>)
    ensures TemplateShaped(template, fuzzType) && AllUnset(template)
    ensures fresh(template.Values)
  {
    template := NewTemplate(Contains(fuzzType, "geo"), Contains(fuzzType, "_mode"), Contains(fuzzType, "_throttle"));
    InitialShaped(template);
  }

  /** What `__post_init__` sets up for a test whose combinations can be generated. */
  lemma SetupFacts(spec: FuzzSpec)
    requires Generate(spec).Ok?
    ensures ConfiguredFor(spec, "" + FuzzTypeOf(spec), Generate(spec).value, IndicesOf(FuzzTypeOf(spec)))
    ensures IndexedCommands(IndicesOf(FuzzTypeOf(spec)), TemplateKeys(FuzzTypeOf(spec)))
  {
    GenerateNeedsContext(spec);
    IndicesHaveCommands(spec);
    assert "" + FuzzTypeOf(spec) == FuzzTypeOf(spec);
  }

  /** `Fuzz_Test`. */
  class FuzzTest {
    const droneId: string
    const spec: FuzzSpec
    var fuzzType: string
    var testCombinations: set<Combination>
    var indices: CommandIndices
    var commandTemplate: map<Service, CommandParams>

    ghost predicate Valid()
      reads this, commandTemplate.Values
    {
      Configured() && Commands()
    }

    /** The template's dictionaries are shaped, and a position is recorded exactly for
        the commands the template holds, in ascending order. */
    ghost predicate Commands()
      reads this, commandTemplate.Values
    {
      TemplateShaped(commandTemplate, fuzzType) && IndexedCommands(indices, commandTemplate.Keys)
    }

    /** The kind, the combinations and the positions are those of the test `spec`. */
    ghost predicate Configured()
      reads this
    {
      ConfiguredFor(spec, fuzzType, testCombinations, indices)
    }

    /** `__post_init__` on a test whose combinations can be generated:
        `generate_combinations` appends the kind to the empty `fuzz_type` and yields the
        combinations, then the positions and the template are set up from the kind. */
    constructor (droneId: string, spec: FuzzSpec)
      requires Generate(spec).Ok?
      ensures this.droneId == droneId && this.spec == spec
      ensures testCombinations == Generate(spec).value
      ensures Valid() && fresh(commandTemplate.Values)
    {
      this.droneId := droneId;
      this.spec := spec;
      var kind := "" + FuzzTypeOf(spec);
      fuzzType := kind;
      testCombinations := Generate(spec).value;
      var ix := SetupCommandStructure(kind);
      indices := ix;
      var template := CreateCommandTemplate(kind);
      commandTemplate := template;
      SetupFacts(spec);
    }

    /** `populate_command`: writes the tuple's fields into the template's dictionaries and
        returns the template itself (a shallow copy shares them). A recorded position
        beyond the tuple raises `IndexError` (`ok` false) after the earlier fields were
        written; since positions grow in the order mode, throttle, geofence, each
        dictionary is written exactly when its own position lies inside the tuple. */
    method PopulateCommand(t: Combination) returns (command: map<Service, CommandParams>, ok: bool)
      requires Commands()
      modifies commandTemplate.Values
      ensures Commands()
      ensures command == commandTemplate
      ensures ok <==> Fits(indices.mode, t) && Fits(indices.throttle, t) && Fits(indices.geofence, t)
      ensures SetMode in command ==>
        command[SetMode].fields == Written(old(command[SetMode].fields), CustomModeKey, indices.mode, t, false)
      ensures SetThrottle in command ==>
        command[SetThrottle].fields == Written(old(command[SetThrottle].fields), ThrottleValueKey, indices.throttle, t, false)
      ensures SetParam in command ==>
        command[SetParam].fields == Written(old(command[SetParam].fields), ValueKey, indices.geofence, t, true)
    {
      command := commandTemplate;
      ok := true;
      if indices.mode.Some? {
        if indices.mode.value >= |t| {
          ok := false;
          return;
        }
        WriteEntry(SetMode, CustomModeKey, indices.mode, t, false);
      }
      if indices.throttle.Some? {
        if indices.throttle.value >= |t| {
          ok := false;
          return;
        }
        WriteEntry(SetThrottle, ThrottleValueKey, indices.throttle, t, false);
      }
      if indices.geofence.Some? {
        if indices.geofence.value >= |t| {
          ok := false;
          return;
        }
        WriteEntry(SetParam, ValueKey, indices.geofence, t, true);
      }
    }

    /** One assignment of `populate_command`: the entry `key` of the dictionary of
        service `s` becomes the tuple's field at `index`; the other dictionaries stay. */
    method WriteEntry(s: Service, key: FieldKey, index: Option<nat>, t: Combination, wrap: bool)
      requires Commands() && s in commandTemplate && key in commandTemplate[s].fields && key != ParamIdKey
      modifies commandTemplate[s]
      ensures Commands()
      ensures commandTemplate[s].fields == Written(old(commandTemplate[s].fields), key, index, t, wrap)
      ensures forall k :: k in commandTemplate && k != s ==> commandTemplate[k].fields == old(commandTemplate[k].fields)
    {
      var p := commandTemplate[s];
      p.fields := Written(p.fields, key, index, t, wrap);
    }
  }

  /** A dictionary after `populate_command` wrote field `t[index]` under `key`, wrapped
      in a `ParamValue` for the geofence parameter; unchanged when there is no such field. */
  function Written(fields: map<FieldKey, Field>, key: FieldKey, index: Option<nat>, t: Combination, wrap: bool): map<FieldKey, Field>
  {
    if index.Some? && index.value < |t| then
      fields[key := if wrap then Param(ParamValue(t[index.value], 0.0)) else Val(t[index.value])]
    else fields
  }

  /** A recorded position, if any, lies inside the tuple. */
  predicate Fits(index: Option<nat>, t: Combination)
  {
    index.Some? ==> index.value < |t|
  }

  /** A geofence test with one mode, one throttle index and one action is one combination. */
  lemma SingleGeofenceCombination(spec: FuzzSpec, m: Value, t: Value, g: Value)
    requires spec == FuzzSpec([m], [], [g], [t]) && m.Str? && t.Num? && 1 <= t.n <= 5
    ensures Generate(spec) == Ok({[m, Num(ThrottleRow(m)[t.n - 1]), g]})
  {
    var expected: Combination := [m, Num(ThrottleRow(m)[t.n - 1]), g];
    assert IsThrottleOf(spec, expected) by {
      assert t in spec.throttle;
    }
    GenerateShape(spec, expected);
    forall c | c in Generate(spec).value ensures c == expected {
      GenerateShape(spec, c);
      SingleShape(spec, m, t, g, c);
    }
    OnlyMember(Generate(spec).value, expected);
  }

  /** The one tuple of that shape. */
  lemma SingleShape(spec: FuzzSpec, m: Value, t: Value, g: Value, c: Combination)
    requires spec == FuzzSpec([m], [], [g], [t]) && m.Str? && t.Num? && 1 <= t.n <= 5
    requires InCampaign(spec, c)
    ensures c == [m, Num(ThrottleRow(m)[t.n - 1]), g]
  {
    var t' :| t' in spec.throttle && t'.Num? && 1 <= t'.n <= 5 &&
      c[ThrottlePos(spec)] == Num(ThrottleRow(ModeField(spec, c))[t'.n - 1]);
    assert t' == t;
    assert c == [c[0], c[1], c[2]];
  }

  lemma OnlyMember(cs: set<Combination>, c: Combination)
    requires c in cs && forall d :: d in cs ==> d == c
    ensures cs == {c}
  {
  }

  /** The geofence-return-to-launch test with mode AUTO.RTL and throttle index 5: one
      combination, the throttle turned into POSCTL's top value 615. */
  lemma RtlGeofenceExample(spec: FuzzSpec)
    requires spec == FuzzSpec([Str("AUTO.RTL")], [], [Num(1)], [Num(5)])
    ensures Generate(spec) == Ok({[Str("AUTO.RTL"), Num(615), Num(1)]})
  {
    SingleGeofenceCombination(spec, Str("AUTO.RTL"), Num(5), Num(1));
    assert ThrottleRow(Str("AUTO.RTL")) == POSCTL_ROW;
  }

  /** Its kind string names all three parts and the geofence scope. */
  lemma RtlGeofenceKind(spec: FuzzSpec)
    requires spec == FuzzSpec([Str("AUTO.RTL")], [], [Num(1)], [Num(5)])
    ensures FuzzTypeOf(spec) == "geo_mode_throttle_geo"
  {
  }
}
