/**
  The post-processing of the clustering step (ClusteringFT/Clustering.py):
  `sort_and_arrange` orders each cluster's features by type and importance,
  and `generate_combinations` draws four feature combinations per cluster
  from the best-ranked features of each type, rotating the candidate lists
  until every combination is new.
*/
module Clustering {
  import opened Wrappers
  import opened Strings

  /** One feature of a cluster with its importance (a chi-squared statistic). */
  datatype Entry = Entry(feature: string, score: real)

  /** A cluster label with its features, in dictionary order. */
  datatype Ranking = Ranking(cluster: int, entries: seq<Entry>)

  /** The feature's type: the text before its first underscore. */
  function TypeOf(e: Entry): string
  {
    BeforeFirst(e.feature, '_')
  }

  // ------------------------------------------------------------------
  // `sorted(items, key=score, reverse=True)`: stable, highest score first

  predicate Descending(xs: seq<Entry>)
  {
    forall i, j :: 0 <= i < j < |xs| ==> xs[i].score >= xs[j].score
  }

  /** The entries of score `s`, in order. */
  function WithScore(xs: seq<Entry>, s: real): seq<Entry>
  {
    if |xs| == 0 then [] else (if xs[0].score == s then [xs[0]] else []) + WithScore(xs[1..], s)
  }

  lemma {:induction false} WithScoreSnoc(xs: seq<Entry>, e: Entry, s: real)
    ensures WithScore(xs + [e], s) == WithScore(xs, s) + (if e.score == s then [e] else [])
    decreases |xs|
  {
    if |xs| > 0 {
      assert (xs + [e])[1..] == xs[1..] + [e];
      WithScoreSnoc(xs[1..], e, s);
    }
  }

  lemma {:induction false} WithScoreNone(xs: seq<Entry>, s: real)
    requires forall i :: 0 <= i < |xs| ==> xs[i].score < s
    ensures WithScore(xs, s) == []
    decreases |xs|
  {
    if |xs| > 0 {
      WithScoreNone(xs[1..], s);
    }
  }

  /** `e` goes after every entry scoring at least as much: behind its equals. */
  function Insert(e: Entry, ys: seq<Entry>): seq<Entry>
  {
    if |ys| == 0 then [e]
    else if ys[0].score >= e.score then [ys[0]] + Insert(e, ys[1..])
    else [e] + ys
  }

  lemma {:induction false} InsertDescending(e: Entry, ys: seq<Entry>)
    requires Descending(ys)
    ensures Descending(Insert(e, ys))
    ensures |Insert(e, ys)| > 0 && (Insert(e, ys)[0] == e || Insert(e, ys)[0] == ys[0])
    decreases |ys|
  {
    if |ys| > 0 && ys[0].score >= e.score {
      InsertDescending(e, ys[1..]);
      var rest := Insert(e, ys[1..]);
      assert Insert(e, ys) == [ys[0]] + rest;
    }
  }

  lemma {:induction false} InsertMultiset(e: Entry, ys: seq<Entry>)
    ensures multiset(Insert(e, ys)) == multiset(ys) + multiset{e}
    decreases |ys|
  {
    if |ys| > 0 {
      assert ys == [ys[0]] + ys[1..];
      if ys[0].score >= e.score {
        InsertMultiset(e, ys[1..]);
      }
    }
  }

  lemma DescendingTail(ys: seq<Entry>)
    requires |ys| > 0 && Descending(ys)
    ensures Descending(ys[1..])
    ensures forall i :: 0 <= i < |ys| ==> ys[i].score <= ys[0].score
  {
    forall i, j | 0 <= i < j < |ys[1..]|
      ensures ys[1..][i].score >= ys[1..][j].score
    {
      assert ys[1..][i] == ys[i + 1] && ys[1..][j] == ys[j + 1];
    }
  }

  /** Entries of the inserted score stay in order, the new one last. */
  lemma {:induction false} InsertStable(e: Entry, ys: seq<Entry>, s: real)
    requires Descending(ys)
    ensures WithScore(Insert(e, ys), s) == WithScore(ys, s) + (if e.score == s then [e] else [])
    decreases |ys|
  {
    if |ys| > 0 {
      DescendingTail(ys);
      var head := if ys[0].score == s then [ys[0]] else [];
      assert WithScore(ys, s) == head + WithScore(ys[1..], s);
      if ys[0].score >= e.score {
        var rest := Insert(e, ys[1..]);
        InsertStable(e, ys[1..], s);
        assert ([ys[0]] + rest)[1..] == rest;
        assert WithScore([ys[0]] + rest, s) == head + WithScore(rest, s);
      } else {
        assert ([e] + ys)[1..] == ys;
        if e.score == s {
          WithScoreNone(ys, s);
        }
      }
    }
  }

  function SortDesc(xs: seq<Entry>): seq<Entry>
  {
    if |xs| == 0 then [] else Insert(xs[|xs| - 1], SortDesc(xs[..|xs| - 1]))
  }

  lemma {:induction false} SortDescDescending(xs: seq<Entry>)
    ensures Descending(SortDesc(xs))
    decreases |xs|
  {
    if |xs| > 0 {
      SortDescDescending(xs[..|xs| - 1]);
      InsertDescending(xs[|xs| - 1], SortDesc(xs[..|xs| - 1]));
    }
  }

  lemma {:induction false} SortDescMultiset(xs: seq<Entry>)
    ensures multiset(SortDesc(xs)) == multiset(xs)
    decreases |xs|
  {
    if |xs| > 0 {
      var init := xs[..|xs| - 1];
      SortDescMultiset(init);
      InsertMultiset(xs[|xs| - 1], SortDesc(init));
      assert xs == init + [xs[|xs| - 1]];
    }
  }

  lemma {:induction false} SortDescStable(xs: seq<Entry>, s: real)
    ensures WithScore(SortDesc(xs), s) == WithScore(xs, s)
    decreases |xs|
  {
    if |xs| > 0 {
      var init := xs[..|xs| - 1];
      var e := xs[|xs| - 1];
      SortDescStable(init, s);
      SortDescDescending(init);
      InsertStable(e, SortDesc(init), s);
      assert xs == init + [e];
      WithScoreSnoc(init, e, s);
    }
  }

  /** The sort is a permutation, puts higher scores first, and keeps entries of
      equal score in their input order. */
  lemma SortDescIsStableSort(xs: seq<Entry>)
    ensures Descending(SortDesc(xs))
    ensures multiset(SortDesc(xs)) == multiset(xs)
    ensures forall s :: WithScore(SortDesc(xs), s) == WithScore(xs, s)
  {
    SortDescDescending(xs);
    SortDescMultiset(xs);
    forall s
      ensures WithScore(SortDesc(xs), s) == WithScore(xs, s)
    {
      SortDescStable(xs, s);
    }
  }

  // ------------------------------------------------------------------
  // sort_and_arrange

  /** The entries of type `p`, in order. */
  function OfType(xs: seq<Entry>, p: string): seq<Entry>
  {
    if |xs| == 0 then [] else (if TypeOf(xs[0]) == p then [xs[0]] else []) + OfType(xs[1..], p)
  }

  /** The types in the order they are first seen: the keys of the `defaultdict`. */
  function FirstSeen(xs: seq<Entry>): seq<string>
  {
    if |xs| == 0 then []
    else
      var ps := FirstSeen(xs[..|xs| - 1]);
      if TypeOf(xs[|xs| - 1]) in ps then ps else ps + [TypeOf(xs[|xs| - 1])]
  }

  /** One block per type, sorted, for the types `ps` in that order. */
  function Blocks(ps: seq<string>, xs: seq<Entry>): seq<Entry>
  {
    if |ps| == 0 then [] else Blocks(ps[..|ps| - 1], xs) + SortDesc(OfType(xs, ps[|ps| - 1]))
  }

  /** A cluster's entries as sort_and_arrange returns them. */
  function Arranged(xs: seq<Entry>): seq<Entry>
  {
    Blocks(FirstSeen(xs), xs)
  }

  lemma {:induction false} OfTypeSnoc(xs: seq<Entry>, e: Entry, p: string)
    ensures OfType(xs + [e], p) == OfType(xs, p) + (if TypeOf(e) == p then [e] else [])
    decreases |xs|
  {
    if |xs| > 0 {
      assert (xs + [e])[1..] == xs[1..] + [e];
      OfTypeSnoc(xs[1..], e, p);
    }
  }

  lemma {:induction false} OfTypeAppend(a: seq<Entry>, b: seq<Entry>, p: string)
    ensures OfType(a + b, p) == OfType(a, p) + OfType(b, p)
    decreases |a|
  {
    if |a| > 0 {
      assert (a + b)[0] == a[0];
      assert (a + b)[1..] == a[1..] + b;
      OfTypeAppend(a[1..], b, p);
    } else {
      assert a + b == b;
    }
  }

  /** A block of one type holds all or nothing of a type. */
  lemma {:induction false} OfTypeBlock(b: seq<Entry>, q: string, p: string)
    requires forall i :: 0 <= i < |b| ==> TypeOf(b[i]) == q
    ensures OfType(b, p) == if q == p then b else []
    decreases |b|
  {
    if |b| > 0 {
      OfTypeBlock(b[1..], q, p);
      assert b == [b[0]] + b[1..];
    }
  }

  lemma {:induction false} OfTypeHasType(xs: seq<Entry>, p: string)
    ensures forall i :: 0 <= i < |OfType(xs, p)| ==> TypeOf(OfType(xs, p)[i]) == p
    ensures multiset(OfType(xs, p)) <= multiset(xs)
    decreases |xs|
  {
    if |xs| > 0 {
      OfTypeHasType(xs[1..], p);
      assert xs == [xs[0]] + xs[1..];
    }
  }

  /** The types first seen are exactly the types that occur, each once. */
  lemma {:induction false} FirstSeenTypes(xs: seq<Entry>)
    ensures forall p :: p in FirstSeen(xs) <==> exists i :: 0 <= i < |xs| && TypeOf(xs[i]) == p
    ensures forall i, j :: 0 <= i < j < |FirstSeen(xs)| ==> FirstSeen(xs)[i] != FirstSeen(xs)[j]
    decreases |xs|
  {
    if |xs| > 0 {
      var init := xs[..|xs| - 1];
      FirstSeenTypes(init);
      forall p
        ensures p in FirstSeen(xs) <==> exists i :: 0 <= i < |xs| && TypeOf(xs[i]) == p
      {
        if exists i :: 0 <= i < |xs| && TypeOf(xs[i]) == p {
          var i :| 0 <= i < |xs| && TypeOf(xs[i]) == p;
          if i < |init| {
            assert TypeOf(init[i]) == p;
          }
        }
        if p in FirstSeen(init) {
          var i :| 0 <= i < |init| && TypeOf(init[i]) == p;
          assert TypeOf(xs[i]) == p;
        }
      }
    }
  }

  /** A type never seen has no entries. */
  lemma {:induction false} OfTypeUnseen(xs: seq<Entry>, p: string)
    requires p !in FirstSeen(xs)
    ensures OfType(xs, p) == []
    decreases |xs|
  {
    if |xs| > 0 {
      FirstSeenTypes(xs);
      assert TypeOf(xs[0]) != p;
      FirstSeenTypes(xs[1..]);
      OfTypeUnseen(xs[1..], p);
    }
  }

  /** Each type of `ps` owns exactly its sorted block, and only types of `ps` occur. */
  lemma {:induction false} BlocksOfType(ps: seq<string>, xs: seq<Entry>, p: string)
    requires forall i, j :: 0 <= i < j < |ps| ==> ps[i] != ps[j]
    ensures OfType(Blocks(ps, xs), p) == if p in ps then SortDesc(OfType(xs, p)) else []
    decreases |ps|
  {
    if |ps| > 0 {
      var init := ps[..|ps| - 1];
      var q := ps[|ps| - 1];
      BlocksOfType(init, xs, p);
      var block := SortDesc(OfType(xs, q));
      OfTypeAppend(Blocks(init, xs), block, p);
      OfTypeHasType(xs, q);
      SortDescIsStableSort(OfType(xs, q));
      forall i | 0 <= i < |block|
        ensures TypeOf(block[i]) == q
      {
        assert block[i] in multiset(OfType(xs, q));
      }
      OfTypeBlock(block, q, p);
      if q == p {
        assert p !in init;
      }
    }
  }

  /** Per type, the arranged entries are that type's entries sorted stably by
      score: every type keeps all of its entries, highest score first, ties
      in input order. */
  lemma ArrangedByType(xs: seq<Entry>, p: string)
    ensures OfType(Arranged(xs), p) == SortDesc(OfType(xs, p))
  {
    FirstSeenTypes(xs);
    BlocksOfType(FirstSeen(xs), xs, p);
    if p !in FirstSeen(xs) {
      OfTypeUnseen(xs, p);
    }
  }

  lemma {:induction false} OfTypeCount(xs: seq<Entry>, e: Entry)
    ensures multiset(OfType(xs, TypeOf(e)))[e] == multiset(xs)[e]
    decreases |xs|
  {
    if |xs| > 0 {
      OfTypeCount(xs[1..], e);
      assert xs == [xs[0]] + xs[1..];
    }
  }

  /** sort_and_arrange loses and invents no entry. */
  lemma ArrangedIsPermutation(xs: seq<Entry>)
    ensures multiset(Arranged(xs)) == multiset(xs)
  {
    forall e
      ensures multiset(Arranged(xs))[e] == multiset(xs)[e]
    {
      ArrangedByType(xs, TypeOf(e));
      SortDescIsStableSort(OfType(xs, TypeOf(e)));
      OfTypeCount(Arranged(xs), e);
      OfTypeCount(xs, e);
    }
  }

  /** Entries of one type are contiguous. */
  predicate Contiguous(r: seq<Entry>)
  {
    forall i, j, k :: 0 <= i < j < k < |r| && TypeOf(r[i]) == TypeOf(r[k]) ==> TypeOf(r[j]) == TypeOf(r[i])
  }

  /** A sorted block holds only entries of its type, and one at least when the type occurs. */
  lemma BlockOfOneType(xs: seq<Entry>, q: string)
    ensures forall i :: 0 <= i < |SortDesc(OfType(xs, q))| ==> TypeOf(SortDesc(OfType(xs, q))[i]) == q
    ensures q in FirstSeen(xs) ==> |SortDesc(OfType(xs, q))| > 0
  {
    var block := SortDesc(OfType(xs, q));
    OfTypeHasType(xs, q);
    SortDescIsStableSort(OfType(xs, q));
    forall i | 0 <= i < |block|
      ensures TypeOf(block[i]) == q
    {
      assert block[i] in multiset(OfType(xs, q));
    }
    if q in FirstSeen(xs) {
      FirstSeenTypes(xs);
      var i :| 0 <= i < |xs| && TypeOf(xs[i]) == q;
      OfTypeCount(xs, xs[i]);
      assert xs[i] in multiset(xs);
      assert xs[i] in multiset(block);
    }
  }

  /** A block of a new type keeps the types contiguous. */
  lemma ContiguousAppend(a: seq<Entry>, b: seq<Entry>, ps: seq<string>, q: string)
    requires Contiguous(a) && q !in ps
    requires forall i :: 0 <= i < |a| ==> TypeOf(a[i]) in ps
    requires forall i :: 0 <= i < |b| ==> TypeOf(b[i]) == q
    ensures Contiguous(a + b)
  {
    var r := a + b;
    forall i, j, k | 0 <= i < j < k < |r| && TypeOf(r[i]) == TypeOf(r[k])
      ensures TypeOf(r[j]) == TypeOf(r[i])
    {
      if k < |a| {
        assert r[i] == a[i] && r[j] == a[j] && r[k] == a[k];
      } else if i >= |a| {
        assert r[i] == b[i - |a|] && r[j] == b[j - |a|];
      }
    }
  }

  lemma {:induction false} BlocksContiguous(ps: seq<string>, xs: seq<Entry>)
    requires forall i, j :: 0 <= i < j < |ps| ==> ps[i] != ps[j]
    ensures Contiguous(Blocks(ps, xs))
    ensures forall i :: 0 <= i < |Blocks(ps, xs)| ==> TypeOf(Blocks(ps, xs)[i]) in ps
    decreases |ps|
  {
    if |ps| > 0 {
      var init := ps[..|ps| - 1];
      var q := ps[|ps| - 1];
      BlocksContiguous(init, xs);
      var a := Blocks(init, xs);
      var block := SortDesc(OfType(xs, q));
      BlockOfOneType(xs, q);
      assert q !in init;
      ContiguousAppend(a, block, init, q);
      var r := a + block;
      forall i | 0 <= i < |r|
        ensures TypeOf(r[i]) in ps
      {
        if i < |a| {
          assert r[i] == a[i];
        } else {
          assert r[i] == block[i - |a|];
        }
      }
    }
  }

  /** Types come in the order they are first seen in the input. */
  lemma {:induction false} BlocksFirstSeen(ps: seq<string>, xs: seq<Entry>)
    requires forall i, j :: 0 <= i < j < |ps| ==> ps[i] != ps[j]
    requires forall i :: 0 <= i < |ps| ==> ps[i] in FirstSeen(xs)
    ensures FirstSeen(Blocks(ps, xs)) == ps
    decreases |ps|
  {
    if |ps| > 0 {
      var init := ps[..|ps| - 1];
      var q := ps[|ps| - 1];
      BlocksFirstSeen(init, xs);
      BlockOfOneType(xs, q);
      assert q !in init;
      FirstSeenAppendBlock(Blocks(init, xs), SortDesc(OfType(xs, q)), q);
    }
  }

  lemma {:induction false} FirstSeenAppendBlock(a: seq<Entry>, b: seq<Entry>, q: string)
    requires |b| > 0 && forall i :: 0 <= i < |b| ==> TypeOf(b[i]) == q
    requires q !in FirstSeen(a)
    ensures FirstSeen(a + b) == FirstSeen(a) + [q]
    decreases |b|
  {
    var init := b[..|b| - 1];
    assert (a + b)[..|a + b| - 1] == a + init;
    if |b| > 1 {
      FirstSeenAppendBlock(a, init, q);
    } else {
      assert a + init == a;
    }
  }

  /** sort_and_arrange for one cluster: entries of one type are contiguous and
      the types come in the order they are first seen. */
  lemma ArrangedGroupsTypes(xs: seq<Entry>)
    ensures Contiguous(Arranged(xs))
    ensures FirstSeen(Arranged(xs)) == FirstSeen(xs)
  {
    FirstSeenTypes(xs);
    BlocksContiguous(FirstSeen(xs), xs);
    BlocksFirstSeen(FirstSeen(xs), xs);
  }

  /** `order` and `lists` are the `defaultdict` built from `xs`. */
  ghost predicate Grouped(xs: seq<Entry>, order: seq<string>, lists: map<string, seq<Entry>>)
  {
    && order == FirstSeen(xs)
    && (forall p :: p in lists <==> p in order)
    && (forall p :: p in lists ==> lists[p] == OfType(xs, p))
  }

  /** Appending one entry to its type's list keeps the grouping. */
  lemma GroupedSnoc(xs: seq<Entry>, e: Entry, order: seq<string>, lists: map<string, seq<Entry>>)
    requires Grouped(xs, order, lists)
    ensures TypeOf(e) in lists ==> Grouped(xs + [e], order, lists[TypeOf(e) := lists[TypeOf(e)] + [e]])
    ensures TypeOf(e) !in lists ==> Grouped(xs + [e], order + [TypeOf(e)], lists[TypeOf(e) := [e]])
  {
    var p := TypeOf(e);
    var ys := xs + [e];
    assert ys[..|ys| - 1] == xs;
    forall q
      ensures OfType(ys, q) == OfType(xs, q) + (if p == q then [e] else [])
    {
      OfTypeSnoc(xs, e, q);
    }
    if p !in lists {
      OfTypeUnseen(xs, p);
    }
  }

  /** The `defaultdict` loop of sort_and_arrange: the types in the order first
      seen, each with its entries in input order. */
  method GroupByType(values: seq<Entry>) returns (order: seq<string>, lists: map<string, seq<Entry>>)
    ensures order == FirstSeen(values)
    ensures forall p :: p in lists <==> p in order
    ensures forall p :: p in lists ==> lists[p] == OfType(values, p)
  {
    order := [];
    lists := map[];
    for i := 0 to |values|
      invariant Grouped(values[..i], order, lists)
    {
      var e := values[i];
      var p := TypeOf(e);
      GroupedSnoc(values[..i], e, order, lists);
      assert values[..i + 1] == values[..i] + [e];
      if p in lists {
        lists := lists[p := lists[p] + [e]];
      } else {
        order := order + [p];
        lists := lists[p := [e]];
      }
    }
    assert values[..|values|] == values;
  }

  /** sort_and_arrange for one cluster: group, then extend by each sorted group. */
  method ArrangeEntries(values: seq<Entry>) returns (sorted: seq<Entry>)
    ensures sorted == Arranged(values)
  {
    var order, lists := GroupByType(values);
    sorted := [];
    for g := 0 to |order|
      invariant sorted == Blocks(order[..g], values)
    {
      assert order[..g + 1][..g] == order[..g];
      sorted := sorted + SortDesc(lists[order[g]]);
    }
    assert order[..|order|] == order;
  }

  /** sort_and_arrange: every cluster label is kept, with its entries arranged. */
  method SortAndArrange(input: seq<Ranking>) returns (output: seq<Ranking>)
    ensures |output| == |input|
    ensures forall i :: 0 <= i < |input| ==>
              output[i] == Ranking(input[i].cluster, Arranged(input[i].entries))
  {
    output := [];
    for i := 0 to |input|
      invariant |output| == i
      invariant forall k :: 0 <= k < i ==>
                  output[k] == Ranking(input[k].cluster, Arranged(input[k].entries))
    {
      var sorted := ArrangeEntries(input[i].entries);
      output := output + [Ranking(input[i].cluster, sorted)];
    }
  }

  // ------------------------------------------------------------------
  // generate_combinations

  /** A generated combination, in the source's field order. */
  datatype Combination = Combination(gfact: string, state: string, mode: string, throttle: string)

  datatype CombinationError =
    | EmptyTop          // a type with no feature: `i % len(...)` raises ZeroDivisionError
    | OutOfFuel         // more rotations than the fuel allows for one combination

  /** The features starting with `kind`, in order. */
  function Starting(xs: seq<Entry>, kind: string): seq<string>
  {
    if |xs| == 0 then []
    else (if StartsWith(xs[0].feature, kind) then [xs[0].feature] else []) + Starting(xs[1..], kind)
  }

  /** `[k for k in values.keys() if k.startswith(kind)][:4]`. */
  function Top(xs: seq<Entry>, kind: string): (r: seq<string>)
    ensures |r| <= 4
  {
    var all := Starting(xs, kind);
    if |all| <= 4 then all else all[..4]
  }

  function Names(xs: seq<Entry>): seq<string>
  {
    if |xs| == 0 then [] else [xs[0].feature] + Names(xs[1..])
  }

  lemma {:induction false} StartingStarts(xs: seq<Entry>, kind: string)
    ensures forall f :: f in Starting(xs, kind) ==> StartsWith(f, kind) && f in Names(xs)
    decreases |xs|
  {
    if |xs| > 0 {
      StartingStarts(xs[1..], kind);
    }
  }

  /** A feature of a top list has the list's kind and is one of the cluster's features. */
  lemma TopMembers(xs: seq<Entry>, kind: string, f: string)
    requires f in Top(xs, kind)
    ensures StartsWith(f, kind) && f in Names(xs)
  {
    StartingStarts(xs, kind);
    var all := Starting(xs, kind);
    var k :| 0 <= k < |Top(xs, kind)| && Top(xs, kind)[k] == f;
    assert all[k] == f;
  }

  /** `xs.append(xs.pop(0))`. */
  function Rotate(xs: seq<string>): (r: seq<string>)
    requires |xs| > 0
  {
    xs[1..] + [xs[0]]
  }

  /** Rotation only permutes a list. */
  lemma RotatePermutes(xs: seq<string>)
    requires |xs| > 0
    ensures multiset(Rotate(xs)) == multiset(xs)
  {
    assert xs == [xs[0]] + xs[1..];
  }

  /** The combination at position `i` of the four lists. */
  function Pick(g: seq<string>, s: seq<string>, m: seq<string>, t: seq<string>, i: nat): Combination
    requires |g| > 0 && |s| > 0 && |m| > 0 && |t| > 0
  {
    Combination(g[i % |g|], s[i % |s|], m[i % |m|], t[i % |t|])
  }

  /** Every field of a combination drawn for cluster entries `xs` comes from the
      top list of its type; the GFACT field, never rotated, is the `i`-th. */
  predicate DrawnFrom(c: Combination, xs: seq<Entry>, i: nat)
  {
    var g := Top(xs, "GFACT");
    |g| > 0 && c.gfact == g[i % |g|]
    && c.state in Top(xs, "states") && c.mode in Top(xs, "modes") && c.throttle in Top(xs, "throttle")
  }

  predicate AllDistinct(cs: seq<Combination>)
  {
    forall a, b :: 0 <= a < b < |cs| ==> cs[a] != cs[b]
  }

  /** Every type has at least one top feature. */
  predicate HasAllTypes(xs: seq<Entry>)
  {
    |Top(xs, "GFACT")| > 0 && |Top(xs, "states")| > 0 && |Top(xs, "modes")| > 0 && |Top(xs, "throttle")| > 0
  }

  /** The four combinations of one cluster. `cycle` is the rotation pointer into
      `['throttle', 'modes', 'states']`, shared by all clusters; each search for
      a fresh combination may rotate at most `fuel` times. */
  method CombinationsOf(xs: seq<Entry>, generated: set<Combination>, cycle0: nat, fuel: nat)
    returns (r: Result<seq<Combination>, CombinationError>, cycle: nat)
    requires cycle0 < 3
    ensures cycle < 3
    ensures r.Err? ==> (r.error == EmptyTop <==> !HasAllTypes(xs))
    ensures r.Ok? ==> |r.value| == 4 && AllDistinct(r.value)
    ensures r.Ok? ==> forall i :: 0 <= i < 4 ==> r.value[i] !in generated && DrawnFrom(r.value[i], xs, i)
  {
    cycle := cycle0;
    var topG := Top(xs, "GFACT");
    var topS := Top(xs, "states");
    var topM := Top(xs, "modes");
    var topT := Top(xs, "throttle");
    if |topG| == 0 || |topS| == 0 || |topM| == 0 || |topT| == 0 {
      return Err(EmptyTop), cycle;
    }
    var combos: seq<Combination> := [];
    var seen := generated;
    for i := 0 to 4
      invariant multiset(topS) == multiset(Top(xs, "states"))
      invariant multiset(topM) == multiset(Top(xs, "modes"))
      invariant multiset(topT) == multiset(Top(xs, "throttle"))
      invariant |topS| > 0 && |topM| > 0 && |topT| > 0
      invariant cycle < 3
      invariant |combos| == i && AllDistinct(combos)
      invariant seen == generated + set c | c in combos
      invariant forall k :: 0 <= k < i ==> combos[k] !in generated && DrawnFrom(combos[k], xs, k)
    {
      var combination := Pick(topG, topS, topM, topT, i);
      var steps: nat := 0;
      while combination in seen
        invariant multiset(topS) == multiset(Top(xs, "states"))
        invariant multiset(topM) == multiset(Top(xs, "modes"))
        invariant multiset(topT) == multiset(Top(xs, "throttle"))
        invariant |topS| > 0 && |topM| > 0 && |topT| > 0
        invariant cycle < 3
        invariant combination == Pick(topG, topS, topM, topT, i)
        decreases fuel - steps
      {
        if steps >= fuel {
          return Err(OutOfFuel), cycle;
        }
        steps := steps + 1;
        cycle := (cycle + 1) % 3;
        if cycle == 0 {
          RotatePermutes(topT);
          topT := Rotate(topT);
        } else if cycle == 1 {
          RotatePermutes(topM);
          topM := Rotate(topM);
        } else {
          RotatePermutes(topS);
          topS := Rotate(topS);
        }
        combination := Pick(topG, topS, topM, topT, i);
      }
      assert topS[i % |topS|] in multiset(topS);
      assert topM[i % |topM|] in multiset(topM);
      assert topT[i % |topT|] in multiset(topT);
      combos := combos + [combination];
      seen := seen + {combination};
    }
    return Ok(combos), cycle;
  }

  /** generate_combinations: four new combinations per cluster, in cluster
      order, all distinct; it fails where a cluster lacks a type. */
  method GenerateCombinations(sorted: seq<Ranking>, fuel: nat)
    returns (r: Result<seq<Combination>, CombinationError>)
    ensures r.Ok? ==> |r.value| == 4 * |sorted| && AllDistinct(r.value)
    ensures r.Ok? ==> forall j :: 0 <= j < |r.value| ==> DrawnFrom(r.value[j], sorted[j / 4].entries, j % 4)
    ensures r == Err(EmptyTop) ==> exists k :: 0 <= k < |sorted| && !HasAllTypes(sorted[k].entries)
    ensures (forall k :: 0 <= k < |sorted| ==> HasAllTypes(sorted[k].entries)) ==> r != Err(EmptyTop)
  {
    var combinations: seq<Combination> := [];
    var generated: set<Combination> := {};
    var cycle: nat := 0;
    for k := 0 to |sorted|
      invariant cycle < 3
      invariant |combinations| == 4 * k && AllDistinct(combinations)
      invariant generated == set c | c in combinations
      invariant forall j :: 0 <= j < |combinations| ==> DrawnFrom(combinations[j], sorted[j / 4].entries, j % 4)
    {
      var step;
      step, cycle := CombinationsOf(sorted[k].entries, generated, cycle, fuel);
      if step.Err? {
        return Err(step.error);
      }
      var batch := step.value;
      DistinctAppend(combinations, batch, generated);
      DrawnAppend(combinations, batch, sorted, k);
      combinations := combinations + batch;
      generated := generated + set c | c in batch;
    }
    return Ok(combinations);
  }

  lemma DistinctAppend(a: seq<Combination>, b: seq<Combination>, seen: set<Combination>)
    requires AllDistinct(a) && AllDistinct(b)
    requires seen == set c | c in a
    requires forall i :: 0 <= i < |b| ==> b[i] !in seen
    ensures AllDistinct(a + b)
  {
    var r := a + b;
    forall x, y | 0 <= x < y < |r|
      ensures r[x] != r[y]
    {
      if y < |a| {
        assert r[x] == a[x] && r[y] == a[y];
      } else if x >= |a| {
        assert r[x] == b[x - |a|] && r[y] == b[y - |a|];
      } else {
        assert r[x] == a[x] && a[x] in seen;
        assert r[y] == b[y - |a|];
      }
    }
  }

  /** Cluster `k`'s four combinations take positions `4 * k` to `4 * k + 3`. */
  lemma DrawnAppend(a: seq<Combination>, b: seq<Combination>, sorted: seq<Ranking>, k: nat)
    requires k < |sorted| && |a| == 4 * k && |b| == 4
    requires forall j :: 0 <= j < |a| ==> DrawnFrom(a[j], sorted[j / 4].entries, j % 4)
    requires forall i :: 0 <= i < 4 ==> DrawnFrom(b[i], sorted[k].entries, i)
    ensures forall j :: 0 <= j < |a + b| ==> DrawnFrom((a + b)[j], sorted[j / 4].entries, j % 4)
  {
    forall j | 0 <= j < |a + b|
      ensures DrawnFrom((a + b)[j], sorted[j / 4].entries, j % 4)
    {
      if j >= |a| {
        assert j / 4 == k && j % 4 == j - |a|;
        assert (a + b)[j] == b[j - |a|];
      } else {
        assert (a + b)[j] == a[j];
      }
    }
  }
}
