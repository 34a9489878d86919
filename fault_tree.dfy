/**
  The fault-tree helpers of the clustering pipeline
  (ClusteringFT/FaultTreeHelper.py): the rewrite of a minimised
  sum-of-products formula into a boolean expression, the extraction of its
  minimal cut sets, and the expansion of the `GFACT_<action>` features into
  the two geofence features they stand for before the tree is drawn.

  Regular-expression word characters (`\w`) are the ASCII letters, digits
  and the underscore.
*/
module FaultTree {
  import opened Strings

  // ------------------------------------------------------------------
  // Words in the regular-expression sense

  predicate IsWordChar(c: char)
  {
    'a' <= c <= 'z' || 'A' <= c <= 'Z' || '0' <= c <= '9' || c == '_'
  }

  /** The length of the run of word characters at the start of `s`. */
  function WordRun(s: string): (n: nat)
    ensures n <= |s|
    ensures forall i :: 0 <= i < n ==> IsWordChar(s[i])
    ensures n < |s| ==> !IsWordChar(s[n])
    decreases |s|
  {
    if |s| == 0 || !IsWordChar(s[0]) then 0 else 1 + WordRun(s[1..])
  }

  /** The length of the run of other characters at the start of `s`. */
  function OtherRun(s: string): (n: nat)
    ensures n <= |s|
    ensures forall i :: 0 <= i < n ==> !IsWordChar(s[i])
    ensures n < |s| ==> IsWordChar(s[n])
    decreases |s|
  {
    if |s| == 0 || IsWordChar(s[0]) then 0 else 1 + OtherRun(s[1..])
  }

  /** The length of the run of characters of the kind of `s[0]` at the start of `s`. */
  function RunLength(s: string): (n: nat)
    requires |s| > 0
    ensures 0 < n <= |s|
    ensures forall i :: 0 <= i < n ==> IsWordChar(s[i]) == IsWordChar(s[0])
    ensures n < |s| ==> IsWordChar(s[n]) != IsWordChar(s[0])
  {
    if IsWordChar(s[0]) then WordRun(s) else OtherRun(s)
  }

  /** A non-empty run of characters of one kind. */
  predicate Run(t: string)
  {
    |t| > 0 && forall i :: 0 <= i < |t| ==> IsWordChar(t[i]) == IsWordChar(t[0])
  }

  /** `s` cut into its maximal runs of word characters and of other characters:
      the word tokens are what `re.findall(r'\b\w+\b', s)` finds. */
  function Tokens(s: string): (ts: seq<string>)
    decreases |s|
  {
    if |s| == 0 then [] else [s[..RunLength(s)]] + Tokens(s[RunLength(s)..])
  }

  function Concat(ts: seq<string>): string
  {
    if |ts| == 0 then "" else ts[0] + Concat(ts[1..])
  }

  /** Together the tokens spell `s`. */
  lemma {:induction false} TokensSpellText(s: string)
    ensures Concat(Tokens(s)) == s
    decreases |s|
  {
    if |s| > 0 {
      var n := RunLength(s);
      var rest := Tokens(s[n..]);
      TokensSpellText(s[n..]);
      assert Tokens(s) == [s[..n]] + rest;
      assert Concat([s[..n]] + rest) == s[..n] + Concat(rest);
      assert s[..n] + s[n..] == s;
    }
  }

  /** Every token is a run of one kind, and neighbouring tokens are of
      different kinds, so every run is maximal. */
  lemma {:induction false} TokensAreMaximalRuns(s: string)
    ensures forall k :: 0 <= k < |Tokens(s)| ==> Run(Tokens(s)[k])
    ensures forall j, k :: 0 <= j < |Tokens(s)| && k == j + 1 < |Tokens(s)| ==>
              Run(Tokens(s)[j]) && Run(Tokens(s)[k])
              && IsWordChar(Tokens(s)[j][0]) != IsWordChar(Tokens(s)[k][0])
    ensures |s| > 0 ==> |Tokens(s)| > 0 && |Tokens(s)[0]| > 0 && Tokens(s)[0][0] == s[0]
    decreases |s|
  {
    if |s| > 0 {
      var n := RunLength(s);
      var ts := Tokens(s);
      var rest := Tokens(s[n..]);
      TokensAreMaximalRuns(s[n..]);
      assert ts == [s[..n]] + rest;
      assert Run(s[..n]);
      forall j, k | 0 <= j < |ts| && k == j + 1 < |ts|
        ensures IsWordChar(ts[j][0]) != IsWordChar(ts[k][0])
      {
        if j == 0 {
          assert ts[1] == rest[0];
        } else {
          assert ts[j] == rest[j - 1] && ts[k] == rest[k - 1];
        }
      }
    }
  }

  // ------------------------------------------------------------------
  // convert_logic_to_boolean

  /** `re.sub(r"(\w+)'", r"not \1", s)`: a maximal word followed by a quote
      becomes `not ` and the word, and the quote is dropped. */
  function Negate(s: string): string
    decreases |s|
  {
    if |s| == 0 then ""
    else if IsWordChar(s[0]) then
      var n := WordRun(s);
      if n < |s| && s[n] == '\'' then "not " + s[..n] + Negate(s[n + 1..])
      else s[..n] + Negate(s[n..])
    else [s[0]] + Negate(s[1..])
  }

  /** A quoted word is negated. */
  lemma NegateQuoted(w: string, rest: string)
    requires |w| > 0 && forall i :: 0 <= i < |w| ==> IsWordChar(w[i])
    ensures Negate(w + "'" + rest) == "not " + w + Negate(rest)
  {
    var s := w + "'" + rest;
    WordRunOf(w, '\'', rest);
    assert s[..|w|] == w;
    assert s[|w| + 1..] == rest;
  }

  lemma {:induction false} WordRunOf(w: string, c: char, rest: string)
    requires forall i :: 0 <= i < |w| ==> IsWordChar(w[i])
    requires !IsWordChar(c)
    ensures WordRun(w + [c] + rest) == |w|
    decreases |w|
  {
    if |w| > 0 {
      WordRunOf(w[1..], c, rest);
      assert (w + [c] + rest)[1..] == w[1..] + [c] + rest;
    }
  }

  /** Text without a quote is left as it is. */
  lemma {:induction false} NegateNoQuote(s: string)
    requires '\'' !in s
    ensures Negate(s) == s
    decreases |s|
  {
    if |s| > 0 {
      if IsWordChar(s[0]) {
        var n := WordRun(s);
        assert '\'' !in s[n..];
        NegateNoQuote(s[n..]);
        assert s[..n] + s[n..] == s;
      } else {
        assert '\'' !in s[1..];
        NegateNoQuote(s[1..]);
        assert [s[0]] + s[1..] == s;
      }
    }
  }

  /** Negation only brings in the characters of `not `. */
  lemma {:induction false} NegateKeepsAbsent(s: string, d: char)
    requires d !in s && d !in "not "
    ensures d !in Negate(s)
    decreases |s|
  {
    if |s| > 0 {
      if IsWordChar(s[0]) {
        var n := WordRun(s);
        if n < |s| && s[n] == '\'' {
          assert d !in s[n + 1..] && d !in s[..n];
          NegateKeepsAbsent(s[n + 1..], d);
        } else {
          assert d !in s[n..] && d !in s[..n];
          NegateKeepsAbsent(s[n..], d);
        }
      } else {
        assert d !in s[1..];
        NegateKeepsAbsent(s[1..], d);
      }
    }
  }

  /** The products become `and`, the sum becomes `) or (`. */
  function Connectives(e: string): string
  {
    ReplaceAll(ReplaceAll(e, ".", " and "), "+", ") or (")
  }

  /** The terms of the converted expression, as `split()` finds them. */
  function Terms(e: string): seq<string>
  {
    Words(Negate(Connectives(e)))
  }

  /** convert_logic_to_boolean: drop the `r <=` head of the minimiser's output;
      a bare `0` stays `0`; otherwise write the connectives out, negate the
      primed variables and wrap the blank-separated terms in parentheses. */
  function ConvertLogic(expression: string): string
  {
    var e := ReplaceAll(expression, "r <=", "");
    if e == "0" then "0" else "(" + Join(Terms(e), " ") + ")"
  }

  /** Past the `0` case, the result is parenthesised, single-spaced text whose
      `split()` gives back the terms, and no `.` or `+` of the minimiser's
      notation is left in it. */
  lemma ConvertShape(expression: string)
    requires ReplaceAll(expression, "r <=", "") != "0"
    ensures var r := ConvertLogic(expression);
      |r| >= 2 && r[0] == '(' && r[|r| - 1] == ')'
      && SingleSpaced(r[1..|r| - 1])
      && Words(r[1..|r| - 1]) == Terms(ReplaceAll(expression, "r <=", ""))
  {
    var e := ReplaceAll(expression, "r <=", "");
    var r := ConvertLogic(expression);
    var inner := Join(Terms(e), " ");
    assert r == "(" + inner + ")";
    assert r[1..|r| - 1] == inner;
    WordsAreWords(Negate(Connectives(e)));
    JoinSingleSpaced(Terms(e));
    WordsJoin(Terms(e));
  }

  lemma ConvertDropsOperators(expression: string)
    ensures '.' !in ConvertLogic(expression) && '+' !in ConvertLogic(expression)
  {
    var e := ReplaceAll(expression, "r <=", "");
    if e != "0" {
      var e1 := ReplaceAll(e, ".", " and ");
      ReplaceCharRemovesIt(e, '.', " and ");
      ReplaceCharKeepsAbsent(e1, '+', ") or (", '.');
      ReplaceCharRemovesIt(e1, '+', ") or (");
      var e2 := Connectives(e);
      NegateKeepsAbsent(e2, '.');
      NegateKeepsAbsent(e2, '+');
      WordsKeepAbsent(Negate(e2), '.');
      WordsKeepAbsent(Negate(e2), '+');
      JoinKeepsAbsent(Terms(e), " ", '.');
      JoinKeepsAbsent(Terms(e), " ", '+');
    }
  }

  /** A formula of one plain literal converts to that literal in parentheses. */
  lemma ConvertLiteral(w: string)
    requires Word(w) && '.' !in w && '+' !in w && '\'' !in w && '<' !in w
    ensures ConvertLogic("r <= " + w) == "(" + w + ")"
  {
    var e := " " + w;
    assert "r <= " + w == "r <=" + e;
    assert ("r <=" + e)[..4] == "r <=";
    assert ("r <=" + e)[4..] == e;
    assert "r <="[2] == '<';
    ReplaceAllMissing(e, "r <=", "", '<');
    assert ReplaceAll("r <= " + w, "r <=", "") == e;
    assert e != "0";
    ReplaceAllMissing(e, ".", " and ", '.');
    ReplaceAllMissing(e, "+", ") or (", '+');
    NegateNoQuote(e);
    assert e[1..] == w;
    WordAlone(w);
    assert Terms(e) == [w];
  }

  /** The minimiser writes an always-false output as `r <= 0`; the blank left
      after its head means the bare-`0` case does not apply and the result is
      `(0)`, the form the fault-tree step tests for. */
  lemma LogicminZero()
    ensures ConvertLogic("r <= 0") == "(0)"
  {
    var w := "0";
    assert Word(w) && w[0] == '0' && |w| == 1;
    assert '.' !in w && '+' !in w && '\'' !in w && '<' !in w;
    assert "r <= " + w == "r <= 0";
    ConvertLiteral(w);
  }

  // ------------------------------------------------------------------
  // mincutSets, as written

  /** One element of a cut: stripped, with its parentheses removed. */
  function CleanPart(e: string): string
  {
    RemoveChar(RemoveChar(Strip(e), '('), ')')
  }

  function CleanParts(parts: seq<string>): (r: seq<string>)
  {
    seq(|parts|, i requires 0 <= i < |parts| => CleanPart(parts[i]))
  }

  /** The cuts as mincutSets finds them: the expression is split at every
      `or` and each condition at every `and`, wherever those letters occur. */
  function SplitCuts(expression: string): seq<seq<string>>
  {
    var conditions := SplitOn(expression, "or");
    seq(|conditions|, i requires 0 <= i < |conditions| =>
      CleanParts(SplitOn(conditions[i], "and")))
  }

  /** The running minimum of the cut sizes, starting from 5. */
  function MinSize(cuts: seq<seq<string>>): int
  {
    if |cuts| == 0 then 5
    else
      var m := MinSize(cuts[..|cuts| - 1]);
      if |cuts[|cuts| - 1]| < m then |cuts[|cuts| - 1]| else m
  }

  /** `minFeatures` is the size of the smallest cut, or 5 if every cut is larger. */
  lemma {:induction false} MinSizeIsMinimum(cuts: seq<seq<string>>)
    ensures MinSize(cuts) <= 5
    ensures forall i :: 0 <= i < |cuts| ==> MinSize(cuts) <= |cuts[i]|
    ensures MinSize(cuts) == 5 || exists i :: 0 <= i < |cuts| && MinSize(cuts) == |cuts[i]|
    decreases |cuts|
  {
    if |cuts| > 0 {
      var init := cuts[..|cuts| - 1];
      MinSizeIsMinimum(init);
      assert forall i :: 0 <= i < |init| ==> init[i] == cuts[i];
    }
  }

  /** Python `xs.remove(x)`: the first element equal to `x` goes. */
  function RemoveFirst<T(==)>(xs: seq<T>, x: T): (r: seq<T>)
    requires x in xs
    ensures |r| == |xs| - 1
    ensures multiset(r) == multiset(xs) - multiset{x}
  {
    assert xs == [xs[0]] + xs[1..];
    if xs[0] == x then xs[1..] else [xs[0]] + RemoveFirst(xs[1..], x)
  }

  /** The pruning loop as written: the list iterator moves by position, so the
      element that slides into the place of a removed one is never looked at. */
  function SkipRemove(xs: seq<seq<string>>, pos: nat, m: int): seq<seq<string>>
    decreases |xs| - pos
  {
    if pos >= |xs| then xs
    else if |xs[pos]| > m then SkipRemove(RemoveFirst(xs, xs[pos]), pos + 1, m)
    else SkipRemove(xs, pos + 1, m)
  }

  /** The loop only ever removes cuts larger than `m`, and keeps all the others. */
  lemma {:induction false} SkipRemoveKeepsSmall(xs: seq<seq<string>>, pos: nat, m: int)
    ensures multiset(SkipRemove(xs, pos, m)) <= multiset(xs)
    ensures forall t :: |t| <= m ==> multiset(SkipRemove(xs, pos, m))[t] == multiset(xs)[t]
    decreases |xs| - pos
  {
    if pos < |xs| {
      if |xs[pos]| > m {
        SkipRemoveKeepsSmall(RemoveFirst(xs, xs[pos]), pos + 1, m);
      } else {
        SkipRemoveKeepsSmall(xs, pos + 1, m);
      }
    }
  }

  /** `a` is `b` with some elements left out, the others in their order. */
  predicate Subsequence<T(==)>(a: seq<T>, b: seq<T>)
    decreases |b|
  {
    |a| == 0 || (|b| > 0 && ((a[0] == b[0] && Subsequence(a[1..], b[1..])) || Subsequence(a, b[1..])))
  }

  lemma {:induction false} SubsequenceRefl<T>(a: seq<T>)
    ensures Subsequence(a, a)
    decreases |a|
  {
    if |a| > 0 {
      SubsequenceRefl(a[1..]);
    }
  }

  lemma {:induction false} SubsequenceTrans<T>(a: seq<T>, b: seq<T>, c: seq<T>)
    requires Subsequence(a, b) && Subsequence(b, c)
    ensures Subsequence(a, c)
    decreases |c|
  {
    if |a| > 0 {
      if Subsequence(b, c[1..]) {
        SubsequenceTrans(a, b, c[1..]);
      } else if Subsequence(a, b[1..]) {
        SubsequenceTrans(a, b[1..], c[1..]);
      } else {
        SubsequenceTrans(a[1..], b[1..], c[1..]);
      }
    }
  }

  lemma {:induction false} RemoveFirstSubsequence<T>(xs: seq<T>, x: T)
    requires x in xs
    ensures Subsequence(RemoveFirst(xs, x), xs)
    decreases |xs|
  {
    if xs[0] == x {
      SubsequenceRefl(xs[1..]);
      if |xs[1..]| > 0 {
        assert Subsequence(xs[1..], xs);
      }
    } else {
      RemoveFirstSubsequence(xs[1..], x);
      var r := RemoveFirst(xs, x);
      assert r[0] == xs[0] && r[1..] == RemoveFirst(xs[1..], x);
    }
  }

  /** The cuts that survive the as-written loop keep their order. */
  lemma {:induction false} SkipRemoveKeepsOrder(xs: seq<seq<string>>, pos: nat, m: int)
    ensures Subsequence(SkipRemove(xs, pos, m), xs)
    decreases |xs| - pos
  {
    if pos >= |xs| {
      SubsequenceRefl(xs);
    } else if |xs[pos]| > m {
      var ys := RemoveFirst(xs, xs[pos]);
      SkipRemoveKeepsOrder(ys, pos + 1, m);
      RemoveFirstSubsequence(xs, xs[pos]);
      SubsequenceTrans(SkipRemove(ys, pos + 1, m), ys, xs);
    } else {
      SkipRemoveKeepsOrder(xs, pos + 1, m);
    }
  }

  method DropLargeAsWritten(cuts: seq<seq<string>>, m: int) returns (r: seq<seq<string>>)
    ensures r == SkipRemove(cuts, 0, m)
  {
    r := cuts;
    var pos: nat := 0;
    while pos < |r|
      invariant SkipRemove(r, pos, m) == SkipRemove(cuts, 0, m)
      decreases |r| - pos
    {
      if |r[pos]| > m {
        r := RemoveFirst(r, r[pos]);
      }
      pos := pos + 1;
    }
  }

  /** mincutSets as written: split into cuts, track the smallest size from 5
      down, then prune with the skipping loop. */
  method MincutSetsAsWritten(expression: string) returns (cuts: seq<seq<string>>)
    ensures cuts == SkipRemove(SplitCuts(expression), 0, MinSize(SplitCuts(expression)))
  {
    var conditions := SplitOn(expression, "or");
    var all: seq<seq<string>> := [];
    var minFeatures := 5;
    for k := 0 to |conditions|
      invariant all == SplitCuts(expression)[..k]
      invariant minFeatures == MinSize(all)
    {
      var mincut := CleanParts(SplitOn(conditions[k], "and"));
      if |mincut| < minFeatures {
        minFeatures := |mincut|;
      }
      assert (all + [mincut])[..|all|] == all;
      all := all + [mincut];
    }
    assert all == SplitCuts(expression);
    cuts := DropLargeAsWritten(all, minFeatures);
  }

  /** Two large cuts in a row: the second survives the pruning although it is
      larger than the smallest cut. */
  lemma SkipRemoveMissesNeighbour(x: seq<string>, y: seq<string>, z: seq<string>)
    requires |z| < |x| && |z| < |y| && |z| <= 5
    ensures MinSize([x, y, z]) == |z|
    ensures SkipRemove([x, y, z], 0, MinSize([x, y, z])) == [y, z]
    ensures KeepSmall([x, y, z], MinSize([x, y, z])) == [z]
  {
    var m := |z|;
    assert [x, y, z][..2] == [x, y];
    assert [x, y][..1] == [x];
    assert [x][..0] == [];
    assert MinSize([x]) == if |x| < 5 then |x| else 5;
    assert MinSize([x, y]) > m || m == 5;
    assert MinSize([x, y, z]) == m;
    assert RemoveFirst([x, y, z], x) == [y, z];
    assert SkipRemove([y, z], 2, m) == [y, z];
    assert SkipRemove([y, z], 1, m) == [y, z];
    assert SkipRemove([x, y, z], 0, m) == SkipRemove([y, z], 1, m);
    assert KeepSmall([z], m) == [z];
    assert KeepSmall([y, z], m) == [z];
  }

  /** `GFACT_Land` holds the letters `and`: the as-written split cuts the
      feature name in two and invents an empty element. */
  lemma SplitCutsBreaksLand()
    ensures SplitCuts("GFACT_Land") == [["GFACT_L", ""]]
  {
    var p := "GFACT_L";
    assert p + "and" == "GFACT_Land";
    assert forall i :: 0 <= i < |p| ==> p[i] != 'a' && p[i] != 'o' && p[i] != '(' && p[i] != ')';
    SplitCutsOfName(p);
  }

  /** A name ending in `and` splits into its head and an empty element. */
  lemma SplitCutsOfName(p: string)
    requires Word(p) && 'a' !in p && 'o' !in p && '(' !in p && ')' !in p
    ensures SplitCuts(p + "and") == [[p, ""]]
  {
    SplitOnAbsent(p + "and", "or");
    SplitOnTail(p, "and");
    StripWord(p);
    RemoveAbsentChar(p, '(');
    RemoveAbsentChar(p, ')');
    assert CleanPart("") == "";
    assert CleanParts([p, ""]) == [p, ""];
  }

  // ------------------------------------------------------------------
  // mincutSets, corrected

  /** The intended pruning: the cuts of at most `m` elements, in order. */
  function KeepSmall(xs: seq<seq<string>>, m: int): seq<seq<string>>
  {
    if |xs| == 0 then [] else (if |xs[0]| <= m then [xs[0]] else []) + KeepSmall(xs[1..], m)
  }

  /** Every cut of at most `m` elements is kept, as often as it occurs, and no other. */
  lemma {:induction false} KeepSmallKeepsExactly(xs: seq<seq<string>>, m: int)
    ensures forall i :: 0 <= i < |KeepSmall(xs, m)| ==> |KeepSmall(xs, m)[i]| <= m
    ensures forall t :: multiset(KeepSmall(xs, m))[t] == if |t| <= m then multiset(xs)[t] else 0
    decreases |xs|
  {
    if |xs| > 0 {
      KeepSmallKeepsExactly(xs[1..], m);
      assert xs == [xs[0]] + xs[1..];
    }
  }

  method DropLarge(cuts: seq<seq<string>>, m: int) returns (r: seq<seq<string>>)
    ensures r == KeepSmall(cuts, m)
  {
    r := cuts;
    var pos: nat := 0;
    while pos < |r|
      invariant pos <= |r|
      invariant r[..pos] + KeepSmall(r[pos..], m) == KeepSmall(cuts, m)
      decreases |r| - pos
    {
      assert r[pos..] == [r[pos]] + r[pos + 1..];
      if |r[pos]| > m {
        assert (r[..pos] + r[pos + 1..])[..pos] == r[..pos];
        assert (r[..pos] + r[pos + 1..])[pos..] == r[pos + 1..];
        r := r[..pos] + r[pos + 1..];
      } else {
        assert r[..pos + 1] == r[..pos] + [r[pos]];
        pos := pos + 1;
      }
    }
    assert r[pos..] == [];
    assert r[..pos] == r;
  }

  /** The token lists between the tokens equal to `sep`. */
  function SplitTokens(ts: seq<string>, sep: string): (pieces: seq<seq<string>>)
    ensures |pieces| >= 1
  {
    if |ts| == 0 then [[]]
    else if ts[0] == sep then [[]] + SplitTokens(ts[1..], sep)
    else
      var rest := SplitTokens(ts[1..], sep);
      [[ts[0]] + rest[0]] + rest[1..]
  }

  /** The tokens other than `sep`, in order. */
  function Without(ts: seq<string>, sep: string): seq<string>
  {
    if |ts| == 0 then [] else (if ts[0] == sep then [] else [ts[0]]) + Without(ts[1..], sep)
  }

  function Flatten(pss: seq<seq<string>>): seq<string>
  {
    if |pss| == 0 then [] else pss[0] + Flatten(pss[1..])
  }

  /** Splitting at a token loses exactly the separator tokens and nothing else. */
  lemma {:induction false} SplitTokensKeepsOthers(ts: seq<string>, sep: string)
    ensures Flatten(SplitTokens(ts, sep)) == Without(ts, sep)
    ensures forall k :: 0 <= k < |SplitTokens(ts, sep)| ==> sep !in SplitTokens(ts, sep)[k]
    decreases |ts|
  {
    if |ts| > 0 {
      SplitTokensKeepsOthers(ts[1..], sep);
      var rest := SplitTokens(ts[1..], sep);
      if ts[0] != sep {
        var pieces := SplitTokens(ts, sep);
        assert pieces[1..] == rest[1..];
        assert Flatten(rest) == rest[0] + Flatten(rest[1..]);
        assert Flatten(pieces) == [ts[0]] + rest[0] + Flatten(rest[1..]);
        assert sep !in rest[0];
      } else {
        assert Flatten([[]] + rest) == Flatten(rest);
      }
    }
  }

  /** The elements of one condition: its tokens split at the token `and`, each
      part joined by blanks and cleaned as the source cleans it. */
  function PartsOf(condition: seq<string>): seq<string>
  {
    var parts := SplitTokens(condition, "and");
    seq(|parts|, j requires 0 <= j < |parts| => CleanPart(Join(parts[j], " ")))
  }

  /** The intended cuts: `or` and `and` are recognised only as whole words. */
  function TokenCuts(expression: string): seq<seq<string>>
  {
    var conditions := SplitTokens(Words(expression), "or");
    seq(|conditions|, i requires 0 <= i < |conditions| => PartsOf(conditions[i]))
  }

  /** Feature names are never cut: the words of the conditions are those of the
      expression without `or`, and the words of one condition's parts are the
      condition's without `and`; no part holds an operator word. */
  lemma TokenCutsKeepNames(expression: string)
    ensures var conditions := SplitTokens(Words(expression), "or");
      |TokenCuts(expression)| == |conditions|
      && Flatten(conditions) == Without(Words(expression), "or")
      && forall i :: 0 <= i < |conditions| ==>
           "or" !in conditions[i]
           && Flatten(SplitTokens(conditions[i], "and")) == Without(conditions[i], "and")
           && forall j :: 0 <= j < |SplitTokens(conditions[i], "and")| ==>
                "and" !in SplitTokens(conditions[i], "and")[j]
  {
    var conditions := SplitTokens(Words(expression), "or");
    SplitTokensKeepsOthers(Words(expression), "or");
    forall i | 0 <= i < |conditions|
      ensures Flatten(SplitTokens(conditions[i], "and")) == Without(conditions[i], "and")
      ensures forall j :: 0 <= j < |SplitTokens(conditions[i], "and")| ==>
                "and" !in SplitTokens(conditions[i], "and")[j]
    {
      SplitTokensKeepsOthers(conditions[i], "and");
    }
  }

  /** A lone feature name is one cut of one element, `GFACT_Land` included. */
  lemma TokenCutsSingleName(name: string)
    requires Word(name) && '(' !in name && ')' !in name
    requires name != "or" && name != "and"
    ensures TokenCuts(name) == [[name]]
  {
    WordAlone(name);
    assert SplitTokens([name], "or") == [[name]];
    assert SplitTokens([name], "and") == [[name]];
    StripWord(name);
    RemoveAbsentChar(name, '(');
    RemoveAbsentChar(name, ')');
    assert PartsOf([name]) == [name];
  }

  /** mincutSets as intended: cuts at whole-word operators, the smallest size
      from 5 down, and only the cuts of that size kept. */
  method MincutSets(expression: string) returns (cuts: seq<seq<string>>)
    ensures cuts == KeepSmall(TokenCuts(expression), MinSize(TokenCuts(expression)))
    ensures forall i :: 0 <= i < |cuts| ==> |cuts[i]| == MinSize(TokenCuts(expression))
    ensures forall t :: t in TokenCuts(expression) && |t| == MinSize(TokenCuts(expression)) ==>
              t in cuts
  {
    var conditions := SplitTokens(Words(expression), "or");
    var all: seq<seq<string>> := [];
    var minFeatures := 5;
    for k := 0 to |conditions|
      invariant all == TokenCuts(expression)[..k]
      invariant minFeatures == MinSize(all)
    {
      var mincut := PartsOf(conditions[k]);
      if |mincut| < minFeatures {
        minFeatures := |mincut|;
      }
      assert (all + [mincut])[..|all|] == all;
      all := all + [mincut];
    }
    assert all == TokenCuts(expression);
    cuts := DropLarge(all, minFeatures);
    KeepSmallestAreSmallest(all);
  }

  /** Pruning at the running minimum keeps exactly the cuts of the smallest size. */
  lemma KeepSmallestAreSmallest(xs: seq<seq<string>>)
    ensures forall i :: 0 <= i < |KeepSmall(xs, MinSize(xs))| ==> |KeepSmall(xs, MinSize(xs))[i]| == MinSize(xs)
    ensures forall t :: t in xs && |t| == MinSize(xs) ==> t in KeepSmall(xs, MinSize(xs))
  {
    var m := MinSize(xs);
    var r := KeepSmall(xs, m);
    MinSizeIsMinimum(xs);
    KeepSmallKeepsExactly(xs, m);
    forall i | 0 <= i < |r|
      ensures |r[i]| == m
    {
      assert r[i] in multiset(r);
      assert r[i] in multiset(xs);
    }
    forall t | t in xs && |t| == m
      ensures t in r
    {
      assert t in multiset(xs);
      assert t in multiset(r);
    }
  }

  // ------------------------------------------------------------------
  // The GFACT expansion of drawFaultTree

  /** `set(re.findall(r'\b\w+\b', e)) - {'and', 'or', 'not'}`. */
  function Features(e: string): set<string>
  {
    set t | t in Tokens(e) && |t| > 0 && IsWordChar(t[0]) && t != "and" && t != "or" && t != "not"
  }

  /** `feature.split("GFACT_")[1]` of a feature that starts with `GFACT_`. */
  function Extracted(f: string): string
    requires StartsWith(f, "GFACT_")
  {
    SplitOn(f, "GFACT_")[1]
  }

  /** The two geofence features a geofence action stands for. */
  function Replacement(v: string): string
  {
    if v == "None" then "(geofence_ON and geofenceAction_OFF)"
    else "(geofence_ON and geofenceAction_" + v + ")"
  }

  /** The word a feature's pattern `\bGFACT_<v>\b` matches is `t`. */
  predicate Matches(f: string, t: string)
  {
    StartsWith(f, "GFACT_") && t == "GFACT_" + Extracted(f)
  }

  /** Some feature of `fs` matches `t`. */
  predicate Matched(fs: seq<string>, t: string)
  {
    exists j :: 0 <= j < |fs| && Matches(fs[j], t)
  }

  /** A feature's substitution `re.sub(r'\bGFACT_<v>\b', ...)` applied to one
      token. A replacement starts and ends with a parenthesis, so the words it
      brings in never merge with their neighbours and none of them is a
      `GFACT_` word: keeping each replacement as one token is exact. */
  function Substitute(f: string, t: string): string
  {
    if Matches(f, t) then Replacement(Extracted(f)) else t
  }

  /** A token after the substitutions of the features `fs`, in that order. */
  function Substituted(fs: seq<string>, t: string): string
  {
    if |fs| == 0 then t else Substitute(fs[|fs| - 1], Substituted(fs[..|fs| - 1], t))
  }

  /** A word that the expansion replaces: `GFACT_` once, at its start. */
  predicate IsGfactWord(t: string)
  {
    StartsWith(t, "GFACT_") && !Contains(t[6..], "GFACT_")
  }

  /** What each token becomes, whatever the order of the features. */
  function Expanded(t: string): string
  {
    if IsGfactWord(t) then Replacement(t[6..]) else t
  }

  function ExpandAll(ts: seq<string>): (r: seq<string>)
    ensures |r| == |ts|
  {
    seq(|ts|, i requires 0 <= i < |ts| => Expanded(ts[i]))
  }

  /** The value extracted from a `GFACT_` feature is free of `GFACT_`, and it is
      the rest of the name when the name has no second `GFACT_`. */
  lemma ExtractedIsRest(f: string)
    requires StartsWith(f, "GFACT_")
    ensures !Contains(Extracted(f), "GFACT_")
    ensures !Contains(f[6..], "GFACT_") ==> Extracted(f) == f[6..]
  {
    assert f[..|"GFACT_"|] == "GFACT_";
    assert SplitOn(f, "GFACT_") == [""] + SplitOn(f[6..], "GFACT_");
    FirstPiece(f[6..], "GFACT_");
  }

  /** A substitution matches a token only if the token is a GFACT word, and
      then it puts in the token's own replacement. */
  lemma SubstituteMatches(f: string, t: string)
    requires Matches(f, t)
    ensures IsGfactWord(t) && Replacement(Extracted(f)) == Expanded(t)
  {
    ExtractedIsRest(f);
    assert t[6..] == Extracted(f);
    assert t[..6] == "GFACT_";
  }

  /** No pattern matches a replacement. */
  lemma ReplacementNotMatched(f: string, v: string)
    ensures !Matches(f, Replacement(v))
  {
    assert Replacement(v)[0] == '(';
    if StartsWith(f, "GFACT_") {
      assert ("GFACT_" + Extracted(f))[0] == 'G';
    }
  }

  /** After the substitutions of `fs` a token is replaced exactly when one of
      them matched it; later ones leave a replacement alone. */
  lemma {:induction false} SubstitutedIs(fs: seq<string>, t: string)
    ensures Substituted(fs, t) == if Matched(fs, t) then Expanded(t) else t
    decreases |fs|
  {
    if |fs| > 0 {
      var init := fs[..|fs| - 1];
      var f := fs[|fs| - 1];
      SubstitutedIs(init, t);
      if Matched(init, t) {
        var j :| 0 <= j < |init| && Matches(init[j], t);
        assert Matches(fs[j], t);
        SubstituteMatches(init[j], t);
        ReplacementNotMatched(f, t[6..]);
      } else if Matches(f, t) {
        SubstituteMatches(f, t);
      } else {
        forall j | 0 <= j < |fs|
          ensures !Matches(fs[j], t)
        {
          if j < |init| {
            assert fs[j] == init[j];
          }
        }
      }
    }
  }

  /** Some feature of `e` matches a token of `e` exactly when the token is a GFACT word. */
  lemma MatchedIffGfact(e: string, order: seq<string>, t: string)
    requires forall f :: f in order <==> f in Features(e)
    requires t in Tokens(e)
    ensures Matched(order, t) <==> IsGfactWord(t)
  {
    if IsGfactWord(t) {
      assert t[0] == 'G';
      assert t in Features(e);
      var j :| 0 <= j < |order| && order[j] == t;
      ExtractedIsRest(t);
      assert t == t[..6] + t[6..];
    } else {
      if Matched(order, t) {
        var j :| 0 <= j < |order| && Matches(order[j], t);
        SubstituteMatches(order[j], t);
      }
    }
  }

  /** The feature loop of drawFaultTree. `order` is the order in which the
      feature set happens to be iterated; whatever it is, every `GFACT_<v>`
      word becomes `(geofence_ON and geofenceAction_<v>)` (`geofenceAction_OFF`
      for `None`) and the rest of the expression is unchanged. */
  method ExpandGfact(e: string, order: seq<string>) returns (r: string)
    requires forall f :: f in order <==> f in Features(e)
    ensures r == Concat(ExpandAll(Tokens(e)))
  {
    var original := Tokens(e);
    var ts := original;
    for k := 0 to |order|
      invariant |ts| == |original|
      invariant forall i :: 0 <= i < |ts| ==> ts[i] == Substituted(order[..k], original[i])
    {
      var feature := order[k];
      assert order[..k + 1][..k] == order[..k];
      if StartsWith(feature, "GFACT_") {
        var v := Extracted(feature);
        ts := seq(|ts|, i requires 0 <= i < |ts| =>
          if ts[i] == "GFACT_" + v then Replacement(v) else ts[i]);
      }
    }
    assert order[..|order|] == order;
    forall i | 0 <= i < |ts|
      ensures ts[i] == Expanded(original[i])
    {
      SubstitutedIs(order, original[i]);
      MatchedIffGfact(e, order, original[i]);
    }
    assert ts == ExpandAll(original);
    r := Concat(ts);
  }

  /** `GFACT_None` stands for the geofence being on with no action. */
  lemma GfactNoneExpansion()
    ensures Expanded("GFACT_None") == "(geofence_ON and geofenceAction_OFF)"
  {
    var t := "GFACT_None";
    assert t[..6] == "GFACT_";
    assert t[6..] == "None";
    if Contains("None", "GFACT_") {
      ContainsLength("None", "GFACT_");
    }
  }
}
