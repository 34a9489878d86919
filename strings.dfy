/**
  The few Python `str` operations the analysis pipelines rely on, with Python's
  semantics: `in` on strings, `startswith`, `split(c)`, `split(sep)` with a
  multi-character separator, `replace`, `strip()`, `split()` without an
  argument, `' '.join`, `int(s)` and `str(n)` on decimal integers.
  Whitespace and word characters are the ASCII ones.
*/
module Strings {
  import opened Wrappers

  /** Python `p` is a prefix of `s`: `s.startswith(p)`. */
  predicate StartsWith(s: string, p: string)
  {
    |p| <= |s| && s[..|p|] == p
  }

  /** Python `t in s` for two strings. */
  predicate Contains(s: string, t: string)
    decreases |s|
  {
    StartsWith(s, t) || (|s| > 0 && Contains(s[1..], t))
  }

  lemma {:induction false} ContainsAt(s: string, t: string, i: nat)
    requires i + |t| <= |s| && s[i..i + |t|] == t
    ensures Contains(s, t)
    decreases i
  {
    if i > 0 {
      assert s[1..][i - 1..i - 1 + |t|] == s[i..i + |t|];
      ContainsAt(s[1..], t, i - 1);
    }
  }

  /** A string whose first character does not occur in `s` is not a substring of `s`. */
  lemma {:induction false} NotContainsFirstCharAbsent(s: string, t: string)
    requires |t| > 0 && t[0] !in s
    ensures !Contains(s, t)
    decreases |s|
  {
    if |s| > 0 {
      assert s[0] in s;
      assert forall c :: c in s[1..] ==> c in s;
      NotContainsFirstCharAbsent(s[1..], t);
    }
  }

  /** A string occurs in any concatenation that has it in the middle. */
  lemma ContainsInfix(a: string, t: string, b: string)
    ensures Contains(a + t + b, t)
  {
    assert (a + t + b)[|a|..|a| + |t|] == t;
    ContainsAt(a + t + b, t, |a|);
  }

  /** Python `s.split(c)` for a one-character separator. */
  function Split(s: string, c: char): (pieces: seq<string>)
    ensures |pieces| >= 1
    decreases |s|
  {
    if |s| == 0 then [""]
    else if s[0] == c then [""] + Split(s[1..], c)
    else
      var rest := Split(s[1..], c);
      [[s[0]] + rest[0]] + rest[1..]
  }

  /** Python `' '.join(ws)` for an arbitrary separator. */
  function Join(ws: seq<string>, sep: string): string
  {
    if |ws| == 0 then ""
    else if |ws| == 1 then ws[0]
    else ws[0] + sep + Join(ws[1..], sep)
  }

  /** `split(c)` cuts `s` at every `c` and nowhere else: joining the pieces gives `s` back. */
  lemma {:induction false} SplitJoin(s: string, c: char)
    ensures Join(Split(s, c), [c]) == s
    ensures forall k :: 0 <= k < |Split(s, c)| ==> c !in Split(s, c)[k]
    decreases |s|
  {
    if |s| > 0 {
      SplitJoin(s[1..], c);
      var rest := Split(s[1..], c);
      if s[0] == c {
        assert Split(s, c) == [""] + rest;
        assert Join([""] + rest, [c]) == [c] + Join(rest, [c]);
        assert s == [s[0]] + s[1..];
      } else {
        var p := Split(s, c);
        assert p == [[s[0]] + rest[0]] + rest[1..];
        if |rest| == 1 {
          assert Join(p, [c]) == [s[0]] + rest[0];
        } else {
          assert Join(rest, [c]) == rest[0] + [c] + Join(rest[1..], [c]);
          assert p[1..] == rest[1..];
          assert Join(p, [c]) == [s[0]] + rest[0] + [c] + Join(rest[1..], [c]);
        }
        assert s == [s[0]] + s[1..];
      }
    }
  }

  /** The text before the first `c`: Python `s.split(c)[0]`. */
  function BeforeFirst(s: string, c: char): (r: string)
  {
    Split(s, c)[0]
  }

  /** The text before the first `c` is a prefix of `s` that does not contain `c`,
      and it is `s` itself when `c` does not occur. */
  lemma {:induction false} BeforeFirstIsPrefix(s: string, c: char)
    ensures StartsWith(s, BeforeFirst(s, c)) && c !in BeforeFirst(s, c)
    ensures c !in s ==> BeforeFirst(s, c) == s
    ensures c in s ==> |BeforeFirst(s, c)| < |s| && s[|BeforeFirst(s, c)|] == c
    decreases |s|
  {
    if |s| > 0 {
      BeforeFirstIsPrefix(s[1..], c);
      if s[0] != c {
        var r := BeforeFirst(s[1..], c);
        assert BeforeFirst(s, c) == [s[0]] + r;
        assert s == [s[0]] + s[1..];
        if c in s {
          assert c in s[1..];
        }
      }
    }
  }

  /** Python `s.split(sep)` for a separator of one or more characters:
      occurrences are found left to right and do not overlap. */
  function SplitOn(s: string, sep: string): (pieces: seq<string>)
    requires |sep| > 0
    ensures |pieces| >= 1
    decreases |s|
  {
    if |s| < |sep| then [s]
    else if s[..|sep|] == sep then [""] + SplitOn(s[|sep|..], sep)
    else
      var rest := SplitOn(s[1..], sep);
      [[s[0]] + rest[0]] + rest[1..]
  }

  /** Python `s.replace(pat, rep)` for a non-empty `pat`. */
  function ReplaceAll(s: string, pat: string, rep: string): string
    requires |pat| > 0
    decreases |s|
  {
    if |s| < |pat| then s
    else if s[..|pat|] == pat then rep + ReplaceAll(s[|pat|..], pat, rep)
    else [s[0]] + ReplaceAll(s[1..], pat, rep)
  }

  /** Replacing a character by a text that does not contain it leaves no occurrence of it. */
  lemma {:induction false} ReplaceCharRemovesIt(s: string, c: char, rep: string)
    requires c !in rep
    ensures c !in ReplaceAll(s, [c], rep)
    decreases |s|
  {
    if |s| >= 1 {
      ReplaceCharRemovesIt(s[1..], c, rep);
    }
  }

  /** Replacing a character keeps every other character that was already absent absent. */
  lemma {:induction false} ReplaceCharKeepsAbsent(s: string, c: char, rep: string, d: char)
    requires d !in s && d !in rep
    ensures d !in ReplaceAll(s, [c], rep)
    decreases |s|
  {
    if |s| >= 1 {
      assert d !in s[1..];
      ReplaceCharKeepsAbsent(s[1..], c, rep, d);
    }
  }

  /** Python `str.isspace()` on one ASCII character. */
  predicate IsSpace(c: char)
  {
    c == ' ' || c == '\t' || c == '\n' || c == '\r' || c == '\U{B}' || c == '\U{C}'
    || c == '\U{1C}' || c == '\U{1D}' || c == '\U{1E}' || c == '\U{1F}'
  }

  /** Python `s.strip()`. */
  function Strip(s: string): (r: string)
  {
    RStrip(LStrip(s))
  }

  function LStrip(s: string): (r: string)
    decreases |s|
  {
    if |s| > 0 && IsSpace(s[0]) then LStrip(s[1..]) else s
  }

  function RStrip(s: string): (r: string)
    decreases |s|
  {
    if |s| > 0 && IsSpace(s[|s| - 1]) then RStrip(s[..|s| - 1]) else s
  }

  /** Python `s.replace(c, '')` for one character. */
  function RemoveChar(s: string, c: char): (r: string)
  {
    if |s| == 0 then ""
    else if s[0] == c then RemoveChar(s[1..], c)
    else [s[0]] + RemoveChar(s[1..], c)
  }

  /** The number of leading characters of `s` that are not whitespace. */
  function WordLength(s: string): (n: nat)
    ensures n <= |s|
  {
    if |s| == 0 || IsSpace(s[0]) then 0 else 1 + WordLength(s[1..])
  }

  /** Python `s.split()` without an argument: the maximal runs of non-whitespace. */
  function Words(s: string): (ws: seq<string>)
    decreases |s|
  {
    if |s| == 0 then []
    else if IsSpace(s[0]) then Words(s[1..])
    else
      var n := WordLength(s);
      [s[..n]] + Words(s[n..])
  }

  lemma {:induction false} WordLengthWord(s: string)
    requires |s| > 0 && !IsSpace(s[0])
    ensures WordLength(s) > 0
    ensures forall i :: 0 <= i < WordLength(s) ==> !IsSpace(s[i])
    decreases |s|
  {
    if |s| > 1 && !IsSpace(s[1]) {
      WordLengthWord(s[1..]);
    }
  }

  /** Every word of `s.split()` is non-empty and free of whitespace. */
  lemma {:induction false} WordsAreWords(s: string)
    ensures forall k :: 0 <= k < |Words(s)| ==> Word(Words(s)[k])
    decreases |s|
  {
    if |s| > 0 {
      if IsSpace(s[0]) {
        WordsAreWords(s[1..]);
      } else {
        WordLengthWord(s);
        WordsAreWords(s[WordLength(s)..]);
      }
    }
  }

  /** A non-empty string without whitespace. */
  predicate Word(w: string)
  {
    |w| > 0 && forall i :: 0 <= i < |w| ==> !IsSpace(w[i])
  }

  /** Python `str(n)` for an integer. */
  function IntToString(n: int): (s: string)
  {
    if n < 0 then "-" + NatToString(-n) else NatToString(n)
  }

  function NatToString(n: nat): (s: string)
    ensures |s| > 0
  {
    if n < 10 then [DigitChar(n)] else NatToString(n / 10) + [DigitChar(n % 10)]
  }

  function DigitChar(d: nat): char
    requires d < 10
  {
    "0123456789"[d]
  }

  predicate IsDigit(c: char)
  {
    '0' <= c <= '9'
  }

  /** Python `int(s)` restricted to an optional sign followed by decimal digits;
      anything else is the `ValueError` path, `None`. */
  function ParseInt(s: string): (r: Option<int>)
  {
    if |s| > 0 && s[0] == '-' then
      (match ParseNat(s[1..]) case Some(n) => Some(-(n as int)) case None => None)
    else if |s| > 0 && s[0] == '+' then
      (match ParseNat(s[1..]) case Some(n) => Some(n as int) case None => None)
    else
      (match ParseNat(s) case Some(n) => Some(n as int) case None => None)
  }

  function ParseNat(s: string): (r: Option<nat>)
  {
    if |s| == 0 then None else ParseDigits(s)
  }

  function ParseDigits(s: string): (r: Option<nat>)
    decreases |s|
  {
    if |s| == 0 then Some(0)
    else if !IsDigit(s[|s| - 1]) then None
    else
      match ParseDigits(s[..|s| - 1])
      case None => None
      case Some(n) => Some(n * 10 + (s[|s| - 1] as int - '0' as int))
  }

  /** Decimal digits parse back to the number they spell. */
  lemma {:induction false} ParseDigitsOfNat(n: nat)
    ensures ParseDigits(NatToString(n)) == Some(n)
    decreases n
  {
    var s := NatToString(n);
    if n < 10 {
      assert s[..|s| - 1] == "";
    } else {
      ParseDigitsOfNat(n / 10);
      assert s[..|s| - 1] == NatToString(n / 10);
    }
  }

  /** `int(str(n)) == n`. */
  lemma ParseIntToString(n: int)
    ensures ParseInt(IntToString(n)) == Some(n)
  {
    if n < 0 {
      var s := NatToString(-n);
      ParseDigitsOfNat(-n);
      NatToStringDigits(-n);
      assert IntToString(n) == "-" + s;
      assert ("-" + s)[1..] == s;
      assert ParseNat(s) == Some(-n);
    } else {
      var s := NatToString(n);
      ParseDigitsOfNat(n);
      NatToStringDigits(n);
      assert IsDigit(s[0]);
      assert ParseNat(s) == Some(n);
    }
  }

  /** `str(n)` of a natural number is made of digits only. */
  lemma {:induction false} NatToStringDigits(n: nat)
    ensures forall i :: 0 <= i < |NatToString(n)| ==> IsDigit(NatToString(n)[i])
    decreases n
  {
    if n >= 10 {
      NatToStringDigits(n / 10);
    }
  }

  /** Splitting `a + [c] + b` at `c`, where neither part holds `c`, gives the two parts. */
  lemma {:induction false} SplitTwo(a: string, c: char, b: string)
    requires c !in a && c !in b
    ensures Split(a + [c] + b, c) == [a, b]
    decreases |a|
  {
    if |a| == 0 {
      assert a + [c] + b == [c] + b;
      assert ([c] + b)[1..] == b;
      SplitNone(b, c);
    } else {
      SplitTwo(a[1..], c, b);
      assert (a + [c] + b)[1..] == a[1..] + [c] + b;
      assert [a[0]] + a[1..] == a;
    }
  }

  /** A string without `c` is one piece. */
  lemma {:induction false} SplitNone(s: string, c: char)
    requires c !in s
    ensures Split(s, c) == [s]
    decreases |s|
  {
    if |s| > 0 {
      SplitNone(s[1..], c);
      assert [s[0]] + s[1..] == s;
    }
  }

  /** The text before the first `c` of `a + [c] + b` is `a` when `a` has no `c`. */
  lemma {:induction false} BeforeFirstOf(a: string, c: char, b: string)
    requires c !in a
    ensures BeforeFirst(a + [c] + b, c) == a
    decreases |a|
  {
    if |a| > 0 {
      BeforeFirstOf(a[1..], c, b);
      assert (a + [c] + b)[1..] == a[1..] + [c] + b;
      assert [a[0]] + a[1..] == a;
    } else {
      assert (a + [c] + b)[0] == c;
    }
  }

  /** Python `s.split(c, 1)` unpacked into two names: the text before the first `c`
      and the text after it, or `None` where the unpacking raises `ValueError`. */
  function SplitOnce(s: string, c: char): (r: Option<(string, string)>)
    ensures r.Some? <==> c in s
    ensures r.Some? ==> s == r.value.0 + [c] + r.value.1 && c !in r.value.0
  {
    BeforeFirstIsPrefix(s, c);
    if c !in s then None
    else
      var head := BeforeFirst(s, c);
      assert s == head + [c] + s[|head| + 1..];
      Some((head, s[|head| + 1..]))
  }

  /** `split(c, 1)` of `a + [c] + b` with no `c` in `a` gives back `a` and `b`. */
  lemma SplitOnceOf(a: string, c: char, b: string)
    requires c !in a
    ensures SplitOnce(a + [c] + b, c) == Some((a, b))
  {
    BeforeFirstOf(a, c, b);
    assert c in a + [c] + b by { assert (a + [c] + b)[|a|] == c; }
    assert (a + [c] + b)[|a| + 1..] == b;
  }

  /** A string that contains `t` is at least as long as `t`. */
  lemma {:induction false} ContainsLength(s: string, t: string)
    requires Contains(s, t)
    ensures |t| <= |s|
    decreases |s|
  {
    if !StartsWith(s, t) {
      ContainsLength(s[1..], t);
    }
  }

  /** The first piece of `s.split(sep)` is a prefix of `s` without `sep` in it,
      and it is all of `s` when `sep` does not occur. */
  lemma {:induction false} FirstPiece(s: string, sep: string)
    requires |sep| > 0
    ensures StartsWith(s, SplitOn(s, sep)[0])
    ensures !Contains(SplitOn(s, sep)[0], sep)
    ensures !Contains(s, sep) ==> SplitOn(s, sep)[0] == s
    decreases |s|
  {
    var p := SplitOn(s, sep)[0];
    if |s| < |sep| {
      if Contains(s, sep) {
        ContainsLength(s, sep);
      }
    } else if s[..|sep|] == sep {
      assert StartsWith(s, sep);
      if Contains(p, sep) {
        ContainsLength(p, sep);
      }
    } else {
      FirstPiece(s[1..], sep);
      var r := SplitOn(s[1..], sep)[0];
      assert p == [s[0]] + r;
      assert s == [s[0]] + s[1..];
      assert p[1..] == r;
    }
  }

  /** `sep` cannot occur where its first character does not. */
  lemma {:induction false} SplitOnAbsent(s: string, sep: string)
    requires |sep| > 0 && sep[0] !in s
    ensures SplitOn(s, sep) == [s]
    decreases |s|
  {
    if |s| >= |sep| {
      assert s[0] != sep[0];
      assert s[1..] + [] == s[1..];
      assert forall c :: c in s[1..] ==> c in s;
      SplitOnAbsent(s[1..], sep);
      assert s == [s[0]] + s[1..];
    }
  }

  /** Splitting `p + sep` where `p` never shows the first character of `sep`. */
  lemma {:induction false} SplitOnTail(p: string, sep: string)
    requires |sep| > 0 && sep[0] !in p
    ensures SplitOn(p + sep, sep) == [p, ""]
    decreases |p|
  {
    var s := p + sep;
    if |p| == 0 {
      assert s == sep;
      assert s[|sep|..] == "";
    } else {
      assert s[0] == p[0] != sep[0];
      assert s[1..] == p[1..] + sep;
      assert forall c :: c in p[1..] ==> c in p;
      SplitOnTail(p[1..], sep);
      assert [p[0]] + p[1..] == p;
    }
  }

  /** `s.replace(c, '')` of a string without `c` is the string itself. */
  lemma {:induction false} RemoveAbsentChar(s: string, c: char)
    requires c !in s
    ensures RemoveChar(s, c) == s
    decreases |s|
  {
    if |s| > 0 {
      assert c !in s[1..];
      RemoveAbsentChar(s[1..], c);
      assert [s[0]] + s[1..] == s;
    }
  }

  /** `strip()` leaves a string without whitespace at its ends as it is. */
  lemma StripWord(w: string)
    requires Word(w)
    ensures Strip(w) == w
  {
  }

  /** Only single blanks between non-blank text: what `' '.join(s.split())` produces. */
  predicate SingleSpaced(s: string)
  {
    forall i :: 0 <= i < |s| && IsSpace(s[i]) ==>
      s[i] == ' ' && 0 < i < |s| - 1 && !IsSpace(s[i + 1])
  }

  /** Joining words with one blank gives single-spaced text that starts and ends with a word. */
  lemma {:induction false} JoinSingleSpaced(ws: seq<string>)
    requires forall k :: 0 <= k < |ws| ==> Word(ws[k])
    ensures SingleSpaced(Join(ws, " "))
    ensures |ws| > 0 ==> |ws[0]| > 0 && |Join(ws, " ")| > 0 && Join(ws, " ")[0] == ws[0][0]
    decreases |ws|
  {
    if |ws| > 1 {
      JoinSingleSpaced(ws[1..]);
      var w := ws[0];
      var rest := Join(ws[1..], " ");
      var s := Join(ws, " ");
      assert s == w + " " + rest;
      assert Word(ws[1]);
      forall i | 0 <= i < |s| && IsSpace(s[i])
        ensures s[i] == ' ' && 0 < i < |s| - 1 && !IsSpace(s[i + 1])
      {
        if i == |w| {
          assert s[i + 1] == rest[0];
        } else if i > |w| {
          assert s[i] == rest[i - |w| - 1];
          assert i + 1 < |s| ==> s[i + 1] == rest[i - |w|];
        }
      }
    }
  }

  /** A word followed by a blank: its length is the word's. */
  lemma {:induction false} WordLengthOf(w: string, rest: string)
    requires Word(w)
    ensures WordLength(w + " " + rest) == |w|
    decreases |w|
  {
    if |w| > 1 {
      assert Word(w[1..]);
      WordLengthOf(w[1..], rest);
      assert (w + " " + rest)[1..] == w[1..] + " " + rest;
    } else {
      assert (w + " " + rest)[1..] == " " + rest;
    }
  }

  /** `' '.join` and `split()` are inverse on a list of words. */
  lemma {:induction false} WordsJoin(ws: seq<string>)
    requires forall k :: 0 <= k < |ws| ==> Word(ws[k])
    ensures Words(Join(ws, " ")) == ws
    decreases |ws|
  {
    if |ws| == 1 {
      WordAlone(ws[0]);
    } else if |ws| > 1 {
      var w := ws[0];
      var rest := Join(ws[1..], " ");
      var s := w + " " + rest;
      assert Join(ws, " ") == s;
      WordLengthOf(w, rest);
      assert s[..|w|] == w;
      assert s[|w|..] == " " + rest;
      assert (" " + rest)[1..] == rest;
      WordsJoin(ws[1..]);
      assert Words(s) == [w] + Words(" " + rest);
    }
  }

  /** A single word splits into itself. */
  lemma {:induction false} WordAlone(w: string)
    requires Word(w)
    ensures Words(w) == [w]
  {
    WordLengthAll(w);
    assert w[..|w|] == w;
    assert w[|w|..] == "";
    assert Words(w) == [w] + Words("");
  }

  lemma {:induction false} WordLengthAll(w: string)
    requires Word(w)
    ensures WordLength(w) == |w|
    decreases |w|
  {
    if |w| > 1 {
      assert Word(w[1..]);
      WordLengthAll(w[1..]);
    }
  }

  /** A character absent from `s` is absent from every word of `s.split()`. */
  lemma {:induction false} WordsKeepAbsent(s: string, d: char)
    requires d !in s
    ensures forall k :: 0 <= k < |Words(s)| ==> d !in Words(s)[k]
    decreases |s|
  {
    if |s| > 0 {
      assert d !in s[1..];
      if IsSpace(s[0]) {
        WordsKeepAbsent(s[1..], d);
      } else {
        var n := WordLength(s);
        WordLengthWord(s);
        assert d !in s[n..] && d !in s[..n];
        WordsKeepAbsent(s[n..], d);
      }
    }
  }

  /** Joining texts without `d` by a separator without `d` gives a text without `d`. */
  lemma {:induction false} JoinKeepsAbsent(ws: seq<string>, sep: string, d: char)
    requires forall k :: 0 <= k < |ws| ==> d !in ws[k]
    requires d !in sep
    ensures d !in Join(ws, sep)
    decreases |ws|
  {
    if |ws| > 1 {
      JoinKeepsAbsent(ws[1..], sep, d);
    }
  }

  /** A text lacking one of the characters of `pat` holds no occurrence to replace. */
  lemma {:induction false} ReplaceAllMissing(s: string, pat: string, rep: string, c: char)
    requires |pat| > 0 && c in pat && c !in s
    ensures ReplaceAll(s, pat, rep) == s
    decreases |s|
  {
    if |s| >= |pat| {
      assert c !in s[..|pat|];
      assert s[..|pat|] != pat;
      assert c !in s[1..];
      ReplaceAllMissing(s[1..], pat, rep, c);
      assert [s[0]] + s[1..] == s;
    }
  }
}
