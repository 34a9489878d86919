/**
  Tournament selection of parents for the crossover (GenAlgo/parents_test.py
  and GeneticAlgorithm.select_parents): each round samples three candidates
  and keeps the one with the lowest anomaly score.
*/
module Parents {
  import opened Wrappers
  import opened Chromosome

  /** A parent candidate: its six probe columns and its anomaly score. */
  datatype Candidate = Candidate(row: Row, score: real)

  /** The positions drawn by `sample(n=3)`, in sample order. */
  datatype Tournament = Tournament(a: nat, b: nat, c: nat)

  /** Why selection raises: fewer than three candidates to sample
      (`ValueError`), or no round at all, so the empty frame has no probe
      columns to project (`KeyError`). */
  datatype SelectError = TooFewCandidates | NoColumns

  predicate ValidTournament(t: Tournament, n: nat)
  {
    t.a < n && t.b < n && t.c < n && t.a != t.b && t.b != t.c && t.a != t.c
  }

  /** `idxmin` over the tournament: the first entry, in sample order, of lowest score. */
  function Winner(cs: seq<Candidate>, t: Tournament): nat
    requires ValidTournament(t, |cs|)
  {
    var w := if cs[t.b].score < cs[t.a].score then t.b else t.a;
    if cs[t.c].score < cs[w].score then t.c else w
  }

  /** The winner is one of the three, no other scores lower, and among equal
      lowest scores the earliest drawn wins. */
  lemma WinnerIsFirstMinimum(cs: seq<Candidate>, t: Tournament)
    requires ValidTournament(t, |cs|)
    ensures Winner(cs, t) in {t.a, t.b, t.c}
    ensures cs[Winner(cs, t)].score <= cs[t.a].score
    ensures cs[Winner(cs, t)].score <= cs[t.b].score
    ensures cs[Winner(cs, t)].score <= cs[t.c].score
    ensures Winner(cs, t) == t.b ==> cs[t.b].score < cs[t.a].score
    ensures Winner(cs, t) == t.c ==> cs[t.c].score < cs[t.a].score && cs[t.c].score < cs[t.b].score
  {
  }

  /**
    `select_parents(parent_candidates_df, num_parents)`: one tournament per
    round, the winners' probe columns in round order.
  */
  method SelectParents(candidates: seq<Candidate>, numParents: nat, tournaments: seq<Tournament>)
    returns (r: Result<seq<Row>, SelectError>)
    requires |tournaments| == numParents
    requires forall i :: 0 <= i < |tournaments| ==> |candidates| < 3 || ValidTournament(tournaments[i], |candidates|)
    ensures r.Err? <==> numParents == 0 || |candidates| < 3
    ensures r == Err(TooFewCandidates) <==> numParents > 0 && |candidates| < 3
    ensures r.Ok? ==> |r.value| == numParents
    ensures r.Ok? ==> forall i :: 0 <= i < numParents ==>
              ValidTournament(tournaments[i], |candidates|)
              && r.value[i] == candidates[Winner(candidates, tournaments[i])].row
  {
    var parents: seq<Row> := [];
    for i := 0 to numParents
      invariant |parents| == i
      invariant i > 0 ==> |candidates| >= 3
      invariant forall k :: 0 <= k < i ==> parents[k] == candidates[Winner(candidates, tournaments[k])].row
    {
      if |candidates| < 3 {
        return Err(TooFewCandidates);
      }
      var t := tournaments[i];
      var winner := Winner(candidates, t);
      parents := parents + [candidates[winner].row];
    }
    if numParents == 0 {
      return Err(NoColumns);
    }
    return Ok(parents);
  }
}
