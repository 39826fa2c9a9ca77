/**
 What bounded resolution guarantees: what a verdict means, when the bounded search gives
 the verdict of a scan over every subject, and how much work it can ever do.
 */
module ResolutionFacts {
  import opened Prelude
  import opened Ranking
  import opened Lexicon
  import opened Snapshots
  import opened ProfileIndex
  import opened Scoring
  import opened Resolution

  // ----- what the generation score says

  /** Some narrow posting that the question consults holds `s`. */
  ghost predicate Reached(q: Query, s: string) {
    || (exists i :: 0 <= i < |q.tokens| && q.Hits(Token, q.tokens[i], s))
    || RescuedBy(q, Fragment, s)
    || RescuedBy(q, Ngram, s)
  }

  ghost predicate RescuedBy(q: Query, channel: Channel, s: string) {
    exists i, f :: 0 <= i < |q.AllMissing()| && f in Expand(channel, q.AllMissing()[i]) && q.Hits(channel, f, s)
  }

  lemma {:induction false} TokenScoreSign(q: Query, n: nat, s: string)
    requires q.WellFormed() && n <= |q.tokens|
    ensures q.TokenScore(n, s) == 0.0 || q.TokenScore(n, s) >= 4.0
    ensures q.TokenScore(n, s) > 0.0 <==> exists i :: 0 <= i < n && q.Hits(Token, q.tokens[i], s)
  {
    hide Idf, IndexState.Inverted, LogLike, Query.Hits;
    if n > 0 {
      TokenScoreSign(q, n - 1, s);
      IdfAtLeastOne(q.st, q.log, q.tokens[n - 1]);
    }
  }

  lemma {:induction false} RescueHitsSign(q: Query, channel: Channel, missing: seq<string>, n: nat, s: string)
    requires n <= |missing|
    ensures q.RescueHits(channel, missing, n, s) > 0 <==>
            exists i, f :: 0 <= i < n && f in Expand(channel, missing[i]) && q.Hits(channel, f, s)
  {
    hide Expand, Query.Hits;
    if n > 0 {
      RescueHitsSign(q, channel, missing, n - 1, s);
      var hits := q.HitSet(channel, Expand(channel, missing[n - 1]), s);
      if |hits| > 0 {
        assert hits != {};
        var f :| f in hits;
      }
      if f :| f in Expand(channel, missing[n - 1]) && q.Hits(channel, f, s) {
        assert f in hits;
      }
    }
  }

  /** A positive generation score is exactly being held by a narrow posting, and is at least one. */
  lemma GeneratedSign(q: Query, s: string)
    requires q.WellFormed()
    ensures q.Generated(s) == 0.0 || q.Generated(s) >= 1.0
    ensures q.Generated(s) > 0.0 <==> Reached(q, s)
  {
    hide Expand, Query.Hits, Query.Missing, Query.TokenScore, Query.RescueHits, LogLike, IndexState.Inverted;
    TokenScoreSign(q, |q.tokens|, s);
    RescueHitsSign(q, Fragment, q.AllMissing(), |q.AllMissing()|, s);
    RescueHitsSign(q, Ngram, q.AllMissing(), |q.AllMissing()|, s);
  }

  /** Every generated subject has a stored profile and carries the requested predicate. */
  lemma ReachedIsEligible(q: Query, s: string)
    requires q.WellFormed() && Reached(q, s)
    ensures s in Eligible(q.st, q.predicateId)
  {
    hide Expand, Query.Missing, LogLike, IndexState.Inverted, Looked, Eligible;
    if i :| 0 <= i < |q.tokens| && q.Hits(Token, q.tokens[i], s) {
      LookedExact(q.st, Token, q.tokens[i], q.predicateId, s);
    } else if RescuedBy(q, Fragment, s) {
      var i, f :| 0 <= i < |q.AllMissing()| && f in Expand(Fragment, q.AllMissing()[i]) && q.Hits(Fragment, f, s);
      LookedExact(q.st, Fragment, f, q.predicateId, s);
    } else {
      var i, f :| 0 <= i < |q.AllMissing()| && f in Expand(Ngram, q.AllMissing()[i]) && q.Hits(Ngram, f, s);
      LookedExact(q.st, Ngram, f, q.predicateId, s);
    }
  }

  /** The generation scores as a function of the question alone. */
  ghost function ScoresOf(q: Query): map<string, real> {
    map s | s in Eligible(q.st, q.predicateId) && q.Generated(s) > 0.0 :: q.Generated(s)
  }

  /** Every question has generation scores, and only one table of them. */
  lemma ScoresExactly(q: Query, scores: map<string, real>)
    requires q.WellFormed()
    ensures IsGenerated(q, scores) <==> scores == ScoresOf(q)
  {
    hide Query.WellFormed, Query.Generated, Eligible, Reached;
    forall s
      ensures At(ScoresOf(q), s) == q.Generated(s)
      ensures s in ScoresOf(q) ==> ScoresOf(q)[s] >= 1.0
    {
      GeneratedSign(q, s);
      if Reached(q, s) {
        ReachedIsEligible(q, s);
      }
    }
    assert IsGenerated(q, ScoresOf(q));
    if IsGenerated(q, scores) {
      GeneratedUnique(q, scores, ScoresOf(q));
    }
  }

  // ----- what the final score says

  lemma {:induction false} ExactSign(q: Query, n: nat, s: string)
    requires q.WellFormed() && n <= |q.tokens|
    ensures q.Exact(n, s) >= 0.0
    ensures q.Exact(n, s) > 0.0 <==> exists i :: 0 <= i < n && q.tokens[i] in q.st.views.At(s).profile
  {
    hide Idf, IndexState.Inverted, LogLike, Views.At;
    if n > 0 {
      ExactSign(q, n - 1, s);
      IdfAtLeastOne(q.st, q.log, q.tokens[n - 1]);
      var count := q.st.views.At(s).profile[q.tokens[n - 1]];
      if count > 0 {
        LogAtLeastZero(q.log, count);
        ProductPositive(Idf(q.st, q.log, q.tokens[n - 1]), 1.0 + q.log(count as real));
      }
    }
  }

  lemma LogAtLeastZero(log: real -> real, n: nat)
    requires LogLike(log) && n > 0
    ensures log(n as real) >= 0.0
  {
    assert 0.0 < 1.0 <= n as real;
    assert log(1.0) <= log(n as real);
  }

  lemma ProductPositive(a: real, b: real)
    requires a >= 1.0 && b >= 1.0
    ensures a * b > 0.0
  {
  }

  /** The question's lookups, none of which was skipped as broad. */
  ghost predicate NothingSkipped(q: Query) {
    forall i :: 0 <= i < |q.tokens| ==> !q.Broad(Token, q.tokens[i])
  }

  lemma {:induction false} NoBroadTokens(q: Query, n: nat)
    requires n <= |q.tokens| && q.TokenTotals(n).broad == 0
    ensures forall i :: 0 <= i < n ==> !q.Broad(Token, q.tokens[i])
  {
    hide Query.Broad, Query.EntryPairs, Query.BroadSet;
    if n > 0 {
      NoBroadTokens(q, n - 1);
      TokenCounts(q, q.tokens[n - 1]);
    }
  }

  /** With nothing skipped, an eligible subject scores exactly when it was generated. */
  lemma FinalSign(q: Query, s: string)
    requires q.WellFormed()
    ensures q.Final(s) >= 0.1 * q.Generated(s) >= 0.0
    ensures NothingSkipped(q) && s in Eligible(q.st, q.predicateId) ==> (q.Final(s) > 0.0 <==> Reached(q, s))
  {
    hide IndexState.Inverted, LogLike, Views.At, Query.Generated, Query.Exact, Query.Missing, Expand, Eligible, Looked;
    GeneratedSign(q, s);
    ExactSign(q, |q.tokens|, s);
    if NothingSkipped(q) && s in Eligible(q.st, q.predicateId) && q.Exact(|q.tokens|, s) > 0.0 {
      var i :| 0 <= i < |q.tokens| && q.tokens[i] in q.st.views.At(s).profile;
      InTokenFeatures(q.st.views.At(s).profile, q.tokens[i]);
      LookedExact(q.st, Token, q.tokens[i], q.predicateId, s);
      assert q.Hits(Token, q.tokens[i], s);
    }
  }

  lemma InTokenFeatures(profile: multiset<string>, t: string)
    ensures t in FeaturesOf(Token, profile) <==> t in profile
  {
    assert t in Expand(Token, t);
  }

  /** The eligible subjects a full scan would give a positive score. */
  ghost function Positive(q: Query): set<string> {
    set s | s in Eligible(q.st, q.predicateId) && q.Final(s) > 0.0
  }

  lemma GeneratedIsPositive(q: Query, scores: map<string, real>)
    requires q.WellFormed() && IsGenerated(q, scores)
    ensures scores.Keys <= Positive(q)
    ensures forall s :: s in scores ==> q.Final(s) >= 0.1
    ensures NothingSkipped(q) ==> scores.Keys == Positive(q)
  {
    hide IndexState.Inverted, LogLike, Query.Final, Query.Generated, Eligible, Reached, NothingSkipped;
    forall s
      ensures s in scores ==> s in Positive(q) && q.Final(s) >= 0.1
      ensures NothingSkipped(q) && s in Positive(q) ==> s in scores
    {
      assert At(scores, s) == q.Generated(s);
      GeneratedSign(q, s);
      FinalSign(q, s);
      if s in scores {
        ReachedIsEligible(q, s);
      }
    }
  }

  // ----- what a verdict says

  ghost predicate Descending(order: seq<string>, rank: map<string, real>) {
    forall i, j :: 0 <= i < j < |order| ==> Before(rank, order[i], order[j])
  }

  lemma {:induction false} TiedSpec(order: seq<string>, finals: map<string, real>, top: real, rank: map<string, real>)
    requires Descending(order, rank)
    ensures forall s :: s in Tied(order, finals, top) <==> s in order && Abs(At(finals, s) - top) <= TOLERANCE
    ensures Descending(Tied(order, finals, top), rank)
  {
    hide Before, Abs;
    if order != [] {
      var rest := order[1..];
      TiedSpec(rest, finals, top, rank);
      assert order == [order[0]] + rest;
      forall s | s in rest ensures Before(rank, order[0], s) {
        var k :| 0 <= k < |rest| && rest[k] == s;
        assert order[k + 1] == s;
      }
      var tail := Tied(rest, finals, top);
      forall k | 0 <= k < |tail| ensures Before(rank, order[0], tail[k]) {
        assert tail[k] in tail;
      }
    }
  }

  /** `w` beats every other member by more than the tie tolerance. */
  ghost predicate Beats(finals: map<string, real>, ids: set<string>, w: string) {
    w in ids && forall s :: s in ids && s != w ==> At(finals, w) > At(finals, s) + TOLERANCE
  }

  lemma RankedOrder(ids: set<string>, finals: map<string, real>)
    requires ids != {}
    ensures var order := Ranked(ids, Negated(finals));
            && order != [] && Descending(order, Negated(finals))
            && IsBest(finals, ids, order[0])
            && (|order| > 1 ==> order[0] != order[1] && IsBest(finals, ids - {order[0]}, order[1]))
  {
    var rank := Negated(finals);
    var order := Ranked(ids, rank);
    assert order[0] in order;
    forall s | s in ids
      ensures At(finals, s) <= At(finals, order[0])
      ensures |order| > 1 && s != order[0] ==> At(finals, s) <= At(finals, order[1])
    {
      assert s in order;
      var k :| 0 <= k < |order| && order[k] == s;
      if k > 0 { assert Before(rank, order[0], order[k]); }
      if k > 1 { assert Before(rank, order[1], order[k]); }
    }
    if |order| > 1 {
      assert order[1] in order;
      RankedDistinct(order, ids, rank, 0, 1);
    }
  }

  ghost predicate IsBest(finals: map<string, real>, ids: set<string>, w: string) {
    w in ids && forall s :: s in ids ==> At(finals, s) <= At(finals, w)
  }

  /** The best score among the others, or zero when there is no other. */
  ghost predicate RunnerUp(finals: map<string, real>, ids: set<string>, w: string, second: real) {
    if ids == {w} then second == 0.0
    else exists r :: IsBest(finals, ids - {w}, r) && second == At(finals, r)
  }

  /** A resolved verdict: nothing is reported ambiguous and the margin sets the confidence. */
  ghost predicate ResolvedWell(finals: map<string, real>, ids: set<string>, v: Verdict)
    requires v.subjectId.Some?
  {
    var top := At(finals, v.subjectId.value);
    v.ambiguous == [] && top > 0.0 &&
    exists second :: RunnerUp(finals, ids, v.subjectId.value, second) && v.confidence == Clamp((top - second) / top)
  }

  /** An ambiguous verdict: exactly the subjects within tolerance of the best, in rank order. */
  ghost predicate TiedWell(finals: map<string, real>, ids: set<string>, v: Verdict) {
    && |v.ambiguous| > 1 && v.confidence == 0.0
    && Descending(v.ambiguous, Negated(finals))
    && exists b :: IsBest(finals, ids, b) &&
         forall s :: s in v.ambiguous <==> s in ids && At(finals, s) >= At(finals, b) - TOLERANCE
  }

  /**
   Over positively scored subjects the decision resolves to the one subject that beats all
   others, and otherwise reports exactly those within tolerance of the best.
   */
  lemma DecideMeaning(ids: set<string>, finals: map<string, real>, sawBroad: bool)
    requires ids != {} && forall s :: s in ids ==> At(finals, s) > 0.0
    ensures var v := Decide(Ranked(ids, Negated(finals)), finals, sawBroad);
            && (forall w :: v.subjectId == Some(w) <==> Beats(finals, ids, w))
            && (v.subjectId.Some? ==> ResolvedWell(finals, ids, v))
            && (v.subjectId.None? ==> TiedWell(finals, ids, v))
  {
    hide Tied, Before, Ranked;
    var order := Ranked(ids, Negated(finals));
    RankedOrder(ids, finals);
    TiedCount(ids, finals);
    var v := Decide(order, finals, sawBroad);
    if v.subjectId.Some? {
      SecondIsRunnerUp(ids, finals);
    } else {
      TiedVerdict(ids, finals, v);
    }
  }

  lemma TiedVerdict(ids: set<string>, finals: map<string, real>, v: Verdict)
    requires ids != {}
    requires var order := Ranked(ids, Negated(finals));
             v == Verdict(None, Tied(order, finals, At(finals, order[0])), 0.0) && |v.ambiguous| > 1
    ensures TiedWell(finals, ids, v)
  {
    hide Tied, Before, Ranked;
    var order := Ranked(ids, Negated(finals));
    RankedOrder(ids, finals);
    TiedSpec(order, finals, At(finals, order[0]), Negated(finals));
    forall s ensures s in v.ambiguous <==> s in ids && At(finals, s) >= At(finals, order[0]) - TOLERANCE {
      assert s in order <==> s in ids;
    }
  }

  lemma SecondIsRunnerUp(ids: set<string>, finals: map<string, real>)
    requires ids != {}
    ensures var order := Ranked(ids, Negated(finals));
            RunnerUp(finals, ids, order[0], if |order| > 1 then At(finals, order[1]) else 0.0)
  {
    var order := Ranked(ids, Negated(finals));
    RankedOrder(ids, finals);
    if |order| == 1 {
      assert order == [order[0]];
      forall s ensures s in ids <==> s in {order[0]} {
        assert s in order <==> s in ids;
      }
      assert ids == {order[0]};
    }
  }

  lemma TiedCount(ids: set<string>, finals: map<string, real>)
    requires ids != {}
    ensures var order := Ranked(ids, Negated(finals));
            (forall w :: (w == order[0] && |Tied(order, finals, At(finals, order[0]))| <= 1) <==> Beats(finals, ids, w))
  {
    hide Ranked, Before;
    var rank := Negated(finals);
    var order := Ranked(ids, rank);
    var top := At(finals, order[0]);
    var tied := Tied(order, finals, top);
    RankedOrder(ids, finals);
    TiedSpec(order, finals, top, rank);
    assert order[0] in tied;
    if |tied| <= 1 {
      forall s | s in ids && s != order[0] ensures top > At(finals, s) + TOLERANCE {
        assert s in order;
        assert s !in tied;
      }
      assert Beats(finals, ids, order[0]);
    } else {
      BeforeIrreflexive(rank, tied[0]);
      assert tied[0] == order[0] && tied[1] in tied && tied[1] in order;
    }
  }

  /** An unmarked trace says that nothing was skipped. */
  lemma UnmarkedTrace(q: Query, candidates: seq<string>, trace: ResolutionTrace)
    requires TraceExact(q, candidates, trace) && trace.broadPostingsSkipped == 0
    ensures NothingSkipped(q)
  {
    hide Query.TokenTotals, Query.RescueTotals, Query.Broad;
    NoBroadTokens(q, |q.tokens|);
  }

  // ----- the main results

  /** The verdict of scoring every eligible subject in the index. */
  ghost function FullScan(q: Query): Verdict {
    ResolveOver(q, Positive(q), false)
  }

  lemma AllTaken(scores: map<string, real>, limit: nat)
    requires |scores.Keys| <= limit
    ensures Elements(Candidates(scores, limit)) == scores.Keys
  {
    var order := Ranked(scores.Keys, Negated(scores));
    assert Take(order, limit) == order;
  }

  /**
   Indexed resolution refines a full scan: if no exact posting was skipped as broad and the
   generated subjects fit the candidate limit, the verdict is the full scan's.
   */
  lemma RefinesFullScan(q: Query, scores: map<string, real>, limit: nat, sawBroad: bool)
    requires q.WellFormed() && IsGenerated(q, scores)
    requires NothingSkipped(q) && |scores.Keys| <= limit
    ensures Resolve(q, Candidates(scores, limit), sawBroad) == FullScan(q)
  {
    hide IndexState.Inverted, LogLike, Query.Final, Query.Generated, Decide, Positive, NothingSkipped, IsGenerated,
         Candidates;
    GeneratedIsPositive(q, scores);
    AllTaken(scores, limit);
    BroadFlagIgnored(q, scores, limit, sawBroad);
  }

  lemma FinalsAt(q: Query, ids: set<string>)
    ensures forall s :: s in ids ==> At(Finals(q, ids), s) == q.Final(s)
  {
  }

  lemma CandidatesGenerated(q: Query, scores: map<string, real>, limit: nat)
    requires q.WellFormed() && IsGenerated(q, scores)
    ensures Elements(Candidates(scores, limit)) <= scores.Keys
    ensures forall s :: s in Elements(Candidates(scores, limit)) ==> q.Final(s) >= 0.1
  {
    hide Query.Final, Query.WellFormed, IsGenerated;
    GeneratedIsPositive(q, scores);
    var order := Ranked(scores.Keys, Negated(scores));
    forall s | s in Elements(Candidates(scores, limit)) ensures s in scores.Keys {
      assert s in Take(order, limit);
      assert s in order;
    }
  }

  /** The guard on a non-positive best score never fires: every candidate scores at least 0.1. */
  lemma BroadFlagIgnored(q: Query, scores: map<string, real>, limit: nat, sawBroad: bool)
    requires q.WellFormed() && IsGenerated(q, scores)
    ensures Resolve(q, Candidates(scores, limit), sawBroad) == Resolve(q, Candidates(scores, limit), false)
  {
    hide Query.Final, Query.WellFormed, IsGenerated, Candidates;
    var ids := Elements(Candidates(scores, limit));
    CandidatesGenerated(q, scores, limit);
    FinalsAt(q, ids);
    if ids != {} {
      RankedOrder(ids, Finals(q, ids));
    }
  }

  /** Whatever was skipped or cut: a verdict is the meaning of its candidates' final scores. */
  lemma VerdictMeaning(q: Query, scores: map<string, real>, limit: nat, sawBroad: bool)
    requires q.WellFormed() && IsGenerated(q, scores)
    ensures var v := Resolve(q, Candidates(scores, limit), sawBroad);
            var ids := Elements(Candidates(scores, limit));
            && ids <= Eligible(q.st, q.predicateId)
            && (forall w :: v.subjectId == Some(w) <==>
                  w in ids && forall s :: s in ids && s != w ==> q.Final(w) > q.Final(s) + TOLERANCE)
            && 0.0 <= v.confidence <= 1.0
            && (v.subjectId.None? && v.ambiguous == [] <==> ids == {})
  {
    hide Query.Final, Query.WellFormed, IsGenerated, Candidates, Decide, Eligible, Ranked, RunnerUp;
    var ids := Elements(Candidates(scores, limit));
    CandidatesGenerated(q, scores, limit);
    GeneratedIsPositive(q, scores);
    FinalsAt(q, ids);
    if ids != {} {
      DecideMeaning(ids, Finals(q, ids), sawBroad);
      forall w
        ensures Beats(Finals(q, ids), ids, w) <==>
                w in ids && forall s :: s in ids && s != w ==> q.Final(w) > q.Final(s) + TOLERANCE
      {
      }
    }
  }

  /**
   With nothing skipped or cut, a question resolves to `w` exactly when `w` scores and beats
   every other eligible subject of the whole index by more than the tolerance.
   */
  lemma ResolvesToTheBest(q: Query, scores: map<string, real>, limit: nat, sawBroad: bool, w: string)
    requires q.WellFormed() && IsGenerated(q, scores)
    requires NothingSkipped(q) && |scores.Keys| <= limit
    ensures Resolve(q, Candidates(scores, limit), sawBroad).subjectId == Some(w) <==>
            && w in Eligible(q.st, q.predicateId) && q.Final(w) > 0.0
            && forall s :: s in Eligible(q.st, q.predicateId) && s != w ==> q.Final(w) > q.Final(s) + TOLERANCE
  {
    hide Query.Final, Query.WellFormed, IsGenerated, Candidates, Resolve, Eligible, NothingSkipped;
    VerdictMeaning(q, scores, limit, sawBroad);
    GeneratedIsPositive(q, scores);
    AllTaken(scores, limit);
    forall s ensures q.Final(s) >= 0.0 {
      FinalSign(q, s);
    }
    forall s | s in Eligible(q.st, q.predicateId) && s !in scores ensures q.Final(s) == 0.0 {
      assert s !in Positive(q);
    }
  }

  /** The verdict of the bounded search, as a function of the question and the candidate limit. */
  ghost function Bounded(q: Query, limit: nat): Verdict {
    Resolve(q, Candidates(ScoresOf(q), limit), false)
  }

  /** What the planner answers is that verdict. */
  lemma AnswersBounded(q: Query, limit: nat, verdict: Verdict, trace: ResolutionTrace)
    requires q.WellFormed() && Answered(q, limit, verdict, trace)
    ensures verdict == Bounded(q, limit)
  {
    hide Query.WellFormed, IsGenerated, TraceExact, Resolve, Candidates, ScoresOf;
    var scores :| IsGenerated(q, scores) && TraceExact(q, Candidates(scores, limit), trace)
                  && verdict == Resolve(q, Candidates(scores, limit), trace.broadPostingsSkipped > 0);
    ScoresExactly(q, scores);
    BroadFlagIgnored(q, scores, limit, trace.broadPostingsSkipped > 0);
  }

  /** The full scan names `w` exactly when `w` scores and beats every other scoring eligible subject. */
  lemma FullScanMeaning(q: Query, w: string)
    requires q.WellFormed()
    ensures FullScan(q).subjectId == Some(w) <==>
            w in Positive(q) && forall s :: s in Positive(q) && s != w ==> q.Final(w) > q.Final(s) + TOLERANCE
  {
    hide Query.Final, Query.WellFormed, Decide, Eligible, Ranked, RunnerUp;
    var ids := Positive(q);
    FinalsAt(q, ids);
    if ids != {} {
      DecideMeaning(ids, Finals(q, ids), false);
      assert Beats(Finals(q, ids), ids, w) <==>
             w in ids && forall s :: s in ids && s != w ==> q.Final(w) > q.Final(s) + TOLERANCE;
    }
  }

  /**
   The exact condition for the right name: whatever was skipped or cut, the bounded search
   names the full scan's winner exactly when the winner is among the candidates.
   */
  lemma NamesTheWinnerIffKept(q: Query, limit: nat, w: string)
    requires q.WellFormed() && FullScan(q).subjectId == Some(w)
    ensures Bounded(q, limit).subjectId == Some(w) <==> w in Elements(Candidates(ScoresOf(q), limit))
  {
    hide Query.Final, Query.WellFormed, IsGenerated, Candidates, Resolve, FullScan, Positive, ScoresOf;
    ScoresExactly(q, ScoresOf(q));
    VerdictMeaning(q, ScoresOf(q), limit, false);
    CandidatesGenerated(q, ScoresOf(q), limit);
    GeneratedIsPositive(q, ScoresOf(q));
    FullScanMeaning(q, w);
  }

  /**
   The exact condition for a wrong name: the search names `w` and the scan does not exactly
   when `w` is kept, beats every kept subject, and some scoring subject that was not kept
   comes within the tolerance of `w` or above it.
   */
  lemma NamesAnotherIff(q: Query, limit: nat, w: string)
    requires q.WellFormed()
    ensures var kept := Elements(Candidates(ScoresOf(q), limit));
            Bounded(q, limit).subjectId == Some(w) && FullScan(q).subjectId != Some(w) <==>
            && w in kept && (forall s :: s in kept && s != w ==> q.Final(w) > q.Final(s) + TOLERANCE)
            && exists s :: s in Positive(q) - kept && q.Final(s) >= q.Final(w) - TOLERANCE
  {
    hide Query.Final, Query.WellFormed, IsGenerated, Candidates, Resolve, FullScan, Positive, ScoresOf;
    ScoresExactly(q, ScoresOf(q));
    VerdictMeaning(q, ScoresOf(q), limit, false);
    CandidatesGenerated(q, ScoresOf(q), limit);
    GeneratedIsPositive(q, ScoresOf(q));
    FullScanMeaning(q, w);
  }

  /** A single generated subject is named. */
  lemma SoleCandidate(q: Query, limit: nat, w: string)
    requires q.WellFormed() && ScoresOf(q).Keys == {w} && limit > 0
    ensures Bounded(q, limit).subjectId == Some(w)
  {
    hide Query.Final, Query.WellFormed, Candidates, Resolve, Query.Generated, IsGenerated, ScoresOf;
    ScoresExactly(q, ScoresOf(q));
    AllTaken(ScoresOf(q), limit);
    VerdictMeaning(q, ScoresOf(q), limit, false);
  }

  /**
   What a caller can read off the trace: no skipped posting and fewer candidates than the
   limit certify the verdict of the full scan.
   */
  lemma TraceCertifiesFullScan(q: Query, limit: nat, verdict: Verdict, trace: ResolutionTrace)
    requires q.WellFormed() && Answered(q, limit, verdict, trace)
    requires trace.broadPostingsSkipped == 0 && trace.candidatesGenerated < limit
    ensures verdict == FullScan(q)
  {
    hide Query.WellFormed, IsGenerated, FullScan, Resolve, NothingSkipped, Query.TokenTotals, Query.RescueTotals;
    var scores :| IsGenerated(q, scores) && TraceExact(q, Candidates(scores, limit), trace)
                  && verdict == Resolve(q, Candidates(scores, limit), trace.broadPostingsSkipped > 0);
    UnmarkedTrace(q, Candidates(scores, limit), trace);
    assert |Take(Ranked(scores.Keys, Negated(scores)), limit)| < limit;
    RefinesFullScan(q, scores, limit, false);
  }

  /** A question has one answer: neither verdict nor trace depends on the order in which sets are iterated. */
  lemma OneAnswer(q: Query, limit: nat, v: Verdict, t: ResolutionTrace, w: Verdict, u: ResolutionTrace)
    requires Answered(q, limit, v, t) && Answered(q, limit, w, u)
    ensures v == w && t == u
  {
    hide IsGenerated, TraceExact, Resolve, Candidates;
    var a :| IsGenerated(q, a) && TraceExact(q, Candidates(a, limit), t)
             && v == Resolve(q, Candidates(a, limit), t.broadPostingsSkipped > 0);
    var b :| IsGenerated(q, b) && TraceExact(q, Candidates(b, limit), u)
             && w == Resolve(q, Candidates(b, limit), u.broadPostingsSkipped > 0);
    GeneratedUnique(q, a, b);
    SameTrace(q, Candidates(a, limit), t, u);
  }

  lemma SameTrace(q: Query, candidates: seq<string>, t: ResolutionTrace, u: ResolutionTrace)
    requires TraceExact(q, candidates, t) && TraceExact(q, candidates, u)
    ensures t == u
  {
    hide Query.TokenTotals, Query.RescueTotals;
  }

  lemma GeneratedUnique(q: Query, a: map<string, real>, b: map<string, real>)
    requires IsGenerated(q, a) && IsGenerated(q, b)
    ensures a == b
  {
    hide Query.Generated;
    forall s ensures s in a <==> s in b {
      assert At(a, s) == q.Generated(s) == At(b, s);
    }
    forall s | s in a ensures a[s] == b[s] {
      assert At(a, s) == q.Generated(s) == At(b, s);
    }
  }

  /** Broad names with nothing narrower to go by lead to abstention. */
  lemma NothingNarrowAbstains(q: Query, scores: map<string, real>, limit: nat, sawBroad: bool)
    requires q.WellFormed() && IsGenerated(q, scores) && limit > 0
    ensures Resolve(q, Candidates(scores, limit), sawBroad) == ABSTAIN <==> forall s :: !Reached(q, s)
  {
    hide Query.Final, Query.Generated, LogLike, IndexState.Inverted, Resolve, Reached, Eligible;
    forall s ensures s in scores <==> Reached(q, s) {
      assert At(scores, s) == q.Generated(s);
      GeneratedSign(q, s);
    }
    VerdictMeaning(q, scores, limit, sawBroad);
    var order := Ranked(scores.Keys, Negated(scores));
    if s :| s in scores {
      assert s in order;
      assert Take(order, limit)[0] in Elements(Candidates(scores, limit));
      assert Reached(q, s);
    } else {
      EmptyListing(order, scores.Keys, Negated(scores));
      assert Elements(Candidates(scores, limit)) == {};
      EmptyAbstains(q, Candidates(scores, limit), sawBroad);
    }
  }

  lemma EmptyListing(order: seq<string>, ids: set<string>, rank: map<string, real>)
    requires order == Ranked(ids, rank) && ids == {}
    ensures order == []
  {
  }

  lemma EmptyAbstains(q: Query, candidates: seq<string>, sawBroad: bool)
    requires Elements(candidates) == {}
    ensures Resolve(q, candidates, sawBroad) == ABSTAIN
  {
  }

  // ----- bounded work

  /** An expanded posting costs at most the broad limit, a skipped one nothing. */
  ghost predicate Economical(t: Totals, broadLimit: nat) {
    t.broad <= t.lookups && t.entries <= broadLimit * (t.lookups - t.broad)
  }

  lemma EconomicalPlus(a: Totals, b: Totals, broadLimit: nat)
    requires Economical(a, broadLimit) && Economical(b, broadLimit)
    ensures Economical(a.Plus(b), broadLimit)
  {
    assert broadLimit * (a.lookups - a.broad) + broadLimit * (b.lookups - b.broad) ==
           broadLimit * (a.lookups - a.broad + b.lookups - b.broad);
  }

  lemma {:induction false} FeaturesEconomical(q: Query, channel: Channel, features: set<string>)
    ensures Economical(Totals(|features|, |q.EntryPairs(channel, features)|, |q.BroadSet(channel, features)|),
                       q.broadLimit)
    decreases |features|
  {
    hide Query.EntryPairs, Query.BroadSet, Economical;
    if f :| f in features {
      var rest := features - {f};
      FeaturesEconomical(q, channel, rest);
      AddFeature(q, channel, rest, f);
      assert rest + {f} == features;
      OneEconomical(q, channel, f);
      EconomicalPlus(Totals(|rest|, |q.EntryPairs(channel, rest)|, |q.BroadSet(channel, rest)|),
                     One(q, channel, f), q.broadLimit);
    } else {
      NothingEconomical(q, channel, features);
    }
  }

  ghost function One(q: Query, channel: Channel, f: string): Totals {
    if q.Broad(channel, f) then Totals(1, 0, 1) else Totals(1, |q.Look(channel, f)|, 0)
  }

  lemma OneEconomical(q: Query, channel: Channel, f: string)
    ensures Economical(One(q, channel, f), q.broadLimit)
  {
  }

  lemma NothingEconomical(q: Query, channel: Channel, features: set<string>)
    requires features == {}
    ensures Economical(Totals(|features|, |q.EntryPairs(channel, features)|, |q.BroadSet(channel, features)|),
                       q.broadLimit)
  {
    assert q.EntryPairs(channel, features) == {};
    assert q.BroadSet(channel, features) == {};
  }

  lemma {:induction false} TokensEconomical(q: Query, n: nat)
    requires n <= |q.tokens|
    ensures Economical(q.TokenTotals(n), q.broadLimit)
  {
    hide Query.EntryPairs, Query.BroadSet;
    if n > 0 {
      TokensEconomical(q, n - 1);
      FeaturesEconomical(q, Token, {q.tokens[n - 1]});
      EconomicalPlus(q.TokenTotals(n - 1),
        Totals(1, |q.EntryPairs(Token, {q.tokens[n - 1]})|, |q.BroadSet(Token, {q.tokens[n - 1]})|), q.broadLimit);
    }
  }

  lemma {:induction false} RescuesEconomical(q: Query, channel: Channel, missing: seq<string>, n: nat)
    requires n <= |missing|
    ensures Economical(q.RescueTotals(channel, missing, n), q.broadLimit)
  {
    hide Query.EntryPairs, Query.BroadSet, Expand;
    if n > 0 {
      RescuesEconomical(q, channel, missing, n - 1);
      var fs := Expand(channel, missing[n - 1]);
      FeaturesEconomical(q, channel, fs);
      EconomicalPlus(q.RescueTotals(channel, missing, n - 1),
        Totals(|fs|, |q.EntryPairs(channel, fs)|, |q.BroadSet(channel, fs)|), q.broadLimit);
    }
  }

  /** Lookups of the first `n` tokens and of the rescues of those among them that are missing. */
  lemma {:induction false} LookupsFit(q: Query, n: nat)
    requires n <= |q.tokens|
    ensures q.TokenTotals(n).lookups == n && |q.Missing(n)| <= n
    ensures 4 * (n + q.RescueTotals(Fragment, q.Missing(n), |q.Missing(n)|).lookups
                   + q.RescueTotals(Ngram, q.Missing(n), |q.Missing(n)|).lookups)
            <= 5 * TotalLength(q.tokens[..n])
  {
    hide Query.EntryPairs, Query.BroadSet, Fragments, Ngrams, Query.Look, Query.RescueTotals;
    if n == 0 {
      NoRescue(q);
    } else {
      LookupsFit(q, n - 1);
      var t := q.tokens[n - 1];
      var m, m' := q.Missing(n - 1), q.Missing(n);
      assert q.tokens[..n] == q.tokens[..n - 1] + [t];
      TotalLengthSnoc(q.tokens[..n - 1], t);
      if m' == m + [t] {
        RescueLast(q, Fragment, m, t);
        RescueLast(q, Ngram, m, t);
        FragmentsFew(t);
        NgramsFew(t);
        assert Expand(Fragment, t) == Fragments(t) && Expand(Ngram, t) == Ngrams(t);
      } else {
        assert m' == m;
      }
    }
  }

  lemma NoRescue(q: Query)
    ensures q.Missing(0) == []
    ensures forall channel :: q.RescueTotals(channel, [], 0).lookups == 0
  {
  }

  lemma RescueLast(q: Query, channel: Channel, m: seq<string>, t: string)
    ensures q.RescueTotals(channel, m + [t], |m + [t]|).lookups ==
            q.RescueTotals(channel, m, |m|).lookups + |Expand(channel, t)|
  {
    hide Query.EntryPairs, Query.BroadSet, Expand;
    RescueTotalsPrefix(q, channel, m, t, |m|);
    assert (m + [t])[|m|] == t;
  }

  lemma {:induction false} RescueTotalsPrefix(q: Query, channel: Channel, m: seq<string>, t: string, n: nat)
    requires n <= |m|
    ensures q.RescueTotals(channel, m + [t], n) == q.RescueTotals(channel, m, n)
  {
    hide Query.EntryPairs, Query.BroadSet, Expand;
    if n > 0 {
      RescueTotalsPrefix(q, channel, m, t, n - 1);
    }
  }

  lemma {:induction false} TotalLengthSnoc(parts: seq<string>, t: string)
    ensures TotalLength(parts + [t]) == TotalLength(parts) + |t| + 1
  {
    if parts != [] {
      assert (parts + [t])[1..] == parts[1..] + [t];
      TotalLengthSnoc(parts[1..], t);
    }
  }

  lemma EconomicalTrace(q: Query, candidates: seq<string>, trace: ResolutionTrace)
    requires TraceExact(q, candidates, trace)
    ensures Economical(Totals(trace.Lookups(), trace.postingEntriesExamined, trace.broadPostingsSkipped), q.broadLimit)
  {
    hide Query.TokenTotals, Query.RescueTotals, Query.Missing, Economical;
    var n, m := |q.tokens|, q.AllMissing();
    TokensEconomical(q, n);
    RescuesEconomical(q, Fragment, m, |m|);
    RescuesEconomical(q, Ngram, m, |m|);
    EconomicalPlus(q.TokenTotals(n), q.RescueTotals(Fragment, m, |m|), q.broadLimit);
    EconomicalPlus(q.TokenTotals(n).Plus(q.RescueTotals(Fragment, m, |m|)), q.RescueTotals(Ngram, m, |m|),
                   q.broadLimit);
  }

  lemma LookupsOfTrace(q: Query, candidates: seq<string>, trace: ResolutionTrace)
    requires TraceExact(q, candidates, trace)
    ensures 4 * trace.Lookups() <= 5 * TotalLength(q.tokens)
  {
    hide Query.TokenTotals, Query.RescueTotals, Query.Missing, TotalLength;
    LookupsFit(q, |q.tokens|);
    assert q.tokens[..|q.tokens|] == q.tokens;
  }

  /**
   Resolution work does not depend on how many subjects there are: it is bounded by the
   question's length, the broad limit and the candidate limit.
   */
  lemma WorkBounded(q: Query, question: string, scores: map<string, real>, limit: nat, trace: ResolutionTrace)
    requires q.tokens == Lexical(question)
    requires TraceExact(q, Candidates(scores, limit), trace)
    ensures trace.broadPostingsSkipped <= trace.Lookups()
    ensures trace.postingEntriesExamined <= q.broadLimit * (trace.Lookups() - trace.broadPostingsSkipped)
    ensures 4 * trace.Lookups() <= 5 * (|question| + 1)
    ensures trace.profilesScored == trace.candidatesGenerated == |trace.candidateSubjectIds| <= limit
    ensures trace.LogicalWork() <= trace.Lookups() * (1 + q.broadLimit) + limit
  {
    hide Query.TokenTotals, Query.RescueTotals, Lexical, Query.Missing, TotalLength, Ranked, Negated;
    EconomicalTrace(q, Candidates(scores, limit), trace);
    LookupsOfTrace(q, Candidates(scores, limit), trace);
    LexicalFits(question);
    WorkSum(trace.Lookups(), trace.broadPostingsSkipped, trace.postingEntriesExamined, q.broadLimit);
  }

  lemma WorkSum(lookups: nat, broad: nat, entries: nat, broadLimit: nat)
    requires broad <= lookups && entries <= broadLimit * (lookups - broad)
    ensures lookups + entries <= lookups * (1 + broadLimit)
  {
    assert broadLimit * (lookups - broad) == broadLimit * lookups - broadLimit * broad;
    assert broadLimit * broad >= 0;
  }
}
