/** Bounded resolution of a question to a subject over the addressability index. */
module Resolution {
  import opened Prelude
  import opened Ranking
  import opened Lexicon
  import opened Snapshots
  import opened ProfileIndex
  import opened Scoring

  datatype ResolutionTrace = ResolutionTrace(
    totalSubjects: nat, tokenPostingLookups: nat, fragmentPostingLookups: nat, ngramPostingLookups: nat,
    postingEntriesExamined: nat, broadPostingsSkipped: nat, candidatesGenerated: nat, profilesScored: nat,
    candidateSubjectIds: seq<string>)
  {
    function Lookups(): nat {
      tokenPostingLookups + fragmentPostingLookups + ngramPostingLookups
    }

    function LogicalWork(): nat {
      tokenPostingLookups + fragmentPostingLookups + ngramPostingLookups
      + postingEntriesExamined + profilesScored
    }
  }

  /** Every recorded score is at least one. */
  ghost predicate Scored(scores: map<string, real>) {
    forall s :: s in scores ==> scores[s] >= 1.0
  }

  /** Adds the weight to the score of every member of a posting, in any order. */
  method Consume(scores: map<string, real>, posting: set<string>, weight: real) returns (scores': map<string, real>)
    requires weight >= 1.0 && Scored(scores)
    ensures Scored(scores')
    ensures forall s :: At(scores', s) == At(scores, s) + if s in posting then weight else 0.0
  {
    scores' := scores;
    var todo := posting;
    while todo != {}
      invariant todo <= posting
      invariant Scored(scores')
      invariant forall s :: At(scores', s) == At(scores, s) + if s in posting - todo then weight else 0.0
      decreases |todo|
    {
      var s :| s in todo;
      assert At(scores', s) == At(scores, s) >= 0.0;
      scores' := scores'[s := At(scores', s) + weight];
      todo := todo - {s};
    }
  }

  /** Scores after the exact-token loop has seen `n` tokens. */
  ghost predicate TokensSeen(q: Query, scores: map<string, real>, n: nat)
    requires n <= |q.tokens|
  {
    Scored(scores) && forall s :: At(scores, s) == q.TokenScore(n, s)
  }

  /** The exact-token loop: missing tokens are set aside, broad postings skipped, narrow ones consumed. */
  method LookUpTokens(q: Query) returns (scores: map<string, real>, missing: seq<string>, totals: Totals)
    requires q.WellFormed()
    ensures TokensSeen(q, scores, |q.tokens|)
    ensures missing == q.AllMissing()
    ensures totals == q.TokenTotals(|q.tokens|)
  {
    hide Idf, Query.EntryPairs, Query.BroadSet, IndexState.Inverted, LogLike;
    scores, missing := map[], [];
    var lookups: nat, entries: nat, broad: nat := 0, 0, 0;
    var i := 0;
    while i < |q.tokens|
      invariant i <= |q.tokens|
      invariant TokensSeen(q, scores, i)
      invariant missing == q.Missing(i)
      invariant Totals(lookups, entries, broad) == q.TokenTotals(i)
    {
      var token := q.tokens[i];
      var posting := q.Look(Token, token);
      TokenCounts(q, token);
      IdfAtLeastOne(q.st, q.log, token);
      lookups := lookups + 1;
      if |posting| == 0 {
        missing := missing + [token];
      } else if |posting| > q.broadLimit {
        broad := broad + 1;
      } else {
        scores := Consume(scores, posting, 4.0 * Idf(q.st, q.log, token));
        entries := entries + |posting|;
      }
      i := i + 1;
    }
    totals := Totals(lookups, entries, broad);
  }

  lemma TokenCounts(q: Query, token: string)
    ensures |q.EntryPairs(Token, {token})| ==
            if q.Broad(Token, token) then 0 else |q.Look(Token, token)|
    ensures |q.BroadSet(Token, {token})| == if q.Broad(Token, token) then 1 else 0
  {
    AddFeature(q, Token, {}, token);
    assert q.EntryPairs(Token, {}) == {} && q.BroadSet(Token, {}) == {};
    assert {} + {token} == {token};
  }

  /** How the counts grow by one more feature. */
  lemma AddHit(q: Query, channel: Channel, done: set<string>, f: string, s: string)
    requires f !in done
    ensures |q.HitSet(channel, done + {f}, s)| ==
            |q.HitSet(channel, done, s)| + if q.Hits(channel, f, s) then 1 else 0
  {
    hide Query.Hits;
    if q.Hits(channel, f, s) {
      assert q.HitSet(channel, done + {f}, s) == q.HitSet(channel, done, s) + {f};
    } else {
      assert q.HitSet(channel, done + {f}, s) == q.HitSet(channel, done, s);
    }
  }

  lemma AddBroad(q: Query, channel: Channel, done: set<string>, f: string)
    requires f !in done
    ensures |q.BroadSet(channel, done + {f})| ==
            |q.BroadSet(channel, done)| + if q.Broad(channel, f) then 1 else 0
  {
    hide Query.Broad;
    if q.Broad(channel, f) {
      assert q.BroadSet(channel, done + {f}) == q.BroadSet(channel, done) + {f};
    } else {
      assert q.BroadSet(channel, done + {f}) == q.BroadSet(channel, done);
    }
  }

  lemma AddEntries(q: Query, channel: Channel, done: set<string>, f: string)
    requires f !in done
    ensures |q.EntryPairs(channel, done + {f})| ==
            |q.EntryPairs(channel, done)| + if q.Broad(channel, f) then 0 else |q.Look(channel, f)|
  {
    hide Query.Look;
    if q.Broad(channel, f) {
      assert q.EntryPairs(channel, done + {f}) == q.EntryPairs(channel, done);
    } else {
      var row := With(f, q.Look(channel, f));
      assert q.EntryPairs(channel, done + {f}) == q.EntryPairs(channel, done) + row;
      assert q.EntryPairs(channel, done) !! row;
      WithSize(f, q.Look(channel, f));
    }
  }

  lemma AddFeature(q: Query, channel: Channel, done: set<string>, f: string)
    requires f !in done
    ensures |q.EntryPairs(channel, done + {f})| ==
            |q.EntryPairs(channel, done)| + if q.Broad(channel, f) then 0 else |q.Look(channel, f)|
    ensures |q.BroadSet(channel, done + {f})| ==
            |q.BroadSet(channel, done)| + if q.Broad(channel, f) then 1 else 0
  {
    AddEntries(q, channel, done, f);
    AddBroad(q, channel, done, f);
  }

  ghost function With(f: string, posting: set<string>): set<(string, string)> {
    set s | s in posting :: (f, s)
  }

  lemma {:induction false} WithSize(f: string, posting: set<string>)
    ensures |With(f, posting)| == |posting|
  {
    if s :| s in posting {
      WithSize(f, posting - {s});
      assert With(f, posting) == With(f, posting - {s}) + {(f, s)};
    }
  }

  /** Scores after `n` missing tokens have been rescued through one channel. */
  ghost predicate Rescued(q: Query, channel: Channel, weight: real, missing: seq<string>, n: nat,
                          base: map<string, real>, scores: map<string, real>)
    requires n <= |missing|
  {
    && Scored(scores)
    && forall s :: At(scores, s) == At(base, s) + Times(weight, q.RescueHits(channel, missing, n, s))
  }

  /** The same within one token, after the features in `done`. */
  ghost predicate RescuedWithin(q: Query, channel: Channel, weight: real, done: set<string>,
                                base: map<string, real>, scores: map<string, real>) {
    && Scored(scores)
    && forall s :: At(scores, s) == At(base, s) + Times(weight, |q.HitSet(channel, done, s)|)
  }

  /** One rescue loop: every feature of every missing token is looked up in one channel. */
  method Rescue(q: Query, channel: Channel, weight: real, missing: seq<string>, base: map<string, real>)
    returns (scores: map<string, real>, totals: Totals)
    requires weight >= 1.0 && Scored(base)
    ensures Rescued(q, channel, weight, missing, |missing|, base, scores)
    ensures totals == q.RescueTotals(channel, missing, |missing|)
  {
    hide Expand, Query.EntryPairs, Query.BroadSet, Query.HitSet;
    scores, totals := base, Totals(0, 0, 0);
    var i := 0;
    while i < |missing|
      invariant i <= |missing|
      invariant Rescued(q, channel, weight, missing, i, base, scores)
      invariant totals == q.RescueTotals(channel, missing, i)
    {
      ghost var before := scores;
      var more;
      scores, more := RescueToken(q, channel, weight, missing[i], scores);
      RescueStep(q, channel, weight, missing, i, base, before, scores);
      totals := totals.Plus(more);
      i := i + 1;
    }
  }

  lemma RescueStep(q: Query, channel: Channel, weight: real, missing: seq<string>, n: nat,
                   base: map<string, real>, before: map<string, real>, scores: map<string, real>)
    requires n < |missing| && Rescued(q, channel, weight, missing, n, base, before)
    requires RescuedWithin(q, channel, weight, Expand(channel, missing[n]), before, scores)
    ensures Rescued(q, channel, weight, missing, n + 1, base, scores)
  {
    hide Expand, Query.HitSet, Times;
    forall s
      ensures At(scores, s) == At(base, s) + Times(weight, q.RescueHits(channel, missing, n + 1, s))
    {
      var a, b := q.RescueHits(channel, missing, n, s), |q.HitSet(channel, Expand(channel, missing[n]), s)|;
      assert At(before, s) == At(base, s) + Times(weight, a);
      assert At(scores, s) == At(before, s) + Times(weight, b);
      Distribute(weight, a, b);
    }
  }

  function Times(weight: real, n: nat): real {
    weight * n as real
  }

  lemma Distribute(w: real, a: nat, b: nat)
    ensures Times(w, a + b) == Times(w, a) + Times(w, b)
    ensures Times(w, 0) == 0.0 && Times(w, 1) == w
  {
  }

  /** The inner loop over the features of one missing token, in any order. */
  method RescueToken(q: Query, channel: Channel, weight: real, token: string, base: map<string, real>)
    returns (scores: map<string, real>, totals: Totals)
    requires weight >= 1.0 && Scored(base)
    ensures RescuedWithin(q, channel, weight, Expand(channel, token), base, scores)
    ensures var fs := Expand(channel, token);
            totals == Totals(|fs|, |q.EntryPairs(channel, fs)|, |q.BroadSet(channel, fs)|)
  {
    hide Expand, Query.EntryPairs, Query.BroadSet, Query.HitSet;
    scores := base;
    var lookups: nat, entries: nat, broad: nat := 0, 0, 0;
    var features := Expand(channel, token);
    var todo := features;
    NothingYet(q, channel, weight, base);
    assert features - todo == {};
    while todo != {}
      invariant todo <= features
      invariant RescuedWithin(q, channel, weight, features - todo, base, scores)
      invariant lookups == |features - todo|
      invariant entries == |q.EntryPairs(channel, features - todo)|
      invariant broad == |q.BroadSet(channel, features - todo)|
      decreases |todo|
    {
      var f :| f in todo;
      ghost var done, before := features - todo, scores;
      AddFeature(q, channel, done, f);
      assert features - (todo - {f}) == done + {f};
      var posting := q.Look(channel, f);
      lookups := lookups + 1;
      if |posting| == 0 {
      } else if |posting| > q.broadLimit {
        broad := broad + 1;
      } else {
        scores := Consume(scores, posting, weight);
        entries := entries + |posting|;
      }
      WithinStep(q, channel, weight, done, f, base, before, scores);
      todo := todo - {f};
    }
    assert features - {} == features;
    totals := Totals(lookups, entries, broad);
  }

  lemma NothingYet(q: Query, channel: Channel, weight: real, base: map<string, real>)
    requires Scored(base)
    ensures RescuedWithin(q, channel, weight, {}, base, base)
    ensures q.EntryPairs(channel, {}) == {} && q.BroadSet(channel, {}) == {}
  {
    assert forall s :: q.HitSet(channel, {}, s) == {};
  }

  lemma WithinStep(q: Query, channel: Channel, weight: real, done: set<string>, f: string,
                   base: map<string, real>, before: map<string, real>, scores: map<string, real>)
    requires f !in done && Scored(scores)
    requires RescuedWithin(q, channel, weight, done, base, before)
    requires forall s :: At(scores, s) == At(before, s) + if q.Hits(channel, f, s) then weight else 0.0
    ensures RescuedWithin(q, channel, weight, done + {f}, base, scores)
  {
    hide Query.HitSet, Query.EntryPairs, Query.BroadSet, Query.Hits, Query.Broad, Query.Look, Times;
    forall s
      ensures At(scores, s) == At(base, s) + Times(weight, |q.HitSet(channel, done + {f}, s)|)
    {
      var n := |q.HitSet(channel, done, s)|;
      AddHit(q, channel, done, f, s);
      Distribute(weight, n, 1);
      assert At(before, s) == At(base, s) + Times(weight, n);
    }
  }

  /** A subject is generated exactly when its generation score is positive, and then with that score. */
  ghost predicate IsGenerated(q: Query, scores: map<string, real>) {
    && Scored(scores)
    && (forall s :: At(scores, s) == q.Generated(s))
  }

  lemma GeneratedTogether(q: Query, tokens: map<string, real>, fragments: map<string, real>, grams: map<string, real>)
    requires TokensSeen(q, tokens, |q.tokens|)
    requires Rescued(q, Fragment, 3.0, q.AllMissing(), |q.AllMissing()|, tokens, fragments)
    requires Rescued(q, Ngram, 1.0, q.AllMissing(), |q.AllMissing()|, fragments, grams)
    ensures IsGenerated(q, grams)
  {
    forall s ensures At(grams, s) == q.Generated(s) {
      assert At(tokens, s) == q.TokenScore(|q.tokens|, s);
    }
  }

  /** The ranked candidates: score descending, id ascending, cut at the limit. */
  ghost function Candidates(scores: map<string, real>, limit: nat): seq<string> {
    Take(Ranked(scores.Keys, Negated(scores)), limit)
  }

  /** The scores a final comparison uses, for the candidates only. */
  ghost predicate FinalScores(q: Query, candidates: seq<string>, finals: map<string, real>) {
    && (forall s :: s in finals <==> s in candidates)
    && forall s :: s in finals ==> finals[s] == q.Final(s)
  }

  datatype Verdict = Verdict(subjectId: Option<string>, ambiguous: seq<string>, confidence: real)

  const ABSTAIN := Verdict(None, [], 0.0)
  const TOLERANCE := 0.000000001

  function Abs(x: real): real {
    if x < 0.0 then -x else x
  }

  function Clamp(x: real): real {
    if x < 0.0 then 0.0 else if x > 1.0 then 1.0 else x
  }

  /** The members within the tie tolerance of `top`, in order. */
  function Tied(order: seq<string>, finals: map<string, real>, top: real): seq<string> {
    if order == [] then []
    else if Abs(At(finals, order[0]) - top) <= TOLERANCE then [order[0]] + Tied(order[1..], finals, top)
    else Tied(order[1..], finals, top)
  }

  /** The decision over a non-empty ranking. */
  function Decide(order: seq<string>, finals: map<string, real>, sawBroad: bool): Verdict
    requires order != []
  {
    var top := At(finals, order[0]);
    var tied := Tied(order, finals, top);
    if |tied| > 1 then Verdict(None, tied, 0.0)
    else if top <= 0.0 && sawBroad then ABSTAIN
    else
      var second := if |order| > 1 then At(finals, order[1]) else 0.0;
      Verdict(Some(order[0]), [], if top <= 0.0 then 1.0 else Clamp((top - second) / top))
  }

  class ScalableQueryPlanner {
    const index: SubjectProfileIndex
    const candidateLimit: nat
    const broadPostingLimit: nat
    const log: real -> real

    constructor (index: SubjectProfileIndex, candidateLimit: nat, broadPostingLimit: nat, log: real -> real)
      ensures this.index == index && this.candidateLimit == candidateLimit
      ensures this.broadPostingLimit == broadPostingLimit && this.log == log
    {
      this.index, this.candidateLimit := index, candidateLimit;
      this.broadPostingLimit, this.log := broadPostingLimit, log;
    }

    /** The question as the lookups see it. */
    function Ask(question: string, predicateId: Option<string>): Query
      reads this, index
    {
      Query(index.State(), log, broadPostingLimit, predicateId, Lexical(question))
    }

    method CandidateSubjects(question: string, predicateId: Option<string>)
      returns (candidates: seq<string>, scores: map<string, real>, trace: ResolutionTrace, sawBroad: bool)
      requires index.Valid() && LogLike(log)
      ensures var q := Query(index.State(), log, broadPostingLimit, predicateId, Lexical(question));
              IsGenerated(q, scores) && TraceExact(q, candidates, trace)
      ensures candidates == Candidates(scores, candidateLimit)
      ensures sawBroad <==> trace.broadPostingsSkipped > 0
    {
      hide Lexical, Query.TokenTotals, Query.RescueTotals, Query.TokenScore, Query.RescueHits, IndexState.Inverted;
      var q := Ask(question, predicateId);
      var tokenScores, missing, tokenTotals := LookUpTokens(q);
      var fragmentScores, fragmentTotals := Rescue(q, Fragment, 3.0, missing, tokenScores);
      var gramTotals;
      scores, gramTotals := Rescue(q, Ngram, 1.0, missing, fragmentScores);
      GeneratedTogether(q, tokenScores, fragmentScores, scores);
      var ranked := SortIds(scores.Keys, Negated(scores));
      candidates := Take(ranked, candidateLimit);
      var broad := tokenTotals.broad + fragmentTotals.broad + gramTotals.broad;
      trace := ResolutionTrace(
        |q.st.views.profiles|, tokenTotals.lookups, fragmentTotals.lookups, gramTotals.lookups,
        tokenTotals.entries + fragmentTotals.entries + gramTotals.entries, broad,
        |candidates|, |candidates|, candidates);
      sawBroad := broad > 0;
    }

    method Subject(question: string, predicateId: Option<string>)
      returns (verdict: Verdict, trace: ResolutionTrace)
      requires index.Valid() && LogLike(log)
      ensures var q := Query(index.State(), log, broadPostingLimit, predicateId, Lexical(question));
              Answered(q, candidateLimit, verdict, trace)
    {
      hide Lexical, Query.Final, IsGenerated, TraceExact, IndexState.Inverted, Candidates, Decide, Ranked, Negated;
      var q := Ask(question, predicateId);
      var candidates, scores, sawBroad;
      candidates, scores, trace, sawBroad := CandidateSubjects(question, predicateId);
      if candidates == [] {
        assert Resolve(q, Candidates(scores, candidateLimit), trace.broadPostingsSkipped > 0) == ABSTAIN;
        return ABSTAIN, trace;
      }
      var finals := ScoreCandidates(q, candidates, scores);
      FinalsUnique(q, candidates, finals);
      var order := SortIds(finals.Keys, Negated(finals));
      verdict := Decide(order, finals, sawBroad);
    }
  }

  /** The final scores as a table. */
  ghost function Finals(q: Query, ids: set<string>): map<string, real> {
    map s | s in ids :: q.Final(s)
  }

  /** The verdict over a set of subjects, each with its final score. */
  ghost function ResolveOver(q: Query, ids: set<string>, sawBroad: bool): Verdict {
    if ids == {} then ABSTAIN
    else Decide(Ranked(ids, Negated(Finals(q, ids))), Finals(q, ids), sawBroad)
  }

  ghost function Resolve(q: Query, candidates: seq<string>, sawBroad: bool): Verdict {
    ResolveOver(q, Elements(candidates), sawBroad)
  }

  /** What the planner returns: the verdict on the candidates of the generated scores, with the exact trace. */
  ghost predicate Answered(q: Query, limit: nat, verdict: Verdict, trace: ResolutionTrace) {
    exists scores: map<string, real> ::
      && IsGenerated(q, scores)
      && TraceExact(q, Candidates(scores, limit), trace)
      && verdict == Resolve(q, Candidates(scores, limit), trace.broadPostingsSkipped > 0)
  }

  lemma FinalsUnique(q: Query, candidates: seq<string>, finals: map<string, real>)
    requires FinalScores(q, candidates, finals) && candidates != []
    ensures finals == Finals(q, Elements(candidates)) && finals.Keys == Elements(candidates)
    ensures Elements(candidates) != {}
  {
    hide Query.Final;
    assert candidates[0] in Elements(candidates);
    assert finals.Keys == Elements(candidates);
  }

  /** The counters of a trace are the exact counts over the question's lookups. */
  ghost predicate TraceExact(q: Query, candidates: seq<string>, trace: ResolutionTrace) {
    var n := |q.AllMissing()|;
    var t, f, g := q.TokenTotals(|q.tokens|), q.RescueTotals(Fragment, q.AllMissing(), n),
                   q.RescueTotals(Ngram, q.AllMissing(), n);
    trace == ResolutionTrace(
      |q.st.views.profiles|, t.lookups, f.lookups, g.lookups, t.entries + f.entries + g.entries,
      t.broad + f.broad + g.broad, |candidates|, |candidates|, candidates)
  }

  /** The scoring loop of the final comparison. */
  method ScoreCandidates(q: Query, candidates: seq<string>, generated: map<string, real>)
    returns (finals: map<string, real>)
    requires IsGenerated(q, generated)
    ensures FinalScores(q, candidates, finals)
  {
    hide Query.Generated;
    finals := map[];
    var i := 0;
    while i < |candidates|
      invariant i <= |candidates|
      invariant forall s :: s in finals <==> s in candidates[..i]
      invariant forall s :: s in finals ==> finals[s] == q.Final(s)
    {
      var s := candidates[i];
      var exact := ExactScore(q, q.st.views.At(s).profile, s);
      finals := finals[s := exact + 0.1 * At(generated, s)];
      assert candidates[..i + 1] == candidates[..i] + [s];
      i := i + 1;
    }
    assert candidates[..i] == candidates;
  }

  method ExactScore(q: Query, profile: multiset<string>, ghost s: string) returns (exact: real)
    requires profile == q.st.views.At(s).profile
    ensures exact == q.Exact(|q.tokens|, s)
  {
    hide Idf;
    exact := 0.0;
    var i := 0;
    while i < |q.tokens|
      invariant i <= |q.tokens|
      invariant exact == q.Exact(i, s)
    {
      var token := q.tokens[i];
      if token in profile {
        exact := exact + Idf(q.st, q.log, token) * (1.0 + q.log(profile[token] as real));
      }
      i := i + 1;
    }
  }
}
