/**
 The scores, counters and verdicts of query resolution written out: sums and cardinalities
 over the question's words, their fragments and n-grams, and the postings of the index.
 */
module ClosedForms {
  import opened Prelude
  import opened Ranking
  import opened Lexicon
  import opened Snapshots
  import opened ProfileIndex
  import opened Scoring
  import opened Resolution
  import opened ResolutionFacts

  ghost function Sum(terms: seq<real>): real {
    if terms == [] then 0.0 else Sum(terms[..|terms| - 1]) + terms[|terms| - 1]
  }

  // ----- weights and postings

  /** The weight of a word: a smoothed inverse document frequency over at least one profile. */
  lemma IdfExactly(st: IndexState, log: real -> real, t: string)
    ensures var holders: set<string> := if t in st.token then st.token[t] else {};
            var known := |st.views.profiles|;
            Idf(st, log, t) == 1.0 + log((if known == 0 then 2 else 1 + known) as real / (1 + |holders|) as real)
  {
  }

  /** A looked-up posting: the profiled subjects that yield the feature and carry the predicate, if one is known. */
  lemma LookedExactly(st: IndexState, channel: Channel, f: string, predicateId: Option<string>, s: string)
    requires st.Inverted()
    ensures s in Looked(st, channel, f, predicateId) <==>
      && s in st.views.profiles && f in FeaturesOf(channel, st.views.profiles[s])
      && (predicateId.Some? ==> s in st.views.predicates && predicateId.value in st.views.predicates[s])
  {
    hide FeaturesOf, IndexState.Inverted;
    LookedExact(st, channel, f, predicateId, s);
  }

  // ----- generation scores

  ghost function TokenTerm(q: Query, i: nat, s: string): real
    requires i < |q.tokens|
  {
    var posting := Looked(q.st, Token, q.tokens[i], q.predicateId);
    if s in posting && |posting| <= q.broadLimit then 4.0 * Idf(q.st, q.log, q.tokens[i]) else 0.0
  }

  lemma {:induction false} TokenScoreExactly(q: Query, n: nat, s: string)
    requires n <= |q.tokens|
    ensures q.TokenScore(n, s) == Sum(seq(n, i requires 0 <= i < n => TokenTerm(q, i, s)))
  {
    hide Idf, Looked;
    var terms := seq(n, i requires 0 <= i < n => TokenTerm(q, i, s));
    if n > 0 {
      TokenScoreExactly(q, n - 1, s);
      assert terms[..n - 1] == seq(n - 1, i requires 0 <= i < n - 1 => TokenTerm(q, i, s));
    }
  }

  ghost predicate IsMissing(q: Query, i: nat)
    requires i < |q.tokens|
  {
    Looked(q.st, Token, q.tokens[i], q.predicateId) == {}
  }

  /** The fragments of the `i`-th word if no posting knows the word, and likewise its n-grams. */
  ghost function MissingFragments(q: Query, i: nat): set<string>
    requires i < |q.tokens|
  {
    if IsMissing(q, i) then Fragments(q.tokens[i]) else {}
  }

  ghost function MissingNgrams(q: Query, i: nat): set<string>
    requires i < |q.tokens|
  {
    if IsMissing(q, i) then Ngrams(q.tokens[i]) else {}
  }

  ghost predicate Narrow(q: Query, channel: Channel, f: string) {
    |Looked(q.st, channel, f, q.predicateId)| <= q.broadLimit
  }

  /** What the first `n` missing words look up in one of the two rescue channels. */
  ghost function LookupsIn(q: Query, channel: Channel, n: nat): set<(nat, string)>
    requires n <= |q.tokens|
  {
    match channel
    case Token => {}
    case Fragment => set i: nat, f | i < n && f in MissingFragments(q, i) :: (i, f)
    case Ngram => set i: nat, f | i < n && f in MissingNgrams(q, i) :: (i, f)
  }

  ghost function HitsIn(q: Query, channel: Channel, n: nat, s: string): set<(nat, string)>
    requires n <= |q.tokens|
  {
    set p | p in LookupsIn(q, channel, n) && s in Looked(q.st, channel, p.1, q.predicateId) && Narrow(q, channel, p.1)
  }

  ghost function SkipsIn(q: Query, channel: Channel, n: nat): set<(nat, string)>
    requires n <= |q.tokens|
  {
    set p | p in LookupsIn(q, channel, n) && !Narrow(q, channel, p.1)
  }

  ghost function EntriesIn(q: Query, channel: Channel, n: nat): set<((nat, string), string)>
    requires n <= |q.tokens|
  {
    set p, s | p in LookupsIn(q, channel, n) && Narrow(q, channel, p.1)
               && s in Looked(q.st, channel, p.1, q.predicateId) :: (p, s)
  }

  /** One more word adds its features when it is missing, tagged with its position. */
  lemma LookupsStep(q: Query, channel: Channel, n: nat)
    requires n < |q.tokens| && channel != Token
    ensures LookupsIn(q, channel, n + 1) == LookupsIn(q, channel, n) +
              (if IsMissing(q, n) then Tagged(n, Expand(channel, q.tokens[n])) else {})
    ensures forall p :: p in LookupsIn(q, channel, n) ==> p.0 < n
  {
    hide Fragments, Ngrams, Looked;
  }

  ghost function Tagged(n: nat, features: set<string>): set<(nat, string)> {
    set f | f in features :: (n, f)
  }

  lemma {:induction false} TaggedSize(n: nat, features: set<string>)
    ensures |Tagged(n, features)| == |features|
  {
    if f :| f in features {
      TaggedSize(n, features - {f});
      assert Tagged(n, features) == Tagged(n, features - {f}) + {(n, f)};
    } else {
      assert Tagged(n, features) == {};
    }
  }

  /** A word extends the rescue counts by what its features contribute. */
  lemma {:induction false} RescuePrefix(q: Query, channel: Channel, m: seq<string>, t: string, n: nat, s: string)
    requires n <= |m|
    ensures q.RescueHits(channel, m + [t], n, s) == q.RescueHits(channel, m, n, s)
  {
    hide Query.HitSet, Expand;
    if n > 0 {
      RescuePrefix(q, channel, m, t, n - 1, s);
    }
  }

  lemma RescueOneMore(q: Query, channel: Channel, n: nat, s: string)
    requires n < |q.tokens|
    ensures var m, m' := q.Missing(n), q.Missing(n + 1);
            q.RescueHits(channel, m', |m'|, s) ==
            q.RescueHits(channel, m, |m|, s) +
              if IsMissing(q, n) then |q.HitSet(channel, Expand(channel, q.tokens[n]), s)| else 0
  {
    hide Query.HitSet, Expand, Looked;
    var m := q.Missing(n);
    if IsMissing(q, n) {
      RescuePrefix(q, channel, m, q.tokens[n], |m|, s);
      assert q.Missing(n + 1) == m + [q.tokens[n]];
      assert (m + [q.tokens[n]])[|m|] == q.tokens[n];
    } else {
      assert q.Missing(n + 1) == m + [] == m;
    }
  }

  lemma HitsStep(q: Query, channel: Channel, n: nat, s: string)
    requires n < |q.tokens| && channel != Token
    ensures |HitsIn(q, channel, n + 1, s)| ==
            |HitsIn(q, channel, n, s)| +
              if IsMissing(q, n) then |q.HitSet(channel, Expand(channel, q.tokens[n]), s)| else 0
  {
    hide Looked, HitsIn, Query.HitSet, Tagged;
    var more := q.HitSet(channel, Expand(channel, q.tokens[n]), s);
    HitsGrow(q, channel, n, s);
    TaggedSize(n, more);
  }

  lemma HitsGrow(q: Query, channel: Channel, n: nat, s: string)
    requires n < |q.tokens| && channel != Token
    ensures var more := Tagged(n, q.HitSet(channel, Expand(channel, q.tokens[n]), s));
            HitsIn(q, channel, n, s) !! more &&
            HitsIn(q, channel, n + 1, s) == HitsIn(q, channel, n, s) + if IsMissing(q, n) then more else {}
  {
    hide Looked, Expand, LookupsIn, IsMissing;
    LookupsStep(q, channel, n);
  }

  lemma {:induction false} RescueHitsExactly(q: Query, channel: Channel, n: nat, s: string)
    requires n <= |q.tokens| && channel != Token
    ensures q.RescueHits(channel, q.Missing(n), |q.Missing(n)|, s) == |HitsIn(q, channel, n, s)|
    decreases n
  {
    hide *;
    if n == 0 {
      NoHits(q, channel, s);
      NoRescueHits(q, channel, s);
    } else {
      RescueHitsExactly(q, channel, n - 1, s);
      RescueOneMore(q, channel, n - 1, s);
      HitsStep(q, channel, n - 1, s);
    }
  }

  lemma NoHits(q: Query, channel: Channel, s: string)
    ensures HitsIn(q, channel, 0, s) == {}
  {
    NoLookups(q, channel);
  }

  lemma NoLookups(q: Query, channel: Channel)
    ensures LookupsIn(q, channel, 0) == {}
  {
  }

  lemma NoRescueHits(q: Query, channel: Channel, s: string)
    ensures q.RescueHits(channel, q.Missing(0), |q.Missing(0)|, s) == 0
  {
  }

  /**
   The generation score: four times the weight for every occurrence of a question word whose
   narrow posting holds the subject, three for every such fragment of a missing word, one for
   every such n-gram.
   */
  lemma GeneratedExactly(q: Query, s: string)
    ensures var n := |q.tokens|;
            q.Generated(s) ==
              Sum(seq(n, i requires 0 <= i < n => TokenTerm(q, i, s)))
              + 3.0 * |HitsIn(q, Fragment, n, s)| as real
              + 1.0 * |HitsIn(q, Ngram, n, s)| as real
  {
    hide Query.Missing, Query.RescueHits, Query.TokenScore, HitsIn, TokenTerm, Sum;
    TokenScoreExactly(q, |q.tokens|, s);
    RescueHitsExactly(q, Fragment, |q.tokens|, s);
    RescueHitsExactly(q, Ngram, |q.tokens|, s);
  }

  // ----- final scores

  ghost function ExactTerm(q: Query, i: nat, s: string): real
    requires i < |q.tokens|
  {
    if s in q.st.views.profiles && q.st.views.profiles[s][q.tokens[i]] > 0
    then Idf(q.st, q.log, q.tokens[i]) * (1.0 + q.log(q.st.views.profiles[s][q.tokens[i]] as real))
    else 0.0
  }

  /**
   The final score: for every occurrence of a question word in the profile its weight, damped
   by the logarithm of its count, and a tenth of the generation score.
   */
  lemma FinalExactly(q: Query, s: string)
    ensures var n := |q.tokens|;
            q.Final(s) == Sum(seq(n, i requires 0 <= i < n => ExactTerm(q, i, s))) + 0.1 * q.Generated(s)
  {
    hide Query.Exact, Query.Generated, ExactTerm, Sum;
    ExactExactly(q, |q.tokens|, s);
  }

  lemma {:induction false} ExactExactly(q: Query, n: nat, s: string)
    requires n <= |q.tokens|
    ensures q.Exact(n, s) == Sum(seq(n, i requires 0 <= i < n => ExactTerm(q, i, s)))
  {
    hide Idf;
    var terms := seq(n, i requires 0 <= i < n => ExactTerm(q, i, s));
    if n > 0 {
      ExactExactly(q, n - 1, s);
      assert terms[..n - 1] == seq(n - 1, i requires 0 <= i < n - 1 => ExactTerm(q, i, s));
    }
  }

  // ----- the trace

  lemma TotalsOneMore(q: Query, channel: Channel, n: nat)
    requires n < |q.tokens|
    ensures var m, m', fs := q.Missing(n), q.Missing(n + 1), Expand(channel, q.tokens[n]);
            q.RescueTotals(channel, m', |m'|) ==
            if IsMissing(q, n)
            then q.RescueTotals(channel, m, |m|).Plus(
                   Totals(|fs|, |q.EntryPairs(channel, fs)|, |q.BroadSet(channel, fs)|))
            else q.RescueTotals(channel, m, |m|)
  {
    hide Query.EntryPairs, Query.BroadSet, Expand, Looked;
    var m := q.Missing(n);
    if IsMissing(q, n) {
      RescueTotalsPrefix(q, channel, m, q.tokens[n], |m|);
      assert q.Missing(n + 1) == m + [q.tokens[n]];
      assert (m + [q.tokens[n]])[|m|] == q.tokens[n];
    } else {
      assert q.Missing(n + 1) == m + [] == m;
    }
  }

  ghost function Counts(q: Query, channel: Channel, n: nat): Totals
    requires n <= |q.tokens|
  {
    Totals(|LookupsIn(q, channel, n)|, |EntriesIn(q, channel, n)|, |SkipsIn(q, channel, n)|)
  }

  lemma CountsStep(q: Query, channel: Channel, n: nat)
    requires n < |q.tokens| && channel != Token
    ensures var fs := Expand(channel, q.tokens[n]);
            Counts(q, channel, n + 1) ==
            if IsMissing(q, n)
            then Counts(q, channel, n).Plus(Totals(|fs|, |q.EntryPairs(channel, fs)|, |q.BroadSet(channel, fs)|))
            else Counts(q, channel, n)
  {
    hide LookupsIn, Looked, Expand, Query.EntryPairs, Query.BroadSet, EntriesIn, SkipsIn, IsMissing;
    if IsMissing(q, n) {
      MissingAdds(q, channel, n);
    } else {
      KnownAddsNothing(q, channel, n);
    }
  }

  lemma {:induction false} RescueTotalsExactly(q: Query, channel: Channel, n: nat)
    requires n <= |q.tokens| && channel != Token
    ensures q.RescueTotals(channel, q.Missing(n), |q.Missing(n)|) == Counts(q, channel, n)
    decreases n
  {
    hide *;
    if n == 0 {
      NoTotals(q, channel);
    } else {
      RescueTotalsExactly(q, channel, n - 1);
      TotalsOneMore(q, channel, n - 1);
      CountsStep(q, channel, n - 1);
    }
  }

  lemma NoTotals(q: Query, channel: Channel)
    ensures q.RescueTotals(channel, q.Missing(0), |q.Missing(0)|) == Counts(q, channel, 0)
  {
    NoLookups(q, channel);
    assert EntriesIn(q, channel, 0) == {} && SkipsIn(q, channel, 0) == {};
  }

  lemma KnownAddsNothing(q: Query, channel: Channel, n: nat)
    requires n < |q.tokens| && channel != Token && !IsMissing(q, n)
    ensures LookupsIn(q, channel, n + 1) == LookupsIn(q, channel, n)
    ensures EntriesIn(q, channel, n + 1) == EntriesIn(q, channel, n)
    ensures SkipsIn(q, channel, n + 1) == SkipsIn(q, channel, n)
  {
    hide LookupsIn, Looked, Expand;
    LookupsStep(q, channel, n);
    assert LookupsIn(q, channel, n + 1) == LookupsIn(q, channel, n);
  }

  lemma MissingAdds(q: Query, channel: Channel, n: nat)
    requires n < |q.tokens| && channel != Token && IsMissing(q, n)
    ensures var fs := Expand(channel, q.tokens[n]);
            && |LookupsIn(q, channel, n + 1)| == |LookupsIn(q, channel, n)| + |fs|
            && |EntriesIn(q, channel, n + 1)| == |EntriesIn(q, channel, n)| + |q.EntryPairs(channel, fs)|
            && |SkipsIn(q, channel, n + 1)| == |SkipsIn(q, channel, n)| + |q.BroadSet(channel, fs)|
  {
    hide LookupsIn, Looked, Expand;
    var fs := Expand(channel, q.tokens[n]);
    LookupsStep(q, channel, n);
    TaggedSize(n, fs);
    var tagged := Tagged(n, fs);
    assert LookupsIn(q, channel, n + 1) == LookupsIn(q, channel, n) + tagged;
    assert LookupsIn(q, channel, n) !! tagged;
    var skips := Tagged(n, q.BroadSet(channel, fs));
    TaggedSize(n, q.BroadSet(channel, fs));
    assert SkipsIn(q, channel, n + 1) == SkipsIn(q, channel, n) + skips;
    assert SkipsIn(q, channel, n) !! skips;
    var entries := set p | p in q.EntryPairs(channel, fs) :: ((n, p.0), p.1);
    TaggedPairs(n, q.EntryPairs(channel, fs));
    EntriesStep(q, channel, n, entries);
  }

  lemma EntriesStep(q: Query, channel: Channel, n: nat, entries: set<((nat, string), string)>)
    requires n < |q.tokens| && channel != Token && IsMissing(q, n)
    requires entries == set p | p in q.EntryPairs(channel, Expand(channel, q.tokens[n])) :: ((n, p.0), p.1)
    ensures |EntriesIn(q, channel, n + 1)| == |EntriesIn(q, channel, n)| + |entries|
  {
    hide LookupsIn, Looked, Expand;
    LookupsStep(q, channel, n);
    var fs := Expand(channel, q.tokens[n]);
    forall x ensures x in EntriesIn(q, channel, n + 1) <==> x in EntriesIn(q, channel, n) || x in entries {
      if x in entries {
        var p :| p in q.EntryPairs(channel, fs) && x == ((n, p.0), p.1);
        assert x.0 in LookupsIn(q, channel, n + 1);
      }
      if x in EntriesIn(q, channel, n + 1) && x !in EntriesIn(q, channel, n) {
        assert x.0.0 == n && (x.0.1, x.1) in q.EntryPairs(channel, fs);
      }
    }
    assert EntriesIn(q, channel, n + 1) == EntriesIn(q, channel, n) + entries;
    assert EntriesIn(q, channel, n) !! entries;
  }

  lemma {:induction false} TaggedPairs(n: nat, pairs: set<(string, string)>)
    ensures |set p | p in pairs :: ((n, p.0), p.1)| == |pairs|
  {
    if p :| p in pairs {
      TaggedPairs(n, pairs - {p});
      assert (set r | r in pairs :: ((n, r.0), r.1)) ==
             (set r | r in pairs - {p} :: ((n, r.0), r.1)) + {((n, p.0), p.1)};
    } else {
      assert (set r | r in pairs :: ((n, r.0), r.1)) == {};
    }
  }

  ghost function TokenEntries(q: Query, n: nat): set<(nat, string)>
    requires n <= |q.tokens|
  {
    set i: nat, s | i < n && Narrow(q, Token, q.tokens[i])
                    && s in Looked(q.st, Token, q.tokens[i], q.predicateId) :: (i, s)
  }

  ghost function TokenSkips(q: Query, n: nat): set<nat>
    requires n <= |q.tokens|
  {
    set i: nat | i < n && !Narrow(q, Token, q.tokens[i])
  }

  lemma TokenCountsStep(q: Query, n: nat)
    requires n < |q.tokens|
    ensures var narrow := Narrow(q, Token, q.tokens[n]);
            && |TokenEntries(q, n + 1)| == |TokenEntries(q, n)| +
                 (if narrow then |Looked(q.st, Token, q.tokens[n], q.predicateId)| else 0)
            && |TokenSkips(q, n + 1)| == |TokenSkips(q, n)| + if narrow then 0 else 1
  {
    hide Looked, TokenEntries, TokenSkips, Tagged, Narrow;
    TokenSetsStep(q, n);
    TaggedSize(n, Looked(q.st, Token, q.tokens[n], q.predicateId));
  }

  lemma TokenSetsStep(q: Query, n: nat)
    requires n < |q.tokens|
    ensures var narrow := Narrow(q, Token, q.tokens[n]);
            var tagged := Tagged(n, Looked(q.st, Token, q.tokens[n], q.predicateId));
            && TokenEntries(q, n) !! tagged && n !in TokenSkips(q, n)
            && TokenEntries(q, n + 1) == TokenEntries(q, n) + (if narrow then tagged else {})
            && TokenSkips(q, n + 1) == TokenSkips(q, n) + if narrow then {} else {n}
  {
    hide Looked, Narrow;
  }

  lemma {:induction false} TokenTotalsExactly(q: Query, n: nat)
    requires n <= |q.tokens|
    ensures q.TokenTotals(n) == Totals(n, |TokenEntries(q, n)|, |TokenSkips(q, n)|)
  {
    hide Looked, Query.EntryPairs, Query.BroadSet, TokenEntries, TokenSkips;
    if n == 0 {
      NoTokens(q);
    } else {
      TokenTotalsExactly(q, n - 1);
      TokenCounts(q, q.tokens[n - 1]);
      TokenCountsStep(q, n - 1);
    }
  }

  lemma NoTokens(q: Query)
    ensures TokenEntries(q, 0) == {} && TokenSkips(q, 0) == {}
  {
  }

  /** The trace of a resolution, field by field, and the two sums derived from it. */
  lemma TraceExactly(q: Query, candidates: seq<string>, trace: ResolutionTrace)
    requires TraceExact(q, candidates, trace)
    ensures var n := |q.tokens|;
            && trace.totalSubjects == |q.st.views.profiles|
            && trace.tokenPostingLookups == n
            && trace.fragmentPostingLookups == |LookupsIn(q, Fragment, n)|
            && trace.ngramPostingLookups == |LookupsIn(q, Ngram, n)|
            && trace.postingEntriesExamined ==
                 |TokenEntries(q, n)| + |EntriesIn(q, Fragment, n)| + |EntriesIn(q, Ngram, n)|
            && trace.broadPostingsSkipped == |TokenSkips(q, n)| + |SkipsIn(q, Fragment, n)| + |SkipsIn(q, Ngram, n)|
            && trace.candidatesGenerated == trace.profilesScored == |candidates|
            && trace.candidateSubjectIds == candidates
            && trace.LogicalWork() ==
                 trace.tokenPostingLookups + trace.fragmentPostingLookups + trace.ngramPostingLookups
                 + trace.postingEntriesExamined + trace.profilesScored
  {
    hide Query.Missing, Query.RescueTotals, Query.TokenTotals, LookupsIn, EntriesIn, SkipsIn, TokenEntries, TokenSkips;
    TokenTotalsExactly(q, |q.tokens|);
    RescueTotalsExactly(q, Fragment, |q.tokens|);
    RescueTotalsExactly(q, Ngram, |q.tokens|);
  }

  // ----- candidates and verdicts

  /** The candidates: the best scores first, equal scores by name, cut at the limit, nobody better left out. */
  lemma CandidatesExactly(scores: map<string, real>, limit: nat)
    ensures |Candidates(scores, limit)| == if |scores| <= limit then |scores| else limit
    ensures forall s :: s in Candidates(scores, limit) ==> s in scores
    ensures var kept := Candidates(scores, limit);
            forall i, j :: 0 <= i < j < |kept| ==> Better(scores, kept[i], kept[j])
    ensures var kept := Candidates(scores, limit);
            forall s, t :: s in kept && t in scores && t !in kept ==> Better(scores, s, t)
  {
    hide Ranked, StrLess;
    var rank := Negated(scores);
    var order := Ranked(scores.Keys, rank);
    var kept := Candidates(scores, limit);
    assert |scores| == |scores.Keys|;
    forall s | s in kept ensures s in scores {
      assert s in order;
    }
    forall i, j | 0 <= i < j < |kept| ensures Better(scores, kept[i], kept[j]) {
      assert kept[i] == order[i] && kept[j] == order[j] && order[i] in order && order[j] in order;
      assert Before(rank, order[i], order[j]);
    }
    forall s, t | s in kept && t in scores && t !in kept ensures Better(scores, s, t) {
      TopPrecedes(scores.Keys, rank, limit, s, t);
    }
  }

  /** Both are scored, and the first higher, or equally high with a smaller name. */
  ghost predicate Better(scores: map<string, real>, s: string, t: string) {
    && s in scores && t in scores
    && (scores[s] > scores[t] || (scores[s] == scores[t] && StrLess(s, t)))
  }

  lemma Share(t: real, u: real, c: real)
    requires 0.0 <= u <= t && t > 0.0 && c == Clamp((t - u) / t)
    ensures c * t == t - u && (u == 0.0 ==> c == 1.0)
  {
    assert 0.0 <= (t - u) / t <= 1.0 && (t - u) / t * t == t - u;
    assert t / t == 1.0;
  }

  /** A decision over positive scores names `w` exactly when `w` leads everyone else by more than a billionth. */
  lemma NamedExactly(finals: map<string, real>, sawBroad: bool, w: string)
    requires finals != map[] && forall s :: s in finals ==> finals[s] > 0.0
    ensures Decide(Ranked(finals.Keys, Negated(finals)), finals, sawBroad).subjectId == Some(w) <==>
            w in finals && forall s :: s in finals && s != w ==> finals[w] > finals[s] + 0.000000001
  {
    hide Ranked, Decide, StrLess, ResolvedWell, TiedWell;
    DecideMeaning(finals.Keys, finals, sawBroad);
    assert Beats(finals, finals.Keys, w) <==>
           w in finals && forall s :: s in finals && s != w ==> finals[w] > finals[s] + 0.000000001;
  }

  /** `u` is the best of the others. */
  ghost predicate Second(finals: map<string, real>, w: string, u: string) {
    u in finals && u != w && forall s :: s in finals && s != w ==> finals[s] <= finals[u]
  }

  /** `c` is the share of `t` that exceeds `u`. */
  ghost predicate LeadShare(c: real, t: real, u: real) {
    c * t == t - u
  }

  /** The confidence is the lead over the best other as a share of the score, all of it when there is no other. */
  lemma ConfidenceExactly(finals: map<string, real>, sawBroad: bool, w: string, u: string)
    requires finals != map[] && forall s :: s in finals ==> finals[s] > 0.0
    requires Decide(Ranked(finals.Keys, Negated(finals)), finals, sawBroad).subjectId == Some(w)
    ensures var v := Decide(Ranked(finals.Keys, Negated(finals)), finals, sawBroad);
            && w in finals && v.ambiguous == []
            && (finals.Keys == {w} ==> v.confidence == 1.0)
            && (Second(finals, w, u) ==> LeadShare(v.confidence, finals[w], finals[u]))
  {
    hide Ranked, Decide, StrLess, TiedWell, RunnerUp, ResolvedWell, LeadShare;
    var v := Decide(Ranked(finals.Keys, Negated(finals)), finals, sawBroad);
    DecideMeaning(finals.Keys, finals, sawBroad);
    assert Beats(finals, finals.Keys, w);
    var second := LeadOf(finals, v, w);
    if finals.Keys == {w} {
      NoRunnerUp(finals, w, second);
    } else if Second(finals, w, u) {
      RunnerUpIsSecond(finals, w, u, second);
    }
  }

  lemma LeadOf(finals: map<string, real>, v: Verdict, w: string) returns (second: real)
    requires v.subjectId == Some(w) && w in finals && Beats(finals, finals.Keys, w)
    requires ResolvedWell(finals, finals.Keys, v) && forall s :: s in finals ==> finals[s] > 0.0
    ensures RunnerUp(finals, finals.Keys, w, second) && LeadShare(v.confidence, finals[w], second)
    ensures v.ambiguous == [] && (second == 0.0 ==> v.confidence == 1.0)
  {
    hide Clamp;
    second :| RunnerUp(finals, finals.Keys, w, second) && v.confidence == Clamp((finals[w] - second) / finals[w]);
    Share(finals[w], second, v.confidence);
  }

  lemma NoRunnerUp(finals: map<string, real>, w: string, second: real)
    requires RunnerUp(finals, finals.Keys, w, second) && finals.Keys == {w}
    ensures second == 0.0
  {
  }

  lemma RunnerUpIsSecond(finals: map<string, real>, w: string, u: string, second: real)
    requires w in finals && RunnerUp(finals, finals.Keys, w, second) && Second(finals, w, u)
    ensures second == finals[u]
  {
    assert u in finals.Keys && u != w;
    var r :| IsBest(finals, finals.Keys - {w}, r) && second == At(finals, r);
    assert At(finals, u) <= At(finals, r) && finals[r] <= finals[u];
  }

  /** Without a name, exactly those within a billionth of the best are listed, best first. */
  lemma AmbiguousExactly(finals: map<string, real>, sawBroad: bool)
    requires finals != map[] && forall s :: s in finals ==> finals[s] > 0.0
    requires Decide(Ranked(finals.Keys, Negated(finals)), finals, sawBroad).subjectId == None
    ensures var v := Decide(Ranked(finals.Keys, Negated(finals)), finals, sawBroad);
            && v.confidence == 0.0 && |v.ambiguous| > 1
            && (forall s :: s in v.ambiguous <==>
                  s in finals && forall t :: t in finals ==> finals[s] >= finals[t] - 0.000000001)
            && forall i, j :: 0 <= i < j < |v.ambiguous| ==> Better(finals, v.ambiguous[i], v.ambiguous[j])
  {
    hide StrLess, Ranked, Decide, ResolvedWell;
    var v := Decide(Ranked(finals.Keys, Negated(finals)), finals, sawBroad);
    DecideMeaning(finals.Keys, finals, sawBroad);
    var b :| IsBest(finals, finals.Keys, b) &&
      forall s :: s in v.ambiguous <==> s in finals && At(finals, s) >= At(finals, b) - TOLERANCE;
    forall i, j | 0 <= i < j < |v.ambiguous| ensures Better(finals, v.ambiguous[i], v.ambiguous[j]) {
      assert Before(Negated(finals), v.ambiguous[i], v.ambiguous[j]);
      assert v.ambiguous[i] in v.ambiguous && v.ambiguous[j] in v.ambiguous;
    }
  }

  /** The bounded verdict is that decision over the kept candidates' final scores, or abstention without any. */
  lemma BoundedExactly(q: Query, limit: nat)
    requires q.WellFormed()
    ensures var kept := Candidates(ScoresOf(q), limit);
            if kept == [] then Bounded(q, limit) == Verdict(None, [], 0.0)
            else
              var finals := map s | s in kept :: q.Final(s);
              && finals != map[] && (forall s :: s in finals ==> finals[s] > 0.0)
              && Bounded(q, limit) == Decide(Ranked(finals.Keys, Negated(finals)), finals, false)
  {
    hide Query.Final, Query.WellFormed, ScoresOf, Candidates, Decide, Ranked, Negated;
    var kept := Candidates(ScoresOf(q), limit);
    ScoresExactly(q, ScoresOf(q));
    CandidatesGenerated(q, ScoresOf(q), limit);
    if kept != [] {
      var finals := map s | s in kept :: q.Final(s);
      assert kept[0] in finals;
      assert finals == Finals(q, Elements(kept)) && finals.Keys == Elements(kept);
      assert Elements(kept) != {};
    }
  }
}
