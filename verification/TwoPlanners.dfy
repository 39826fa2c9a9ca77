/** The scanning planner and the indexed one on the same question: when their answers can differ. */
module TwoPlanners {
  import opened Prelude
  import opened Models
  import opened Lexicon
  import opened Snapshots
  import opened ProfileIndex
  import opened Scoring
  import opened Resolution
  import opened ResolutionFacts
  import opened Samples
  import opened DocumentPlanner

  /** Both planners look at one store, no subject of which is wordless, and restrict it alike. */
  ghost predicate SameWorld(profiles: Profiles, evidence: map<string, EvidenceRecord>,
                            assertions: map<string, Assertion>, q: Query) {
    && Joined(profiles, evidence, assertions, evidence.Keys)
    && q.WellFormed() && InSync(q.st.views, evidence, assertions)
    && (forall u :: !Wordless(evidence, assertions, u))
    && (q.predicateId.Some? ==>
          AllowedSubjects(evidence, assertions, q.predicateId.value) * q.st.views.profiles.Keys ==
          Eligible(q.st, q.predicateId))
  }

  ghost function Scan(profiles: Profiles, evidence: map<string, EvidenceRecord>, assertions: map<string, Assertion>,
                      q: Query): Verdict {
    ScanVerdict(profiles, q.log, q.tokens, Scanned(profiles, evidence, assertions, q.log, q.tokens, q.predicateId))
  }

  /** The scan scores exactly the eligible subjects whose profile holds a question word. */
  lemma SameScanned(profiles: Profiles, evidence: map<string, EvidenceRecord>, assertions: map<string, Assertion>,
                    q: Query)
    requires SameWorld(profiles, evidence, assertions, q)
    ensures Scanned(profiles, evidence, assertions, q.log, q.tokens, q.predicateId) ==
            set s | s in Eligible(q.st, q.predicateId) && q.Exact(|q.tokens|, s) > 0.0
  {
    hide Joined, Wordless, InSync, AllowedSubjects, Query.Exact, ScanScore, Views.At;
    forall s
      ensures s in Scanned(profiles, evidence, assertions, q.log, q.tokens, q.predicateId) <==>
              s in Eligible(q.st, q.predicateId) && q.Exact(|q.tokens|, s) > 0.0
    {
      SameExactScores(profiles, evidence, assertions, q, |q.tokens|, s);
      StoredUnlessWordless(profiles, evidence, assertions, q.st, s);
    }
  }

  /** Some eligible subject's profile holds a word of the question. */
  ghost predicate WordKnown(q: Query) {
    exists i, s :: 0 <= i < |q.tokens| && s in Eligible(q.st, q.predicateId) && q.tokens[i] in q.st.views.At(s).profile
  }

  /** The scan has nothing to say exactly when no word is known. */
  lemma ScanSilentIff(profiles: Profiles, evidence: map<string, EvidenceRecord>, assertions: map<string, Assertion>,
                      q: Query)
    requires SameWorld(profiles, evidence, assertions, q)
    ensures Scan(profiles, evidence, assertions, q) == ABSTAIN <==> !WordKnown(q)
  {
    hide Joined, Wordless, InSync, AllowedSubjects, Query.Exact, Views.At, Eligible, Scanned, Query.WellFormed;
    var ids := Scanned(profiles, evidence, assertions, q.log, q.tokens, q.predicateId);
    SameScanned(profiles, evidence, assertions, q);
    ScanMeaning(profiles, evidence, assertions, q.log, q.tokens, q.predicateId, "");
    forall s ensures q.Exact(|q.tokens|, s) > 0.0 <==>
                     exists i :: 0 <= i < |q.tokens| && q.tokens[i] in q.st.views.At(s).profile {
      ExactSign(q, |q.tokens|, s);
    }
    if WordKnown(q) {
      var i, s :| 0 <= i < |q.tokens| && s in Eligible(q.st, q.predicateId) && q.tokens[i] in q.st.views.At(s).profile;
      assert s in ids;
    }
    if s :| s in ids {
      var i :| 0 <= i < |q.tokens| && q.tokens[i] in q.st.views.At(s).profile;
      assert WordKnown(q);
    }
  }

  /**
   With nothing skipped, the index answers whenever the scan does, and it answers alone
   exactly when no word is known but a fragment or n-gram of one reaches somebody.
   */
  lemma IndexAnswersAloneIff(profiles: Profiles, evidence: map<string, EvidenceRecord>,
                             assertions: map<string, Assertion>, q: Query, limit: nat)
    requires SameWorld(profiles, evidence, assertions, q) && NothingSkipped(q) && limit > 0
    ensures Bounded(q, limit) == ABSTAIN ==> Scan(profiles, evidence, assertions, q) == ABSTAIN
    ensures Scan(profiles, evidence, assertions, q) == ABSTAIN && Bounded(q, limit) != ABSTAIN <==>
            !WordKnown(q) && exists s :: RescuedBy(q, Fragment, s) || RescuedBy(q, Ngram, s)
  {
    hide Joined, Wordless, InSync, AllowedSubjects, Views.At, Eligible, Scan, Query.WellFormed, RescuedBy, Resolve,
         Candidates, ScoresOf, IsGenerated;
    ScanSilentIff(profiles, evidence, assertions, q);
    ScoresExactly(q, ScoresOf(q));
    NothingNarrowAbstains(q, ScoresOf(q), limit, false);
    if WordKnown(q) {
      var i, s :| 0 <= i < |q.tokens| && s in Eligible(q.st, q.predicateId) && q.tokens[i] in q.st.views.At(s).profile;
      HitIffKnown(q, i, s);
      assert Reached(q, s);
    }
    forall s | Reached(q, s) ensures WordKnown(q) || RescuedBy(q, Fragment, s) || RescuedBy(q, Ngram, s) {
      if i :| 0 <= i < |q.tokens| && q.Hits(Token, q.tokens[i], s) {
        HitIffKnown(q, i, s);
        assert s in Eligible(q.st, q.predicateId) && q.tokens[i] in q.st.views.At(s).profile;
      }
    }
    if s :| RescuedBy(q, Fragment, s) || RescuedBy(q, Ngram, s) {
      assert Reached(q, s);
    }
    if s :| Reached(q, s) {
      assert WordKnown(q) || RescuedBy(q, Fragment, s) || RescuedBy(q, Ngram, s);
    }
  }

  lemma HitIffKnown(q: Query, i: nat, s: string)
    requires q.WellFormed() && NothingSkipped(q) && i < |q.tokens|
    ensures q.Hits(Token, q.tokens[i], s) <==>
            s in Eligible(q.st, q.predicateId) && q.tokens[i] in q.st.views.At(s).profile
  {
    hide Looked, Eligible, Views.At, IndexState.Inverted, LogLike;
    LookedExact(q.st, Token, q.tokens[i], q.predicateId, s);
    InTokenFeatures(q.st.views.At(s).profile, q.tokens[i]);
  }

  // ----- a misspelt word

  const ONE_WORD: string := "xxxx"
  const MISSPELT: string := "xxxxx"

  ghost function OneText(): map<string, seq<string>> {
    map["a" := [ONE_WORD]]
  }

  ghost function Spelling(log: real -> real, broadLimit: nat): Query {
    AskingAbout(OneText(), log, broadLimit, [MISSPELT])
  }

  lemma XsLiterals()
    ensures PlainWord(ONE_WORD) && PlainWord(MISSPELT)
    ensures ONE_WORD in Ngrams(ONE_WORD) && ONE_WORD in Ngrams(MISSPELT)
  {
    assert Xs(4) == ONE_WORD && Xs(5) == MISSPELT;
    XsPlain(4);
    XsPlain(5);
    assert OccursAt(ONE_WORD, ONE_WORD, 0) && OccursAt(ONE_WORD, MISSPELT, 0);
    NgramsExact(ONE_WORD, ONE_WORD);
    NgramsExact(MISSPELT, ONE_WORD);
  }

  /** A store of one word and a question that misspells it: the index names the subject, the scan nobody. */
  lemma MisspeltNamedByIndexOnly(log: real -> real, broadLimit: nat, limit: nat, profiles: Profiles)
    requires LogLike(log) && broadLimit > 0 && limit > 0
    requires var texts := OneText();
             Joined(profiles, EvidenceFor(texts), AssertionsFor(texts), EvidenceFor(texts).Keys)
    ensures var texts, q := OneText(), Spelling(log, broadLimit);
            && NothingSkipped(q)
            && Bounded(q, limit).subjectId == Some("a")
            && Scan(profiles, EvidenceFor(texts), AssertionsFor(texts), q) == ABSTAIN
  {
    hide LogLike, AskingAbout, Joined, Scan, Query.WellFormed, Bounded, Eligible, Views.At, Query.Look, Ngrams,
         EvidenceFor, AssertionsFor, InSync, Query.Generated, PlainWords, Reached, OneText, Spoken;
    var texts, q := OneText(), Spelling(log, broadLimit);
    SpellingIndex(log, broadLimit);
    SpellingReached(log, broadLimit);
    assert ScoresOf(q).Keys == {"a"} by {
      forall s ensures s in ScoresOf(q) <==> s == "a" {
        GeneratedSign(q, s);
      }
    }
    SoleCandidate(q, limit, "a");
    OneTextSpoken();
    NobodyWordless(texts);
    ScanSilentIff(profiles, EvidenceFor(texts), AssertionsFor(texts), q);
  }

  lemma OneTextSpoken()
    ensures Spoken(OneText()) && PlainWords([MISSPELT]) && OneText().Keys == {"a"}
    ensures multiset(OneText()["a"]) == multiset{ONE_WORD}
    ensures forall s :: s in OneText() ==> MISSPELT !in OneText()[s]
  {
    hide PlainWord;
    XsLiterals();
  }

  lemma SpellingIndex(log: real -> real, broadLimit: nat)
    requires LogLike(log)
    ensures var q := Spelling(log, broadLimit);
            && q.WellFormed() && q.log == log && q.broadLimit == broadLimit && q.predicateId == None
            && q.tokens == [MISSPELT] && q.Look(Token, MISSPELT) == {}
            && InSync(q.st.views, EvidenceFor(OneText()), AssertionsFor(OneText()))
            && Eligible(q.st, None) == {"a"} && q.st.views.At("a").profile == multiset{ONE_WORD}
  {
    hide LogLike, AskingAbout, Query.WellFormed, Eligible, Views.At, Query.Look, InSync, PlainWords, OneText, Spoken,
         EvidenceFor, AssertionsFor;
    OneTextSpoken();
    Asked(OneText(), log, broadLimit, [MISSPELT]);
    SampleIndex(OneText(), log, broadLimit, [MISSPELT]);
    SampleLook(OneText(), log, broadLimit, [MISSPELT], MISSPELT, {});
  }

  lemma SpellingReached(log: real -> real, broadLimit: nat)
    requires LogLike(log) && broadLimit > 0
    ensures Reached(Spelling(log, broadLimit), "a")
  {
    hide LogLike, Spelling, Eligible, Views.At, Ngrams, InSync, PlainWord, Looked, EvidenceFor, AssertionsFor, OneText;
    var q := Spelling(log, broadLimit);
    SpellingIndex(log, broadLimit);
    XsLiterals();
    assert q.Missing(1) == q.Missing(0) + [MISSPELT] && q.AllMissing() == [MISSPELT];
    forall s ensures s in q.Look(Ngram, ONE_WORD) <==> s == "a" {
      LookedExact(q.st, Ngram, ONE_WORD, None, s);
      assert ONE_WORD in Expand(Ngram, ONE_WORD);
    }
    assert q.Look(Ngram, ONE_WORD) == {"a"};
    assert ONE_WORD in Expand(Ngram, q.AllMissing()[0]) && q.Hits(Ngram, ONE_WORD, "a");
  }

  lemma NobodyWordless(texts: map<string, seq<string>>)
    requires Spoken(texts)
    ensures forall u :: !Wordless(EvidenceFor(texts), AssertionsFor(texts), u)
  {
    hide PlainWords, Snapshot;
    forall u ensures !Wordless(EvidenceFor(texts), AssertionsFor(texts), u) {
      SampleSnapshot(texts, u);
      if u in texts {
        assert texts[u][0] in multiset(texts[u]);
      }
    }
  }
}
