/**
 The full-scan planner: profiles joined from the documents instead of from the subjects,
 and every profile scored on every question.
 */
module DocumentPlanner {
  import opened Prelude
  import opened Models
  import opened Ranking
  import opened Postings
  import opened Lexicon
  import opened Storage
  import opened Snapshots
  import opened ProfileIndex
  import opened Scoring
  import opened Resolution
  import ResolutionFacts
  import opened ClosedForms
  import opened Documents
  import opened Retrieval

  type Profiles = map<string, multiset<string>>

  function BagAt(profiles: Profiles, s: string): multiset<string> {
    if s in profiles then profiles[s] else multiset{}
  }

  /** The evidence ids among `done` that some assertion links to `s`. */
  ghost function LinkedTo(assertions: map<string, Assertion>, done: set<string>, s: string): set<string> {
    set e | e in done && s in LinksOf(assertions, e).subjects
  }

  /** The profiles after the documents `done`. */
  ghost predicate Joined(profiles: Profiles, evidence: map<string, EvidenceRecord>, assertions: map<string, Assertion>,
                         done: set<string>) {
    forall s ::
      && (s in profiles <==> LinkedTo(assertions, done, s) != {})
      && BagAt(profiles, s) == Bag(evidence, LinkedTo(assertions, done, s))
  }

  /** Pours the words of each document into the profile of every subject linked to it. */
  method JoinProfiles(docs: seq<RetrievalDoc>, ghost evidence: map<string, EvidenceRecord>,
                      ghost assertions: map<string, Assertion>)
    returns (profiles: Profiles)
    requires DocsOf(docs, evidence, assertions)
    ensures Joined(profiles, evidence, assertions, evidence.Keys)
  {
    hide LinksOf, Lexical, Ranked, First, Joined, Bag;
    profiles := map[];
    ghost var rank := EvidenceRank(evidence);
    ghost var order := Ranked(evidence.Keys, rank);
    FirstAll(evidence.Keys, rank);
    JoinedNone(evidence, assertions);
    var i := 0;
    while i < |docs|
      invariant i <= |docs|
      invariant Joined(profiles, evidence, assertions, First(order, i))
    {
      FirstStep(evidence.Keys, rank, i);
      ghost var before := profiles;
      profiles := AddWords(profiles, docs[i].links.subjects, multiset(Lexical(docs[i].text)));
      JoinedStep(before, profiles, evidence, assertions, First(order, i), order[i]);
      i := i + 1;
    }
  }

  method AddWords(profiles: Profiles, subjects: set<string>, words: multiset<string>) returns (profiles': Profiles)
    ensures Poured(profiles, profiles', subjects, words)
  {
    hide BagAt, Poured;
    profiles' := profiles;
    var todo := subjects;
    PouredNone(profiles, words);
    assert subjects - todo == {};
    while todo != {}
      invariant todo <= subjects
      invariant Poured(profiles, profiles', subjects - todo, words)
      decreases |todo|
    {
      var s :| s in todo;
      ghost var before := profiles';
      profiles' := UpdateOne(profiles', s, words);
      PouredStep(profiles, before, profiles', subjects - todo, s, words);
      assert subjects - (todo - {s}) == subjects - todo + {s};
      todo := todo - {s};
    }
    assert subjects - {} == subjects;
  }

  /** `words` was added once to each of `filled`. */
  ghost predicate Poured(before: Profiles, after: Profiles, filled: set<string>, words: multiset<string>) {
    && (forall s :: s in after <==> s in before || s in filled)
    && forall s :: BagAt(after, s) == if s in filled then BagAt(before, s) + words else BagAt(before, s)
  }

  lemma PouredNone(before: Profiles, words: multiset<string>)
    ensures Poured(before, before, {}, words)
  {
  }

  lemma PouredStep(before: Profiles, mid: Profiles, after: Profiles, filled: set<string>, s: string,
                   words: multiset<string>)
    requires s !in filled && Poured(before, mid, filled, words)
    requires forall t :: t in after <==> t in mid || t == s
    requires forall t :: t != s ==> BagAt(after, t) == BagAt(mid, t)
    requires BagAt(after, s) == BagAt(mid, s) + words
    ensures Poured(before, after, filled + {s}, words)
  {
    hide BagAt;
  }

  /** Adds words to one profile, creating it if absent. */
  method UpdateOne(profiles: Profiles, s: string, words: multiset<string>) returns (profiles': Profiles)
    ensures forall t :: t in profiles' <==> t in profiles || t == s
    ensures forall t :: t != s ==> BagAt(profiles', t) == BagAt(profiles, t)
    ensures BagAt(profiles', s) == BagAt(profiles, s) + words
  {
    profiles' := profiles[s := BagAt(profiles, s) + words];
  }

  lemma JoinedNone(evidence: map<string, EvidenceRecord>, assertions: map<string, Assertion>)
    ensures Joined(map[], evidence, assertions, {})
  {
    hide LinksOf;
    assert forall s :: LinkedTo(assertions, {}, s) == {};
  }

  lemma JoinedStep(before: Profiles, after: Profiles, evidence: map<string, EvidenceRecord>,
                   assertions: map<string, Assertion>, done: set<string>, e: string)
    requires e in evidence && e !in done && Joined(before, evidence, assertions, done)
    requires Poured(before, after, LinksOf(assertions, e).subjects, Words(evidence, e))
    ensures Joined(after, evidence, assertions, done + {e})
  {
    hide LinksOf, Words, Bag, BagAt, LinkedTo;
    forall s
      ensures s in after <==> LinkedTo(assertions, done + {e}, s) != {}
      ensures BagAt(after, s) == Bag(evidence, LinkedTo(assertions, done + {e}, s))
    {
      LinkedStep(evidence, assertions, done, e, s);
      assert s in before <==> LinkedTo(assertions, done, s) != {};
    }
  }

  lemma LinkedStep(evidence: map<string, EvidenceRecord>, assertions: map<string, Assertion>, done: set<string>,
                   e: string, s: string)
    requires e !in done
    ensures var linked, more := LinkedTo(assertions, done, s), LinkedTo(assertions, done + {e}, s);
            if s in LinksOf(assertions, e).subjects
            then more != {} && Bag(evidence, more) == Bag(evidence, linked) + Words(evidence, e)
            else more == linked
  {
    hide LinksOf, Words, Bag;
    var linked, more := LinkedTo(assertions, done, s), LinkedTo(assertions, done + {e}, s);
    if s in LinksOf(assertions, e).subjects {
      assert more == linked + {e};
      BagAdd(evidence, linked, e);
    } else {
      assert more == linked;
    }
  }

  /** The two joins agree: document-driven profiles are the subject-driven snapshots. */
  lemma SameJoin(profiles: Profiles, evidence: map<string, EvidenceRecord>, assertions: map<string, Assertion>,
                 s: string)
    requires Joined(profiles, evidence, assertions, evidence.Keys)
    ensures BagAt(profiles, s) == Snapshot(evidence, assertions, s).profile
    ensures s in profiles <==> exists e :: e in evidence && e in Snapshot(evidence, assertions, s).evidenceIds
  {
    hide Bag, Words;
    var eids := EvidenceBy(assertions, IdsForSubject(assertions, s));
    forall e ensures e in LinkedTo(assertions, evidence.Keys, s) <==> e in Present(evidence, eids) {
      if e in evidence && s in LinksOf(assertions, e).subjects {
        var id :| id in Citing(assertions, e) && assertions[id].subjectId == s;
        assert id in IdsForSubject(assertions, s);
      }
      if e in eids {
        var id :| id in IdsForSubject(assertions, s) && e in assertions[id].evidenceIds;
        assert id in Citing(assertions, e);
      }
    }
    assert LinkedTo(assertions, evidence.Keys, s) == Present(evidence, eids);
    BagPresent(evidence, eids);
    if e :| e in evidence && e in eids {
      assert e in Present(evidence, eids);
    }
  }

  lemma {:induction false} BagPresent(evidence: map<string, EvidenceRecord>, eids: set<string>)
    ensures Bag(evidence, Present(evidence, eids)) == Bag(evidence, eids)
    decreases |eids|
  {
    hide Bag, Lexical;
    if e :| e in eids {
      var rest := eids - {e};
      BagPresent(evidence, rest);
      assert rest + {e} == eids;
      BagAdd(evidence, rest, e);
      if e in evidence {
        assert Present(evidence, eids) == Present(evidence, rest) + {e};
        BagAdd(evidence, Present(evidence, rest), e);
      } else {
        assert Present(evidence, eids) == Present(evidence, rest);
      }
    } else {
      assert Present(evidence, eids) == eids;
    }
  }

  // ----- document frequencies

  ghost function Holders(profiles: Profiles, subjects: set<string>, t: string): set<string> {
    set s | s in subjects && t in BagAt(profiles, s)
  }

  function CountAt(df: map<string, nat>, t: string): nat {
    if t in df then df[t] else 0
  }

  /** Counts for every word the profiles that hold it. */
  method CountFrequencies(profiles: Profiles) returns (df: map<string, nat>)
    ensures forall t :: CountAt(df, t) == |Holders(profiles, profiles.Keys, t)|
    ensures forall t :: t in df <==> exists s :: s in profiles && t in profiles[s]
  {
    df := map[];
    var todo := profiles.Keys;
    assert forall t :: Holders(profiles, profiles.Keys - todo, t) == {};
    while todo != {}
      invariant todo <= profiles.Keys
      invariant forall t :: CountAt(df, t) == |Holders(profiles, profiles.Keys - todo, t)|
      invariant forall t :: t in df ==> df[t] > 0
      decreases |todo|
    {
      var s :| s in todo;
      ghost var before := df;
      df := Increase(df, set t | t in profiles[s]);
      forall t ensures CountAt(df, t) == |Holders(profiles, profiles.Keys - (todo - {s}), t)| {
        assert CountAt(before, t) == |Holders(profiles, profiles.Keys - todo, t)|;
        HoldersAdd(profiles, profiles.Keys - todo, s, t);
        assert profiles.Keys - (todo - {s}) == profiles.Keys - todo + {s};
      }
      todo := todo - {s};
    }
    assert profiles.Keys - {} == profiles.Keys;
    forall t ensures t in df <==> exists s :: s in profiles && t in profiles[s] {
      SomeHolder(profiles, t);
      assert CountAt(df, t) == |Holders(profiles, profiles.Keys, t)|;
    }
  }

  lemma SomeHolder(profiles: Profiles, t: string)
    ensures |Holders(profiles, profiles.Keys, t)| > 0 <==> exists s :: s in profiles && t in profiles[s]
  {
    var holders := Holders(profiles, profiles.Keys, t);
    if |holders| > 0 {
      assert holders != {};
      var s :| s in holders;
    }
    if s :| s in profiles && t in profiles[s] {
      assert s in holders;
    }
  }

  lemma HoldersAdd(profiles: Profiles, done: set<string>, s: string, t: string)
    requires s !in done
    ensures |Holders(profiles, done + {s}, t)| ==
            |Holders(profiles, done, t)| + if t in BagAt(profiles, s) then 1 else 0
  {
    if t in BagAt(profiles, s) {
      assert Holders(profiles, done + {s}, t) == Holders(profiles, done, t) + {s};
    } else {
      assert Holders(profiles, done + {s}, t) == Holders(profiles, done, t);
    }
  }

  method Increase(df: map<string, nat>, tokens: set<string>) returns (df': map<string, nat>)
    ensures forall t :: CountAt(df', t) == CountAt(df, t) + if t in tokens then 1 else 0
    ensures (forall t :: t in df ==> df[t] > 0) ==> (forall t :: t in df' ==> df'[t] > 0)
  {
    df' := df;
    var todo := tokens;
    while todo != {}
      invariant todo <= tokens
      invariant forall t :: CountAt(df', t) == CountAt(df, t) + if t in tokens - todo then 1 else 0
      invariant (forall t :: t in df ==> df[t] > 0) ==> (forall t :: t in df' ==> df'[t] > 0)
      decreases |todo|
    {
      var t :| t in todo;
      df' := df'[t := CountAt(df', t) + 1];
      todo := todo - {t};
    }
  }

  /** The full scan's document frequency of a token is the size of its posting. */
  lemma SameFrequency(profiles: Profiles, evidence: map<string, EvidenceRecord>, assertions: map<string, Assertion>,
                      st: IndexState, t: string)
    requires Joined(profiles, evidence, assertions, evidence.Keys)
    requires st.Inverted() && InSync(st.views, evidence, assertions)
    ensures Holders(profiles, profiles.Keys, t) == Posting(st.token, t)
  {
    hide Joined, Snapshot, IndexState.Inverted;
    forall s ensures s in Holders(profiles, profiles.Keys, t) <==> s in Posting(st.token, t) {
      SameJoin(profiles, evidence, assertions, s);
      assert st.views.At(s) == Snapshot(evidence, assertions, s);
      TokenPosted(st, s, t);
    }
  }

  lemma TokenPosted(st: IndexState, s: string, t: string)
    requires st.Inverted()
    ensures s in Posting(st.token, t) <==> t in st.views.At(s).profile
  {
    hide IndexState.Inverted;
    LookedExact(st, Token, t, None, s);
    assert t in FeaturesOf(Token, st.views.At(s).profile) <==> t in st.views.At(s).profile by {
      assert t in Expand(Token, t);
    }
    if t in st.views.At(s).profile {
      assert s in st.views.profiles;
    }
  }

  /** A subject that cites present evidence, none of which holds a lexical token. */
  ghost predicate Wordless(evidence: map<string, EvidenceRecord>, assertions: map<string, Assertion>, s: string) {
    && (exists e :: e in evidence && e in Snapshot(evidence, assertions, s).evidenceIds)
    && Snapshot(evidence, assertions, s).profile == multiset{}
  }

  /** The two planners count the same subjects exactly when no subject is wordless. */
  lemma SameSubjects(profiles: Profiles, evidence: map<string, EvidenceRecord>, assertions: map<string, Assertion>,
                     st: IndexState)
    requires Joined(profiles, evidence, assertions, evidence.Keys)
    requires st.Inverted() && InSync(st.views, evidence, assertions)
    ensures st.views.profiles.Keys <= profiles.Keys
    ensures |profiles| == |st.views.profiles| <==> forall s :: !Wordless(evidence, assertions, s)
  {
    hide Joined, Wordless, IndexState.Inverted, InSync;
    forall s { StoredUnlessWordless(profiles, evidence, assertions, st, s); }
    SameSize(profiles.Keys, st.views.profiles.Keys);
  }

  lemma SameSize(a: set<string>, b: set<string>)
    requires b <= a
    ensures |a| == |b| <==> forall s :: s in a ==> s in b
  {
    assert a == b + (a - b);
    if |a| == |b| {
      assert a - b == {};
    }
    if forall s :: s in a ==> s in b {
      assert a == b;
    }
  }

  lemma StoredUnlessWordless(profiles: Profiles, evidence: map<string, EvidenceRecord>,
                             assertions: map<string, Assertion>, st: IndexState, s: string)
    requires Joined(profiles, evidence, assertions, evidence.Keys)
    requires st.Inverted() && InSync(st.views, evidence, assertions)
    ensures s in st.views.profiles <==> s in profiles && !Wordless(evidence, assertions, s)
    ensures Wordless(evidence, assertions, s) ==> s in profiles
  {
    hide Joined, Snapshot;
    SameJoin(profiles, evidence, assertions, s);
    assert st.views.At(s) == Snapshot(evidence, assertions, s);
  }

  // ----- the planner

  ghost function Frequency(profiles: Profiles, t: string): nat {
    |Holders(profiles, profiles.Keys, t)|
  }

  ghost function ScanIdf(profiles: Profiles, log: real -> real, t: string): real {
    log((1 + Larger(|profiles|, 1)) as real / (1 + Frequency(profiles, t)) as real) + 1.0
  }

  /** Score from the first `n` question tokens. */
  ghost function ScanScore(profiles: Profiles, log: real -> real, tokens: seq<string>, n: nat, s: string): real
    requires n <= |tokens|
  {
    if n == 0 then 0.0 else
      ScanScore(profiles, log, tokens, n - 1, s) +
      (var count := BagAt(profiles, s)[tokens[n - 1]];
       if count > 0 then ScanIdf(profiles, log, tokens[n - 1]) * (1.0 + log(count as real)) else 0.0)
  }

  /** What the `i`-th question token adds to the score of `s`. */
  ghost function ScanTerm(profiles: Profiles, log: real -> real, tokens: seq<string>, i: nat, s: string): real
    requires i < |tokens|
  {
    var t, known := tokens[i], |profiles|;
    if s in profiles && t in profiles[s] then
      var holders := set u | u in profiles && t in profiles[u];
      (1.0 + log((if known == 0 then 2 else 1 + known) as real / (1 + |holders|) as real)) *
      (1.0 + log(profiles[s][t] as real))
    else
      0.0
  }

  /** A scan score is the sum over the question's tokens of weight times dampened count. */
  lemma {:induction false} ScanScoreExactly(profiles: Profiles, log: real -> real, tokens: seq<string>, n: nat,
                                            s: string)
    requires n <= |tokens|
    ensures ScanScore(profiles, log, tokens, n, s) ==
            Sum(seq(n, i requires 0 <= i < n => ScanTerm(profiles, log, tokens, i, s)))
  {
    hide ScanTerm, ScanIdf, BagAt;
    var terms := seq(n, i requires 0 <= i < n => ScanTerm(profiles, log, tokens, i, s));
    if n > 0 {
      ScanScoreExactly(profiles, log, tokens, n - 1, s);
      assert terms[..n - 1] == seq(n - 1, i requires 0 <= i < n - 1 => ScanTerm(profiles, log, tokens, i, s));
      ScanTermExactly(profiles, log, tokens, n - 1, s);
    }
  }

  lemma ScanTermExactly(profiles: Profiles, log: real -> real, tokens: seq<string>, i: nat, s: string)
    requires i < |tokens|
    ensures ScanTerm(profiles, log, tokens, i, s) ==
            var count := BagAt(profiles, s)[tokens[i]];
            if count > 0 then ScanIdf(profiles, log, tokens[i]) * (1.0 + log(count as real)) else 0.0
  {
    var t := tokens[i];
    assert (set u | u in profiles && t in profiles[u]) == Holders(profiles, profiles.Keys, t);
  }

  /** The subjects linked to some present document that carries the predicate. */
  ghost function AllowedSubjects(evidence: map<string, EvidenceRecord>, assertions: map<string, Assertion>,
                                 p: string): set<string> {
    set e, s | e in evidence && p in LinksOf(assertions, e).predicates && s in LinksOf(assertions, e).subjects :: s
  }

  /** The scored subjects of a scan: allowed, profiled, positive. */
  ghost function Scanned(profiles: Profiles, evidence: map<string, EvidenceRecord>, assertions: map<string, Assertion>,
                         log: real -> real, tokens: seq<string>, predicateId: Option<string>): set<string> {
    set s | s in profiles && (predicateId.Some? ==> s in AllowedSubjects(evidence, assertions, predicateId.value))
            && ScanScore(profiles, log, tokens, |tokens|, s) > 0.0
  }

  ghost function ScanScores(profiles: Profiles, log: real -> real, tokens: seq<string>,
                            ids: set<string>): map<string, real> {
    map s | s in ids :: ScanScore(profiles, log, tokens, |tokens|, s)
  }

  /** The weight of every profiled word. */
  method Weigh(profiles: Profiles, log: real -> real) returns (idf: map<string, real>)
    ensures forall t :: t in idf <==> exists s :: s in profiles && t in profiles[s]
    ensures forall t :: t in idf ==> idf[t] == ScanIdf(profiles, log, t)
  {
    hide Holders;
    var df := CountFrequencies(profiles);
    var n := Larger(|profiles|, 1);
    idf := map t | t in df :: log((1 + n) as real / (1 + df[t]) as real) + 1.0;
    assert forall t :: t in df ==> df[t] == CountAt(df, t) == Frequency(profiles, t);
  }

  class QueryPlanner {
    const index: RetrievalIndex
    const profiles: Profiles
    const idf: map<string, real>
    const log: real -> real

    ghost predicate Valid() {
      && index.Valid()
      && Joined(profiles, index.evidence, index.assertions, index.evidence.Keys)
      && (forall t :: t in idf <==> exists s :: s in profiles && t in profiles[s])
      && (forall t :: t in idf ==> idf[t] == ScanIdf(profiles, log, t))
    }

    constructor (index: RetrievalIndex, log: real -> real)
      requires index.Valid()
      ensures Valid() && this.index == index && this.log == log
    {
      hide Joined, Inverts, DocFeatures, ScanIdf;
      var joined := JoinProfiles(index.docs, index.evidence, index.assertions);
      var weights := Weigh(joined, log);
      this.index, this.log, profiles, idf := index, log, joined, weights;
    }

    /** Every allowed profile is scored; the best is reported, or a tie, or nothing. */
    method Subject(question: string, predicateId: Option<string>) returns (verdict: Verdict)
      requires Valid()
      ensures var tokens := Lexical(question);
              verdict == ScanVerdict(profiles, log, tokens,
                                     Scanned(profiles, index.evidence, index.assertions, log, tokens, predicateId))
    {
      hide Joined, Inverts, DocFeatures, Holders, AllowedSubjects, Decide, ScanIdf, Ranked;
      var tokens := Lexical(question);
      ghost var ids := Scanned(profiles, index.evidence, index.assertions, log, tokens, predicateId);
      if tokens == [] {
        NoTokensNoScore(tokens);
        return ABSTAIN;
      }
      var allowed := profiles.Keys;
      if predicateId.Some? {
        allowed := Allowed(predicateId.value);
      }
      var scores := ScoreAll(tokens, allowed * profiles.Keys);
      assert scores.Keys == ids;
      assert scores == ScanScores(profiles, log, tokens, ids);
      if scores == map[] {
        return ABSTAIN;
      }
      var order := SortIds(scores.Keys, Negated(scores));
      verdict := Decide(order, scores, false);
    }

    lemma NoTokensNoScore(tokens: seq<string>)
      requires tokens == []
      ensures forall s :: ScanScore(profiles, log, tokens, |tokens|, s) == 0.0
    {
    }

    /** Subject ids of the documents posted under the predicate. */
    method Allowed(p: string) returns (subjects: set<string>)
      requires index.Valid()
      ensures subjects == AllowedSubjects(index.evidence, index.assertions, p)
    {
      hide LinksOf, DocsOf;
      var eids := Posting(index.predicates, p);
      forall e ensures e in eids <==> e in index.evidence && p in LinksOf(index.assertions, e).predicates {
        assert Has(index.predicates, p, e) <==>
               p in FeatsAt(DocFeatures(Predicated, index.evidence, index.assertions), e);
      }
      subjects := set e, s | e in eids && s in index.byId[e].links.subjects :: s;
    }

    method ScoreAll(tokens: seq<string>, ids: set<string>) returns (scores: map<string, real>)
      requires Valid() && ids <= profiles.Keys
      ensures forall s :: s in scores <==> s in ids && ScanScore(profiles, log, tokens, |tokens|, s) > 0.0
      ensures forall s :: s in scores ==> scores[s] == ScanScore(profiles, log, tokens, |tokens|, s)
    {
      hide QueryPlanner.Valid, ScanScore;
      scores := map[];
      var todo := ids;
      while todo != {}
        invariant todo <= ids
        invariant forall s :: s in scores <==> s in ids - todo && ScanScore(profiles, log, tokens, |tokens|, s) > 0.0
        invariant forall s :: s in scores ==> scores[s] == ScanScore(profiles, log, tokens, |tokens|, s)
        decreases |todo|
      {
        var s :| s in todo;
        var score := ScoreOne(tokens, s);
        if score > 0.0 {
          scores := scores[s := score];
        }
        todo := todo - {s};
      }
    }

    method ScoreOne(tokens: seq<string>, s: string) returns (score: real)
      requires Valid() && s in profiles
      ensures score == ScanScore(profiles, log, tokens, |tokens|, s)
    {
      hide Joined, ScanIdf, RetrievalIndex.Valid;
      score := 0.0;
      var i := 0;
      while i < |tokens|
        invariant i <= |tokens|
        invariant score == ScanScore(profiles, log, tokens, i, s)
      {
        var t := tokens[i];
        if t in profiles[s] {
          var weight := if t in idf then idf[t] else 1.0;
          assert weight == ScanIdf(profiles, log, t);
          assert BagAt(profiles, s)[t] == profiles[s][t] > 0;
          score := score + weight * (1.0 + log(profiles[s][t] as real));
        }
        i := i + 1;
      }
    }
  }

  /** The verdict of a scan over some scored subjects. */
  ghost function ScanVerdict(profiles: Profiles, log: real -> real, tokens: seq<string>, ids: set<string>): Verdict {
    if ids == {} then ABSTAIN
    else
      var scores := ScanScores(profiles, log, tokens, ids);
      Decide(Ranked(ids, Negated(scores)), scores, false)
  }

  /** A scan resolves to `w` exactly when `w` beats every other scored subject by more than the tolerance. */
  lemma ScanMeaning(profiles: Profiles, evidence: map<string, EvidenceRecord>, assertions: map<string, Assertion>,
                    log: real -> real, tokens: seq<string>, predicateId: Option<string>, w: string)
    ensures var ids := Scanned(profiles, evidence, assertions, log, tokens, predicateId);
            var v := ScanVerdict(profiles, log, tokens, ids);
            && (v.subjectId == Some(w) <==>
                  w in ids && forall s :: s in ids && s != w ==>
                    ScanScore(profiles, log, tokens, |tokens|, w) >
                    ScanScore(profiles, log, tokens, |tokens|, s) + 0.000000001)
            && (v.subjectId.None? && v.ambiguous == [] <==> ids == {})
  {
    hide ScanScore, Decide, Ranked, AllowedSubjects;
    var ids := Scanned(profiles, evidence, assertions, log, tokens, predicateId);
    if ids != {} {
      ResolutionFacts.DecideMeaning(ids, ScanScores(profiles, log, tokens, ids), false);
    }
  }

  /** Some assertion about `s` has the predicate. */
  ghost predicate CarriesPredicate(assertions: map<string, Assertion>, s: string, p: string) {
    exists id :: id in assertions && assertions[id].subjectId == s && assertions[id].predicateId == p
  }

  /** Some present evidence is cited both by an assertion about `s` and by one with the predicate. */
  ghost predicate SharesEvidence(evidence: map<string, EvidenceRecord>, assertions: map<string, Assertion>, s: string,
                                 p: string) {
    exists a, b, e ::
      && a in assertions && b in assertions && e in evidence
      && e in assertions[a].evidenceIds && e in assertions[b].evidenceIds
      && assertions[a].subjectId == s && assertions[b].predicateId == p
  }

  /** The scan restricts by shared evidence. */
  lemma AllowedIffShares(evidence: map<string, EvidenceRecord>, assertions: map<string, Assertion>, s: string,
                         p: string)
    ensures s in AllowedSubjects(evidence, assertions, p) <==> SharesEvidence(evidence, assertions, s, p)
  {
    hide LinksOf;
    if SharesEvidence(evidence, assertions, s, p) {
      var a, b, e :| a in assertions && b in assertions && e in evidence
                     && e in assertions[a].evidenceIds && e in assertions[b].evidenceIds
                     && assertions[a].subjectId == s && assertions[b].predicateId == p;
      CitedLinks(assertions, a, e);
      CitedLinks(assertions, b, e);
    }
    if s in AllowedSubjects(evidence, assertions, p) {
      var e :| e in evidence && p in LinksOf(assertions, e).predicates && s in LinksOf(assertions, e).subjects;
      LinkedFrom(assertions, e, s, p);
    }
  }

  lemma LinkedFrom(assertions: map<string, Assertion>, e: string, s: string, p: string)
    requires p in LinksOf(assertions, e).predicates && s in LinksOf(assertions, e).subjects
    ensures exists a, b ::
              && a in assertions && b in assertions && e in assertions[a].evidenceIds && e in assertions[b].evidenceIds
              && assertions[a].subjectId == s && assertions[b].predicateId == p
  {
    var a :| a in Citing(assertions, e) && assertions[a].subjectId == s;
    var b :| b in Citing(assertions, e) && assertions[b].predicateId == p;
    assert a in assertions && b in assertions;
  }

  /** The index restricts by carried predicates. */
  lemma EligibleIffCarries(evidence: map<string, EvidenceRecord>, assertions: map<string, Assertion>, st: IndexState,
                           s: string, p: string)
    requires InSync(st.views, evidence, assertions)
    ensures s in Eligible(st, Some(p)) <==> s in st.views.profiles && CarriesPredicate(assertions, s, p)
  {
    hide Bag;
    assert st.views.At(s) == Snapshot(evidence, assertions, s);
    var ids := IdsForSubject(assertions, s);
    if id :| id in assertions && assertions[id].subjectId == s && assertions[id].predicateId == p {
      assert id in ids;
    }
    if p in PredicatesBy(assertions, ids) {
      var id :| id in ids && id in assertions && assertions[id].predicateId == p;
    }
  }

  /**
   When the two restrictions agree on the profiled subjects: no present evidence of the
   predicate is shared by a subject that does not carry it, and every carrier shares some.
   */
  lemma RestrictionsAgree(evidence: map<string, EvidenceRecord>, assertions: map<string, Assertion>, st: IndexState,
                          p: string)
    requires InSync(st.views, evidence, assertions)
    ensures AllowedSubjects(evidence, assertions, p) * st.views.profiles.Keys == Eligible(st, Some(p)) <==>
      && (forall a, b, e ::
            a in assertions && b in assertions && e in evidence
            && e in assertions[a].evidenceIds && e in assertions[b].evidenceIds
            && assertions[b].predicateId == p && assertions[a].subjectId in st.views.profiles ==>
              CarriesPredicate(assertions, assertions[a].subjectId, p))
      && (forall id ::
            id in assertions && assertions[id].predicateId == p && assertions[id].subjectId in st.views.profiles ==>
            SharesEvidence(evidence, assertions, assertions[id].subjectId, p))
  {
    hide AllowedSubjects, Eligible, InSync;
    forall s
      ensures s in AllowedSubjects(evidence, assertions, p) <==> SharesEvidence(evidence, assertions, s, p)
      ensures s in Eligible(st, Some(p)) <==> s in st.views.profiles && CarriesPredicate(assertions, s, p)
    {
      AllowedIffShares(evidence, assertions, s, p);
      EligibleIffCarries(evidence, assertions, st, s, p);
    }
    var scanned, indexed := AllowedSubjects(evidence, assertions, p) * st.views.profiles.Keys, Eligible(st, Some(p));
    if scanned == indexed {
      forall a, b, e | a in assertions && b in assertions && e in evidence
            && e in assertions[a].evidenceIds && e in assertions[b].evidenceIds
            && assertions[b].predicateId == p && assertions[a].subjectId in st.views.profiles
        ensures CarriesPredicate(assertions, assertions[a].subjectId, p)
      {
        assert assertions[a].subjectId in scanned;
      }
      forall id | id in assertions && assertions[id].predicateId == p && assertions[id].subjectId in st.views.profiles
        ensures SharesEvidence(evidence, assertions, assertions[id].subjectId, p)
      {
        assert assertions[id].subjectId in indexed;
      }
    }
  }

  lemma CitedLinks(assertions: map<string, Assertion>, id: string, e: string)
    requires id in assertions && e in assertions[id].evidenceIds
    ensures assertions[id].predicateId in LinksOf(assertions, e).predicates
    ensures assertions[id].subjectId in LinksOf(assertions, e).subjects
  {
    assert id in Citing(assertions, e);
  }

  /**
   One way to differ: a subject that shares evidence with an assertion about another subject
   is scanned under that assertion's predicate although it does not carry it.
   */
  lemma AllowedWithoutCarrying(item: EvidenceRecord, a: Assertion, b: Assertion)
    requires a.id != b.id && a.evidenceIds == b.evidenceIds == [item.id]
    requires a.subjectId != b.subjectId && a.predicateId != b.predicateId
    ensures var evidence, assertions := map[item.id := item], map[a.id := a, b.id := b];
            && a.subjectId in AllowedSubjects(evidence, assertions, b.predicateId)
            && b.predicateId !in Snapshot(evidence, assertions, a.subjectId).predicates
            && Snapshot(evidence, assertions, a.subjectId).profile == multiset(Lexical(item.payload))
  {
    hide Bag, LinksOf, Lexical;
    var evidence, assertions := map[item.id := item], map[a.id := a, b.id := b];
    CitedLinks(assertions, a.id, item.id);
    CitedLinks(assertions, b.id, item.id);
    OneCited(evidence, assertions, a.subjectId, item.id);
  }

  /**
   The other way: a subject whose only assertion with the predicate cites missing evidence is
   eligible in the index, with the profile another assertion supplies, and is not scanned.
   */
  lemma CarryingWithoutAllowed(item: EvidenceRecord, missing: string, a: Assertion, b: Assertion)
    requires a.id != b.id && a.evidenceIds == [item.id] && b.evidenceIds == [missing] && missing != item.id
    requires a.subjectId == b.subjectId && a.predicateId != b.predicateId
    ensures var evidence, assertions := map[item.id := item], map[a.id := a, b.id := b];
            && a.subjectId !in AllowedSubjects(evidence, assertions, b.predicateId)
            && b.predicateId in Snapshot(evidence, assertions, a.subjectId).predicates
            && Snapshot(evidence, assertions, a.subjectId).profile == multiset(Lexical(item.payload))
  {
    hide Bag, Lexical;
    var evidence, assertions := map[item.id := item], map[a.id := a, b.id := b];
    AllowedIffShares(evidence, assertions, a.subjectId, b.predicateId);
    assert b.id in IdsForSubject(assertions, a.subjectId);
    assert a.id in assertions && assertions[a.id] == a;
    OneCited(evidence, assertions, a.subjectId, item.id);
  }

  lemma OneCited(evidence: map<string, EvidenceRecord>, assertions: map<string, Assertion>, s: string, e: string)
    requires evidence.Keys == {e}
    requires exists id :: id in assertions && assertions[id].subjectId == s && e in assertions[id].evidenceIds
    ensures Snapshot(evidence, assertions, s).profile == multiset(Lexical(evidence[e].payload))
  {
    hide Lexical;
    var eids := EvidenceBy(assertions, IdsForSubject(assertions, s));
    var id :| id in assertions && assertions[id].subjectId == s && e in assertions[id].evidenceIds;
    assert id in IdsForSubject(assertions, s) && e in eids;
    assert Present(evidence, eids) == {e};
    BagPresent(evidence, eids);
    BagAdd(evidence, {}, e);
    assert {} + {e} == {e};
  }

  /** Without wordless subjects both planners weigh and count every word alike. */
  lemma {:induction false} SameExactScores(profiles: Profiles, evidence: map<string, EvidenceRecord>,
                                           assertions: map<string, Assertion>, q: Query, n: nat, s: string)
    requires Joined(profiles, evidence, assertions, evidence.Keys)
    requires q.st.Inverted() && InSync(q.st.views, evidence, assertions)
    requires forall t :: !Wordless(evidence, assertions, t)
    requires n <= |q.tokens|
    ensures ScanScore(profiles, q.log, q.tokens, n, s) == q.Exact(n, s)
  {
    hide Joined, IndexState.Inverted, Wordless, InSync, ScanIdf, Idf, BagAt, Views.At;
    if n > 0 {
      SameExactScores(profiles, evidence, assertions, q, n - 1, s);
      SameWeights(profiles, evidence, assertions, q, s, q.tokens[n - 1]);
    }
  }

  lemma SameWeights(profiles: Profiles, evidence: map<string, EvidenceRecord>, assertions: map<string, Assertion>,
                    q: Query, s: string, t: string)
    requires Joined(profiles, evidence, assertions, evidence.Keys)
    requires q.st.Inverted() && InSync(q.st.views, evidence, assertions)
    requires forall u :: !Wordless(evidence, assertions, u)
    ensures BagAt(profiles, s) == q.st.views.At(s).profile
    ensures ScanIdf(profiles, q.log, t) == Idf(q.st, q.log, t)
  {
    hide Joined, IndexState.Inverted, Wordless, Snapshot, BagAt;
    SameJoin(profiles, evidence, assertions, s);
    SameFrequency(profiles, evidence, assertions, q.st, t);
    SameSubjects(profiles, evidence, assertions, q.st);
    assert q.st.views.At(s) == Snapshot(evidence, assertions, s);
  }
}
