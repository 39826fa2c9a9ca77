/**
 How tight the two conditions of the full-scan guarantee are, for a planner with both limits
 fixed.  Each failing input is a question put to the index of a store.
 */
module Limits {
  import opened Prelude
  import opened Models
  import opened Ranking
  import opened Postings
  import opened Lexicon
  import opened Snapshots
  import opened ProfileIndex
  import opened Scoring
  import opened Resolution
  import opened ResolutionFacts
  import opened Samples

  // ----- names

  ghost function Name(k: nat): (name: string)
    ensures |name| == k
    ensures StrLess(name, "b")
    ensures k > 1 ==> StrLess("a", name)
    ensures k == 1 ==> name == "a"
  {
    if k == 0 then "" else "a" + Name(k - 1)
  }

  /** As many names as asked for, one of each length, all sorted before `b`, the first of them `a`. */
  ghost function Crowd(n: nat): (crowd: set<string>)
    ensures |crowd| == n
    ensures forall s :: s in crowd ==> StrLess(s, "b") && 0 < |s| <= n && (s == "a" || StrLess("a", s))
    ensures forall k :: 0 < k <= n ==> Name(k) in crowd
    ensures forall s :: s in crowd ==> s == Name(|s|)
  {
    if n == 0 then {} else Crowd(n - 1) + {Name(n)}
  }

  lemma CrowdFacts(n: nat)
    ensures "b" !in Crowd(n) && |Crowd(n) + {"b"}| == n + 1
    ensures Crowd(1) == {"a"}
    ensures n > 0 ==> "a" in Crowd(n)
  {
    StrIrreflexive("b");
    assert "b" !in Crowd(n);
    assert Name(1) == "a";
    forall s | s in Crowd(1) ensures s == "a" {
      assert s == Name(|s|);
    }
  }

  // ----- the candidate limit

  /** The word only this subject uses. */
  ghost function OwnWord(s: string): string {
    if s == "b" then "y" else Xs(|s|)
  }

  ghost function Copies(c: nat, w: string): (words: seq<string>)
    ensures |words| == c && forall i :: 0 <= i < c ==> words[i] == w
  {
    if c == 0 then [] else Copies(c - 1, w) + [w]
  }

  lemma {:induction false} CountCopies(c: nat, w: string, t: string)
    ensures multiset(Copies(c, w))[t] == if w == t then c else 0
    ensures t in Copies(c, w) <==> w == t && c > 0
  {
    if c > 0 {
      CountCopies(c - 1, w, t);
    }
  }

  ghost function MentionCount(s: string): (c: nat)
    ensures 1 <= c <= 3
  {
    if s == "b" then 3 else if s == "a" then 2 else 1
  }

  /** Each of `n` subjects says its own word: most once, `a` twice and `b`, the last in order, three times. */
  ghost function OwnWords(n: nat): map<string, seq<string>>
    requires n > 0
  {
    var names := Crowd(n - 1) + {"b"};
    map s | s in names :: Copies(MentionCount(s), OwnWord(s))
  }

  ghost function XWords(m: nat): (words: seq<string>)
    ensures |words| == m && forall i :: 0 <= i < m ==> words[i] == Xs(i + 1)
  {
    if m == 0 then [] else XWords(m - 1) + [Xs(m)]
  }

  /** All the words, each once. */
  ghost function Roll(n: nat): (words: seq<string>)
    requires n > 0
    ensures |words| == n && words[n - 1] == "y" && forall i :: 0 <= i < n - 1 ==> words[i] == Xs(i + 1)
  {
    XWords(n - 1) + ["y"]
  }

  ghost function Position(n: nat, s: string): int {
    if s == "b" then n - 1 else |s| - 1
  }

  ghost function Holder(n: nat, i: nat): string {
    if i == n - 1 then "b" else Name(i + 1)
  }

  ghost function RollQuery(n: nat, log: real -> real, broadLimit: nat): Query
    requires n > 0
  {
    AskingAbout(OwnWords(n), log, broadLimit, Roll(n))
  }

  lemma XsApart(i: nat, j: nat)
    ensures Xs(i) == Xs(j) <==> i == j
    ensures Xs(i) != "y"
  {
    assert i > 0 ==> Xs(i)[0] == 'x';
  }

  lemma CopiesPlain(c: nat, w: string)
    requires c > 0 && PlainWord(w)
    ensures Copies(c, w) != [] && PlainWords(Copies(c, w))
  {
    hide PlainWord;
  }

  lemma OwnWordPlain(s: string)
    requires s == "b" || |s| > 0
    ensures PlainWord(OwnWord(s))
  {
    hide PlainWord;
    if s == "b" {
      YPlain();
    } else {
      XsPlain(|s|);
    }
  }

  lemma RollPlain(n: nat)
    requires n > 0
    ensures PlainWords(Roll(n))
  {
    hide PlainWord, Xs;
    YPlain();
    forall i | 0 <= i < n - 1 ensures PlainWord(Roll(n)[i]) {
      XsPlain(i + 1);
    }
  }

  lemma RollShape(n: nat)
    requires n > 0
    ensures Spoken(OwnWords(n)) && PlainWords(Roll(n))
    ensures OwnWords(n).Keys == Crowd(n - 1) + {"b"} && |OwnWords(n)| == n
  {
    hide Crowd, Xs, PlainWord, Copies, MentionCount, OwnWord, Roll, PlainWords;
    CrowdFacts(n - 1);
    RollPlain(n);
    forall s | s in OwnWords(n) ensures OwnWords(n)[s] != [] && PlainWords(OwnWords(n)[s]) {
      OwnWordPlain(s);
      CopiesPlain(MentionCount(s), OwnWord(s));
    }
    assert OwnWords(n).Keys == Crowd(n - 1) + {"b"};
  }

  /** The words of the roll and the subjects that say them correspond one to one. */
  lemma RollHolders(n: nat, s: string, i: nat)
    requires n > 0 && s in OwnWords(n) && i < n
    ensures 0 <= Position(n, s) < n && Holder(n, i) in OwnWords(n)
    ensures Roll(n)[i] in OwnWords(n)[s] <==> s == Holder(n, i)
    ensures s == Holder(n, i) <==> i == Position(n, s)
    ensures multiset(OwnWords(n)[s])[Roll(n)[i]] == if i == Position(n, s) then MentionCount(s) else 0
  {
    hide Xs, StrLess, MentionCount, Crowd, Copies, Name;
    CrowdFacts(n - 1);
    XsApart(|s|, i + 1);
    assert s != "b" ==> s == Name(|s|);
    assert Roll(n)[i] == OwnWord(s) <==> i == Position(n, s);
    CountCopies(MentionCount(s), OwnWord(s), Roll(n)[i]);
  }

  /** Every word is posted under its one holder. */
  lemma RollLook(n: nat, log: real -> real, broadLimit: nat, i: nat)
    requires i < n && LogLike(log)
    ensures RollQuery(n, log, broadLimit).Look(Token, Roll(n)[i]) == {Holder(n, i)}
  {
    hide LogLike, OwnWords, AskingAbout, Query.Look, Roll, Holder, Spoken, PlainWords, Position, MentionCount;
    RollShape(n);
    CrowdFacts(n - 1);
    RollHolders(n, "b", i);
    forall s | s in OwnWords(n) ensures Roll(n)[i] in OwnWords(n)[s] <==> s in {Holder(n, i)} {
      RollHolders(n, s, i);
    }
    SampleLook(OwnWords(n), log, broadLimit, Roll(n), Roll(n)[i], {Holder(n, i)});
  }

  lemma RollIndex(n: nat, log: real -> real, broadLimit: nat)
    requires n > 0 && LogLike(log)
    ensures var q := RollQuery(n, log, broadLimit);
            && q.WellFormed() && q.log == log && q.broadLimit == broadLimit && q.predicateId == None
            && q.tokens == Roll(n) && q.st.views.profiles.Keys == Eligible(q.st, None) == OwnWords(n).Keys
            && forall s :: s in OwnWords(n) ==> q.st.views.At(s).profile == multiset(OwnWords(n)[s])
  {
    hide LogLike, OwnWords, AskingAbout, Query.WellFormed, Eligible, Views.At, Roll, Spoken, PlainWords;
    RollShape(n);
    Asked(OwnWords(n), log, broadLimit, Roll(n));
    SampleIndex(OwnWords(n), log, broadLimit, Roll(n));
  }

  /** The weight of a word in terms of how many subjects there are and how many hold it. */
  lemma WeightOf(q: Query, t: string, n: nat, holders: nat)
    requires |q.st.views.profiles.Keys| == n > 0 && q.predicateId == None && |q.Look(Token, t)| == holders
    ensures Idf(q.st, q.log, t) == q.log((1 + n) as real / (1 + holders) as real) + 1.0
  {
    assert q.Look(Token, t) == Posting(q.st.token, t);
    assert |q.st.views.profiles| == |q.st.views.profiles.Keys|;
  }

  lemma RollSize(n: nat, log: real -> real, broadLimit: nat)
    requires n > 0 && LogLike(log)
    ensures var q := RollQuery(n, log, broadLimit);
            q.log == log && q.predicateId == None && |q.st.views.profiles.Keys| == n
  {
    hide LogLike, OwnWords, RollQuery, Query.WellFormed, Eligible, Views.At, Roll, Spoken, PlainWords, Crowd;
    RollIndex(n, log, broadLimit);
    RollShape(n);
    assert |OwnWords(n)| == |OwnWords(n).Keys|;
  }

  /** All words weigh the same. */
  lemma RollWeight(n: nat, log: real -> real, broadLimit: nat, i: nat)
    requires n > 0 && LogLike(log) && i < n
    ensures Idf(RollQuery(n, log, broadLimit).st, log, Roll(n)[i]) == log((1 + n) as real / 2.0) + 1.0
  {
    hide LogLike, OwnWords, RollQuery, Query.WellFormed, Eligible, Views.At, Roll, Holder, Query.Look, Idf, Spoken,
         PlainWords, Crowd;
    var q, t := RollQuery(n, log, broadLimit), Roll(n)[i];
    assert q.log == log && q.predicateId == None && |q.st.views.profiles.Keys| == n by { RollSize(n, log, broadLimit); }
    assert |q.Look(Token, t)| == 1 by { RollLook(n, log, broadLimit, i); }
    WeightOf(q, t, n, 1);
  }

  /** A subject reached through exactly one of equally weighted words. */
  lemma {:induction false} OneHit(q: Query, s: string, p: nat, weight: real, n: nat)
    requires n <= |q.tokens|
    requires forall j :: 0 <= j < |q.tokens| ==> Idf(q.st, q.log, q.tokens[j]) == weight
    requires forall j :: 0 <= j < |q.tokens| ==> (q.Hits(Token, q.tokens[j], s) <==> j == p)
    ensures q.TokenScore(n, s) == if n > p then 4.0 * weight else 0.0
  {
    hide Idf, Query.Hits;
    if n > 0 {
      OneHit(q, s, p, weight, n - 1);
    }
  }

  lemma {:induction false} OneExact(q: Query, s: string, p: nat, weight: real, count: nat, n: nat)
    requires n <= |q.tokens| && count > 0
    requires forall j :: 0 <= j < |q.tokens| ==> Idf(q.st, q.log, q.tokens[j]) == weight
    requires forall j :: 0 <= j < |q.tokens| ==> q.st.views.At(s).profile[q.tokens[j]] == if j == p then count else 0
    ensures q.Exact(n, s) == if n > p then weight * (1.0 + q.log(count as real)) else 0.0
  {
    hide Idf, Views.At;
    if n > 0 {
      OneExact(q, s, p, weight, count, n - 1);
    }
  }

  lemma {:induction false} NoneMissing(q: Query, n: nat)
    requires n <= |q.tokens| && forall j :: 0 <= j < |q.tokens| ==> q.Look(Token, q.tokens[j]) != {}
    ensures q.Missing(n) == []
  {
    hide Query.Look;
    if n > 0 {
      NoneMissing(q, n - 1);
    }
  }

  /** Without missing words nothing is rescued. */
  lemma TokensOnly(q: Query, s: string)
    requires forall j :: 0 <= j < |q.tokens| ==> q.Look(Token, q.tokens[j]) != {}
    ensures q.Generated(s) == q.TokenScore(|q.tokens|, s)
  {
    hide Query.Look, Query.TokenScore;
    NoneMissing(q, |q.tokens|);
    assert q.RescueHits(Fragment, [], 0, s) == 0 && q.RescueHits(Ngram, [], 0, s) == 0;
  }

  /** All `n` subjects are generated alike, and finally the mentions decide. */
  lemma RollScore(n: nat, log: real -> real, broadLimit: nat, s: string)
    requires n > 0 && LogLike(log) && broadLimit > 0 && s in OwnWords(n)
    ensures var q := RollQuery(n, log, broadLimit);
            var weight := log((1 + n) as real / 2.0) + 1.0;
            q.Generated(s) == 4.0 * weight && q.Final(s) == weight * (1.4 + log(MentionCount(s) as real))
  {
    hide LogLike, OwnWords, RollQuery, Query.WellFormed, Eligible, Views.At, Roll, Holder, Idf, Query.Look, Position,
         MentionCount, Query.TokenScore, Query.Exact, Query.Generated;
    var q := RollQuery(n, log, broadLimit);
    var weight := log((1 + n) as real / 2.0) + 1.0;
    RollIndex(n, log, broadLimit);
    forall j | 0 <= j < n
      ensures Idf(q.st, q.log, q.tokens[j]) == weight
      ensures q.Look(Token, q.tokens[j]) != {} && (q.Hits(Token, q.tokens[j], s) <==> j == Position(n, s))
      ensures q.st.views.At(s).profile[q.tokens[j]] == if j == Position(n, s) then MentionCount(s) else 0
    {
      RollWeight(n, log, broadLimit, j);
      RollLook(n, log, broadLimit, j);
      RollHolders(n, s, j);
    }
    RollHolders(n, s, 0);
    OneHit(q, s, Position(n, s), weight, n);
    OneExact(q, s, Position(n, s), weight, MentionCount(s), n);
    TokensOnly(q, s);
  }

  lemma RollScores(n: nat, log: real -> real, broadLimit: nat)
    requires n > 0 && LogLike(log) && broadLimit > 0
    ensures var q := RollQuery(n, log, broadLimit);
            && q.WellFormed() && NothingSkipped(q)
            && ScoresOf(q).Keys == OwnWords(n).Keys && |ScoresOf(q)| == n
            && forall s, t :: s in ScoresOf(q) && t in ScoresOf(q) ==> ScoresOf(q)[s] == ScoresOf(q)[t]
  {
    hide LogLike, OwnWords, RollQuery, Query.WellFormed, Eligible, Views.At, Roll, Holder, Idf, Query.Look,
         Query.Generated, Query.Final, MentionCount;
    var q := RollQuery(n, log, broadLimit);
    RollIndex(n, log, broadLimit);
    RollShape(n);
    assert 4.0 * (log((1 + n) as real / 2.0) + 1.0) > 0.0 by { RollWeightPositive(n, log); }
    forall s | s in OwnWords(n) ensures q.Generated(s) == 4.0 * (log((1 + n) as real / 2.0) + 1.0) {
      RollScore(n, log, broadLimit, s);
    }
    assert ScoresOf(q).Keys == OwnWords(n).Keys;
    forall i | 0 <= i < n ensures !q.Broad(Token, q.tokens[i]) {
      RollLook(n, log, broadLimit, i);
    }
  }

  lemma RollWeightPositive(n: nat, log: real -> real)
    requires n > 0 && LogLike(log)
    ensures log((1 + n) as real / 2.0) + 1.0 >= 1.0
  {
    assert (1 + n) as real / 2.0 >= 1.0;
  }

  /** Among equal scores a cut keeps the first name and drops the last. */
  lemma CutByName(scores: map<string, real>, limit: nat, first: string, last: string)
    requires forall s, t :: s in scores && t in scores ==> scores[s] == scores[t]
    ensures first in scores && limit > 0 && (forall s :: s in scores && s != first ==> StrLess(first, s)) ==>
            first in Elements(Candidates(scores, limit))
    ensures last in scores && limit < |scores| && (forall s :: s in scores && s != last ==> StrLess(s, last)) ==>
            last !in Elements(Candidates(scores, limit))
  {
    hide Ranked, StrLess;
    var rank := Negated(scores);
    var kept := Take(Ranked(scores.Keys, rank), limit);
    forall s, t | s in scores && t in scores && Before(rank, s, t) && Before(rank, t, s) ensures false {
      BeforeTransitive(rank, s, t, s);
      BeforeIrreflexive(rank, s);
    }
    if first in scores && limit > 0 && first !in kept && (forall s :: s in scores && s != first ==> StrLess(first, s)) {
      assert kept[0] in kept && kept[0] in Ranked(scores.Keys, rank);
      TopPrecedes(scores.Keys, rank, limit, kept[0], first);
      assert false;
    }
    if last in kept && limit < |scores| && (forall s :: s in scores && s != last ==> StrLess(s, last)) {
      var dropped := Ranked(scores.Keys, rank)[limit];
      DroppedIsNotKept(scores.Keys, rank, limit);
      TopPrecedes(scores.Keys, rank, limit, last, dropped);
      assert false;
    }
  }

  lemma DroppedIsNotKept(ids: set<string>, rank: map<string, real>, limit: nat)
    requires limit < |ids|
    ensures var order := Ranked(ids, rank); order[limit] in ids && order[limit] !in Take(order, limit)
  {
    hide Ranked, Before;
    var order := Ranked(ids, rank);
    forall i | 0 <= i < limit ensures order[i] != order[limit] {
      RankedDistinct(order, ids, rank, i, limit);
    }
    assert order[limit] in order;
  }

  lemma Scaled(idf: real, small: real, large: real)
    requires idf >= 1.0 && large > small + TOLERANCE
    ensures idf * (1.4 + large) > idf * (1.4 + small) + TOLERANCE
  {
    assert idf * (1.4 + large) == idf * (1.4 + small) + idf * (large - small);
    assert idf * (large - small) >= large - small;
  }

  /** The scan names the last name; once one subject is cut the search names the first, or nobody if all are cut. */
  lemma CutNamesTheFirst(q: Query, limit: nat, first: string, last: string)
    requires q.WellFormed() && NothingSkipped(q) && limit < |ScoresOf(q)|
    requires forall s, t :: s in ScoresOf(q) && t in ScoresOf(q) ==> ScoresOf(q)[s] == ScoresOf(q)[t]
    requires last in ScoresOf(q) && forall s :: s in ScoresOf(q) && s != last ==>
               StrLess(s, last) && q.Final(last) > q.Final(s) + TOLERANCE
    requires limit > 0 ==> first in ScoresOf(q) && forall s :: s in ScoresOf(q) && s != first ==>
               StrLess(first, s) && (s != last ==> q.Final(first) > q.Final(s) + TOLERANCE)
    ensures FullScan(q).subjectId == Some(last)
    ensures Bounded(q, limit).subjectId == if limit == 0 then None else Some(first)
  {
    hide Query.Final, Query.WellFormed, Candidates, ScoresOf, Resolve, FullScan, StrLess, Eligible, NothingSkipped,
         Query.Generated, IsGenerated;
    ScoresExactly(q, ScoresOf(q));
    GeneratedIsPositive(q, ScoresOf(q));
    FullScanMeaning(q, last);
    CutByName(ScoresOf(q), limit, first, last);
    CandidatesGenerated(q, ScoresOf(q), limit);
    VerdictMeaning(q, ScoresOf(q), limit, false);
    if limit == 0 {
      NoneKept(ScoresOf(q));
    }
  }

  lemma NoneKept(scores: map<string, real>)
    ensures Candidates(scores, 0) == []
  {
  }

  /**
   Whatever the two limits, the broad one positive: a store and a question, nothing skipped,
   where the scan names `b` and a search that cuts names `a`, or nobody if it keeps nobody.
   */
  lemma CutMisleads(log: real -> real, broadLimit: nat, n: nat, limit: nat)
    requires LogLike(log) && log(2.0) > TOLERANCE && log(3.0) > log(2.0) + TOLERANCE
    requires broadLimit > 0 && limit < n
    ensures var q := RollQuery(n, log, broadLimit);
            && q.broadLimit == broadLimit && NothingSkipped(q) && |ScoresOf(q)| == n
            && FullScan(q).subjectId == Some("b")
            && Bounded(q, limit).subjectId == if limit == 0 then None else Some("a")
  {
    hide LogLike, Query.Final, Query.WellFormed, ScoresOf, Bounded, FullScan, OwnWords, StrLess, RollQuery,
         Eligible, NothingSkipped, Query.Generated, Query.Look, Views.At, MentionCount;
    RollIndex(n, log, broadLimit);
    RollScores(n, log, broadLimit);
    RollOrder(n);
    RollFinals(n, log, broadLimit);
    CutNamesTheFirst(RollQuery(n, log, broadLimit), limit, "a", "b");
  }

  lemma RollOrder(n: nat)
    requires n > 0
    ensures "b" in OwnWords(n) && forall s :: s in OwnWords(n) && s != "b" ==>
              StrLess(s, "b") && MentionCount("b") > MentionCount(s)
    ensures n > 1 ==> "a" in OwnWords(n) && forall s :: s in OwnWords(n) && s != "a" ==>
              StrLess("a", s) && (s != "b" ==> MentionCount("a") > MentionCount(s))
  {
    hide Crowd, StrLess, OwnWords, Spoken, PlainWords, Roll, Copies, OwnWord;
    RollShape(n);
    CrowdFacts(n - 1);
    assert StrLess("a", "b") by { FirstBeforeLast(); }
  }

  lemma FirstBeforeLast()
    ensures StrLess("a", "b")
  {
  }

  lemma RollFinals(n: nat, log: real -> real, broadLimit: nat)
    requires LogLike(log) && log(2.0) > TOLERANCE && log(3.0) > log(2.0) + TOLERANCE && n > 0 && broadLimit > 0
    ensures forall s, t :: s in OwnWords(n) && t in OwnWords(n) && MentionCount(s) > MentionCount(t) ==>
              RollQuery(n, log, broadLimit).Final(s) > RollQuery(n, log, broadLimit).Final(t) + TOLERANCE
  {
    hide Query.Final, OwnWords, RollQuery;
    RollWeightPositive(n, log);
    forall s, t | s in OwnWords(n) && t in OwnWords(n) && MentionCount(s) > MentionCount(t)
      ensures RollQuery(n, log, broadLimit).Final(s) > RollQuery(n, log, broadLimit).Final(t) + TOLERANCE
    {
      RollScore(n, log, broadLimit, s);
      RollScore(n, log, broadLimit, t);
      Scaled(log((1 + n) as real / 2.0) + 1.0, log(MentionCount(t) as real), log(MentionCount(s) as real));
    }
  }

  /**
   A planner with this broad limit and candidate limit gives every unskipped question that
   generates `n` subjects, put to whatever store, the full scan's verdict.
   */
  ghost predicate AlwaysFullScan(log: real -> real, broadLimit: nat, n: nat, limit: nat) {
    forall evidence, assertions, predicateId, question ::
      var q := Asking(evidence, assertions, log, broadLimit, predicateId, question);
      EvidenceKeyed(evidence) && AssertionsKeyed(assertions) && NothingSkipped(q) && |ScoresOf(q)| == n ==>
        Bounded(q, limit) == FullScan(q)
  }

  /**
   The candidate limit is harmless for exactly those questions that generate no more subjects
   than it keeps; a broad limit of zero leaves nothing to cut.
   */
  lemma LimitIsExact(log: real -> real, broadLimit: nat, n: nat, limit: nat)
    requires LogLike(log) && log(2.0) > TOLERANCE && log(3.0) > log(2.0) + TOLERANCE
    ensures AlwaysFullScan(log, broadLimit, n, limit) <==> n <= limit || broadLimit == 0
  {
    hide LogLike, Query.WellFormed, NothingSkipped, ScoresOf, Bounded, FullScan, IndexOf, OwnWords, Lexical;
    if n <= limit || broadLimit == 0 {
      forall evidence, assertions, predicateId, question
        ensures var q := Asking(evidence, assertions, log, broadLimit, predicateId, question);
                NothingSkipped(q) && |ScoresOf(q)| == n ==> Bounded(q, limit) == FullScan(q)
      {
        var q := Asking(evidence, assertions, log, broadLimit, predicateId, question);
        WithinLimit(q, evidence, assertions, limit);
        if broadLimit == 0 {
          NothingNarrow(q, evidence, assertions);
        }
      }
    } else {
      CutMisleads(log, broadLimit, n, limit);
      SampleKeyed(OwnWords(n));
    }
  }

  /** Under a broad limit of zero nothing is ever generated. */
  lemma NothingNarrow(q: Query, evidence: map<string, EvidenceRecord>, assertions: map<string, Assertion>)
    requires q.broadLimit == 0 && q.st == IndexOf(evidence, assertions) && LogLike(q.log)
    ensures |ScoresOf(q)| == 0
  {
    hide LogLike, IndexState.Inverted, Query.Look, Query.Generated, Eligible, IndexOf;
    IndexOfInverted(evidence, assertions);
    forall channel, f, s ensures !q.Hits(channel, f, s) {
      if s in q.Look(channel, f) {
        assert q.Look(channel, f) != {};
      }
    }
    forall s ensures q.Generated(s) == 0.0 {
      GeneratedSign(q, s);
    }
    assert ScoresOf(q) == map[];
  }

  lemma WithinLimit(q: Query, evidence: map<string, EvidenceRecord>, assertions: map<string, Assertion>, limit: nat)
    requires q.st == IndexOf(evidence, assertions) && LogLike(q.log)
    ensures NothingSkipped(q) && |ScoresOf(q)| <= limit ==> Bounded(q, limit) == FullScan(q)
  {
    hide LogLike, IndexState.Inverted, IndexOf, NothingSkipped, ScoresOf, Candidates, Resolve, FullScan, IsGenerated;
    IndexOfInverted(evidence, assertions);
    ScoresExactly(q, ScoresOf(q));
    if NothingSkipped(q) && |ScoresOf(q)| <= limit {
      RefinesFullScan(q, ScoresOf(q), limit, false);
    }
  }

  // ----- the broad limit

  /** `n` subjects say both words, `b` only the first one, three times. */
  ghost function Masked(n: nat): map<string, seq<string>> {
    var names := Crowd(n) + {"b"};
    map s | s in names :: if IsLast(s) then ["x", "x", "x"] else ["x", "y"]
  }

  ghost predicate IsLast(s: string) {
    s == "b"
  }

  ghost predicate XOrY(words: seq<string>) {
    forall k :: 0 <= k < |words| ==> words[k] == "x" || words[k] == "y"
  }

  ghost function MaskedQuery(n: nat, log: real -> real, words: seq<string>): Query {
    AskingAbout(Masked(n), log, n, words)
  }

  lemma PlainXY(words: seq<string>)
    requires XOrY(words)
    ensures PlainWords(words)
  {
    hide PlainWord;
    YPlain();
    XsPlain(1);
    assert Xs(1) == "x";
  }

  lemma TwoTexts()
    ensures PlainWords(["x", "x", "x"]) && PlainWords(["x", "y"])
    ensures multiset(["x", "x", "x"])["x"] == 3 && multiset(["x", "x", "x"])["y"] == 0
    ensures multiset(["x", "y"])["x"] == 1 && multiset(["x", "y"])["y"] == 1
  {
    hide PlainWords;
    PlainXY(["x", "x", "x"]);
    PlainXY(["x", "y"]);
  }

  lemma MaskedText(n: nat, s: string)
    requires s in Masked(n)
    ensures Masked(n)[s] != [] && PlainWords(Masked(n)[s])
    ensures "x" in Masked(n)[s] && ("y" in Masked(n)[s] <==> s != "b")
    ensures multiset(Masked(n)[s])["x"] == if s == "b" then 3 else 1
    ensures multiset(Masked(n)[s])["y"] == if s == "b" then 0 else 1
  {
    hide Crowd, PlainWords;
    TwoTexts();
  }

  lemma MaskedKeys(n: nat)
    ensures Masked(n).Keys == Crowd(n) + {"b"} && |Masked(n)| == n + 1 && "b" !in Crowd(n)
  {
    hide Crowd, StrLess;
    CrowdFacts(n);
    assert Masked(n).Keys == Crowd(n) + {"b"};
  }

  lemma MaskedShape(n: nat)
    ensures |Masked(n)| == n + 1 && Masked(n).Keys == Crowd(n) + {"b"} && "b" !in Crowd(n) && Spoken(Masked(n))
    ensures forall s :: s in Masked(n) ==> "x" in Masked(n)[s] && ("y" in Masked(n)[s] <==> s in Crowd(n))
  {
    hide Crowd, PlainWords, Masked;
    MaskedKeys(n);
    forall s | s in Masked(n)
      ensures Masked(n)[s] != [] && PlainWords(Masked(n)[s])
      ensures "x" in Masked(n)[s] && ("y" in Masked(n)[s] <==> s in Crowd(n))
    {
      MaskedText(n, s);
    }
  }

  /** The first word is held by one subject more than the broad limit, the second by exactly as many. */
  lemma MaskedIndex(n: nat, log: real -> real, words: seq<string>)
    requires LogLike(log) && XOrY(words)
    ensures var q := MaskedQuery(n, log, words);
            && q.WellFormed() && q.log == log && q.broadLimit == n && q.predicateId == None && q.tokens == words
            && q.st.views.profiles.Keys == Eligible(q.st, None) == Crowd(n) + {"b"}
            && "b" !in Crowd(n) && |Crowd(n)| == n && |Crowd(n) + {"b"}| == n + 1
  {
    hide LogLike, Masked, Eligible, Query.WellFormed, AskingAbout, Views.At, PlainWords, XOrY, Spoken, Crowd;
    MaskedShape(n);
    PlainXY(words);
    CrowdFacts(n);
    Asked(Masked(n), log, n, words);
    SampleIndex(Masked(n), log, n, words);
  }

  lemma MaskedLooks(n: nat, log: real -> real, words: seq<string>)
    requires LogLike(log) && XOrY(words)
    ensures MaskedQuery(n, log, words).Look(Token, "x") == Crowd(n) + {"b"}
    ensures MaskedQuery(n, log, words).Look(Token, "y") == Crowd(n)
  {
    hide LogLike, Masked, AskingAbout, PlainWords, XOrY, Spoken, Crowd, Query.Look;
    MaskedShape(n);
    PlainXY(words);
    SampleLook(Masked(n), log, n, words, "x", Crowd(n) + {"b"});
    SampleLook(Masked(n), log, n, words, "y", Crowd(n));
  }

  lemma MaskedCounts(n: nat, log: real -> real, words: seq<string>, s: string)
    requires LogLike(log) && XOrY(words) && s in Crowd(n) + {"b"}
    ensures var profile := MaskedQuery(n, log, words).st.views.At(s).profile;
            profile["x"] == (if s == "b" then 3 else 1) && profile["y"] == if s == "b" then 0 else 1
  {
    hide LogLike, Masked, Eligible, Query.WellFormed, AskingAbout, Views.At, PlainWords, XOrY, Spoken, Crowd;
    MaskedShape(n);
    MaskedText(n, s);
    SampleIndex(Masked(n), log, n, words);
  }

  lemma MaskedWeights(n: nat, log: real -> real, words: seq<string>)
    requires LogLike(log) && XOrY(words)
    ensures var q := MaskedQuery(n, log, words);
            Idf(q.st, log, "x") == 1.0 && 1.0 <= Idf(q.st, log, "y") <= 1.0 + log(2.0)
  {
    hide Eligible, Query.WellFormed, MaskedQuery, Crowd, XOrY, Query.Look, Idf;
    var q := MaskedQuery(n, log, words);
    MaskedIndex(n, log, words);
    MaskedLooks(n, log, words);
    WeightAtLeastOne(q, "y");
    WeightOf(q, "x", n + 1, n + 1);
    WeightOf(q, "y", n + 1, n);
    Ratios(n);
  }

  lemma WeightAtLeastOne(q: Query, t: string)
    requires q.WellFormed()
    ensures Idf(q.st, q.log, t) >= 1.0
  {
    IdfAtLeastOne(q.st, q.log, t);
  }

  lemma Ratios(n: nat)
    ensures 0.0 < (1 + (n + 1)) as real / (1 + n) as real <= 2.0
    ensures (1 + (n + 1)) as real / (1 + (n + 1)) as real == 1.0
  {
    var a, b := (1 + (n + 1)) as real, (1 + n) as real;
    assert a <= 2.0 * b;
    HalfBound(a, b);
  }

  lemma HalfBound(a: real, b: real)
    requires 0.0 < a <= 2.0 * b && 0.0 < b
    ensures 0.0 < a / b <= 2.0
  {
  }

  /** A question of a broad word and a narrow one generates the holders of the narrow one. */
  lemma BroadThenNarrow(q: Query, s: string)
    requires q.tokens == ["x", "x", "x", "y"] && q.Broad(Token, "x") && !q.Broad(Token, "y") && q.Look(Token, "y") != {}
    ensures q.Generated(s) == if s in q.Look(Token, "y") then 4.0 * Idf(q.st, q.log, "y") else 0.0
  {
    hide Idf, Query.Look, Query.Generated;
    assert q.Look(Token, "x") != {};
    TokensOnly(q, s);
    assert q.TokenScore(0, s) == q.TokenScore(1, s) == q.TokenScore(2, s) == q.TokenScore(3, s) == 0.0;
  }

  lemma BroadThenNarrowExact(q: Query, s: string, x: nat, y: nat)
    requires q.tokens == ["x", "x", "x", "y"] && Idf(q.st, q.log, "x") == 1.0 && q.log(1.0) == 0.0
    requires q.st.views.At(s).profile["x"] == x > 0 && q.st.views.At(s).profile["y"] == y <= 1
    ensures q.Exact(4, s) == 3.0 * (1.0 + q.log(x as real)) + if y == 1 then Idf(q.st, q.log, "y") else 0.0
  {
    hide Idf, Views.At;
    var one := 1.0 + q.log(x as real);
    assert q.Exact(0, s) == 0.0;
    assert q.Exact(1, s) == one && q.Exact(2, s) == 2.0 * one && q.Exact(3, s) == 3.0 * one;
  }

  /** The first word three times, then the second one. */
  ghost function BroadThenNarrowWords(): seq<string> {
    ["x", "x", "x", "y"]
  }

  lemma BroadThenNarrowSpelt()
    ensures XOrY(BroadThenNarrowWords())
  {
  }

  lemma MaskedGenerated(n: nat, log: real -> real, s: string)
    requires n > 0 && LogLike(log) && s in Crowd(n) + {"b"}
    ensures var q := MaskedQuery(n, log, BroadThenNarrowWords());
            q.Generated(s) == if s == "b" then 0.0 else 4.0 * Idf(q.st, log, "y")
  {
    hide LogLike, Crowd, Eligible, Query.WellFormed, MaskedQuery, Idf, Query.Look, Query.Generated;
    BroadThenNarrowSpelt();
    MaskedIndex(n, log, BroadThenNarrowWords());
    MaskedLooks(n, log, BroadThenNarrowWords());
    BroadThenNarrow(MaskedQuery(n, log, BroadThenNarrowWords()), s);
  }

  lemma LogOne(log: real -> real)
    requires LogLike(log)
    ensures log(1.0) == 0.0
  {
  }

  lemma MaskedFinal(n: nat, log: real -> real, s: string)
    requires n > 0 && LogLike(log) && s in Crowd(n) + {"b"}
    ensures var q := MaskedQuery(n, log, BroadThenNarrowWords());
            q.Final(s) == if s == "b" then 3.0 * (1.0 + log(3.0)) else 3.0 + 1.4 * Idf(q.st, log, "y")
  {
    hide Crowd, Eligible, Query.WellFormed, MaskedQuery, Idf, Query.Look, Views.At, Query.Generated, LogLike,
         Query.Exact;
    var words := BroadThenNarrowWords();
    BroadThenNarrowSpelt();
    MaskedIndex(n, log, words);
    MaskedWeights(n, log, words);
    MaskedCounts(n, log, words, s);
    MaskedGenerated(n, log, s);
    LogOne(log);
    BroadThenNarrowExact(MaskedQuery(n, log, words), s, if s == "b" then 3 else 1, if s == "b" then 0 else 1);
  }

  /** Everybody in the crowd is generated and scores below the winner, who is not generated. */
  lemma MaskedLoser(n: nat, log: real -> real, s: string)
    requires n > 0 && LogLike(log) && log(2.0) < 1.0 < log(3.0) && s in Crowd(n) + {"b"}
    ensures var q := MaskedQuery(n, log, BroadThenNarrowWords());
            && (s in ScoresOf(q) <==> s != "b")
            && q.Final(s) > 0.0 && (s != "b" ==> q.Final("b") > q.Final(s) + TOLERANCE)
  {
    hide BroadThenNarrowWords, XOrY, LogLike, Idf, Query.Final, Query.WellFormed, MaskedQuery, Query.Generated,
         Crowd, Eligible, Query.Look;
    BroadThenNarrowSpelt();
    MaskedIndex(n, log, BroadThenNarrowWords());
    MaskedWeights(n, log, BroadThenNarrowWords());
    MaskedGenerated(n, log, s);
    MaskedFinal(n, log, s);
    MaskedFinal(n, log, "b");
  }

  /**
   For every positive broad limit: a posting with one subject more than the limit is skipped,
   the narrow posting beside it still generates candidates, and the scan's winner is not among
   them.  With a broad limit of one the search names another subject instead.
   */
  lemma BroadSkipMisleads(log: real -> real, n: nat, limit: nat)
    requires n > 0 && LogLike(log) && log(2.0) < 1.0 < log(3.0)
    ensures var q := MaskedQuery(n, log, BroadThenNarrowWords());
            && q.WellFormed() && q.broadLimit == n && q.Broad(Token, "x") && !q.Broad(Token, "y")
            && FullScan(q).subjectId == Some("b")
            && Bounded(q, limit).subjectId != Some("b")
            && (n == 1 && limit > 0 ==> Bounded(q, limit).subjectId == Some("a"))
  {
    hide BroadThenNarrowWords, XOrY, LogLike, Query.Final, Query.WellFormed, FullScan, Bounded, MaskedQuery, Crowd,
         Query.Look, ScoresOf, Positive;
    var q := MaskedQuery(n, log, BroadThenNarrowWords());
    BroadThenNarrowSpelt();
    MaskedIndex(n, log, BroadThenNarrowWords());
    MaskedLooks(n, log, BroadThenNarrowWords());
    MaskedScores(n, log);
    SkippedWinner(q, limit, "b");
    if n == 1 && limit > 0 {
      CrowdFacts(1);
      SoleCandidate(q, limit, "a");
    }
  }

  lemma MaskedScores(n: nat, log: real -> real)
    requires n > 0 && LogLike(log) && log(2.0) < 1.0 < log(3.0)
    ensures var q := MaskedQuery(n, log, BroadThenNarrowWords());
            && ScoresOf(q).Keys == Crowd(n) && "b" !in ScoresOf(q) && "b" in Positive(q)
            && forall s :: s in Positive(q) && s != "b" ==> q.Final("b") > q.Final(s) + TOLERANCE
  {
    hide BroadThenNarrowWords, XOrY, LogLike, Query.Final, Query.WellFormed, MaskedQuery, Query.Generated, Crowd,
         Eligible, Query.Look;
    var q := MaskedQuery(n, log, BroadThenNarrowWords());
    BroadThenNarrowSpelt();
    MaskedIndex(n, log, BroadThenNarrowWords());
    forall s | s in Crowd(n) + {"b"}
      ensures s in ScoresOf(q) <==> s != "b"
      ensures q.Final(s) > 0.0 && (s != "b" ==> q.Final("b") > q.Final(s) + TOLERANCE)
    {
      MaskedLoser(n, log, s);
    }
  }

  /** No exact posting the question consults holds more than `m` subjects. */
  ghost predicate PostingsWithin(q: Query, m: nat) {
    forall i :: 0 <= i < |q.tokens| ==> |q.Look(Token, q.tokens[i])| <= m
  }

  /** Every uncut question whose postings hold at most `m` subjects gets the full scan's verdict. */
  ghost predicate AlwaysUnskipped(log: real -> real, broadLimit: nat, m: nat, limit: nat) {
    forall evidence, assertions, predicateId, question ::
      var q := Asking(evidence, assertions, log, broadLimit, predicateId, question);
      EvidenceKeyed(evidence) && AssertionsKeyed(assertions) && PostingsWithin(q, m) && |ScoresOf(q)| <= limit ==>
        Bounded(q, limit) == FullScan(q)
  }

  /** The broad limit is harmless for exactly those questions whose exact postings it does not exceed. */
  lemma BroadLimitIsExact(log: real -> real, broadLimit: nat, m: nat, limit: nat)
    requires LogLike(log) && log(3.0) > TOLERANCE
    ensures AlwaysUnskipped(log, broadLimit, m, limit) <==> m <= broadLimit
  {
    hide LogLike, Query.WellFormed, ScoresOf, Bounded, FullScan, IndexOf, Masked, Lexical, Query.Look;
    if m <= broadLimit {
      forall evidence, assertions, predicateId, question
        ensures var q := Asking(evidence, assertions, log, broadLimit, predicateId, question);
                PostingsWithin(q, m) && |ScoresOf(q)| <= limit ==> Bounded(q, limit) == FullScan(q)
      {
        WithinLimit(Asking(evidence, assertions, log, broadLimit, predicateId, question), evidence, assertions, limit);
      }
    } else {
      OnlyBroad(log, broadLimit, limit);
      SampleKeyed(Masked(broadLimit));
    }
  }

  /** A question of one broad word: the search generates nobody, the scan names `b`. */
  lemma OnlyBroad(log: real -> real, n: nat, limit: nat)
    requires LogLike(log) && log(3.0) > TOLERANCE
    ensures var q := MaskedQuery(n, log, ["x"]);
            && PostingsWithin(q, n + 1) && |ScoresOf(q)| == 0
            && FullScan(q).subjectId == Some("b") && Bounded(q, limit).subjectId != Some("b")
  {
    hide LogLike, Idf, Query.Final, Query.WellFormed, Resolve, FullScan, Bounded, MaskedQuery, Query.Generated, Crowd,
         Eligible, Query.Look;
    var q := MaskedQuery(n, log, ["x"]);
    MaskedIndex(n, log, ["x"]);
    MaskedLooks(n, log, ["x"]);
    forall s | s in Crowd(n) + {"b"}
      ensures q.Generated(s) == 0.0 && q.Final(s) == 1.0 + log(if s == "b" then 3.0 else 1.0)
    {
      OnlyBroadScore(n, log, s);
    }
    assert log(1.0) == 0.0 by { LogOne(log); }
    assert ScoresOf(q) == map[];
    SkippedWinner(q, limit, "b");
  }

  lemma OnlyBroadScore(n: nat, log: real -> real, s: string)
    requires LogLike(log) && s in Crowd(n) + {"b"}
    ensures var q := MaskedQuery(n, log, ["x"]);
            q.Generated(s) == 0.0 && q.Final(s) == 1.0 + log(if s == "b" then 3.0 else 1.0)
  {
    hide LogLike, Crowd, Eligible, Query.WellFormed, MaskedQuery, Idf, Query.Look, Views.At, Query.Generated, XOrY;
    hide Query.Exact;
    var q := MaskedQuery(n, log, ["x"]);
    assert XOrY(["x"]) by { JustX(); }
    assert q.tokens == ["x"] && q.log == log && q.broadLimit == n by { MaskedIndex(n, log, ["x"]); }
    assert q.Broad(Token, "x") by { MaskedIndex(n, log, ["x"]); MaskedLooks(n, log, ["x"]); }
    assert Idf(q.st, q.log, "x") == 1.0 by { MaskedWeights(n, log, ["x"]); }
    assert q.st.views.At(s).profile["x"] == (if s == "b" then 3 else 1) by { MaskedCounts(n, log, ["x"], s); }
    OneBroadWord(q, s, if s == "b" then 3 else 1);
  }

  lemma OneBroadWord(q: Query, s: string, count: nat)
    requires q.tokens == ["x"] && q.Broad(Token, "x") && Idf(q.st, q.log, "x") == 1.0
    requires q.st.views.At(s).profile["x"] == count > 0
    ensures q.Generated(s) == 0.0 && q.Final(s) == 1.0 + q.log(count as real)
  {
    hide Idf, Query.Look, Views.At, Query.Generated, Query.Exact;
    BroadAlone(q, s);
    OneExact(q, s, 0, 1.0, count, 1);
  }

  lemma JustX()
    ensures XOrY(["x"])
  {
  }

  lemma BroadAlone(q: Query, s: string)
    requires q.tokens == ["x"] && q.Broad(Token, "x")
    ensures q.Generated(s) == 0.0
  {
    hide Query.Look, Query.Generated, Idf;
    assert q.Look(Token, "x") != {};
    TokensOnly(q, s);
    assert q.TokenScore(0, s) == q.TokenScore(1, s) == 0.0;
  }

  /** A winner that no narrow posting holds is never named. */
  lemma SkippedWinner(q: Query, limit: nat, w: string)
    requires q.WellFormed() && w in Positive(q) && w !in ScoresOf(q)
    requires forall s :: s in Positive(q) && s != w ==> q.Final(w) > q.Final(s) + TOLERANCE
    ensures FullScan(q).subjectId == Some(w) && Bounded(q, limit).subjectId != Some(w)
  {
    hide Query.Final, Query.WellFormed, Candidates, Resolve, FullScan, Query.Generated, IsGenerated, Positive, ScoresOf;
    FullScanMeaning(q, w);
    ScoresExactly(q, ScoresOf(q));
    CandidatesGenerated(q, ScoresOf(q), limit);
    NamesTheWinnerIffKept(q, limit, w);
  }
}
