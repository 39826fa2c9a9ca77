/** Constraint filtering and budgeted ranking with back-fill. */
module Retrieval {
  import opened Prelude
  import opened Models
  import opened Ranking
  import opened Postings
  import opened Storage
  import opened Documents
  import opened Lexicon

  /** The four optional constraints of a plan. */
  datatype Constraints = Constraints(subjectId: Option<string>, predicateId: Option<string>,
                                     validTime: Option<int>, recordedSeq: Option<int>)

  predicate Contains(i: Interval, t: int) {
    (i.0.None? || i.0.value <= t) && (i.1.None? || t <= i.1.value)
  }

  /** A document without linked assertions is active at every time. */
  predicate ActiveAt(d: RetrievalDoc, t: int) {
    d.links.validIntervals == {} || exists i :: i in d.links.validIntervals && Contains(i, t)
  }

  /** One document against the four constraints, read directly. */
  ghost predicate Admits(c: Constraints, d: RetrievalDoc) {
    && (c.subjectId.Some? ==> c.subjectId.value in d.links.subjects)
    && (c.predicateId.Some? ==> c.predicateId.value in d.links.predicates)
    && (c.recordedSeq.Some? ==> d.recordedSeq <= c.recordedSeq.value)
    && (c.validTime.Some? ==> ActiveAt(d, c.validTime.value))
  }

  ghost function AllowedIds(evidence: map<string, EvidenceRecord>, assertions: map<string, Assertion>,
                            c: Constraints): set<string> {
    set e | e in evidence && Admits(c, DocOf(evidence, assertions, e))
  }

  /** Nothing is lost: present evidence of one matching assertion, recorded early enough, is allowed. */
  lemma NothingLost(evidence: map<string, EvidenceRecord>, assertions: map<string, Assertion>, c: Constraints,
                    e: string, id: string)
    requires e in evidence && id in assertions && e in assertions[id].evidenceIds
    requires c.subjectId.Some? ==> assertions[id].subjectId == c.subjectId.value
    requires c.predicateId.Some? ==> assertions[id].predicateId == c.predicateId.value
    requires c.recordedSeq.Some? ==> evidence[e].recordedSeq <= c.recordedSeq.value
    requires c.validTime.Some? && assertions[id].validFrom.Some? ==> assertions[id].validFrom.value <= c.validTime.value
    requires c.validTime.Some? && assertions[id].validTo.Some? ==> c.validTime.value <= assertions[id].validTo.value
    ensures e in AllowedIds(evidence, assertions, c)
  {
    hide AllowedIds;
    AllowedExactly(evidence, assertions, c, e);
  }

  /**
   Exactly what is allowed: present evidence, recorded early enough, where each constraint is
   met by some citing assertion, not necessarily the same one; a valid time must lie between
   the inclusive bounds of one of them, unless no assertion cites the evidence.
   */
  lemma AllowedExactly(evidence: map<string, EvidenceRecord>, assertions: map<string, Assertion>, c: Constraints,
                       e: string)
    ensures e in AllowedIds(evidence, assertions, c) <==>
      && e in evidence
      && (c.recordedSeq.Some? ==> evidence[e].recordedSeq <= c.recordedSeq.value)
      && (c.subjectId.Some? ==>
            exists id :: id in assertions && e in assertions[id].evidenceIds
                         && assertions[id].subjectId == c.subjectId.value)
      && (c.predicateId.Some? ==>
            exists id :: id in assertions && e in assertions[id].evidenceIds
                         && assertions[id].predicateId == c.predicateId.value)
      && (c.validTime.Some? ==>
            || (forall id :: id in assertions ==> e !in assertions[id].evidenceIds)
            || exists id :: id in assertions && e in assertions[id].evidenceIds
                 && (assertions[id].validFrom.None? || assertions[id].validFrom.value <= c.validTime.value)
                 && (assertions[id].validTo.None? || c.validTime.value <= assertions[id].validTo.value))
  {
    hide ActiveAt;
    if e in evidence {
      LinkedSubjects(assertions, e, c);
      if c.validTime.Some? {
        ActiveExactly(evidence, assertions, e, c.validTime.value);
      }
    }
  }

  lemma LinkedSubjects(assertions: map<string, Assertion>, e: string, c: Constraints)
    ensures c.subjectId.Some? ==> (c.subjectId.value in LinksOf(assertions, e).subjects <==>
              exists id :: id in assertions && e in assertions[id].evidenceIds
                           && assertions[id].subjectId == c.subjectId.value)
    ensures c.predicateId.Some? ==> (c.predicateId.value in LinksOf(assertions, e).predicates <==>
              exists id :: id in assertions && e in assertions[id].evidenceIds
                           && assertions[id].predicateId == c.predicateId.value)
  {
    forall id | id in assertions && e in assertions[id].evidenceIds ensures id in Citing(assertions, e) {
    }
  }

  lemma ActiveExactly(evidence: map<string, EvidenceRecord>, assertions: map<string, Assertion>, e: string, t: int)
    requires e in evidence
    ensures ActiveAt(DocOf(evidence, assertions, e), t) <==>
      || (forall id :: id in assertions ==> e !in assertions[id].evidenceIds)
      || exists id :: id in assertions && e in assertions[id].evidenceIds
           && (assertions[id].validFrom.None? || assertions[id].validFrom.value <= t)
           && (assertions[id].validTo.None? || t <= assertions[id].validTo.value)
  {
    var d := DocOf(evidence, assertions, e);
    forall id | id in assertions && e in assertions[id].evidenceIds
      ensures (assertions[id].validFrom, assertions[id].validTo) in d.links.validIntervals
    {
      assert id in Citing(assertions, e);
    }
    if d.links.validIntervals != {} && ActiveAt(d, t) {
      var i :| i in d.links.validIntervals && Contains(i, t);
      var id :| id in Citing(assertions, e) && (assertions[id].validFrom, assertions[id].validTo) == i;
      assert id in assertions && e in assertions[id].evidenceIds;
    }
    if d.links.validIntervals == {} {
      forall id | id in assertions ensures e !in assertions[id].evidenceIds {
      }
    }
  }

  /**
   The converse of `NothingLost` fails: evidence shared by an assertion about another
   subject and one with another predicate is allowed although no single assertion matches.
   */
  lemma AllowedWithoutOneMatch(item: EvidenceRecord, a: Assertion, b: Assertion)
    requires a.id != b.id && a.evidenceIds == b.evidenceIds == [item.id]
    requires a.subjectId != b.subjectId && a.predicateId != b.predicateId
    ensures var assertions := map[a.id := a, b.id := b];
            var c := Constraints(Some(a.subjectId), Some(b.predicateId), None, None);
            && item.id in AllowedIds(map[item.id := item], assertions, c)
            && forall id :: id in assertions ==>
                 !(assertions[id].subjectId == a.subjectId && assertions[id].predicateId == b.predicateId)
  {
    var assertions := map[a.id := a, b.id := b];
    assert a.id in Citing(assertions, item.id) && b.id in Citing(assertions, item.id);
    var c := Constraints(Some(a.subjectId), Some(b.predicateId), None, None);
    AllowedExactly(map[item.id := item], assertions, c, item.id);
  }

  /**
   Evidence that no assertion cites: allowed under any valid time as long as no subject and no
   predicate is asked for.
   */
  lemma UncitedAllowed(evidence: map<string, EvidenceRecord>, assertions: map<string, Assertion>, c: Constraints,
                       e: string)
    requires e in evidence && Citing(assertions, e) == {}
    ensures e in AllowedIds(evidence, assertions, c) <==>
            && c.subjectId.None? && c.predicateId.None?
            && (c.recordedSeq.Some? ==> evidence[e].recordedSeq <= c.recordedSeq.value)
  {
    AllowedExactly(evidence, assertions, c, e);
  }

  datatype RetrievalHit = RetrievalHit(evidenceId: string, score: real, channels: set<string>)

  datatype RetrievalTrace = RetrievalTrace(
    architecture: string, queryId: string, budget: nat, candidatesConsidered: nat, returnedIds: seq<string>,
    channelCalls: seq<string>, rounds: nat, coverageSatisfied: Option<bool>)

  /** The similarities of one representation to a text, kept where positive. */
  function Similar(allowed: set<string>, score: (string, string) -> real, text: string): map<string, real> {
    map id | id in allowed && score(text, id) > 0.0 :: score(text, id)
  }

  /** The weighted union of the two text channels. */
  function Blend(concept: map<string, real>, lexical: map<string, real>): map<string, real> {
    map id | id in concept.Keys + lexical.Keys :: 0.55 * At(concept, id) + 0.45 * At(lexical, id)
  }

  function RecencyRank(evidence: map<string, EvidenceRecord>): (m: map<string, real>)
    ensures m.Keys == evidence.Keys
  {
    map id | id in evidence :: -(evidence[id].recordedSeq as real)
  }

  /** One fixed order of the allowed documents: scored first, then the rest by recency. */
  ghost function PlannedOrder(scores: map<string, real>, allowed: set<string>,
                              evidence: map<string, EvidenceRecord>): seq<string> {
    Ranked(scores.Keys, Negated(scores)) + Ranked(allowed - scores.Keys, RecencyRank(evidence))
  }

  /** The order lists every allowed document exactly once. */
  lemma PlannedOrderLists(scores: map<string, real>, allowed: set<string>, evidence: map<string, EvidenceRecord>)
    requires scores.Keys <= allowed
    ensures var order := PlannedOrder(scores, allowed, evidence);
            && Elements(order) == allowed && |order| == |allowed|
            && forall i, j :: 0 <= i < j < |order| ==> order[i] != order[j]
  {
    hide Ranked, Before, Elements, Negated, RecencyRank;
    JoinedListings(scores.Keys, Negated(scores), allowed - scores.Keys, RecencyRank(evidence), allowed);
  }

  /** Two listings of disjoint sets, one after the other. */
  lemma JoinedListings(a: set<string>, rankA: map<string, real>, b: set<string>, rankB: map<string, real>,
                       all: set<string>)
    requires a !! b && all == a + b
    ensures var order := Ranked(a, rankA) + Ranked(b, rankB);
            && Elements(order) == all && |order| == |all|
            && forall i, j :: 0 <= i < j < |order| ==> order[i] != order[j]
  {
    hide Ranked, Before;
    var front, back := Ranked(a, rankA), Ranked(b, rankB);
    var order := front + back;
    forall x ensures x in order <==> x in a + b {
      assert x in front <==> x in a;
      assert x in back <==> x in b;
    }
    assert Elements(order) == all;
    forall i, j | 0 <= i < j < |order| ensures order[i] != order[j] {
      JoinedDistinct(a, rankA, b, rankB, i, j);
    }
  }

  lemma JoinedDistinct(a: set<string>, rankA: map<string, real>, b: set<string>, rankB: map<string, real>, i: nat,
                       j: nat)
    requires a !! b && i < j < |Ranked(a, rankA)| + |Ranked(b, rankB)|
    ensures (Ranked(a, rankA) + Ranked(b, rankB))[i] != (Ranked(a, rankA) + Ranked(b, rankB))[j]
  {
    hide Ranked, Before;
    var front, back := Ranked(a, rankA), Ranked(b, rankB);
    if j < |front| {
      RankedDistinct(front, a, rankA, i, j);
    } else if i >= |front| {
      RankedDistinct(back, b, rankB, i - |front|, j - |front|);
    } else {
      assert front[i] in front && back[j - |front|] in back;
    }
  }

  /**
   The planned order, pair by pair: scored documents before unscored ones, higher scores
   first, unscored ones by recency, and every tie by id.
   */
  lemma PlannedOrderExactly(scores: map<string, real>, allowed: set<string>, evidence: map<string, EvidenceRecord>,
                            i: nat, j: nat)
    requires scores.Keys <= allowed <= evidence.Keys && i < j < |PlannedOrder(scores, allowed, evidence)|
    ensures var x, y := PlannedOrder(scores, allowed, evidence)[i], PlannedOrder(scores, allowed, evidence)[j];
            && x in allowed && y in allowed
            && (x in scores && y in scores ==> scores[x] > scores[y] || (scores[x] == scores[y] && StrLess(x, y)))
            && (y in scores ==> x in scores)
            && (x !in scores ==>
                  || evidence[x].recordedSeq > evidence[y].recordedSeq
                  || (evidence[x].recordedSeq == evidence[y].recordedSeq && StrLess(x, y)))
  {
    hide Ranked, StrLess;
    var front, back := Ranked(scores.Keys, Negated(scores)), Ranked(allowed - scores.Keys, RecencyRank(evidence));
    if j < |front| {
      ScoredPair(scores, i, j);
    } else if i >= |front| {
      RecentPair(allowed - scores.Keys, evidence, i - |front|, j - |front|);
    } else {
      assert front[i] in front && back[j - |front|] in back;
    }
  }

  lemma ScoredPair(scores: map<string, real>, i: nat, j: nat)
    requires i < j < |Ranked(scores.Keys, Negated(scores))|
    ensures var x, y := Ranked(scores.Keys, Negated(scores))[i], Ranked(scores.Keys, Negated(scores))[j];
            && x in scores && y in scores
            && (scores[x] > scores[y] || (scores[x] == scores[y] && StrLess(x, y)))
  {
    hide Ranked, StrLess;
    var front := Ranked(scores.Keys, Negated(scores));
    assert front[i] in front && front[j] in front;
    assert Before(Negated(scores), front[i], front[j]);
  }

  lemma RecentPair(ids: set<string>, evidence: map<string, EvidenceRecord>, i: nat, j: nat)
    requires ids <= evidence.Keys && i < j < |Ranked(ids, RecencyRank(evidence))|
    ensures var x, y := Ranked(ids, RecencyRank(evidence))[i], Ranked(ids, RecencyRank(evidence))[j];
            && x in ids && y in ids
            && (|| evidence[x].recordedSeq > evidence[y].recordedSeq
                || (evidence[x].recordedSeq == evidence[y].recordedSeq && StrLess(x, y)))
  {
    hide Ranked, StrLess;
    var back := Ranked(ids, RecencyRank(evidence));
    assert back[i] in back && back[j] in back;
    assert Before(RecencyRank(evidence), back[i], back[j]);
  }

  /** A smaller budget returns a prefix of what a larger one returns. */
  lemma SmallerBudgetIsPrefix(order: seq<string>, b: nat, c: nat)
    requires b <= c
    ensures Take(order, b) <= Take(order, c)
    ensures Elements(Take(order, b)) <= Elements(Take(order, c))
  {
    forall x | x in Take(order, b) ensures x in Take(order, c) {
      var k :| 0 <= k < |Take(order, b)| && Take(order, b)[k] == x;
      assert Take(order, c)[k] == x;
    }
  }

  class RetrievalIndex {
    const store: MemoryStore
    const docs: seq<RetrievalDoc>
    const byId: map<string, RetrievalDoc>
    const identity: map<string, set<string>>
    const predicates: map<string, set<string>>
    const tokenIndex: map<string, set<string>>
    const conceptScore: (string, string) -> real
    const lexicalScore: (string, string) -> real
    ghost const evidence: map<string, EvidenceRecord>
    ghost const assertions: map<string, Assertion>

    /** The index materializes the canonical fields it was built from. */
    ghost predicate Valid() {
      && DocsOf(docs, evidence, assertions)
      && byId.Keys == evidence.Keys
      && (forall e :: e in byId ==> byId[e] == DocOf(evidence, assertions, e))
      && Inverts(identity, DocFeatures(Identity, evidence, assertions))
      && Inverts(predicates, DocFeatures(Predicated, evidence, assertions))
      && Inverts(tokenIndex, DocFeatures(Worded, evidence, assertions))
    }

    constructor (store: MemoryStore, conceptScore: (string, string) -> real, lexicalScore: (string, string) -> real)
      requires store.Valid()
      ensures Valid() && this.store == store
      ensures evidence == store.evidence && assertions == store.assertions
      ensures this.conceptScore == conceptScore && this.lexicalScore == lexicalScore
    {
      hide LinksOf, FacetOf, Ranked, LocalityOf, DocFeatures;
      var built := BuildDocs(store.evidence, store.assertions);
      var byIdentity := InvertDocs(Identity, built, store.evidence, store.assertions);
      var byPredicate := InvertDocs(Predicated, built, store.evidence, store.assertions);
      var byToken := InvertDocs(Worded, built, store.evidence, store.assertions);
      var table := KeyById(built, store.evidence, store.assertions);
      this.store, docs, byId := store, built, table;
      identity, predicates, tokenIndex := byIdentity, byPredicate, byToken;
      this.conceptScore, this.lexicalScore := conceptScore, lexicalScore;
      evidence, assertions := store.evidence, store.assertions;
    }

    /** Structured constraints resolved through the inverted indexes. */
    method HardFilter(c: Constraints) returns (allowed: set<string>)
      requires Valid()
      ensures allowed == AllowedIds(evidence, assertions, c)
    {
      hide LinksOf, DocsOf;
      allowed := byId.Keys;
      if c.subjectId.Some? {
        allowed := allowed * Posting(identity, c.subjectId.value);
      }
      if c.predicateId.Some? {
        allowed := allowed * Posting(predicates, c.predicateId.value);
      }
      if c.recordedSeq.Some? {
        allowed := set e | e in allowed && byId[e].recordedSeq <= c.recordedSeq.value;
      }
      if c.validTime.Some? {
        allowed := set e | e in allowed && ActiveAt(byId[e], c.validTime.value);
      }
      forall e ensures e in allowed <==> e in AllowedIds(evidence, assertions, c) {
        if e in evidence {
          PostedUnder(e, c);
        }
      }
    }

    lemma PostedUnder(e: string, c: Constraints)
      requires Valid() && e in evidence
      ensures c.subjectId.Some? ==>
                (e in Posting(identity, c.subjectId.value) <==> c.subjectId.value in byId[e].links.subjects)
      ensures c.predicateId.Some? ==>
                (e in Posting(predicates, c.predicateId.value) <==> c.predicateId.value in byId[e].links.predicates)
    {
      hide LinksOf, DocsOf;
      if c.subjectId.Some? {
        assert Has(identity, c.subjectId.value, e) <==>
               c.subjectId.value in FeatsAt(DocFeatures(Identity, evidence, assertions), e);
      }
      if c.predicateId.Some? {
        assert Has(predicates, c.predicateId.value, e) <==>
               c.predicateId.value in FeatsAt(DocFeatures(Predicated, evidence, assertions), e);
      }
    }

    /** The blended scores of the allowed documents for a text. */
    function Scores(text: string, allowed: set<string>): (scores: map<string, real>)
      ensures scores.Keys <= allowed
    {
      Blend(Similar(allowed, conceptScore, text), Similar(allowed, lexicalScore, text))
    }

    /** The representations under which a document is similar to the text. */
    function ChannelsOf(text: string, allowed: set<string>, id: string): set<string> {
      (if id in Similar(allowed, conceptScore, text) then {"semantic"} else {}) +
      (if id in Similar(allowed, lexicalScore, text) then {"lexical"} else {})
    }

    function HitFor(text: string, allowed: set<string>, id: string): RetrievalHit {
      RetrievalHit(id, At(Scores(text, allowed), id), ChannelsOf(text, allowed, id))
    }

    ghost function Order(text: string, c: Constraints): seq<string> {
      var allowed := AllowedIds(evidence, assertions, c);
      PlannedOrder(Scores(text, allowed), allowed, evidence)
    }

    /** Text ranking cut at the budget. */
    method Hybrid(text: string, budget: nat, allowed: set<string>) returns (hits: seq<RetrievalHit>, considered: nat)
      ensures considered == |allowed|
      ensures var ids := Take(Ranked(Scores(text, allowed).Keys, Negated(Scores(text, allowed))), budget);
              |hits| == |ids| && forall i :: 0 <= i < |hits| ==> hits[i] == HitFor(text, allowed, ids[i])
    {
      var scores := Scores(text, allowed);
      var ranked := SortIds(scores.Keys, Negated(scores));
      var ids := Take(ranked, budget);
      hits := seq(|ids|, i requires 0 <= i < |ids| => HitFor(text, allowed, ids[i]));
      considered := |allowed|;
    }

    /** Ranked hits, back-filled from the rest of the allowed region by recency up to the budget. */
    method PlannedSearch(text: string, budget: nat, c: Constraints) returns (ids: seq<string>, considered: nat)
      requires Valid()
      ensures ids == Take(Order(text, c), budget)
      ensures considered == |AllowedIds(evidence, assertions, c)|
    {
      hide Ranked, RetrievalIndex.Valid, AllowedIds, Scores, Negated, RecencyRank, At, Take, Elements, HitIds;
      var allowed := HardFilter(c);
      var hits;
      hits, considered := Hybrid(text, budget, allowed);
      ghost var taken := HitIds(hits);
      ghost var scores := Scores(text, allowed);
      ghost var front := Ranked(scores.Keys, Negated(scores));
      ghost var back := Ranked(allowed - scores.Keys, RecencyRank(evidence));
      HitsTaken(taken, front, budget);
      if |hits| < budget {
        AllFront(scores.Keys, Negated(scores), budget, taken);
        var more := BackFill(hits, allowed, budget - |hits|);
        JoinedHits(hits, more);
        hits := hits + more;
        TakeAcross(front, back, budget);
      } else {
        TakeWithin(front, back, budget);
      }
      ids := Take(HitIds(hits), budget);
    }

    /** The allowed documents not among the hits, most recent first, as hits of score zero. */
    method BackFill(hits: seq<RetrievalHit>, allowed: set<string>, n: nat) returns (more: seq<RetrievalHit>)
      requires Valid()
      ensures HitIds(more) == Take(Ranked(allowed - Elements(HitIds(hits)), RecencyRank(evidence)), n)
      ensures forall hit :: hit in more ==> hit.score == 0.0 && hit.channels == {"identity", "predicate", "time"}
    {
      hide Ranked, DocOf, DocsOf, DocFeatures, RecencyRank, Inverts;
      var taken := HitIds(hits);
      var rest := allowed - set id | id in taken;
      var rank := map id | id in byId :: -(byId[id].recordedSeq as real);
      SameRecency(rank);
      var sorted := SortIds(rest, rank);
      var remaining := Take(sorted, n);
      more := seq(|remaining|, i requires 0 <= i < |remaining| =>
        RetrievalHit(remaining[i], 0.0, {"identity", "predicate", "time"}));
      assert HitIds(more) == remaining;
    }

    lemma SameRecency(rank: map<string, real>)
      requires Valid() && rank == map id | id in byId :: -(byId[id].recordedSeq as real)
      ensures rank == RecencyRank(evidence)
    {
      hide LinksOf, DocsOf, DocFeatures;
    }
  }

  /** The blended score of a document and the channels of its hit, from its two similarities to the text. */
  lemma HitsExactly(index: RetrievalIndex, text: string, allowed: set<string>, id: string)
    ensures var concept, lexical := index.conceptScore(text, id), index.lexicalScore(text, id);
            var scores := index.Scores(text, allowed);
            && (id in scores <==> id in allowed && (concept > 0.0 || lexical > 0.0))
            && (id in scores ==>
                  scores[id] == 0.55 * (if concept > 0.0 then concept else 0.0)
                                + 0.45 * (if lexical > 0.0 then lexical else 0.0))
            && (id in allowed ==>
                  index.ChannelsOf(text, allowed, id) ==
                  (if concept > 0.0 then {"semantic"} else {}) + (if lexical > 0.0 then {"lexical"} else {}))
            && index.HitFor(text, allowed, id) ==
                 RetrievalHit(id, if id in scores then scores[id] else 0.0, index.ChannelsOf(text, allowed, id))
  {
  }

  /** The three inverted indexes of a retrieval index in terms of the records it was built from. */
  lemma DocumentIndexesExactly(index: RetrievalIndex, f: string, e: string)
    requires index.Valid()
    ensures f in index.identity && e in index.identity[f] <==>
            e in index.evidence && exists id :: id in index.assertions && e in index.assertions[id].evidenceIds
                                                && index.assertions[id].subjectId == f
    ensures f in index.predicates && e in index.predicates[f] <==>
            e in index.evidence && exists id :: id in index.assertions && e in index.assertions[id].evidenceIds
                                                && index.assertions[id].predicateId == f
    ensures f in index.tokenIndex && e in index.tokenIndex[f] <==>
            e in index.evidence && f in Tokens(index.evidence[e].payload)
  {
    hide Tokens, DocsOf;
    assert Has(index.identity, f, e) <==> f in FeatsAt(DocFeatures(Identity, index.evidence, index.assertions), e);
    assert Has(index.predicates, f, e) <==> f in FeatsAt(DocFeatures(Predicated, index.evidence, index.assertions), e);
    assert Has(index.tokenIndex, f, e) <==> f in FeatsAt(DocFeatures(Worded, index.evidence, index.assertions), e);
    forall id | id in index.assertions && e in index.assertions[id].evidenceIds
      ensures id in Citing(index.assertions, e)
    {
    }
  }

  /** A listing shorter than the budget is taken whole. */
  lemma AllFront(ids: set<string>, rank: map<string, real>, n: nat, taken: seq<string>)
    requires taken == Take(Ranked(ids, rank), n) && |taken| < n
    ensures taken == Ranked(ids, rank) && Elements(taken) == ids
  {
    hide Ranked, Before;
  }

  lemma HitsTaken(ids: seq<string>, front: seq<string>, n: nat)
    requires |ids| == |Take(front, n)| && forall i :: 0 <= i < |ids| ==> ids[i] == Take(front, n)[i]
    ensures ids == Take(front, n)
  {
  }

  function HitIds(hits: seq<RetrievalHit>): (ids: seq<string>)
    ensures |ids| == |hits| && forall i :: 0 <= i < |ids| ==> ids[i] == hits[i].evidenceId
  {
    seq(|hits|, i requires 0 <= i < |hits| => hits[i].evidenceId)
  }

  lemma JoinedHits(a: seq<RetrievalHit>, b: seq<RetrievalHit>)
    ensures HitIds(a + b) == HitIds(a) + HitIds(b)
  {
  }

  lemma TakeAcross(front: seq<string>, back: seq<string>, n: nat)
    requires |front| <= n
    ensures Take(front + back, n) == front + Take(back, n - |front|)
  {
  }

  lemma TakeWithin(front: seq<string>, back: seq<string>, n: nat)
    requires n <= |front|
    ensures Take(front + back, n) == Take(front, n)
  {
  }

  lemma DocIdentity(evidence: map<string, EvidenceRecord>, assertions: map<string, Assertion>, e: string)
    requires e in evidence
    ensures DocOf(evidence, assertions, e).evidenceId == e
  {
  }

  method KeyById(docs: seq<RetrievalDoc>, ghost evidence: map<string, EvidenceRecord>,
                 ghost assertions: map<string, Assertion>)
    returns (table: map<string, RetrievalDoc>)
    requires DocsOf(docs, evidence, assertions)
    ensures table.Keys == evidence.Keys
    ensures forall e :: e in table ==> table[e] == DocOf(evidence, assertions, e)
  {
    hide LinksOf, DocOf, Ranked, First;
    table := map[];
    ghost var order := Ranked(evidence.Keys, EvidenceRank(evidence));
    FirstAll(evidence.Keys, EvidenceRank(evidence));
    var i := 0;
    while i < |docs|
      invariant i <= |docs|
      invariant table.Keys == First(order, i)
      invariant forall e :: e in table ==> e in evidence && table[e] == DocOf(evidence, assertions, e)
    {
      FirstStep(evidence.Keys, EvidenceRank(evidence), i);
      DocIdentity(evidence, assertions, order[i]);
      table := table[docs[i].evidenceId := docs[i]];
      i := i + 1;
    }
  }
}
