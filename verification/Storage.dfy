/**
 The canonical store: evidence, assertions and relations, plus four locality tables that
 every mutator patches in place and that must stay what a rebuild would compute.
 */
module Storage {
  import opened Prelude
  import opened Models
  import opened Ranking
  import opened Postings
  import opened References

  ghost function KeyFeatures(assertions: map<string, Assertion>): map<string, set<StateKey>> {
    map id | id in assertions :: {assertions[id].Key()}
  }

  ghost function SubjectFeatures(assertions: map<string, Assertion>): map<string, set<string>> {
    map id | id in assertions :: {assertions[id].subjectId}
  }

  /** The relations with source `a`, in list order. */
  ghost function RelationsFrom(relations: seq<AssertionRelation>, a: string): seq<AssertionRelation> {
    if relations == [] then [] else
      var n := |relations| - 1;
      RelationsFrom(relations[..n], a) +
      if relations[n].sourceAssertionId == a then [relations[n]] else []
  }

  /** The relations whose source lies in `sources` and whose target lies in `targets`, in list order. */
  ghost function RelationsWithin(relations: seq<AssertionRelation>, sources: set<string>,
                                 targets: set<string>): seq<AssertionRelation> {
    if relations == [] then [] else
      var n := |relations| - 1;
      RelationsWithin(relations[..n], sources, targets) +
      if relations[n].sourceAssertionId in sources && relations[n].targetAssertionId in targets
      then [relations[n]] else []
  }

  function Row(bySource: map<string, seq<AssertionRelation>>, a: string): seq<AssertionRelation> {
    if a in bySource then bySource[a] else []
  }

  /** The four locality tables as one value. */
  datatype Locality = Locality(
    byKey: map<StateKey, set<string>>, bySubject: map<string, set<string>>,
    counts: RefCounts, bySource: map<string, seq<AssertionRelation>>)

  ghost predicate AssertionTables(byKey: map<StateKey, set<string>>,
                                  bySubject: map<string, set<string>>, counts: RefCounts,
                                  assertions: map<string, Assertion>) {
    && Inverts(byKey, KeyFeatures(assertions))
    && Inverts(bySubject, SubjectFeatures(assertions))
    && CountsMatch(counts, ReferencesOf(assertions))
  }

  ghost predicate SourceTable(bySource: map<string, seq<AssertionRelation>>,
                              relations: seq<AssertionRelation>) {
    && (forall a :: a in bySource ==> bySource[a] != [])
    && (forall a :: Row(bySource, a) == RelationsFrom(relations, a))
  }

  /** `loc` is what the canonical fields determine. */
  ghost predicate LocalityOf(loc: Locality, assertions: map<string, Assertion>,
                             relations: seq<AssertionRelation>) {
    && AssertionTables(loc.byKey, loc.bySubject, loc.counts, assertions)
    && SourceTable(loc.bySource, relations)
  }

  /** The locality tables do not remember the history that produced the canonical fields. */
  lemma LocalityUnique(l: Locality, m: Locality, assertions: map<string, Assertion>,
                       relations: seq<AssertionRelation>)
    requires LocalityOf(l, assertions, relations) && LocalityOf(m, assertions, relations)
    ensures l == m
  {
    InvertsUnique(l.byKey, m.byKey, KeyFeatures(assertions));
    InvertsUnique(l.bySubject, m.bySubject, SubjectFeatures(assertions));
    CountsUnique(l.counts, m.counts, ReferencesOf(assertions));
    forall a ensures a in l.bySource <==> a in m.bySource
             ensures a in l.bySource ==> l.bySource[a] == m.bySource[a] {
      assert Row(l.bySource, a) == Row(m.bySource, a);
    }
    assert l.bySource.Keys == m.bySource.Keys;
  }

  /** Identifiers of the assertions under one key, and about one subject. */
  ghost function IdsForKey(assertions: map<string, Assertion>, key: StateKey): set<string> {
    set id | id in assertions && assertions[id].Key() == key
  }

  ghost function IdsForSubject(assertions: map<string, Assertion>, s: string): set<string> {
    set id | id in assertions && assertions[id].subjectId == s
  }

  ghost function SubjectsCiting(assertions: map<string, Assertion>, e: string): set<string> {
    set id | id in assertions && e in assertions[id].evidenceIds :: assertions[id].subjectId
  }

  ghost function Subjects(assertions: map<string, Assertion>): set<string> {
    set id | id in assertions :: assertions[id].subjectId
  }

  function SeqRank(assertions: map<string, Assertion>): (m: map<string, real>)
    ensures m.Keys == assertions.Keys
  {
    map id | id in assertions :: assertions[id].recordedSeq as real
  }

  /** The chosen assertions ordered by recorded sequence, then id. */
  ghost function Listed(assertions: map<string, Assertion>, ids: set<string>): (r: seq<Assertion>)
    requires ids <= assertions.Keys
    ensures |r| == |Ranked(ids, SeqRank(assertions))|
    ensures forall i :: 0 <= i < |r| ==> r[i] == assertions[Ranked(ids, SeqRank(assertions))[i]]
  {
    var order := Ranked(ids, SeqRank(assertions));
    assert forall i :: 0 <= i < |order| ==> order[i] in order;
    seq(|order|, i requires 0 <= i < |order| => assertions[order[i]])
  }

  /**
   Exactly one sequence lists the chosen assertions by recorded sequence, equal sequences by
   id, and queries return it.
   */
  lemma ListedExactly(assertions: map<string, Assertion>, ids: set<string>, r: seq<Assertion>)
    requires AssertionsKeyed(assertions) && ids <= assertions.Keys
    ensures r == Listed(assertions, ids) <==>
      && (forall i :: 0 <= i < |r| ==> r[i].id in ids && r[i].id in assertions && assertions[r[i].id] == r[i])
      && (forall id :: id in ids ==> exists i :: 0 <= i < |r| && r[i].id == id)
      && (forall i, j :: 0 <= i < j < |r| ==>
            || r[i].recordedSeq < r[j].recordedSeq
            || (r[i].recordedSeq == r[j].recordedSeq && StrLess(r[i].id, r[j].id)))
  {
    hide Ranked, StrLess, Listed;
    if r == Listed(assertions, ids) {
      ListedInOrder(assertions, ids, r);
    }
    if && (forall i :: 0 <= i < |r| ==> r[i].id in ids && r[i].id in assertions && assertions[r[i].id] == r[i])
       && (forall id :: id in ids ==> exists i :: 0 <= i < |r| && r[i].id == id)
       && (forall i, j :: 0 <= i < j < |r| ==>
             || r[i].recordedSeq < r[j].recordedSeq
             || (r[i].recordedSeq == r[j].recordedSeq && StrLess(r[i].id, r[j].id))) {
      InOrderListed(assertions, ids, r);
    }
  }

  lemma InOrderListed(assertions: map<string, Assertion>, ids: set<string>, r: seq<Assertion>)
    requires AssertionsKeyed(assertions) && ids <= assertions.Keys
    requires forall i :: 0 <= i < |r| ==> r[i].id in ids && r[i].id in assertions && assertions[r[i].id] == r[i]
    requires forall id :: id in ids ==> exists i :: 0 <= i < |r| && r[i].id == id
    requires forall i, j :: 0 <= i < j < |r| ==>
               || r[i].recordedSeq < r[j].recordedSeq
               || (r[i].recordedSeq == r[j].recordedSeq && StrLess(r[i].id, r[j].id))
    ensures r == Listed(assertions, ids)
  {
    hide Ranked, StrLess, Before;
    var rank := SeqRank(assertions);
    var names := seq(|r|, i requires 0 <= i < |r| => r[i].id);
    forall x ensures x in names <==> x in ids {
      if x in ids {
        var i :| 0 <= i < |r| && r[i].id == x;
        assert names[i] == x;
      }
    }
    forall i, j | 0 <= i < j < |names| ensures Before(rank, names[i], names[j]) {
      RankedBySeq(assertions, r[i], r[j]);
    }
    RankedUnique(names, ids, rank);
  }

  lemma RankedBySeq(assertions: map<string, Assertion>, a: Assertion, b: Assertion)
    requires a.id in assertions && b.id in assertions && assertions[a.id] == a && assertions[b.id] == b
    ensures Before(SeqRank(assertions), a.id, b.id) <==>
            || a.recordedSeq < b.recordedSeq
            || (a.recordedSeq == b.recordedSeq && StrLess(a.id, b.id))
  {
  }

  lemma ListedInOrder(assertions: map<string, Assertion>, ids: set<string>, r: seq<Assertion>)
    requires AssertionsKeyed(assertions) && ids <= assertions.Keys && r == Listed(assertions, ids)
    ensures forall i :: 0 <= i < |r| ==> r[i].id in ids && r[i].id in assertions && assertions[r[i].id] == r[i]
    ensures forall id :: id in ids ==> exists i :: 0 <= i < |r| && r[i].id == id
    ensures forall i, j :: 0 <= i < j < |r| ==>
              || r[i].recordedSeq < r[j].recordedSeq
              || (r[i].recordedSeq == r[j].recordedSeq && StrLess(r[i].id, r[j].id))
  {
    hide Ranked, StrLess, Listed;
    var rank := SeqRank(assertions);
    var order := Ranked(ids, rank);
    forall id | id in ids ensures exists i :: 0 <= i < |r| && r[i].id == id {
      assert id in order;
      var i :| 0 <= i < |order| && order[i] == id;
      assert r[i] == assertions[id];
    }
    forall i | 0 <= i < |r| ensures r[i].id in ids && r[i].id in assertions && assertions[r[i].id] == r[i] {
      assert order[i] in order;
    }
    forall i, j | 0 <= i < j < |r|
      ensures || r[i].recordedSeq < r[j].recordedSeq
              || (r[i].recordedSeq == r[j].recordedSeq && StrLess(r[i].id, r[j].id))
    {
      assert order[i] in order && order[j] in order;
      assert Before(rank, order[i], order[j]);
      RankedBySeq(assertions, r[i], r[j]);
    }
  }

  /** Which assertions and subjects the locality queries range over. */
  lemma ScopesExactly(assertions: map<string, Assertion>, key: StateKey, s: string, e: string, x: string)
    ensures x in IdsForKey(assertions, key) <==>
            && x in assertions && assertions[x].subjectId == key.subjectId
            && assertions[x].predicateId == key.predicateId && key.scope == "default"
    ensures x in IdsForSubject(assertions, s) <==> x in assertions && assertions[x].subjectId == s
    ensures x in Subjects(assertions) <==> exists id :: id in assertions && assertions[id].subjectId == x
    ensures x in SubjectsCiting(assertions, e) <==>
            exists id :: id in assertions && assertions[id].subjectId == x && e in assertions[id].evidenceIds
  {
  }

  /** The four tables of a valid store in terms of its records. */
  lemma TablesExactly(loc: Locality, assertions: map<string, Assertion>, relations: seq<AssertionRelation>,
                      key: StateKey, s: string, e: string, id: string)
    requires LocalityOf(loc, assertions, relations)
    ensures key in loc.byKey && id in loc.byKey[key] <==>
            && id in assertions && assertions[id].subjectId == key.subjectId
            && assertions[id].predicateId == key.predicateId && key.scope == "default"
    ensures s in loc.bySubject && id in loc.bySubject[s] <==> id in assertions && assertions[id].subjectId == s
    ensures (if e in loc.counts && s in loc.counts[e] then loc.counts[e][s] else 0) ==
            |set a, i | a in assertions && 0 <= i < |assertions[a].evidenceIds|
                        && assertions[a].evidenceIds[i] == e && assertions[a].subjectId == s :: (a, i)|
    ensures e in loc.counts && s in loc.counts[e] ==> loc.counts[e][s] > 0
    ensures key in loc.byKey ==> loc.byKey[key] != {}
    ensures s in loc.bySubject ==> loc.bySubject[s] != {}
    ensures e in loc.counts ==> loc.counts[e] != map[]
    ensures id in loc.bySource ==> loc.bySource[id] != []
  {
    hide ReferencesOf;
    assert Has(loc.byKey, key, id) <==> key in FeatsAt(KeyFeatures(assertions), id);
    assert Has(loc.bySubject, s, id) <==> s in FeatsAt(SubjectFeatures(assertions), id);
    assert Count(loc.counts, e, s) == |Between(ReferencesOf(assertions), e, s)|;
    CitedPlaces(assertions, e, s);
  }

  /** References and places in evidence tuples are the same thing. */
  lemma CitedPlaces(assertions: map<string, Assertion>, e: string, s: string)
    ensures |Between(ReferencesOf(assertions), e, s)| ==
            |set a, i | a in assertions && 0 <= i < |assertions[a].evidenceIds|
                        && assertions[a].evidenceIds[i] == e && assertions[a].subjectId == s :: (a, i)|
  {
    var refs := Between(ReferencesOf(assertions), e, s);
    var places := set a, i | a in assertions && 0 <= i < |assertions[a].evidenceIds|
                             && assertions[a].evidenceIds[i] == e && assertions[a].subjectId == s :: (a, i);
    SamePlaces(refs, e, s);
    assert places == set r | r in refs :: (r.assertionId, r.position) by {
      forall p ensures p in places <==> p in set r | r in refs :: (r.assertionId, r.position) {
        if p in places {
          assert Reference(p.0, p.1, e, s) in refs;
        }
      }
    }
  }

  lemma {:induction false} SamePlaces(refs: set<Reference>, e: string, s: string)
    requires forall r :: r in refs ==> r.evidenceId == e && r.subjectId == s
    ensures |set r | r in refs :: (r.assertionId, r.position)| == |refs|
    decreases |refs|
  {
    var places := set r | r in refs :: (r.assertionId, r.position);
    if r :| r in refs {
      var rest := refs - {r};
      SamePlaces(rest, e, s);
      var fewer := set r | r in rest :: (r.assertionId, r.position);
      assert places == fewer + {(r.assertionId, r.position)};
    } else {
      assert places == {};
    }
  }

  /** A row of the source table is the relation list filtered by source, in list order. */
  lemma {:induction false} FromExactly(relations: seq<AssertionRelation>, a: string) returns (places: seq<nat>)
    ensures |places| == |RelationsFrom(relations, a)|
    ensures forall k :: 0 <= k < |places| ==>
              places[k] < |relations| && RelationsFrom(relations, a)[k] == relations[places[k]]
    ensures forall k, l :: 0 <= k < l < |places| ==> places[k] < places[l]
    ensures forall i :: 0 <= i < |relations| ==> (i in places <==> relations[i].sourceAssertionId == a)
  {
    if relations == [] {
      places := [];
    } else {
      var n := |relations| - 1;
      places := FromExactly(relations[..n], a);
      if relations[n].sourceAssertionId == a {
        places := places + [n];
      }
    }
  }

  /** Relations within keep each relation as often as it is listed. */
  lemma {:induction false} WithinExactly(relations: seq<AssertionRelation>, sources: set<string>, targets: set<string>,
                                         r: AssertionRelation)
    ensures multiset(RelationsWithin(relations, sources, targets))[r] ==
            if r.sourceAssertionId in sources && r.targetAssertionId in targets then multiset(relations)[r] else 0
  {
    if relations != [] {
      var n := |relations| - 1;
      WithinExactly(relations[..n], sources, targets, r);
      assert relations == relations[..n] + [relations[n]];
    }
  }

  lemma {:induction false} WithinOneSource(relations: seq<AssertionRelation>, a: string, targets: set<string>)
    ensures RelationsWithin(RelationsFrom(relations, a), {a}, targets) ==
            RelationsWithin(relations, {a}, targets)
  {
    if relations != [] {
      var n := |relations| - 1;
      WithinOneSource(relations[..n], a, targets);
      var from := RelationsFrom(relations[..n], a);
      if relations[n].sourceAssertionId == a {
        assert (from + [relations[n]])[..|from|] == from;
      } else {
        assert RelationsFrom(relations, a) == from;
      }
    }
  }

  lemma {:induction false} AllFromOneSource(relations: seq<AssertionRelation>, a: string)
    ensures AllFrom(RelationsFrom(relations, a), a)
  {
    if relations != [] {
      AllFromOneSource(relations[..|relations| - 1], a);
    }
  }

  /** One more source contributes exactly its own row of the source table. */
  lemma OneMoreSource(relations: seq<AssertionRelation>, done: set<string>, a: string, targets: set<string>,
                      out: seq<AssertionRelation>)
    requires a !in done
    requires multiset(out) == multiset(RelationsWithin(relations, done, targets))
    ensures AllFrom(RelationsFrom(relations, a), a)
    ensures multiset(out + RelationsWithin(RelationsFrom(relations, a), {a}, targets)) ==
            multiset(RelationsWithin(relations, done + {a}, targets))
  {
    AllFromOneSource(relations, a);
    WithinOneSource(relations, a, targets);
    WithinSplit(relations, done, a, targets);
  }

  lemma {:induction false} WithinSplit(relations: seq<AssertionRelation>, sources: set<string>, a: string,
                                       targets: set<string>)
    requires a !in sources
    ensures multiset(RelationsWithin(relations, sources + {a}, targets)) ==
            multiset(RelationsWithin(relations, sources, targets)) +
            multiset(RelationsWithin(relations, {a}, targets))
  {
    if relations != [] {
      WithinSplit(relations[..|relations| - 1], sources, a, targets);
    }
  }

  lemma {:induction false} WithinNothing(relations: seq<AssertionRelation>, targets: set<string>)
    ensures RelationsWithin(relations, {}, targets) == []
  {
    if relations != [] {
      WithinNothing(relations[..|relations| - 1], targets);
    }
  }

  class MemoryStore {
    var evidence: map<string, EvidenceRecord>
    var assertions: map<string, Assertion>
    var relations: seq<AssertionRelation>
    var state: map<StateKey, StateCell>
    var assertionsByKey: map<StateKey, set<string>>
    var assertionsBySubject: map<string, set<string>>
    var evidenceSubjectRefcounts: RefCounts
    var relationsBySource: map<string, seq<AssertionRelation>>

    ghost function Tables(): Locality
      reads this
    {
      Locality(assertionsByKey, assertionsBySubject, evidenceSubjectRefcounts, relationsBySource)
    }

    ghost predicate Valid()
      reads this
    {
      && EvidenceKeyed(evidence)
      && AssertionsKeyed(assertions)
      && LocalityOf(Tables(), assertions, relations)
    }

    /** A store built over already populated fields rehydrates its tables. */
    constructor (evidence: map<string, EvidenceRecord>, assertions: map<string, Assertion>,
                 relations: seq<AssertionRelation>, state: map<StateKey, StateCell>)
      requires EvidenceKeyed(evidence) && AssertionsKeyed(assertions)
      ensures Valid()
      ensures this.evidence == evidence && this.assertions == assertions
      ensures this.relations == relations && this.state == state
    {
      this.evidence, this.assertions := evidence, assertions;
      this.relations, this.state := relations, state;
      new;
      RebuildLocalityIndexes();
    }

    /** Recomputes the four tables from the public fields, in any iteration order. */
    method RebuildLocalityIndexes()
      requires AssertionsKeyed(assertions)
      modifies `assertionsByKey, `assertionsBySubject, `evidenceSubjectRefcounts, `relationsBySource
      ensures LocalityOf(Tables(), assertions, relations)
      ensures old(Valid()) ==> Tables() == old(Tables())
    {
      assertionsByKey, assertionsBySubject := map[], map[];
      evidenceSubjectRefcounts, relationsBySource := map[], map[];
      RebuildAssertionTables();
      RebuildSources();
      if old(Valid()) {
        LocalityUnique(Tables(), old(Tables()), assertions, relations);
      }
    }

    method RebuildAssertionTables()
      requires AssertionsKeyed(assertions)
      requires assertionsByKey == map[] && assertionsBySubject == map[] && evidenceSubjectRefcounts == map[]
      modifies `assertionsByKey, `assertionsBySubject, `evidenceSubjectRefcounts
      ensures AssertionTables(assertionsByKey, assertionsBySubject, evidenceSubjectRefcounts, assertions)
    {
      ghost var done: map<string, Assertion> := map[];
      var todo := assertions.Keys;
      assert ReferencesOf(done) == {};
      while todo != {}
        invariant todo <= assertions.Keys
        invariant done.Keys == assertions.Keys - todo
        invariant forall id :: id in done ==> done[id] == assertions[id]
        invariant AssertionTables(assertionsByKey, assertionsBySubject, evidenceSubjectRefcounts, done)
        decreases |todo|
      {
        var id :| id in todo;
        AddAssertionIndexes(assertions[id], done);
        done := done[id := assertions[id]];
        todo := todo - {id};
      }
      assert done == assertions;
    }

    method RebuildSources()
      requires relationsBySource == map[]
      modifies `relationsBySource
      ensures SourceTable(relationsBySource, relations)
    {
      var i := 0;
      while i < |relations|
        invariant i <= |relations|
        invariant SourceTable(relationsBySource, relations[..i])
      {
        assert relations[..i + 1][..i] == relations[..i];
        AppendToSource(relations[i], relations[..i]);
        assert relations[..i] + [relations[i]] == relations[..i + 1];
        i := i + 1;
      }
      assert relations[..i] == relations;
    }

    method AppendToSource(rel: AssertionRelation, ghost seen: seq<AssertionRelation>)
      requires SourceTable(relationsBySource, seen)
      modifies `relationsBySource
      ensures SourceTable(relationsBySource, seen + [rel])
    {
      ghost var was := relationsBySource;
      var a := rel.sourceAssertionId;
      relationsBySource := relationsBySource[a := Row(relationsBySource, a) + [rel]];
      assert (seen + [rel])[..|seen|] == seen;
      forall b ensures Row(relationsBySource, b) == RelationsFrom(seen + [rel], b) {
        assert Row(was, b) == RelationsFrom(seen, b);
      }
    }

    method AddEvidence(item: EvidenceRecord)
      requires Valid()
      modifies `evidence
      ensures Valid() && evidence == old(evidence)[item.id := item]
    {
      evidence := evidence[item.id := item];
    }

    method RemoveEvidence(evidenceId: string) returns (removed: Option<EvidenceRecord>)
      requires Valid()
      modifies `evidence
      ensures Valid() && evidence == old(evidence) - {evidenceId}
      ensures removed == if evidenceId in old(evidence) then Some(old(evidence)[evidenceId]) else None
    {
      removed := if evidenceId in evidence then Some(evidence[evidenceId]) else None;
      evidence := evidence - {evidenceId};
    }

    method RemoveAssertionIndexes(item: Assertion, ghost others: map<string, Assertion>)
      requires item.id !in others
      requires AssertionTables(assertionsByKey, assertionsBySubject, evidenceSubjectRefcounts,
                               others[item.id := item])
      modifies `assertionsByKey, `assertionsBySubject, `evidenceSubjectRefcounts
      ensures AssertionTables(assertionsByKey, assertionsBySubject, evidenceSubjectRefcounts, others)
    {
      ghost var byKey0, bySubject0 := assertionsByKey, assertionsBySubject;
      FeaturesAdd(others, item);
      var n;
      assertionsByKey, n := RemovePosting(assertionsByKey, item.Key(), item.id);
      assertionsBySubject, n := RemovePosting(assertionsBySubject, item.subjectId, item.id);
      TablesAdd(assertionsByKey, byKey0, assertionsBySubject, bySubject0, others, item);
      evidenceSubjectRefcounts := DecrementAll(evidenceSubjectRefcounts, item, others);
    }

    method AddAssertionIndexes(item: Assertion, ghost others: map<string, Assertion>)
      requires item.id !in others
      requires AssertionTables(assertionsByKey, assertionsBySubject, evidenceSubjectRefcounts, others)
      modifies `assertionsByKey, `assertionsBySubject, `evidenceSubjectRefcounts
      ensures AssertionTables(assertionsByKey, assertionsBySubject, evidenceSubjectRefcounts,
                              others[item.id := item])
    {
      ghost var byKey0, bySubject0 := assertionsByKey, assertionsBySubject;
      FeaturesAdd(others, item);
      var n;
      assertionsByKey, n := AddPosting(assertionsByKey, item.Key(), item.id);
      assertionsBySubject, n := AddPosting(assertionsBySubject, item.subjectId, item.id);
      TablesAdd(byKey0, assertionsByKey, bySubject0, assertionsBySubject, others, item);
      evidenceSubjectRefcounts := IncrementAll(evidenceSubjectRefcounts, item, others);
    }

    /** Assertion ids are stable addresses: a reused id replaces the earlier version everywhere. */
    method AddAssertion(item: Assertion)
      requires Valid()
      modifies `assertions, `assertionsByKey, `assertionsBySubject, `evidenceSubjectRefcounts
      ensures Valid() && assertions == old(assertions)[item.id := item]
    {
      ghost var others := assertions - {item.id};
      if item.id in assertions {
        assert others[item.id := assertions[item.id]] == assertions;
        RemoveAssertionIndexes(assertions[item.id], others);
      } else {
        assert others == assertions;
      }
      assertions := assertions[item.id := item];
      assert others[item.id := item] == assertions;
      AddAssertionIndexes(item, others);
    }

    method RemoveAssertion(assertionId: string) returns (removed: Option<Assertion>)
      requires Valid()
      modifies `assertions, `assertionsByKey, `assertionsBySubject, `evidenceSubjectRefcounts
      ensures Valid() && assertions == old(assertions) - {assertionId}
      ensures removed == if assertionId in old(assertions) then Some(old(assertions)[assertionId]) else None
    {
      if assertionId !in assertions {
        assert assertions - {assertionId} == assertions;
        return None;
      }
      var item := assertions[assertionId];
      ghost var was := assertions;
      assertions := assertions - {assertionId};
      assert assertions[item.id := item] == was;
      RemoveAssertionIndexes(item, assertions);
      removed := Some(item);
    }

    method AddRelation(rel: AssertionRelation)
      requires Valid()
      modifies `relations, `relationsBySource
      ensures Valid() && relations == old(relations) + [rel]
    {
      AppendToSource(rel, relations);
      relations := relations + [rel];
    }

    method AssertionsForKey(key: StateKey) returns (r: seq<Assertion>)
      requires Valid()
      ensures r == Listed(assertions, IdsForKey(assertions, key))
    {
      var ids := Posting(assertionsByKey, key);
      forall id ensures id in ids <==> id in IdsForKey(assertions, key) {
        assert Has(assertionsByKey, key, id) <==> key in FeatsAt(KeyFeatures(assertions), id);
      }
      assert ids == IdsForKey(assertions, key);
      r := SortedAssertions(ids);
    }

    method AssertionsForSubject(s: string) returns (r: seq<Assertion>)
      requires Valid()
      ensures r == Listed(assertions, IdsForSubject(assertions, s))
    {
      var ids := Posting(assertionsBySubject, s);
      forall id ensures id in ids <==> id in IdsForSubject(assertions, s) {
        assert Has(assertionsBySubject, s, id) <==> s in FeatsAt(SubjectFeatures(assertions), id);
      }
      assert ids == IdsForSubject(assertions, s);
      r := SortedAssertions(ids);
    }

    /** The chosen assertions, by recorded sequence and then id. */
    method SortedAssertions(ids: set<string>) returns (r: seq<Assertion>)
      requires ids <= assertions.Keys
      ensures r == Listed(assertions, ids)
    {
      var order := SortIds(ids, SeqRank(assertions));
      var table := assertions;
      assert forall i :: 0 <= i < |order| ==> order[i] in order;
      r := seq(|order|, i requires 0 <= i < |order| && order[i] in table => table[order[i]]);
    }

    method SubjectIds() returns (r: seq<string>)
      requires Valid()
      ensures r == Ranked(Subjects(assertions), map[])
    {
      forall s ensures s in assertionsBySubject <==> s in Subjects(assertions) {
        if s in assertionsBySubject {
          var id :| id in assertionsBySubject[s];
          assert Has(assertionsBySubject, s, id);
        }
        if id :| id in assertions && assertions[id].subjectId == s {
          assert s in FeatsAt(SubjectFeatures(assertions), id);
          assert Has(assertionsBySubject, s, id);
        }
      }
      assert assertionsBySubject.Keys == Subjects(assertions);
      r := SortIds(assertionsBySubject.Keys, map[]);
    }

    /** Direct dependency lookup through the reference counts. */
    method SubjectsForEvidence(e: string) returns (r: seq<string>)
      requires Valid()
      ensures r == Ranked(SubjectsCiting(assertions, e), map[])
    {
      var row: map<string, int> := if e in evidenceSubjectRefcounts then evidenceSubjectRefcounts[e] else map[];
      forall s ensures s in row <==> s in SubjectsCiting(assertions, e) {
        CountedIffCited(evidenceSubjectRefcounts, assertions, e, s);
      }
      assert row.Keys == SubjectsCiting(assertions, e);
      r := SortIds(row.Keys, map[]);
    }

    method GetRelationsFrom(a: string) returns (r: seq<AssertionRelation>)
      requires Valid()
      ensures r == RelationsFrom(relations, a)
    {
      r := Row(relationsBySource, a);
    }

    /** Relations with both endpoints in `ids`; the order follows the iteration over `ids`. */
    method RelationsForAssertions(ids: set<string>) returns (out: seq<AssertionRelation>)
      requires Valid()
      ensures multiset(out) == multiset(RelationsWithin(relations, ids, ids))
    {
      out := [];
      var todo := ids;
      WithinNothing(relations, ids);
      assert ids - todo == {};
      while todo != {}
        invariant todo <= ids
        invariant multiset(out) == multiset(RelationsWithin(relations, ids - todo, ids))
        decreases |todo|
      {
        var a :| a in todo;
        var rels := Row(relationsBySource, a);
        OneMoreSource(relations, ids - todo, a, ids, out);
        var kept := KeepTargets(rels, a, ids);
        assert ids - todo + {a} == ids - (todo - {a});
        out := out + kept;
        todo := todo - {a};
      }
      assert ids - {} == ids;
    }
  }

  ghost predicate AllFrom(rels: seq<AssertionRelation>, a: string) {
    forall i :: 0 <= i < |rels| ==> rels[i].sourceAssertionId == a
  }

  /** The inner loop: append the relations whose target is in `targets`. */
  method KeepTargets(rels: seq<AssertionRelation>, a: string, targets: set<string>)
    returns (kept: seq<AssertionRelation>)
    requires AllFrom(rels, a)
    ensures kept == RelationsWithin(rels, {a}, targets)
  {
    kept := [];
    var i := 0;
    while i < |rels|
      invariant i <= |rels|
      invariant kept == RelationsWithin(rels[..i], {a}, targets)
    {
      assert rels[..i + 1][..i] == rels[..i];
      if rels[i].targetAssertionId in targets {
        kept := kept + [rels[i]];
      }
      i := i + 1;
    }
    assert rels[..i] == rels;
  }

  lemma FeaturesAdd(others: map<string, Assertion>, item: Assertion)
    requires item.id !in others
    ensures var both := others[item.id := item];
            && (forall id :: FeatsAt(KeyFeatures(both), id) ==
                             if id == item.id then {item.Key()} else FeatsAt(KeyFeatures(others), id))
            && (forall id :: FeatsAt(SubjectFeatures(both), id) ==
                             if id == item.id then {item.subjectId} else FeatsAt(SubjectFeatures(others), id))
    ensures FeatsAt(KeyFeatures(others), item.id) == {}
    ensures FeatsAt(SubjectFeatures(others), item.id) == {}
  {
    var both := others[item.id := item];
    forall id ensures FeatsAt(SubjectFeatures(both), id) ==
                      if id == item.id then {item.subjectId} else FeatsAt(SubjectFeatures(others), id) {
      assert id in both <==> id == item.id || id in others;
    }
  }

  /** Both identifier tables follow when one assertion comes or goes. */
  lemma TablesAdd(k: map<StateKey, set<string>>, k': map<StateKey, set<string>>,
                  s: map<string, set<string>>, s': map<string, set<string>>,
                  others: map<string, Assertion>, item: Assertion)
    requires item.id !in others
    requires NoEmpty(k) && NoEmpty(k') && NoEmpty(s) && NoEmpty(s')
    requires !Has(k, item.Key(), item.id) && !Has(s, item.subjectId, item.id)
    requires forall g, t :: Has(k', g, t) <==> Has(k, g, t) || (g == item.Key() && t == item.id)
    requires forall g, t :: Has(s', g, t) <==> Has(s, g, t) || (g == item.subjectId && t == item.id)
    ensures Inverts(k, KeyFeatures(others)) <==> Inverts(k', KeyFeatures(others[item.id := item]))
    ensures Inverts(s, SubjectFeatures(others)) <==> Inverts(s', SubjectFeatures(others[item.id := item]))
  {
    FeaturesAdd(others, item);
    InvertsOneMore(k, k', item.Key(), item.id, KeyFeatures(others), KeyFeatures(others[item.id := item]));
    InvertsOneMore(s, s', item.subjectId, item.id, SubjectFeatures(others), SubjectFeatures(others[item.id := item]));
  }
}
