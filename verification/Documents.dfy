/**
 The retrieval documents: one per present evidence record, carrying the links of every
 assertion that cites it, and the three inverted indexes over them.
 */
module Documents {
  import opened Prelude
  import opened Models
  import opened Ranking
  import opened Postings
  import opened Lexicon

  type Interval = (Option<int>, Option<int>)

  /** What the assertions citing one evidence id say about it. */
  datatype Links = Links(subjects: set<string>, predicates: set<string>, validFroms: set<int>,
                         validIntervals: set<Interval>)

  const UNLINKED := Links({}, {}, {}, {})

  datatype RetrievalDoc = RetrievalDoc(
    evidenceId: string, text: string, links: Links, recordedSeq: int, sourceEventTime: Option<int>)

  ghost function Citing(assertions: map<string, Assertion>, e: string): set<string> {
    set id | id in assertions && e in assertions[id].evidenceIds
  }

  ghost function LinksOf(assertions: map<string, Assertion>, e: string): Links {
    var ids := Citing(assertions, e);
    Links(set id | id in ids :: assertions[id].subjectId,
          set id | id in ids :: assertions[id].predicateId,
          set id | id in ids && assertions[id].validFrom.Some? :: assertions[id].validFrom.value,
          set id | id in ids :: (assertions[id].validFrom, assertions[id].validTo))
  }

  ghost function DocOf(evidence: map<string, EvidenceRecord>, assertions: map<string, Assertion>,
                       e: string): RetrievalDoc
    requires e in evidence
  {
    RetrievalDoc(e, evidence[e].payload, LinksOf(assertions, e), evidence[e].recordedSeq, evidence[e].sourceEventTime)
  }

  function EvidenceRank(evidence: map<string, EvidenceRecord>): (m: map<string, real>)
    ensures m.Keys == evidence.Keys
  {
    map id | id in evidence :: evidence[id].recordedSeq as real
  }

  function LinksAt(m: map<string, Links>, e: string): Links {
    if e in m then m[e] else UNLINKED
  }

  function Linked(l: Links, a: Assertion): Links {
    Links(l.subjects + {a.subjectId}, l.predicates + {a.predicateId},
          if a.validFrom.Some? then l.validFroms + {a.validFrom.value} else l.validFroms,
          l.validIntervals + {(a.validFrom, a.validTo)})
  }

  /** Collects the links of every evidence id, visiting the assertions in any order. */
  method CollectLinks(assertions: map<string, Assertion>) returns (links: map<string, Links>)
    ensures forall e :: LinksAt(links, e) == LinksOf(assertions, e)
  {
    hide LinksOf;
    links := map[];
    var todo := assertions.Keys;
    ghost var done: map<string, Assertion> := map[];
    NoLinks();
    while todo != {}
      invariant todo <= assertions.Keys
      invariant done.Keys == assertions.Keys - todo
      invariant forall id :: id in done ==> done[id] == assertions[id]
      invariant forall e :: LinksAt(links, e) == LinksOf(done, e)
      decreases |todo|
    {
      var id :| id in todo;
      ghost var before := links;
      links := LinkAssertion(assertions[id], links);
      forall e ensures LinksAt(links, e) == LinksOf(done[id := assertions[id]], e) {
        assert LinksAt(before, e) == LinksOf(done, e);
        LinksAdd(done, id, assertions[id], e);
      }
      done := done[id := assertions[id]];
      todo := todo - {id};
    }
    assert done == assertions;
  }

  lemma NoLinks()
    ensures forall e :: LinksOf(map[], e) == UNLINKED
  {
    forall e ensures LinksOf(map[], e) == UNLINKED {
      assert Citing(map[], e) == {};
    }
  }

  lemma LinksAdd(done: map<string, Assertion>, id: string, a: Assertion, e: string)
    requires id !in done
    ensures LinksOf(done[id := a], e) == if e in a.evidenceIds then Linked(LinksOf(done, e), a) else LinksOf(done, e)
  {
    var both := done[id := a];
    var before, after := Citing(done, e), Citing(both, e);
    assert forall i :: i in before ==> both[i] == done[i];
    if e in a.evidenceIds {
      assert after == before + {id};
      assert LinksOf(both, e).validFroms == Linked(LinksOf(done, e), a).validFroms;
    } else {
      assert after == before;
    }
  }

  /** The inner loop: repeated ids in one tuple add nothing new. */
  method LinkAssertion(a: Assertion, before: map<string, Links>) returns (links: map<string, Links>)
    ensures forall e :: LinksAt(links, e) ==
              if e in a.evidenceIds then Linked(LinksAt(before, e), a) else LinksAt(before, e)
  {
    links := before;
    var i := 0;
    while i < |a.evidenceIds|
      invariant i <= |a.evidenceIds|
      invariant forall e :: LinksAt(links, e) ==
                  if e in a.evidenceIds[..i] then Linked(LinksAt(before, e), a) else LinksAt(before, e)
    {
      var e := a.evidenceIds[i];
      LinkedTwice(LinksAt(before, e), a);
      links := links[e := Linked(LinksAt(links, e), a)];
      assert a.evidenceIds[..i + 1] == a.evidenceIds[..i] + [e];
      i := i + 1;
    }
    assert a.evidenceIds[..i] == a.evidenceIds;
  }

  lemma LinkedTwice(l: Links, a: Assertion)
    ensures Linked(Linked(l, a), a) == Linked(l, a)
  {
  }

  /** All documents of a store, in order of recorded sequence and id. */
  ghost predicate DocsOf(docs: seq<RetrievalDoc>, evidence: map<string, EvidenceRecord>,
                         assertions: map<string, Assertion>) {
    var order := Ranked(evidence.Keys, EvidenceRank(evidence));
    |docs| == |order| &&
    forall i :: 0 <= i < |docs| ==> order[i] in evidence && docs[i] == DocOf(evidence, assertions, order[i])
  }

  method BuildDocs(evidence: map<string, EvidenceRecord>, assertions: map<string, Assertion>)
    returns (docs: seq<RetrievalDoc>)
    requires EvidenceKeyed(evidence)
    ensures DocsOf(docs, evidence, assertions)
  {
    hide LinksOf, Ranked, Before, DocOf, EvidenceRank, LinksAt;
    var links := CollectLinks(assertions);
    var order := SortIds(evidence.Keys, EvidenceRank(evidence));
    docs := [];
    var i := 0;
    while i < |order|
      invariant i <= |order| && |docs| == i
      invariant forall k :: 0 <= k < i ==> order[k] in evidence && docs[k] == DocOf(evidence, assertions, order[k])
    {
      assert order[i] in order;
      var item := evidence[order[i]];
      DocMade(evidence, assertions, links, order[i]);
      docs := docs + [RetrievalDoc(item.id, item.payload, LinksAt(links, item.id), item.recordedSeq,
                                   item.sourceEventTime)];
      i := i + 1;
    }
  }

  /** The documents, one for each record with its content and links, by recorded sequence and then id. */
  lemma DocsExactly(docs: seq<RetrievalDoc>, evidence: map<string, EvidenceRecord>, assertions: map<string, Assertion>,
                    i: nat, j: nat)
    requires DocsOf(docs, evidence, assertions) && i < |docs| && j < |docs|
    ensures |docs| == |evidence|
    ensures var d, e := docs[i], docs[j];
            && d.evidenceId in evidence && e.evidenceId in evidence
            && d.text == evidence[d.evidenceId].payload && d.recordedSeq == evidence[d.evidenceId].recordedSeq
            && d.sourceEventTime == evidence[d.evidenceId].sourceEventTime
            && (i < j ==>
                  || evidence[d.evidenceId].recordedSeq < evidence[e.evidenceId].recordedSeq
                  || (evidence[d.evidenceId].recordedSeq == evidence[e.evidenceId].recordedSeq
                      && StrLess(d.evidenceId, e.evidenceId)))
  {
    hide Ranked, StrLess, LinksOf;
    var order := Ranked(evidence.Keys, EvidenceRank(evidence));
    assert i < j ==> Before(EvidenceRank(evidence), order[i], order[j]);
    assert |evidence.Keys| == |evidence|;
  }

  /** What a document knows about its evidence: the fields of exactly the assertions that cite it. */
  lemma LinksExactly(assertions: map<string, Assertion>, e: string, x: string, t: int, interval: Interval)
    ensures x in LinksOf(assertions, e).subjects <==>
            exists id :: id in assertions && e in assertions[id].evidenceIds && assertions[id].subjectId == x
    ensures x in LinksOf(assertions, e).predicates <==>
            exists id :: id in assertions && e in assertions[id].evidenceIds && assertions[id].predicateId == x
    ensures t in LinksOf(assertions, e).validFroms <==>
            exists id :: id in assertions && e in assertions[id].evidenceIds && assertions[id].validFrom == Some(t)
    ensures interval in LinksOf(assertions, e).validIntervals <==>
            exists id :: id in assertions && e in assertions[id].evidenceIds
                         && (assertions[id].validFrom, assertions[id].validTo) == interval
  {
    forall id | id in assertions && e in assertions[id].evidenceIds ensures id in Citing(assertions, e) {
    }
    if id :| id in assertions && e in assertions[id].evidenceIds && assertions[id].validFrom == Some(t) {
      assert id in Citing(assertions, e) && assertions[id].validFrom.value == t;
    }
  }

  lemma DocMade(evidence: map<string, EvidenceRecord>, assertions: map<string, Assertion>, links: map<string, Links>,
                e: string)
    requires EvidenceKeyed(evidence) && e in evidence && LinksAt(links, e) == LinksOf(assertions, e)
    ensures var item := evidence[e];
            DocOf(evidence, assertions, e) ==
            RetrievalDoc(item.id, item.payload, LinksAt(links, item.id), item.recordedSeq, item.sourceEventTime)
  {
    hide LinksOf, LinksAt;
  }

  /** The features a document is indexed under. */
  datatype Facet = Identity | Predicated | Worded

  function FacetOf(facet: Facet, d: RetrievalDoc): set<string> {
    match facet
    case Identity => d.links.subjects
    case Predicated => d.links.predicates
    case Worded => set t | t in Tokens(d.text)
  }

  ghost function DocFeatures(facet: Facet, evidence: map<string, EvidenceRecord>, assertions: map<string, Assertion>)
    : map<string, set<string>>
  {
    map e | e in evidence :: FacetOf(facet, DocOf(evidence, assertions, e))
  }

  /** Builds the inverted index of one facet, document by document. */
  method InvertDocs(facet: Facet, docs: seq<RetrievalDoc>, ghost evidence: map<string, EvidenceRecord>,
                    ghost assertions: map<string, Assertion>)
    returns (index: map<string, set<string>>)
    requires DocsOf(docs, evidence, assertions)
    ensures Inverts(index, DocFeatures(facet, evidence, assertions))
  {
    hide FacetOf, LinksOf, Ranked;
    index := map[];
    var i := 0;
    while i < |docs|
      invariant i <= |docs|
      invariant NoEmpty(index)
      invariant forall f, e :: Has(index, f, e) <==>
                               exists k :: 0 <= k < i && docs[k].evidenceId == e && f in FacetOf(facet, docs[k])
    {
      index := IndexDoc(index, FacetOf(facet, docs[i]), docs[i].evidenceId);
      i := i + 1;
    }
    forall f, e ensures Has(index, f, e) <==> f in FeatsAt(DocFeatures(facet, evidence, assertions), e) {
      DocAt(facet, docs, evidence, assertions, f, e);
    }
  }

  lemma DocAt(facet: Facet, docs: seq<RetrievalDoc>, evidence: map<string, EvidenceRecord>,
              assertions: map<string, Assertion>, f: string, e: string)
    requires DocsOf(docs, evidence, assertions)
    ensures f in FeatsAt(DocFeatures(facet, evidence, assertions), e) <==>
            exists k :: 0 <= k < |docs| && docs[k].evidenceId == e && f in FacetOf(facet, docs[k])
  {
    hide FacetOf, LinksOf;
    var order := Ranked(evidence.Keys, EvidenceRank(evidence));
    if e in evidence {
      assert e in order;
      var k :| 0 <= k < |order| && order[k] == e;
      assert docs[k].evidenceId == e;
      assert docs[k] == DocOf(evidence, assertions, e);
    }
    if k :| 0 <= k < |docs| && docs[k].evidenceId == e && f in FacetOf(facet, docs[k]) {
      assert order[k] == e;
    }
  }

  method IndexDoc(index: map<string, set<string>>, features: set<string>, e: string)
    returns (index': map<string, set<string>>)
    ensures NoEmpty(index) ==> NoEmpty(index')
    ensures forall f, t :: Has(index', f, t) <==> Has(index, f, t) || (t == e && f in features)
  {
    index' := index;
    var todo := features;
    while todo != {}
      invariant todo <= features
      invariant NoEmpty(index) ==> NoEmpty(index')
      invariant forall f, t :: Has(index', f, t) <==> Has(index, f, t) || (t == e && f in features - todo)
      decreases |todo|
    {
      var f :| f in todo;
      var n;
      index', n := AddPosting(index', f, e);
      todo := todo - {f};
    }
  }
}
