/** When retrieved evidence covers a query. */
module Coverage {
  import opened Models
  import opened Ranking
  import opened Storage

  function KeyOf(q: QueryCase): StateKey {
    StateKey(q.subjectId, q.predicateId, "default")
  }

  /** The assertions under the query's key that cite retrieved evidence. */
  ghost function Supported(assertions: map<string, Assertion>, q: QueryCase, ev: set<string>): set<string> {
    set id | id in assertions && assertions[id].Key() == KeyOf(q) &&
             exists e :: e in assertions[id].evidenceIds && e in ev
  }

  predicate Revises(r: AssertionRelation) {
    r.relation == Corrects || r.relation == Supersedes
  }

  predicate IsContested(state: map<StateKey, StateCell>, key: StateKey) {
    key in state && state[key].status == Contested
  }

  /** The obligations of a query: a revision between supported assertions, two values, or any support. */
  ghost predicate Covered(assertions: map<string, Assertion>, relations: seq<AssertionRelation>,
                          state: map<StateKey, StateCell>, q: QueryCase, ev: set<string>) {
    var ids := Supported(assertions, q, ev);
    && ids != {}
    && if q.questionType == "relation_classification" then
         exists r :: r in relations && r.sourceAssertionId in ids && r.targetAssertionId in ids && Revises(r)
       else if IsContested(state, KeyOf(q)) then
         exists a, b :: a in ids && b in ids && assertions[a].objectValue != assertions[b].objectValue
       else true
  }

  /** An assertion about the query's subject and predicate that cites retrieved evidence. */
  ghost predicate Supports(assertions: map<string, Assertion>, q: QueryCase, ev: set<string>, id: string) {
    && id in assertions && assertions[id].subjectId == q.subjectId && assertions[id].predicateId == q.predicateId
    && exists e :: e in assertions[id].evidenceIds && e in ev
  }

  /**
   Coverage written out: some support; for a relation question a correction or supersession
   between two supporting assertions; for a contested state two different supported values.
   */
  lemma CoveredExactly(assertions: map<string, Assertion>, relations: seq<AssertionRelation>,
                       state: map<StateKey, StateCell>, q: QueryCase, ev: set<string>)
    ensures var key := StateKey(q.subjectId, q.predicateId, "default");
            Covered(assertions, relations, state, q, ev) <==>
            && (exists id :: Supports(assertions, q, ev, id))
            && (q.questionType == "relation_classification" ==>
                  exists r :: r in relations && (r.relation == Corrects || r.relation == Supersedes)
                              && Supports(assertions, q, ev, r.sourceAssertionId)
                              && Supports(assertions, q, ev, r.targetAssertionId))
            && (q.questionType != "relation_classification" && key in state && state[key].status == Contested ==>
                  exists a, b :: Supports(assertions, q, ev, a) && Supports(assertions, q, ev, b)
                                 && assertions[a].objectValue != assertions[b].objectValue)
  {
    var ids := Supported(assertions, q, ev);
    forall id ensures id in ids <==> Supports(assertions, q, ev, id) {
    }
    if ids != {} {
      var id :| id in ids;
      assert Supports(assertions, q, ev, id);
    }
    if q.questionType == "relation_classification" {
      if r :| r in relations && r.sourceAssertionId in ids && r.targetAssertionId in ids && Revises(r) {
        assert Supports(assertions, q, ev, r.sourceAssertionId) && Supports(assertions, q, ev, r.targetAssertionId);
      }
    } else {
      if a, b :| a in ids && b in ids && assertions[a].objectValue != assertions[b].objectValue {
        assert Supports(assertions, q, ev, a) && Supports(assertions, q, ev, b);
      }
    }
  }

  /** More evidence never uncovers a query. */
  lemma CoverageMonotone(assertions: map<string, Assertion>, relations: seq<AssertionRelation>,
                         state: map<StateKey, StateCell>, q: QueryCase, ev: set<string>, ev': set<string>)
    requires ev <= ev' && Covered(assertions, relations, state, q, ev)
    ensures Covered(assertions, relations, state, q, ev')
  {
    var ids, ids' := Supported(assertions, q, ev), Supported(assertions, q, ev');
    assert ids <= ids';
    if q.questionType == "relation_classification" {
      var r :| r in relations && r.sourceAssertionId in ids && r.targetAssertionId in ids && Revises(r);
      assert r.sourceAssertionId in ids' && r.targetAssertionId in ids';
    } else if IsContested(state, KeyOf(q)) {
      var a, b :| a in ids && b in ids && assertions[a].objectValue != assertions[b].objectValue;
      assert a in ids' && b in ids';
    }
  }

  method CoverageSatisfied(store: MemoryStore, q: QueryCase, evidenceIds: seq<string>) returns (covered: bool)
    requires store.Valid()
    ensures covered <==> Covered(store.assertions, store.relations, store.state, q, Elements(evidenceIds))
  {
    hide LocalityOf, Ranked, Before;
    var ev := set e | e in evidenceIds;
    var key := KeyOf(q);
    var listed := store.AssertionsForKey(key);
    var assertions := SupportedOnly(listed, ev);
    SupportedIds(store.assertions, q, ev, listed, assertions);
    ghost var ids := Supported(store.assertions, q, ev);
    if assertions == [] {
      return false;
    }
    if q.questionType == "relation_classification" {
      var aids := set a | a in assertions :: a.id;
      assert aids == ids;
      var rels := store.RelationsForAssertions(aids);
      covered := exists r :: r in rels && Revises(r);
      forall r ensures r in rels <==> r in store.relations && r.sourceAssertionId in ids && r.targetAssertionId in ids {
        InWithin(store.relations, ids, ids, r);
        assert r in multiset(rels) <==> r in multiset(RelationsWithin(store.relations, ids, ids));
      }
      return;
    }
    if IsContested(store.state, key) {
      var values := set a | a in assertions :: a.objectValue;
      TwoValues(store.assertions, ids, assertions, values);
      return |values| >= 2;
    }
    covered := |assertions| >= 1;
  }

  /** The listed assertions that cite some of the given evidence, in list order. */
  function SupportedOnly(listed: seq<Assertion>, ev: set<string>): seq<Assertion> {
    if listed == [] then []
    else if exists e :: e in listed[0].evidenceIds && e in ev then [listed[0]] + SupportedOnly(listed[1..], ev)
    else SupportedOnly(listed[1..], ev)
  }

  lemma {:induction false} InSupportedOnly(listed: seq<Assertion>, ev: set<string>, a: Assertion)
    ensures a in SupportedOnly(listed, ev) <==> a in listed && exists e :: e in a.evidenceIds && e in ev
  {
    if listed != [] {
      InSupportedOnly(listed[1..], ev, a);
      assert listed == [listed[0]] + listed[1..];
    }
  }

  lemma SupportedIds(table: map<string, Assertion>, q: QueryCase, ev: set<string>, listed: seq<Assertion>,
                     kept: seq<Assertion>)
    requires AssertionsKeyed(table)
    requires listed == Listed(table, IdsForKey(table, KeyOf(q)))
    requires kept == SupportedOnly(listed, ev)
    ensures forall id :: id in Supported(table, q, ev) <==> id in table && table[id] in kept
    ensures forall a :: a in kept ==> a.id in table && table[a.id] == a
    ensures kept == [] <==> Supported(table, q, ev) == {}
  {
    hide Ranked, Before;
    var ids := IdsForKey(table, KeyOf(q));
    var order := Ranked(ids, SeqRank(table));
    forall a ensures a in listed <==> a.id in ids && table[a.id] == a {
      if a in listed {
        var i :| 0 <= i < |listed| && listed[i] == a;
        assert order[i] in order;
      }
      if a.id in ids && table[a.id] == a {
        assert a.id in order;
        var i :| 0 <= i < |order| && order[i] == a.id;
        assert listed[i] == a;
      }
    }
    forall a ensures a in kept <==> a in listed && exists e :: e in a.evidenceIds && e in ev {
      InSupportedOnly(listed, ev, a);
    }
    forall id ensures id in Supported(table, q, ev) <==> id in table && table[id] in kept {
      if id in table {
        assert table[id].id == id;
      }
    }
    if kept != [] {
      assert kept[0] in kept;
      assert kept[0].id in Supported(table, q, ev);
    }
  }

  lemma {:induction false} InWithin(relations: seq<AssertionRelation>, sources: set<string>, targets: set<string>,
                                    r: AssertionRelation)
    ensures r in RelationsWithin(relations, sources, targets) <==>
            r in relations && r.sourceAssertionId in sources && r.targetAssertionId in targets
  {
    if relations != [] {
      var n := |relations| - 1;
      InWithin(relations[..n], sources, targets, r);
      assert relations == relations[..n] + [relations[n]];
    }
  }

  lemma TwoValues(table: map<string, Assertion>, ids: set<string>, kept: seq<Assertion>, values: set<string>)
    requires AssertionsKeyed(table)
    requires forall id :: id in ids <==> id in table && table[id] in kept
    requires forall a :: a in kept ==> a.id in table && table[a.id] == a
    requires values == set a | a in kept :: a.objectValue
    ensures |values| >= 2 <==>
            exists a, b :: a in ids && b in ids && table[a].objectValue != table[b].objectValue
  {
    if |values| >= 2 {
      var x :| x in values;
      assert |values - {x}| == |values| - 1;
      var y :| y in values - {x};
      var a :| a in kept && a.objectValue == x;
      var b :| b in kept && b.objectValue == y;
      assert a.id in ids && b.id in ids;
    }
    if a, b :| a in ids && b in ids && table[a].objectValue != table[b].objectValue {
      var x, y := table[a].objectValue, table[b].objectValue;
      assert x in values && y in values - {x};
      assert |values - {x}| == |values| - 1;
    }
  }
}
