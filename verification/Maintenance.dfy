/**
 Canonical mutations followed by the refresh of their pre-computed affected subjects.
 */
module Maintenance {
  import opened Prelude
  import opened Models
  import opened Ranking
  import opened Lexicon
  import opened Storage
  import opened Snapshots
  import opened ProfileIndex

  datatype Mutation =
    | UpsertEvidence(evidence: EvidenceRecord)
    | DeleteEvidence(evidenceId: string)
    | UpsertAssertion(assertion: Assertion)
    | DeleteAssertion(assertionId: string)

  function Apply(c: Canon, m: Mutation): Canon {
    match m
    case UpsertEvidence(item) => c.(evidence := c.evidence[item.id := item])
    case DeleteEvidence(id) => c.(evidence := c.evidence - {id})
    case UpsertAssertion(item) => c.(assertions := c.assertions[item.id := item])
    case DeleteAssertion(id) => c.(assertions := c.assertions - {id})
  }

  ghost function PreviousSubject(c: Canon, id: string): set<string> {
    if id in c.assertions then {c.assertions[id].subjectId} else {}
  }

  /** The affected region, read off the canonical fields before the mutation. */
  ghost function Affected(c: Canon, m: Mutation): set<string> {
    match m
    case UpsertEvidence(item) => SubjectsCiting(c.assertions, item.id)
    case DeleteEvidence(id) => SubjectsCiting(c.assertions, id)
    case UpsertAssertion(item) => {item.subjectId} + PreviousSubject(c, item.id)
    case DeleteAssertion(id) => PreviousSubject(c, id)
  }

  ghost function View(c: Canon, s: string): SubjectView {
    Snapshot(c.evidence, c.assertions, s)
  }

  /** The two canonical states hold the same data about `s`. */
  ghost predicate SameData(c: Canon, d: Canon, s: string) {
    && IdsForSubject(c.assertions, s) == IdsForSubject(d.assertions, s)
    && (forall id :: id in IdsForSubject(c.assertions, s) ==> c.assertions[id] == d.assertions[id])
    && (forall e :: e in EvidenceBy(c.assertions, IdsForSubject(c.assertions, s)) ==>
          (e in c.evidence <==> e in d.evidence) && (e in c.evidence ==> c.evidence[e] == d.evidence[e]))
  }

  lemma SameDataSameView(c: Canon, d: Canon, s: string)
    requires SameData(c, d, s)
    ensures View(c, s) == View(d, s)
    ensures SnapshotWork(c.evidence, c.assertions, s) == SnapshotWork(d.evidence, d.assertions, s)
  {
    hide Bag, ReferencesBy;
    var ids := IdsForSubject(c.assertions, s);
    assert PredicatesBy(c.assertions, ids) == PredicatesBy(d.assertions, ids);
    var eids := EvidenceBy(c.assertions, ids);
    assert eids == EvidenceBy(d.assertions, ids);
    SameWords(c, d, eids);
    SameReferences(c.assertions, d.assertions, ids);
  }

  lemma SameWords(c: Canon, d: Canon, eids: set<string>)
    requires forall e :: e in eids ==> (e in c.evidence <==> e in d.evidence)
    requires forall e :: e in eids && e in c.evidence ==> c.evidence[e] == d.evidence[e]
    ensures Bag(c.evidence, eids) == Bag(d.evidence, eids)
    ensures Present(c.evidence, eids) == Present(d.evidence, eids)
  {
    hide Bag, Lexical;
    BagFrame(c.evidence, d.evidence, eids);
    assert Present(c.evidence, eids) == Present(d.evidence, eids);
  }

  lemma SameReferences(c: map<string, Assertion>, d: map<string, Assertion>, ids: set<string>)
    requires ids <= c.Keys && ids <= d.Keys && forall id :: id in ids ==> c[id] == d[id]
    ensures ReferencesBy(c, ids) == ReferencesBy(d, ids)
  {
  }

  /** A refresh sees, and pays for, one subject's data only. */
  lemma SameDataSameRefresh(c: Canon, d: Canon, s: string, before: SubjectView)
    requires SameData(c, d, s)
    ensures View(c, s) == View(d, s)
    ensures RefreshWork(before, c.evidence, c.assertions, s) == RefreshWork(before, d.evidence, d.assertions, s)
  {
    hide Snapshot, SnapshotWork, PatchWork, Work.Plus, SameData;
    SameDataSameView(c, d, s);
  }

  /** Outside the affected region a mutation changes nothing a refresh could see. */
  lemma AffectedCovers(c: Canon, m: Mutation, s: string)
    requires s !in Affected(c, m)
    ensures SameData(c, Apply(c, m), s)
  {
    var d := Apply(c, m);
    var ids := IdsForSubject(c.assertions, s);
    match m
    case UpsertEvidence(item) => NotCited(c, item.id, s);
    case DeleteEvidence(id) => NotCited(c, id, s);
    case UpsertAssertion(item) =>
      assert ids == IdsForSubject(d.assertions, s);
    case DeleteAssertion(id) =>
      assert ids == IdsForSubject(d.assertions, s);
  }

  lemma NotCited(c: Canon, e: string, s: string)
    requires s !in SubjectsCiting(c.assertions, e)
    ensures e !in EvidenceBy(c.assertions, IdsForSubject(c.assertions, s))
  {
  }

  /**
   The evidence region cannot be made smaller: for each subject in it some payload for
   that evidence id changes the subject's view.
   */
  lemma EvidenceRegionNeeded(c: Canon, item: EvidenceRecord, s: string)
    requires s in Affected(c, UpsertEvidence(item))
    ensures exists payload ::
              View(Apply(c, UpsertEvidence(item.(payload := payload))), s) != View(c, s)
  {
    hide Lexical;
    var ids := IdsForSubject(c.assertions, s);
    var eids := EvidenceBy(c.assertions, ids);
    assert item.id in eids by {
      var id :| id in c.assertions && item.id in c.assertions[id].evidenceIds && c.assertions[id].subjectId == s;
      assert id in ids;
    }
    var blank, word := item.(payload := ""), item.(payload := "z");
    var d0, d1 := Apply(c, UpsertEvidence(blank)), Apply(c, UpsertEvidence(word));
    ReplacedBag(c.evidence, eids, blank);
    ReplacedBag(c.evidence, eids, word);
    TwoPayloads();
    assert View(d0, s).profile == Bag(d0.evidence, eids);
    assert View(d1, s).profile == Bag(d1.evidence, eids);
    assert View(d0, s).profile["z"] != View(d1, s).profile["z"];
    assert View(d0, s) != View(c, s) || View(d1, s) != View(c, s);
  }

  /**
   Nor can the assertion region: for each subject in it some assertion of that id and subject
   changes the subject's data.
   */
  lemma AssertionRegionNeeded(c: Canon, item: Assertion, s: string)
    requires AssertionsKeyed(c.assertions) && s in Affected(c, UpsertAssertion(item))
    ensures exists other: Assertion ::
              && other.id == item.id && other.subjectId == item.subjectId
              && !SameData(c, Apply(c, UpsertAssertion(other)), s)
  {
    var same := item.id in c.assertions && c.assertions[item.id] == item;
    var other := if same then item.(predicateId := item.predicateId + "'") else item;
    assert other.predicateId != item.predicateId || !same;
    var d := Apply(c, UpsertAssertion(other));
    if s == item.subjectId {
      assert item.id in IdsForSubject(d.assertions, s);
      if item.id in IdsForSubject(c.assertions, s) {
        assert c.assertions[item.id] != d.assertions[item.id];
      }
    } else {
      assert item.id in IdsForSubject(c.assertions, s) && item.id !in IdsForSubject(d.assertions, s);
    }
    assert !SameData(c, Apply(c, UpsertAssertion(other)), s);
  }

  /** Deleting an assertion always changes the data of its subject. */
  lemma DeletionRegionNeeded(c: Canon, id: string, s: string)
    requires s in Affected(c, DeleteAssertion(id))
    ensures !SameData(c, Apply(c, DeleteAssertion(id)), s)
  {
    assert id in IdsForSubject(c.assertions, s);
    assert id !in IdsForSubject(Apply(c, DeleteAssertion(id)).assertions, s);
  }

  lemma ReplacedBag(evidence: map<string, EvidenceRecord>, eids: set<string>, item: EvidenceRecord)
    requires item.id in eids
    ensures Bag(evidence[item.id := item], eids) ==
            Bag(evidence, eids - {item.id}) + multiset(Lexical(item.payload))
  {
    hide Lexical;
    var evidence' := evidence[item.id := item];
    BagAdd(evidence', eids - {item.id}, item.id);
    assert (eids - {item.id}) + {item.id} == eids;
    BagFrame(evidence, evidence', eids - {item.id});
  }

  lemma TwoPayloads()
    ensures multiset(Lexical(""))["z"] == 0 && multiset(Lexical("z"))["z"] == 1
  {
    var z := "z";
    assert TOKEN_CLASS(z[0]) && RunEnd(z, TOKEN_CLASS, 1) == 1 && z[0..1] == z;
    assert RunsFrom(z, TOKEN_CLASS, 0) == [z] + RunsFrom(z, TOKEN_CLASS, 1);
    assert LowerAll(z) == z;
    assert Tokens(z) == [z];
    assert !IsStop("z");
    assert WithoutStop(["z"]) == ["z"] + WithoutStop([]);
    assert Lexical("z") == ["z"];
    assert Lexical("") == [];
    assert multiset(["z"])["z"] == 1;
  }

  /** One maintained mutation: the canonical fields move, the affected views are recomputed. */
  ghost predicate Step(c: Canon, v: Views, m: Mutation, c': Canon, v': Views) {
    && c' == Apply(c, m)
    && v'.Tidy()
    && forall s :: v'.At(s) == if s in Affected(c, m) then View(c', s) else v.At(s)
  }

  lemma StepKeepsSync(c: Canon, v: Views, m: Mutation, c': Canon, v': Views)
    requires Step(c, v, m, c', v') && InSync(v, c.evidence, c.assertions)
    ensures InSync(v', c'.evidence, c'.assertions)
  {
    forall s ensures v'.At(s) == View(c', s) {
      if s !in Affected(c, m) {
        AffectedCovers(c, m, s);
        SameDataSameRefresh(c, c', s, BLANK);
        assert v.At(s) == View(c, s);
      }
    }
  }

  /** A finite history of maintained mutations over index states. */
  ghost predicate Run(cs: seq<Canon>, sts: seq<IndexState>, ms: seq<Mutation>) {
    && |cs| == |sts| == |ms| + 1
    && (forall i :: 0 <= i < |sts| ==> sts[i].Inverted())
    && forall i :: 0 <= i < |ms| ==> Step(cs[i], sts[i].views, ms[i], cs[i + 1], sts[i + 1].views)
  }

  /**
   Patched forever equals rebuilt from scratch: along every run that starts in sync, each
   intermediate index is, on all nine maps, any index built from the canonical fields of
   that moment.
   */
  lemma {:induction false} RunEqualsRebuild(cs: seq<Canon>, sts: seq<IndexState>, ms: seq<Mutation>, n: nat,
                                            rebuilt: IndexState)
    requires Run(cs, sts, ms) && n <= |ms|
    requires InSync(sts[0].views, cs[0].evidence, cs[0].assertions)
    requires rebuilt.Inverted() && InSync(rebuilt.views, cs[n].evidence, cs[n].assertions)
    ensures sts[n] == rebuilt == IndexOf(cs[n].evidence, cs[n].assertions)
  {
    hide InSync, IndexOf;
    RunKeepsSync(cs, sts, ms, n);
    OneIndexPerStore(rebuilt, cs[n].evidence, cs[n].assertions);
    InSyncUnique(sts[n], rebuilt, cs[n].evidence, cs[n].assertions);
  }

  lemma {:induction false} RunKeepsSync(cs: seq<Canon>, sts: seq<IndexState>, ms: seq<Mutation>, n: nat)
    requires Run(cs, sts, ms) && n <= |ms|
    requires InSync(sts[0].views, cs[0].evidence, cs[0].assertions)
    ensures InSync(sts[n].views, cs[n].evidence, cs[n].assertions)
  {
    hide Step, InSync, IndexState.Inverted;
    if n > 0 {
      RunKeepsSync(cs, sts, ms, n - 1);
      StepKeepsSync(cs[n - 1], sts[n - 1].views, ms[n - 1], cs[n], sts[n].views);
    }
  }

  /** Two worlds that agree on the refreshed subjects pay the same, whatever else they hold. */
  lemma {:induction false} WorkIsLocal(v: Views, c: Canon, w: Views, d: Canon, order: seq<string>, n: nat)
    requires n <= |order|
    requires forall i :: 0 <= i < n ==> v.At(order[i]) == w.At(order[i]) && SameData(c, d, order[i])
    ensures TotalWork(v, c, order, n) == TotalWork(w, d, order, n)
  {
    hide RefreshWork, SameData, Work.Plus, Views.At, View;
    if n > 0 {
      WorkIsLocal(v, c, w, d, order, n - 1);
      SameDataSameRefresh(c, d, order[n - 1], v.At(order[n - 1]));
    }
  }

  datatype MaintenanceResult = MaintenanceResult(operation: string, affectedSubjectIds: seq<string>,
                                                 trace: MaintenanceTrace)

  class AddressabilityMaintainer {
    const store: MemoryStore
    const index: SubjectProfileIndex

    constructor (store: MemoryStore, index: SubjectProfileIndex)
      ensures this.store == store && this.index == index
    {
      this.store, this.index := store, index;
    }

    function Canonical(): Canon
      reads store
    {
      Canon(store.evidence, store.assertions)
    }

    ghost predicate Valid()
      reads this, store, index
    {
      store.Valid() && index.Valid()
    }

    ghost predicate Synced()
      reads this, store, index
    {
      Valid() && InSync(index.CurrentViews(), store.evidence, store.assertions)
    }

    /** Refreshes the given subjects in sorted order, absorbing their traces. */
    method Refresh(operation: string, subjectIds: set<string>) returns (result: MaintenanceResult)
      requires Valid()
      modifies index
      ensures Valid()
      ensures result.operation == operation && result.affectedSubjectIds == Ranked(subjectIds, map[])
      ensures fresh(result.trace)
      ensures result.trace.Counted() ==
              TotalWork(old(index.CurrentViews()), Canonical(), result.affectedSubjectIds, |result.affectedSubjectIds|)
      ensures index.CurrentViews().Tidy()
      ensures forall s :: index.CurrentViews().At(s) ==
                if s in subjectIds then View(Canonical(), s) else old(index.CurrentViews()).At(s)
    {
      hide MemoryStore.Valid, SubjectProfileIndex.Valid, SubjectProfileIndex.CurrentViews, MaintenanceTrace.Counted;
      hide Snapshot, RefreshWork, TotalWork, Ranked, First, Refreshed, Work.Plus, Views.At, Views.Tidy;
      var trace := new MaintenanceTrace(0);
      var ordered := SortIds(subjectIds, map[]);
      ghost var was := index.CurrentViews();
      ghost var c := Canonical();
      FirstAll(subjectIds, map[]);
      ValidTidy(index);
      RefreshedNone(was, c);
      TotalNone(was, c, ordered);
      var i := 0;
      while i < |ordered|
        invariant i <= |ordered|
        invariant Valid() && fresh(trace)
        invariant Refreshed(was, index.CurrentViews(), c, First(ordered, i))
        invariant trace.Counted() == TotalWork(was, c, ordered, i)
      {
        FirstStep(subjectIds, map[], i);
        ghost var now := index.CurrentViews();
        var refreshed := index.RefreshSubject(store, ordered[i]);
        RefreshedStep(was, now, index.CurrentViews(), c, First(ordered, i), ordered[i]);
        TotalStep(was, now, c, ordered, i);
        trace.Absorb(refreshed);
        i := i + 1;
      }
      RefreshedAll(was, index.CurrentViews(), c, subjectIds);
      result := MaintenanceResult(operation, ordered, trace);
    }

    /** The parity check against a full rebuild: it passes exactly when the index is synchronized. */
    method MaterializationEqual() returns (equal: bool)
      requires Valid()
      ensures equal <==> Synced()
    {
      hide MemoryStore.Valid, IndexState.Inverted, InSync, IndexOf;
      var rebuilt := new SubjectProfileIndex(store);
      OneIndexPerStore(rebuilt.State(), store.evidence, store.assertions);
      OneIndexPerStore(index.State(), store.evidence, store.assertions);
      EqualStates(index, rebuilt);
      equal := index.EquivalentTo(rebuilt);
    }

    /** Any subject that cites this evidence id may change its lexical profile. */
    method UpsertEvidenceRecord(item: EvidenceRecord) returns (result: MaintenanceResult)
      requires Valid()
      modifies store, index
      ensures Valid() && (old(Synced()) ==> Synced())
      ensures store.relations == old(store.relations) && store.state == old(store.state)
      ensures Step(old(Canonical()), old(index.CurrentViews()), UpsertEvidence(item),
                   Canonical(), index.CurrentViews())
      ensures Reported(result, "upsert_evidence", old(Canonical()), old(index.CurrentViews()),
                       UpsertEvidence(item))
      ensures store.evidence == old(store.evidence)[item.id := item] && store.assertions == old(store.assertions)
      ensures result.operation == "upsert_evidence"
      ensures forall s :: s in result.affectedSubjectIds <==>
                exists id :: id in old(store.assertions) && old(store.assertions)[id].subjectId == s
                             && item.id in old(store.assertions)[id].evidenceIds
      ensures result.trace.subjectsRefreshed == |result.affectedSubjectIds|
      ensures forall i, j :: 0 <= i < j < |result.affectedSubjectIds| ==>
                StrLess(result.affectedSubjectIds[i], result.affectedSubjectIds[j])
    {
      hide MemoryStore.Valid, SubjectProfileIndex.Valid, SubjectProfileIndex.CurrentViews;
      hide InSync, Step, View, TotalWork, Ranked, Views.At, Views.Tidy;
      ghost var c, v := Canonical(), index.CurrentViews();
      var cited := store.SubjectsForEvidence(item.id);
      var affected := set s | s in cited;
      store.AddEvidence(item);
      result := Refresh("upsert_evidence", affected);
      StepMade(c, v, UpsertEvidence(item), Canonical(), index.CurrentViews(), affected);
      RegionExactly(c, UpsertEvidence(item), result.affectedSubjectIds);
      TotalRefreshed(v, Apply(c, UpsertEvidence(item)), result.affectedSubjectIds, |result.affectedSubjectIds|);
    }

    /** Deleting evidence touches the same region as replacing it. */
    method DeleteEvidenceRecord(evidenceId: string) returns (result: MaintenanceResult)
      requires Valid()
      modifies store, index
      ensures Valid() && (old(Synced()) ==> Synced())
      ensures store.relations == old(store.relations) && store.state == old(store.state)
      ensures Step(old(Canonical()), old(index.CurrentViews()), DeleteEvidence(evidenceId),
                   Canonical(), index.CurrentViews())
      ensures Reported(result, "delete_evidence", old(Canonical()), old(index.CurrentViews()),
                       DeleteEvidence(evidenceId))
      ensures store.evidence == old(store.evidence) - {evidenceId} && store.assertions == old(store.assertions)
      ensures result.operation == "delete_evidence"
      ensures forall s :: s in result.affectedSubjectIds <==>
                exists id :: id in old(store.assertions) && old(store.assertions)[id].subjectId == s
                             && evidenceId in old(store.assertions)[id].evidenceIds
      ensures result.trace.subjectsRefreshed == |result.affectedSubjectIds|
      ensures forall i, j :: 0 <= i < j < |result.affectedSubjectIds| ==>
                StrLess(result.affectedSubjectIds[i], result.affectedSubjectIds[j])
    {
      hide MemoryStore.Valid, SubjectProfileIndex.Valid, SubjectProfileIndex.CurrentViews;
      hide InSync, Step, View, TotalWork, Ranked, Views.At, Views.Tidy;
      ghost var c, v := Canonical(), index.CurrentViews();
      var cited := store.SubjectsForEvidence(evidenceId);
      var affected := set s | s in cited;
      var _ := store.RemoveEvidence(evidenceId);
      result := Refresh("delete_evidence", affected);
      StepMade(c, v, DeleteEvidence(evidenceId), Canonical(), index.CurrentViews(), affected);
      RegionExactly(c, DeleteEvidence(evidenceId), result.affectedSubjectIds);
      TotalRefreshed(v, Apply(c, DeleteEvidence(evidenceId)), result.affectedSubjectIds, |result.affectedSubjectIds|);
    }

    /** Both the new and, when an id is reused, the previous subject are affected. */
    method UpsertAssertionRecord(item: Assertion) returns (result: MaintenanceResult)
      requires Valid()
      modifies store, index
      ensures Valid() && (old(Synced()) ==> Synced())
      ensures store.relations == old(store.relations) && store.state == old(store.state)
      ensures Step(old(Canonical()), old(index.CurrentViews()), UpsertAssertion(item),
                   Canonical(), index.CurrentViews())
      ensures Reported(result, "upsert_assertion", old(Canonical()), old(index.CurrentViews()),
                       UpsertAssertion(item))
      ensures store.assertions == old(store.assertions)[item.id := item] && store.evidence == old(store.evidence)
      ensures result.operation == "upsert_assertion"
      ensures forall s :: s in result.affectedSubjectIds <==>
                || s == item.subjectId
                || (item.id in old(store.assertions) && s == old(store.assertions)[item.id].subjectId)
      ensures result.trace.subjectsRefreshed == |result.affectedSubjectIds|
      ensures forall i, j :: 0 <= i < j < |result.affectedSubjectIds| ==>
                StrLess(result.affectedSubjectIds[i], result.affectedSubjectIds[j])
    {
      hide MemoryStore.Valid, SubjectProfileIndex.Valid, SubjectProfileIndex.CurrentViews;
      hide InSync, Step, View, TotalWork, Ranked, Views.At, Views.Tidy;
      ghost var c, v := Canonical(), index.CurrentViews();
      var affected := {item.subjectId};
      if item.id in store.assertions {
        affected := affected + {store.assertions[item.id].subjectId};
      }
      store.AddAssertion(item);
      result := Refresh("upsert_assertion", affected);
      StepMade(c, v, UpsertAssertion(item), Canonical(), index.CurrentViews(), affected);
      RegionExactly(c, UpsertAssertion(item), result.affectedSubjectIds);
      TotalRefreshed(v, Apply(c, UpsertAssertion(item)), result.affectedSubjectIds, |result.affectedSubjectIds|);
    }

    /** Deleting an unknown assertion refreshes nothing. */
    method DeleteAssertionRecord(assertionId: string) returns (result: MaintenanceResult)
      requires Valid()
      modifies store, index
      ensures Valid() && (old(Synced()) ==> Synced())
      ensures store.relations == old(store.relations) && store.state == old(store.state)
      ensures Step(old(Canonical()), old(index.CurrentViews()), DeleteAssertion(assertionId),
                   Canonical(), index.CurrentViews())
      ensures Reported(result, "delete_assertion", old(Canonical()), old(index.CurrentViews()),
                       DeleteAssertion(assertionId))
      ensures store.assertions == old(store.assertions) - {assertionId} && store.evidence == old(store.evidence)
      ensures result.operation == "delete_assertion"
      ensures forall s :: s in result.affectedSubjectIds <==>
                assertionId in old(store.assertions) && s == old(store.assertions)[assertionId].subjectId
      ensures result.trace.subjectsRefreshed == |result.affectedSubjectIds|
      ensures forall i, j :: 0 <= i < j < |result.affectedSubjectIds| ==>
                StrLess(result.affectedSubjectIds[i], result.affectedSubjectIds[j])
    {
      hide MemoryStore.Valid, SubjectProfileIndex.Valid, SubjectProfileIndex.CurrentViews;
      hide InSync, Step, View, TotalWork, Ranked, Views.At, Views.Tidy;
      ghost var c, v := Canonical(), index.CurrentViews();
      if assertionId !in store.assertions {
        var trace := new MaintenanceTrace(0);
        ValidTidy(index);
        NothingToDelete(c, v, assertionId);
        return MaintenanceResult("delete_assertion", [], trace);
      }
      var affected := {store.assertions[assertionId].subjectId};
      var _ := store.RemoveAssertion(assertionId);
      result := Refresh("delete_assertion", affected);
      StepMade(c, v, DeleteAssertion(assertionId), Canonical(), index.CurrentViews(), affected);
      RegionExactly(c, DeleteAssertion(assertionId), result.affectedSubjectIds);
      TotalRefreshed(v, Apply(c, DeleteAssertion(assertionId)), result.affectedSubjectIds, |result.affectedSubjectIds|);
    }
  }

  lemma EqualStates(a: SubjectProfileIndex, b: SubjectProfileIndex)
    ensures a.EquivalentTo(b) <==> a.State() == b.State()
  {
  }

  lemma {:induction false} TotalRefreshed(v: Views, c: Canon, order: seq<string>, n: nat)
    requires n <= |order|
    ensures TotalWork(v, c, order, n).subjectsRefreshed == n
  {
    hide RefreshWork, NewFeatures, NewPairs;
    if n > 0 {
      TotalRefreshed(v, c, order, n - 1);
      RefreshWorkExactly(v.At(order[n - 1]), c.evidence, c.assertions, order[n - 1]);
    }
  }

  /** The reported region, record by record: for each mutation exactly whom it lists, in order. */
  lemma RegionExactly(c: Canon, m: Mutation, ids: seq<string>)
    requires ids == Ranked(Affected(c, m), map[])
    ensures forall i, j :: 0 <= i < j < |ids| ==> StrLess(ids[i], ids[j])
    ensures m.UpsertEvidence? ==> forall s :: s in ids <==>
              exists id :: id in c.assertions && c.assertions[id].subjectId == s
                           && m.evidence.id in c.assertions[id].evidenceIds
    ensures m.DeleteEvidence? ==> forall s :: s in ids <==>
              exists id :: id in c.assertions && c.assertions[id].subjectId == s
                           && m.evidenceId in c.assertions[id].evidenceIds
    ensures m.UpsertAssertion? ==> forall s :: s in ids <==>
              || s == m.assertion.subjectId
              || (m.assertion.id in c.assertions && s == c.assertions[m.assertion.id].subjectId)
    ensures m.DeleteAssertion? ==> forall s :: s in ids <==>
              m.assertionId in c.assertions && s == c.assertions[m.assertionId].subjectId
  {
    hide Ranked, StrLess;
    AlphabeticalExactly(ids, Affected(c, m));
  }

  lemma StepMade(c: Canon, v: Views, m: Mutation, c': Canon, v': Views, affected: set<string>)
    requires c'.evidence == Apply(c, m).evidence && c'.assertions == Apply(c, m).assertions
    requires affected == Affected(c, m) && v'.Tidy()
    requires forall s :: v'.At(s) == if s in affected then View(c', s) else v.At(s)
    ensures Step(c, v, m, c', v')
    ensures InSync(v, c.evidence, c.assertions) ==> InSync(v', c'.evidence, c'.assertions)
  {
    hide View, Views.At, Views.Tidy, InSync;
    if InSync(v, c.evidence, c.assertions) {
      StepKeepsSync(c, v, m, c', v');
    }
  }

  lemma NothingToDelete(c: Canon, v: Views, id: string)
    requires id !in c.assertions && v.Tidy()
    ensures Step(c, v, DeleteAssertion(id), c, v)
    ensures Ranked(Affected(c, DeleteAssertion(id)), map[]) == []
    ensures TotalWork(v, Apply(c, DeleteAssertion(id)), [], 0) == NOWORK
  {
    assert c.assertions - {id} == c.assertions;
  }

  /** After refreshing `done` the views are those of `c` there and the old ones elsewhere. */
  ghost predicate Refreshed(was: Views, now: Views, c: Canon, done: set<string>) {
    now.Tidy() && forall s :: now.At(s) == if s in done then View(c, s) else was.At(s)
  }

  lemma RefreshedNone(was: Views, c: Canon)
    requires was.Tidy()
    ensures Refreshed(was, was, c, {})
  {
  }

  lemma RefreshedStep(was: Views, now: Views, later: Views, c: Canon, done: set<string>, s: string)
    requires Refreshed(was, now, c, done) && later.SameExceptAt(now, s, View(c, s))
    ensures Refreshed(was, later, c, done + {s})
    ensures s !in done ==> now.At(s) == was.At(s)
  {
    hide View, Views.At, Views.Tidy;
  }

  lemma RefreshedAll(was: Views, now: Views, c: Canon, done: set<string>)
    requires Refreshed(was, now, c, done)
    ensures now.Tidy()
    ensures forall s :: now.At(s) == if s in done then View(c, s) else was.At(s)
  {
  }

  lemma ValidTidy(index: SubjectProfileIndex)
    requires index.Valid()
    ensures index.CurrentViews().Tidy()
  {
  }

  /** What a maintainer call reports: the sorted region and the exact cost of refreshing it. */
  ghost predicate Reported(result: MaintenanceResult, operation: string, c: Canon, v: Views, m: Mutation)
    reads result.trace
  {
    && result.operation == operation
    && result.affectedSubjectIds == Ranked(Affected(c, m), map[])
    && result.trace.Counted() ==
       TotalWork(v, Apply(c, m), result.affectedSubjectIds, |result.affectedSubjectIds|)
  }
}
