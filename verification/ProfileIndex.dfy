/**
 The addressability index: per-subject views and six inverted posting maps, patched one
 subject at a time.
 */
module ProfileIndex {
  import opened Models
  import opened Ranking
  import opened Postings
  import opened References
  import opened Lexicon
  import opened Storage
  import opened Snapshots

  type Base = map<string, set<string>>
  type ByPredicate = map<(string, string), set<string>>

  /** Counted maintenance work. */
  datatype Work = Work(
    subjectsRefreshed: nat, assertionsExamined: nat, evidenceRefsExamined: nat,
    evidenceRecordsExamined: nat, profileTokensExamined: nat, postingAdditions: nat,
    postingRemovals: nat, predicatePostingAdditions: nat, predicatePostingRemovals: nat)
  {
    function Plus(w: Work): Work {
      Work(subjectsRefreshed + w.subjectsRefreshed,
           assertionsExamined + w.assertionsExamined,
           evidenceRefsExamined + w.evidenceRefsExamined,
           evidenceRecordsExamined + w.evidenceRecordsExamined,
           profileTokensExamined + w.profileTokensExamined,
           postingAdditions + w.postingAdditions,
           postingRemovals + w.postingRemovals,
           predicatePostingAdditions + w.predicatePostingAdditions,
           predicatePostingRemovals + w.predicatePostingRemovals)
    }
  }

  const NOWORK := Work(0, 0, 0, 0, 0, 0, 0, 0, 0)

  class MaintenanceTrace {
    var subjectsRefreshed: nat
    var assertionsExamined: nat
    var evidenceRefsExamined: nat
    var evidenceRecordsExamined: nat
    var profileTokensExamined: nat
    var postingAdditions: nat
    var postingRemovals: nat
    var predicatePostingAdditions: nat
    var predicatePostingRemovals: nat

    function Counted(): Work
      reads this
    {
      Work(subjectsRefreshed, assertionsExamined, evidenceRefsExamined, evidenceRecordsExamined,
           profileTokensExamined, postingAdditions, postingRemovals, predicatePostingAdditions,
           predicatePostingRemovals)
    }

    constructor (subjectsRefreshed: nat)
      ensures Counted() == NOWORK.(subjectsRefreshed := subjectsRefreshed)
    {
      this.subjectsRefreshed := subjectsRefreshed;
      assertionsExamined, evidenceRefsExamined, evidenceRecordsExamined := 0, 0, 0;
      profileTokensExamined, postingAdditions, postingRemovals := 0, 0, 0;
      predicatePostingAdditions, predicatePostingRemovals := 0, 0;
    }

    method CountPostings(additions: nat, removals: nat, pairAdditions: nat, pairRemovals: nat)
      modifies this
      ensures Counted() == old(Counted()).Plus(NOWORK.(
                postingAdditions := additions, postingRemovals := removals,
                predicatePostingAdditions := pairAdditions, predicatePostingRemovals := pairRemovals))
    {
      postingAdditions := postingAdditions + additions;
      postingRemovals := postingRemovals + removals;
      predicatePostingAdditions := predicatePostingAdditions + pairAdditions;
      predicatePostingRemovals := predicatePostingRemovals + pairRemovals;
    }

    method Absorb(other: MaintenanceTrace)
      modifies this
      ensures Counted() == old(Counted()).Plus(old(other.Counted()))
      ensures subjectsRefreshed == old(subjectsRefreshed) + old(other.subjectsRefreshed)
      ensures assertionsExamined == old(assertionsExamined) + old(other.assertionsExamined)
      ensures evidenceRefsExamined == old(evidenceRefsExamined) + old(other.evidenceRefsExamined)
      ensures evidenceRecordsExamined == old(evidenceRecordsExamined) + old(other.evidenceRecordsExamined)
      ensures profileTokensExamined == old(profileTokensExamined) + old(other.profileTokensExamined)
      ensures postingAdditions == old(postingAdditions) + old(other.postingAdditions)
      ensures postingRemovals == old(postingRemovals) + old(other.postingRemovals)
      ensures predicatePostingAdditions == old(predicatePostingAdditions) + old(other.predicatePostingAdditions)
      ensures predicatePostingRemovals == old(predicatePostingRemovals) + old(other.predicatePostingRemovals)
    {
      subjectsRefreshed := subjectsRefreshed + other.subjectsRefreshed;
      assertionsExamined := assertionsExamined + other.assertionsExamined;
      evidenceRefsExamined := evidenceRefsExamined + other.evidenceRefsExamined;
      evidenceRecordsExamined := evidenceRecordsExamined + other.evidenceRecordsExamined;
      profileTokensExamined := profileTokensExamined + other.profileTokensExamined;
      postingAdditions := postingAdditions + other.postingAdditions;
      postingRemovals := postingRemovals + other.postingRemovals;
      predicatePostingAdditions := predicatePostingAdditions + other.predicatePostingAdditions;
      predicatePostingRemovals := predicatePostingRemovals + other.predicatePostingRemovals;
    }
  }

  /** The three per-subject maps. */
  datatype Views = Views(profiles: map<string, multiset<string>>, predicates: map<string, set<string>>,
                         evidenceIds: map<string, set<string>>)
  {
    /** The stored view of a subject; an absent entry reads as empty. */
    function At(s: string): SubjectView {
      SubjectView(if s in profiles then profiles[s] else multiset{},
                  if s in predicates then predicates[s] else {},
                  if s in evidenceIds then evidenceIds[s] else {})
    }

    /** Nothing empty is stored. */
    ghost predicate Tidy() {
      && (forall s :: s in profiles ==> profiles[s] != multiset{})
      && (forall s :: s in predicates ==> predicates[s] != {})
      && (forall s :: s in evidenceIds ==> evidenceIds[s] != {})
    }

    ghost predicate SameExceptAt(v: Views, s: string, view: SubjectView) {
      && Tidy()
      && At(s) == view
      && forall t :: t != s ==> At(t) == v.At(t)
    }
  }

  function StoreBag(m: map<string, multiset<string>>, s: string, bag: multiset<string>): map<string, multiset<string>> {
    if bag != multiset{} then m[s := bag] else m - {s}
  }

  function StoreSet(m: map<string, set<string>>, s: string, members: set<string>): map<string, set<string>> {
    if members != {} then m[s := members] else m - {s}
  }

  lemma StoredSame(v: Views, s: string, view: SubjectView)
    requires v.Tidy()
    ensures Views(StoreBag(v.profiles, s, view.profile), StoreSet(v.predicates, s, view.predicates),
                  StoreSet(v.evidenceIds, s, view.evidenceIds)).SameExceptAt(v, s, view)
  {
    StoreBagAt(v.profiles, s, view.profile);
    StoreSetAt(v.predicates, s, view.predicates);
    StoreSetAt(v.evidenceIds, s, view.evidenceIds);
  }

  lemma StoreBagAt(m: map<string, multiset<string>>, s: string, bag: multiset<string>)
    requires forall t :: t in m ==> m[t] != multiset{}
    ensures var m' := StoreBag(m, s, bag);
            && (forall t :: t in m' ==> m'[t] != multiset{})
            && (if s in m' then m'[s] else multiset{}) == bag
            && forall t :: t != s ==> (t in m' <==> t in m) && (t in m ==> m'[t] == m[t])
  {
  }

  lemma StoreSetAt(m: map<string, set<string>>, s: string, members: set<string>)
    requires forall t :: t in m ==> m[t] != {}
    ensures var m' := StoreSet(m, s, members);
            && (forall t :: t in m' ==> m'[t] != {})
            && (if s in m' then m'[s] else {}) == members
            && forall t :: t != s ==> (t in m' <==> t in m) && (t in m ==> m'[t] == m[t])
  {
  }

  lemma ViewsUnique(v: Views, w: Views)
    requires v.Tidy() && w.Tidy()
    requires forall s :: v.At(s) == w.At(s)
    ensures v == w
  {
    ViewsWithin(v, w);
    ViewsWithin(w, v);
  }

  lemma ViewsWithin(v: Views, w: Views)
    requires v.Tidy() && w.Tidy()
    requires forall s :: v.At(s) == w.At(s)
    ensures forall s :: s in v.profiles ==> s in w.profiles && w.profiles[s] == v.profiles[s]
    ensures forall s :: s in v.predicates ==> s in w.predicates && w.predicates[s] == v.predicates[s]
    ensures forall s :: s in v.evidenceIds ==> s in w.evidenceIds && w.evidenceIds[s] == v.evidenceIds[s]
  {
    forall s | s in v.profiles ensures s in w.profiles && w.profiles[s] == v.profiles[s] {
      assert v.At(s) == w.At(s);
    }
    forall s | s in v.predicates ensures s in w.predicates && w.predicates[s] == v.predicates[s] {
      assert v.At(s) == w.At(s);
    }
    forall s | s in v.evidenceIds ensures s in w.evidenceIds && w.evidenceIds[s] == v.evidenceIds[s] {
      assert v.At(s) == w.At(s);
    }
  }

  const NOVIEWS := Views(map[], map[], map[])

  /** All nine maps as one value. */
  datatype IndexState = IndexState(
    views: Views, token: Base, fragment: Base, ngram: Base,
    tokenPredicate: ByPredicate, fragmentPredicate: ByPredicate, ngramPredicate: ByPredicate)
  {
    function Plain(channel: Channel): Base {
      match channel case Token => token case Fragment => fragment case Ngram => ngram
    }

    function Narrowed(channel: Channel): ByPredicate {
      match channel
      case Token => tokenPredicate
      case Fragment => fragmentPredicate
      case Ngram => ngramPredicate
    }

    ghost predicate Inverted() {
      && views.Tidy()
      && (forall channel :: Inverts(Plain(channel), FeatureMap(views, channel)))
      && (forall channel :: Inverts(Narrowed(channel), PairMap(views, channel)))
    }

    /** Base memberships recorded over the three channels, and predicate-specific ones. */
    ghost function Memberships(): nat {
      |Members(token)| + |Members(fragment)| + |Members(ngram)|
    }

    ghost function PredicateMemberships(): nat {
      |Members(tokenPredicate)| + |Members(fragmentPredicate)| + |Members(ngramPredicate)|
    }
  }

  ghost function FeatureMap(views: Views, channel: Channel): map<string, set<string>> {
    map s | s in views.profiles :: FeaturesOf(channel, views.At(s).profile)
  }

  ghost function PairMap(views: Views, channel: Channel): map<string, set<(string, string)>> {
    map s | s in views.profiles :: PairsOf(channel, views.At(s))
  }

  lemma FeatureMapAt(views: Views, channel: Channel, s: string)
    ensures FeatsAt(FeatureMap(views, channel), s) == FeaturesOf(channel, views.At(s).profile)
    ensures FeatsAt(PairMap(views, channel), s) == PairsOf(channel, views.At(s))
  {
    if s !in views.profiles {
      NoProfileNoFeatures(channel, views.At(s));
    }
  }

  /** A posting holds exactly the subjects whose stored view yields its feature. */
  lemma PostingsExact(st: IndexState, channel: Channel, f: string, p: string, s: string)
    requires st.Inverted()
    ensures Has(st.Plain(channel), f, s) <==> f in FeaturesOf(channel, st.views.At(s).profile)
    ensures Has(st.Narrowed(channel), (f, p), s) <==>
            f in FeaturesOf(channel, st.views.At(s).profile) && p in st.views.At(s).predicates
  {
    FeatureMapAt(st.views, channel, s);
    assert Has(st.Narrowed(channel), (f, p), s) <==> (f, p) in FeatsAt(PairMap(st.views, channel), s);
  }

  /** The per-subject views determine all six posting maps. */
  lemma IndexUnique(a: IndexState, b: IndexState)
    requires a.Inverted() && b.Inverted() && a.views == b.views
    ensures a == b
  {
    forall channel ensures a.Plain(channel) == b.Plain(channel) && a.Narrowed(channel) == b.Narrowed(channel) {
      InvertsUnique(a.Plain(channel), b.Plain(channel), FeatureMap(a.views, channel));
      InvertsUnique(a.Narrowed(channel), b.Narrowed(channel), PairMap(a.views, channel));
    }
    assert a.Plain(Token) == b.Plain(Token) && a.Narrowed(Token) == b.Narrowed(Token);
    assert a.Plain(Fragment) == b.Plain(Fragment) && a.Narrowed(Fragment) == b.Narrowed(Fragment);
    assert a.Plain(Ngram) == b.Plain(Ngram) && a.Narrowed(Ngram) == b.Narrowed(Ngram);
  }

  /** Moving one subject in every posting keeps the inversion. */
  lemma RefreshInverts(a: IndexState, b: IndexState, s: string, view: SubjectView)
    requires a.Inverted() && b.views.SameExceptAt(a.views, s, view)
    requires Relocated(a, b, s, view)
    ensures b.Inverted()
  {
    forall channel
      ensures Inverts(b.Plain(channel), FeatureMap(b.views, channel))
      ensures Inverts(b.Narrowed(channel), PairMap(b.views, channel))
    {
      var fs, ps := FeatureMap(a.views, channel), PairMap(a.views, channel);
      MovedInverts(a.Plain(channel), b.Plain(channel), s, FeaturesOf(channel, view.profile), fs);
      MovedInverts(a.Narrowed(channel), b.Narrowed(channel), s, PairsOf(channel, view), ps);
      forall t
        ensures FeatsAt(fs[s := FeaturesOf(channel, view.profile)], t) == FeatsAt(FeatureMap(b.views, channel), t)
        ensures FeatsAt(ps[s := PairsOf(channel, view)], t) == FeatsAt(PairMap(b.views, channel), t)
      {
        FeatureMapAt(a.views, channel, t);
        FeatureMapAt(b.views, channel, t);
      }
      InvertsExtensional(b.Plain(channel), fs[s := FeaturesOf(channel, view.profile)], FeatureMap(b.views, channel));
      InvertsExtensional(b.Narrowed(channel), ps[s := PairsOf(channel, view)], PairMap(b.views, channel));
    }
  }

  /** Refreshing two different subjects gives the same index in either order. */
  lemma RefreshesCommute(start: IndexState, s: string, a: SubjectView, t: string, b: SubjectView,
                         st: IndexState, stst: IndexState, ts: IndexState, tsts: IndexState)
    requires s != t
    requires st.views.SameExceptAt(start.views, s, a) && stst.views.SameExceptAt(st.views, t, b)
    requires ts.views.SameExceptAt(start.views, t, b) && tsts.views.SameExceptAt(ts.views, s, a)
    requires stst.Inverted() && tsts.Inverted()
    ensures stst == tsts
  {
    forall u ensures stst.views.At(u) == tsts.views.At(u) {
      assert u != s ==> st.views.At(u) == start.views.At(u);
      assert u != t ==> ts.views.At(u) == start.views.At(u);
    }
    ViewsUnique(stst.views, tsts.views);
    IndexUnique(stst, tsts);
  }

  /** Features in `to` that are not in `from`, counted over the channels. */
  ghost function Gained(from: SubjectView, to: SubjectView): nat {
    |FeaturesOf(Token, to.profile) - FeaturesOf(Token, from.profile)| +
    |FeaturesOf(Fragment, to.profile) - FeaturesOf(Fragment, from.profile)| +
    |FeaturesOf(Ngram, to.profile) - FeaturesOf(Ngram, from.profile)|
  }

  ghost function GainedPairs(from: SubjectView, to: SubjectView): nat {
    |PairsOf(Token, to) - PairsOf(Token, from)| +
    |PairsOf(Fragment, to) - PairsOf(Fragment, from)| +
    |PairsOf(Ngram, to) - PairsOf(Ngram, from)|
  }

  /** The patching half of a refresh. */
  ghost function PatchWork(before: SubjectView, after: SubjectView): Work {
    NOWORK.(postingAdditions := Gained(before, after), postingRemovals := Gained(after, before),
            predicatePostingAdditions := GainedPairs(before, after),
            predicatePostingRemovals := GainedPairs(after, before))
  }

  /** The reading half of a refresh: what the snapshot of one subject examines. */
  ghost function SnapshotWork(evidence: map<string, EvidenceRecord>, assertions: map<string, Assertion>,
                              s: string): Work {
    var ids := IdsForSubject(assertions, s);
    NOWORK.(assertionsExamined := |ids|,
            evidenceRefsExamined := |ReferencesBy(assertions, ids)|,
            evidenceRecordsExamined := |Present(evidence, EvidenceBy(assertions, ids))|,
            profileTokensExamined := |Snapshot(evidence, assertions, s).profile|)
  }

  /** The whole cost of a refresh: it depends on one subject's old view and data alone. */
  ghost function RefreshWork(before: SubjectView, evidence: map<string, EvidenceRecord>,
                             assertions: map<string, Assertion>, s: string): Work {
    var after := Snapshot(evidence, assertions, s);
    NOWORK.(subjectsRefreshed := 1).Plus(SnapshotWork(evidence, assertions, s)).Plus(PatchWork(before, after))
  }

  /** The features `after` has and `before` lacks, in one channel. */
  ghost function NewFeatures(channel: Channel, before: SubjectView, after: SubjectView): set<string> {
    set f | f in FeaturesOf(channel, after.profile) && f !in FeaturesOf(channel, before.profile)
  }

  ghost function NewPairs(channel: Channel, before: SubjectView, after: SubjectView): set<(string, string)> {
    set f, p | f in FeaturesOf(channel, after.profile) && p in after.predicates
               && !(f in FeaturesOf(channel, before.profile) && p in before.predicates) :: (f, p)
  }

  /** What a refresh costs, counter by counter, in terms of the records and the two views. */
  lemma RefreshWorkExactly(before: SubjectView, evidence: map<string, EvidenceRecord>,
                           assertions: map<string, Assertion>, s: string)
    ensures var w, after := RefreshWork(before, evidence, assertions, s), Snapshot(evidence, assertions, s);
            && w.subjectsRefreshed == 1
            && w.assertionsExamined == |set id | id in assertions && assertions[id].subjectId == s|
            && w.evidenceRefsExamined ==
                 |set id, i | id in assertions && assertions[id].subjectId == s
                              && 0 <= i < |assertions[id].evidenceIds| :: (id, i)|
            && w.evidenceRecordsExamined == |set e | e in after.evidenceIds && e in evidence|
            && w.profileTokensExamined == |after.profile|
            && w.postingAdditions == |NewFeatures(Token, before, after)| + |NewFeatures(Fragment, before, after)|
                                     + |NewFeatures(Ngram, before, after)|
            && w.postingRemovals == |NewFeatures(Token, after, before)| + |NewFeatures(Fragment, after, before)|
                                    + |NewFeatures(Ngram, after, before)|
            && w.predicatePostingAdditions == |NewPairs(Token, before, after)| + |NewPairs(Fragment, before, after)|
                                              + |NewPairs(Ngram, before, after)|
            && w.predicatePostingRemovals == |NewPairs(Token, after, before)| + |NewPairs(Fragment, after, before)|
                                             + |NewPairs(Ngram, after, before)|
  {
    hide NewFeatures, NewPairs, Gained, GainedPairs, Snapshot, ReferencesBy;
    var after := Snapshot(evidence, assertions, s);
    GainedExactly(before, after);
    GainedExactly(after, before);
    PlacesRead(assertions, s);
    CitedBy(evidence, assertions, s);
    assert PlacesOf(assertions, s) == set id, i | id in assertions && assertions[id].subjectId == s
                                                  && 0 <= i < |assertions[id].evidenceIds| :: (id, i);
    assert IdsForSubject(assertions, s) == set id | id in assertions && assertions[id].subjectId == s;
    assert Present(evidence, after.evidenceIds) == set e | e in after.evidenceIds && e in evidence;
  }

  lemma CitedBy(evidence: map<string, EvidenceRecord>, assertions: map<string, Assertion>, s: string)
    ensures Snapshot(evidence, assertions, s).evidenceIds == EvidenceBy(assertions, IdsForSubject(assertions, s))
  {
  }

  /** The places of a subject's assertions in their evidence tuples. */
  ghost function PlacesOf(assertions: map<string, Assertion>, s: string): set<(string, int)> {
    set id, i | id in assertions && assertions[id].subjectId == s && 0 <= i < |assertions[id].evidenceIds| :: (id, i)
  }

  lemma GainedExactly(before: SubjectView, after: SubjectView)
    ensures Gained(before, after) == |NewFeatures(Token, before, after)| + |NewFeatures(Fragment, before, after)|
                                     + |NewFeatures(Ngram, before, after)|
    ensures GainedPairs(before, after) == |NewPairs(Token, before, after)| + |NewPairs(Fragment, before, after)|
                                          + |NewPairs(Ngram, before, after)|
  {
    hide FeaturesOf;
    forall channel
      ensures NewFeatures(channel, before, after) ==
              FeaturesOf(channel, after.profile) - FeaturesOf(channel, before.profile)
      ensures NewPairs(channel, before, after) == PairsOf(channel, after) - PairsOf(channel, before)
    {
    }
  }

  /** The references a subject's assertions hold are their places in the evidence tuples. */
  lemma PlacesRead(assertions: map<string, Assertion>, s: string)
    ensures |ReferencesBy(assertions, IdsForSubject(assertions, s))| == |PlacesOf(assertions, s)|
  {
    var refs := ReferencesBy(assertions, IdsForSubject(assertions, s));
    var places := PlacesOf(assertions, s);
    DistinctPlaces(assertions, refs);
    assert places == set r | r in refs :: (r.assertionId, r.position) by {
      forall p ensures p in places <==> p in set r | r in refs :: (r.assertionId, r.position) {
        if p in places {
          var r := Reference(p.0, p.1, assertions[p.0].evidenceIds[p.1], s);
          assert r in ReferencesOf(assertions) && p.0 in IdsForSubject(assertions, s);
          assert r in refs;
        }
      }
    }
  }

  lemma {:induction false} DistinctPlaces(assertions: map<string, Assertion>, refs: set<Reference>)
    requires refs <= ReferencesOf(assertions)
    ensures |set r | r in refs :: (r.assertionId, r.position)| == |refs|
    decreases |refs|
  {
    var places := set r | r in refs :: (r.assertionId, r.position);
    if r :| r in refs {
      var rest := refs - {r};
      DistinctPlaces(assertions, rest);
      var fewer := set q | q in rest :: (q.assertionId, q.position);
      assert places == fewer + {(r.assertionId, r.position)};
      forall q | q in rest ensures (q.assertionId, q.position) != (r.assertionId, r.position) {
        assert q in ReferencesOf(assertions) && r in ReferencesOf(assertions);
      }
    } else {
      assert places == {};
    }
  }

  /**
   The second of two refreshes of a subject over the same store leaves all nine maps as they
   are and counts no posting mutation.
   */
  lemma RepeatedRefreshIsFree(start: IndexState, once: IndexState, twice: IndexState,
                              evidence: map<string, EvidenceRecord>,
                              assertions: map<string, Assertion>, s: string)
    requires once.Inverted() && twice.Inverted()
    requires once.views.SameExceptAt(start.views, s, Snapshot(evidence, assertions, s))
    requires twice.views.SameExceptAt(once.views, s, Snapshot(evidence, assertions, s))
    ensures twice == once
    ensures var w := RefreshWork(once.views.At(s), evidence, assertions, s);
            w.postingAdditions == w.postingRemovals == 0 &&
            w.predicatePostingAdditions == w.predicatePostingRemovals == 0
  {
    hide Snapshot, FeaturesOf, PairsOf, IdsForSubject, ReferencesBy, Present, IndexState.Inverted;
    InvertedTidy(once);
    InvertedTidy(twice);
    ViewsUnique(once.views, twice.views);
    IndexUnique(once, twice);
    NoPatch(Snapshot(evidence, assertions, s));
  }

  lemma InvertedTidy(st: IndexState)
    requires st.Inverted()
    ensures st.views.Tidy()
  {
  }

  lemma NoPatch(v: SubjectView)
    ensures PatchWork(v, v) == NOWORK
  {
    hide FeaturesOf, PairsOf;
    forall channel
      ensures |FeaturesOf(channel, v.profile) - FeaturesOf(channel, v.profile)| == 0
      ensures |PairsOf(channel, v) - PairsOf(channel, v)| == 0
    {
      NothingGained(FeaturesOf(channel, v.profile));
      NothingGained(PairsOf(channel, v));
    }
  }

  lemma NothingGained<T>(features: set<T>)
    ensures |features - features| == 0
  {
    assert features - features == {};
  }

  /** Every stored view is the snapshot of the canonical fields. */
  ghost predicate InSync(views: Views, evidence: map<string, EvidenceRecord>, assertions: map<string, Assertion>) {
    views.Tidy() && forall s :: views.At(s) == Snapshot(evidence, assertions, s)
  }

  /** Conservation: memberships after plus removals equal memberships before plus additions. */
  lemma RefreshConserves(a: IndexState, b: IndexState, s: string, view: SubjectView)
    requires a.Inverted() && b.Inverted() && b.views.SameExceptAt(a.views, s, view)
    ensures var w := PatchWork(a.views.At(s), view);
            && b.Memberships() + w.postingRemovals == a.Memberships() + w.postingAdditions
            && b.PredicateMemberships() + w.predicatePostingRemovals ==
               a.PredicateMemberships() + w.predicatePostingAdditions
  {
    hide FeaturesOf, PairsOf;
    ChannelConserves(Token, a, b, s, view);
    ChannelConserves(Fragment, a, b, s, view);
    ChannelConserves(Ngram, a, b, s, view);
  }

  lemma ChannelConserves(channel: Channel, a: IndexState, b: IndexState, s: string, view: SubjectView)
    requires a.Inverted() && b.Inverted() && b.views.SameExceptAt(a.views, s, view)
    ensures var (f, f') := (FeaturesOf(channel, a.views.At(s).profile), FeaturesOf(channel, view.profile));
            |Members(b.Plain(channel))| + |f - f'| == |Members(a.Plain(channel))| + |f' - f|
    ensures var (p, p') := (PairsOf(channel, a.views.At(s)), PairsOf(channel, view));
            |Members(b.Narrowed(channel))| + |p - p'| == |Members(a.Narrowed(channel))| + |p' - p|
  {
    forall t
      ensures FeatsAt(FeatureMap(a.views, channel), t) == FeaturesOf(channel, a.views.At(t).profile)
      ensures FeatsAt(PairMap(a.views, channel), t) == PairsOf(channel, a.views.At(t))
      ensures FeatsAt(FeatureMap(b.views, channel), t) == FeaturesOf(channel, b.views.At(t).profile)
      ensures FeatsAt(PairMap(b.views, channel), t) == PairsOf(channel, b.views.At(t))
    {
      FeatureMapAt(a.views, channel, t);
      FeatureMapAt(b.views, channel, t);
    }
    MovedMembers(a.Plain(channel), b.Plain(channel), s,
                 FeaturesOf(channel, a.views.At(s).profile), FeaturesOf(channel, view.profile));
    MovedMembers(a.Narrowed(channel), b.Narrowed(channel), s, PairsOf(channel, a.views.At(s)), PairsOf(channel, view));
  }

  /** Two indexes in sync with the same canonical fields agree on all nine maps. */
  lemma InSyncUnique(a: IndexState, b: IndexState, evidence: map<string, EvidenceRecord>,
                     assertions: map<string, Assertion>)
    requires a.Inverted() && b.Inverted()
    requires InSync(a.views, evidence, assertions) && InSync(b.views, evidence, assertions)
    ensures a == b
  {
    ViewsUnique(a.views, b.views);
    IndexUnique(a, b);
  }

  /** The non-empty parts of the given subjects' views. */
  ghost function Stored(subjects: set<string>, view: string -> SubjectView): Views {
    Views(map s | s in subjects && view(s).profile != multiset{} :: view(s).profile,
          map s | s in subjects && view(s).predicates != {} :: view(s).predicates,
          map s | s in subjects && view(s).evidenceIds != {} :: view(s).evidenceIds)
  }

  lemma StoredReads(subjects: set<string>, view: string -> SubjectView)
    ensures Stored(subjects, view).Tidy()
    ensures forall s :: Stored(subjects, view).At(s) == if s in subjects then view(s) else BLANK
  {
  }

  ghost function ViewsOf(evidence: map<string, EvidenceRecord>, assertions: map<string, Assertion>): Views {
    Stored(Subjects(assertions), s => Snapshot(evidence, assertions, s))
  }

  /** The index of a store, as a function of the canonical fields. */
  ghost function IndexOf(evidence: map<string, EvidenceRecord>, assertions: map<string, Assertion>): IndexState {
    var v := ViewsOf(evidence, assertions);
    IndexState(v, Inversion(FeatureMap(v, Token)), Inversion(FeatureMap(v, Fragment)), Inversion(FeatureMap(v, Ngram)),
               Inversion(PairMap(v, Token)), Inversion(PairMap(v, Fragment)), Inversion(PairMap(v, Ngram)))
  }

  /** Every store has exactly one synchronized index. */
  lemma OneIndexPerStore(st: IndexState, evidence: map<string, EvidenceRecord>, assertions: map<string, Assertion>)
    ensures st == IndexOf(evidence, assertions) <==> st.Inverted() && InSync(st.views, evidence, assertions)
  {
    hide IndexState.Inverted, InSync, IndexOf;
    IndexOfInverted(evidence, assertions);
    if st.Inverted() && InSync(st.views, evidence, assertions) {
      InSyncUnique(st, IndexOf(evidence, assertions), evidence, assertions);
    }
  }

  lemma IndexOfInverted(evidence: map<string, EvidenceRecord>, assertions: map<string, Assertion>)
    ensures IndexOf(evidence, assertions).Inverted()
    ensures InSync(IndexOf(evidence, assertions).views, evidence, assertions)
  {
    hide FeatureMap, PairMap, ViewsOf, Inversion, InSync;
    var st, v := IndexOf(evidence, assertions), ViewsOf(evidence, assertions);
    ViewsOfInSync(evidence, assertions);
    assert v.Tidy() by { SyncedTidy(v, evidence, assertions); }
    forall channel
      ensures Inverts(st.Plain(channel), FeatureMap(st.views, channel))
      ensures Inverts(st.Narrowed(channel), PairMap(st.views, channel))
    {
      InversionInverts(FeatureMap(v, channel));
      InversionInverts(PairMap(v, channel));
    }
  }

  lemma SyncedTidy(v: Views, evidence: map<string, EvidenceRecord>, assertions: map<string, Assertion>)
    requires InSync(v, evidence, assertions)
    ensures v.Tidy()
  {
  }

  lemma ViewsOfInSync(evidence: map<string, EvidenceRecord>, assertions: map<string, Assertion>)
    ensures InSync(ViewsOf(evidence, assertions), evidence, assertions)
  {
    hide Snapshot, Stored, Subjects;
    StoredReads(Subjects(assertions), s => Snapshot(evidence, assertions, s));
    forall s ensures ViewsOf(evidence, assertions).At(s) == Snapshot(evidence, assertions, s) {
      if s !in Subjects(assertions) {
        UnknownSubjectIsBlank(evidence, assertions, s);
      }
    }
  }

  /** The canonical fields an index is derived from. */
  datatype Canon = Canon(evidence: map<string, EvidenceRecord>, assertions: map<string, Assertion>)

  /** The summed cost of refreshing the first `n` subjects of a listing, each from its old view. */
  ghost function TotalWork(v: Views, c: Canon, order: seq<string>, n: nat): Work
    requires n <= |order|
  {
    if n == 0 then NOWORK else
      TotalWork(v, c, order, n - 1).Plus(RefreshWork(v.At(order[n - 1]), c.evidence, c.assertions, order[n - 1]))
  }

  lemma TotalNone(v: Views, c: Canon, order: seq<string>)
    ensures TotalWork(v, c, order, 0) == NOWORK
  {
  }

  lemma TotalStep(v: Views, w: Views, c: Canon, order: seq<string>, n: nat)
    requires n < |order| && w.At(order[n]) == v.At(order[n])
    ensures TotalWork(v, c, order, n + 1) ==
            TotalWork(v, c, order, n).Plus(RefreshWork(w.At(order[n]), c.evidence, c.assertions, order[n]))
  {
    hide RefreshWork, Work.Plus, Views.At;
  }

  class SubjectProfileIndex {
    var profiles: map<string, multiset<string>>
    var subjectPredicates: map<string, set<string>>
    var subjectEvidenceIds: map<string, set<string>>
    var tokenPostings: Base
    var fragmentPostings: Base
    var ngramPostings: Base
    var tokenPredicatePostings: ByPredicate
    var fragmentPredicatePostings: ByPredicate
    var ngramPredicatePostings: ByPredicate
    const buildTrace: MaintenanceTrace

    function CurrentViews(): Views
      reads this
    {
      Views(profiles, subjectPredicates, subjectEvidenceIds)
    }

    function State(): IndexState
      reads this
    {
      IndexState(CurrentViews(), tokenPostings, fragmentPostings, ngramPostings,
                 tokenPredicatePostings, fragmentPredicatePostings, ngramPredicatePostings)
    }

    ghost predicate Valid()
      reads this
    {
      State().Inverted()
    }

    /** Strong materialization parity: all nine maps are equal. */
    predicate EquivalentTo(other: SubjectProfileIndex)
      reads this, other
    {
      && profiles == other.profiles
      && subjectPredicates == other.subjectPredicates
      && subjectEvidenceIds == other.subjectEvidenceIds
      && tokenPostings == other.tokenPostings
      && fragmentPostings == other.fragmentPostings
      && ngramPostings == other.ngramPostings
      && tokenPredicatePostings == other.tokenPredicatePostings
      && fragmentPredicatePostings == other.fragmentPredicatePostings
      && ngramPredicatePostings == other.ngramPredicatePostings
    }

    method SnapshotSubject(store: MemoryStore, s: string, trace: MaintenanceTrace)
      returns (profile: multiset<string>, predicates: set<string>, evidenceIds: set<string>)
      requires store.Valid()
      modifies trace
      ensures SubjectView(profile, predicates, evidenceIds) == Snapshot(store.evidence, store.assertions, s)
      ensures trace.Counted() == old(trace.Counted()).Plus(SnapshotWork(store.evidence, store.assertions, s))
    {
      hide Listed, Bag, EvidenceBy, PredicatesBy, ReferencesBy, Present;
      var items := store.AssertionsForSubject(s);
      trace.assertionsExamined := trace.assertionsExamined + |items|;
      var refs;
      predicates, evidenceIds, refs := CollectAssertions(store.assertions, IdsForSubject(store.assertions, s), items);
      trace.evidenceRefsExamined := trace.evidenceRefsExamined + refs;
      var records;
      profile, records := CollectEvidence(store.evidence, evidenceIds);
      trace.evidenceRecordsExamined := trace.evidenceRecordsExamined + records;
      trace.profileTokensExamined := trace.profileTokensExamined + |profile|;
    }

    /** One subject catches up with the store; the trace accounts for every record read and membership moved. */
    method RefreshSubject(store: MemoryStore, s: string) returns (trace: MaintenanceTrace)
      requires Valid() && store.Valid()
      modifies this
      ensures Valid()
      ensures CurrentViews().SameExceptAt(old(CurrentViews()), s, Snapshot(store.evidence, store.assertions, s))
      ensures fresh(trace)
      ensures trace.Counted() == RefreshWork(old(CurrentViews()).At(s), store.evidence, store.assertions, s)
      ensures var w := RefreshWork(old(CurrentViews()).At(s), store.evidence, store.assertions, s);
              && trace.subjectsRefreshed == w.subjectsRefreshed && trace.assertionsExamined == w.assertionsExamined
              && trace.evidenceRefsExamined == w.evidenceRefsExamined
              && trace.evidenceRecordsExamined == w.evidenceRecordsExamined
              && trace.profileTokensExamined == w.profileTokensExamined
              && trace.postingAdditions == w.postingAdditions && trace.postingRemovals == w.postingRemovals
              && trace.predicatePostingAdditions == w.predicatePostingAdditions
              && trace.predicatePostingRemovals == w.predicatePostingRemovals
    {
      hide Gained, GainedPairs, Snapshot, SnapshotWork, Moved, Carried, IndexState.Inverted;
      hide MemoryStore.Valid, Views.At, Views.Tidy;
      ghost var was := State();
      CarriedNow(was, s);
      trace := new MaintenanceTrace(1);
      var before := CurrentViews().At(s);
      var profile, predicates, evidenceIds := SnapshotSubject(store, s, trace);
      var after := SubjectView(profile, predicates, evidenceIds);
      PatchPostings(before, after, s, trace);
      StoreView(after, s);
      RefreshInverts(was, State(), s, after);
    }

    /** Patches the six posting maps from the old features of `s` to the new ones. */
    method PatchPostings(before: SubjectView, after: SubjectView, s: string, trace: MaintenanceTrace)
      requires Carried(State(), s, before)
      modifies `tokenPostings, `fragmentPostings, `ngramPostings,
               `tokenPredicatePostings, `fragmentPredicatePostings, `ngramPredicatePostings, trace
      ensures Relocated(old(State()), State(), s, after)
      ensures trace.Counted() == old(trace.Counted()).Plus(PatchWork(before, after))
    {
      hide Gained, GainedPairs;
      var a, r, pa, pr;
      var st' := State();
      st', a, r, pa, pr := PatchMaps(st', before, after, s);
      tokenPostings, fragmentPostings, ngramPostings := st'.token, st'.fragment, st'.ngram;
      tokenPredicatePostings := st'.tokenPredicate;
      fragmentPredicatePostings := st'.fragmentPredicate;
      ngramPredicatePostings := st'.ngramPredicate;
      trace.CountPostings(a, r, pa, pr);
    }

    /** The last step: an empty view component is dropped instead of stored. */
    method StoreView(view: SubjectView, s: string)
      requires CurrentViews().Tidy()
      modifies `profiles, `subjectPredicates, `subjectEvidenceIds
      ensures CurrentViews().SameExceptAt(old(CurrentViews()), s, view)
    {
      StoredSame(CurrentViews(), s, view);
      profiles := StoreBag(profiles, s, view.profile);
      subjectPredicates := StoreSet(subjectPredicates, s, view.predicates);
      subjectEvidenceIds := StoreSet(subjectEvidenceIds, s, view.evidenceIds);
    }

    /** A rebuild from scratch refreshes every subject the store knows. */
    constructor (store: MemoryStore)
      requires store.Valid()
      ensures Valid() && InSync(CurrentViews(), store.evidence, store.assertions)
      ensures fresh(buildTrace)
      ensures var order := Ranked(Subjects(store.assertions), map[]);
              buildTrace.Counted() == TotalWork(NOVIEWS, Canon(store.evidence, store.assertions), order, |order|)
    {
      hide Snapshot, RefreshWork, IndexState.Inverted, Covers, Ranked, First, MemoryStore.Valid, Views.At, Views.Tidy,
           TotalWork, Work.Plus, MaintenanceTrace.Counted;
      profiles, subjectPredicates, subjectEvidenceIds := map[], map[], map[];
      tokenPostings, fragmentPostings, ngramPostings := map[], map[], map[];
      tokenPredicatePostings, fragmentPredicatePostings, ngramPredicatePostings := map[], map[], map[];
      var trace := new MaintenanceTrace(0);
      buildTrace := trace;
      new;
      EmptyIndex(store.evidence, store.assertions);
      var order := store.SubjectIds();
      ghost var c, subjects := Canon(store.evidence, store.assertions), Subjects(store.assertions);
      TotalNone(NOVIEWS, c, order);
      FirstAll(subjects, map[]);
      var i := 0;
      while i < |order|
        invariant i <= |order|
        invariant Valid() && fresh(buildTrace)
        invariant Covers(CurrentViews(), store.evidence, store.assertions, First(order, i))
        invariant buildTrace.Counted() == TotalWork(NOVIEWS, c, order, i)
      {
        FirstStep(subjects, map[], i);
        ghost var was := CurrentViews();
        var refreshed := RefreshSubject(store, order[i]);
        CoversStep(was, CurrentViews(), store.evidence, store.assertions, First(order, i), order[i]);
        NotYetCovered(was, store.evidence, store.assertions, First(order, i), order[i]);
        TotalStep(NOVIEWS, was, c, order, i);
        buildTrace.Absorb(refreshed);
        i := i + 1;
      }
      CoversAll(CurrentViews(), store.evidence, store.assertions);
    }
  }

  /** The six posting maps of an index in terms of its stored profiles and predicates. */
  lemma MapsExactly(index: SubjectProfileIndex, f: string, p: string, s: string)
    requires index.Valid()
    ensures var known := s in index.profiles;
            var profile := if known then index.profiles[s] else multiset{};
            var carries := s in index.subjectPredicates && p in index.subjectPredicates[s];
            && (f in index.tokenPostings && s in index.tokenPostings[f] <==> f in FeaturesOf(Token, profile))
            && (f in index.fragmentPostings && s in index.fragmentPostings[f] <==> f in FeaturesOf(Fragment, profile))
            && (f in index.ngramPostings && s in index.ngramPostings[f] <==> f in FeaturesOf(Ngram, profile))
            && ((f, p) in index.tokenPredicatePostings && s in index.tokenPredicatePostings[(f, p)] <==>
                  carries && f in FeaturesOf(Token, profile))
            && ((f, p) in index.fragmentPredicatePostings && s in index.fragmentPredicatePostings[(f, p)] <==>
                  carries && f in FeaturesOf(Fragment, profile))
            && ((f, p) in index.ngramPredicatePostings && s in index.ngramPredicatePostings[(f, p)] <==>
                  carries && f in FeaturesOf(Ngram, profile))
  {
    hide FeaturesOf, IndexState.Inverted;
    var st := index.State();
    PostingsExact(st, Token, f, p, s);
    PostingsExact(st, Fragment, f, p, s);
    PostingsExact(st, Ngram, f, p, s);
  }

  lemma EmptyIndex(evidence: map<string, EvidenceRecord>, assertions: map<string, Assertion>)
    ensures IndexState(Views(map[], map[], map[]), map[], map[], map[], map[], map[], map[]).Inverted()
    ensures Covers(Views(map[], map[], map[]), evidence, assertions, {})
  {
    var st := IndexState(Views(map[], map[], map[]), map[], map[], map[], map[], map[], map[]);
    forall channel
      ensures Inverts(st.Plain(channel), FeatureMap(st.views, channel))
      ensures Inverts(st.Narrowed(channel), PairMap(st.views, channel))
    {
    }
  }

  lemma NotYetCovered(views: Views, evidence: map<string, EvidenceRecord>, assertions: map<string, Assertion>,
                      done: set<string>, s: string)
    requires Covers(views, evidence, assertions, done) && s !in done
    ensures views.At(s) == NOVIEWS.At(s)
  {
  }

  lemma CoversStep(views: Views, views': Views, evidence: map<string, EvidenceRecord>,
                   assertions: map<string, Assertion>, done: set<string>, s: string)
    requires Covers(views, evidence, assertions, done)
    requires views'.SameExceptAt(views, s, Snapshot(evidence, assertions, s))
    ensures Covers(views', evidence, assertions, done + {s})
  {
  }

  /** The subjects in `done` are up to date and nothing is stored about the others. */
  ghost predicate Covers(views: Views, evidence: map<string, EvidenceRecord>, assertions: map<string, Assertion>,
                         done: set<string>) {
    && views.Tidy()
    && forall s :: views.At(s) == if s in done then Snapshot(evidence, assertions, s) else BLANK
  }

  lemma CoversAll(views: Views, evidence: map<string, EvidenceRecord>, assertions: map<string, Assertion>)
    requires Covers(views, evidence, assertions, Subjects(assertions))
    ensures InSync(views, evidence, assertions)
  {
    forall s ensures views.At(s) == Snapshot(evidence, assertions, s) {
      if s !in Subjects(assertions) {
        UnknownSubjectIsBlank(evidence, assertions, s);
      }
    }
  }

  lemma UnknownSubjectIsBlank(evidence: map<string, EvidenceRecord>, assertions: map<string, Assertion>, s: string)
    requires s !in Subjects(assertions)
    ensures Snapshot(evidence, assertions, s) == BLANK
  {
    assert IdsForSubject(assertions, s) == {};
    assert EvidenceBy(assertions, {}) == {};
  }

  /** `s` sits in exactly the postings its view calls for, in all six maps. */
  ghost predicate Carried(st: IndexState, s: string, view: SubjectView) {
    forall channel :: Carries(st.Plain(channel), s, FeaturesOf(channel, view.profile)) &&
                      Carries(st.Narrowed(channel), s, PairsOf(channel, view))
  }

  lemma CarriedNow(st: IndexState, s: string)
    requires st.Inverted()
    ensures st.views.Tidy() && Carried(st, s, st.views.At(s))
  {
    forall channel
      ensures Carries(st.Plain(channel), s, FeaturesOf(channel, st.views.At(s).profile))
      ensures Carries(st.Narrowed(channel), s, PairsOf(channel, st.views.At(s)))
    {
      FeatureMapAt(st.views, channel, s);
    }
  }

  lemma CarriedMaps(st: IndexState, s: string, view: SubjectView)
    requires Carried(st, s, view)
    ensures Carries(st.token, s, FeaturesOf(Token, view.profile))
    ensures Carries(st.fragment, s, FeaturesOf(Fragment, view.profile))
    ensures Carries(st.ngram, s, FeaturesOf(Ngram, view.profile))
    ensures Carries(st.tokenPredicate, s, PairsOf(Token, view))
    ensures Carries(st.fragmentPredicate, s, PairsOf(Fragment, view))
    ensures Carries(st.ngramPredicate, s, PairsOf(Ngram, view))
  {
    assert st.Plain(Token) == st.token && st.Narrowed(Token) == st.tokenPredicate;
    assert st.Plain(Fragment) == st.fragment && st.Narrowed(Fragment) == st.fragmentPredicate;
    assert st.Plain(Ngram) == st.ngram && st.Narrowed(Ngram) == st.ngramPredicate;
  }

  /** All six maps differ only in that `s` now sits where `view` calls for. */
  ghost predicate Relocated(a: IndexState, b: IndexState, s: string, view: SubjectView) {
    && (forall channel :: Moved(a.Plain(channel), b.Plain(channel), s, FeaturesOf(channel, view.profile)))
    && (forall channel :: Moved(a.Narrowed(channel), b.Narrowed(channel), s, PairsOf(channel, view)))
  }

  lemma RelocatedMaps(a: IndexState, b: IndexState, s: string, view: SubjectView)
    requires Moved(a.token, b.token, s, FeaturesOf(Token, view.profile))
    requires Moved(a.fragment, b.fragment, s, FeaturesOf(Fragment, view.profile))
    requires Moved(a.ngram, b.ngram, s, FeaturesOf(Ngram, view.profile))
    requires Moved(a.tokenPredicate, b.tokenPredicate, s, PairsOf(Token, view))
    requires Moved(a.fragmentPredicate, b.fragmentPredicate, s, PairsOf(Fragment, view))
    requires Moved(a.ngramPredicate, b.ngramPredicate, s, PairsOf(Ngram, view))
    ensures Relocated(a, b, s, view)
  {
    forall channel
      ensures Moved(a.Plain(channel), b.Plain(channel), s, FeaturesOf(channel, view.profile))
      ensures Moved(a.Narrowed(channel), b.Narrowed(channel), s, PairsOf(channel, view))
    {
      match channel
      case Token =>
      case Fragment =>
      case Ngram =>
    }
  }

  method PatchMaps(st: IndexState, before: SubjectView, after: SubjectView, s: string)
    returns (st': IndexState, additions: nat, removals: nat, pairAdditions: nat, pairRemovals: nat)
    requires Carried(st, s, before)
    ensures st'.views == st.views && Relocated(st, st', s, after)
    ensures additions == Gained(before, after) && removals == Gained(after, before)
    ensures pairAdditions == GainedPairs(before, after) && pairRemovals == GainedPairs(after, before)
  {
    hide FeaturesOf, Pairs, Moved, Carries, Carried;
    var oldTokens, oldFragments, oldGrams := Features(before.profile);
    var newTokens, newFragments, newGrams := Features(after.profile);
    CarriedMaps(st, s, before);
    var t, f, g;
    t, f, g, additions, removals := PatchThree(st.token, st.fragment, st.ngram,
      oldTokens, oldFragments, oldGrams, newTokens, newFragments, newGrams, s);
    var tp, fp, gp;
    tp, fp, gp, pairAdditions, pairRemovals := PatchThree(
      st.tokenPredicate, st.fragmentPredicate, st.ngramPredicate,
      Pairs(oldTokens, before.predicates), Pairs(oldFragments, before.predicates), Pairs(oldGrams, before.predicates),
      Pairs(newTokens, after.predicates), Pairs(newFragments, after.predicates), Pairs(newGrams, after.predicates), s);
    st' := IndexState(st.views, t, f, g, tp, fp, gp);
    RelocatedMaps(st, st', s, after);
  }

  /** The words of a profile, their fragments and their character n-grams. */
  method Features(profile: multiset<string>)
    returns (tokens: set<string>, fragments: set<string>, grams: set<string>)
    ensures tokens == FeaturesOf(Token, profile)
    ensures fragments == FeaturesOf(Fragment, profile)
    ensures grams == FeaturesOf(Ngram, profile)
  {
    hide Fragments, Ngrams, Expanded, FeaturesOf;
    tokens := set t | t in profile;
    TokensAreThemselves(profile);
    fragments, grams := {}, {};
    var todo := tokens;
    assert tokens - todo == {};
    while todo != {}
      invariant todo <= tokens
      invariant fragments == Expanded(Fragment, tokens - todo)
      invariant grams == Expanded(Ngram, tokens - todo)
      decreases |todo|
    {
      var t :| t in todo;
      fragments := fragments + Fragments(t);
      grams := grams + Ngrams(t);
      ExpandOne(tokens - todo, t);
      assert tokens - (todo - {t}) == tokens - todo + {t};
      todo := todo - {t};
    }
    assert tokens - {} == tokens;
  }

  lemma TokensAreThemselves(profile: multiset<string>)
    ensures FeaturesOf(Token, profile) == set t | t in profile
    ensures forall channel :: Expanded(channel, {}) == {}
    ensures forall channel :: FeaturesOf(channel, profile) == Expanded(channel, set t | t in profile)
  {
    forall t ensures t in FeaturesOf(Token, profile) <==> t in profile {
      assert t in Expand(Token, t);
    }
  }

  ghost function Expanded(channel: Channel, tokens: set<string>): set<string> {
    set t, f | t in tokens && f in Expand(channel, t) :: f
  }

  lemma ExpandOne(done: set<string>, t: string)
    ensures forall channel :: Expanded(channel, done + {t}) == Expanded(channel, done) + Expand(channel, t)
  {
  }

  /** The loop over a subject's assertions. */
  method CollectAssertions(assertions: map<string, Assertion>, ghost ids: set<string>, items: seq<Assertion>)
    returns (predicates: set<string>, evidenceIds: set<string>, refs: nat)
    requires AssertionsKeyed(assertions) && ids <= assertions.Keys && items == Listed(assertions, ids)
    ensures predicates == PredicatesBy(assertions, ids)
    ensures evidenceIds == EvidenceBy(assertions, ids)
    ensures refs == |ReferencesBy(assertions, ids)|
    ensures |items| == |ids|
  {
    hide ReferencesOf, Ranked, First, Before, ReferencesBy;
    predicates, evidenceIds, refs := {}, {}, 0;
    ghost var order := Ranked(ids, SeqRank(assertions));
    ghost var done: set<string> := {};
    var i := 0;
    NoReferences(assertions);
    FirstAll(ids, SeqRank(assertions));
    while i < |items|
      invariant i <= |items| == |order|
      invariant done == First(order, i)
      invariant predicates == PredicatesBy(assertions, done)
      invariant evidenceIds == EvidenceBy(assertions, done)
      invariant refs == |ReferencesBy(assertions, done)|
    {
      ghost var id := order[i];
      FirstStep(ids, SeqRank(assertions), i);
      predicates := predicates + {items[i].predicateId};
      refs := refs + |items[i].evidenceIds|;
      evidenceIds := evidenceIds + set e | e in items[i].evidenceIds;
      ReferencesStep(assertions, done, id);
      CollectStep(assertions, done, id);
      done := done + {id};
      i := i + 1;
    }
    FirstAll(ids, SeqRank(assertions));
  }

  lemma NoReferences(assertions: map<string, Assertion>)
    ensures ReferencesBy(assertions, {}) == {}
  {
  }

  lemma CollectStep(assertions: map<string, Assertion>, done: set<string>, id: string)
    requires id in assertions
    ensures PredicatesBy(assertions, done + {id}) == PredicatesBy(assertions, done) + {assertions[id].predicateId}
    ensures EvidenceBy(assertions, done + {id}) ==
            EvidenceBy(assertions, done) + set e | e in assertions[id].evidenceIds
  {
  }

  lemma PresentStep(evidence: map<string, EvidenceRecord>, done: set<string>, e: string)
    requires e !in done
    ensures |Present(evidence, done + {e})| == |Present(evidence, done)| + if e in evidence then 1 else 0
  {
    if e in evidence {
      assert Present(evidence, done + {e}) == Present(evidence, done) + {e};
    } else {
      assert Present(evidence, done + {e}) == Present(evidence, done);
    }
  }

  /** The loop over the sorted evidence ids. */
  method CollectEvidence(evidence: map<string, EvidenceRecord>, evidenceIds: set<string>)
    returns (profile: multiset<string>, records: nat)
    ensures profile == Bag(evidence, evidenceIds)
    ensures records == |Present(evidence, evidenceIds)|
  {
    hide Lexical, Ranked, First;
    profile, records := multiset{}, 0;
    var order := SortIds(evidenceIds, map[]);
    ghost var done: set<string> := {};
    var i := 0;
    assert Present(evidence, {}) == {};
    FirstAll(evidenceIds, map[]);
    while i < |order|
      invariant i <= |order|
      invariant done == First(order, i)
      invariant profile == Bag(evidence, done)
      invariant records == |Present(evidence, done)|
    {
      var e := order[i];
      FirstStep(evidenceIds, map[], i);
      BagAdd(evidence, done, e);
      PresentStep(evidence, done, e);
      if e in evidence {
        records := records + 1;
        profile := profile + multiset(Lexical(evidence[e].payload));
      }
      done := done + {e};
      i := i + 1;
    }
    FirstAll(evidenceIds, map[]);
  }
}
