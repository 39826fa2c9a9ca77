/**
 What one subject looks like to the addressability index, computed directly from the
 canonical fields: the bag of lexical tokens of the evidence it cites (each evidence record
 once), the predicates it carries and the evidence ids it cites.
 */
module Snapshots {
  import opened Models
  import opened References
  import opened Storage
  import opened Lexicon

  datatype SubjectView = SubjectView(profile: multiset<string>, predicates: set<string>,
                                     evidenceIds: set<string>)

  const BLANK := SubjectView(multiset{}, {}, {})

  ghost function PredicatesBy(assertions: map<string, Assertion>, ids: set<string>): set<string> {
    set id | id in ids && id in assertions :: assertions[id].predicateId
  }

  ghost function EvidenceBy(assertions: map<string, Assertion>, ids: set<string>): set<string> {
    set id, e | id in ids && id in assertions && e in assertions[id].evidenceIds :: e
  }

  ghost function ReferencesBy(assertions: map<string, Assertion>, ids: set<string>): set<Reference> {
    set r | r in ReferencesOf(assertions) && r.assertionId in ids
  }

  ghost function Present(evidence: map<string, EvidenceRecord>, eids: set<string>): set<string> {
    set e | e in eids && e in evidence
  }

  /** The lexical tokens of one evidence id; a missing record contributes none. */
  function Words(evidence: map<string, EvidenceRecord>, e: string): multiset<string> {
    if e in evidence then multiset(Lexical(evidence[e].payload)) else multiset{}
  }

  ghost function Bag(evidence: map<string, EvidenceRecord>, eids: set<string>): multiset<string> {
    if eids == {} then multiset{} else
      var e :| e in eids;
      Words(evidence, e) + Bag(evidence, eids - {e})
  }

  /** The bag does not depend on the order in which evidence is added. */
  lemma {:induction false} BagAdd(evidence: map<string, EvidenceRecord>, eids: set<string>, e: string)
    requires e !in eids
    ensures Bag(evidence, eids + {e}) == Bag(evidence, eids) + Words(evidence, e)
    decreases |eids|
  {
    hide Words;
    var all := eids + {e};
    var c :| c in all && Bag(evidence, all) == Words(evidence, c) + Bag(evidence, all - {c});
    if c == e {
      assert all - {c} == eids;
    } else {
      assert all - {c} == (eids - {c}) + {e};
      BagAdd(evidence, eids - {c}, e);
      assert (eids - {c}) + {c} == eids;
      BagAdd(evidence, eids - {c}, c);
    }
  }

  lemma {:induction false} BagFrame(e1: map<string, EvidenceRecord>, e2: map<string, EvidenceRecord>,
                                    eids: set<string>)
    requires forall e :: e in eids ==> Words(e1, e) == Words(e2, e)
    ensures Bag(e1, eids) == Bag(e2, eids)
    decreases |eids|
  {
    hide Words;
    if eids != {} {
      var c :| c in eids && Bag(e1, eids) == Words(e1, c) + Bag(e1, eids - {c});
      BagFrame(e1, e2, eids - {c});
      BagAdd(e2, eids - {c}, c);
      assert (eids - {c}) + {c} == eids;
    }
  }

  lemma {:induction false} InBag(evidence: map<string, EvidenceRecord>, eids: set<string>, t: string)
    ensures t in Bag(evidence, eids) <==> exists e :: e in eids && t in Words(evidence, e)
    decreases |eids|
  {
    if eids != {} {
      var c :| c in eids && Bag(evidence, eids) == Words(evidence, c) + Bag(evidence, eids - {c});
      InBag(evidence, eids - {c}, t);
    }
  }

  ghost function Snapshot(evidence: map<string, EvidenceRecord>, assertions: map<string, Assertion>,
                          s: string): SubjectView {
    var ids := IdsForSubject(assertions, s);
    SubjectView(Bag(evidence, EvidenceBy(assertions, ids)), PredicatesBy(assertions, ids),
                EvidenceBy(assertions, ids))
  }

  /** The three feature channels of a profile. */
  datatype Channel = Token | Fragment | Ngram

  function Expand(channel: Channel, token: string): set<string> {
    match channel
    case Token => {token}
    case Fragment => Fragments(token)
    case Ngram => Ngrams(token)
  }

  function FeaturesOf(channel: Channel, profile: multiset<string>): set<string> {
    set t, f | t in profile && f in Expand(channel, t) :: f
  }

  function Pairs(features: set<string>, predicates: set<string>): set<(string, string)> {
    set f, p | f in features && p in predicates :: (f, p)
  }

  function PairsOf(channel: Channel, view: SubjectView): set<(string, string)> {
    Pairs(FeaturesOf(channel, view.profile), view.predicates)
  }

  /** The token features of a profile are its words. */
  lemma TokenFeatures(profile: multiset<string>, f: string)
    ensures f in FeaturesOf(Token, profile) <==> f in profile
  {
    assert f in Expand(Token, f);
  }

  /** The fragment features are the separator-free stretches of three or more characters in its words. */
  lemma FragmentFeatures(profile: multiset<string>, f: string)
    ensures f in FeaturesOf(Fragment, profile) <==>
            |f| >= 3 && exists t, a, b ::
              && t in profile && 0 <= a < b <= |t| && t[a..b] == f
              && (forall k :: a <= k < b ==> t[k] != '-' && t[k] != '_')
              && (a == 0 || t[a - 1] == '-' || t[a - 1] == '_')
              && (b == |t| || t[b] == '-' || t[b] == '_')
  {
    hide Fragments;
    forall t | t in profile { FragmentsExactly(t, f); }
    if f in FeaturesOf(Fragment, profile) {
      var t :| t in profile && f in Expand(Fragment, t);
    }
    if t :| t in profile && f in Fragments(t) {
      assert f in Expand(Fragment, t);
    }
  }

  /** The n-gram features are the substrings of four characters, or the whole of a shorter word. */
  lemma NgramFeatures(profile: multiset<string>, f: string)
    ensures f in FeaturesOf(Ngram, profile) <==>
            f != "" && exists t, i, j ::
              t in profile && 0 <= i <= j <= |t| && t[i..j] == f && j - i == if |t| < 4 then |t| else 4
  {
    hide Ngrams;
    forall t | t in profile { NgramsExact(t, f); }
    if f in FeaturesOf(Ngram, profile) {
      var t :| t in profile && f in Expand(Ngram, t);
      var i :| OccursAt(f, t, i);
      assert t[i..i + |f|] == f;
    }
    if t, i, j :|
      f != "" && t in profile && 0 <= i <= j <= |t| && t[i..j] == f && j - i == if |t| < 4 then |t| else 4 {
      assert OccursAt(f, t, i);
      assert f in Expand(Ngram, t);
    }
  }

  /**
   A view in terms of the records: words of present cited evidence, predicates and evidence
   ids of the subject's assertions.
   */
  lemma SnapshotExactly(evidence: map<string, EvidenceRecord>, assertions: map<string, Assertion>, s: string, x: string)
    ensures var v := Snapshot(evidence, assertions, s);
            && (x in v.predicates <==>
                  exists id :: id in assertions && assertions[id].subjectId == s && assertions[id].predicateId == x)
            && (x in v.evidenceIds <==>
                  exists id :: id in assertions && assertions[id].subjectId == s && x in assertions[id].evidenceIds)
            && (x in v.profile <==>
                  exists e :: e in v.evidenceIds && e in evidence && x in Lexical(evidence[e].payload))
  {
    hide Lexical;
    var ids := IdsForSubject(assertions, s);
    InBag(evidence, EvidenceBy(assertions, ids), x);
    if id :| id in assertions && assertions[id].subjectId == s && assertions[id].predicateId == x {
      assert id in ids;
    }
    if id :| id in assertions && assertions[id].subjectId == s && x in assertions[id].evidenceIds {
      assert id in ids;
    }
  }

  /** Each cited record adds its words once more, a missing one none: with no evidence there are no words. */
  lemma BagExactly(evidence: map<string, EvidenceRecord>, eids: set<string>, e: string)
    requires e !in eids
    ensures Bag(evidence, {}) == multiset{}
    ensures Bag(evidence, eids + {e}) ==
            Bag(evidence, eids) + if e in evidence then multiset(Lexical(evidence[e].payload)) else multiset{}
  {
    hide Lexical;
    BagAdd(evidence, eids, e);
  }

  lemma NoProfileNoFeatures(channel: Channel, view: SubjectView)
    requires view.profile == multiset{}
    ensures FeaturesOf(channel, view.profile) == {} && PairsOf(channel, view) == {}
  {
  }

  lemma ReferencesStep(assertions: map<string, Assertion>, done: set<string>, id: string)
    requires AssertionsKeyed(assertions) && id in assertions && id !in done
    ensures |ReferencesBy(assertions, done + {id})| ==
            |ReferencesBy(assertions, done)| + |assertions[id].evidenceIds|
  {
    var item := assertions[id];
    var window := Window(item, 0, |item.evidenceIds|);
    forall r ensures r in ReferencesBy(assertions, done + {id}) <==>
                     r in ReferencesBy(assertions, done) + window {
    }
    assert ReferencesBy(assertions, done + {id}) == ReferencesBy(assertions, done) + window;
    assert ReferencesBy(assertions, done) !! window;
    WindowSize(item, |item.evidenceIds|);
  }

  lemma {:induction false} WindowSize(item: Assertion, n: nat)
    requires n <= |item.evidenceIds|
    ensures |Window(item, 0, n)| == n
  {
    if n == 0 {
      assert Window(item, 0, 0) == {};
    } else {
      WindowSize(item, n - 1);
      assert Window(item, 0, n) == Window(item, 0, n - 1) +
             {Reference(item.id, n - 1, item.evidenceIds[n - 1], item.subjectId)};
    }
  }
}
