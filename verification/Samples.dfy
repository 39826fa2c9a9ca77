/**
 Concrete stores, each subject backed by one assertion and one evidence record that speaks a
 given list of words, and what their indexes hold.
 */
module Samples {
  import opened Prelude
  import opened Models
  import opened Lexicon
  import opened Storage
  import opened Snapshots
  import opened ProfileIndex
  import opened Scoring
  import opened ResolutionFacts

  // ----- texts of given words

  /** A lower-case word that is not a stop word. */
  ghost predicate PlainWord(w: string) {
    w != "" && (forall k :: 0 <= k < |w| ==> 'a' <= w[k] <= 'z') && !IsStop(w)
  }

  ghost predicate PlainWords(words: seq<string>) {
    forall k :: 0 <= k < |words| ==> PlainWord(words[k])
  }

  /** The words with one space between neighbours. */
  ghost function Join(words: seq<string>): string {
    if words == [] then ""
    else if |words| == 1 then words[0]
    else words[0] + (" " + Join(words[1..]))
  }

  lemma {:induction false} RunEndAt(s: string, inRun: char -> bool, i: nat, j: nat)
    requires i <= j <= |s| && (forall k :: i <= k < j ==> inRun(s[k])) && (j < |s| ==> !inRun(s[j]))
    ensures RunEnd(s, inRun, i) == j
    decreases j - i
  {
    if i < j {
      RunEndAt(s, inRun, i + 1, j);
    }
  }

  lemma {:induction false} RunEndBehind(p: string, s: string, inRun: char -> bool, i: nat)
    requires i <= |s|
    ensures RunEnd(p + s, inRun, |p| + i) == |p| + RunEnd(s, inRun, i)
    decreases |s| - i
  {
    if i < |s| {
      assert (p + s)[|p| + i] == s[i];
      if inRun(s[i]) {
        RunEndBehind(p, s, inRun, i + 1);
      }
    }
  }

  /** One step of the scan. */
  lemma RunsStep(s: string, inRun: char -> bool, i: nat)
    requires i < |s|
    ensures RunsFrom(s, inRun, i) ==
            if !inRun(s[i]) then RunsFrom(s, inRun, i + 1)
            else [s[i..RunEnd(s, inRun, i + 1)]] + RunsFrom(s, inRun, RunEnd(s, inRun, i + 1))
  {
  }

  /** Scanning starts afresh behind a prefix. */
  lemma {:induction false} RunsBehind(p: string, s: string, inRun: char -> bool, i: nat)
    requires i <= |s|
    ensures RunsFrom(p + s, inRun, |p| + i) == RunsFrom(s, inRun, i)
    decreases |s| - i
  {
    if i < |s| {
      hide RunEnd, RunsFrom;
      RunsStep(s, inRun, i);
      RunsStep(p + s, inRun, |p| + i);
      assert (p + s)[|p| + i] == s[i];
      if !inRun(s[i]) {
        RunsBehind(p, s, inRun, i + 1);
      } else {
        var j := RunEnd(s, inRun, i + 1);
        RunEndBehind(p, s, inRun, i + 1);
        assert (p + s)[|p| + i..|p| + j] == s[i..j];
        RunsBehind(p, s, inRun, j);
      }
    }
  }

  /** A word, a space and the rest are cut into the word and the runs of the rest. */
  lemma RunsOfWord(w: string, rest: string)
    requires PlainWord(w)
    ensures RunsFrom(w, TOKEN_CLASS, 0) == [w]
    ensures RunsFrom(w + (" " + rest), TOKEN_CLASS, 0) == [w] + RunsFrom(rest, TOKEN_CLASS, 0)
  {
    RunEndAt(w, TOKEN_CLASS, 1, |w|);
    assert w[0..|w|] == w;
    var t := w + (" " + rest);
    assert t[|w|] == ' ';
    forall k | 0 <= k < |w| ensures TOKEN_CLASS(t[k]) {
      assert t[k] == w[k];
    }
    RunEndAt(t, TOKEN_CLASS, 1, |w|);
    assert t[0..|w|] == w;
    assert RunsFrom(t, TOKEN_CLASS, |w|) == RunsFrom(t, TOKEN_CLASS, |w| + 1);
    assert t == (w + " ") + rest;
    RunsBehind(w + " ", rest, TOKEN_CLASS, 0);
  }

  lemma {:induction false} RunsOfWords(words: seq<string>)
    requires PlainWords(words)
    ensures RunsFrom(Join(words), TOKEN_CLASS, 0) == words
    decreases |words|
  {
    hide PlainWord;
    if words != [] {
      RunsOfWords(words[1..]);
      RunsOfWord(words[0], Join(words[1..]));
      assert words == [words[0]] + words[1..];
      if |words| == 1 {
        assert words == [words[0]];
      }
    }
  }

  lemma LowerPlain(w: string)
    requires PlainWord(w)
    ensures LowerAll(w) == w
  {
    hide IsStop;
  }

  lemma {:induction false} PlainKept(words: seq<string>)
    requires PlainWords(words)
    ensures LowerEach(words) == words && WithoutStop(words) == words
  {
    hide IsStop;
    if words != [] {
      PlainKept(words[1..]);
      LowerPlain(words[0]);
      assert words == [words[0]] + words[1..];
      assert LowerEach(words) == [LowerAll(words[0])] + LowerEach(words[1..]);
    }
  }

  /** Saying words and taking the lexical tokens gives the words back. */
  lemma SpokenLexical(words: seq<string>)
    requires PlainWords(words)
    ensures Lexical(Join(words)) == words
  {
    hide PlainWords;
    RunsOfWords(words);
    PlainKept(words);
  }

  /** A word of the letter `x`. */
  ghost function Xs(k: nat): (w: string)
    ensures |w| == k && forall i :: 0 <= i < k ==> w[i] == 'x'
  {
    seq(k, _ => 'x')
  }

  lemma XsPlain(k: nat)
    requires k > 0
    ensures PlainWord(Xs(k))
  {
    assert Xs(k)[0] == 'x';
  }

  lemma YPlain()
    ensures PlainWord("y")
  {
  }

  // ----- stores and their indexes

  ghost function EvidenceFor(texts: map<string, seq<string>>): map<string, EvidenceRecord> {
    map s | s in texts :: EvidenceRecord(s, Join(texts[s]), "source", 0, None, "default", "active")
  }

  ghost function AssertionsFor(texts: map<string, seq<string>>): map<string, Assertion> {
    map s | s in texts ::
      Assertion(s, s, "value", "1", 0, None, None, "asserted", "positive", [s], "oracle-v1")
  }

  lemma SampleKeyed(texts: map<string, seq<string>>)
    ensures EvidenceKeyed(EvidenceFor(texts)) && AssertionsKeyed(AssertionsFor(texts))
  {
  }

  ghost predicate Spoken(texts: map<string, seq<string>>) {
    forall s :: s in texts ==> texts[s] != [] && PlainWords(texts[s])
  }

  /** A question put to the index of a store. */
  ghost function Asking(evidence: map<string, EvidenceRecord>, assertions: map<string, Assertion>, log: real -> real,
                        broadLimit: nat, predicateId: Option<string>, question: string): Query {
    Query(IndexOf(evidence, assertions), log, broadLimit, predicateId, Lexical(question))
  }

  ghost function AskingAbout(texts: map<string, seq<string>>, log: real -> real, broadLimit: nat,
                             words: seq<string>): Query {
    Asking(EvidenceFor(texts), AssertionsFor(texts), log, broadLimit, None, Join(words))
  }

  lemma SampleSnapshot(texts: map<string, seq<string>>, s: string)
    requires Spoken(texts)
    ensures Snapshot(EvidenceFor(texts), AssertionsFor(texts), s) ==
            if s in texts then SubjectView(multiset(texts[s]), {"value"}, {s}) else BLANK
  {
    hide Lexical, Join, PlainWords;
    var evidence, assertions := EvidenceFor(texts), AssertionsFor(texts);
    if s in texts {
      var ids := IdsForSubject(assertions, s);
      assert ids == {s};
      assert s in ids && s in assertions && s in assertions[s].evidenceIds;
      assert forall e :: e in EvidenceBy(assertions, ids) <==> e == s;
      assert EvidenceBy(assertions, ids) == {s};
      assert PredicatesBy(assertions, ids) == {"value"};
      BagAdd(evidence, {}, s);
      assert {} + {s} == {s};
      SpokenLexical(texts[s]);
    } else {
      UnknownSubjectIsBlank(evidence, assertions, s);
    }
  }

  lemma Asked(texts: map<string, seq<string>>, log: real -> real, broadLimit: nat, words: seq<string>)
    requires PlainWords(words)
    ensures var q := AskingAbout(texts, log, broadLimit, words);
            && q.log == log && q.broadLimit == broadLimit && q.predicateId == None && q.tokens == words
            && q.st == IndexOf(EvidenceFor(texts), AssertionsFor(texts))
  {
    hide Lexical, IndexOf, PlainWords;
    SpokenLexical(words);
  }

  /** The index of such a store profiles every subject by the words of its text. */
  lemma SampleIndex(texts: map<string, seq<string>>, log: real -> real, broadLimit: nat, words: seq<string>)
    requires LogLike(log) && Spoken(texts)
    ensures var q := AskingAbout(texts, log, broadLimit, words);
            && q.WellFormed()
            && InSync(q.st.views, EvidenceFor(texts), AssertionsFor(texts))
            && q.st.views.profiles.Keys == Eligible(q.st, None) == texts.Keys
            && forall s :: s in texts ==> q.st.views.At(s).profile == multiset(texts[s])
  {
    hide Lexical, Snapshot, IndexOf, IndexState.Inverted, LogLike, Spoken;
    var q := AskingAbout(texts, log, broadLimit, words);
    IndexOfInverted(EvidenceFor(texts), AssertionsFor(texts));
    SyncedTidy(q.st.views, EvidenceFor(texts), AssertionsFor(texts));
    forall s
      ensures q.st.views.At(s).profile == if s in texts then multiset(texts[s]) else multiset{}
      ensures s in q.st.views.profiles <==> s in texts
    {
      SampleSnapshot(texts, s);
      assert q.st.views.At(s) == Snapshot(EvidenceFor(texts), AssertionsFor(texts), s);
      if s in texts {
        assert texts[s] != [] by { SaysSomething(texts, s); }
        assert texts[s][0] in multiset(texts[s]);
      }
    }
  }

  lemma SaysSomething(texts: map<string, seq<string>>, s: string)
    requires Spoken(texts) && s in texts
    ensures texts[s] != []
  {
  }

  /** A word is posted under exactly the subjects whose text contains it. */
  lemma SampleLook(texts: map<string, seq<string>>, log: real -> real, broadLimit: nat, words: seq<string>,
                   t: string, holders: set<string>)
    requires LogLike(log) && Spoken(texts) && PlainWords(words)
    requires holders <= texts.Keys && forall s :: s in texts ==> (t in texts[s] <==> s in holders)
    ensures AskingAbout(texts, log, broadLimit, words).Look(Token, t) == holders
  {
    hide LogLike, AskingAbout, Query.WellFormed, Query.Look, Eligible, Views.At, Spoken, PlainWords;
    SampleIndex(texts, log, broadLimit, words);
    Asked(texts, log, broadLimit, words);
    var q := AskingAbout(texts, log, broadLimit, words);
    LookFrom(q, t, holders);
  }

  lemma LookFrom(q: Query, t: string, holders: set<string>)
    requires q.WellFormed() && q.predicateId == None
    requires holders <= q.st.views.profiles.Keys
    requires forall s :: s in q.st.views.profiles ==> (t in q.st.views.At(s).profile <==> s in holders)
    ensures q.Look(Token, t) == holders
  {
    hide Views.At, Looked, Query.WellFormed, IndexState.Inverted;
    assert q.st.Inverted() by { WellFormedIndex(q); }
    forall s ensures s in q.Look(Token, t) <==> s in holders {
      LookedExact(q.st, Token, t, None, s);
      InTokenFeatures(q.st.views.At(s).profile, t);
    }
  }

  lemma WellFormedIndex(q: Query)
    requires q.WellFormed()
    ensures q.st.Inverted()
  {
  }
}
