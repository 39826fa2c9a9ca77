/**
 What the planner's lookups mean: which postings are narrow enough to expand, what each
 subject scores, and how many lookups a question costs.  Everything is a function of the
 index maps, the question's tokens and the planner's limits.
 */
module Scoring {
  import opened Prelude
  import opened Postings
  import opened Snapshots
  import opened ProfileIndex

  /** All that is used of the natural logarithm. */
  ghost predicate LogLike(log: real -> real) {
    log(1.0) == 0.0 && forall x, y :: 0.0 < x <= y ==> log(x) <= log(y)
  }

  function Larger(a: nat, b: nat): nat {
    if a >= b then a else b
  }

  /** Inverse document frequency, computed lazily from current cardinalities. */
  function Idf(st: IndexState, log: real -> real, token: string): real {
    log((1 + Larger(|st.views.profiles|, 1)) as real / (1 + |Posting(st.token, token)|) as real) + 1.0
  }

  /** The posting consulted for a feature: narrowed to a predicate when one is known. */
  function Looked(st: IndexState, channel: Channel, feature: string, predicateId: Option<string>): set<string> {
    match predicateId
    case None => Posting(st.Plain(channel), feature)
    case Some(p) => Posting(st.Narrowed(channel), (feature, p))
  }

  /** The subjects a plan may resolve to. */
  ghost function Eligible(st: IndexState, predicateId: Option<string>): set<string> {
    set s | s in st.views.profiles && (predicateId.None? || predicateId.value in st.views.At(s).predicates)
  }

  /** A posting holds exactly the eligible subjects that yield the feature. */
  lemma LookedExact(st: IndexState, channel: Channel, f: string, predicateId: Option<string>, s: string)
    requires st.Inverted()
    ensures s in Looked(st, channel, f, predicateId) <==>
            s in Eligible(st, predicateId) && f in FeaturesOf(channel, st.views.At(s).profile)
  {
    if predicateId.Some? {
      PostingsExact(st, channel, f, predicateId.value, s);
      assert Has(st.Narrowed(channel), (f, predicateId.value), s) <==>
             s in Posting(st.Narrowed(channel), (f, predicateId.value));
    } else {
      PostingsExact(st, channel, f, "", s);
      assert Has(st.Plain(channel), f, s) <==> s in Posting(st.Plain(channel), f);
    }
    if s !in st.views.profiles {
      NoProfileNoFeatures(channel, st.views.At(s));
    }
  }

  /** The document frequency of a token never exceeds the number of profiles. */
  lemma FrequencyBounded(st: IndexState, token: string)
    requires st.Inverted()
    ensures |Posting(st.token, token)| <= |st.views.profiles|
  {
    var posting := Posting(st.token, token);
    forall s | s in posting ensures s in st.views.profiles.Keys {
      LookedExact(st, Token, token, None, s);
    }
    SubsetSize(posting, st.views.profiles.Keys);
  }

  lemma SubsetSize<T>(a: set<T>, b: set<T>)
    requires a <= b
    ensures |a| <= |b|
  {
    assert b == a + (b - a);
  }

  lemma IdfAtLeastOne(st: IndexState, log: real -> real, token: string)
    requires st.Inverted() && LogLike(log)
    ensures Idf(st, log, token) >= 1.0
  {
    hide IndexState.Inverted;
    FrequencyBounded(st, token);
    QuotientAtLeastOne((1 + Larger(|st.views.profiles|, 1)) as real, (1 + |Posting(st.token, token)|) as real);
  }

  lemma QuotientAtLeastOne(a: real, b: real)
    requires a >= b > 0.0
    ensures a / b >= 1.0
  {
  }

  /** The planner's configuration and the question it is asked. */
  datatype Query = Query(st: IndexState, log: real -> real, broadLimit: nat, predicateId: Option<string>,
                         tokens: seq<string>)
  {
    function Look(channel: Channel, feature: string): set<string> {
      Looked(st, channel, feature, predicateId)
    }

    /** The feature's posting is narrow and holds `s`. */
    predicate Hits(channel: Channel, feature: string, s: string) {
      s in Look(channel, feature) && |Look(channel, feature)| <= broadLimit
    }

    predicate Broad(channel: Channel, feature: string) {
      |Look(channel, feature)| > broadLimit
    }

    ghost predicate WellFormed() {
      st.Inverted() && LogLike(log)
    }

    /** Score from the first `n` exact tokens: four idf for each that hits. */
    ghost function TokenScore(n: nat, s: string): real
      requires n <= |tokens|
    {
      if n == 0 then 0.0 else
        TokenScore(n - 1, s) + if Hits(Token, tokens[n - 1], s) then 4.0 * Idf(st, log, tokens[n - 1]) else 0.0
    }

    /** The tokens among the first `n` that no posting knows, in order. */
    ghost function Missing(n: nat): seq<string>
      requires n <= |tokens|
    {
      if n == 0 then [] else
        Missing(n - 1) + if Look(Token, tokens[n - 1]) == {} then [tokens[n - 1]] else []
    }

    ghost function HitSet(channel: Channel, features: set<string>, s: string): set<string> {
      set f | f in features && Hits(channel, f, s)
    }

    /** Number of narrow features of the first `n` missing tokens that hold `s`. */
    ghost function RescueHits(channel: Channel, missing: seq<string>, n: nat, s: string): nat
      requires n <= |missing|
    {
      if n == 0 then 0 else
        RescueHits(channel, missing, n - 1, s) + |HitSet(channel, Expand(channel, missing[n - 1]), s)|
    }

    ghost function AllMissing(): seq<string> {
      Missing(|tokens|)
    }

    /** The generation score: four idf a token, three a fragment, one an n-gram. */
    ghost function Generated(s: string): real {
      TokenScore(|tokens|, s)
      + 3.0 * RescueHits(Fragment, AllMissing(), |AllMissing()|, s) as real
      + RescueHits(Ngram, AllMissing(), |AllMissing()|, s) as real
    }

    ghost function EntryPairs(channel: Channel, features: set<string>): set<(string, string)> {
      set f, s | f in features && s in Look(channel, f) && Hits(channel, f, s) :: (f, s)
    }

    ghost function BroadSet(channel: Channel, features: set<string>): set<string> {
      set f | f in features && Broad(channel, f)
    }

    ghost function TokenTotals(n: nat): Totals
      requires n <= |tokens|
    {
      if n == 0 then Totals(0, 0, 0) else
        var t := {tokens[n - 1]};
        TokenTotals(n - 1).Plus(Totals(1, |EntryPairs(Token, t)|, |BroadSet(Token, t)|))
    }

    ghost function RescueTotals(channel: Channel, missing: seq<string>, n: nat): Totals
      requires n <= |missing|
    {
      if n == 0 then Totals(0, 0, 0) else
        var fs := Expand(channel, missing[n - 1]);
        RescueTotals(channel, missing, n - 1).Plus(
          Totals(|fs|, |EntryPairs(channel, fs)|, |BroadSet(channel, fs)|))
    }

    /** How much of the question's words the profile of `s` contains, weighted by idf. */
    ghost function Exact(n: nat, s: string): real
      requires n <= |tokens|
    {
      if n == 0 then 0.0 else
        Exact(n - 1, s) +
        (var count := st.views.At(s).profile[tokens[n - 1]];
         if count > 0 then Idf(st, log, tokens[n - 1]) * (1.0 + log(count as real)) else 0.0)
    }

    /** The score subjects are finally compared by. */
    ghost function Final(s: string): real {
      Exact(|tokens|, s) + 0.1 * Generated(s)
    }
  }

  /** Lookups made, posting entries expanded, postings skipped as broad. */
  datatype Totals = Totals(lookups: nat, entries: nat, broad: nat) {
    function Plus(t: Totals): Totals {
      Totals(lookups + t.lookups, entries + t.entries, broad + t.broad)
    }
  }
}
