/** Planned retrieval, with and without the oracle plan, and adaptive budget doubling. */
module Adaptive {
  import opened Prelude
  import opened Models
  import opened Ranking
  import opened Storage
  import opened Retrieval
  import opened Coverage

  function Pow2(n: nat): nat {
    if n == 0 then 1 else 2 * Pow2(n - 1)
  }

  function NextBudget(budget: nat, maxBudget: nat): nat {
    Min(maxBudget, budget * 2)
  }

  /** The budget of a round, counted from zero. */
  ghost function BudgetAt(initial: nat, maxBudget: nat, round: nat): nat {
    if round == 0 then initial else NextBudget(BudgetAt(initial, maxBudget, round - 1), maxBudget)
  }

  /** The budgets of the first `rounds` rounds together. */
  ghost function Spent(initial: nat, maxBudget: nat, rounds: nat): nat {
    if rounds == 0 then 0 else Spent(initial, maxBudget, rounds - 1) + BudgetAt(initial, maxBudget, rounds - 1)
  }

  lemma {:induction false} ZeroStays(maxBudget: nat, round: nat)
    ensures BudgetAt(0, maxBudget, round) == 0
  {
    if round > 0 {
      ZeroStays(maxBudget, round - 1);
    }
  }

  lemma {:induction false} DoublingReaches(initial: nat, maxBudget: nat, round: nat)
    requires initial >= 1
    ensures BudgetAt(initial, maxBudget, round) >= Min(maxBudget, initial + round)
  {
    if round > 0 {
      DoublingReaches(initial, maxBudget, round - 1);
    }
  }

  function Spaced(s: string): string {
    seq(|s|, i requires 0 <= i < |s| => if s[i] == '_' then ' ' else s[i])
  }

  /** The question as asked, or one put together from the structured query. */
  function QueryText(q: QueryCase): string {
    if q.questionText.Some? && q.questionText.value != "" then q.questionText.value else
      q.subjectId + " " + Spaced(q.predicateId)
      + (match q.questionType
         case "current" => " current latest"
         case "historical" => " historical previous"
         case "historical_belief" => " historical previous"
         case "relation_classification" => " correction changed transition previous current"
         case "provenance" => " source evidence support"
         case _ => "")
      + if q.asOfValidTime.Some? then " day " + DecimalInt(q.asOfValidTime.value) else ""
  }

  function ConstraintsOf(q: QueryCase): Constraints {
    Constraints(Some(q.subjectId), Some(q.predicateId), q.asOfValidTime, q.asOfRecordedSeq)
  }

  /** Which documents a query may retrieve, by its own subject, predicate and two times. */
  lemma QueryRegionExactly(evidence: map<string, EvidenceRecord>, assertions: map<string, Assertion>, q: QueryCase,
                           e: string)
    ensures e in AllowedIds(evidence, assertions, ConstraintsOf(q)) <==>
      && e in evidence
      && (q.asOfRecordedSeq.Some? ==> evidence[e].recordedSeq <= q.asOfRecordedSeq.value)
      && (exists id :: id in assertions && e in assertions[id].evidenceIds && assertions[id].subjectId == q.subjectId)
      && (exists id ::
            id in assertions && e in assertions[id].evidenceIds && assertions[id].predicateId == q.predicateId)
      && (q.asOfValidTime.Some? ==>
            exists id :: id in assertions && e in assertions[id].evidenceIds
              && (assertions[id].validFrom.None? || assertions[id].validFrom.value <= q.asOfValidTime.value)
              && (assertions[id].validTo.None? || q.asOfValidTime.value <= assertions[id].validTo.value))
  {
    hide AllowedIds;
    AllowedExactly(evidence, assertions, ConstraintsOf(q), e);
  }

  /** A structured query put into words: subject, predicate with blanks for underscores, a hint, a day. */
  lemma QuestionExactly(q: QueryCase, spaced: string)
    requires q.questionText.None?
    requires |spaced| == |q.predicateId|
    requires forall k :: 0 <= k < |spaced| ==> spaced[k] == if q.predicateId[k] == '_' then ' ' else q.predicateId[k]
    ensures var hint :=
              if q.questionType == "current" then " current latest"
              else if q.questionType in {"historical", "historical_belief"} then " historical previous"
              else if q.questionType == "relation_classification" then " correction changed transition previous current"
              else if q.questionType == "provenance" then " source evidence support"
              else "";
            var day := if q.asOfValidTime.Some? then " day " + DecimalInt(q.asOfValidTime.value) else "";
            QueryText(q) == q.subjectId + " " + spaced + hint + day
  {
    hide DecimalInt;
    assert Spaced(q.predicateId) == spaced;
  }

  /** A question that was asked in words is used as it is, unless it is empty. */
  lemma AskedAsIs(q: QueryCase)
    requires q.questionText.Some?
    ensures q.questionText.value != "" ==> QueryText(q) == q.questionText.value
    ensures q.questionText.value == "" ==> QueryText(q) == QueryText(q.(questionText := None))
  {
  }

  /** The budget of a round: the initial one doubled once for each earlier round, at most the maximum. */
  lemma {:induction false} BudgetAtExactly(initial: nat, maxBudget: nat, round: nat)
    requires initial <= maxBudget
    ensures BudgetAt(initial, maxBudget, round) == Min(maxBudget, initial * Pow2(round))
  {
    if round > 0 {
      BudgetAtExactly(initial, maxBudget, round - 1);
      Doubled(initial, Pow2(round - 1));
    }
  }

  lemma Doubled(a: nat, p: nat)
    ensures a * (2 * p) == a * p * 2
  {
  }

  const PLANNED_CHANNELS := ["identity", "predicate", "time", "semantic", "lexical"]

  class Retriever {
    const index: RetrievalIndex

    constructor (index: RetrievalIndex)
      ensures this.index == index
    {
      this.index := index;
    }

    ghost predicate Valid()
      reads index.store
    {
      index.Valid() && index.store.Valid()
    }

    /** The budget-independent order of the planned region. */
    ghost function Order(q: QueryCase): seq<string> {
      index.Order(QueryText(q), ConstraintsOf(q))
    }

    ghost predicate CoveredAt(q: QueryCase, budget: nat)
      reads index.store
    {
      Covered(index.store.assertions, index.store.relations, index.store.state, q, Elements(Take(Order(q), budget)))
    }

    /** The `planned_multi_address` mode. */
    method Search(q: QueryCase, budget: nat) returns (ids: seq<string>, trace: RetrievalTrace)
      requires index.Valid()
      ensures ids == Take(Order(q), budget)
      ensures trace == RetrievalTrace("planned_multi_address", q.id, budget,
                         |AllowedIds(index.evidence, index.assertions, ConstraintsOf(q))|, ids,
                         ["identity", "predicate", "time", "semantic", "lexical"], 1, None)
    {
      hide Admits, RetrievalIndex.Order, RetrievalIndex.Valid;
      var considered;
      ids, considered := index.PlannedSearch(QueryText(q), budget, ConstraintsOf(q));
      trace := RetrievalTrace("planned_multi_address", q.id, budget, considered, ids,
                              PLANNED_CHANNELS, 1, None);
    }

    /** Coverage grows with the budget. */
    lemma CoverageGrows(q: QueryCase, b: nat, c: nat)
      requires b <= c && CoveredAt(q, b)
      ensures CoveredAt(q, c)
    {
      hide Covered, RetrievalIndex.Order;
      SmallerBudgetIsPrefix(Order(q), b, c);
      CoverageMonotone(index.store.assertions, index.store.relations, index.store.state, q,
                       Elements(Take(Order(q), b)), Elements(Take(Order(q), c)));
    }

    /** The search returns in a round with this budget. */
    ghost predicate Stops(q: QueryCase, maxBudget: nat, budget: nat)
      reads index.store
    {
      CoveredAt(q, budget) || budget >= maxBudget
    }

    /** Some round of doubling returns exactly when the start is positive or the maximum is zero. */
    lemma DoublingEnds(q: QueryCase, initialBudget: nat, maxBudget: nat)
      ensures (exists round: nat :: Stops(q, maxBudget, BudgetAt(initialBudget, maxBudget, round))) <==>
              initialBudget >= 1 || maxBudget == 0
    {
      hide RetrievalIndex.Order, Retriever.CoveredAt;
      if initialBudget == 0 {
        ZeroBudgetNeverGrows(q, maxBudget);
        assert BudgetAt(0, maxBudget, 0) == 0;
      } else {
        DoublingReaches(initialBudget, maxBudget, maxBudget);
      }
      if maxBudget == 0 {
        assert Stops(q, maxBudget, BudgetAt(initialBudget, maxBudget, 0));
      }
    }

    /** A zero budget covers nothing and never grows. */
    lemma ZeroBudgetNeverGrows(q: QueryCase, maxBudget: nat)
      ensures forall round: nat :: BudgetAt(0, maxBudget, round) == 0
      ensures Stops(q, maxBudget, 0) <==> maxBudget == 0
    {
      hide RetrievalIndex.Order;
      assert Elements(Take(Order(q), 0)) == {};
      assert Supported(index.store.assertions, q, {}) == {};
      forall round: nat ensures BudgetAt(0, maxBudget, round) == 0 {
        ZeroStays(maxBudget, round);
      }
    }

    /**
     Doubles the budget until coverage or the maximum.  It succeeds exactly when the maximum
     budget would, and stops below twice the least sufficient budget.
     */
    method AdaptiveSearch(q: QueryCase, initialBudget: nat, maxBudget: nat)
      returns (ids: seq<string>, trace: RetrievalTrace)
      requires Valid() && (initialBudget >= 1 || maxBudget == 0)
      ensures trace.returnedIds == ids == Take(Order(q), trace.budget)
      ensures trace.coverageSatisfied == Some(CoveredAt(q, trace.budget))
      ensures initialBudget <= maxBudget ==>
                initialBudget <= trace.budget <= maxBudget &&
                (CoveredAt(q, trace.budget) <==> CoveredAt(q, maxBudget))
      ensures maxBudget <= initialBudget ==> trace.budget == initialBudget && trace.rounds == 1
      ensures trace.budget == initialBudget ||
              forall b: nat :: CoveredAt(q, b) ==> trace.budget < 2 * b
      ensures trace.rounds >= 1 && trace.budget == BudgetAt(initialBudget, maxBudget, trace.rounds - 1)
      ensures trace.rounds >= 2 ==>
                forall b: nat :: CoveredAt(q, b) ==> Spent(initialBudget, maxBudget, trace.rounds) < 4 * b
      ensures trace.architecture == "planned_multi_address" && trace.queryId == q.id
      ensures trace.channelCalls == ["identity", "predicate", "time", "semantic", "lexical"]
      ensures trace.candidatesConsidered == |AllowedIds(index.evidence, index.assertions, ConstraintsOf(q))|
      ensures trace.rounds >= 2 ==> initialBudget * Pow2(trace.rounds - 2) < maxBudget
    {
      hide Covered, RetrievalIndex.Order, RetrievalIndex.Valid, MemoryStore.Valid, Retriever.CoveredAt;
      var budget := initialBudget;
      var rounds: nat := 0;
      ghost var previous: nat := 0;
      while true
        invariant rounds == 0 ==> budget == initialBudget
        invariant budget >= 1 || maxBudget == 0
        invariant rounds >= 1 ==> initialBudget <= previous < maxBudget && budget == NextBudget(previous, maxBudget)
        invariant rounds >= 1 ==> !CoveredAt(q, previous)
        invariant rounds >= 1 ==> initialBudget * Pow2(rounds - 1) <= previous
        invariant budget == BudgetAt(initialBudget, maxBudget, rounds)
        invariant rounds >= 1 ==> Spent(initialBudget, maxBudget, rounds) <= 2 * previous
        decreases maxBudget - budget
      {
        rounds := rounds + 1;
        ids, trace := Search(q, budget);
        var covered := CoverageSatisfied(index.store, q, ids);
        CoveredHere(q, budget, covered);
        if covered || budget >= maxBudget {
          trace := trace.(rounds := rounds, coverageSatisfied := Some(covered));
          if rounds >= 2 {
            LeastBudget(q, previous, budget);
            LeastSpent(q, previous, Spent(initialBudget, maxBudget, rounds));
          }
          if covered && budget <= maxBudget {
            CoverageGrows(q, budget, maxBudget);
          }
          return;
        }
        if rounds >= 2 {
          PowStep(initialBudget, rounds - 2, previous, budget, maxBudget);
        }
        previous := budget;
        budget := NextBudget(budget, maxBudget);
      }
    }

    lemma CoveredHere(q: QueryCase, budget: nat, covered: bool)
      requires covered <==> Covered(index.store.assertions, index.store.relations, index.store.state, q,
                                    Elements(Take(Order(q), budget)))
      ensures covered <==> CoveredAt(q, budget)
    {
    }

    lemma LeastSpent(q: QueryCase, previous: nat, spent: nat)
      requires !CoveredAt(q, previous) && spent <= 4 * previous
      ensures forall b: nat :: CoveredAt(q, b) ==> spent < 4 * b
    {
      hide Retriever.CoveredAt;
      forall b: nat | CoveredAt(q, b) ensures spent < 4 * b {
        if b <= previous {
          CoverageGrows(q, b, previous);
          assert false;
        }
      }
    }

    lemma LeastBudget(q: QueryCase, previous: nat, budget: nat)
      requires !CoveredAt(q, previous) && budget <= 2 * previous
      ensures forall b: nat :: CoveredAt(q, b) ==> budget < 2 * b
    {
      hide Retriever.CoveredAt;
      forall b: nat | CoveredAt(q, b) ensures budget < 2 * b {
        if b <= previous {
          CoverageGrows(q, b, previous);
          assert false;
        }
      }
    }
  }

  lemma PowStep(initial: nat, k: nat, previous: nat, budget: nat, maxBudget: nat)
    requires initial * Pow2(k) <= previous && budget == NextBudget(previous, maxBudget) && budget < maxBudget
    ensures initial * Pow2(k + 1) <= budget
  {
    assert initial * Pow2(k + 1) == 2 * (initial * Pow2(k));
  }

  datatype QueryPlan = QueryPlan(intent: string, constraints: Constraints, ambiguousSubjectIds: seq<string>,
                                 subjectConfidence: real)
  {
    predicate Resolved() {
      constraints.subjectId.Some? && constraints.predicateId.Some? && ambiguousSubjectIds == []
    }
  }

  const INFERRED_CHANNELS := ["inferred_identity", "inferred_predicate", "inferred_time", "semantic", "lexical"]

  class PlannedRetriever {
    const index: RetrievalIndex

    constructor (index: RetrievalIndex)
      ensures this.index == index
    {
      this.index := index;
    }

    /** An unresolved plan retrieves nothing; a resolved one fills its budget like the oracle plan. */
    method Search(queryId: string, question: string, plan: QueryPlan, budget: nat)
      returns (ids: seq<string>, trace: RetrievalTrace)
      requires index.Valid()
      ensures var c := plan.constraints;
              var resolved := c.subjectId.Some? && c.predicateId.Some? && plan.ambiguousSubjectIds == [];
              && ids == (if resolved then Take(index.Order(question, c), budget) else [])
              && trace == RetrievalTrace(
                   "inferred_multi_address", queryId, budget,
                   if resolved then |AllowedIds(index.evidence, index.assertions, c)| else 0, ids,
                   if resolved
                   then ["inferred_identity", "inferred_predicate", "inferred_time", "semantic", "lexical"]
                   else ["planner_abstain"],
                   1, if resolved then None else Some(false))
    {
      hide Admits, RetrievalIndex.Order, RetrievalIndex.Valid;
      if !plan.Resolved() {
        trace := RetrievalTrace("inferred_multi_address", queryId, budget, 0, [], ["planner_abstain"], 1, Some(false));
        return [], trace;
      }
      var considered;
      ids, considered := index.PlannedSearch(question, budget, plan.constraints);
      trace := RetrievalTrace("inferred_multi_address", queryId, budget, considered, ids, INFERRED_CHANNELS, 1, None);
    }
  }

  /**
   Planned results at any budget: no duplicates, inside the allowed region, as many as the
   budget or the region permits.
   */
  lemma PlannedResults(index: RetrievalIndex, text: string, c: Constraints, budget: nat)
    requires index.Valid()
    ensures var ids := Take(index.Order(text, c), budget);
            var allowed := AllowedIds(index.evidence, index.assertions, c);
            && |ids| == Min(budget, |allowed|)
            && Elements(ids) <= allowed
            && forall i, j :: 0 <= i < j < |ids| ==> ids[i] != ids[j]
  {
    hide Ranked, Before, Admits, RetrievalIndex.Valid, PlannedOrder;
    var allowed := AllowedIds(index.evidence, index.assertions, c);
    PlannedOrderLists(index.Scores(text, allowed), allowed, index.evidence);
    var order := index.Order(text, c);
    forall x | x in Take(order, budget) ensures x in allowed {
      assert x in order;
      assert x in Elements(order);
    }
  }

  /**
   Two searches of one region: the smaller budget's result is a prefix of the larger one's,
   and the documents the larger budget adds are new and as many as the region still has.
   */
  lemma BudgetsNest(index: RetrievalIndex, text: string, c: Constraints, small: nat, large: nat)
    requires index.Valid() && small <= large
    ensures var few, many := Take(index.Order(text, c), small), Take(index.Order(text, c), large);
            var allowed := |AllowedIds(index.evidence, index.assertions, c)|;
            && few <= many
            && |many| - |few| == Min(large, allowed) - Min(small, allowed)
            && forall x :: x in many[|few|..] ==> x !in few
  {
    hide RetrievalIndex.Valid, RetrievalIndex.Order, AllowedIds;
    PlannedResults(index, text, c, small);
    PlannedResults(index, text, c, large);
  }
}
