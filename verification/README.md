# Addressable memory: a verified model

This project models the deterministic core of a memory system for retrieval: a canonical store
of evidence, assertions and relations; a lexical index of subjects that is patched locally after
every mutation; a bounded resolver that finds the subject a question is about through that
index; and a budgeted retriever over the same data. Two smaller cores go with them: placement of
hash generations on segment boundaries, and invalidation over a dependency graph. Python classes
whose methods update fields are Dafny classes, dictionaries and sets are `map` and `set` fields
that the methods reassign, and loops are loops with invariants. Each method is proved against a
value-level specification, and the main results are lemmas about those specifications. Lemmas
named `...Exactly` tie each specification to an independent form: record fields, sums over the
question's words, cardinalities.

## Main results

1. **Patched forever equals rebuilt.** Along every finite run of evidence and assertion upserts
   and deletes, the patched index equals, on all nine maps, an index rebuilt from the store
   (`RunEqualsRebuild`), the one index that store has (`OneIndexPerStore`). It rests on these facts:
   a subject outside the affected set, computed before the mutation, keeps all data a refresh can
   see (`AffectedCovers`), and refreshing one subject keeps all six posting maps inversions of the
   stored views (`RefreshInverts`). The affected set cannot shrink either: some mutation with the
   same ids changes what each of its subjects depends on (`EvidenceRegionNeeded`,
   `AssertionRegionNeeded`, `DeletionRegionNeeded`).
2. **The store's tables have no history.** After any mutator the four locality tables are the
   ones the public fields determine, and only one value has that property (`LocalityUnique`);
   reference counts count tuple positions, so duplicates inside one tuple are included.
3. **Maintenance work is exact and local.** Traces equal set-difference sizes, memberships are
   conserved, the second of two refreshes changes none of the nine maps and mutates no posting,
   and worlds that agree on the refreshed subjects pay the same (`WorkIsLocal`).
4. **Bounded resolution refines a full scan, exactly up to its limits.** Fix both limits of a
   planner, the broad one positive. Every question without a skipped exact posting that generates
   `n` subjects gets the verdict of scoring all eligible subjects, for every store, if and only if
   `n` is at most the candidate limit (`LimitIsExact`); beyond it there is a store and a question
   that names the wrong subject, or nobody if the limit is zero (`CutMisleads`). Every uncut
   question whose exact postings hold at most `m` subjects gets it if and only if `m` is at most
   the broad limit (`BroadLimitIsExact`), and a skipped posting beside a narrow one can hide the
   winner (`BroadSkipMisleads`). For a single question, the right name is found exactly when it is
   among the candidates (`NamesTheWinnerIffKept`), a wrong one exactly when a dropped subject comes
   close enough (`NamesAnotherIff`), and a caller can read a sufficient condition off the trace
   (`TraceCertifiesFullScan`).
5. **Resolution work is independent of the number of subjects** (`WorkBounded`).
6. **Planned retrieval has one order.** Budget `b` returns the first `b` entries of a fixed
   duplicate-free listing of the allowed documents; adaptive doubling is complete, stops below
   twice the least sufficient budget, and spends less than four times it over all rounds
   (`AdaptiveSearch`).
7. **Two planners, one join.** The document-driven profiles and frequencies of the scanning
   planner are those of the subject-driven index (`SameJoin`, `SameFrequency`, `SameExactScores`),
   and their predicate restrictions agree under an exact condition on shared evidence
   (`RestrictionsAgree`). Then, with nothing skipped, the index answers whenever the scan does, and
   alone exactly when it rescues an unknown word (`IndexAnswersAloneIff`).
8. **Segments have one owner** in any chain of aligned generations, and **invalidating the target
   root reaches exactly the target chains**, `fanout * depth` nodes whatever else the graph holds.

## Files

`Prelude`, `Ranking`, `Postings`, `References`, `Models`, `Lexicon` hold shared vocabulary.
`Storage`, `Snapshots`, `ProfileIndex`, `Maintenance` are the store and its index. `Scoring`,
`Resolution`, `ResolutionFacts`, `ClosedForms`, `Samples`, `Limits` are query resolution.
`Documents`, `Retrieval`, `Coverage`, `Adaptive`, `DocumentPlanner`, `TwoPlanners` are retrieval and
the scanning planner. `Generations`, `Dependencies`, `Topology` are the side cores.

## Assumptions

- Evidence and assertion dictionaries map each id to a record with that id, and after
  construction the store is changed only through its methods.
- Scores are `real`. Of the natural logarithm only `log 1 = 0` and monotonicity are used; the
  failing inputs in `Limits` also use that `log 2` exceeds the tie tolerance, that `log 3` exceeds
  `log 2` by more than it, and that `log 2 < 1 < log 3`. The cosine score of a text and a document
  is an arbitrary function.
- The iteration order of sets and dictionaries is arbitrary: loops over them pick any element.
  `sorted` is `Ranking.SortIds`.
- Limits and budgets are natural numbers.

## Where documentation and code differ

The model follows the code in each case.

- `RESULTS_V0.5.md:154` asks that broad candidate sets are not silently truncated into a false
  answer. `Limits.LimitIsExact` gives the exact condition for a planner with both limits fixed: the
  slice is harmless for the questions that generate no more subjects than the candidate limit, and
  for no larger number, unless the broad limit is zero and nothing is ever generated.
  `Limits.CutMisleads` names the wrong subject for every positive limit and every larger number, and
  `ResolutionFacts.NamesAnotherIff` says for each single question when that happens.
- `rag/scalable_planner.py:479-480` abstains on a non-positive top score after a broad posting.
  No candidate scores below 0.1, so the branch is dead: `ResolutionFacts.BroadFlagIgnored`. The
  abstention promised in `RESULTS_V0.5.md:23` comes from the empty candidate list instead:
  `ResolutionFacts.NothingNarrowAbstains`.
- The comment at `rag/retrieval.py:186-188` says that a document is eligible only if a linked
  assertion is active; a document without linked assertions is eligible at every time
  (`Retrieval.UncitedAllowed`), and different assertions may meet different constraints
  (`Retrieval.AllowedWithoutOneMatch`). `Retrieval.AllowedExactly` gives the exact condition.
- Both planners restrict subjects by predicate, the scan through documents, the index through
  assertions. `DocumentPlanner.RestrictionsAgree` says exactly when the two agree;
  `DocumentPlanner.AllowedWithoutCarrying` and `DocumentPlanner.CarryingWithoutAllowed` are the two
  ways to differ. They also count different subject totals exactly when a subject cites only
  evidence without lexical words: `DocumentPlanner.SameSubjects`.

## Model

| member | source | states |
|---|---|---|
| `Maintenance.RunEqualsRebuild` | rag/maintenance.py:17-62 | along every finite run of maintained mutations that starts in sync, each intermediate index equals on all nine maps any index built from the canonical fields of that moment, which are the ones those fields determine |
| `Maintenance.RunKeepsSync` | rag/maintenance.py:29-62 | every index along such a run stores for each subject exactly the snapshot of the current store |
| `Maintenance.StepKeepsSync` | rag/maintenance.py:29-62 | refreshing only the affected subjects after one mutation is enough to stay in sync |
| `Maintenance.AffectedCovers` | rag/maintenance.py:36-60 | a subject outside the region computed before the mutation has the same assertions and the same cited evidence after it |
| `Maintenance.EvidenceRegionNeeded` | rag/maintenance.py:36-39 | the evidence region cannot shrink: for each subject in it some payload changes its view |
| `Maintenance.AssertionRegionNeeded` | rag/maintenance.py:48-54 | nor can the assertion region: for each subject in it some assertion with that id and subject changes its data |
| `Maintenance.DeletionRegionNeeded` | rag/maintenance.py:56-62 | deleting an assertion changes the data of the one subject in its region |
| `Maintenance.RegionExactly` | rag/maintenance.py:36-62 | for each of the four mutations the reported sequence is alphabetical, without repetition, and lists exactly the subjects its records determine |
| `Maintenance.SameDataSameRefresh` | rag/scalable_planner.py:164-190 | a refresh depends, in its view and in every counter, only on the one subject's data |
| `Maintenance.WorkIsLocal` | rag/maintenance.py:29-34 | two worlds that agree on the refreshed subjects' old views and data report identical traces, whatever the other subjects are |
| `Maintenance.AddressabilityMaintainer.Refresh` | rag/maintenance.py:29-34 | exactly the given subjects get the current snapshot, every other view is untouched, and the trace is the sum of the single refreshes |
| `Maintenance.AddressabilityMaintainer.UpsertEvidenceRecord` | rag/maintenance.py:36-41 | one step of the run: store changed, affected views recomputed, others framed, sync kept; reported are, in order and refreshed once each, exactly the subjects of assertions that cite the id |
| `Maintenance.AddressabilityMaintainer.DeleteEvidenceRecord` | rag/maintenance.py:43-46 | the same for deletion, also of an unknown evidence id |
| `Maintenance.AddressabilityMaintainer.UpsertAssertionRecord` | rag/maintenance.py:48-54 | the same for an assertion; reported are exactly its subject and, if the id was known, the subject it had before |
| `Maintenance.AddressabilityMaintainer.DeleteAssertionRecord` | rag/maintenance.py:56-62 | the same for deletion; reported is exactly the subject the assertion had, and nobody for an unknown id |
| `Maintenance.NothingToDelete` | rag/maintenance.py:57-59 | the early return is a step that changes nothing and costs nothing |
| `Maintenance.AddressabilityMaintainer.MaterializationEqual` | benchmark/maintenance_metrics.py:47-50 | for any valid index, comparing it with a fresh rebuild succeeds iff it is synchronized with the store |
| `ProfileIndex.PostingsExact` | rag/scalable_planner.py:192-280 | a posting holds exactly the subjects whose profile yields the feature, and a narrowed posting those that also carry the predicate; a feature shared by several words survives the loss of one |
| `ProfileIndex.MapsExactly` | rag/scalable_planner.py:192-280 | the six maps of a valid index, entry by entry, from its stored profiles and predicates |
| `ProfileIndex.RefreshInverts` | rag/scalable_planner.py:192-280 | moving one subject from its old to its new postings keeps all six maps exact inversions without empty postings |
| `ProfileIndex.IndexUnique` | rag/scalable_planner.py:192-280 | the stored views determine all six posting maps |
| `ProfileIndex.ViewsUnique` | rag/scalable_planner.py:265-278 | dropping empty components makes the three view maps canonical |
| `ProfileIndex.RefreshesCommute` | rag/scalable_planner.py:192-280 | refreshes of distinct subjects commute on all nine maps |
| `ProfileIndex.RepeatedRefreshIsFree` | rag/scalable_planner.py:192-280 | the second of two refreshes of a subject leaves all nine maps unchanged and makes no posting mutation |
| `ProfileIndex.RefreshConserves` | rag/scalable_planner.py:58-82 | memberships after plus removals equal memberships before plus additions, for plain and for narrowed postings |
| `ProfileIndex.InSyncUnique` | rag/scalable_planner.py:282-295 | two valid indexes in sync with the same store are equal |
| `ProfileIndex.OneIndexPerStore` | rag/scalable_planner.py:111-125 | the canonical fields determine one value of all nine maps: it is valid and in sync, and nothing else is |
| `ProfileIndex.SubjectProfileIndex.constructor` | rag/scalable_planner.py:111-125 | a rebuild is valid, holds every subject's snapshot, and its build trace is the summed cost of refreshing each subject once from nothing |
| `ProfileIndex.SubjectProfileIndex.RefreshSubject` | rag/scalable_planner.py:192-280 | keeps validity, stores the subject's snapshot, frames every other subject and counts exactly the work its old and new view determine |
| `ProfileIndex.RefreshWorkExactly` | rag/scalable_planner.py:192-280 | each counter of a refresh as a cardinality over the records and the old and new features and pairs |
| `ProfileIndex.SubjectProfileIndex.SnapshotSubject` | rag/scalable_planner.py:164-190 | computes words, predicates and cited evidence of a subject and counts assertions, references and records read |
| `ProfileIndex.SubjectProfileIndex.PatchPostings` | rag/scalable_planner.py:205-263 | in all six maps the subject ends in exactly its new postings, others stay, counters grow by the difference sizes |
| `ProfileIndex.SubjectProfileIndex.StoreView` | rag/scalable_planner.py:265-278 | only the subject's stored view changes and no empty component is kept |
| `ProfileIndex.Features` | rag/scalable_planner.py:136-144 | the loop over the words collects, in any order, exactly the words, their fragments and their n-grams |
| `ProfileIndex.CollectAssertions` | rag/scalable_planner.py:170-178 | predicates, evidence ids and number of references of the listed assertions |
| `ProfileIndex.CollectEvidence` | rag/scalable_planner.py:180-190 | the summed words of the present evidence and the number of records read |
| `ProfileIndex.MaintenanceTrace.Absorb` | rag/scalable_planner.py:84-93 | every counter grows by the absorbed trace's counter |
| `ProfileIndex.UnknownSubjectIsBlank` | rag/scalable_planner.py:164-190 | a subject without assertions has an empty snapshot, so nothing is stored about it |
| `Postings.AddPosting` | rag/scalable_planner.py:146-152 | adds exactly one membership and reports 1 iff it was new |
| `Postings.RemovePosting` | rag/scalable_planner.py:154-162 | removes exactly one membership, reports 1 iff it was there, never leaves an empty posting |
| `Postings.Patch` | rag/scalable_planner.py:205-263 | moves a subject from one feature set to another by set difference, with exact counts |
| `Postings.InvertsUnique` | rag/scalable_planner.py:146-162 | an inversion without empty postings is determined by what it inverts |
| `Postings.InversionInverts` | rag/scalable_planner.py:146-162 | and there always is one |
| `Postings.MovedInverts` | rag/scalable_planner.py:205-263 | moving one identifier to a new feature set yields the inversion of the updated features |
| `Postings.MovedMembers` | rag/scalable_planner.py:205-263 | the total number of memberships changes by additions minus removals |
| `Snapshots.BagAdd` | rag/scalable_planner.py:181-188 | a profile is independent of the order in which evidence is added |
| `Snapshots.BagFrame` | rag/scalable_planner.py:181-188 | a profile depends only on the words of the cited evidence |
| `Snapshots.InBag` | rag/scalable_planner.py:181-188 | a word is in a profile iff some cited present evidence contains it |
| `Snapshots.SnapshotExactly` | rag/scalable_planner.py:164-190 | words, predicates and evidence ids of a view, each from the assertions about the subject |
| `Snapshots.BagExactly` | rag/scalable_planner.py:180-188 | each cited present record adds its lexical words with multiplicity, a missing one adds nothing |
| `Snapshots.TokenFeatures` | rag/scalable_planner.py:136-144 | the token features of a profile are its words |
| `Snapshots.FragmentFeatures` | rag/scalable_planner.py:136-144 | its fragment features are the separator-free stretches of three or more characters in its words |
| `Snapshots.NgramFeatures` | rag/scalable_planner.py:136-144 | its n-gram features are the non-empty substrings of length four, or of the whole word if shorter |
| `Storage.LocalityUnique` | core/storage.py:34-43 | the canonical fields admit one value of the four locality tables, whatever history produced them |
| `Storage.TablesExactly` | core/storage.py:34-103 | the tables entry by entry: ids under a key and about a subject, tuple positions counted per evidence and subject, nothing empty kept |
| `Storage.ScopesExactly` | core/storage.py:105-124 | which ids and subjects each locality query ranges over, in record fields |
| `Storage.MemoryStore.constructor` | core/storage.py:28-32 | a store over populated fields starts with the tables those fields determine |
| `Storage.MemoryStore.RebuildLocalityIndexes` | core/storage.py:34-43 | computes the determined tables, and on a valid store changes nothing |
| `Storage.MemoryStore.AddEvidence` | core/storage.py:45-48 | stores the record and keeps the store valid |
| `Storage.MemoryStore.RemoveEvidence` | core/storage.py:50-51 | removes and returns the record, keeping the tables although assertions may still cite it |
| `Storage.MemoryStore.AddAssertionIndexes` | core/storage.py:78-82 | turns the tables of the other assertions into those with the new one |
| `Storage.MemoryStore.RemoveAssertionIndexes` | core/storage.py:53-76 | the inverse: back to exactly the tables of the other assertions |
| `Storage.MemoryStore.AddAssertion` | core/storage.py:84-92 | insertion and replacement leave the determined tables |
| `Storage.MemoryStore.RemoveAssertion` | core/storage.py:94-99 | removal leaves the determined tables and returns what was stored |
| `Storage.MemoryStore.AddRelation` | core/storage.py:101-103 | appends to the list and to its source's row |
| `Storage.MemoryStore.AssertionsForKey` | core/storage.py:105-112 | the ordered listing of all and only the assertions under the key |
| `Storage.MemoryStore.AssertionsForSubject` | core/storage.py:114-116 | the ordered listing of all and only the assertions about the subject |
| `Storage.ListedExactly` | core/storage.py:105-116 | a sequence is that listing iff it lists the chosen assertions once each by recorded sequence, then id |
| `Storage.MemoryStore.SubjectIds` | core/storage.py:118-119 | the sorted subjects of all assertions |
| `Storage.MemoryStore.SubjectsForEvidence` | core/storage.py:121-124 | the sorted subjects of exactly the assertions that cite the evidence |
| `Storage.MemoryStore.GetRelationsFrom` | core/storage.py:126-127 | the order-preserving filter of the relation list by source |
| `Storage.FromExactly` | core/storage.py:126-127 | a row keeps exactly the relations with that source, in list order |
| `Storage.WithinExactly` | core/storage.py:132-138 | a relation counts as often as it is listed if both endpoints are given, else never |
| `Storage.MemoryStore.RelationsForAssertions` | core/storage.py:132-138 | as a multiset, the relations with both endpoints among the given ids |
| `Storage.OneMoreSource` | core/storage.py:132-138 | visiting one more source adds exactly its row, in any visiting order |
| `References.CountsUnique` | core/storage.py:53-82 | tidy counts are determined by the references they count |
| `References.CountedIffCited` | core/storage.py:121-124 | a subject has a count under an evidence id iff one of its assertions cites it |
| `References.Increment` | core/storage.py:78-82 | one more counted tuple position |
| `References.Decrement` | core/storage.py:64-76 | one position fewer, with no zero count and no empty row left |
| `References.IncrementAll` | core/storage.py:78-82 | all positions of one tuple, duplicates included |
| `References.DecrementAll` | core/storage.py:64-76 | undoes all positions of one tuple, duplicates included |
| `Ranking.SortIds` | core/storage.py:105-124 | the strictly ordered listing of a set by number, then id |
| `Ranking.RankedUnique` | core/storage.py:105-124 | a set has one such listing, so ties cannot leave an order open |
| `Ranking.AlphabeticalExactly` | core/storage.py:118-124 | without numbers the listing holds the set, strictly ascending character by character |
| `Prelude.StrLessExactly` | core/storage.py:118-124 | a string is smaller iff at the first position where the two differ it ends or has the smaller character |
| `Ranking.TopPrecedes` | rag/scalable_planner.py:438-439 | whatever is kept by a cut ranks before whatever is dropped |
| `Lexicon.RunsAreMaximal` | rag/scalable_planner.py:21-32 | scanning one character class returns exactly the stretches that cannot be extended |
| `Lexicon.TokenCharsExactly` | rag/planner.py:13 | token characters are the ASCII letters and digits, underscore and hyphen |
| `Lexicon.LowerExactly` | rag/scalable_planner.py:21-22 | case folding moves `A` to `Z` by 32 and leaves every other character |
| `Lexicon.TokensExactly` | rag/scalable_planner.py:21-22 | a string is a token iff it equals some maximal stretch of token characters position by position, with the letter 32 above for each upper-case letter |
| `Lexicon.TokensAreLower` | rag/scalable_planner.py:21-22 | no token holds an upper-case letter |
| `Lexicon.CaseBlind` | rag/scalable_planner.py:21-22 | texts that differ only in ASCII case have equal token sequences |
| `Lexicon.FragmentsExactly` | rag/scalable_planner.py:31-32 | a string is a fragment iff it is a stretch of three or more characters without hyphen or underscore, bounded by one of them or an end on each side |
| `Lexicon.NgramsExact` | rag/scalable_planner.py:25-28 | n-grams are the substrings of length four, or a shorter non-empty token itself |
| `Lexicon.StopFiltered` | rag/planner.py:17-22 | stop words vanish and every other token keeps its multiplicity |
| `Lexicon.StopWordsExactly` | rag/planner.py:17-22 | exactly the listed words are dropped |
| `Lexicon.LexicalExactly` | rag/scalable_planner.py:383 | a lexical token occurs as often as in the text unless it is a stop word, and then never |
| `Lexicon.FragmentsFew` | rag/scalable_planner.py:31-32 | a token has at most a quarter of its length plus one in fragments |
| `Lexicon.NgramsFew` | rag/scalable_planner.py:25-28 | a token has at most its length minus three n-grams, or one |
| `Lexicon.LexicalFits` | rag/scalable_planner.py:383 | the lexical tokens of a text, each with a separator, fit into it |
| `Scoring.LookedExact` | rag/scalable_planner.py:297-330 | a looked-up posting holds exactly the eligible subjects that yield the feature |
| `ClosedForms.LookedExactly` | rag/scalable_planner.py:297-330 | the same with eligibility written out: profiled, and carrying the predicate if one is asked for |
| `Scoring.FrequencyBounded` | rag/scalable_planner.py:131-134 | the document frequency never exceeds the number of profiles |
| `Scoring.IdfAtLeastOne` | rag/scalable_planner.py:131-134 | inverse document frequency is at least one |
| `ClosedForms.IdfExactly` | rag/scalable_planner.py:131-134 | the smoothed logarithmic weight from the number of profiles, at least one, and the posting size |
| `Resolution.Consume` | rag/scalable_planner.py:392-396 | every member of a posting gains the weight, once, in any order |
| `Resolution.LookUpTokens` | rag/scalable_planner.py:398-412 | closed-form token scores, the missing tokens in order and the exact counters |
| `Resolution.Rescue` | rag/scalable_planner.py:414-436 | adds the weight once per narrow feature of each missing token, with exact counters |
| `Resolution.ScalableQueryPlanner.CandidateSubjects` | rag/scalable_planner.py:378-451 | scores are the closed form per subject, candidates the first by score then id up to the limit, the trace counts exactly, the broad flag tells whether a posting was skipped |
| `ClosedForms.GeneratedExactly` | rag/scalable_planner.py:383-436 | a generation score is four idf per narrow token that holds the subject, plus three per fragment and one per n-gram of a missing token whose narrow posting holds it |
| `ClosedForms.TraceExactly` | rag/scalable_planner.py:35-55 | each trace field as a cardinality: tokens, tagged fragments and n-grams, expanded entries, skipped postings; logical work is lookups plus entries plus scored profiles |
| `ClosedForms.CandidatesExactly` | rag/scalable_planner.py:438-439 | candidates run from the best score down, equal scores by id, as many as the limit allows, and nobody left out is better |
| `Resolution.ScalableQueryPlanner.Subject` | rag/scalable_planner.py:453-484 | returns the verdict on those candidates with the exact trace; every candidate has a stored profile |
| `Resolution.ScoreCandidates` | rag/scalable_planner.py:463-471 | each candidate gets its final score |
| `ClosedForms.FinalExactly` | rag/scalable_planner.py:463-471 | a final score is the sum over question words of idf times dampened count, plus a tenth of the generation score |
| `Resolution.ExactScore` | rag/scalable_planner.py:466-469 | the weighted sum over question words found in the profile |
| `ResolutionFacts.GeneratedSign` | rag/scalable_planner.py:383-439 | a generation score is zero, or at least one and then some narrow looked-up posting holds the subject |
| `ResolutionFacts.ScoresExactly` | rag/scalable_planner.py:383-436 | every question has generation scores, and only one table of them |
| `ResolutionFacts.ReachedIsEligible` | rag/scalable_planner.py:463-465 | such a subject has a stored profile and carries the requested predicate |
| `ResolutionFacts.ExactSign` | rag/scalable_planner.py:466-469 | an exact score is positive iff the profile holds a question word |
| `ResolutionFacts.FinalSign` | rag/scalable_planner.py:463-471 | with nothing skipped an eligible subject outside the generated ones scores zero |
| `ResolutionFacts.GeneratedIsPositive` | rag/scalable_planner.py:463-479 | every generated subject finally scores at least 0.1, and with nothing skipped they are all the positive ones |
| `ResolutionFacts.TiedSpec` | rag/scalable_planner.py:473-477 | the tied list holds exactly the subjects within the tolerance of the top, in order |
| `ResolutionFacts.DecideMeaning` | rag/scalable_planner.py:473-484 | resolved to `w` iff `w` beats all others by more than the tolerance; otherwise the tie is listed; confidence is the relative margin |
| `ClosedForms.NamedExactly` | rag/scalable_planner.py:473-484 | over positive scores `w` is named iff it leads every other by more than 0.000000001 |
| `ClosedForms.ConfidenceExactly` | rag/scalable_planner.py:482-484 | confidence times the best score is the lead over the second best, and a sole subject gets exactly one |
| `ClosedForms.AmbiguousExactly` | rag/scalable_planner.py:473-477 | without a name the confidence is zero and exactly the subjects within 0.000000001 of the best are listed, best first, then by id |
| `ClosedForms.BoundedExactly` | rag/scalable_planner.py:459-484 | the bounded verdict is that decision over the kept candidates, or empty-handed with confidence zero if none was kept |
| `ResolutionFacts.VerdictMeaning` | rag/scalable_planner.py:453-484 | the same for the bounded candidates, with confidence in [0, 1] and abstention iff there are none |
| `ResolutionFacts.RefinesFullScan` | rag/scalable_planner.py:378-484 | nothing skipped and everything generated kept: the verdict is that of scoring all eligible subjects |
| `Limits.LimitIsExact` | rag/scalable_planner.py:438-439 | for a planner with both limits fixed, over all stores and unskipped questions with `n` generated subjects: the verdict is always the full scan's iff `n` is at most the candidate limit or the broad limit is zero |
| `Limits.BroadLimitIsExact` | rag/scalable_planner.py:401-408 | over all stores and uncut questions whose exact postings hold at most `m` subjects: the verdict is always the full scan's iff `m` is at most the broad limit |
| `ResolutionFacts.NamesTheWinnerIffKept` | rag/scalable_planner.py:438-484 | skipped or cut, the bounded search names the full scan's winner iff the winner is among the candidates |
| `ResolutionFacts.NamesAnotherIff` | rag/scalable_planner.py:438-484 | it names `w` while the scan does not iff `w` is kept and beats all kept subjects and some scoring subject that was not kept comes within the tolerance of `w` |
| `ResolutionFacts.FullScanMeaning` | rag/planner.py:122-142 | scoring everything names `w` iff `w` scores and beats every other scoring eligible subject |
| `ResolutionFacts.AnswersBounded` | rag/scalable_planner.py:453-484 | what the planner answers is the bounded verdict of these results |
| `ResolutionFacts.ResolvesToTheBest` | rag/scalable_planner.py:378-484 | under that condition it resolves to `w` iff `w` beats every eligible subject of the index |
| `ResolutionFacts.TraceCertifiesFullScan` | rag/scalable_planner.py:35-45 | a trace without skips and below the limit certifies the full-scan verdict |
| `ResolutionFacts.OneAnswer` | rag/scalable_planner.py:378-484 | verdict and trace do not depend on the order in which postings, fragments and n-grams are iterated |
| `ResolutionFacts.GeneratedUnique` | rag/scalable_planner.py:383-436 | neither do the generation scores |
| `ResolutionFacts.UnmarkedTrace` | rag/scalable_planner.py:402-409 | a trace without skips means that no exact posting was broad |
| `ResolutionFacts.NothingNarrowAbstains` | RESULTS_V0.5.md:23 | abstains with no name at all iff no narrow looked-up posting holds any subject |
| `ResolutionFacts.BroadFlagIgnored` | rag/scalable_planner.py:479-480 | the broad flag never changes a verdict |
| `ResolutionFacts.TokensEconomical` | rag/scalable_planner.py:399-412 | expanded entries are at most the broad limit per unskipped token lookup |
| `ResolutionFacts.RescuesEconomical` | rag/scalable_planner.py:414-436 | the same for fragment and n-gram lookups |
| `ResolutionFacts.LookupsFit` | rag/scalable_planner.py:399-428 | all lookups together are at most five quarters of the tokens' total length |
| `ResolutionFacts.WorkBounded` | rag/scalable_planner.py:35-55 | entries, lookups and logical work are bounded by question length and the two limits alone |
| `Limits.CutMisleads` | RESULTS_V0.5.md:154 | for every positive broad limit, every candidate limit and every larger number of generated subjects, a store and a question, nothing skipped, where the scan names the last subject and the cut names the first, or nobody at candidate limit zero |
| `Limits.BroadSkipMisleads` | rag/scalable_planner.py:405-408 | for every positive broad limit a store and a question where one skipped posting beside a narrow one keeps the scan's winner out, and at limit one another subject is named |
| `Samples.SampleIndex` | rag/scalable_planner.py:111-125 | the index of a store whose subjects each say some words is synchronized and profiles exactly those words |
| `Samples.SampleLook` | rag/scalable_planner.py:297-300 | it posts every word under exactly the subjects that say it |
| `Samples.SpokenLexical` | rag/planner.py:35-36 | plain words joined by spaces tokenize back to themselves |
| `Documents.CollectLinks` | rag/retrieval.py:84-93 | each evidence id gets exactly the subjects, predicates and intervals of the assertions citing it |
| `Documents.LinksExactly` | rag/retrieval.py:84-93 | subjects, predicates, start times and intervals of a document, each from the assertions that cite it |
| `Documents.BuildDocs` | rag/retrieval.py:95-107 | one document per evidence record, by recorded sequence then id |
| `Documents.DocsExactly` | rag/retrieval.py:95-107 | the documents field by field, one for each record, by recorded sequence, then id |
| `Documents.InvertDocs` | rag/retrieval.py:111-120 | each of the three document indexes is the exact inversion of its facet |
| `Retrieval.RetrievalIndex.constructor` | rag/retrieval.py:82-120 | the built index materializes the store it was built from |
| `Retrieval.DocumentIndexesExactly` | rag/retrieval.py:111-120 | the three inverted indexes entry by entry from the records |
| `Retrieval.RetrievalIndex.HardFilter` | rag/retrieval.py:170-197 | filtering through the inverted indexes equals testing every document against the four constraints |
| `Retrieval.AllowedExactly` | rag/retrieval.py:170-197 | allowed iff present, early enough, and each constraint met by some citing assertion, time also by no citing assertion at all |
| `Retrieval.NothingLost` | rag/retrieval.py:170-197 | present evidence of one assertion meeting all constraints is always allowed |
| `Retrieval.AllowedWithoutOneMatch` | rag/retrieval.py:179-182 | the converse fails: shared evidence is allowed although no single assertion matches |
| `Retrieval.UncitedAllowed` | rag/retrieval.py:185-196 | evidence no assertion cites is allowed at any valid time iff neither subject nor predicate is asked for and it was recorded early enough |
| `Retrieval.RetrievalIndex.Hybrid` | rag/retrieval.py:199-210 | the first hits of the blended scores by score, then id, each with its score and the representations under which it is similar |
| `Retrieval.HitsExactly` | rag/retrieval.py:133-210 | only positive similarities count; the score is 0.55 of the concept one plus 0.45 of the lexical one, and a hit names the channels that are positive |
| `Retrieval.RetrievalIndex.BackFill` | rag/retrieval.py:259-265 | the remaining allowed documents by recency, then id, as hits of score zero with the structural channels |
| `Retrieval.RetrievalIndex.PlannedSearch` | rag/retrieval.py:249-271 | rank, cut and back-fill return the first `budget` entries of one order that does not depend on the budget |
| `Retrieval.PlannedOrderLists` | rag/retrieval.py:249-271 | that order lists every allowed document exactly once |
| `Retrieval.PlannedOrderExactly` | rag/retrieval.py:249-271 | of two listed documents the scored one comes first, then the higher score, or among unscored ones the more recent, then the smaller id |
| `Coverage.CoverageSatisfied` | rag/retrieval.py:300-319 | decides the coverage condition for the supported assertions of the query's key |
| `Coverage.CoveredExactly` | rag/retrieval.py:300-319 | coverage in record fields: some support; for a relation question a correction or supersession between supporting assertions; for a contested state two different supported values |
| `Coverage.CoverageMonotone` | rag/retrieval.py:300-319 | more evidence never loses coverage |
| `Coverage.InWithin` | core/storage.py:132-138 | a relation is within iff it is listed and both endpoints are in |
| `Adaptive.Retriever.Search` | rag/retrieval.py:213-271 | planned mode returns that prefix for the query's text and reports it with the channels called |
| `Adaptive.QueryRegionExactly` | rag/retrieval.py:249-255 | the documents a query may retrieve, by its own subject, predicate and two times |
| `Adaptive.QuestionExactly` | rag/retrieval.py:213-230 | the text made from a structured query: subject, spaced predicate, a hint by question type, the day |
| `Adaptive.AskedAsIs` | rag/retrieval.py:213-218 | a non-empty question is used as it is, an empty one like none |
| `Prelude.DecimalIntExactly` | rag/retrieval.py:228-229 | the day is written in decimal digits that denote it, without leading zeros, with a minus sign iff negative |
| `Adaptive.Retriever.CoverageGrows` | rag/retrieval.py:273-297 | coverage at a budget implies coverage at every larger one |
| `Adaptive.Retriever.AdaptiveSearch` | rag/retrieval.py:273-297 | terminates; covered iff the maximum budget covers; stops at the initial budget or below twice any sufficient one; from the second round on all budgets together stay below four times any sufficient one; initial * 2^(rounds-2) stays below the maximum; reports the channels called |
| `Adaptive.BudgetAtExactly` | rag/retrieval.py:280-297 | the budget of a round is the initial one times a power of two, capped at the maximum |
| `Adaptive.Retriever.DoublingEnds` | rag/retrieval.py:284-297 | some round returns iff the initial budget is positive or the maximum is zero |
| `Adaptive.Retriever.ZeroBudgetNeverGrows` | rag/retrieval.py:289-297 | from budget zero every round has budget zero, covers nothing, and returns iff the maximum is zero |
| `Adaptive.PlannedRetriever.Search` | rag/planned.py:13-60 | an unresolved plan abstains, a resolved one returns the same prefix as planned search |
| `Adaptive.PlannedResults` | rag/planned.py:33-51 | results are duplicate-free, allowed, and exactly as many as budget and region permit |
| `Adaptive.BudgetsNest` | rag/retrieval.py:249-271 | of two searches of one region the smaller budget's result is a prefix, and the rest of the larger one is new and as long as the region allows |
| `DocumentPlanner.JoinProfiles` | rag/planner.py:62-69 | pouring each document's words into its subjects computes the joined profiles |
| `DocumentPlanner.CountFrequencies` | rag/planner.py:71-73 | the counter of a word is the number of profiles holding it |
| `DocumentPlanner.SameJoin` | rag/planner.py:62-69 | for every store the document-driven and the subject-driven profile of each subject agree, up to absent versus empty |
| `DocumentPlanner.SameFrequency` | rag/planner.py:71-75 | the profiles holding a word are exactly its token posting |
| `DocumentPlanner.SameSubjects` | rag/planner.py:74 | both planners count equally many subjects iff no subject cites only wordless evidence |
| `DocumentPlanner.SameExactScores` | rag/planner.py:126-129 | without such subjects both planners give every subject the same exact score |
| `DocumentPlanner.QueryPlanner.constructor` | rag/planner.py:62-75 | profiles and weights are those the indexed documents determine |
| `DocumentPlanner.QueryPlanner.Subject` | rag/planner.py:108-142 | returns the verdict over all allowed profiles with a positive score |
| `DocumentPlanner.ScanScoreExactly` | rag/planner.py:126-129 | a scan score is the sum over question words of the smoothed weight times the dampened count |
| `DocumentPlanner.QueryPlanner.Allowed` | rag/planner.py:114-120 | the subjects of the documents posted under the predicate |
| `DocumentPlanner.ScanMeaning` | rag/planner.py:133-142 | resolved to `w` iff `w` beats every scored subject by more than the tolerance; empty-handed iff none scored |
| `DocumentPlanner.AllowedIffShares` | rag/planner.py:114-120 | the scan admits a subject iff present evidence is cited both about it and under the predicate |
| `DocumentPlanner.EligibleIffCarries` | rag/scalable_planner.py:297-310 | the index admits a profiled subject iff one of its assertions has the predicate |
| `DocumentPlanner.RestrictionsAgree` | rag/planner.py:113-125 | over profiled subjects the two agree iff no present evidence of the predicate is shared by a subject that does not carry it and every carrier shares some |
| `TwoPlanners.SameScanned` | rag/planner.py:122-131 | where they agree or no predicate is asked for, without wordless subjects, the scan scores exactly the eligible subjects that hold a question word |
| `TwoPlanners.ScanSilentIff` | rag/planner.py:133-134 | the scan abstains empty-handed iff no eligible subject holds a question word |
| `TwoPlanners.IndexAnswersAloneIff` | rag/scalable_planner.py:414-436 | with nothing skipped the index answers whenever the scan does, and answers alone iff no word is known but a fragment or n-gram reaches somebody |
| `TwoPlanners.MisspeltNamedByIndexOnly` | rag/scalable_planner.py:426-436 | a store and a misspelt word: the index names the subject, the scan abstains |
| `DocumentPlanner.AllowedWithoutCarrying` | rag/planner.py:114-120 | one failing case: shared evidence admits a subject under a predicate it does not carry |
| `DocumentPlanner.CarryingWithoutAllowed` | rag/planner.py:114-120 | the other: a carrier whose assertion cites missing evidence is profiled and eligible in the index but not scanned |
| `Dependencies.DependencyGraph.RegisterDerived` | state/dependencies.py:84-111 | patching by difference keeps both edge tables mirrored and counts the changed edges |
| `Dependencies.DependencyGraph.RemoveDerived` | state/dependencies.py:113-143 | retires a leaf, refuses a node with live dependents without changing anything |
| `Dependencies.RegisterThenRetire` | state/dependencies.py:84-143 | registering a node and retiring it goes through iff no other node depends on it and it does not depend on itself; a new node then leaves both edge tables, statuses and kinds as they were |
| `Dependencies.MirrorUnique` | state/dependencies.py:72-75 | one edge table determines the other |
| `Dependencies.EdgesExactly` | state/dependencies.py:72-80 | both tables of a graph hold the same edges, no dependents entry is empty, and every registered node has a status |
| `Dependencies.DependencyGraph.InvalidateFrom` | state/dependencies.py:145-172 | invalidates exactly the nodes downstream of the roots, cycles included, and its work is that of the reachable subgraph |
| `Dependencies.ReachableWithin` | state/dependencies.py:145-172 | a closed set that holds the roots holds everything reachable |
| `Topology.BuildTopologyCase` | simulator/cascade.py:63-106 | rejects exactly the documented parameters, otherwise builds exactly the target and unrelated chains, each node labelled with its layer |
| `Topology.ShapeExactly` | simulator/cascade.py:63-106 | the built graph node by node: who is registered, below which parent, fresh, with its layer as kind |
| `Topology.AddChain` | simulator/cascade.py:80-95 | one more chain on its own root, earlier chains untouched |
| `Topology.TargetsReached` | simulator/cascade.py:63-70 | reachable from the target root are exactly the target chains, whatever the total |
| `Topology.TargetsSize` | simulator/cascade.py:101 | those are `fanout * depth` nodes |
| `Topology.OneEdgeEach` | simulator/cascade.py:80-85 | the reachable subgraph has as many edges as affected nodes |
| `Topology.InvalidateTarget` | run_cascade_experiment.py:252-272 | invalidation reports the expected count of nodes and edges, marks exactly the target chains and leaves every unrelated node fresh |
| `Generations.AlignIsNearest` | simulator/generation_boundary_reclamation.py:44-46 | alignment gives the least boundary not below the page, less than one segment away |
| `Generations.PagesAreFewest` | simulator/generation_boundary_reclamation.py:40-41 | a generation has the fewest buckets that hold its capacity and one slot more |
| `Generations.AlignedApart` | storage/aligned_generation_reclaiming_primary.py:157-170 | in the whole chain an earlier generation ends in a strictly earlier segment than a later one starts in |
| `Generations.ChainExactly` | storage/aligned_generation_reclaiming_primary.py:157-164 | the chain starts at page zero, each generation doubles the capacity and starts at the next multiple of sixteen |
| `Generations.SegmentsHaveOneOwner` | storage/aligned_generation_reclaiming_primary.py:166-170 | pages of two different generations never lie in the same segment of sixteen |
| `Generations.PaddingBounded` | storage/aligned_generation_reclaiming_primary.py:160-163 | after `n` doublings at most `15 * n` pages are padding |
| `Generations.BackToBackShares` | simulator/generation_boundary_reclamation.py:64-66 | unaligned placement shares a segment iff the page count is no multiple of sixteen |
| `Generations.RoundCapacitiesShare` | simulator/generation_boundary_reclamation.py:74-75 | capacities divisible by 64 always share |
| `Generations.CheckCapacities` | simulator/generation_boundary_reclamation.py:49-88 | raises iff there is no capacity or some capacity fills its segments exactly; otherwise every row shows sharing unaligned, the next segment aligned and the exact padding, and the reported maximum is the largest padding |
| `Generations.RunBoundaryControl` | simulator/generation_boundary_reclamation.py:19-88 | on the configured capacities nothing is raised, every row shows sharing only unaligned, and the largest padding is the full fifteen pages |
| `Generations.RowFacts` | simulator/generation_boundary_reclamation.py:52-79 | of the three checks only the first can ever fail, and when it does |

## Left out

- Storage.MemoryStore.RelationsForAssertions: a multiset, because the source visits a set and leaves the order open.
- Adaptive.Retriever.AdaptiveSearch: excludes an initial budget of zero under a positive maximum, where the source never returns (`Adaptive.Retriever.DoublingEnds`).
- Resolution.ScalableQueryPlanner.Subject: takes the predicate as a parameter; intent, predicate phrases and time phrases of a question are single-branch lookups.
- Retrieval.RetrievalIndex.Hybrid: takes the two cosine scores as functions; vectorizers and concept normalization are not modelled.
- Documents.BuildDocs: subjects, predicates and intervals of a document are sets, because no modelled code observes the order of those tuples; document positions are unused.
- Topology.BuildTopologyCase: node ids are a datatype, one constructor for each string format.
- Floating-point rounding, and the logarithm beyond the facts listed above.
- Object values of assertions, except for their `repr`.
- The search modes `semantic_only`, `lexical_only` and `hybrid_text`: easy members over the external scorer.
- `relations_to`, state cells beyond the status that coverage reads, projection and reconciliation.
- `invalidate_nodes`, `mark_rebuilding`, `mark_fresh` and reconstruction order of the dependency graph.
- Negative limits and budgets, which Python slices give another meaning.
- Everything under `storage/` except the placement arithmetic of aligned generations, and all workers, crash simulators and SQLite files.
