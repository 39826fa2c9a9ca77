/** The canonical records of the memory. */
module Models {
  import opened Prelude

  datatype EvidenceRecord = EvidenceRecord(
    id: string, payload: string, sourceId: string, recordedSeq: int,
    sourceEventTime: Option<int>, scope: string, lifecycle: string)

  /** `objectValue` stands for the `repr` of the asserted value, the only view ever taken of it. */
  datatype Assertion = Assertion(
    id: string, subjectId: string, predicateId: string, objectValue: string, recordedSeq: int,
    validFrom: Option<int>, validTo: Option<int>, modality: string, polarity: string,
    evidenceIds: seq<string>, extractionVersion: string)
  {
    function Key(): StateKey {
      StateKey(subjectId, predicateId, "default")
    }
  }

  datatype StateKey = StateKey(subjectId: string, predicateId: string, scope: string)

  datatype RelationType = Corrects | Supersedes | Contradicts | Refines

  datatype AssertionRelation = AssertionRelation(
    sourceAssertionId: string, relation: RelationType, targetAssertionId: string)

  datatype StateStatus = Resolved | Contested | Unknown

  datatype StateCell = StateCell(
    key: StateKey, operativeValues: seq<string>, status: StateStatus,
    supportingAssertionIds: seq<string>, competingAssertionIds: seq<string>,
    historicalAssertionIds: seq<string>, version: int)

  datatype QueryCase = QueryCase(
    id: string, questionType: string, subjectId: string, predicateId: string,
    asOfValidTime: Option<int>, asOfRecordedSeq: Option<int>, questionText: Option<string>)

  /** Every record is stored under its own identifier. */
  ghost predicate EvidenceKeyed(evidence: map<string, EvidenceRecord>) {
    forall id :: id in evidence ==> evidence[id].id == id
  }

  ghost predicate AssertionsKeyed(assertions: map<string, Assertion>) {
    forall id :: id in assertions ==> assertions[id].id == id
  }
}
