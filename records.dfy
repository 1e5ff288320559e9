/** The record shapes the pages read from the backing store. Fetches are not modelled:
    each page receives these records as parameters. */
module Records {
  import opened Wrappers

  /** One element of a user's `answers` array: a dimension's question/answer map and notes. */
  datatype DimensionRecord = DimensionRecord(dimensionId: string, notes: string, answers: map<string, bool>)

  /** A row of `capability_levels`. An absent `actions` or `fair_services` object is the empty map,
      an absent `level_actions` the empty list, as the roadmap reads them (`level.actions?.[qid]`).
      The recommendations page types `actions` as non-null and indexes it directly, so there a row
      without it would throw once its dimension has a record; the model assumes it is present. In
      `fairServices` the key "fair_services" holds the global list and every other key a
      per-question list. */
  datatype CapabilityLevel = CapabilityLevel(
    id: string,
    short: string,
    name: string,
    dimensionId: string,
    questionIds: seq<string>,
    actions: map<string, seq<string>>,
    fairServices: map<string, seq<string>>,
    levelActions: seq<string>)

  /** A row of `level_dependencies`; `dependencies` may be null. */
  datatype Dependency = Dependency(level: string, dependencies: Option<seq<string>>)

  /** `answers.find(ua => ua.dimension_id === dim)`: the first record of that dimension. */
  function FindRecord(records: seq<DimensionRecord>, dim: string): (r: Option<DimensionRecord>)
    ensures r.None? <==> forall i :: 0 <= i < |records| ==> records[i].dimensionId != dim
    ensures r.Some? ==> exists i :: 0 <= i < |records| && records[i] == r.value && r.value.dimensionId == dim
                         && forall j :: 0 <= j < i ==> records[j].dimensionId != dim
  {
    if |records| == 0 then None
    else if records[0].dimensionId == dim then Some(records[0])
    else
      var r := FindRecord(records[1..], dim);
      assert forall i :: 1 <= i < |records| ==> records[i] == records[1..][i - 1];
      r
  }

  /** `answers[qid] === true`: the question was answered yes. */
  predicate AnsweredYes(answers: map<string, bool>, qid: string)
  {
    qid in answers && answers[qid]
  }
}
