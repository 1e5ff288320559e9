/** The level evaluator shared by the recommendations page (recommendations/page.tsx) and the old
    profile page (profile/page_old.tsx): for each stored dimension record and each capability level
    of that dimension, the level is completed when all its questions were answered yes. */
module Levels {
  import opened Seqs
  import opened Records

  /** `lvl.question_ids.every(qid => answersObj[qid] === true)`. */
  predicate Attained(level: CapabilityLevel, answers: map<string, bool>)
  {
    forall i :: 0 <= i < |level.questionIds| ==> AnsweredYes(answers, level.questionIds[i])
  }

  /** The codes the inner loop pushes for one dimension record, in level order. */
  function AttainedIn(rec: DimensionRecord, levels: seq<CapabilityLevel>): seq<string>
  {
    if |levels| == 0 then []
    else
      var lvl := levels[|levels| - 1];
      AttainedIn(rec, levels[..|levels| - 1])
        + (if lvl.dimensionId == rec.dimensionId && Attained(lvl, rec.answers) then [lvl.short] else [])
  }

  /** The whole `completed` list: records in order, and for each, its attained levels in order. */
  function Completed(userAnswers: seq<DimensionRecord>, levels: seq<CapabilityLevel>): seq<string>
  {
    FlatMap(userAnswers, rec => AttainedIn(rec, levels))
  }

  /** The nested loops that build `completed` with `push`. */
  method CompletedLevels(userAnswers: seq<DimensionRecord>, levels: seq<CapabilityLevel>) returns (completed: seq<string>)
    ensures completed == Completed(userAnswers, levels)
  {
    completed := [];
    var i := 0;
    while i < |userAnswers|
      invariant 0 <= i <= |userAnswers|
      invariant completed == Completed(userAnswers[..i], levels)
    {
      var dim := userAnswers[i];
      var j := 0;
      while j < |levels|
        invariant 0 <= j <= |levels|
        invariant completed == Completed(userAnswers[..i], levels) + AttainedIn(dim, levels[..j])
      {
        var lvl := levels[j];
        if lvl.dimensionId == dim.dimensionId && Attained(lvl, dim.answers) {
          completed := completed + [lvl.short];
        }
        assert levels[..j + 1][..j] == levels[..j];
        j := j + 1;
      }
      assert levels[..j] == levels;
      assert userAnswers[..i + 1][..i] == userAnswers[..i];
      i := i + 1;
    }
    assert userAnswers[..i] == userAnswers;
  }

  lemma {:induction false} AttainedInMember(rec: DimensionRecord, levels: seq<CapabilityLevel>, x: string)
    ensures x in AttainedIn(rec, levels) <==>
      exists j :: 0 <= j < |levels| && levels[j].short == x
        && levels[j].dimensionId == rec.dimensionId && Attained(levels[j], rec.answers)
  {
    if |levels| > 0 {
      var p := levels[..|levels| - 1];
      AttainedInMember(rec, p, x);
      assert forall j :: 0 <= j < |p| ==> p[j] == levels[j];
    }
  }

  /** A code is completed iff some stored record and some level of the same dimension agree on it
      and every question of that level is answered exactly `true` in that record. */
  lemma CompletedIff(userAnswers: seq<DimensionRecord>, levels: seq<CapabilityLevel>, x: string)
    ensures x in Completed(userAnswers, levels) <==>
      exists i, j :: 0 <= i < |userAnswers| && 0 <= j < |levels| && levels[j].short == x
        && levels[j].dimensionId == userAnswers[i].dimensionId && Attained(levels[j], userAnswers[i].answers)
  {
    FlatMapMember(userAnswers, rec => AttainedIn(rec, levels), x);
    forall i | 0 <= i < |userAnswers| {
      AttainedInMember(userAnswers[i], levels, x);
    }
  }

  /** A level with no questions is completed as soon as its dimension has a stored record. */
  lemma EmptyLevelCompleted(userAnswers: seq<DimensionRecord>, levels: seq<CapabilityLevel>, i: nat, j: nat)
    requires i < |userAnswers| && j < |levels|
    requires levels[j].questionIds == [] && levels[j].dimensionId == userAnswers[i].dimensionId
    ensures levels[j].short in Completed(userAnswers, levels)
  {
    CompletedIff(userAnswers, levels, levels[j].short);
  }

  /** A level with a question that is unanswered or answered false is never completed by this record,
      for example `{D1-Q1: true, D1-Q2: false}` does not complete a level with questions D1-Q1 and D1-Q2. */
  lemma PartialNotAttained(level: CapabilityLevel, answers: map<string, bool>, k: nat)
    requires k < |level.questionIds|
    requires !AnsweredYes(answers, level.questionIds[k])
    ensures !Attained(level, answers)
  {
  }

  /** `levels.filter(cl => cl.dimension_id === dim)`: the levels of one dimension, in order. */
  function DimLevels(levels: seq<CapabilityLevel>, dim: string): seq<CapabilityLevel>
  {
    if |levels| == 0 then []
    else
      var last := levels[|levels| - 1];
      DimLevels(levels[..|levels| - 1], dim) + (if last.dimensionId == dim then [last] else [])
  }

  /** The levels of a dimension are the filter of the level list by dimension. */
  lemma {:induction false} DimLevelsFilter(levels: seq<CapabilityLevel>, dim: string)
    ensures DimLevels(levels, dim) == Filter(levels, (cl: CapabilityLevel) => cl.dimensionId == dim)
  {
    if |levels| > 0 {
      DimLevelsFilter(levels[..|levels| - 1], dim);
    }
  }

  /** The levels whose code is listed, in `allLevels` order: `allLevels.filter(cl => codes.includes(cl.cl_short))`. */
  function LevelsWithCodes(allLevels: seq<CapabilityLevel>, codes: seq<string>): seq<CapabilityLevel>
  {
    Filter(allLevels, (cl: CapabilityLevel) => cl.short in codes)
  }

  /** The levels selected by codes keep the order of `allLevels` and are exactly the levels with those
      codes, each as often as in `allLevels`. */
  lemma LevelsWithCodesOrdered(allLevels: seq<CapabilityLevel>, codes: seq<string>)
    ensures IsSubseq(LevelsWithCodes(allLevels, codes), allLevels)
    ensures forall cl :: cl in LevelsWithCodes(allLevels, codes) <==> cl in allLevels && cl.short in codes
    ensures forall cl :: multiset(LevelsWithCodes(allLevels, codes))[cl] == (if cl.short in codes then multiset(allLevels)[cl] else 0)
  {
    FilterCount(allLevels, (cl: CapabilityLevel) => cl.short in codes);
  }

}
