/** The roadmap step derivation of components/Roadmap.tsx (components/Roadmap2.tsx repeats it
    line for line): one step per capability level with the level's unmet questions, their actions,
    the FAIR services and a completion flag. */
module Roadmap {
  import opened Wrappers
  import opened Seqs
  import opened Records

  datatype Step = Step(
    id: string,
    short: string,
    name: string,
    notDoneActions: seq<string>,
    fairServices: seq<string>,
    levelActions: seq<string>,
    isCompleted: bool)

  /** The question ids the dimension's record answers truthily (`userAnsweredYes`); none without a record. */
  predicate AnsweredTruthy(rec: Option<DimensionRecord>, qid: string)
  {
    rec.Some? && AnsweredYes(rec.value.answers, qid)
  }

  /** `level.question_ids.filter(qid => !userAnsweredYes.includes(qid))`. */
  function NotDoneQIds(level: CapabilityLevel, rec: Option<DimensionRecord>): seq<string>
  {
    Filter(level.questionIds, (q: string) => !AnsweredTruthy(rec, q))
  }

  /** `level.actions?.[qid] || []`. */
  function ActionsFor(level: CapabilityLevel, qid: string): seq<string>
  {
    if qid in level.actions then level.actions[qid] else []
  }

  /** `notDoneQIds.flatMap(qid => level.actions?.[qid] || []).filter(Boolean)`. */
  function NotDoneActions(level: CapabilityLevel, notDone: seq<string>): seq<string>
  {
    Filter(FlatMap(notDone, (q: string) => ActionsFor(level, q)), (a: string) => a != "")
  }

  /** The per-question FAIR services array of `qid`, if any. The global list sits under the key
      "fair_services", so a question with that id picks it up as well. */
  function PerQuestionFair(level: CapabilityLevel, qid: string): seq<string>
  {
    if qid in level.fairServices then level.fairServices[qid] else []
  }

  /** The `allFairServices` list: per-question services of the unmet questions in order, then the
      global list. */
  function FairServicesOf(level: CapabilityLevel, notDone: seq<string>): seq<string>
  {
    FlatMap(notDone, (q: string) => PerQuestionFair(level, q)) + PerQuestionFair(level, "fair_services")
  }

  /** The step for one level, given the first record of its dimension. */
  function StepOf(level: CapabilityLevel, userAnswers: seq<DimensionRecord>): Step
  {
    var notDone := NotDoneQIds(level, FindRecord(userAnswers, level.dimensionId));
    var actions := NotDoneActions(level, notDone);
    Step(level.id, level.short, level.name, actions, FairServicesOf(level, notDone), level.levelActions, actions == [])
  }

  /** `mergedSteps`: `levels.map(...)`. */
  function StepsOf(levels: seq<CapabilityLevel>, userAnswers: seq<DimensionRecord>): (steps: seq<Step>)
    ensures |steps| == |levels|
  {
    seq(|levels|, i requires 0 <= i < |levels| => StepOf(levels[i], userAnswers))
  }

  /** The `forEach` that pushes the per-question services, then the global list. */
  method CollectFairServices(level: CapabilityLevel, notDone: seq<string>) returns (all: seq<string>)
    ensures all == FairServicesOf(level, notDone)
  {
    all := [];
    var i := 0;
    while i < |notDone|
      invariant 0 <= i <= |notDone|
      invariant all == FlatMap(notDone[..i], (q: string) => PerQuestionFair(level, q))
    {
      var qid := notDone[i];
      if qid in level.fairServices {
        all := all + level.fairServices[qid];
      }
      assert notDone[..i + 1][..i] == notDone[..i];
      i := i + 1;
    }
    assert notDone[..i] == notDone;
    if "fair_services" in level.fairServices {
      all := all + level.fairServices["fair_services"];
    }
  }

  /** The body of the `map` callback: one level's step. */
  method BuildStep(level: CapabilityLevel, userAnswers: seq<DimensionRecord>) returns (step: Step)
    ensures step == StepOf(level, userAnswers)
  {
    var notDone := NotDoneQIds(level, FindRecord(userAnswers, level.dimensionId));
    var actions := NotDoneActions(level, notDone);
    var fair := CollectFairServices(level, notDone);
    step := Step(level.id, level.short, level.name, actions, fair, level.levelActions, |actions| == 0);
  }

  /** The effect that builds `mergedSteps`, one level at a time. */
  method MergedSteps(levels: seq<CapabilityLevel>, userAnswers: seq<DimensionRecord>) returns (steps: seq<Step>)
    ensures steps == StepsOf(levels, userAnswers)
  {
    steps := [];
    var i := 0;
    while i < |levels|
      invariant 0 <= i <= |levels|
      invariant steps == StepsOf(levels[..i], userAnswers)
    {
      var step := BuildStep(levels[i], userAnswers);
      StepsOfSnoc(levels[..i], levels[i], userAnswers);
      assert levels[..i + 1] == levels[..i] + [levels[i]];
      steps := steps + [step];
      i := i + 1;
    }
    assert levels[..i] == levels;
  }

  lemma StepsOfSnoc(levels: seq<CapabilityLevel>, level: CapabilityLevel, userAnswers: seq<DimensionRecord>)
    ensures StepsOf(levels + [level], userAnswers) == StepsOf(levels, userAnswers) + [StepOf(level, userAnswers)]
  {
    var l := levels + [level];
    assert forall k :: 0 <= k < |levels| ==> l[k] == levels[k];
  }

  // ---------------------------------------------------------------------------
  // Properties

  /** One step per level, in level order, carrying the level's identity and level actions. */
  lemma StepsFollowLevels(levels: seq<CapabilityLevel>, userAnswers: seq<DimensionRecord>)
    ensures |StepsOf(levels, userAnswers)| == |levels|
    ensures forall i :: 0 <= i < |levels| ==>
      var s := StepsOf(levels, userAnswers)[i];
      s.id == levels[i].id && s.short == levels[i].short && s.levelActions == levels[i].levelActions
  {
  }

  /** The unmet questions keep `question_ids` order and are exactly those without a truthy answer
      in the first record of the level's dimension; with no such record all are unmet. */
  lemma NotDoneExactly(level: CapabilityLevel, userAnswers: seq<DimensionRecord>)
    ensures var rec := FindRecord(userAnswers, level.dimensionId);
      && IsSubseq(NotDoneQIds(level, rec), level.questionIds)
      && forall q :: q in NotDoneQIds(level, rec) <==> q in level.questionIds && !AnsweredTruthy(rec, q)
    ensures var rec := FindRecord(userAnswers, level.dimensionId);
      forall q :: multiset(NotDoneQIds(level, rec))[q] == (if AnsweredTruthy(rec, q) then 0 else multiset(level.questionIds)[q])
    ensures (forall i :: 0 <= i < |userAnswers| ==> userAnswers[i].dimensionId != level.dimensionId)
      ==> NotDoneQIds(level, FindRecord(userAnswers, level.dimensionId)) == level.questionIds
  {
    var rec := FindRecord(userAnswers, level.dimensionId);
    FilterCount(level.questionIds, (q: string) => !AnsweredTruthy(rec, q));
    if rec.None? {
      FilterAll(level.questionIds, (q: string) => !AnsweredTruthy(rec, q));
    }
  }

  /** Filtering with a predicate that holds everywhere returns the sequence. */
  lemma {:induction false} FilterAll<T(!new)>(s: seq<T>, p: T -> bool)
    requires forall x :: x in s ==> p(x)
    ensures Filter(s, p) == s
  {
    if |s| > 0 {
      FilterAll(s[..|s| - 1], p);
      assert s == s[..|s| - 1] + [s[|s| - 1]];
    }
  }

  /** The unmet actions are the non-empty actions of the unmet questions, found in their lists. */
  lemma NotDoneActionsExactly(level: CapabilityLevel, notDone: seq<string>, a: string)
    ensures a in NotDoneActions(level, notDone) <==>
      a != "" && exists i :: 0 <= i < |notDone| && a in ActionsFor(level, notDone[i])
  {
    FlatMapMember(notDone, (q: string) => ActionsFor(level, q), a);
  }

  /** A step is completed iff it has no unmet actions, so unmet questions without actions do not
      keep it open. */
  lemma CompletedIffNoActions(level: CapabilityLevel, userAnswers: seq<DimensionRecord>)
    ensures var s := StepOf(level, userAnswers);
      s.isCompleted <==> s.notDoneActions == []
    ensures (forall q :: q in level.questionIds ==> ActionsFor(level, q) == [])
      ==> StepOf(level, userAnswers).isCompleted
  {
    var notDone := NotDoneQIds(level, FindRecord(userAnswers, level.dimensionId));
    if forall q :: q in level.questionIds ==> ActionsFor(level, q) == [] {
      NoActionsFlatten(level, notDone);
    }
  }

  lemma {:induction false} NoActionsFlatten(level: CapabilityLevel, qs: seq<string>)
    requires forall q :: q in qs ==> ActionsFor(level, q) == []
    ensures FlatMap(qs, (q: string) => ActionsFor(level, q)) == []
  {
    if |qs| > 0 {
      NoActionsFlatten(level, qs[..|qs| - 1]);
    }
  }

  /** The FAIR services list holds exactly the per-question services of the unmet questions and
      the global list, and ends with the global list; a level without a `fair_services` object has
      none. */
  lemma FairServicesOrder(level: CapabilityLevel, notDone: seq<string>)
    ensures forall x :: x in FairServicesOf(level, notDone) <==>
              x in PerQuestionFair(level, "fair_services")
              || exists i :: 0 <= i < |notDone| && x in PerQuestionFair(level, notDone[i])
    ensures FairServicesOf(level, notDone)[|FairServicesOf(level, notDone)| - |PerQuestionFair(level, "fair_services")|..]
            == PerQuestionFair(level, "fair_services")
    ensures level.fairServices == map[] ==> FairServicesOf(level, notDone) == []
  {
    forall x {
      FlatMapMember(notDone, (q: string) => PerQuestionFair(level, q), x);
    }
    if level.fairServices == map[] {
      NoFairFlatten(level, notDone);
    }
  }

  lemma {:induction false} NoFairFlatten(level: CapabilityLevel, qs: seq<string>)
    requires level.fairServices == map[]
    ensures FlatMap(qs, (q: string) => PerQuestionFair(level, q)) == []
  {
    if |qs| > 0 {
      NoFairFlatten(level, qs[..|qs| - 1]);
    }
  }
}
