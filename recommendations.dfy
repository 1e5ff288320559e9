/** The recommendations page (recommendations/page.tsx): completed levels, desired levels from the
    priority dimensions, single-hop gap levels from the dependency table, and the per-level action
    filter. The four fetches are parameters; a fetch that returned no data is None. */
module Recommendations {
  import opened Wrappers
  import opened Seqs
  import opened Records
  import opened Levels

  /** `allLevels.filter(lvl => priority_dimensions.includes(lvl.dimension_id)).map(lvl => lvl.cl_short)`. */
  function DesiredShorts(allLevels: seq<CapabilityLevel>, priorities: Option<seq<string>>): seq<string>
  {
    var chosen := Filter(allLevels, (l: CapabilityLevel) => priorities.Some? && l.dimensionId in priorities.value);
    seq(|chosen|, i requires 0 <= i < |chosen| => chosen[i].short)
  }

  /** The codes reachable in one hop from the desired codes: `dependencies || []` of every
      dependency row whose `level` is desired, concatenated in table order. */
  function Needed(deps: seq<Dependency>, desired: seq<string>): seq<string>
  {
    FlatMap(Filter(deps, (d: Dependency) => d.level in desired), (d: Dependency) => d.dependencies.GetOr([]))
  }

  /** `[...new Set(needed)].filter(lvl => !completed.includes(lvl) && !desiredShorts.includes(lvl))`,
      or the empty list when the dependency fetch returned nothing. */
  function GapShorts(deps: Option<seq<Dependency>>, completed: seq<string>, desired: seq<string>): seq<string>
  {
    if deps.None? then []
    else Filter(Dedup(Needed(deps.value, desired)), (x: string) => x !in completed && x !in desired)
  }

  /** The `filtered` map the loop of `filterActions` builds over `question_ids`, for a dimension
      that has answers: a question keeps its actions when it is not answered `true` and has an
      `actions` entry. */
  function KeptActions(qids: seq<string>, actions: map<string, seq<string>>, answers: map<string, bool>): map<string, seq<string>>
  {
    if |qids| == 0 then map[]
    else
      var kept := KeptActions(qids[..|qids| - 1], actions, answers);
      var q := qids[|qids| - 1];
      if !AnsweredYes(answers, q) && q in actions then kept[q := actions[q]] else kept
  }

  /** What `filterActions(cl)` returns for the actions: unchanged when the dimension has no record. */
  function FilteredActions(cl: CapabilityLevel, userAnswers: seq<DimensionRecord>): map<string, seq<string>>
  {
    match FindRecord(userAnswers, cl.dimensionId)
    case None => cl.actions
    case Some(rec) => KeptActions(cl.questionIds, cl.actions, rec.answers)
  }

  /** `{...cl, ...filterActions(cl)}`: the level with its actions filtered; `fair_services` and
      `level_actions` are copied unchanged. */
  function WithFilteredActions(levels: seq<CapabilityLevel>, userAnswers: seq<DimensionRecord>): (r: seq<CapabilityLevel>)
    ensures |r| == |levels|
  {
    seq(|levels|, i requires 0 <= i < |levels| => levels[i].(actions := FilteredActions(levels[i], userAnswers)))
  }

  /** `filterActions`: the loop over `question_ids` filling `filtered`. */
  method FilterActions(cl: CapabilityLevel, userAnswers: seq<DimensionRecord>)
    returns (actions: map<string, seq<string>>, fairServices: map<string, seq<string>>, levelActions: seq<string>)
    ensures actions == FilteredActions(cl, userAnswers)
    ensures fairServices == cl.fairServices && levelActions == cl.levelActions
  {
    fairServices, levelActions := cl.fairServices, cl.levelActions;
    var dimAnswers := FindRecord(userAnswers, cl.dimensionId);
    if dimAnswers.None? {
      actions := cl.actions;
      return;
    }
    var answers := dimAnswers.value.answers;
    var filtered: map<string, seq<string>> := map[];
    var i := 0;
    while i < |cl.questionIds|
      invariant 0 <= i <= |cl.questionIds|
      invariant filtered == KeptActions(cl.questionIds[..i], cl.actions, answers)
    {
      var qid := cl.questionIds[i];
      if !AnsweredYes(answers, qid) && qid in cl.actions {
        filtered := filtered[qid := cl.actions[qid]];
      }
      assert cl.questionIds[..i + 1][..i] == cl.questionIds[..i];
      i := i + 1;
    }
    assert cl.questionIds[..i] == cl.questionIds;
    actions := filtered;
  }

  /** The data flow of `loadData`: completed levels, desired and gap codes, and the two level lists
      with their actions filtered. */
  method Recommend(allLevels: seq<CapabilityLevel>, stored: Option<seq<DimensionRecord>>,
                   priorities: Option<seq<string>>, deps: Option<seq<Dependency>>)
    returns (gapLevels: seq<CapabilityLevel>, desiredLevels: seq<CapabilityLevel>)
    ensures var ua := stored.GetOr([]);
            var desired := DesiredShorts(allLevels, priorities);
            && gapLevels == WithFilteredActions(LevelsWithCodes(allLevels, GapShorts(deps, Completed(ua, allLevels), desired)), ua)
            && desiredLevels == WithFilteredActions(LevelsWithCodes(allLevels, desired), ua)
  {
    var userAnswers := stored.GetOr([]);
    var completed := CompletedLevels(userAnswers, allLevels);
    var desired := DesiredShorts(allLevels, priorities);
    var gap := GapShorts(deps, completed, desired);
    gapLevels := WithFilteredActions(LevelsWithCodes(allLevels, gap), userAnswers);
    desiredLevels := WithFilteredActions(LevelsWithCodes(allLevels, desired), userAnswers);
  }

  // ---------------------------------------------------------------------------
  // Properties

  /** The desired codes are exactly the codes of the levels in a priority dimension. */
  lemma DesiredIff(allLevels: seq<CapabilityLevel>, priorities: Option<seq<string>>, x: string)
    ensures x in DesiredShorts(allLevels, priorities) <==>
      priorities.Some? && exists j :: 0 <= j < |allLevels| && allLevels[j].short == x && allLevels[j].dimensionId in priorities.value
  {
    var p := (l: CapabilityLevel) => priorities.Some? && l.dimensionId in priorities.value;
    var chosen := Filter(allLevels, p);
    var r := DesiredShorts(allLevels, priorities);
    if x in r {
      var i :| 0 <= i < |r| && r[i] == x;
      assert chosen[i] in allLevels;
    }
    if priorities.Some? && exists j :: 0 <= j < |allLevels| && allLevels[j].short == x && allLevels[j].dimensionId in priorities.value {
      var j :| 0 <= j < |allLevels| && allLevels[j].short == x && allLevels[j].dimensionId in priorities.value;
      assert allLevels[j] in chosen;
      var i :| 0 <= i < |chosen| && chosen[i] == allLevels[j];
      assert r[i] == x;
    }
  }

  /** The gap codes contain no duplicates and nothing completed or desired. */
  lemma GapDisjoint(deps: Option<seq<Dependency>>, completed: seq<string>, desired: seq<string>)
    ensures NoDups(GapShorts(deps, completed, desired))
    ensures forall x :: x in GapShorts(deps, completed, desired) ==> x !in completed && x !in desired
  {
    if deps.Some? {
      var d := Dedup(Needed(deps.value, desired));
      FilterKeepsNoDups(d, (x: string) => x !in completed && x !in desired);
    }
  }

  /** Filtering a duplicate-free list leaves it duplicate-free. */
  lemma {:induction false} FilterKeepsNoDups<T(!new)>(s: seq<T>, p: T -> bool)
    requires NoDups(s)
    ensures NoDups(Filter(s, p))
  {
    if |s| > 0 {
      var init := s[..|s| - 1];
      assert NoDups(init);
      FilterKeepsNoDups(init, p);
      assert s[|s| - 1] !in init;
    }
  }

  /** A code is a gap iff it is a direct (single-hop) dependency of some desired level and is
      neither completed nor desired. Dependencies of dependencies are not followed. */
  lemma GapIff(deps: seq<Dependency>, completed: seq<string>, desired: seq<string>, x: string)
    ensures x in GapShorts(Some(deps), completed, desired) <==>
      x !in completed && x !in desired &&
      exists i :: 0 <= i < |deps| && deps[i].level in desired && x in deps[i].dependencies.GetOr([])
  {
    var p := (d: Dependency) => d.level in desired;
    var f := (d: Dependency) => d.dependencies.GetOr([]);
    var chosen := Filter(deps, p);
    FlatMapMember(chosen, f, x);
    if x in Needed(deps, desired) {
      var k :| 0 <= k < |chosen| && x in f(chosen[k]);
      assert chosen[k] in deps;
      var i :| 0 <= i < |deps| && deps[i] == chosen[k];
      assert deps[i].level in desired && x in deps[i].dependencies.GetOr([]);
    }
    if exists i :: 0 <= i < |deps| && deps[i].level in desired && x in deps[i].dependencies.GetOr([]) {
      var i :| 0 <= i < |deps| && deps[i].level in desired && x in deps[i].dependencies.GetOr([]);
      assert deps[i] in chosen;
      var k :| 0 <= k < |chosen| && chosen[k] == deps[i];
      assert x in f(chosen[k]);
    }
  }

  /** Priority D1-L2 depends on D1-L1, which is already completed, so there is no gap. */
  lemma NoGapExample()
    ensures GapShorts(Some([Dependency("D1-L2", Some(["D1-L1"]))]), ["D1-L1"], ["D1-L2"]) == []
  {
    var deps := [Dependency("D1-L2", Some(["D1-L1"]))];
    GapIff(deps, ["D1-L1"], ["D1-L2"], "D1-L1");
  }

  /** The keys kept by the action filter are exactly the level's questions that have an actions
      entry and are not answered `true`; each keeps its own action list. */
  lemma {:induction false} KeptActionsIff(qids: seq<string>, actions: map<string, seq<string>>, answers: map<string, bool>)
    ensures KeptActions(qids, actions, answers).Keys == set q | q in qids && q in actions && !AnsweredYes(answers, q)
    ensures forall q :: q in KeptActions(qids, actions, answers) ==> KeptActions(qids, actions, answers)[q] == actions[q]
  {
    if |qids| > 0 {
      var init := qids[..|qids| - 1];
      KeptActionsIff(init, actions, answers);
      assert qids == init + [qids[|qids| - 1]];
    }
  }

  /** With no record for the level's dimension every action is kept; otherwise the filter applies.
      `fair_services` and `level_actions` are never touched. */
  lemma FilteredActionsCases(cl: CapabilityLevel, userAnswers: seq<DimensionRecord>)
    ensures (forall i :: 0 <= i < |userAnswers| ==> userAnswers[i].dimensionId != cl.dimensionId)
            ==> FilteredActions(cl, userAnswers) == cl.actions
    ensures FilteredActions(cl, userAnswers).Keys <= cl.actions.Keys
    ensures forall q :: q in FilteredActions(cl, userAnswers) ==> FilteredActions(cl, userAnswers)[q] == cl.actions[q]
  {
    var r := FindRecord(userAnswers, cl.dimensionId);
    if r.Some? {
      KeptActionsIff(cl.questionIds, cl.actions, r.value.answers);
    }
  }
}
