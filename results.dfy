/** The results page (results/page.tsx): `calculateProgress` turns the stored answer records into a
    percentage per dimension and level, each table cell gets a category from its percentage, and
    the priority checkboxes are flags flipped per dimension. */
module Results {
  import opened Wrappers
  import opened Seqs
  import opened Strings
  import opened Records
  import opened Levels
  import opened Percent
  import Flags

  /** `question_ids.filter(qid => userAns[qid]).length`: the questions answered yes, duplicates counted. */
  function YesCount(qids: seq<string>, answers: map<string, bool>): (n: nat)
    ensures n <= |qids|
    ensures n == |qids| <==> forall i :: 0 <= i < |qids| ==> AnsweredYes(answers, qids[i])
    ensures n == 0 <==> forall i :: 0 <= i < |qids| ==> !AnsweredYes(answers, qids[i])
  {
    if |qids| == 0 then 0
    else
      var init := qids[..|qids| - 1];
      assert forall i :: 0 <= i < |init| ==> init[i] == qids[i];
      YesCount(init, answers) + (if AnsweredYes(answers, qids[|qids| - 1]) then 1 else 0)
  }

  /** `pct`: 0 for a level without questions, otherwise the rounded share of yes answers. */
  function LevelPct(level: CapabilityLevel, answers: map<string, bool>): (pct: nat)
    ensures pct <= 100
    ensures |level.questionIds| == 0 ==> pct == 0
    ensures |level.questionIds| > 0 && (forall i :: 0 <= i < |level.questionIds| ==> AnsweredYes(answers, level.questionIds[i])) ==> pct == 100
    ensures (forall i :: 0 <= i < |level.questionIds| ==> !AnsweredYes(answers, level.questionIds[i])) ==> pct == 0
  {
    var total := |level.questionIds|;
    if total == 0 then 0
    else
      var yes := YesCount(level.questionIds, answers);
      RoundPercentRange(yes, total);
      RoundPercentEnds(total);
      RoundPercent(yes, total)
  }

  /** The property name an `undefined` key becomes. */
  const UndefinedKey: string := "undefined"

  /** `cl_short.split('-')[1]`, used as a property name: "undefined" when the code has no '-'. */
  function LevelKey(short: string): string
  {
    SecondSegment(short, '-').GetOr(UndefinedKey)
  }

  /** One assignment `progress[dim][levelNum] = pct` of the inner loop. */
  datatype Write = Write(key: string, pct: nat)

  function LevelWrite(level: CapabilityLevel, answers: map<string, bool>): Write
  {
    Write(LevelKey(level.short), LevelPct(level, answers))
  }

  /** The writes of the inner `forEach` over the given levels, in order. */
  function LevelWrites(levels: seq<CapabilityLevel>, answers: map<string, bool>): (ws: seq<Write>)
    ensures |ws| == |levels|
  {
    if |levels| == 0 then []
    else LevelWrites(levels[..|levels| - 1], answers) + [LevelWrite(levels[|levels| - 1], answers)]
  }

  /** A sequence of writes applied to an object in order, later writes overwriting earlier ones. */
  function Apply(inner: map<string, nat>, ws: seq<Write>): map<string, nat>
  {
    if |ws| == 0 then inner
    else Apply(inner, ws[..|ws| - 1])[ws[|ws| - 1].key := ws[|ws| - 1].pct]
  }

  /** One step of the outer `forEach`: the entry's dimension gets an object (kept if it exists) and
      the levels of that dimension are written into it. */
  function EntryStep(progress: map<string, map<string, nat>>, entry: DimensionRecord, capLevels: seq<CapabilityLevel>): map<string, map<string, nat>>
  {
    var dim := entry.dimensionId;
    var inner := if dim in progress then progress[dim] else map[];
    progress[dim := Apply(inner, LevelWrites(DimLevels(capLevels, dim), entry.answers))]
  }

  /** The `progress` object after the outer loop over the answer records. */
  function ProgressOf(userAnswers: seq<DimensionRecord>, capLevels: seq<CapabilityLevel>): map<string, map<string, nat>>
  {
    if |userAnswers| == 0 then map[]
    else EntryStep(ProgressOf(userAnswers[..|userAnswers| - 1], capLevels), userAnswers[|userAnswers| - 1], capLevels)
  }

  lemma ApplySnoc(inner: map<string, nat>, ws: seq<Write>, w: Write)
    ensures Apply(inner, ws + [w]) == Apply(inner, ws)[w.key := w.pct]
  {
    assert (ws + [w])[..|ws|] == ws;
  }

  /** The inner `forEach` of `calculateProgress`: each level of the record's dimension writes its
      percentage into the dimension's object `progress[dim]`, here `inner`. */
  method WriteLevels(inner: map<string, nat>, levels: seq<CapabilityLevel>, answers: map<string, bool>)
    returns (updated: map<string, nat>)
    ensures updated == Apply(inner, LevelWrites(levels, answers))
  {
    updated := inner;
    var j := 0;
    while j < |levels|
      invariant 0 <= j <= |levels|
      invariant updated == Apply(inner, LevelWrites(levels[..j], answers))
    {
      var level := levels[j];
      var pct := LevelPct(level, answers);
      var levelNum := LevelKey(level.short);
      assert levels[..j + 1][..j] == levels[..j];
      ApplySnoc(inner, LevelWrites(levels[..j], answers), Write(levelNum, pct));
      updated := updated[levelNum := pct];
      j := j + 1;
    }
    assert levels[..j] == levels;
  }

  /** `calculateProgress`: the outer `forEach` over the answer records. */
  method CalculateProgress(userAnswers: seq<DimensionRecord>, capLevels: seq<CapabilityLevel>) returns (progress: map<string, map<string, nat>>)
    ensures progress == ProgressOf(userAnswers, capLevels)
  {
    progress := map[];
    var i := 0;
    while i < |userAnswers|
      invariant 0 <= i <= |userAnswers|
      invariant progress == ProgressOf(userAnswers[..i], capLevels)
    {
      var entry := userAnswers[i];
      var dim := entry.dimensionId;
      var levels := DimLevels(capLevels, dim);
      ghost var prev := progress;
      if dim !in progress {
        progress := progress[dim := map[]];
      }
      var inner := WriteLevels(progress[dim], levels, entry.answers);
      progress := progress[dim := inner];
      assert progress == EntryStep(prev, entry, capLevels);
      assert userAnswers[..i + 1][..i] == userAnswers[..i];
      i := i + 1;
    }
    assert userAnswers[..i] == userAnswers;
  }

  /** The level columns of the table. */
  const LevelColumns: seq<string> := ["L1", "L2", "L3", "L4", "L5"]

  /** `(progressMap[dim] || {})[level] ?? 0`: the value shown in a cell. */
  function CellValue(progress: map<string, map<string, nat>>, dim: string, level: string): (v: nat)
    ensures dim !in progress || level !in progress[dim] ==> v == 0
    ensures dim in progress && level in progress[dim] ==> v == progress[dim][level]
  {
    if dim in progress && level in progress[dim] then progress[dim][level] else 0
  }

  datatype CellClass = Full | Partial | Low | Empty

  /** The classes `classNames` switches on for a cell value. */
  function CellClasses(v: int): set<CellClass>
  {
    (if v == 100 then {Full} else {})
      + (if 50 <= v < 100 then {Partial} else {})
      + (if 0 < v < 50 then {Low} else {})
      + (if v == 0 then {Empty} else {})
  }

  /** `priorityToggles[dim] || false` after `togglePriority(dim)`. */
  function TogglePriority(toggles: map<string, bool>, dim: string): (r: map<string, bool>)
    ensures Flags.Flag(r, dim) == !Flags.Flag(toggles, dim)
    ensures forall d :: d != dim ==> Flags.Flag(r, d) == Flags.Flag(toggles, d)
  {
    Flags.Toggle(toggles, dim)
  }

  // ---------------------------------------------------------------------------
  // Properties

  function AnsweredDims(userAnswers: seq<DimensionRecord>): set<string>
  {
    set i | 0 <= i < |userAnswers| :: userAnswers[i].dimensionId
  }

  function LevelKeys(capLevels: seq<CapabilityLevel>, dim: string): set<string>
  {
    set j | 0 <= j < |capLevels| && capLevels[j].dimensionId == dim :: LevelKey(capLevels[j].short)
  }

  function WriteKeys(ws: seq<Write>): set<string>
  {
    set i | 0 <= i < |ws| :: ws[i].key
  }

  predicate Bounded(m: map<string, nat>)
  {
    forall k :: k in m ==> m[k] <= 100
  }

  predicate AllPercents(ws: seq<Write>)
  {
    forall i :: 0 <= i < |ws| ==> ws[i].pct <= 100
  }

  /** Applying writes adds exactly their keys. */
  lemma {:induction false} ApplyKeys(inner: map<string, nat>, ws: seq<Write>)
    ensures Apply(inner, ws).Keys == inner.Keys + WriteKeys(ws)
  {
    if |ws| > 0 {
      var init := ws[..|ws| - 1];
      ApplyKeys(inner, init);
      assert forall i :: 0 <= i < |init| ==> init[i] == ws[i];
      assert WriteKeys(ws) == WriteKeys(init) + {ws[|ws| - 1].key};
    }
  }

  /** Writes of percentages keep every value within 0..100. */
  lemma {:induction false} ApplyBounded(inner: map<string, nat>, ws: seq<Write>)
    requires Bounded(inner)
    requires AllPercents(ws)
    ensures Bounded(Apply(inner, ws))
  {
    if |ws| > 0 {
      var init := ws[..|ws| - 1];
      assert forall i :: 0 <= i < |init| ==> init[i] == ws[i];
      ApplyBounded(inner, init);
    }
  }

  /** The writes for a dimension grow by the last level when it belongs to that dimension. */
  lemma DimWritesSnoc(capLevels: seq<CapabilityLevel>, dim: string, answers: map<string, bool>)
    requires |capLevels| > 0
    ensures var last := capLevels[|capLevels| - 1];
      LevelWrites(DimLevels(capLevels, dim), answers)
        == LevelWrites(DimLevels(capLevels[..|capLevels| - 1], dim), answers) + (if last.dimensionId == dim then [LevelWrite(last, answers)] else [])
  {
    var f := DimLevels(capLevels[..|capLevels| - 1], dim);
    var last := capLevels[|capLevels| - 1];
    if last.dimensionId == dim {
      assert DimLevels(capLevels, dim) == f + [last];
      assert (f + [last])[..|f|] == f;
      assert LevelWrites(f + [last], answers) == LevelWrites(f, answers) + [LevelWrite(last, answers)];
    } else {
      assert DimLevels(capLevels, dim) == f;
    }
  }

  lemma WriteKeysSnoc(ws: seq<Write>, extra: seq<Write>)
    requires |extra| <= 1
    ensures WriteKeys(ws + extra) == WriteKeys(ws) + WriteKeys(extra)
  {
    var r := ws + extra;
    assert forall i :: 0 <= i < |ws| ==> r[i] == ws[i];
    assert forall i :: 0 <= i < |extra| ==> r[|ws| + i] == extra[i];
  }

  lemma LevelKeysSnoc(capLevels: seq<CapabilityLevel>, dim: string)
    requires |capLevels| > 0
    ensures var last := capLevels[|capLevels| - 1];
      LevelKeys(capLevels, dim) == LevelKeys(capLevels[..|capLevels| - 1], dim) + (if last.dimensionId == dim then {LevelKey(last.short)} else {})
  {
    var init := capLevels[..|capLevels| - 1];
    assert forall j :: 0 <= j < |init| ==> init[j] == capLevels[j];
  }

  /** The keys a record writes are the keys of its dimension's levels. */
  lemma {:induction false} DimWriteKeys(capLevels: seq<CapabilityLevel>, dim: string, answers: map<string, bool>)
    ensures WriteKeys(LevelWrites(DimLevels(capLevels, dim), answers)) == LevelKeys(capLevels, dim)
  {
    if |capLevels| > 0 {
      var init := capLevels[..|capLevels| - 1];
      var last := capLevels[|capLevels| - 1];
      var wf := LevelWrites(DimLevels(init, dim), answers);
      var extra := if last.dimensionId == dim then [LevelWrite(last, answers)] else [];
      var lastKeys := if last.dimensionId == dim then {LevelKey(last.short)} else {};
      DimWriteKeys(init, dim, answers);
      DimWritesSnoc(capLevels, dim, answers);
      WriteKeysSnoc(wf, extra);
      LevelKeysSnoc(capLevels, dim);
      assert WriteKeys(extra) == lastKeys by {
        if last.dimensionId == dim {
          assert extra[0].key == LevelKey(last.short);
        }
      }
      assert WriteKeys(wf + extra) == LevelKeys(init, dim) + lastKeys;
    }
  }

  /** Every write of a record is a percentage of at most 100. */
  lemma {:induction false} LevelWritesBounded(levels: seq<CapabilityLevel>, answers: map<string, bool>)
    ensures AllPercents(LevelWrites(levels, answers))
  {
    if |levels| > 0 {
      var init := LevelWrites(levels[..|levels| - 1], answers);
      LevelWritesBounded(levels[..|levels| - 1], answers);
      var ws := LevelWrites(levels, answers);
      assert ws == init + [LevelWrite(levels[|levels| - 1], answers)];
      assert forall i :: 0 <= i < |init| ==> ws[i] == init[i];
    }
  }

  /** A write to another key leaves a key's value alone. */
  lemma ApplyOtherKey(inner: map<string, nat>, ws: seq<Write>, extra: seq<Write>, k: string)
    requires |extra| <= 1 && forall i :: 0 <= i < |extra| ==> extra[i].key != k
    requires k in Apply(inner, ws)
    ensures k in Apply(inner, ws + extra) && Apply(inner, ws + extra)[k] == Apply(inner, ws)[k]
  {
    if |extra| == 1 {
      ApplySnoc(inner, ws, extra[0]);
    } else {
      assert ws + extra == ws;
    }
  }

  /** The last level of a dimension with a given key decides that key's value. */
  lemma {:induction false} DimLastWins(inner: map<string, nat>, capLevels: seq<CapabilityLevel>, dim: string, answers: map<string, bool>, j: nat)
    requires j < |capLevels| && capLevels[j].dimensionId == dim
    requires forall l :: j < l < |capLevels| && capLevels[l].dimensionId == dim ==> LevelKey(capLevels[l].short) != LevelKey(capLevels[j].short)
    ensures LevelKey(capLevels[j].short) in Apply(inner, LevelWrites(DimLevels(capLevels, dim), answers))
    ensures Apply(inner, LevelWrites(DimLevels(capLevels, dim), answers))[LevelKey(capLevels[j].short)] == LevelPct(capLevels[j], answers)
  {
    var init := capLevels[..|capLevels| - 1];
    var last := capLevels[|capLevels| - 1];
    var wf := LevelWrites(DimLevels(init, dim), answers);
    var extra := if last.dimensionId == dim then [LevelWrite(last, answers)] else [];
    DimWritesSnoc(capLevels, dim, answers);
    if j == |capLevels| - 1 {
      ApplySnoc(inner, wf, LevelWrite(last, answers));
    } else {
      assert init[j] == capLevels[j];
      DimLastWins(inner, init, dim, answers, j);
      ApplyOtherKey(inner, wf, extra, LevelKey(capLevels[j].short));
    }
  }

  lemma EntryStepKeys(progress: map<string, map<string, nat>>, entry: DimensionRecord, capLevels: seq<CapabilityLevel>)
    ensures EntryStep(progress, entry, capLevels).Keys == progress.Keys + {entry.dimensionId}
  {
  }

  /** Every answered dimension gets an entry, even one without levels, and no other dimension does. */
  lemma {:induction false} ProgressDims(userAnswers: seq<DimensionRecord>, capLevels: seq<CapabilityLevel>)
    ensures ProgressOf(userAnswers, capLevels).Keys == AnsweredDims(userAnswers)
  {
    if |userAnswers| > 0 {
      var init := userAnswers[..|userAnswers| - 1];
      var entry := userAnswers[|userAnswers| - 1];
      ProgressDims(init, capLevels);
      EntryStepKeys(ProgressOf(init, capLevels), entry, capLevels);
      assert forall i :: 0 <= i < |init| ==> init[i] == userAnswers[i];
      assert AnsweredDims(userAnswers) == AnsweredDims(init) + {entry.dimensionId};
    }
  }

  /** A dimension's entry holds exactly the keys of that dimension's levels. */
  lemma {:induction false} ProgressLevelKeys(userAnswers: seq<DimensionRecord>, capLevels: seq<CapabilityLevel>, d: string)
    requires d in ProgressOf(userAnswers, capLevels)
    ensures ProgressOf(userAnswers, capLevels)[d].Keys == LevelKeys(capLevels, d)
  {
    var init := userAnswers[..|userAnswers| - 1];
    var entry := userAnswers[|userAnswers| - 1];
    var prev := ProgressOf(init, capLevels);
    if entry.dimensionId == d {
      var inner: map<string, nat> := if d in prev then prev[d] else map[];
      if d in prev {
        ProgressLevelKeys(init, capLevels, d);
      }
      DimWriteKeys(capLevels, d, entry.answers);
      ApplyKeys(inner, LevelWrites(DimLevels(capLevels, d), entry.answers));
    } else {
      ProgressLevelKeys(init, capLevels, d);
    }
  }

  /** Every stored percentage lies between 0 and 100. */
  lemma {:induction false} ProgressBounded(userAnswers: seq<DimensionRecord>, capLevels: seq<CapabilityLevel>, d: string)
    requires d in ProgressOf(userAnswers, capLevels)
    ensures Bounded(ProgressOf(userAnswers, capLevels)[d])
  {
    var init := userAnswers[..|userAnswers| - 1];
    var entry := userAnswers[|userAnswers| - 1];
    var prev := ProgressOf(init, capLevels);
    if entry.dimensionId == d {
      var inner: map<string, nat> := if d in prev then prev[d] else map[];
      if d in prev {
        ProgressBounded(init, capLevels, d);
      }
      LevelWritesBounded(DimLevels(capLevels, d), entry.answers);
      ApplyBounded(inner, LevelWrites(DimLevels(capLevels, d), entry.answers));
    } else {
      ProgressBounded(init, capLevels, d);
    }
  }

  /** A cell shows the percentage of the last level of its dimension with that key, computed from the
      last answer record of that dimension. */
  lemma {:induction false} ProgressLastWins(userAnswers: seq<DimensionRecord>, capLevels: seq<CapabilityLevel>, i: nat, j: nat)
    requires i < |userAnswers| && j < |capLevels|
    requires forall l :: i < l < |userAnswers| ==> userAnswers[l].dimensionId != userAnswers[i].dimensionId
    requires capLevels[j].dimensionId == userAnswers[i].dimensionId
    requires forall l :: j < l < |capLevels| && capLevels[l].dimensionId == capLevels[j].dimensionId ==> LevelKey(capLevels[l].short) != LevelKey(capLevels[j].short)
    ensures var p := ProgressOf(userAnswers, capLevels); var d := userAnswers[i].dimensionId;
      d in p && LevelKey(capLevels[j].short) in p[d] && p[d][LevelKey(capLevels[j].short)] == LevelPct(capLevels[j], userAnswers[i].answers)
  {
    var init := userAnswers[..|userAnswers| - 1];
    var entry := userAnswers[|userAnswers| - 1];
    var prev := ProgressOf(init, capLevels);
    if i == |userAnswers| - 1 {
      var inner: map<string, nat> := if entry.dimensionId in prev then prev[entry.dimensionId] else map[];
      DimLastWins(inner, capLevels, entry.dimensionId, entry.answers, j);
    } else {
      assert init[i] == userAnswers[i];
      ProgressLastWins(init, capLevels, i, j);
    }
  }

  /** Every possible percentage gets exactly one of the four categories. */
  lemma CellClassExactlyOne(v: int)
    requires 0 <= v <= 100
    ensures exists c :: CellClasses(v) == {c}
  {
    if v == 100 {
      assert CellClasses(v) == {Full};
    } else if v >= 50 {
      assert CellClasses(v) == {Partial};
    } else if v > 0 {
      assert CellClasses(v) == {Low};
    } else {
      assert CellClasses(v) == {Empty};
    }
  }

  /** A dimension without answers, or a column without a matching level, shows as empty. */
  lemma MissingCellEmpty(progress: map<string, map<string, nat>>, dim: string, level: string)
    requires dim !in progress || level !in progress[dim]
    ensures CellClasses(CellValue(progress, dim, level)) == {Empty}
  {
  }

  /** A code "D1-L3" lands in column "L3"; a code without '-' lands under "undefined", which no column shows. */
  lemma LevelKeyExamples()
    ensures LevelKey("D1-L3") == "L3"
    ensures LevelKey("L3") == UndefinedKey && UndefinedKey !in LevelColumns
  {
    assert FirstSegment("D1-L3", '-') == "D1";
    assert "D1-L3"[3..] == "L3";
    assert FirstSegment("L3", '-') == "L3";
  }
}
