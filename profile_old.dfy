/** The old AI profile page (profile/page_old.tsx): current levels from the stored answers (the
    evaluator of module Levels), priority levels from the stored priorities, a naive gap list taken
    straight from the dependency table, one table row per topic and three level sections. */
module ProfileOld {
  import opened Wrappers
  import opened Seqs
  import opened Records
  import opened Levels
  import opened Profile

  datatype Topic = Topic(id: int, title: string, dimension: string)

  /** `currentLevels`: the completed codes, or none when the row has no answers. */
  function CurrentLevels(stored: Option<seq<DimensionRecord>>, levels: seq<CapabilityLevel>): seq<string>
  {
    Completed(stored.GetOr([]), levels)
  }

  /** `priorityLevels`: replaced by the stored list only when that list is non-empty; otherwise it
      keeps its initial empty value. */
  function PriorityLevels(stored: Option<seq<string>>): (r: seq<string>)
    ensures stored.Some? && |stored.value| > 0 ==> r == stored.value
    ensures stored.None? || stored.value == [] ==> r == []
  {
    if stored.Some? && |stored.value| > 0 then stored.value else []
  }

  /** `deps.filter(d => !completed.includes(d.level)).map(d => d.level)`; the empty initial list
      when the fetch returned nothing. */
  function NaiveGaps(deps: Option<seq<Dependency>>, completed: seq<string>): seq<string>
  {
    if deps.None? then []
    else
      LevelsOf(Filter(deps.value, (d: Dependency) => d.level !in completed))
  }

  /** `.map(d => d.level)`: the level each dependency row names. */
  function LevelsOf(ds: seq<Dependency>): (r: seq<string>)
    ensures |r| == |ds|
  {
    seq(|ds|, i requires 0 <= i < |ds| => ds[i].level)
  }

  /** `capabilityLevels.filter(c => c.dimension_id === dim.dimension)`: the levels of a topic's row. */
  function RowLevels(levels: seq<CapabilityLevel>, topic: Topic): seq<CapabilityLevel>
  {
    DimLevels(levels, topic.dimension)
  }

  /** The colour of a level block of a row, with the same precedence as profile/page.tsx. */
  function LevelColour(t: Toggles, level: CapabilityLevel, current: seq<string>, gap: seq<string>, priority: seq<string>): Colour
  {
    BlockColour(t, level.short, current, gap, priority)
  }

  // ---------------------------------------------------------------------------
  // Properties

  /** A code is a naive gap iff some dependency row has it as `level` and it is not completed;
      each such row contributes one entry, in table order, so duplicates are kept. */
  lemma NaiveGapsExactly(deps: seq<Dependency>, completed: seq<string>)
    ensures forall x :: x in NaiveGaps(Some(deps), completed) <==>
      x !in completed && exists i :: 0 <= i < |deps| && deps[i].level == x
    ensures |NaiveGaps(Some(deps), completed)| == |Filter(deps, (d: Dependency) => d.level !in completed)|
  {
    var open := Filter(deps, (d: Dependency) => d.level !in completed);
    var r := NaiveGaps(Some(deps), completed);
    forall x
      ensures x in r <==> x !in completed && exists i :: 0 <= i < |deps| && deps[i].level == x
    {
      if x in r {
        var i :| 0 <= i < |r| && r[i] == x;
        assert open[i] in deps;
      }
      if x !in completed && exists i :: 0 <= i < |deps| && deps[i].level == x {
        var i :| 0 <= i < |deps| && deps[i].level == x;
        assert deps[i] in open;
        var k :| 0 <= k < |open| && open[k] == deps[i];
        assert r[k] == x;
      }
    }
  }

  /** Each open level is listed once per dependency row naming it, and a completed one not at all. */
  lemma NaiveGapsCount(deps: seq<Dependency>, completed: seq<string>)
    ensures forall x :: multiset(NaiveGaps(Some(deps), completed))[x] == (if x in completed then 0 else multiset(LevelsOf(deps))[x])
  {
    LevelsOfFilter(deps, completed);
    FilterCount(LevelsOf(deps), (x: string) => x !in completed);
  }

  /** Selecting the open rows and then taking their levels is selecting the open levels. */
  lemma {:induction false} LevelsOfFilter(deps: seq<Dependency>, completed: seq<string>)
    ensures LevelsOf(Filter(deps, (d: Dependency) => d.level !in completed))
            == Filter(LevelsOf(deps), (x: string) => x !in completed)
  {
    var p := (d: Dependency) => d.level !in completed;
    var q := (x: string) => x !in completed;
    if |deps| > 0 {
      var init := deps[..|deps| - 1];
      var d := deps[|deps| - 1];
      LevelsOfFilter(init, completed);
      var ls := LevelsOf(deps);
      assert ls[..|ls| - 1] == LevelsOf(init) && ls[|ls| - 1] == d.level;
      var fi := Filter(init, p);
      var fl := Filter(LevelsOf(init), q);
      assert LevelsOf(fi) == fl;
      if p(d) {
        assert Filter(deps, p) == fi + [d];
        assert Filter(ls, q) == fl + [d.level];
        assert LevelsOf(fi + [d]) == LevelsOf(fi) + [d.level];
      } else {
        assert Filter(deps, p) == fi;
        assert Filter(ls, q) == fl;
      }
    }
  }

  /** Two dependency rows for the same open level make it appear twice. */
  lemma NaiveGapsKeepDuplicates()
    ensures NaiveGaps(Some([Dependency("D1-L2", None), Dependency("D1-L2", None)]), []) == ["D1-L2", "D1-L2"]
  {
    var deps := [Dependency("D1-L2", None), Dependency("D1-L2", None)];
    var p := (d: Dependency) => d.level !in [];
    assert deps[..1] == [Dependency("D1-L2", None)];
    assert Filter(deps[..1][..0], p) == [];
    assert Filter(deps[..1], p) == [Dependency("D1-L2", None)];
    assert Filter(deps, p) == deps;
  }

  /** A row holds exactly the levels of the topic's dimension, in level order. */
  lemma RowLevelsExactly(levels: seq<CapabilityLevel>, topic: Topic)
    ensures forall c :: c in RowLevels(levels, topic) <==> c in levels && c.dimensionId == topic.dimension
    ensures IsSubseq(RowLevels(levels, topic), levels)
  {
    DimLevelsFilter(levels, topic.dimension);
  }

  /** The three sections list the levels whose code is current, gap or priority, in level order. */
  lemma SectionsExactly(levels: seq<CapabilityLevel>, stored: Option<seq<DimensionRecord>>,
                        deps: Option<seq<Dependency>>, priorities: Option<seq<string>>)
    ensures var current := CurrentLevels(stored, levels);
      && (forall c :: c in LevelsWithCodes(levels, current) <==> c in levels && c.short in current)
      && (forall c :: c in LevelsWithCodes(levels, NaiveGaps(deps, current)) <==> c in levels && c.short in NaiveGaps(deps, current))
      && (forall c :: c in LevelsWithCodes(levels, PriorityLevels(priorities)) <==> c in levels && c.short in PriorityLevels(priorities))
  {
  }
}
