/** The AI profile page (profile/page.tsx): three toggles and the colour of each level block,
    chosen by successive `if`s so that priority beats gap and gap beats current. The same rule is
    used by profile/page_old.tsx. */
module Profile {

  datatype Toggles = Toggles(showCurrent: bool, showGap: bool, showPriority: bool)

  datatype Colour = Undefined | Current | Gap | Priority

  /** All three toggles start on. */
  const InitialToggles := Toggles(true, true, true)

  function FlipCurrent(t: Toggles): (r: Toggles)
    ensures r.showCurrent == !t.showCurrent && r.showGap == t.showGap && r.showPriority == t.showPriority
  {
    t.(showCurrent := !t.showCurrent)
  }

  function FlipGap(t: Toggles): (r: Toggles)
    ensures r.showGap == !t.showGap && r.showCurrent == t.showCurrent && r.showPriority == t.showPriority
  {
    t.(showGap := !t.showGap)
  }

  function FlipPriority(t: Toggles): (r: Toggles)
    ensures r.showPriority == !t.showPriority && r.showCurrent == t.showCurrent && r.showGap == t.showGap
  {
    t.(showPriority := !t.showPriority)
  }

  /** The colour class after the three `if`s, as the last assignment that fires. */
  function ColourOf(t: Toggles, inCurrent: bool, inGap: bool, inPriority: bool): (c: Colour)
    ensures c == Priority <==> t.showPriority && inPriority
    ensures c == Gap <==> !(t.showPriority && inPriority) && t.showGap && inGap
    ensures c == Current <==> !(t.showPriority && inPriority) && !(t.showGap && inGap) && t.showCurrent && inCurrent
  {
    var c0 := Undefined;
    var c1 := if t.showCurrent && inCurrent then Current else c0;
    var c2 := if t.showGap && inGap then Gap else c1;
    if t.showPriority && inPriority then Priority else c2
  }

  /** The colour of a level block given the three lists. */
  function BlockColour(t: Toggles, level: string, current: seq<string>, gap: seq<string>, priority: seq<string>): Colour
  {
    ColourOf(t, level in current, level in gap, level in priority)
  }

  /** A priority level is coloured as priority whenever that toggle is on. */
  lemma PriorityWins(t: Toggles, level: string, current: seq<string>, gap: seq<string>, priority: seq<string>)
    requires t.showPriority && level in priority
    ensures BlockColour(t, level, current, gap, priority) == Priority
  {
  }

  /** With all toggles off, or for a level in no list, the block is undefined. */
  lemma UndefinedCases(t: Toggles, level: string, current: seq<string>, gap: seq<string>, priority: seq<string>)
    ensures !t.showCurrent && !t.showGap && !t.showPriority ==> BlockColour(t, level, current, gap, priority) == Undefined
    ensures level !in current && level !in gap && level !in priority ==> BlockColour(t, level, current, gap, priority) == Undefined
  {
  }

  /** The page's mock data with every toggle on: D1-L2 is a gap and a priority, so it shows as
      priority; D2-L2 is only a gap; D1-L1 is only current. */
  lemma MockExample()
    ensures BlockColour(InitialToggles, "D1-L2", ["D1-L1", "D2-L1", "D4-L2"], ["D1-L2", "D2-L2", "D5-L2"], ["D1-L2", "D5-L2"]) == Priority
    ensures BlockColour(InitialToggles, "D2-L2", ["D1-L1", "D2-L1", "D4-L2"], ["D1-L2", "D2-L2", "D5-L2"], ["D1-L2", "D5-L2"]) == Gap
    ensures BlockColour(InitialToggles, "D1-L1", ["D1-L1", "D2-L1", "D4-L2"], ["D1-L2", "D2-L2", "D5-L2"], ["D1-L2", "D5-L2"]) == Current
  {
  }
}
