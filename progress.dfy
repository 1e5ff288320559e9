/** The progress page (progress/page.tsx): the stored answer records sorted in place by the number
    in their dimension id, and per record the count of yes answers, the key count and the rounded
    percentage, with the "complete" style at 100%. */
module Progress {
  import opened Wrappers
  import opened Strings
  import opened Records
  import opened Percent
  import opened Seqs

  /** `parseInt(dimension_id.replace(/\D/g, ''))` for an id that has a digit. */
  function DimensionNumber(r: DimensionRecord): int
  {
    ParseDigits(DigitsOf(r.dimensionId))
  }

  /** The id has a digit, so `parseInt` does not give NaN. */
  predicate Numbered(r: DimensionRecord)
  {
    DigitsOf(r.dimensionId) != []
  }

  predicate SortedBy(s: seq<DimensionRecord>, key: DimensionRecord -> int)
  {
    forall k, l :: 0 <= k < l < |s| ==> key(s[k]) <= key(s[l])
  }

  /** The first `n` elements are ordered by `key`. */
  predicate SortedPrefix(s: seq<DimensionRecord>, n: nat, key: DimensionRecord -> int)
    requires n <= |s|
  {
    forall k, l :: 0 <= k < l < n ==> key(s[k]) <= key(s[l])
  }

  /** Midway through a pass that moves element `i` left: it now sits at `j`, the first `i + 1`
      elements other than it are ordered, and it is smaller than everything it has passed. */
  predicate Passing(s: seq<DimensionRecord>, i: nat, j: nat, key: DimensionRecord -> int)
    requires j <= i < |s|
  {
    && (forall k, l :: 0 <= k < l <= i && k != j && l != j ==> key(s[k]) <= key(s[l]))
    && (forall l :: j < l <= i ==> key(s[j]) < key(s[l]))
  }

  /** Swapping the moving element with a larger left neighbour keeps `Passing` and the multiset. */
  lemma SwapStep(s: seq<DimensionRecord>, i: nat, j: nat, key: DimensionRecord -> int)
    requires 0 < j <= i < |s| && Passing(s, i, j, key) && key(s[j - 1]) > key(s[j])
    ensures Passing(s[j - 1 := s[j]][j := s[j - 1]], i, j - 1, key)
    ensures multiset(s[j - 1 := s[j]][j := s[j - 1]]) == multiset(s)
  {
  }

  /** A pass stops when the moving element is at the front or not smaller than its left neighbour;
      then the first `i + 1` elements are ordered. */
  lemma PassDone(s: seq<DimensionRecord>, i: nat, j: nat, key: DimensionRecord -> int)
    requires j <= i < |s| && Passing(s, i, j, key) && (j == 0 || key(s[j - 1]) <= key(s[j]))
    ensures SortedPrefix(s, i + 1, key)
  {
    if j > 0 {
      assert forall k :: 0 <= k < j - 1 ==> key(s[k]) <= key(s[j - 1]);
    }
  }

  /** One pass of the insertion sort: moves `a[i]` left past every larger key, so that the first
      `i + 1` elements are ordered. */
  method Insert(a: array<DimensionRecord>, i: nat, key: DimensionRecord -> int)
    requires i < a.Length && SortedPrefix(a[..], i, key)
    modifies a
    ensures SortedPrefix(a[..], i + 1, key)
    ensures multiset(a[..]) == old(multiset(a[..]))
  {
    var j := i;
    while j > 0 && key(a[j - 1]) > key(a[j])
      invariant 0 <= j <= i
      invariant Passing(a[..], i, j, key)
      invariant multiset(a[..]) == old(multiset(a[..]))
    {
      ghost var before := a[..];
      SwapStep(before, i, j, key);
      a[j - 1], a[j] := a[j], a[j - 1];
      assert a[..] == before[j - 1 := before[j]][j := before[j - 1]];
      j := j - 1;
    }
    PassDone(a[..], i, j, key);
  }

  /** `Array.prototype.sort` with the comparator `key(a) - key(b)`, as an insertion sort in place. */
  method SortBy(a: array<DimensionRecord>, key: DimensionRecord -> int)
    modifies a
    ensures SortedBy(a[..], key)
    ensures multiset(a[..]) == old(multiset(a[..]))
  {
    var i := 0;
    while i < a.Length
      invariant 0 <= i <= a.Length
      invariant SortedPrefix(a[..], i, key)
      invariant multiset(a[..]) == old(multiset(a[..]))
    {
      Insert(a, i, key);
      i := i + 1;
    }
    assert a[..] == a[..][..a.Length];
  }

  /** `userAnswers.sort(...)`: the rows ordered by dimension number, for ids that all have a digit. */
  method SortByDimension(a: array<DimensionRecord>)
    requires forall i :: 0 <= i < a.Length ==> Numbered(a[i])
    modifies a
    ensures SortedBy(a[..], DimensionNumber)
    ensures multiset(a[..]) == old(multiset(a[..]))
  {
    SortBy(a, DimensionNumber);
  }

  /** `Object.keys(entry.answers).length`. */
  function Total(answers: map<string, bool>): nat
  {
    |answers.Keys|
  }

  /** `Object.values(entry.answers).filter(a => a).length`. */
  function YesCount(answers: map<string, bool>): (n: nat)
    ensures n <= Total(answers)
  {
    var yes := set k | k in answers && answers[k];
    assert yes <= answers.Keys;
    SubsetCard(yes, answers.Keys);
    |yes|
  }

  /** `Math.round((yesCount / total) * 100)`: NaN (None) for a record without answers. */
  function RowPercent(answers: map<string, bool>): (p: Option<nat>)
    ensures p.None? <==> answers == map[]
    ensures p.Some? ==> p.value <= 100
  {
    if Total(answers) == 0 then
      assert answers.Keys == {};
      None
    else
      RoundPercentRange(YesCount(answers), Total(answers));
      Some(RoundPercent(YesCount(answers), Total(answers)))
  }

  /** The "complete" style: `percent === 100`, which NaN never is. */
  predicate Complete(answers: map<string, bool>)
  {
    RowPercent(answers) == Some(100)
  }

  // ---------------------------------------------------------------------------
  // Properties

  /** A record is complete exactly when it has answers and at least 99.5% of them are yes. */
  lemma CompleteIff(answers: map<string, bool>)
    ensures Complete(answers) <==> Total(answers) > 0 && 200 * YesCount(answers) >= 199 * Total(answers)
  {
    if Total(answers) > 0 {
      RoundsToHundred(YesCount(answers), Total(answers));
    }
  }

  /** A record whose answers are all yes is complete. */
  lemma AllYesComplete(answers: map<string, bool>)
    requires answers != map[]
    requires forall k :: k in answers ==> answers[k]
    ensures Complete(answers)
  {
    assert (set k | k in answers && answers[k]) == answers.Keys;
    assert answers.Keys != {} by {
      var k :| k in answers;
    }
    RoundPercentEnds(Total(answers));
  }

  /** A record without answers is never complete. */
  lemma EmptyNotComplete()
    ensures !Complete(map[])
  {
  }

  /** The number is read from all digits of the id: D2 is dimension 2 ... */
  lemma NumberOneDigit()
    ensures DimensionNumber(DimensionRecord("D2", "", map[])) == 2
  {
    assert DigitsOf("D2"[..1]) == [];
    assert DigitsOf("D2") == "2";
    assert ParseDigits("2"[..0]) == 0;
  }

  /** ... and D10 is dimension 10, so D2 sorts before D10. */
  lemma NumberTwoDigits()
    ensures DimensionNumber(DimensionRecord("D10", "", map[])) == 10
  {
    assert "D10"[..2] == "D1" && "D1"[..1] == "D" && "D"[..0] == [];
    assert !IsDigit('D') && IsDigit('1') && IsDigit('0');
    assert DigitsOf("D") == [];
    assert DigitsOf("D1") == "1";
    assert DigitsOf("D10") == "10";
    assert "10"[..1] == "1";
    assert ParseDigits("1") == 1 by {
      assert "1"[..0] == [];
    }
  }
}
