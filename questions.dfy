/** The questionnaire list (questions/page.tsx): the distinct dimension prefixes of the questions,
    in default string order, each paired with the title of its topic or a fallback title. The two
    table reads are parameters; a read that fails leaves the shown list as it was. */
module Questions {
  import opened Wrappers
  import opened Seqs
  import opened Strings

  // ---------------------------------------------------------------------------
  // Default string order

  /** `a < b` on strings: lexicographic by character code, a proper prefix first. */
  predicate Less(a: string, b: string)
  {
    if |a| == 0 then |b| > 0
    else if |b| == 0 then false
    else if a[0] != b[0] then a[0] < b[0]
    else Less(a[1..], b[1..])
  }

  predicate LessEq(a: string, b: string)
  {
    a == b || Less(a, b)
  }

  lemma {:induction false} LessIrreflexive(a: string)
    ensures !Less(a, a)
  {
    if |a| > 0 {
      LessIrreflexive(a[1..]);
    }
  }

  lemma {:induction false} LessTotal(a: string, b: string)
    ensures a == b || Less(a, b) || Less(b, a)
  {
    if |a| > 0 && |b| > 0 && a[0] == b[0] {
      LessTotal(a[1..], b[1..]);
      if a[1..] == b[1..] {
        assert a == [a[0]] + a[1..] && b == [b[0]] + b[1..];
      }
    }
  }

  lemma {:induction false} LessTransitive(a: string, b: string, c: string)
    requires Less(a, b) && Less(b, c)
    ensures Less(a, c)
  {
    if |a| > 0 && a[0] == b[0] && b[0] == c[0] {
      LessTransitive(a[1..], b[1..], c[1..]);
    }
  }

  lemma LessEqTransitive(a: string, b: string, c: string)
    requires LessEq(a, b) && LessEq(b, c)
    ensures LessEq(a, c)
  {
    if a != b && b != c {
      LessTransitive(a, b, c);
    }
  }

  predicate Sorted(s: seq<string>)
  {
    forall i, j :: 0 <= i < j < |s| ==> LessEq(s[i], s[j])
  }

  /** `x` put into a list before the first element it does not exceed. */
  function InsertSorted(x: string, s: seq<string>): (r: seq<string>)
    ensures multiset(r) == multiset(s) + multiset{x}
  {
    if |s| == 0 then [x]
    else if LessEq(x, s[0]) then [x] + s
    else
      assert s == [s[0]] + s[1..];
      [s[0]] + InsertSorted(x, s[1..])
  }

  /** Inserting into a sorted list keeps it sorted. */
  lemma {:induction false} InsertSortedSorted(x: string, s: seq<string>)
    requires Sorted(s)
    ensures Sorted(InsertSorted(x, s))
  {
    var r := InsertSorted(x, s);
    if |s| == 0 {
    } else if LessEq(x, s[0]) {
      forall j | 0 < j < |r|
        ensures LessEq(r[0], r[j])
      {
        LessEqTransitive(x, s[0], s[j - 1]);
      }
    } else {
      var rest := InsertSorted(x, s[1..]);
      assert Sorted(s[1..]);
      InsertSortedSorted(x, s[1..]);
      LessTotal(x, s[0]);
      assert s == [s[0]] + s[1..];
      forall j | 0 <= j < |rest|
        ensures LessEq(s[0], rest[j])
      {
        assert rest[j] in multiset(rest);
        if rest[j] != x {
          assert rest[j] in s[1..];
          var k :| 0 <= k < |s[1..]| && s[1..][k] == rest[j];
          assert s[k + 1] == rest[j];
        }
      }
      assert r == [s[0]] + rest;
    }
  }

  /** Inserting a new element into a duplicate-free list keeps it duplicate-free. */
  lemma {:induction false} InsertSortedNoDups(x: string, s: seq<string>)
    requires NoDups(s) && x !in s
    ensures NoDups(InsertSorted(x, s))
  {
    if |s| > 0 && !LessEq(x, s[0]) {
      var rest := InsertSorted(x, s[1..]);
      assert s == [s[0]] + s[1..];
      assert NoDups(s[1..]);
      InsertSortedNoDups(x, s[1..]);
      assert s[0] !in multiset(s[1..]) + multiset{x} by {
        assert s[0] != x;
      }
      assert s[0] !in rest by {
        assert multiset(rest) == multiset(s[1..]) + multiset{x};
      }
      NoDupsCons(s[0], rest);
    }
  }

  /** `Array.prototype.sort()` with the default order, as an insertion sort. */
  function Sort(s: seq<string>): (r: seq<string>)
    ensures multiset(r) == multiset(s)
    ensures Sorted(r)
  {
    if |s| == 0 then []
    else
      assert s == [s[0]] + s[1..];
      InsertSortedSorted(s[0], Sort(s[1..]));
      InsertSorted(s[0], Sort(s[1..]))
  }

  /** Sorting a duplicate-free list gives a duplicate-free list. */
  lemma {:induction false} SortNoDups(s: seq<string>)
    requires NoDups(s)
    ensures NoDups(Sort(s))
  {
    if |s| > 0 {
      assert s == [s[0]] + s[1..];
      SortNoDups(s[1..]);
      assert s[0] !in multiset(Sort(s[1..]));
      InsertSortedNoDups(s[0], Sort(s[1..]));
    }
  }

  // ---------------------------------------------------------------------------
  // Page data

  /** A row of the topics table as read here; `title` may be null. */
  datatype TopicRow = TopicRow(dimension: string, title: Option<string>)

  datatype DimensionInfo = DimensionInfo(dimension: string, title: string)

  /** `q.dimension.split('-')[0]` for every question row. */
  function Prefixes(questionDims: seq<string>): (r: seq<string>)
    ensures |r| == |questionDims|
    ensures forall i :: 0 <= i < |r| ==> r[i] == FirstSegment(questionDims[i], '-')
  {
    seq(|questionDims|, i requires 0 <= i < |questionDims| => FirstSegment(questionDims[i], '-'))
  }

  /** `Array.from(new Set(prefixes)).sort()`. */
  function UniqueDimensions(questionDims: seq<string>): seq<string>
  {
    Sort(Dedup(Prefixes(questionDims)))
  }

  /** `topicsData.find(t => t.dimension === dim)`. */
  function FindTopic(topics: seq<TopicRow>, dim: string): (r: Option<TopicRow>)
    ensures r.None? <==> forall i :: 0 <= i < |topics| ==> topics[i].dimension != dim
    ensures r.Some? ==> exists i :: 0 <= i < |topics| && topics[i] == r.value && r.value.dimension == dim
                         && forall j :: 0 <= j < i ==> topics[j].dimension != dim
  {
    if |topics| == 0 then None
    else if topics[0].dimension == dim then Some(topics[0])
    else
      assert forall i :: 1 <= i < |topics| ==> topics[i] == topics[1..][i - 1];
      FindTopic(topics[1..], dim)
  }

  /** `topic?.title ?? \`Untitled (${dim})\``. */
  function TitleFor(topics: seq<TopicRow>, dim: string): string
  {
    match FindTopic(topics, dim)
    case Some(TopicRow(_, Some(title))) => title
    case _ => "Untitled (" + dim + ")"
  }

  /** `uniqueDimensions.map(...)`: one entry per dimension, in order. */
  function Merged(dims: seq<string>, topics: seq<TopicRow>): (r: seq<DimensionInfo>)
    ensures |r| == |dims|
    ensures forall i :: 0 <= i < |r| ==> r[i] == DimensionInfo(dims[i], TitleFor(topics, dims[i]))
  {
    seq(|dims|, i requires 0 <= i < |dims| => DimensionInfo(dims[i], TitleFor(topics, dims[i])))
  }

  /** The effect: `dimensionInfo` after the two reads, `None` standing for a read that failed. */
  function Load(current: seq<DimensionInfo>, questionDims: Option<seq<string>>, topics: Option<seq<TopicRow>>): (r: seq<DimensionInfo>)
    ensures questionDims.None? || topics.None? ==> r == current
  {
    if questionDims.None? || topics.None? then current
    else Merged(UniqueDimensions(questionDims.value), topics.value)
  }

  // ---------------------------------------------------------------------------
  // Properties

  /** The list is duplicate-free, sorted, and holds exactly the prefixes of the question dimensions. */
  lemma UniqueDimensionsSpec(questionDims: seq<string>)
    ensures NoDups(UniqueDimensions(questionDims))
    ensures Sorted(UniqueDimensions(questionDims))
    ensures forall d :: d in UniqueDimensions(questionDims) <==>
      exists i :: 0 <= i < |questionDims| && FirstSegment(questionDims[i], '-') == d
  {
    var p := Prefixes(questionDims);
    SortNoDups(Dedup(p));
    forall d
      ensures d in UniqueDimensions(questionDims) <==> exists i :: 0 <= i < |questionDims| && FirstSegment(questionDims[i], '-') == d
    {
      assert d in UniqueDimensions(questionDims) <==> d in multiset(Dedup(p));
      if d in p {
        var i :| 0 <= i < |p| && p[i] == d;
      }
      if exists i :: 0 <= i < |questionDims| && FirstSegment(questionDims[i], '-') == d {
        var i :| 0 <= i < |questionDims| && FirstSegment(questionDims[i], '-') == d;
        assert p[i] == d;
      }
    }
  }

  /** The shown entries follow the sorted dimensions one to one. */
  lemma LoadShape(questionDims: seq<string>, topics: seq<TopicRow>)
    ensures var r := Load([], Some(questionDims), Some(topics)); var u := UniqueDimensions(questionDims);
      |r| == |u| && forall i :: 0 <= i < |r| ==> r[i].dimension == u[i]
  {
  }

  /** The title is that of the first topic of the dimension when it has one, and the fallback when
      no topic has the dimension. */
  lemma TitleCases(topics: seq<TopicRow>, dim: string)
    ensures (forall i :: 0 <= i < |topics| ==> topics[i].dimension != dim) ==> TitleFor(topics, dim) == "Untitled (" + dim + ")"
    ensures forall i :: (0 <= i < |topics| && topics[i].dimension == dim && topics[i].title.Some?
      && forall j :: 0 <= j < i ==> topics[j].dimension != dim) ==> TitleFor(topics, dim) == topics[i].title.value
  {
    forall i | 0 <= i < |topics| && topics[i].dimension == dim && topics[i].title.Some?
      && (forall j :: 0 <= j < i ==> topics[j].dimension != dim)
      ensures TitleFor(topics, dim) == topics[i].title.value
    {
      var r := FindTopic(topics, dim);
      var k :| 0 <= k < |topics| && topics[k] == r.value && r.value.dimension == dim
        && forall j :: 0 <= j < k ==> topics[j].dimension != dim;
      assert k == i;
    }
  }

  /** "D1-Q3" and "D1-Q4" give one dimension "D1", and "D10" sorts before "D2". */
  lemma Examples()
    ensures FirstSegment("D1-Q3", '-') == "D1"
    ensures Less("D10", "D2")
  {
    assert Less("10", "2");
  }
}
