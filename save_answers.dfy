/** The `POST /api/save-answers` route (api/save-answers/route.ts): it turns a submitted
    conversation into a `{key: bool}` answer map and replaces the dimension's record in the
    user's stored array, or inserts a new row. The row lookup and the write are parameters. */
module SaveAnswers {
  import opened Wrappers
  import opened Strings
  import opened Records
  import opened Seqs

  /** One element of the submitted `conversation`. */
  datatype Item = Item(questionId: string, selectedAnswer: string)

  /** The request body; a missing `conversation` or `extraInfo` is None. */
  datatype Request = Request(email: string, dimension: string, conversation: Option<seq<Item>>, extraInfo: Option<string>)

  /** The stored `answers` column of an existing row: an array of records, or anything else. */
  datatype Stored = Records(records: seq<DimensionRecord>) | NotAnArray

  /** The outcome of the `user_answers` lookup: a row, no row (`PGRST116`), or another error. */
  datatype Lookup = Found(stored: Stored) | NoRow | LookupFailed(message: string)

  /** The write the route issues. */
  datatype Write = UpdateAnswers(answers: seq<DimensionRecord>) | InsertRow(username: string, answers: seq<DimensionRecord>)

  datatype Response = Response(status: nat, body: string)

  const MissingFields := "Missing required fields"
  const Saved := "Saved!"

  /** The answer key for position `i` of the conversation: `${dimension}-Q${i + 1}`. */
  function Key(dimension: string, i: nat): string
  {
    dimension + "-Q" + NatToString(i + 1)
  }

  /** Lower-case "yes" counts as true, everything else as false. */
  predicate IsYes(answer: string)
  {
    Lower(answer) == "yes"
  }

  /** The `answers` map after the `forEach` has visited every item of `conversation`. */
  function AnswersOf(dimension: string, conversation: seq<Item>): map<string, bool>
  {
    if |conversation| == 0 then map[]
    else
      var n := |conversation| - 1;
      var m := AnswersOf(dimension, conversation[..n]);
      if conversation[n].selectedAnswer != "" then m[Key(dimension, n) := IsYes(conversation[n].selectedAnswer)] else m
  }

  /** The `forEach` over the conversation that fills `answers` key by key. */
  method BuildAnswers(dimension: string, conversation: seq<Item>) returns (answers: map<string, bool>)
    ensures answers == AnswersOf(dimension, conversation)
  {
    answers := map[];
    var i := 0;
    while i < |conversation|
      invariant 0 <= i <= |conversation|
      invariant answers == AnswersOf(dimension, conversation[..i])
    {
      var qa := conversation[i];
      if qa.selectedAnswer != "" {
        answers := answers[Key(dimension, i) := IsYes(qa.selectedAnswer)];
      }
      assert conversation[..i + 1][..i] == conversation[..i];
      i := i + 1;
    }
    assert conversation[..i] == conversation;
  }

  /** `existingRow.answers.filter(d => d.dimension_id !== dimension)` followed by `push(newDimensionData)`;
      a stored value that is not an array is replaced by the new record alone. */
  function Merge(stored: Stored, rec: DimensionRecord): seq<DimensionRecord>
  {
    match stored
    case NotAnArray => [rec]
    case Records(rs) => OtherDimensions(rs, rec.dimensionId) + [rec]
  }

  /** The records of every dimension other than `dim`, in order. */
  function OtherDimensions(rs: seq<DimensionRecord>, dim: string): seq<DimensionRecord>
  {
    if |rs| == 0 then []
    else OtherDimensions(rs[..|rs| - 1], dim) + (if rs[|rs| - 1].dimensionId != dim then [rs[|rs| - 1]] else [])
  }

  /** The route: validation guard, answer map, record, lookup, and the write with its outcome.
      `writeError` is the error the write reports, if any. */
  function Handle(req: Request, lookup: Lookup, writeError: Option<string>): (Response, Option<Write>)
  {
    if req.email == "" || req.dimension == "" || req.conversation.None? || |req.conversation.value| == 0 then
      (Response(400, MissingFields), None)
    else
      var rec := DimensionRecord(req.dimension, req.extraInfo.GetOr(""), AnswersOf(req.dimension, req.conversation.value));
      match lookup
      case LookupFailed(msg) => (Response(500, msg), None)
      case Found(stored) =>
        var w := UpdateAnswers(Merge(stored, rec));
        (if writeError.Some? then Response(500, writeError.value) else Response(200, Saved), Some(w))
      case NoRow =>
        var w := InsertRow(req.email, [rec]);
        (if writeError.Some? then Response(500, writeError.value) else Response(200, Saved), Some(w))
  }

  // ---------------------------------------------------------------------------
  // Properties

  /** Different positions of one dimension get different keys, whatever the question ids say. */
  lemma KeyInjective(dimension: string, i: nat, j: nat)
    ensures Key(dimension, i) == Key(dimension, j) ==> i == j
  {
    if Key(dimension, i) == Key(dimension, j) {
      var p := dimension + "-Q";
      assert Key(dimension, i)[|p|..] == NatToString(i + 1);
      assert Key(dimension, j)[|p|..] == NatToString(j + 1);
      NatToStringInjective(i + 1, j + 1);
    }
  }

  /** Position `i` has a key exactly when its answer is non-empty, holding whether it is "yes". */
  lemma {:induction false} AnswersOfAt(dimension: string, conversation: seq<Item>, i: nat)
    requires i < |conversation|
    ensures Key(dimension, i) in AnswersOf(dimension, conversation) <==> conversation[i].selectedAnswer != ""
    ensures conversation[i].selectedAnswer != "" ==>
      AnswersOf(dimension, conversation)[Key(dimension, i)] == IsYes(conversation[i].selectedAnswer)
  {
    var n := |conversation| - 1;
    if i < n {
      var init := conversation[..n];
      assert init[i] == conversation[i];
      AnswersOfAt(dimension, init, i);
      KeyInjective(dimension, i, n);
    } else if Key(dimension, n) in AnswersOf(dimension, conversation[..n]) {
      AnswersOfKeys(dimension, conversation[..n], Key(dimension, n));
      var j :| 0 <= j < n && Key(dimension, n) == Key(dimension, j);
      KeyInjective(dimension, j, n);
    }
  }

  /** Every key of the answer map is the key of some position. */
  lemma {:induction false} AnswersOfKeys(dimension: string, conversation: seq<Item>, k: string)
    requires k in AnswersOf(dimension, conversation)
    ensures exists i :: 0 <= i < |conversation| && k == Key(dimension, i)
  {
    var n := |conversation| - 1;
    if k != Key(dimension, n) {
      AnswersOfKeys(dimension, conversation[..n], k);
    }
  }

  /** The answer map has a key for position `i` exactly when its answer is non-empty, the value is
      true iff that answer lower-cases to "yes", and there are no other keys. */
  lemma AnswersOfSpec(dimension: string, conversation: seq<Item>)
    ensures forall i :: 0 <= i < |conversation| ==>
      (Key(dimension, i) in AnswersOf(dimension, conversation) <==> conversation[i].selectedAnswer != "")
    ensures forall i :: 0 <= i < |conversation| && conversation[i].selectedAnswer != "" ==>
      AnswersOf(dimension, conversation)[Key(dimension, i)] == IsYes(conversation[i].selectedAnswer)
    ensures forall k :: k in AnswersOf(dimension, conversation) ==>
      exists i :: 0 <= i < |conversation| && k == Key(dimension, i)
  {
    forall i | 0 <= i < |conversation| {
      AnswersOfAt(dimension, conversation, i);
    }
    forall k | k in AnswersOf(dimension, conversation) {
      AnswersOfKeys(dimension, conversation, k);
    }
  }

  /** The route refuses a request without email, dimension or conversation entries, and writes nothing. */
  lemma MissingFieldsRejected(req: Request, lookup: Lookup, writeError: Option<string>)
    requires req.email == "" || req.dimension == "" || req.conversation.None? || req.conversation == Some([])
    ensures Handle(req, lookup, writeError) == (Response(400, MissingFields), None)
  {
  }

  /** The record written carries the submitted dimension, the notes (or "" without them) and the
      answer map; a user without a row gets a new row holding exactly that record. */
  lemma NewRowHoldsRecord(req: Request, writeError: Option<string>)
    requires req.email != "" && req.dimension != "" && req.conversation.Some? && |req.conversation.value| > 0
    ensures Handle(req, NoRow, writeError).1 ==
      Some(InsertRow(req.email, [DimensionRecord(req.dimension, req.extraInfo.GetOr(""), AnswersOf(req.dimension, req.conversation.value))]))
    ensures req.extraInfo.None? ==> Handle(req, NoRow, writeError).1.value.answers[0].notes == ""
  {
  }

  /** The kept records are exactly the `filter` of the other dimensions' records, so they keep
      their relative order and their contents. */
  lemma {:induction false} OtherDimensionsSpec(rs: seq<DimensionRecord>, dim: string)
    ensures OtherDimensions(rs, dim) == Filter(rs, (r: DimensionRecord) => r.dimensionId != dim)
    ensures forall r :: r in OtherDimensions(rs, dim) <==> r in rs && r.dimensionId != dim
    ensures forall other :: other != dim ==> FindRecord(OtherDimensions(rs, dim), other) == FindRecord(rs, other)
  {
    OtherDimensionsFilter(rs, dim);
    OtherDimensionsLookup(rs, dim);
  }

  lemma {:induction false} OtherDimensionsFilter(rs: seq<DimensionRecord>, dim: string)
    ensures OtherDimensions(rs, dim) == Filter(rs, (r: DimensionRecord) => r.dimensionId != dim)
  {
    if |rs| > 0 {
      OtherDimensionsFilter(rs[..|rs| - 1], dim);
    }
  }

  lemma {:induction false} OtherDimensionsLookup(rs: seq<DimensionRecord>, dim: string)
    ensures forall other :: other != dim ==> FindRecord(OtherDimensions(rs, dim), other) == FindRecord(rs, other)
  {
    if |rs| > 0 {
      var init := rs[..|rs| - 1];
      var last := rs[|rs| - 1];
      OtherDimensionsLookup(init, dim);
      assert rs == init + [last];
      forall other | other != dim
        ensures FindRecord(OtherDimensions(rs, dim), other) == FindRecord(rs, other)
      {
        FindAppend(OtherDimensions(init, dim), last, other);
        FindAppend(init, last, other);
        if last.dimensionId != dim {
          assert OtherDimensions(rs, dim) == OtherDimensions(init, dim) + [last];
        } else {
          assert OtherDimensions(rs, dim) == OtherDimensions(init, dim);
          assert FindRecord(init + [last], other) == FindRecord(init, other);
        }
      }
    }
  }

  /** Looking up a dimension in a list with one more record at the end. */
  lemma {:induction false} FindAppend(rs: seq<DimensionRecord>, last: DimensionRecord, dim: string)
    ensures FindRecord(rs + [last], dim) ==
      if FindRecord(rs, dim).Some? then FindRecord(rs, dim)
      else if last.dimensionId == dim then Some(last) else None
  {
    if |rs| > 0 {
      assert (rs + [last])[1..] == rs[1..] + [last];
      FindAppend(rs[1..], last, dim);
    }
  }

  /** Saving a dimension and reading it back yields the new record; every other dimension reads
      back as before, and all its records are kept unchanged in order. The new record is last. */
  lemma MergeRoundTrip(rs: seq<DimensionRecord>, rec: DimensionRecord)
    ensures Merge(Records(rs), rec) == Filter(rs, (r: DimensionRecord) => r.dimensionId != rec.dimensionId) + [rec]
    ensures IsSubseq(Merge(Records(rs), rec)[..|Merge(Records(rs), rec)| - 1], rs)
    ensures FindRecord(Merge(Records(rs), rec), rec.dimensionId) == Some(rec)
    ensures forall other :: other != rec.dimensionId ==> FindRecord(Merge(Records(rs), rec), other) == FindRecord(rs, other)
    ensures forall r :: r in Merge(Records(rs), rec)[..|Merge(Records(rs), rec)| - 1] <==> r in rs && r.dimensionId != rec.dimensionId
    ensures Merge(Records(rs), rec)[|Merge(Records(rs), rec)| - 1] == rec
  {
    var others := OtherDimensions(rs, rec.dimensionId);
    OtherDimensionsSpec(rs, rec.dimensionId);
    FindAppend(others, rec, rec.dimensionId);
    forall other | other != rec.dimensionId
      ensures FindRecord(Merge(Records(rs), rec), other) == FindRecord(rs, other)
    {
      FindAppend(others, rec, other);
    }
    assert Merge(Records(rs), rec)[..|Merge(Records(rs), rec)| - 1] == others;
  }

  /** A stored value that is not an array becomes the new record alone. */
  lemma NotAnArrayReplaced(rec: DimensionRecord)
    ensures Merge(NotAnArray, rec) == [rec]
  {
  }
}
