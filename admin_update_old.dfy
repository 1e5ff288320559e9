/** api/admin/update/route_old.ts: after the admin secret check and a format check of both
    sections, every topic edit of section 1 and then every capability-level edit of section 2 is
    written; an edit over the length limits stops the request with 400, keeping the rows already
    written. A topic edit writes only `title` and `details`; a level edit writes `capability_level`,
    `details` and those of `actions`, `fair_services` and `level_actions` it carries (an absent
    one is dropped when the body is serialised, so that column is not written). */
module AdminUpdateOld {
  import opened Wrappers
  import opened AdminCheck
  import opened AdminTables

  const MaxTitleLength := 500
  const MaxDetailsLength := 5000

  datatype TopicEdit = TopicEdit(id: int, title: string, details: string)

  /** A section 2 edit; `None` is a column the edit object does not have, `Some(Null)` an explicit null. */
  datatype LevelEdit = LevelEdit(id: int, capabilityLevel: string, details: string,
                                 actions: Option<Value>, fairServices: Option<Value>, levelActions: Option<Value>)

  /** A section of the body: absent or falsy, present but not an array, or the array. */
  datatype Section<T> = Missing | NotArray | Items(items: seq<T>)

  datatype Request = Request(salis: Option<string>, section1: Section<TopicEdit>, section2: Section<LevelEdit>)

  datatype Response = Success | Unauthorized | InvalidSection1 | InvalidSection2 | Section1TooLong | Section2TooLong

  function Status(r: Response): int
  {
    match r
    case Success => 200
    case Unauthorized => 401
    case _ => 400
  }

  predicate TopicTooLong(t: TopicEdit)
  {
    |t.title| > MaxTitleLength || |t.details| > MaxDetailsLength
  }

  predicate LevelTooLong(c: LevelEdit)
  {
    |c.capabilityLevel| > MaxTitleLength || |c.details| > MaxDetailsLength
  }

  /** The object passed to `update` for a topic. */
  function TopicColumns(t: TopicEdit): seq<(string, Value)>
  {
    [("title", Str(t.title)), ("details", Str(t.details))]
  }

  /** The column `name` if the edit carries a value for it, else nothing. */
  function Present(name: string, v: Option<Value>): seq<(string, Value)>
  {
    if v.Some? then [(name, v.value)] else []
  }

  /** The object passed to `update` for a capability level, as it arrives after serialisation. */
  function LevelColumns(c: LevelEdit): seq<(string, Value)>
  {
    [("capability_level", Str(c.capabilityLevel)), ("details", Str(c.details))]
    + Present("actions", c.actions) + Present("fair_services", c.fairServices) + Present("level_actions", c.levelActions)
  }

  /** The names of the optional columns an edit carries. */
  function CarriedColumns(c: LevelEdit): set<string>
  {
    (if c.actions.Some? then {"actions"} else {})
    + (if c.fairServices.Some? then {"fair_services"} else {})
    + (if c.levelActions.Some? then {"level_actions"} else {})
  }

  /** The section 1 loop: the topics table after it, and whether an edit stopped it. */
  function WriteTopics(topics: Table, edits: seq<TopicEdit>): (Table, bool)
  {
    if |edits| == 0 then (topics, false)
    else
      var (t, stopped) := WriteTopics(topics, edits[..|edits| - 1]);
      var e := edits[|edits| - 1];
      if stopped || TopicTooLong(e) then (t, true) else (UpdateRow(t, e.id, TopicColumns(e)), false)
  }

  /** The section 2 loop: the capability levels table after it, and whether an edit stopped it. */
  function WriteLevels(levels: Table, edits: seq<LevelEdit>): (Table, bool)
  {
    if |edits| == 0 then (levels, false)
    else
      var (t, stopped) := WriteLevels(levels, edits[..|edits| - 1]);
      var e := edits[|edits| - 1];
      if stopped || LevelTooLong(e) then (t, true) else (UpdateRow(t, e.id, LevelColumns(e)), false)
  }

  function ItemsOr<T>(s: Section<T>): seq<T>
  {
    if s.Items? then s.items else []
  }

  /** The whole handler. */
  function Handle(req: Request, adminSalis: Option<string>, db: Db): (Db, Response)
  {
    if !IsAdminSalis(req.salis, adminSalis) then (db, Unauthorized)
    else if req.section1.NotArray? then (db, InvalidSection1)
    else if req.section2.NotArray? then (db, InvalidSection2)
    else
      var (topics, stopped1) := WriteTopics(db.topics, ItemsOr(req.section1));
      if stopped1 then (db.(topics := topics), Section1TooLong)
      else
        var (levels, stopped2) := WriteLevels(db.levels, ItemsOr(req.section2));
        (Db(topics, levels), if stopped2 then Section2TooLong else Success)
  }

  /** `POST`: the database after the request and the response. */
  method Post(req: Request, adminSalis: Option<string>, db: Db) returns (updated: Db, response: Response)
    ensures (updated, response) == Handle(req, adminSalis, db)
  {
    if !IsAdminSalis(req.salis, adminSalis) {
      return db, Unauthorized;
    }
    if req.section1.NotArray? {
      return db, InvalidSection1;
    }
    if req.section2.NotArray? {
      return db, InvalidSection2;
    }
    updated := db;
    var section1 := ItemsOr(req.section1);
    var i := 0;
    while i < |section1|
      invariant 0 <= i <= |section1|
      invariant WriteTopics(db.topics, section1[..i]) == (updated.topics, false)
      invariant updated.levels == db.levels
    {
      var t := section1[i];
      assert section1[..i + 1][..i] == section1[..i];
      if TopicTooLong(t) {
        TopicsStop(db.topics, section1, i + 1);
        return updated, Section1TooLong;
      }
      updated := updated.(topics := UpdateRow(updated.topics, t.id, TopicColumns(t)));
      i := i + 1;
    }
    assert section1[..i] == section1;
    var section2 := ItemsOr(req.section2);
    var j := 0;
    while j < |section2|
      invariant 0 <= j <= |section2|
      invariant WriteLevels(db.levels, section2[..j]) == (updated.levels, false)
      invariant WriteTopics(db.topics, section1) == (updated.topics, false)
    {
      var c := section2[j];
      assert section2[..j + 1][..j] == section2[..j];
      if LevelTooLong(c) {
        LevelsStop(db.levels, section2, j + 1);
        return updated, Section2TooLong;
      }
      updated := updated.(levels := UpdateRow(updated.levels, c.id, LevelColumns(c)));
      j := j + 1;
    }
    assert section2[..j] == section2;
    return updated, Success;
  }

  // ---------------------------------------------------------------------------
  // Properties

  /** Once an edit has stopped section 1, later topic edits are never written. */
  lemma {:induction false} TopicsStop(topics: Table, edits: seq<TopicEdit>, i: nat)
    requires i <= |edits|
    requires WriteTopics(topics, edits[..i]).1
    ensures WriteTopics(topics, edits) == WriteTopics(topics, edits[..i])
  {
    if i < |edits| {
      assert edits[..|edits| - 1][..i] == edits[..i];
      TopicsStop(topics, edits[..|edits| - 1], i);
    } else {
      assert edits[..i] == edits;
    }
  }

  /** Once an edit has stopped section 2, later level edits are never written. */
  lemma {:induction false} LevelsStop(levels: Table, edits: seq<LevelEdit>, i: nat)
    requires i <= |edits|
    requires WriteLevels(levels, edits[..i]).1
    ensures WriteLevels(levels, edits) == WriteLevels(levels, edits[..i])
  {
    if i < |edits| {
      assert edits[..|edits| - 1][..i] == edits[..i];
      LevelsStop(levels, edits[..|edits| - 1], i);
    } else {
      assert edits[..i] == edits;
    }
  }

  /** A wrong secret, or a section that is present but not an array, changes nothing. */
  lemma RefusedUnchanged(req: Request, adminSalis: Option<string>, db: Db)
    requires !IsAdminSalis(req.salis, adminSalis) || req.section1.NotArray? || req.section2.NotArray?
    ensures Handle(req, adminSalis, db).0 == db
    ensures !IsAdminSalis(req.salis, adminSalis) ==> Status(Handle(req, adminSalis, db).1) == 401
    ensures IsAdminSalis(req.salis, adminSalis) ==> Status(Handle(req, adminSalis, db).1) == 400
  {
  }

  /** The topic edit at `i`, the first over the limits, ends the request with 400: the topics before
      it stay written and the capability levels are not touched. */
  lemma Section1Aborts(req: Request, adminSalis: Option<string>, db: Db, i: nat)
    requires IsAdminSalis(req.salis, adminSalis) && req.section1.Items? && !req.section2.NotArray?
    requires i < |req.section1.items| && TopicTooLong(req.section1.items[i])
    requires !WriteTopics(db.topics, req.section1.items[..i]).1
    ensures Handle(req, adminSalis, db) == (db.(topics := WriteTopics(db.topics, req.section1.items[..i]).0), Section1TooLong)
  {
    var edits := req.section1.items;
    assert edits[..i + 1][..i] == edits[..i];
    TopicsStop(db.topics, edits, i + 1);
  }

  /** The level edit at `i`, the first over the limits, ends the request with 400 after all topic
      edits and the levels before it were written. */
  lemma Section2Aborts(req: Request, adminSalis: Option<string>, db: Db, i: nat)
    requires IsAdminSalis(req.salis, adminSalis) && !req.section1.NotArray? && req.section2.Items?
    requires !WriteTopics(db.topics, ItemsOr(req.section1)).1
    requires i < |req.section2.items| && LevelTooLong(req.section2.items[i])
    requires !WriteLevels(db.levels, req.section2.items[..i]).1
    ensures Handle(req, adminSalis, db) ==
      (Db(WriteTopics(db.topics, ItemsOr(req.section1)).0, WriteLevels(db.levels, req.section2.items[..i]).0), Section2TooLong)
  {
    var edits := req.section2.items;
    assert edits[..i + 1][..i] == edits[..i];
    LevelsStop(db.levels, edits, i + 1);
  }

  /** A topic edit writes `title` and `details` and leaves every other column of the row as it was. */
  lemma TopicWritesTwoColumns(row: Row, t: TopicEdit, k: string)
    requires k != "title" && k != "details"
    ensures "title" in Assign(row, TopicColumns(t)) && Assign(row, TopicColumns(t))["title"] == Str(t.title)
    ensures "details" in Assign(row, TopicColumns(t)) && Assign(row, TopicColumns(t))["details"] == Str(t.details)
    ensures (k in Assign(row, TopicColumns(t)) <==> k in row)
    ensures k in row ==> Assign(row, TopicColumns(t))[k] == row[k]
  {
    forall i | 0 <= i < |TopicColumns(t)| ensures TopicColumns(t)[i].0 != k { }
    AssignUntouched(row, TopicColumns(t), k);
    AssignLast(row, TopicColumns(t), 0);
    AssignLast(row, TopicColumns(t), 1);
  }

  /** A level edit writes `capability_level`, `details` and the optional columns it carries; an
      optional column it lacks, and every other column, keeps what the row had. */
  lemma LevelWritesCarriedColumns(row: Row, c: LevelEdit, k: string)
    requires k !in {"capability_level", "details", "actions", "fair_services", "level_actions"}
    ensures Assign(row, LevelColumns(c)).Keys == row.Keys + {"capability_level", "details"} + CarriedColumns(c)
    ensures k in row ==> Assign(row, LevelColumns(c))[k] == row[k]
    ensures Assign(row, LevelColumns(c))["capability_level"] == Str(c.capabilityLevel)
    ensures Assign(row, LevelColumns(c))["details"] == Str(c.details)
    ensures c.actions.Some? ==> Assign(row, LevelColumns(c))["actions"] == c.actions.value
    ensures c.actions.None? && "actions" in row ==> Assign(row, LevelColumns(c))["actions"] == row["actions"]
    ensures c.fairServices.Some? ==> Assign(row, LevelColumns(c))["fair_services"] == c.fairServices.value
    ensures c.fairServices.None? && "fair_services" in row ==>
      Assign(row, LevelColumns(c))["fair_services"] == row["fair_services"]
    ensures c.levelActions.Some? ==> Assign(row, LevelColumns(c))["level_actions"] == c.levelActions.value
    ensures c.levelActions.None? && "level_actions" in row ==>
      Assign(row, LevelColumns(c))["level_actions"] == row["level_actions"]
  {
    var base := [("capability_level", Str(c.capabilityLevel)), ("details", Str(c.details))];
    var pa := Present("actions", c.actions);
    var pf := Present("fair_services", c.fairServices);
    var pl := Present("level_actions", c.levelActions);
    assert LevelColumns(c) == base + pa + pf + pl;
    AssignAppend(row, base + pa + pf, pl);
    AssignAppend(row, base + pa, pf);
    AssignAppend(row, base, pa);
    var r0 := Assign(row, base);
    assert base[..1] == [base[0]] && base[..1][..0] == [];
    assert Assign(row, base[..1]) == row["capability_level" := Str(c.capabilityLevel)];
    assert r0 == row["capability_level" := Str(c.capabilityLevel)]["details" := Str(c.details)];
    var r1 := WithPresent(r0, "actions", c.actions);
    var r2 := WithPresent(r1, "fair_services", c.fairServices);
    PresentAssign(r0, "actions", c.actions);
    PresentAssign(r1, "fair_services", c.fairServices);
    PresentAssign(r2, "level_actions", c.levelActions);
  }

  /** `row` with column `name` set when the edit carries it. */
  function WithPresent(row: Row, name: string, v: Option<Value>): Row
  {
    if v.Some? then row[name := v.value] else row
  }

  lemma PresentAssign(row: Row, name: string, v: Option<Value>)
    ensures Assign(row, Present(name, v)) == WithPresent(row, name, v)
  {
    if v.Some? {
      assert Present(name, v)[..0] == [];
    }
  }

  /** Writing two entry lists one after the other. */
  lemma {:induction false} AssignAppend(row: Row, a: seq<(string, Value)>, b: seq<(string, Value)>)
    ensures Assign(row, a + b) == Assign(Assign(row, a), b)
    decreases |b|
  {
    if |b| == 0 {
      assert a + b == a;
    } else {
      var ab := a + b;
      assert ab[..|ab| - 1] == a + b[..|b| - 1];
      AssignAppend(row, a, b[..|b| - 1]);
    }
  }

  /** The limits are strict: a title of exactly 500 and details of exactly 5000 characters pass. */
  lemma LimitBoundary(t: TopicEdit, c: LevelEdit)
    requires |t.title| == MaxTitleLength && |t.details| == MaxDetailsLength
    requires |c.capabilityLevel| == MaxTitleLength && |c.details| == MaxDetailsLength
    ensures !TopicTooLong(t) && !LevelTooLong(c)
  {
  }
}
