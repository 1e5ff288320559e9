/** api/admin/update/route.ts: after the admin secret check, a list of changes is applied in order,
    each naming a section, a row id and the columns to write. A change lacking one of those is
    skipped; a change with a string value over 5000 characters stops the request with a 400 that
    names the column, after the earlier changes have been written. */
module AdminUpdate {
  import opened Wrappers
  import opened AdminCheck
  import opened AdminTables

  const MaxFieldLength := 5000

  /** The `changes` object of one change: absent or not an object (skipped), `null` (an object by
      `typeof`, on which `Object.entries` throws), or its entries in key order. */
  datatype FieldsArg = NotObject | NullFields | Fields(entries: seq<(string, Value)>)

  /** One element of `changes`; a numeric id, so 0 is falsy like a missing one. */
  datatype Change = Change(section: Option<string>, id: Option<int>, fields: FieldsArg)

  datatype ChangesArg = NotArray | Items(items: seq<Change>)

  datatype Request = Request(salis: Option<string>, changes: ChangesArg)

  datatype Response = Success | Unauthorized | InvalidFormat | TooLong(key: string) | ServerError

  function Status(r: Response): int
  {
    match r
    case Success => 200
    case Unauthorized => 401
    case InvalidFormat => 400
    case TooLong(_) => 400
    case ServerError => 500
  }

  /** `!section || !id || typeof fields !== "object"`. */
  predicate Incomplete(c: Change)
  {
    c.section.None? || c.section.value == "" || c.id.None? || c.id.value == 0 || c.fields.NotObject?
  }

  predicate OverLimit(v: Value)
  {
    v.Str? && |v.s| > MaxFieldLength
  }

  /** The first column, in entry order, holding a string over the limit. */
  function FirstTooLong(entries: seq<(string, Value)>): Option<string>
  {
    if |entries| == 0 then None
    else if OverLimit(entries[0].1) then Some(entries[0].0)
    else FirstTooLong(entries[1..])
  }

  /** The effect of one change on the database, and the response it ends the request with, if any. */
  function Step(db: Db, c: Change): (Db, Option<Response>)
  {
    if Incomplete(c) then (db, None)
    else if c.fields.NullFields? then (db, Some(ServerError))
    else
      match FirstTooLong(c.fields.entries)
      case Some(key) => (db, Some(TooLong(key)))
      case None =>
        if c.section.value == "topics" then (db.(topics := UpdateRow(db.topics, c.id.value, c.fields.entries)), None)
        else if c.section.value == "capability_levels" then (db.(levels := UpdateRow(db.levels, c.id.value, c.fields.entries)), None)
        else (db, None)
  }

  /** The loop over `changes`: the database after it, and the response of the change that stopped it. */
  function Process(db: Db, changes: seq<Change>): (Db, Option<Response>)
  {
    if |changes| == 0 then (db, None)
    else
      var (d, stop) := Process(db, changes[..|changes| - 1]);
      if stop.Some? then (d, stop) else Step(d, changes[|changes| - 1])
  }

  /** The whole handler. */
  function Handle(req: Request, adminSalis: Option<string>, db: Db): (Db, Response)
  {
    if !IsAdminSalis(req.salis, adminSalis) then (db, Unauthorized)
    else if req.changes.NotArray? then (db, InvalidFormat)
    else
      var (d, stop) := Process(db, req.changes.items);
      (d, stop.GetOr(Success))
  }

  /** The inner `for` over `Object.entries(fields)`. */
  method CheckLengths(entries: seq<(string, Value)>) returns (tooLong: Option<string>)
    ensures tooLong == FirstTooLong(entries)
  {
    var k := 0;
    while k < |entries|
      invariant 0 <= k <= |entries|
      invariant FirstTooLong(entries) == FirstTooLong(entries[k..])
    {
      assert entries[k..][1..] == entries[k + 1..];
      if OverLimit(entries[k].1) {
        return Some(entries[k].0);
      }
      k := k + 1;
    }
    return None;
  }

  /** `POST`: the database after the request and the response. */
  method Post(req: Request, adminSalis: Option<string>, db: Db) returns (updated: Db, response: Response)
    ensures (updated, response) == Handle(req, adminSalis, db)
  {
    updated := db;
    if !IsAdminSalis(req.salis, adminSalis) {
      return db, Unauthorized;
    }
    if req.changes.NotArray? {
      return db, InvalidFormat;
    }
    var changes := req.changes.items;
    var i := 0;
    while i < |changes|
      invariant 0 <= i <= |changes|
      invariant Process(db, changes[..i]) == (updated, None)
    {
      var c := changes[i];
      assert changes[..i + 1][..i] == changes[..i];
      if Incomplete(c) {
        i := i + 1;
        continue;
      }
      if c.fields.NullFields? {
        ProcessStops(db, changes, i + 1);
        return updated, ServerError;
      }
      var tooLong := CheckLengths(c.fields.entries);
      if tooLong.Some? {
        ProcessStops(db, changes, i + 1);
        return updated, TooLong(tooLong.value);
      }
      if c.section.value == "topics" {
        updated := updated.(topics := UpdateRow(updated.topics, c.id.value, c.fields.entries));
      } else if c.section.value == "capability_levels" {
        updated := updated.(levels := UpdateRow(updated.levels, c.id.value, c.fields.entries));
      }
      i := i + 1;
    }
    assert changes[..i] == changes;
    return updated, Success;
  }

  // ---------------------------------------------------------------------------
  // Properties

  /** Once a change has stopped the loop, later changes are never looked at. */
  lemma {:induction false} ProcessStops(db: Db, changes: seq<Change>, i: nat)
    requires i <= |changes|
    requires Process(db, changes[..i]).1.Some?
    ensures Process(db, changes) == Process(db, changes[..i])
  {
    if i < |changes| {
      assert changes[..|changes| - 1][..i] == changes[..i];
      ProcessStops(db, changes[..|changes| - 1], i);
    } else {
      assert changes[..i] == changes;
    }
  }

  /** A wrong secret is refused with 401 before any update. */
  lemma UnauthorizedUnchanged(req: Request, adminSalis: Option<string>, db: Db)
    requires !IsAdminSalis(req.salis, adminSalis)
    ensures Handle(req, adminSalis, db) == (db, Unauthorized)
    ensures Status(Handle(req, adminSalis, db).1) == 401
  {
  }

  /** A `changes` that is not an array is refused with 400 and no update. */
  lemma NotArrayUnchanged(req: Request, adminSalis: Option<string>, db: Db)
    requires IsAdminSalis(req.salis, adminSalis) && req.changes.NotArray?
    ensures Handle(req, adminSalis, db) == (db, InvalidFormat)
    ensures Status(Handle(req, adminSalis, db).1) == 400
  {
  }

  /** A change without section, id or fields object is skipped. */
  lemma IncompleteSkipped(db: Db, c: Change)
    requires Incomplete(c)
    ensures Step(db, c) == (db, None)
  {
  }

  /** Entry `i` is the first one holding an over-long string. */
  predicate FirstOverLimitAt(entries: seq<(string, Value)>, i: nat)
  {
    i < |entries| && OverLimit(entries[i].1) && forall j :: 0 <= j < i ==> !OverLimit(entries[j].1)
  }

  /** The first over-long string column is reported, and only strings are measured. */
  lemma {:induction false} FirstTooLongSpec(entries: seq<(string, Value)>)
    ensures FirstTooLong(entries).None? <==> forall i :: 0 <= i < |entries| ==> !OverLimit(entries[i].1)
    ensures FirstTooLong(entries).Some? ==>
      exists i: nat :: FirstOverLimitAt(entries, i) && entries[i].0 == FirstTooLong(entries).value
  {
    if |entries| > 0 && !OverLimit(entries[0].1) {
      var rest := entries[1..];
      FirstTooLongSpec(rest);
      forall i | 0 <= i < |rest| ensures rest[i] == entries[i + 1] { }
      if FirstTooLong(entries).Some? {
        var i: nat :| FirstOverLimitAt(rest, i) && rest[i].0 == FirstTooLong(entries).value;
        forall j | 0 <= j < i + 1 ensures !OverLimit(entries[j].1) {
          if j > 0 { assert entries[j] == rest[j - 1]; }
        }
        assert entries[i + 1] == rest[i];
        assert FirstOverLimitAt(entries, i + 1);
      }
    } else if |entries| > 0 {
      assert FirstOverLimitAt(entries, 0);
    }
  }

  /** A complete change with a string over 5000 characters ends the request with 400 naming its
      column; what the earlier changes wrote stays written. */
  lemma TooLongKeepsEarlier(db: Db, changes: seq<Change>, i: nat, key: string)
    requires i < |changes| && Process(db, changes[..i]).1.None?
    requires !Incomplete(changes[i]) && changes[i].fields.Fields?
    requires FirstTooLong(changes[i].fields.entries) == Some(key)
    ensures Process(db, changes) == (Process(db, changes[..i]).0, Some(TooLong(key)))
    ensures Status(TooLong(key)) == 400
  {
    assert changes[..i + 1][..i] == changes[..i];
    ProcessStops(db, changes, i + 1);
  }

  /** The limit is strict: exactly 5000 characters pass, and numbers, booleans and null are not measured. */
  lemma LimitBoundary(key: string, s: string, v: Value)
    requires |s| == MaxFieldLength && !v.Str?
    ensures FirstTooLong([(key, Str(s)), (key, v)]) == None
  {
    assert [(key, Str(s)), (key, v)][1..] == [(key, v)];
    assert [(key, v)][1..] == [];
    assert !OverLimit(Str(s));
    assert FirstTooLong([(key, v)]) == None;
  }

  /** A section other than topics or capability_levels changes nothing; a valid change to one
      table leaves the other table, and every other row, as it was. */
  lemma SectionEffect(db: Db, c: Change)
    requires !Incomplete(c) && c.fields.Fields? && FirstTooLong(c.fields.entries).None?
    ensures c.section.value != "topics" && c.section.value != "capability_levels" ==> Step(db, c) == (db, None)
    ensures c.section.value == "topics" ==>
      Step(db, c).0.levels == db.levels && OnlyRowChanged(db.topics, Step(db, c).0.topics, c.id.value)
    ensures c.section.value == "capability_levels" ==>
      Step(db, c).0.topics == db.topics && OnlyRowChanged(db.levels, Step(db, c).0.levels, c.id.value)
  {
  }
}
