/** The two tables the admin routes edit (`topics` and `capability_levels`) as maps from row id to
    a row of named column values, and `supabase.from(t).update(fields).eq("id", id)` as a function
    on them: every given column of the row with that id is overwritten, and an id with no row
    changes nothing. */
module AdminTables {

  /** A JSON value sent by the editor: a string, a number, a boolean or null. */
  datatype Value = Str(s: string) | Num(n: int) | Bool(b: bool) | Null

  type Row = map<string, Value>
  type Table = map<int, Row>

  datatype Db = Db(topics: Table, levels: Table)

  /** The columns of a row after writing `entries` in order. */
  function Assign(row: Row, entries: seq<(string, Value)>): Row
  {
    if |entries| == 0 then row
    else
      var last := entries[|entries| - 1];
      Assign(row, entries[..|entries| - 1])[last.0 := last.1]
  }

  /** `update(fields).eq("id", id)` on one table. */
  function UpdateRow(table: Table, id: int, entries: seq<(string, Value)>): (r: Table)
    ensures OnlyRowChanged(table, r, id)
    ensures id in table ==> r[id] == Assign(table[id], entries)
  {
    if id in table then table[id := Assign(table[id], entries)] else table
  }

  /** The column names in `entries`. */
  function Columns(entries: seq<(string, Value)>): set<string>
  {
    set i | 0 <= i < |entries| :: entries[i].0
  }

  /** The same rows as before, and all but the one with `id` unchanged. */
  predicate OnlyRowChanged(before: Table, after: Table, id: int)
  {
    after.Keys == before.Keys && forall other :: other in before && other != id ==> after[other] == before[other]
  }

  // ---------------------------------------------------------------------------
  // Properties

  /** Writing adds exactly the written columns, and a column not written keeps its value. */
  lemma {:induction false} AssignUntouched(row: Row, entries: seq<(string, Value)>, k: string)
    requires k !in Columns(entries)
    ensures (k in Assign(row, entries) <==> k in row)
    ensures k in row ==> Assign(row, entries)[k] == row[k]
  {
    if |entries| > 0 {
      var init := entries[..|entries| - 1];
      assert Columns(init) <= Columns(entries) by {
        forall c | c in Columns(init) ensures c in Columns(entries) {
          var i :| 0 <= i < |init| && init[i].0 == c;
          assert entries[i] == init[i];
        }
      }
      AssignUntouched(row, init, k);
    }
  }

  /** A written column holds the value of its last write. */
  lemma {:induction false} AssignLast(row: Row, entries: seq<(string, Value)>, i: nat)
    requires i < |entries|
    requires forall j :: i < j < |entries| ==> entries[j].0 != entries[i].0
    ensures entries[i].0 in Assign(row, entries) && Assign(row, entries)[entries[i].0] == entries[i].1
  {
    if i < |entries| - 1 {
      var init := entries[..|entries| - 1];
      assert init[i] == entries[i];
      AssignLast(row, init, i);
    }
  }

  /** The row afterwards has its old columns plus the written ones. */
  lemma {:induction false} AssignKeys(row: Row, entries: seq<(string, Value)>)
    ensures Assign(row, entries).Keys == row.Keys + Columns(entries)
  {
    if |entries| > 0 {
      var init := entries[..|entries| - 1];
      AssignKeys(row, init);
      assert forall i :: 0 <= i < |init| ==> init[i] == entries[i];
      assert Columns(entries) == Columns(init) + {entries[|entries| - 1].0};
    }
  }
}
