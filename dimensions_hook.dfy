/** hooks/useDimensions.tsx: the completed dimensions of one user, the number of topics in the
    database, and whether every dimension is done. */
module DimensionsHook {
  import opened Wrappers
  import opened Seqs
  import opened Persisted

  const DimensionsPrefix: string := "app_completed_dimensions_"

  /** The storage key of a user's completed dimensions. */
  function DimensionsKey(username: string): string
  {
    DimensionsPrefix + username
  }

  /** The user the hook falls back to when none is passed. */
  const DefaultUser: string := "jaakko"

  /** `totalDimensions !== null && completedDimensions.length >= totalDimensions`. */
  predicate AllCompleted(completed: seq<string>, total: Option<nat>)
  {
    total.Some? && |completed| >= total.value
  }

  class DimensionsProgress {
    var username: string
    var completed: seq<string>
    /** `null` until the topic count arrives. */
    var total: Option<nat>
    var mounted: bool

    constructor(username: string)
      ensures this.username == username && completed == [] && total == None && !mounted
    {
      this.username := username;
      completed := [];
      total := None;
      mounted := false;
    }

    /** The load effect on mount: the stored list replaces the state only when it parses. */
    method Load(stored: Stored<string>)
      modifies this
      ensures mounted
      ensures completed == Loaded(stored, old(completed))
      ensures username == old(username) && total == old(total)
    {
      mounted := true;
      completed := Loaded(stored, completed);
    }

    /** A new `username` re-runs the load effect under the new key; when nothing is stored for the
        new user, the previous user's list stays in the state. */
    method ChangeUser(name: string, stored: Stored<string>)
      modifies this
      ensures username == name && mounted
      ensures completed == Loaded(stored, old(completed))
      ensures total == old(total)
    {
      username := name;
      mounted := true;
      completed := Loaded(stored, completed);
    }

    /** The save effect: the storage after it runs. */
    method Save(storage: map<string, seq<string>>) returns (updated: map<string, seq<string>>)
      ensures updated == Saved(storage, mounted, DimensionsKey(username), completed)
    {
      updated := storage;
      if mounted {
        updated := updated[DimensionsKey(username) := completed];
      }
    }

    /** The topic fetch: the row count on success, the previous value on error. */
    method FetchTotal(rows: Option<nat>)
      modifies this
      ensures total == (if rows.Some? then rows else old(total))
      ensures completed == old(completed) && username == old(username) && mounted == old(mounted)
    {
      if rows.Some? {
        total := rows;
      }
    }

    /** `completeDimension`. */
    method CompleteDimension(id: string)
      modifies this
      ensures completed == AddIfAbsent(old(completed), id)
      ensures username == old(username) && total == old(total) && mounted == old(mounted)
    {
      if id !in completed {
        completed := completed + [id];
      }
    }
  }

  // ---------------------------------------------------------------------------
  // Properties

  /** Different users never share a storage entry. */
  lemma DimensionsKeyInjective(u: string, v: string)
    ensures DimensionsKey(u) == DimensionsKey(v) <==> u == v
  {
    if DimensionsKey(u) == DimensionsKey(v) {
      assert u == DimensionsKey(u)[|DimensionsPrefix|..];
    }
  }

  /** While the topic count is unknown nothing is complete; once it is known, completion is the
      count comparison. */
  lemma AllCompletedCases(completed: seq<string>, total: Option<nat>)
    ensures total.None? ==> !AllCompleted(completed, total)
    ensures total.Some? ==> (AllCompleted(completed, total) <==> |completed| >= total.value)
  {
  }

  /** When the list has no duplicates and holds only topic ids, counting agrees with coverage: all
      dimensions are completed iff every topic id is in the list. */
  lemma AllCompletedCovers(completed: seq<string>, topics: set<string>)
    requires NoDups(completed)
    requires forall x :: x in completed ==> x in topics
    ensures AllCompleted(completed, Some(|topics|)) <==> topics <= set x | x in completed
  {
    var done := set x | x in completed;
    NoDupsCard(completed);
    assert done <= topics;
    if |completed| >= |topics| && !(topics <= done) {
      var t :| t in topics && t !in done;
      assert done <= topics - {t};
      SubsetCard(done, topics - {t});
      assert false;
    }
    if topics <= done {
      assert done == topics;
      SubsetCard(topics, done);
    }
  }

  /** The count does not see duplicates: a stored list with one dimension twice counts as two. */
  lemma DuplicatesCountTwice()
    ensures AllCompleted(["D1", "D1"], Some(2))
  {
  }
}
