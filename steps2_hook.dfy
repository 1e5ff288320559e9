/** hooks/useSteps2.tsx: the completed roadmap steps of one user, under a per-user storage key. */
module Steps2Hook {
  import opened Persisted
  import StepsHook
  import DimensionsHook

  const Steps2Prefix: string := "app_completed_steps_"

  /** The storage key of a user's completed steps. */
  function Steps2Key(username: string): string
  {
    Steps2Prefix + username
  }

  class UserStepsProgress {
    var username: string
    var completed: seq<int>
    var mounted: bool

    constructor(username: string)
      ensures this.username == username && completed == [] && !mounted
    {
      this.username := username;
      completed := [];
      mounted := false;
    }

    /** The load effect on mount. */
    method Load(stored: Stored<int>)
      modifies this
      ensures mounted
      ensures completed == Loaded(stored, old(completed))
      ensures username == old(username)
    {
      mounted := true;
      completed := Loaded(stored, completed);
    }

    /** A new `username` re-runs the load effect under the new key; when nothing is stored for the
        new user, the previous user's list stays in the state. */
    method ChangeUser(name: string, stored: Stored<int>)
      modifies this
      ensures username == name && mounted
      ensures completed == Loaded(stored, old(completed))
    {
      username := name;
      mounted := true;
      completed := Loaded(stored, completed);
    }

    /** The save effect: the storage after it runs. */
    method Save(storage: map<string, seq<int>>) returns (updated: map<string, seq<int>>)
      ensures updated == Saved(storage, mounted, Steps2Key(username), completed)
    {
      updated := storage;
      if mounted {
        updated := updated[Steps2Key(username) := completed];
      }
    }

    /** `completeStep`. */
    method CompleteStep(id: int)
      modifies this
      ensures completed == AddIfAbsent(old(completed), id)
      ensures username == old(username) && mounted == old(mounted)
    {
      if id !in completed {
        completed := completed + [id];
      }
    }
  }

  // ---------------------------------------------------------------------------
  // Properties

  /** Different users never share a storage entry. */
  lemma Steps2KeyInjective(u: string, v: string)
    ensures Steps2Key(u) == Steps2Key(v) <==> u == v
  {
    if Steps2Key(u) == Steps2Key(v) {
      assert u == Steps2Key(u)[|Steps2Prefix|..];
    }
  }

  /** The three hooks never write to the same entry: the fixed key of useStepsProgress is shorter
      than any per-user steps key, and dimension keys differ from steps keys at the fifteenth
      character. */
  lemma StorageKeysDistinct(u: string, v: string)
    ensures StepsHook.StepsKey != Steps2Key(u)
    ensures StepsHook.StepsKey != DimensionsHook.DimensionsKey(v)
    ensures Steps2Key(u) != DimensionsHook.DimensionsKey(v)
  {
    assert |StepsHook.StepsKey| < |Steps2Key(u)|;
    assert StepsHook.StepsKey[14] != DimensionsHook.DimensionsKey(v)[14];
    assert Steps2Key(u)[14] != DimensionsHook.DimensionsKey(v)[14];
  }
}
