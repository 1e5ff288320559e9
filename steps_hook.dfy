/** hooks/useStepsProgress.ts: the completed roadmap steps (numeric ids) under one fixed storage
    key shared by every user of the browser. */
module StepsHook {
  import opened Persisted

  const StepsKey: string := "app_completed_steps"

  class StepsProgress {
    var completed: seq<int>
    var mounted: bool

    constructor()
      ensures completed == [] && !mounted
    {
      completed := [];
      mounted := false;
    }

    /** The load effect on mount. */
    method Load(stored: Stored<int>)
      modifies this
      ensures mounted
      ensures completed == Loaded(stored, old(completed))
    {
      mounted := true;
      completed := Loaded(stored, completed);
    }

    /** The save effect: the storage after it runs. */
    method Save(storage: map<string, seq<int>>) returns (updated: map<string, seq<int>>)
      ensures updated == Saved(storage, mounted, StepsKey, completed)
    {
      updated := storage;
      if mounted {
        updated := updated[StepsKey := completed];
      }
    }

    /** `completeStep`. */
    method CompleteStep(id: int)
      modifies this
      ensures completed == AddIfAbsent(old(completed), id)
      ensures mounted == old(mounted)
    {
      if id !in completed {
        completed := completed + [id];
      }
    }
  }
}
