/** What the three progress hooks (hooks/useDimensions.tsx, hooks/useStepsProgress.ts,
    hooks/useSteps2.tsx) have in common: a list of completed ids kept in component state, extended
    with "append unless already present", read from browser storage once on mount and written back
    on every change after mount. Browser storage is a map from key to the stored list; the JSON
    round trip is taken to be exact. */
module Persisted {
  import opened Seqs

  /** `prev.includes(id) ? prev : [...prev, id]`. */
  function AddIfAbsent<T(==,!new)>(s: seq<T>, x: T): (r: seq<T>)
    ensures x in r
    ensures forall y :: y in r <==> y in s || y == x
    ensures |s| <= |r| <= |s| + 1
    ensures r[..|s|] == s
  {
    if x in s then s else s + [x]
  }

  /** The outcome of `localStorage.getItem` followed by `JSON.parse`: nothing stored (or the empty
      string, which is falsy), text that does not parse, or the parsed list. */
  datatype Stored<T> = Absent | ParseFailed | Parsed(value: seq<T>)

  /** The state after the load effect: replaced only when a list was parsed. */
  function Loaded<T>(stored: Stored<T>, current: seq<T>): (r: seq<T>)
    ensures stored.Parsed? ==> r == stored.value
    ensures !stored.Parsed? ==> r == current
  {
    match stored
    case Parsed(value) => value
    case _ => current
  }

  /** The save effect: nothing before mount, afterwards the list is stored under `key`. */
  function Saved<T>(storage: map<string, seq<T>>, mounted: bool, key: string, list: seq<T>): (r: map<string, seq<T>>)
    ensures mounted ==> key in r && r[key] == list
    ensures forall k :: k != key ==> (k in r <==> k in storage) && (k in r ==> r[k] == storage[k])
    ensures !mounted ==> r == storage
  {
    if mounted then storage[key := list] else storage
  }

  /** The storage entry under `key` as read back: absent or the stored list. */
  function Read<T>(storage: map<string, seq<T>>, key: string): Stored<T>
  {
    if key in storage then Parsed(storage[key]) else Absent
  }

  // ---------------------------------------------------------------------------
  // Properties

  /** Adding an id that is already present leaves the list unchanged, so adding twice is adding once. */
  lemma AddIdempotent<T(!new)>(s: seq<T>, x: T)
    ensures x in s ==> AddIfAbsent(s, x) == s
    ensures AddIfAbsent(AddIfAbsent(s, x), x) == AddIfAbsent(s, x)
  {
  }

  /** A new id goes last, after the old list in its old order. */
  lemma AddAppends<T(!new)>(s: seq<T>, x: T)
    requires x !in s
    ensures AddIfAbsent(s, x) == s + [x]
  {
  }

  /** Starting from a list without duplicates, any sequence of additions keeps it free of duplicates. */
  lemma AddKeepsNoDups<T(!new)>(s: seq<T>, x: T)
    requires NoDups(s)
    ensures NoDups(AddIfAbsent(s, x))
  {
    var r := AddIfAbsent(s, x);
    forall i, j | 0 <= i < j < |r|
      ensures r[i] != r[j]
    {
      if j == |s| {
        assert r[i] == s[i];
      }
    }
  }

  /** The list built by adding ids one at a time from the empty list. */
  function AddAll<T(==,!new)>(ids: seq<T>): seq<T>
  {
    if |ids| == 0 then [] else AddIfAbsent(AddAll(ids[..|ids| - 1]), ids[|ids| - 1])
  }

  /** Adding ids one by one gives each id once, in the order it was first added: the list is
      `[...new Set(ids)]`. */
  lemma {:induction false} AddAllSpec<T(!new)>(ids: seq<T>)
    ensures NoDups(AddAll(ids))
    ensures forall y :: y in AddAll(ids) <==> y in ids
    ensures AddAll(ids) == Dedup(ids)
    ensures forall i, j :: 0 <= i < j < |AddAll(ids)| ==> FirstIndex(ids, AddAll(ids)[i]) < FirstIndex(ids, AddAll(ids)[j])
  {
    AddAllIsDedup(ids);
    DedupOrder(ids);
  }

  lemma {:induction false} AddAllIsDedup<T(!new)>(ids: seq<T>)
    ensures AddAll(ids) == Dedup(ids)
  {
    if |ids| > 0 {
      AddAllIsDedup(ids[..|ids| - 1]);
    }
  }

  /** Whatever was saved after mount is what the next load reads back. */
  lemma SaveThenLoad<T>(storage: map<string, seq<T>>, key: string, list: seq<T>, current: seq<T>)
    ensures Loaded(Read(Saved(storage, true, key, list), key), current) == list
  {
  }

  /** A load that finds nothing or fails to parse keeps the initial empty list. */
  lemma FailedLoadEmpty<T>(stored: Stored<T>)
    requires !stored.Parsed?
    ensures Loaded(stored, []) == []
  {
  }

  /** A list without duplicates has as many distinct elements as entries. */
  lemma {:induction false} NoDupsCard<T>(s: seq<T>)
    requires NoDups(s)
    ensures |set x | x in s| == |s|
  {
    if |s| > 0 {
      var init := s[..|s| - 1];
      assert NoDups(init);
      NoDupsCard(init);
      assert s == init + [s[|s| - 1]];
      assert (set x | x in s) == (set x | x in init) + {s[|s| - 1]};
    }
  }
}
