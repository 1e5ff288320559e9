/** Per-key boolean flags held in a record keyed by string, flipped with
    `{...prev, [key]: !prev[key]}`; an absent key reads as false. Used for the roadmap's expanded
    steps and the results page's priority checkboxes. */
module Flags {

  /** `prev[key] || false`: the flag as a checkbox or a condition reads it. */
  predicate Flag(m: map<string, bool>, key: string)
  {
    key in m && m[key]
  }

  /** `{...prev, [key]: !prev[key]}`. */
  function Toggle(m: map<string, bool>, key: string): (r: map<string, bool>)
    ensures r.Keys == m.Keys + {key}
    ensures Flag(r, key) == !Flag(m, key)
    ensures forall k :: k in m && k != key ==> r[k] == m[k]
  {
    m[key := !Flag(m, key)]
  }

  /** Toggling twice restores a flag that was present. */
  lemma ToggleTwice(m: map<string, bool>, key: string)
    requires key in m
    ensures Toggle(Toggle(m, key), key) == m
  {
  }

  /** Toggling one key leaves how every other key reads unchanged. */
  lemma ToggleOthers(m: map<string, bool>, key: string, other: string)
    requires other != key
    ensures Flag(Toggle(m, key), other) == Flag(m, other)
  {
  }
}
