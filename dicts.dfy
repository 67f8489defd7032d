/** Python dictionaries keyed by dates, which iterate in insertion order. */
module Dicts {
  import opened Dates

  /** No date occurs twice in `s`. */
  ghost predicate Distinct(s: seq<Date>) {
    forall i, j :: 0 <= i < j < |s| ==> s[i] != s[j]
  }

  /**
   * `keys` is the insertion (and iteration) order, `entries` the mapping.
   * `Valid` says each key occurs once and the two agree on the keys.
   */
  datatype DateDict<V> = DateDict(keys: seq<Date>, entries: map<Date, V>) {

    ghost predicate Valid() {
      && Distinct(keys)
      && (forall d :: d in entries <==> d in keys)
    }
  }

  /** `{}` */
  function EmptyDict<V>(): (e: DateDict<V>)
    ensures e.Valid() && e.keys == [] && e.entries == map[]
  {
    DateDict([], map[])
  }
}
