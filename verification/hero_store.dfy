/** The client's hero store: the hero's characteristics keyed by their
    server names (`"max-health"`, `"damage"`, ..., and `heroId`), or no
    record before the first load. */
module HeroStore {
  import opened Wrappers
  import opened JsValues

  type HeroStats = map<string, Json>

  datatype Store = Store(stats: Option<HeroStats>)

  /** The initial state: no record. */
  function Init(): (st: Store)
    ensures st.stats.None?
  {
    Store(None)
  }

  /** `setStats(stats)`: the whole record is replaced. */
  function SetStats(st: Store, stats: HeroStats): (r: Store)
    ensures r.stats == Some(stats)
  {
    Store(Some(stats))
  }

  /** `updateStat(key, value)`: without a record nothing changes; otherwise
      the key is set to the value and every other key keeps its value. */
  function UpdateStat(st: Store, key: string, value: real): (r: Store)
    ensures st.stats.None? ==> r == st
    ensures st.stats.Some? ==>
              && r.stats.Some?
              && r.stats.value.Keys == st.stats.value.Keys + {key}
              && r.stats.value[key] == Num(value)
              && forall k :: k in st.stats.value && k != key ==> r.stats.value[k] == st.stats.value[k]
  {
    match st.stats
    case None => st
    case Some(s) => Store(Some(s[key := Num(value)]))
  }

  /** A second update of the same key overrides the first. */
  lemma LastUpdateWins(st: Store, key: string, a: real, b: real)
    ensures UpdateStat(UpdateStat(st, key, a), key, b) == UpdateStat(st, key, b)
  {
    if st.stats.Some? {
      assert st.stats.value[key := Num(a)][key := Num(b)] == st.stats.value[key := Num(b)];
    }
  }

  /** Updates of different keys commute. */
  lemma UpdatesCommute(st: Store, k1: string, v1: real, k2: string, v2: real)
    requires k1 != k2
    ensures UpdateStat(UpdateStat(st, k1, v1), k2, v2) == UpdateStat(UpdateStat(st, k2, v2), k1, v1)
  {
    if st.stats.Some? {
      var s := st.stats.value;
      assert s[k1 := Num(v1)][k2 := Num(v2)] == s[k2 := Num(v2)][k1 := Num(v1)];
    }
  }

  /** Updating a key the record already has keeps the record's key set. */
  lemma UpdateKeepsKeys(st: Store, key: string, value: real)
    requires st.stats.Some? && key in st.stats.value
    ensures UpdateStat(st, key, value).stats.value.Keys == st.stats.value.Keys
  {
  }
}
