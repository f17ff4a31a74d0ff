/**
 * The per-kind behaviour of a table's declarations, independent of any
 * particular table: what a `unique` and an `index` (grouping) container must
 * hold for a given primary map, the check arm each kind contributes to the
 * insert, update and delete checks, the container updates of the
 * `*_index` arms, and the `next_id` key generator.
 *
 * A table's record field is passed as a named projection `field: R -> V`.
 */
module Index {
  import opened Protocol

  // ---------------------------------------------------------------------
  // Invariants: the containers reflect the primary map exactly
  // ---------------------------------------------------------------------

  /** Every record is stored under its own primary key. */
  ghost predicate KeyedBy<K, R>(primary: map<K, R>, key: R -> K) {
    forall k :: k in primary ==> key(primary[k]) == k
  }

  /**
   * A `unique` container maps each field value held by some record to the key
   * of that record, and holds nothing else.
   */
  ghost predicate UniqueIndexOf<K, R, V>(primary: map<K, R>, field: R -> V, index: map<V, K>) {
    && (forall k :: k in primary ==> field(primary[k]) in index && index[field(primary[k])] == k)
    && (forall v :: v in index ==> index[v] in primary && field(primary[index[v]]) == v)
  }

  /**
   * An `index` (grouping) container maps each field value held by some record
   * to the non-empty set of keys of the records holding it, and holds nothing else.
   */
  ghost predicate GroupIndexOf<K, R, V>(primary: map<K, R>, field: R -> V, index: map<V, set<K>>) {
    && (forall k :: k in primary ==> field(primary[k]) in index && k in index[field(primary[k])])
    && (forall v, k :: v in index && k in index[v] ==> k in primary && field(primary[k]) == v)
    && (forall v :: v in index ==> index[v] != {})
  }

  /** Some record holds `v` in `field`. */
  ghost predicate Taken<K, R, V>(primary: map<K, R>, field: R -> V, v: V) {
    exists k :: k in primary && field(primary[k]) == v
  }

  /** Some record other than the one under `owner` holds `v` in `field`. */
  ghost predicate TakenByOther<K, R, V>(primary: map<K, R>, field: R -> V, v: V, owner: K) {
    exists k :: k in primary && k != owner && field(primary[k]) == v
  }

  // ---------------------------------------------------------------------
  // Check arms (`table_insert_check!`, `table_update_check!`, `table_delete_check!`)
  // ---------------------------------------------------------------------

  /** `primary` on insert: fails when the key is already stored. */
  function PrimaryInsertCheck<K, R, E>(primary: map<K, R>, key: K, error: E): (r: Check<E>)
    ensures r.error == error
    ensures r.violated <==> key in primary
  {
    Check(key in primary, error)
  }

  /** `unique` on insert: fails when the value is already indexed. */
  function UniqueInsertCheck<V, K, E>(index: map<V, K>, v: V, error: E): (r: Check<E>)
    ensures r.error == error
    ensures r.violated <==> v in index
  {
    Check(v in index, error)
  }

  /** `foreign` on insert: fails when the referenced table has no such key. */
  function ForeignInsertCheck<K, R, E>(other: map<K, R>, key: K, error: E): (r: Check<E>)
    ensures r.error == error
    ensures r.violated <==> key !in other
  {
    Check(key !in other, error)
  }

  /** `unique` on update: the insert check on the new value, only when the value changed. */
  function UniqueUpdateCheck<V, K, E>(index: map<V, K>, before: V, after: V, error: E): (r: Check<E>)
    ensures r.error == error
    ensures r.violated <==> before != after && after in index
  {
    if before != after then UniqueInsertCheck(index, after, error) else Pass(error)
  }

  /** `foreign` on update: the insert check on the new reference, only when it changed. */
  function ForeignUpdateCheck<K, R, E>(other: map<K, R>, before: K, after: K, error: E): (r: Check<E>)
    ensures r.error == error
    ensures r.violated <==> before != after && after !in other
  {
    if before != after then ForeignInsertCheck(other, after, error) else Pass(error)
  }

  /**
   * `reverse` on delete: fails when the other table's grouping container
   * still has keys under this key. A present but empty set is the
   * "has empty index" defect, excluded by the precondition.
   */
  function ReverseDeleteCheck<K, J, E>(index: map<K, set<J>>, key: K, error: E): (r: Check<E>)
    requires key in index ==> index[key] != {}
    ensures r.error == error
    ensures r.violated <==> key in index
  {
    Check(key in index && index[key] != {}, error)
  }

  // ---------------------------------------------------------------------
  // Grouping container updates (`table_insert_index!` / `table_delete_index!`, `index` arm)
  // ---------------------------------------------------------------------

  /**
   * `entry(v).or_default().insert(k)`: the set for `v` gains `k`, the entry
   * for `v` being created if it was absent.
   */
  function GroupAdd<K, V>(index: map<V, set<K>>, v: V, k: K): (r: map<V, set<K>>)
    ensures r.Keys == index.Keys + {v}
    ensures k in r[v] && (v in index ==> index[v] <= r[v]) && r[v] - {k} <= (if v in index then index[v] else {})
    ensures forall w :: w in index && w != v ==> r[w] == index[w]
  {
    index[v := (if v in index then index[v] else {}) + {k}]
  }

  /**
   * `get_mut(v)`, `remove(k)`, and drop the entry for `v` once its set is
   * empty. The precondition excludes the "index missing" panic.
   */
  function GroupRemove<K, V>(index: map<V, set<K>>, v: V, k: K): (r: map<V, set<K>>)
    requires v in index
    ensures v in r <==> !(index[v] <= {k})
    ensures v in r ==> r[v] == index[v] - {k}
    ensures index.Keys - {v} <= r.Keys <= index.Keys
    ensures forall w :: w in r && w != v ==> r[w] == index[w]
  {
    var rest := index[v] - {k};
    if rest == {} then index - {v} else index[v := rest]
  }

  // ---------------------------------------------------------------------
  // Update arms (`table_update_index!`): re-associate only a changed value
  // ---------------------------------------------------------------------

  /** `unique` on update: when the value changed, remove the old entry and insert the new one. */
  function UniqueReassign<K, V>(index: map<V, K>, before: V, after: V, k: K): (r: map<V, K>)
    ensures before == after ==> r == index
    ensures before != after ==> after in r && r[after] == k && before !in r
    ensures before != after ==> r.Keys == index.Keys - {before} + {after}
  {
    if before != after then (index - {before})[after := k] else index
  }

  /**
   * `index` on update: when the value changed, move the key from the old
   * value's set to the new one's.
   */
  function GroupReassign<K, V>(index: map<V, set<K>>, before: V, after: V, k: K): (r: map<V, set<K>>)
    requires before != after ==> before in index
    ensures before == after ==> r == index
    ensures before != after ==> after in r && k in r[after] && (before in r ==> k !in r[before])
  {
    if before != after then GroupAdd(GroupRemove(index, before, k), after, k) else index
  }

  // ---------------------------------------------------------------------
  // The container updates undo each other
  // ---------------------------------------------------------------------

  /**
   * Removing a key that was just added to a group gives back the container,
   * provided the key was not grouped there yet and no empty set is stored.
   */
  lemma GroupAddThenRemove<K, V>(index: map<V, set<K>>, v: V, k: K)
    requires v in index ==> index[v] != {} && k !in index[v]
    ensures v in GroupAdd(index, v, k) && k in GroupAdd(index, v, k)[v]
    ensures GroupRemove(GroupAdd(index, v, k), v, k) == index
  {
  }

  /** Adding back a key just removed from its group gives back the container. */
  lemma GroupRemoveThenAdd<K, V>(index: map<V, set<K>>, v: V, k: K)
    requires v in index && k in index[v]
    ensures GroupAdd(GroupRemove(index, v, k), v, k) == index
  {
    var removed := GroupRemove(index, v, k);
    assert (if v in removed then removed[v] else {}) + {k} == index[v];
    assert removed[v := index[v]] == index;
  }

  /** Re-associating a unique value and then re-associating it back gives back the container. */
  lemma UniqueReassignBack<K, V>(index: map<V, K>, before: V, after: V, k: K)
    requires before in index && index[before] == k
    requires before != after ==> after !in index
    ensures UniqueReassign(UniqueReassign(index, before, after, k), after, before, k) == index
  {
  }

  /** Moving a key to another group and then back gives back the container. */
  lemma GroupReassignBack<K, V>(index: map<V, set<K>>, before: V, after: V, k: K)
    requires before in index && k in index[before]
    requires after in index ==> index[after] != {} && (before != after ==> k !in index[after])
    ensures after in GroupReassign(index, before, after, k)
    ensures GroupReassign(GroupReassign(index, before, after, k), after, before, k) == index
  {
    if before != after {
      var removed := GroupRemove(index, before, k);
      assert after in removed ==> removed[after] == index[after];
      GroupAddThenRemove(removed, after, k);
      GroupRemoveThenAdd(index, before, k);
    }
  }

  // ---------------------------------------------------------------------
  // Lookups: what the containers say about the record set
  // ---------------------------------------------------------------------

  /** A unique container holds `v` exactly when some record holds `v`. */
  lemma UniqueIndexLookup<K, R, V>(primary: map<K, R>, field: R -> V, index: map<V, K>, v: V)
    requires UniqueIndexOf(primary, field, index)
    ensures v in index <==> Taken(primary, field, v)
  {

  }

  /**
   * Seen from the record under `owner`: a unique container holds a value other
   * than that record's own exactly when another record holds it.
   */
  lemma UniqueIndexLookupOther<K, R, V>(primary: map<K, R>, field: R -> V, index: map<V, K>, v: V, owner: K)
    requires UniqueIndexOf(primary, field, index)
    requires owner in primary
    ensures (v != field(primary[owner]) && v in index) <==> TakenByOther(primary, field, v, owner)
  {

  }

  /** A unique container is injective on the records: no two records share a value. */
  lemma UniqueIndexInjective<K, R, V>(primary: map<K, R>, field: R -> V, index: map<V, K>, k1: K, k2: K)
    requires UniqueIndexOf(primary, field, index)
    requires k1 in primary && k2 in primary && k1 != k2
    ensures field(primary[k1]) != field(primary[k2])
  {
  }

  /** A grouping container's set for `v` is exactly the keys of the records holding `v`. */
  lemma GroupIndexLookup<K, R, V>(primary: map<K, R>, field: R -> V, index: map<V, set<K>>, v: V, k: K)
    requires GroupIndexOf(primary, field, index)
    ensures v in index <==> Taken(primary, field, v)
    ensures (v in index && k in index[v]) <==> (k in primary && field(primary[k]) == v)
  {
    if v in index {
      var w :| w in index[v];
      assert w in primary && field(primary[w]) == v;
    }
  }

  /** The unique container is determined by the records: there is only one. */
  lemma UniqueIndexExact<K, R, V>(primary: map<K, R>, field: R -> V, a: map<V, K>, b: map<V, K>)
    requires UniqueIndexOf(primary, field, a) && UniqueIndexOf(primary, field, b)
    ensures a == b
  {

  }

  /** The grouping container is determined by the records: there is only one. */
  lemma {:induction false} GroupIndexExact<K, R, V>(primary: map<K, R>, field: R -> V, a: map<V, set<K>>, b: map<V, set<K>>)
    requires GroupIndexOf(primary, field, a) && GroupIndexOf(primary, field, b)
    ensures a == b
  {
    forall v | v in a ensures v in b && b[v] == a[v] {
      var w :| w in a[v];
      assert field(primary[w]) == v;
      forall k ensures k in a[v] <==> k in b[v] {
        GroupIndexLookup(primary, field, a, v, k);
        GroupIndexLookup(primary, field, b, v, k);
      }
    }
    forall v | v in b ensures v in a {
      var w :| w in b[v];
      assert field(primary[w]) == v;
    }
  }

  // ---------------------------------------------------------------------
  // The container updates keep the invariants
  // ---------------------------------------------------------------------

  /** Insert arm of `unique`: storing `r` under a fresh key `k` adds `field(r) -> k`. */
  lemma UniqueIndexInsert<K, R, V>(primary: map<K, R>, field: R -> V, index: map<V, K>, k: K, r: R)
    requires UniqueIndexOf(primary, field, index)
    requires k !in primary && field(r) !in index
    ensures UniqueIndexOf(primary[k := r], field, index[field(r) := k])
  {
  }

  /** Delete arm of `unique`: the record's value is present, maps to its key, and is removed. */
  lemma UniqueIndexRemove<K, R, V>(primary: map<K, R>, field: R -> V, index: map<V, K>, k: K)
    requires UniqueIndexOf(primary, field, index)
    requires k in primary
    ensures field(primary[k]) in index && index[field(primary[k])] == k
    ensures UniqueIndexOf(primary - {k}, field, index - {field(primary[k])})
  {

  }

  /**
   * Update arm of `unique`: replacing the record under `k` by `r` keeps the
   * container when the value is unchanged, and otherwise re-associates it as
   * remove-old then insert-new (the new value must be free).
   */
  lemma UniqueIndexReplace<K, R, V>(primary: map<K, R>, field: R -> V, index: map<V, K>, k: K, r: R)
    requires UniqueIndexOf(primary, field, index)
    requires k in primary
    requires field(r) != field(primary[k]) ==> field(r) !in index
    ensures field(primary[k]) in index && index[field(primary[k])] == k
    ensures UniqueIndexOf(primary[k := r], field, UniqueReassign(index, field(primary[k]), field(r), k))
  {

  }

  /** Insert arm of `index`: the fresh key is not yet grouped, and is added under `field(r)`. */
  lemma GroupIndexInsert<K, R, V>(primary: map<K, R>, field: R -> V, index: map<V, set<K>>, k: K, r: R)
    requires GroupIndexOf(primary, field, index)
    requires k !in primary
    ensures field(r) !in index || k !in index[field(r)]
    ensures GroupIndexOf(primary[k := r], field, GroupAdd(index, field(r), k))
  {
  }

  /**
   * Delete arm of `index`: the record's key is grouped under its value; it is
   * removed, and the value's entry is dropped when no key is left.
   */
  lemma GroupIndexRemove<K, R, V>(primary: map<K, R>, field: R -> V, index: map<V, set<K>>, k: K)
    requires GroupIndexOf(primary, field, index)
    requires k in primary
    ensures field(primary[k]) in index && k in index[field(primary[k])]
    ensures GroupIndexOf(primary - {k}, field, GroupRemove(index, field(primary[k]), k))
  {

  }

  /**
   * Update arm of `index`: replacing the record under `k` by `r` keeps the
   * container when the value is unchanged, and otherwise moves the key from the
   * old value's set to the new one's.
   */
  lemma {:induction false} GroupIndexReplace<K, R, V>(primary: map<K, R>, field: R -> V, index: map<V, set<K>>, k: K, r: R)
    requires GroupIndexOf(primary, field, index)
    requires k in primary
    ensures field(primary[k]) in index && k in index[field(primary[k])]
    ensures field(r) != field(primary[k]) && field(r) in index ==> k !in index[field(r)]
    ensures GroupIndexOf(primary[k := r], field, GroupReassign(index, field(primary[k]), field(r), k))
  {
    GroupIndexRemove(primary, field, index, k);
    if field(r) != field(primary[k]) {
      GroupIndexInsert(primary - {k}, field, GroupRemove(index, field(primary[k]), k), k, r);
      assert (primary - {k})[k := r] == primary[k := r];
    } else {
      var p := primary[k := r];
      forall v, k' | v in index && k' in index[v] ensures k' in p && field(p[k']) == v {
        assert field(primary[k']) == v;
      }
    }
  }

  /** Storing a record whose key matches keeps the primary map keyed by its records. */
  lemma KeyedByStore<K, R>(primary: map<K, R>, key: R -> K, r: R)
    requires KeyedBy(primary, key)
    ensures KeyedBy(primary[key(r) := r], key)
  {
  }

  // ---------------------------------------------------------------------
  // Key generator (`table_next_id!`)
  // ---------------------------------------------------------------------

  /**
   * `keys().max().map(|key| *key + 1).unwrap_or_default()`: one more than the
   * largest key, or 0 for an empty table; never a key already in use.
   */
  method NextKey<R>(primary: map<nat, R>) returns (next: nat)
    ensures next !in primary
    ensures primary == map[] ==> next == 0
    ensures primary != map[] ==> next >= 1 && next - 1 in primary
    ensures forall k :: k in primary ==> k < next
  {
    next := 0;
    var rest := primary.Keys;
    while rest != {}
      invariant rest <= primary.Keys
      invariant forall k :: k in primary && k !in rest ==> k < next
      invariant next >= 1 ==> next - 1 in primary
      invariant next == 0 ==> rest == primary.Keys
      decreases rest
    {
      var k :| k in rest;
      if k + 1 > next {
        next := k + 1;
      }
      rest := rest - {k};
    }
  }
}
