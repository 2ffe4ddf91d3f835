/**
  The APCu-backed get-or-compute cache (app/index.php 16-26) and its two
  invalidations: the full clear on an admin POST (32-34) and the single
  delete after an accepted comment (312). The store is a map from the
  prefixed key to the stored value; expiry is not modelled.
 */
module Cache {

  const Prefix: string := "orl_coffee_"

  /** The APCu key under which `getCachedData($key, ...)` stores. */
  function StoreKey(key: string): string {
    Prefix + key
  }

  /** What one `getCachedData` call returns, the store after it, and whether the producer ran. */
  datatype Fetched<V> = Fetched(value: V, store: map<string, V>, computed: bool)

  /**
    `getCachedData($key, $callback)`. The hit test is PHP truthiness of
    the fetched value (`if ($data = apcu_fetch(...))`), so a stored falsy
    value is a miss: the producer runs and its result overwrites it.
   */
  function Get<V>(store: map<string, V>, key: string, truthy: V -> bool, produce: () -> V): (r: Fetched<V>)
    ensures !r.computed <==> StoreKey(key) in store && truthy(store[StoreKey(key)])
    ensures !r.computed ==> r.value == store[StoreKey(key)] && r.store == store
    ensures r.computed ==> r.value == produce() && r.store == store[StoreKey(key) := produce()]
  {
    var k := StoreKey(key);
    if k in store && truthy(store[k]) then Fetched(store[k], store, false)
    else
      var data := produce();
      Fetched(data, store[k := data], true)
  }

  /** `apcu_clear_cache()`. */
  function Clear<V>(store: map<string, V>): map<string, V> {
    map[]
  }

  /** `apcu_delete(CACHE_PREFIX . $key)`: that entry goes, every other entry stays as it was. */
  function Delete<V>(store: map<string, V>, key: string): (r: map<string, V>)
    ensures StoreKey(key) !in r
    ensures forall k :: k != StoreKey(key) ==> (k in r <==> k in store)
    ensures forall k :: k in r ==> r[k] == store[k]
  {
    map k | k in store && k != StoreKey(key) :: store[k]
  }

  /** A fetch touches no key but its own. */
  lemma GetTouchesOnlyItsKey<V>(store: map<string, V>, key: string, truthy: V -> bool, produce: () -> V, other: string)
    requires other != StoreKey(key)
    ensures var r := Get(store, key, truthy, produce);
      (other in r.store <==> other in store) && (other in store ==> r.store[other] == store[other])
  {
  }

  /** Once a truthy value is stored, the next fetch returns it without running any producer. */
  lemma RepeatedGetHits<V>(store: map<string, V>, key: string, truthy: V -> bool, produce: () -> V, again: () -> V)
    requires truthy(Get(store, key, truthy, produce).value)
    ensures var first := Get(store, key, truthy, produce);
      Get(first.store, key, truthy, again) == Fetched(first.value, first.store, false)
  {
  }

  /** A falsy result is stored but never served: once the producer has yielded one, it runs again on the next fetch. */
  lemma FalsyIsRecomputed<V>(store: map<string, V>, key: string, truthy: V -> bool, produce: () -> V)
    requires !truthy(produce())
    ensures var first := Get(store, key, truthy, produce);
      first.computed ==> Get(first.store, key, truthy, produce).computed
  {
  }

  /** After a full clear every fetch runs its producer. */
  lemma ClearForcesRecompute<V>(store: map<string, V>, key: string, truthy: V -> bool, produce: () -> V)
    ensures Get(Clear(store), key, truthy, produce).computed
  {
  }

  /** After deleting a key the next fetch of that key runs its producer. */
  lemma DeleteForcesRecompute<V>(store: map<string, V>, key: string, truthy: V -> bool, produce: () -> V)
    ensures Get(Delete(store, key), key, truthy, produce).computed
  {
  }
}
