/** Core/IDictionaryExtensions.cs: insert-if-absent and lookup-with-default
    on a dictionary. The dictionary is an object whose entries the insert
    changes in place; a reference that may be null is a nullable reference. */
module Dictionaries {
  import opened Wrappers

  /** A `Dictionary<TKey, TValue>` (or any `IDictionary`): its entries. */
  class Dictionary<K(==), V> {
    var items: map<K, V>

    constructor (items: map<K, V>)
      ensures this.items == items
    {
      this.items := items;
    }
  }

  /** `TryGetValue(key, out local) ? local : defaultValue` on the entries. */
  function Lookup<K, V>(m: map<K, V>, key: K, dflt: V): (v: V)
    ensures key in m ==> v == m[key]
    ensures key !in m ==> v == dflt
  {
    if key in m then m[key] else dflt
  }

  /** What `GetOrAdd` returns and what the entries are afterwards; a null
      factory is only an error when it would be called. */
  function GetOrAddEntries<K, V>(m: map<K, V>, key: K, factory: Option<K -> V>): (r: Result<(V, map<K, V>)>)
    ensures key in m ==> r == Success((m[key], m))
    ensures key !in m && factory.None? ==> r == Failure(ArgumentNull("valueFactory"))
    ensures key !in m && factory.Some? ==> r.Success? && r.value.0 == factory.value(key)
    ensures r.Success? ==> key in r.value.1 && r.value.1[key] == r.value.0
    ensures r.Success? ==> r.value.1.Keys == m.Keys + {key}
    ensures r.Success? ==> forall k :: k in m ==> r.value.1[k] == m[k]
  {
    if key in m then Success((m[key], m))
    else
      match factory
      case None => Failure(ArgumentNull("valueFactory"))
      case Some(f) => Success((f(key), m[key := f(key)]))
  }

  /** A second `GetOrAdd` for the same key, with any factory (even a null
      one), returns the same value and changes nothing. */
  lemma GetOrAddIdempotent<K, V>(m: map<K, V>, key: K, factory: Option<K -> V>, again: Option<K -> V>)
    requires GetOrAddEntries(m, key, factory).Success?
    ensures var (v, m') := GetOrAddEntries(m, key, factory).value;
      GetOrAddEntries(m', key, again) == Success((v, m'))
  {
  }

  /** After `GetOrAdd`, looking the key up finds the value it returned,
      whatever the default. */
  lemma GetOrAddThenLookup<K, V>(m: map<K, V>, key: K, factory: Option<K -> V>, dflt: V)
    requires GetOrAddEntries(m, key, factory).Success?
    ensures Lookup(GetOrAddEntries(m, key, factory).value.1, key, dflt) == GetOrAddEntries(m, key, factory).value.0
  {
  }

  /** `GetOrAdd(key, valueFactory)`. */
  method GetOrAdd<K, V>(source: Dictionary?<K, V>, key: K, factory: Option<K -> V>) returns (r: Result<V>)
    modifies source
    ensures source == null ==> r == Failure(ArgumentNull("source"))
    ensures source != null ==>
      var e := GetOrAddEntries(old(source.items), key, factory);
      (e.Success? ==> r == Success(e.value.0) && source.items == e.value.1) &&
      (e.Failure? ==> r == Failure(e.error) && source.items == old(source.items))
  {
    if source == null {
      return Failure(ArgumentNull("source"));
    }
    if key in source.items {
      return Success(source.items[key]);
    }
    if factory.None? {
      return Failure(ArgumentNull("valueFactory"));
    }
    var local := factory.value(key);
    source.items := source.items[key := local];
    return Success(local);
  }

  /** `GetOrAdd(key, value)`: the same with a fixed value, so it never fails
      on a non-null dictionary. */
  method GetOrAddValue<K, V>(source: Dictionary?<K, V>, key: K, value: V) returns (r: Result<V>)
    modifies source
    ensures source == null ==> r == Failure(ArgumentNull("source"))
    ensures source != null ==>
      var e := GetOrAddEntries(old(source.items), key, Some(_ => value));
      r == Success(e.value.0) && source.items == e.value.1
  {
    if source == null {
      return Failure(ArgumentNull("source"));
    }
    var local: V;
    if key in source.items {
      local := source.items[key];
    } else {
      local := value;
      source.items := source.items[key := local];
    }
    return Success(local);
  }

  /** `TryGetValue(key, defaultValue)`, for `Dictionary`, `IDictionary` and
      `IReadOnlyDictionary` alike; the one-argument form passes
      `default(TValue)` as `dflt`. */
  function TryGetValue<K, V>(source: Dictionary?<K, V>, key: K, dflt: V): (r: Result<V>)
    reads source
    ensures source == null ==> r == Failure(ArgumentNull("source"))
    ensures source != null ==> r == Success(Lookup(source.items, key, dflt))
  {
    if source == null then Failure(ArgumentNull("source"))
    else Success(Lookup(source.items, key, dflt))
  }
}
