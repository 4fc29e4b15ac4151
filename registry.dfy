/** `registry.py`: a two-level dictionary from a category and a key, both
    case-insensitive, to a registered object. The outer level is a
    `defaultdict(dict)`, so reading an unknown category through `get` or
    `list_keys` leaves an empty category behind. */
module Registries {
  import opened Outcomes
  import opened Text

  /** The closure `register` returns when no object is given: it records
      the (lower-cased) category and key it will register under. */
  datatype Decorator = Decorator(categoryLow: string, keyLow: string)

  /** What `register` returns: the object itself, or the decorator. */
  datatype Registration<T> = Registered(target: T) | Deferred(decorator: Decorator)

  /** The entries of a category; an absent category has none. */
  function Category<T>(data: map<string, map<string, T>>, categoryLow: string): map<string, T>
  {
    if categoryLow in data then data[categoryLow] else map[]
  }

  /** The data after storing target under (categoryLow, keyLow). */
  function WithEntry<T>(data: map<string, map<string, T>>, categoryLow: string, keyLow: string, target: T)
    : (r: map<string, map<string, T>>)
    ensures r.Keys == data.Keys + {categoryLow}
    ensures r[categoryLow] == Category(data, categoryLow)[keyLow := target]
    ensures forall c :: c in data && c != categoryLow ==> r[c] == data[c]
  {
    data[categoryLow := Category(data, categoryLow)[keyLow := target]]
  }

  /** The case-insensitive lookup; None where `get` raises KeyError. */
  function Lookup<T>(data: map<string, map<string, T>>, category: string, key: string): Option<T>
  {
    var entries := Category(data, Lower(category));
    if Lower(key) in entries then Some(entries[Lower(key)]) else None
  }

  /** The data after a read through the defaultdict: the category exists. */
  function Touched<T>(data: map<string, map<string, T>>, categoryLow: string): (r: map<string, map<string, T>>)
    ensures r.Keys == data.Keys + {categoryLow}
    ensures forall c :: c in data ==> r[c] == data[c]
    ensures categoryLow !in data ==> r[categoryLow] == map[]
  {
    if categoryLow in data then data else data[categoryLow := map[]]
  }

  class Registry<T> {
    var data: map<string, map<string, T>>

    /** `Registry()`: no categories. */
    constructor ()
      ensures data == map[]
    {
      data := map[];
    }

    /** `register(category, key, object)`: with an object, it is stored under
        the lower-cased category and key, replacing what was there, and
        handed back; without one, nothing is stored yet and the decorator
        is handed back. */
    method Register(category: string, key: string, obj: Option<T>) returns (r: Registration<T>)
      modifies this
      ensures obj.Some? ==> r == Registered(obj.value) && data == WithEntry(old(data), Lower(category), Lower(key), obj.value)
      ensures obj.None? ==> r == Deferred(Decorator(Lower(category), Lower(key))) && data == old(data)
    {
      var categoryLow := Lower(category);
      var keyLow := Lower(key);
      if obj.Some? {
        var target := Decorate(Decorator(categoryLow, keyLow), obj.value);
        return Registered(target);
      }
      return Deferred(Decorator(categoryLow, keyLow));
    }

    /** Calling the decorator on a target: store it and hand it back. */
    method Decorate(d: Decorator, target: T) returns (r: T)
      modifies this
      ensures r == target
      ensures data == WithEntry(old(data), d.categoryLow, d.keyLow, target)
    {
      var entries := if d.categoryLow in data then data[d.categoryLow] else map[];
      data := data[d.categoryLow := entries[d.keyLow := target]];
      return target;
    }

    /** `get(category, key)`: the object registered under the lower-cased
        names, or KeyError; an unknown category is created empty. */
    method Get(category: string, key: string) returns (r: Result<T>)
      modifies this
      ensures data == Touched(old(data), Lower(category))
      ensures Lookup(old(data), category, key).Some? ==> r == Ok(Lookup(old(data), category, key).value)
      ensures Lookup(old(data), category, key).None? ==> r.Err?
    {
      var categoryLow := Lower(category);
      if categoryLow !in data {
        data := data[categoryLow := map[]];
      }
      var keyLow := Lower(key);
      if keyLow !in data[categoryLow] {
        return Err("KeyError: " + keyLow);
      }
      return Ok(data[categoryLow][keyLow]);
    }

    /** `list_keys(category)`: the category's keys in sorted order; an
        unknown category is created empty. */
    method ListKeys(category: string) returns (r: seq<string>)
      modifies this
      ensures data == Touched(old(data), Lower(category))
      ensures r == SortedList(Category(old(data), Lower(category)).Keys)
    {
      var categoryLow := Lower(category);
      if categoryLow !in data {
        data := data[categoryLow := map[]];
      }
      return SortedList(data[categoryLow].Keys);
    }

    /** `keys(category)`: the same list, but an unknown category gives []
        and is not created. */
    method Keys(category: string) returns (r: seq<string>)
      ensures Lower(category) !in data ==> r == []
      ensures |r| == |Category(data, Lower(category)).Keys|
      ensures forall k :: k in r <==> k in Category(data, Lower(category))
      ensures forall i, j :: 0 <= i < j < |r| ==> StrLess(r[i], r[j])
    {
      var cat := Lower(category);
      if cat !in data {
        return [];
      }
      return SortedList(data[cat].Keys);
    }
  }

  /** After registering, looking the object up under any spelling of the
      same names finds it. */
  lemma RegisterThenLookup<T>(data: map<string, map<string, T>>, category: string, key: string, target: T,
                              category': string, key': string)
    requires Lower(category') == Lower(category) && Lower(key') == Lower(key)
    ensures Lookup(WithEntry(data, Lower(category), Lower(key), target), category', key') == Some(target)
  {
  }

  /** Registering touches no other (category, key) pair. */
  lemma RegisterKeepsOthers<T>(data: map<string, map<string, T>>, category: string, key: string, target: T,
                               category': string, key': string)
    requires Lower(category') != Lower(category) || Lower(key') != Lower(key)
    ensures Lookup(WithEntry(data, Lower(category), Lower(key), target), category', key') == Lookup(data, category', key')
  {
  }

  /** The lookup ignores case: the lower-cased names find the same object. */
  lemma LookupIgnoresCase<T>(data: map<string, map<string, T>>, category: string, key: string)
    ensures Lookup(data, category, key) == Lookup(data, Lower(category), Lower(key))
  {
    LowerIdempotent(category);
    LowerIdempotent(key);
  }

  /** A read through the defaultdict changes no lookup. */
  lemma TouchKeepsLookups<T>(data: map<string, map<string, T>>, categoryLow: string, category: string, key: string)
    ensures Lookup(Touched(data, categoryLow), category, key) == Lookup(data, category, key)
  {
  }
}
