/**
 * The in-process record table: a string-keyed dictionary of items named
 * `keyBase::table::id`, loaded lazily from the browser's durable key/value
 * storage, written through to that storage, and reporting every set and delete
 * as a change event carrying the value the key held before.
 */
module LocalStorage {
  import opened Js
  import opened Json

  /** The namespace every key of this store starts with. */
  const KeyBase: string := "convo-make-app::"

  /** The prefix shared by all keys of one table (`getTableKey`). */
  function TableKey(table: string): (k: string)
    ensures StartsWith(k, KeyBase)
    ensures |k| == |KeyBase| + |table| + 4
    ensures k[|KeyBase|..] == "::" + table + "::"
  {
    KeyBase + "::" + table + "::"
  }

  /** The key of one item (`getItemKey`): its table's prefix followed by the id. */
  function ItemKey(table: string, id: string): (k: string)
    ensures StartsWith(k, TableKey(table)) && StartsWith(k, KeyBase)
    ensures k[|TableKey(table)|..] == id
  {
    KeyBase + "::" + table + "::" + id
  }

  /** What a key holds after its table's prefix: the id the select filter is given. */
  function IdInTable(table: string, key: string): string
    requires StartsWith(key, TableKey(table))
  {
    key[|TableKey(table)|..]
  }

  lemma IdInTableOfItemKey(table: string, id: string)
    ensures IdInTable(table, ItemKey(table, id)) == id
  {
  }

  /** The first colon at or after position `i` (or the end of `s`). */
  function ColonFrom(s: string, i: nat): (j: nat)
    requires i <= |s|
    ensures i <= j <= |s|
    ensures j < |s| ==> s[j] == ':'
    decreases |s| - i
  {
    if i == |s| || s[i] == ':' then i else ColonFrom(s, i + 1)
  }

  lemma {:induction false} ColonAfterName(s: string, i: nat, name: string)
    requires i + |name| < |s| && s[i..i + |name|] == name && ':' !in name && s[i + |name|] == ':'
    ensures ColonFrom(s, i) == i + |name|
    decreases |name|
  {
    if name != [] {
      assert s[i] == name[0];
      assert s[i + 1..i + |name|] == name[1..];
      ColonAfterName(s, i + 1, name[1..]);
    }
  }

  /**
   * For table names without a colon the key determines table and id. (With colons it
   * does not: `ItemKeyCollision` exhibits two items sharing one key.)
   */
  lemma {:induction false} ItemKeyInjective(t1: string, i1: string, t2: string, i2: string)
    requires ':' !in t1 && ':' !in t2
    requires ItemKey(t1, i1) == ItemKey(t2, i2)
    ensures t1 == t2 && i1 == i2
  {
    var k := ItemKey(t1, i1);
    var p := |KeyBase| + 2;
    assert k == (KeyBase + "::") + t1 + ("::" + i1);
    assert k == (KeyBase + "::") + t2 + ("::" + i2);
    assert k[p..p + |t1|] == t1 && k[p + |t1|] == ':';
    assert k[p..p + |t2|] == t2 && k[p + |t2|] == ':';
    ColonAfterName(k, p, t1);
    ColonAfterName(k, p, t2);
  }

  /** The table `a` with id `b::c` and the table `a::b` with id `c` share one key. */
  lemma ItemKeyCollision()
    ensures ItemKey("a", "b::c") == ItemKey("a::b", "c")
  {
  }

  datatype ItemChangeEventType = Set | Delete

  datatype ItemChangeEvent = ItemChangeEvent(
    kind: ItemChangeEventType,
    table: string,
    id: string,
    value: Option<Item>,
    prevValue: Option<Item>)

  /** One entry of the durable storage: JSON text that parses to an item, or text that does not. */
  datatype StoredText = Parsed(item: Item) | Malformed

  /** What a select filter does when called: returns some value, or throws. */
  datatype FilterOutcome = Returned(result: Value) | Threw

  function Lookup(m: map<string, Item>, k: string): (r: Option<Item>)
    ensures r.Some? <==> k in m
    ensures r.Some? ==> r.value == m[k]
  {
    if k in m then Some(m[k]) else None
  }

  /** An item is kept unless the filter returns exactly `false` or throws. */
  predicate Keeps(outcome: FilterOutcome)
  {
    outcome.Returned? && outcome.result != Bool(false)
  }

  /** Whether `selectAsync(table, filter)` returns the item stored under `key`. */
  predicate Chosen(table: string, filter: Option<(Item, string) -> FilterOutcome>, key: string, item: Item)
  {
    StartsWith(key, TableKey(table)) &&
    (filter.None? || Keeps(filter.value(item, IdInTable(table, key))))
  }

  /** The items `load` copies from durable storage: the parsable entries under the namespace. */
  function LoadedEntries(storage: map<string, StoredText>): (m: map<string, Item>)
    ensures forall k :: k in m <==> k in storage && StartsWith(k, KeyBase) && storage[k].Parsed?
    ensures forall k :: k in m ==> m[k] == storage[k].item
  {
    map k | k in storage && StartsWith(k, KeyBase) && storage[k].Parsed? :: storage[k].item
  }

  /** The in-memory map and the durable storage hold the same items under the namespace. */
  ghost predicate Mirrors(data: map<string, Item>, storage: map<string, StoredText>)
  {
    (forall k :: k in data ==>
       k in storage && StartsWith(k, KeyBase) && storage[k].Parsed? && Normal(storage[k].item) == Normal(data[k])) &&
    (forall k :: k in storage && StartsWith(k, KeyBase) && storage[k].Parsed? ==> k in data)
  }

  ghost predicate Distinct(keys: seq<string>)
  {
    forall i, j :: 0 <= i < j < |keys| ==> keys[i] != keys[j]
  }

  class LocalStore {
    /** Whether `globalThis.localStorage` exists. */
    const hasStorage: bool
    var data: map<string, Item>
    /** The durable key/value storage, shared with anything else on the page. */
    var storage: map<string, StoredText>
    var loaded: bool
    /** Everything `onSetItem` has emitted, oldest first. */
    var events: seq<ItemChangeEvent>

    ghost predicate Valid()
      reads this
    {
      (!hasStorage ==> storage == map[] && !loaded) &&
      (hasStorage && !loaded ==> data == map[]) &&
      (loaded ==> Mirrors(data, storage))
    }

    /** What the next read sees: the storage's entries until they are loaded, then the map. */
    ghost function Contents(): map<string, Item>
      reads this
    {
      if hasStorage && !loaded then LoadedEntries(storage) else data
    }

    /** `storage` is `None` when the page has no durable storage. */
    constructor (storage: Option<map<string, StoredText>>)
      ensures Valid()
      ensures hasStorage == storage.Some? && !loaded && data == map[] && events == []
      ensures this.storage == if storage.Some? then storage.value else map[]
    {
      hasStorage := storage.Some?;
      this.storage := if storage.Some? then storage.value else map[];
      data := map[];
      loaded := false;
      events := [];
    }

    /** `load`: copies every parsable entry under the namespace into the empty map. */
    method Load()
      requires Valid() && hasStorage && !loaded
      modifies this`data, this`loaded
      ensures Valid() && loaded
      ensures data == LoadedEntries(storage)
    {
      var pending := storage.Keys;
      while pending != {}
        invariant pending <= storage.Keys
        invariant forall k :: k in data <==>
          k in storage && k !in pending && StartsWith(k, KeyBase) && storage[k].Parsed?
        invariant forall k :: k in data ==> data[k] == storage[k].item
        decreases pending
      {
        var key :| key in pending;
        if StartsWith(key, KeyBase) {
          match storage[key]
          case Parsed(v) => data := data[key := v];
          case Malformed =>
        }
        pending := pending - {key};
      }
      loaded := true;
    }

    /** `if(!this.loaded) this.load()`: loading does not change what the store holds. */
    method EnsureLoaded()
      requires Valid()
      modifies this`data, this`loaded
      ensures Valid() && Contents() == old(Contents())
      ensures hasStorage ==> loaded
      ensures !hasStorage ==> data == old(data) && loaded == old(loaded)
    {
      if !loaded && hasStorage {
        Load();
      }
    }

    /** `getItemAsync`: the item under the key, or `undefined`. */
    method GetItemAsync(table: string, id: string) returns (r: Option<Item>)
      requires Valid()
      modifies this`data, this`loaded
      ensures Valid() && Contents() == old(Contents()) && events == old(events)
      ensures r == Lookup(Contents(), ItemKey(table, id))
    {
      EnsureLoaded();
      var key := ItemKey(table, id);
      r := Lookup(data, key);
    }

    /**
     * `setItemAsync`: an object is stored, written through and announced with the
     * previous value; any other value deletes the item instead and resolves to `undefined`.
     */
    method SetItemAsync(table: string, id: string, value: Item) returns (r: Option<Item>)
      requires Valid()
      modifies this
      ensures Valid()
      ensures var key := ItemKey(table, id);
        if value.Object? then
          r == Some(value) &&
          Contents() == old(Contents())[key := value] &&
          storage == (if hasStorage then old(storage)[key := Parsed(Normal(value))] else old(storage)) &&
          events == old(events) + [ItemChangeEvent(Set, table, id, Some(value), Lookup(old(Contents()), key))]
        else
          r == None &&
          Contents() == old(Contents()) - {key} &&
          storage == (if hasStorage then old(storage) - {key} else old(storage)) &&
          events == old(events) + [ItemChangeEvent(Delete, table, id, None, Lookup(old(Contents()), key))]
    {
      EnsureLoaded();
      if !value.Object? {
        var _ := DeleteItemAsync(table, id);
        return None;
      }
      var key := ItemKey(table, id);
      var prevValue := Lookup(data, key);
      data := data[key := value];
      if hasStorage {
        storage := storage[key := Parsed(Normal(value))];
      }
      events := events + [ItemChangeEvent(Set, table, id, Some(value), prevValue)];
      r := Some(value);
    }

    /** `deleteItemAsync`: removes the item, always announces a delete, resolves to the old value. */
    method DeleteItemAsync(table: string, id: string) returns (prevValue: Option<Item>)
      requires Valid()
      modifies this
      ensures Valid()
      ensures var key := ItemKey(table, id);
        prevValue == Lookup(old(Contents()), key) &&
        Contents() == old(Contents()) - {key} &&
        storage == (if hasStorage then old(storage) - {key} else old(storage)) &&
        events == old(events) + [ItemChangeEvent(Delete, table, id, None, prevValue)]
    {
      EnsureLoaded();
      var key := ItemKey(table, id);
      prevValue := Lookup(data, key);
      data := data - {key};
      if hasStorage {
        storage := storage - {key};
      }
      events := events + [ItemChangeEvent(Delete, table, id, None, prevValue)];
    }

    /**
     * `selectAsync`: every stored item whose key lies under the table's prefix and that
     * the filter keeps. `keys` lists the key each returned item was stored under.
     */
    method SelectAsync(table: string, filter: Option<(Item, string) -> FilterOutcome>)
      returns (items: seq<Item>, ghost keys: seq<string>)
      requires Valid()
      modifies this`data, this`loaded
      ensures Valid() && Contents() == old(Contents()) && events == old(events)
      ensures |items| == |keys| && Distinct(keys)
      ensures forall k :: k in keys <==> k in Contents() && Chosen(table, filter, k, Contents()[k])
      ensures forall i :: 0 <= i < |keys| ==> keys[i] in Contents() && items[i] == Contents()[keys[i]]
    {
      EnsureLoaded();
      items, keys := [], [];
      var pending := data.Keys;
      while pending != {}
        invariant pending <= data.Keys
        invariant |items| == |keys| && Distinct(keys)
        invariant forall k :: k in keys <==> k in data && k !in pending && Chosen(table, filter, k, data[k])
        invariant forall i :: 0 <= i < |keys| ==> keys[i] in data && items[i] == data[keys[i]]
        decreases pending
      {
        var key :| key in pending;
        if Chosen(table, filter, key, data[key]) {
          items, keys := items + [data[key]], keys + [key];
        }
        pending := pending - {key};
      }
    }

    /** `clearAsync`: empties the map and removes the namespace from durable storage; emits nothing. */
    method ClearAsync()
      requires Valid()
      modifies this`data, this`storage
      ensures Valid() && Contents() == map[] && data == map[] && events == old(events)
      ensures storage == WithoutNamespace(old(storage))
    {
      while data != map[]
        invariant storage == old(storage)
        decreases |data|
      {
        var e :| e in data;
        data := data - {e};
      }
      if !hasStorage {
        return;
      }
      var keys := NamespaceKeys(storage);
      RemoveFromStorage(keys);
      assert storage == WithoutNamespace(old(storage));
      EmptyMirrorsWithoutNamespace(old(storage));
    }

    /** `localStorage.removeItem` for each key in turn. */
    method RemoveFromStorage(keys: seq<string>)
      modifies this`storage
      ensures forall k :: k in storage <==> k in old(storage) && k !in keys
      ensures forall k :: k in storage ==> storage[k] == old(storage)[k]
    {
      for i := 0 to |keys|
        invariant forall k :: k in storage <==> k in old(storage) && k !in keys[..i]
        invariant forall k :: k in storage ==> storage[k] == old(storage)[k]
      {
        storage := storage - {keys[i]};
      }
      assert keys[..|keys|] == keys;
    }
  }

  lemma EmptyMirrorsWithoutNamespace(storage: map<string, StoredText>)
    ensures Mirrors(map[], WithoutNamespace(storage))
  {
  }

  /** The storage entries `clearAsync` leaves behind: those outside the namespace. */
  function WithoutNamespace(storage: map<string, StoredText>): (m: map<string, StoredText>)
    ensures forall k :: k in m <==> k in storage && !StartsWith(k, KeyBase)
    ensures forall k :: k in m ==> m[k] == storage[k]
  {
    map k | k in storage && !StartsWith(k, KeyBase) :: storage[k]
  }

  /** The storage keys under the namespace, collected one key at a time. */
  method NamespaceKeys(storage: map<string, StoredText>) returns (keys: seq<string>)
    ensures forall k :: k in keys <==> k in storage && StartsWith(k, KeyBase)
  {
    keys := [];
    var pending := storage.Keys;
    while pending != {}
      invariant pending <= storage.Keys
      invariant forall k :: k in keys <==> k in storage && k !in pending && StartsWith(k, KeyBase)
      decreases pending
    {
      var key :| key in pending;
      if StartsWith(key, KeyBase) {
        keys := keys + [key];
      }
      pending := pending - {key};
    }
  }

  /** After storing an object, reading the same table and id gives it back. */
  method SetThenGet(store: LocalStore, table: string, id: string, value: Record) returns (r: Option<Item>)
    requires store.Valid()
    modifies store
    ensures store.Valid() && r == Some(Object(value))
  {
    var _ := store.SetItemAsync(table, id, Object(value));
    r := store.GetItemAsync(table, id);
  }
}
