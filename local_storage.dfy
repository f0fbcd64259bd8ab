/** src/hooks/useLocalStorage.ts: a value held in memory and mirrored under
    one key of `window.localStorage`. `JSON.stringify` and `JSON.parse` are a
    codec given as a parameter; the storage is an object shared by every
    cell. */
module Persistence {
  import opened Wrappers

  /** `JSON.stringify` and `JSON.parse` for values of type `T`; `parse`
      gives `None` where `JSON.parse` throws. */
  datatype Codec<!T> = Codec(serialize: T -> string, parse: string -> Option<T>)

  /** What the stores rely on: parsing a serialisation gives the value back,
      and a serialisation is never empty. */
  ghost predicate Faithful<T(!new)>(codec: Codec<T>) {
    forall x :: codec.parse(codec.serialize(x)) == Some(x) && codec.serialize(x) != ""
  }

  /** `window.localStorage`: its entries, and whether reading and writing
      work (either throws when storage is blocked; writing also throws when
      the quota is exhausted). */
  class Storage {
    var items: map<string, string>
    var readable: bool
    var writable: bool

    constructor(items: map<string, string>, readable: bool, writable: bool)
      ensures this.items == items && this.readable == readable && this.writable == writable
    {
      this.items := items;
      this.readable := readable;
      this.writable := writable;
    }
  }

  /** The value after the mount effect (lines 9-21): the parse of the stored
      item when the item can be read, is present, is not empty and parses;
      the current value in every other case. */
  function Loaded<T>(items: map<string, string>, readable: bool, key: string, codec: Codec<T>, current: T): (r: T)
    ensures readable && key in items && items[key] != "" && codec.parse(items[key]).Some? ==>
      r == codec.parse(items[key]).value
    ensures !(readable && key in items && items[key] != "" && codec.parse(items[key]).Some?) ==> r == current
  {
    if readable && key in items && items[key] != "" then
      match codec.parse(items[key])
      case Some(v) => v
      case None => current
    else current
  }

  /** A value saved under `key` is what the next mount loads, whatever the
      cell held before and whatever else the storage holds. */
  lemma SavedIsLoaded<T(!new)>(items: map<string, string>, key: string, codec: Codec<T>, v: T, current: T)
    requires Faithful(codec)
    ensures Loaded(items[key := codec.serialize(v)], true, key, codec, current) == v
  {
  }

  /** `useLocalStorage(key, initialValue)`: the state `storedValue`, the flag
      `isClient`, and the key and storage they mirror to. */
  class LocalStorageCell<T> {
    const key: string
    const store: Storage
    const codec: Codec<T>
    var storedValue: T
    var isClient: bool

    /** The first render (lines 5-6): the initial value, not yet mounted. */
    constructor(key: string, initialValue: T, store: Storage, codec: Codec<T>)
      ensures this.key == key && this.store == store && this.codec == codec
      ensures storedValue == initialValue && !isClient
    {
      this.key := key;
      this.store := store;
      this.codec := codec;
      storedValue := initialValue;
      isClient := false;
    }

    /** The storage after a write of `value` under `key`: the entry is set
        when writing works; no other entry changes. */
    twostate predicate Saved(new value: T)
      reads this, store
    {
      && store.items == (if old(store.writable) then old(store.items)[key := codec.serialize(value)] else old(store.items))
      && store.readable == old(store.readable)
      && store.writable == old(store.writable)
    }

    /** The mount effect (lines 9-21): a failed read or parse is only
        logged. */
    method Mount()
      modifies this
      ensures isClient
      ensures storedValue == Loaded(store.items, store.readable, key, codec, old(storedValue))
    {
      isClient := true;
      if store.readable && key in store.items {
        var item := store.items[key];
        if item != "" {
          var parsed := codec.parse(item);
          if parsed.Some? {
            storedValue := parsed.value;
          }
        }
      }
    }

    /** `setValue(value)` (lines 23-34): the state is set first, so a write
        that throws leaves the new value in memory only. */
    method SetValue(value: T)
      modifies this, store
      ensures storedValue == value && isClient == old(isClient)
      ensures Saved(value)
    {
      storedValue := value;
      if store.writable {
        store.items := store.items[key := codec.serialize(value)];
      }
    }

    /** `setValue(fn)` (line 26): `fn` applied to the current value; `fn`
        gives `None` where it throws, and then nothing changes. */
    method Update(fn: T -> Option<T>)
      modifies this, store
      ensures fn(old(storedValue)).None? ==>
        storedValue == old(storedValue) && isClient == old(isClient) && unchanged(store)
      ensures fn(old(storedValue)).Some? ==>
        storedValue == fn(old(storedValue)).value && isClient == old(isClient) && Saved(storedValue)
    {
      var next := fn(storedValue);
      if next.Some? {
        SetValue(next.value);
      }
    }
  }
}
