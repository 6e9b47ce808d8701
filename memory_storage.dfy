/** The in-memory key/value storage the wallet configuration hands to wagmi
    (ui/src/config/wagmi.ts): a string-to-string table with getItem,
    setItem and removeItem. */
module MemoryStorage {
  import opened Wrappers

  /** One mutation of the table, as issued by setItem or removeItem. */
  datatype Write = SetEntry(key: string, value: string) | DeleteEntry(key: string)

  /** What getItem answers for a table: the stored value, or null (`None`)
      when the key has no entry. */
  function Lookup(store: map<string, string>, key: string): Option<string>
  {
    if key in store then Some(store[key]) else None
  }

  /** The table after one write: Map.prototype.set or Map.prototype.delete. */
  function Apply(store: map<string, string>, w: Write): map<string, string>
  {
    match w
    case SetEntry(k, v) => store[k := v]
    case DeleteEntry(k) => store - {k}
  }

  /** The table that a sequence of writes builds from an empty one. */
  function Replay(writes: seq<Write>): map<string, string>
  {
    if writes == [] then map[] else Apply(Replay(writes[..|writes| - 1]), writes[|writes| - 1])
  }

  /** Reference answer for a key, read straight off the writes: the value of
      the latest write to that key if it was a set, null if it was a remove
      or if no write ever touched the key. */
  function LastWrite(writes: seq<Write>, key: string): (r: Option<string>)
    ensures r.Some? ==> exists i :: 0 <= i < |writes| && writes[i] == SetEntry(key, r.value)
  {
    if writes == [] then None
    else
      var w := writes[|writes| - 1];
      if w.key != key then LastWrite(writes[..|writes| - 1], key)
      else if w.SetEntry? then Some(w.value)
      else None
  }

  /** The table answers every key as its latest write says. */
  lemma {:induction false} ReplayAgreesWithLastWrite(writes: seq<Write>, key: string)
    ensures Lookup(Replay(writes), key) == LastWrite(writes, key)
  {
    if writes != [] {
      ReplayAgreesWithLastWrite(writes[..|writes| - 1], key);
    }
  }

  /** A key that no setItem ever named is answered with null. */
  lemma NeverSetIsNull(writes: seq<Write>, key: string)
    requires forall i :: 0 <= i < |writes| && writes[i].SetEntry? ==> writes[i].key != key
    ensures Lookup(Replay(writes), key) == None
  {
    ReplayAgreesWithLastWrite(writes, key);
  }

  /** A stored empty string is answered as "", not as null: `??` replaces
      only a missing entry. */
  lemma EmptyStringIsNotNull(writes: seq<Write>, key: string)
    ensures LastWrite(writes + [SetEntry(key, "")], key) == Some("")
    ensures Lookup(Replay(writes + [SetEntry(key, "")]), key) == Some("")
  {
    ReplayAgreesWithLastWrite(writes + [SetEntry(key, "")], key);
  }

  /** The storage object: `memoryStore`, a Map updated in place, with its
      three accessors. The ghost `history` records every write made so far;
      `Valid` ties the table to it. */
  class Storage {
    var store: map<string, string>
    ghost var history: seq<Write>

    ghost predicate Valid()
      reads this
    {
      store == Replay(history)
    }

    /** `new Map<string, string>()`: nothing stored yet. */
    constructor ()
      ensures Valid()
      ensures store == map[] && history == []
    {
      store := map[];
      history := [];
    }

    /** getItem: `memoryStore.get(key) ?? null`. Reads only. */
    method GetItem(key: string) returns (item: Option<string>)
      requires Valid()
      ensures item == LastWrite(history, key)
      ensures item.Some? <==> key in store
      ensures item.Some? ==> item.value == store[key]
    {
      ReplayAgreesWithLastWrite(history, key);
      item := if key in store then Some(store[key]) else None;
    }

    /** setItem: `memoryStore.set(key, value)`, replacing any earlier value. */
    method SetItem(key: string, value: string)
      requires Valid()
      modifies this
      ensures Valid()
      ensures history == old(history) + [SetEntry(key, value)]
      ensures store == old(store)[key := value]
      ensures Lookup(store, key) == Some(value)
      ensures forall k :: k != key ==> Lookup(store, k) == Lookup(old(store), k)
    {
      store := store[key := value];
      history := history + [SetEntry(key, value)];
      assert history[..|history| - 1] == old(history);
    }

    /** removeItem: `memoryStore.delete(key)`; removing an absent key changes
        nothing. */
    method RemoveItem(key: string)
      requires Valid()
      modifies this
      ensures Valid()
      ensures history == old(history) + [DeleteEntry(key)]
      ensures store == old(store) - {key}
      ensures Lookup(store, key) == None
      ensures forall k :: k != key ==> Lookup(store, k) == Lookup(old(store), k)
      ensures key !in old(store) ==> store == old(store)
    {
      store := store - {key};
      history := history + [DeleteEntry(key)];
      assert history[..|history| - 1] == old(history);
    }
  }
}
