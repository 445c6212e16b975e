/**
 * The local species store (src/hooks/useLocalSpecies.ts): an ordered list of
 * user-authored profiles, loaded once from browser storage and written back
 * in full after every add, update and delete.
 *
 * Browser storage is a map from keys to stored values; the store owns one key.
 * JSON encoding is abstracted: a written list is held as `Serialized(list)`
 * and a later load gives back exactly that list.
 */
module LocalSpecies {
  import opened Wrappers
  import opened Species
  import opened SpeciesList

  const StorageKey := "reptile-handbook-species-v1"

  /** What the storage can hold under the key. */
  datatype Slot =
    | Serialized(items: seq<Profile>)  // the JSON of a list of profiles
    | EmptyText                        // the empty string, which is falsy
    | Malformed                        // text on which JSON.parse throws

  /** The value stored under the store's key, if any. */
  function Lookup(storage: map<string, Slot>): Option<Slot> {
    if StorageKey in storage then Some(storage[StorageKey]) else None
  }

  /**
   * The list the start-up load yields: the stored list when one parses,
   * otherwise the initial empty list (the parse error is caught and logged).
   */
  function Restore(stored: Option<Slot>): (r: seq<Profile>)
    ensures r != [] ==> stored.Some? && stored.value.Serialized?
  {
    match stored
    case Some(Serialized(items)) => items
    case _ => []
  }

  /** An absent key, an empty value or a value that fails to parse all load as the empty list. */
  lemma RestoreUnreadable(stored: Option<Slot>)
    requires stored.None? || stored == Some(EmptyText) || stored == Some(Malformed)
    ensures Restore(stored) == []
  {
  }

  /** A written list loads back unchanged. */
  lemma RestoreWritten(storage: map<string, Slot>, next: seq<Profile>)
    ensures Restore(Lookup(storage[StorageKey := Serialized(next)])) == next
  {
  }

  /** Clearing (key removed) and deleting every record (`[]` written) both reload as empty. */
  lemma ClearedAndEmptiedReloadAlike(storage: map<string, Slot>)
    ensures Lookup(storage - {StorageKey}) == None
    ensures Restore(Lookup(storage - {StorageKey})) == Restore(Lookup(storage[StorageKey := Serialized([])])) == []
  {
  }

  class LocalSpeciesStore {
    /** The in-memory list, in insertion order. */
    var localSpecies: seq<Profile>
    /** The whole of browser storage; only `StorageKey` is ever touched. */
    var storage: map<string, Slot>

    /** A fresh load of the storage would give back the in-memory list. */
    ghost predicate ReloadAgrees()
      reads this
    {
      Restore(Lookup(storage)) == localSpecies
    }

    /** Start with the empty list and load once from storage. */
    constructor (initialStorage: map<string, Slot>)
      ensures storage == initialStorage
      ensures localSpecies == Restore(Lookup(initialStorage))
      ensures ReloadAgrees()
    {
      storage := initialStorage;
      localSpecies := [];
      if StorageKey in initialStorage {
        match initialStorage[StorageKey]
        case Serialized(items) =>
          localSpecies := items;
        case EmptyText =>
        case Malformed =>
      }
    }

    /**
     * `persist`: the new list becomes the in-memory list; it is also written
     * under the key unless the write fails (`written` false), which is
     * caught and logged.
     */
    method Persist(next: seq<Profile>, written: bool)
      modifies this
      ensures localSpecies == next
      ensures storage == if written then old(storage)[StorageKey := Serialized(next)] else old(storage)
      ensures written ==> ReloadAgrees()
    {
      localSpecies := next;
      if written {
        storage := storage[StorageKey := Serialized(next)];
      }
    }

    /** `addSpecies`: upsert by id, then persist. */
    method AddSpecies(sp: Profile, written: bool)
      modifies this
      ensures localSpecies == Upsert(old(localSpecies), sp)
      ensures storage == if written then old(storage)[StorageKey := Serialized(localSpecies)] else old(storage)
      ensures written ==> ReloadAgrees()
      ensures Ids(localSpecies) == Ids(old(localSpecies)) + {sp.id}
      ensures UniqueIds(old(localSpecies)) ==> UniqueIds(localSpecies)
    {
      UpsertIds(localSpecies, sp);
      if UniqueIds(localSpecies) {
        UpsertKeepsUnique(localSpecies, sp);
      }
      Persist(Upsert(localSpecies, sp), written);
    }

    /** `updateSpecies`: patch every record with that id, stamp `now`, then persist. */
    method UpdateSpecies(id: string, d: Patch, now: string, written: bool)
      modifies this
      ensures localSpecies == UpdateMatching(old(localSpecies), id, d, now)
      ensures storage == if written then old(storage)[StorageKey := Serialized(localSpecies)] else old(storage)
      ensures written ==> ReloadAgrees()
      ensures (d.id.None? || d.id == Some(id)) && UniqueIds(old(localSpecies)) ==> UniqueIds(localSpecies)
    {
      if d.id.None? || d.id == Some(id) {
        UpdateKeepsIds(localSpecies, id, d, now);
      }
      Persist(UpdateMatching(localSpecies, id, d, now), written);
    }

    /** `deleteSpecies`: drop every record with that id, then persist. */
    method DeleteSpecies(id: string, written: bool)
      modifies this
      ensures localSpecies == RemoveId(old(localSpecies), id)
      ensures storage == if written then old(storage)[StorageKey := Serialized(localSpecies)] else old(storage)
      ensures written ==> ReloadAgrees()
      ensures !HasId(localSpecies, id)
      ensures UniqueIds(old(localSpecies)) ==> UniqueIds(localSpecies)
    {
      RemoveLeavesNone(localSpecies, id);
      if UniqueIds(localSpecies) {
        RemoveKeepsUnique(localSpecies, id);
      }
      Persist(RemoveId(localSpecies, id), written);
    }

    /**
     * `clearSpecies`: empty the list and remove the key (no `[]` is written);
     * a failed removal (`removed` false) is caught and logged.
     */
    method ClearSpecies(removed: bool)
      modifies this
      ensures localSpecies == []
      ensures storage == if removed then old(storage) - {StorageKey} else old(storage)
      ensures removed ==> Lookup(storage) == None && ReloadAgrees()
    {
      localSpecies := [];
      if removed {
        storage := storage - {StorageKey};
      }
    }
  }

  /** Two adds and a delete, with every write succeeding, seen from a caller. */
  method AddAddDeleteThenReload(a: Profile, b: Profile)
    requires a.id != b.id
  {
    var store := new LocalSpeciesStore(map[]);
    assert store.localSpecies == [];
    store.AddSpecies(a, true);
    store.AddSpecies(b, true);
    store.DeleteSpecies(a.id, true);
    AddAddDeleteScenario(a, b);
    assert store.localSpecies == [b];
    var reloaded := new LocalSpeciesStore(store.storage);
    assert reloaded.localSpecies == [b];
  }
}
