/** The stores that mirror one part of etcd: one that only reads it, one that alone writes it. */
module Stores {
  import opened Basics
  import opened EventLog
  import opened Listening

  /** What both stores keep: the items, and everything their handlers have been told. */
  class StoreBase<V(==, !new)> {
    const eq: (V, V) -> bool
    var data: map<string, V>
    var told: seq<Note<string, V>>
    ghost var seed: map<string, V>   // what GetAll gave a listener when the store had been initialised

    /** A listener that started from GetAll and heard every handler call mirrors the store. */
    ghost predicate Valid()
      reads this
    {
      Equivalence(eq) && Follows(seed, told, data, eq)
    }

    constructor (eq: (V, V) -> bool)
      requires Equivalence(eq)
      ensures Valid() && data == map[] && told == [] && seed == map[] && this.eq == eq
    {
      this.eq := eq;
      data, told, seed := map[], [], map[];
    }

    method GetAll() returns (items: map<string, V>)
      ensures items == data
    {
      items := data;
    }

    /** Replaces the items; the caller still has to tell the handlers. */
    method SyncToInternalState(truth: map<string, V>)
      returns (changes: seq<Note<string, V>>, added: seq<Note<string, V>>, removed: seq<Note<string, V>>)
      modifies this`data
      ensures data == truth
      ensures IsDiff(old(data), truth, eq, added + changes + removed)
    {
      changes, added, removed := Compare(data, truth, eq);
      data := truth;
    }

    /** A store starts without telling the handlers; a listener starts from GetAll. */
    method Begin(items: map<string, V>)
      requires Equivalence(eq)
      modifies this
      ensures Valid() && data == items && told == [] && seed == items
    {
      data, told, seed := items, [], items;
    }

    method Tell(ghost before: map<string, V>, notes: seq<Note<string, V>>)
      requires Equivalence(eq) && Follows(seed, told, before, eq) && IsDiff(before, data, eq, notes)
      modifies this`told
      ensures Valid() && told == old(told) + notes
    {
      FollowsOn(seed, told, before, data, eq, notes);
      told := told + notes;
    }

    method InvokeAddOrChangedHandler(ghost before: map<string, V>, id: string, previous: Option<V>, current: V)
      requires Equivalence(eq) && Follows(seed, told, before, eq)
      requires previous == Get(before, id) && data == before[id := current]
      modifies this`told
      ensures Valid()
      ensures told == old(told) + NotesOf(Due(id, before, data, eq))
    {
      OneKeyDiff(before, data, id, eq);
      if previous.Some? {
        if !eq(previous.value, current) {
          Tell(before, [Changed(id, previous.value, current)]);
        } else {
          Tell(before, []);
        }
      } else {
        Tell(before, [Added(id, current)]);
      }
    }

    method InvokeRemovedHandler(ghost before: map<string, V>, id: string, previous: Option<V>)
      requires Equivalence(eq) && Follows(seed, told, before, eq)
      requires previous == Get(before, id) && data == before - {id}
      modifies this`told
      ensures Valid()
      ensures told == old(told) + NotesOf(Due(id, before, data, eq))
    {
      OneKeyDiff(before, data, id, eq);
      Tell(before, if previous.Some? then [Removed(id, previous.value)] else []);
    }
  }

  // ---------- the store that follows etcd ----------

  ghost predicate OnTrack<V>(kv: Kv<string, V>, cursor: nat, data: map<string, V>) {
    cursor <= |kv.log| && forall id :: CatchesUp(kv, cursor, id, Get(data, id))
  }

  class ReadOnlyStore<V(==, !new)> {
    const client: KvServer<string, V>
    const base: StoreBase<V>
    var cursor: nat   // how much of the watch has been handled

    /** Handling the rest of the watch would make the items equal to etcd's. */
    ghost predicate Valid()
      reads this, base, client
    {
      base.Valid() && OnTrack(client.View(), cursor, base.data)
    }

    /** Reads etcd and starts the watch, taken as one step. */
    constructor (client: KvServer<string, V>, eq: (V, V) -> bool)
      requires Equivalence(eq)
      modifies client
      ensures Valid() && fresh(base) && this.client == client && base.eq == eq
      ensures base.data == client.data && cursor == |client.log| && base.seed == base.data
    {
      this.client, cursor := client, 0;
      base := new StoreBase(eq);
      new;
      var etcdData := client.Load();
      base.Begin(etcdData);
      cursor := |client.log|;
    }

    method Sync()
      requires Valid()
      modifies client, base
      ensures Valid() && base.data == client.data && base.seed == old(base.seed)
      ensures client.View() == Next(old(client.View()), old(client.others))
      ensures exists notes :: IsDiff(old(base.data), base.data, base.eq, notes) && base.told == old(base.told) + notes
    {
      ghost var before := base.data;
      var etcdData := client.Load();
      TrackThrough(old(client.View()), FirstOr(old(client.others), []), cursor, before);
      TrackLoad(client.View(), cursor, before);
      var changes, added, removed := base.SyncToInternalState(etcdData);
      base.Tell(before, added + changes + removed);
    }

    method HandlePut(id: string, item: V)
      requires base.Valid()
      modifies base`data, base`told
      ensures base.Valid() && base.data == old(base.data)[id := item]
    {
      ghost var before := base.data;
      var previous := Get(base.data, id);
      base.data := base.data[id := item];
      base.InvokeAddOrChangedHandler(before, id, previous, item);
    }

    method HandleDelete(id: string)
      requires base.Valid()
      modifies base`data, base`told
      ensures base.Valid() && base.data == old(base.data) - {id}
    {
      ghost var before := base.data;
      var previous := Get(base.data, id);
      base.data := base.data - {id};
      base.InvokeRemovedHandler(before, id, previous);
    }

    /** The watch: handles the next `count` events. */
    method HandleEvents(count: nat)
      requires Valid() && cursor + count <= |client.log|
      modifies this`cursor, base`data, base`told
      ensures Valid() && cursor == old(cursor) + count
      ensures cursor == |client.log| ==> base.data == client.data
    {
      for i := 0 to count
        invariant Valid() && cursor == old(cursor) + i
      {
        TrackDeliver(client.View(), cursor, base.data, Held(base.data, client.log[cursor]));
        match client.log[cursor] {
          case Put(id, item) => HandlePut(id, item);
          case Delete(id) => HandleDelete(id);
        }
        cursor := cursor + 1;
      }
      if cursor == |client.log| {
        TrackDrained(client.View(), base.data);
      }
    }
  }

  // ---------- the store that alone writes its part of etcd ----------

  ghost function EveryId(): iset<string> {
    iset id: string | 0 <= |id|
  }

  class WriteOnlyStore<V(==, !new)> {
    const client: KvServer<string, V>
    const base: StoreBase<V>

    /** Nobody else writes this part of etcd. */
    ghost predicate Alone()
      reads client
    {
      Leaves(client.others, EveryId())
    }

    ghost predicate Valid()
      reads this, base, client
    {
      base.Valid() && Alone()
    }

    constructor (client: KvServer<string, V>, eq: (V, V) -> bool)
      requires Equivalence(eq) && Leaves(client.others, EveryId())
      ensures Valid() && fresh(base) && this.client == client && base.eq == eq && base.data == map[]
    {
      this.client := client;
      base := new StoreBase(eq);
    }

    /** Writes to etcd, and so tells other nodes, only if etcd does not hold the item already. */
    method StoreItem(id: string, item: V) returns (wasWritten: bool)
      requires Alone()
      modifies client
      ensures Alone()
      ensures client.data == old(client.data)[id := item]
      ensures wasWritten <==> Get(old(client.data), id) != Some(item)
    {
      SingleWriterStores(client.View(), client.others, id, item, EveryId());
      ghost var before := client.data;
      wasWritten := client.PutIfNewOrChanged(id, item);
      SameContent(client.data, before[id := item]);
    }

    method RemoveItem(id: string)
      requires Alone()
      modifies client
      ensures Alone()
      ensures client.data == old(client.data) - {id}
    {
      NextLeaves(client.View(), client.others, EveryId());
      ghost var before := client.data;
      var succeeded := client.Transact(Remove(id));
      SameContent(client.data, before - {id});
    }

    method AddOrUpdateItem(itemID: string, item: V)
      requires Valid()
      modifies client, base`data, base`told
      ensures Valid()
      ensures base.data == old(base.data)[itemID := item]
      ensures client.data == old(client.data)[itemID := item]
      ensures base.told == old(base.told) + NotesOf(Due(itemID, old(base.data), base.data, base.eq))
    {
      ghost var before := base.data;
      var previous := Get(base.data, itemID);
      base.data := base.data[itemID := item];
      var wasWritten := StoreItem(itemID, item);
      base.InvokeAddOrChangedHandler(before, itemID, previous, item);
    }

    method DeleteItem(itemID: string)
      requires Valid()
      modifies client, base`data, base`told
      ensures Valid()
      ensures base.data == old(base.data) - {itemID}
      ensures client.data == old(client.data) - {itemID}
      ensures base.told == old(base.told) + NotesOf(Due(itemID, old(base.data), base.data, base.eq))
    {
      ghost var before := base.data;
      var previous := Get(base.data, itemID);
      base.data := base.data - {itemID};
      RemoveItem(itemID);
      base.InvokeRemovedHandler(before, itemID, previous);
    }

    /** Stores every item and removes everything else: etcd then holds exactly the items. */
    method StoreAll(items: map<string, V>)
      requires Alone()
      modifies client
      ensures Alone()
      ensures client.data == items
    {
      var etcdData := LoadData();
      var toBeDeletedFromEtcd := etcdData.Keys - items.Keys;
      var rest := items.Keys;
      while rest != {}
        invariant Alone() && rest <= items.Keys
        invariant client.data.Keys <= items.Keys + toBeDeletedFromEtcd
        invariant forall id :: id in items.Keys - rest ==> id in client.data && client.data[id] == items[id]
      {
        var id :| id in rest;
        rest := rest - {id};
        var wasWritten := StoreItem(id, items[id]);
      }
      rest := toBeDeletedFromEtcd;
      while rest != {}
        invariant Alone() && rest <= toBeDeletedFromEtcd
        invariant client.data.Keys <= items.Keys + rest
        invariant forall id :: id in items ==> id in client.data && client.data[id] == items[id]
      {
        var id :| id in rest;
        rest := rest - {id};
        RemoveItem(id);
      }
    }

    method LoadData() returns (etcdData: map<string, V>)
      requires Alone()
      modifies client
      ensures Alone()
      ensures etcdData == client.data == old(client.data)
    {
      NextLeaves(client.View(), client.others, EveryId());
      ghost var before := client.data;
      etcdData := client.Load();
      SameContent(etcdData, before);
    }

    method Init(items: map<string, V>)
      requires Valid()
      modifies client, base
      ensures Valid() && base.data == items && client.data == items && base.seed == items
    {
      base.Begin(items);
      StoreAll(items);
    }

    method Sync(items: map<string, V>)
      requires Valid()
      modifies client, base`data, base`told
      ensures Valid() && base.data == items && client.data == items
      ensures exists notes :: IsDiff(old(base.data), items, base.eq, notes) && base.told == old(base.told) + notes
    {
      ghost var before := base.data;
      var changes, added, removed := base.SyncToInternalState(items);
      StoreAll(items);
      base.Tell(before, added + changes + removed);
    }

    method InitFromEtcd()
      requires Valid()
      modifies client, base
      ensures Valid() && base.data == client.data == old(client.data) && base.seed == base.data
    {
      var etcdData := LoadData();
      base.Begin(etcdData);
    }
  }

  /** The items once an event has been handled. */
  function Held<K(==), V>(data: map<K, V>, ev: Event<K, V>): map<K, V> {
    match ev
    case Put(k, v) => data[k := v]
    case Delete(k) => data - {k}
  }

  lemma TrackThrough<V>(kv: Kv<string, V>, ts: seq<Txn<string, V>>, cursor: nat, data: map<string, V>)
    requires OnTrack(kv, cursor, data)
    ensures OnTrack(CommitAll(kv, ts), cursor, data)
  {
    forall id
      ensures CatchesUp(CommitAll(kv, ts), cursor, id, Get(data, id))
    {
      CommitsCatchUp(kv, ts, cursor, id, Get(data, id));
    }
    CommitsCatchUp(kv, ts, cursor, "", Get(data, ""));
  }

  lemma TrackLoad<V>(kv: Kv<string, V>, cursor: nat, data: map<string, V>)
    requires OnTrack(kv, cursor, data)
    ensures OnTrack(kv, cursor, kv.data)
  {
    forall id
      ensures CatchesUp(kv, cursor, id, Get(kv.data, id))
    {
      LoadCatchesUp(kv, cursor, id, Get(data, id));
    }
  }

  lemma TrackDeliver<V>(kv: Kv<string, V>, cursor: nat, data: map<string, V>, data': map<string, V>)
    requires OnTrack(kv, cursor, data) && cursor < |kv.log| && data' == Held(data, kv.log[cursor])
    ensures OnTrack(kv, cursor + 1, data')
  {
    forall id
      ensures CatchesUp(kv, cursor + 1, id, Get(data', id))
    {
      DeliverCatchesUp(kv, cursor, id, Get(data, id));
      HeldAfter(data, kv.log[cursor], id);
    }
  }

  lemma HeldAfter<K, V>(data: map<K, V>, ev: Event<K, V>, key: K)
    ensures Get(Held(data, ev), key) == After([ev], key, Get(data, key))
  {
    assert [ev][..0] == [];
  }

  lemma TrackDrained<V>(kv: Kv<string, V>, data: map<string, V>)
    requires OnTrack(kv, |kv.log|, data)
    ensures data == kv.data
  {
    forall id
      ensures Get(data, id) == Get(kv.data, id)
    {
      DrainedIsEqual(kv, id, Get(data, id));
    }
    SameContent(data, kv.data);
  }
}
