/** The sharded store of one node: the class, proved against the steps of ShardedReplication. */
module ShardedStore {
  import opened Basics
  import opened EventLog
  import opened Listening
  import opened ShardedReplication

  // ---------- all shards as one map ----------

  function Flat<V>(shards: Shards<V>): map<Key, V> {
    map k, id | k in shards && id in shards[k] :: (k, id) := shards[k][id]
  }

  lemma FlatLook<V>(shards: Shards<V>, key: Key)
    ensures Get(Flat(shards), key) == Look(shards, key)
  {
    assert key == (key.0, key.1);
  }

  function Tag<V>(shard: string, note: Note<string, V>): Note<Key, V> {
    match note
    case Added(id, v) => Added((shard, id), v)
    case Changed(id, u, v) => Changed((shard, id), u, v)
    case Removed(id, v) => Removed((shard, id), v)
  }

  function TagAll<V>(shard: string, notes: seq<Note<string, V>>): (tagged: seq<Note<Key, V>>)
    ensures |tagged| == |notes| && forall i :: 0 <= i < |notes| ==> tagged[i] == Tag(shard, notes[i])
  {
    seq(|notes|, i requires 0 <= i < |notes| => Tag(shard, notes[i]))
  }

  /** Only one shard differs. */
  ghost predicate OnlyShard<V>(old_: Shards<V>, new_: Shards<V>, shard: string) {
    forall key: Key :: key.0 != shard ==> Look(old_, key) == Look(new_, key)
  }

  lemma DueInShard<V(!new)>(old_: Shards<V>, new_: Shards<V>, shard: string, eq: (V, V) -> bool, key: Key)
    requires Equivalence(eq) && OnlyShard(old_, new_, shard)
    ensures Due(key, Flat(old_), Flat(new_), eq)
      == if key.0 != shard then None
         else
           match Due(key.1, Of(old_, shard), Of(new_, shard), eq)
           case None => None
           case Some(n) => Some(Tag(shard, n))
  {
    FlatLook(old_, key);
    FlatLook(new_, key);
    assert key == (key.0, key.1);
  }

  lemma TaggedIsDue<V(!new)>(old_: Shards<V>, new_: Shards<V>, shard: string, eq: (V, V) -> bool, note: Note<string, V>)
    requires Equivalence(eq) && OnlyShard(old_, new_, shard)
    requires Due(note.id, Of(old_, shard), Of(new_, shard), eq) == Some(note)
    ensures Due(Tag(shard, note).id, Flat(old_), Flat(new_), eq) == Some(Tag(shard, note))
  {
    DueInShard(old_, new_, shard, eq, (shard, note.id));
  }

  lemma DueIsTagged<V(!new)>(old_: Shards<V>, new_: Shards<V>, shard: string, eq: (V, V) -> bool,
                             notes: seq<Note<string, V>>, key: Key)
    requires Equivalence(eq) && OnlyShard(old_, new_, shard)
    requires IsDiff(Of(old_, shard), Of(new_, shard), eq, notes)
    requires Due(key, Flat(old_), Flat(new_), eq).Some?
    ensures Due(key, Flat(old_), Flat(new_), eq).value in TagAll(shard, notes)
  {
    DueInShard(old_, new_, shard, eq, key);
    var i :| 0 <= i < |notes| && notes[i] == Due(key.1, Of(old_, shard), Of(new_, shard), eq).value;
    assert TagAll(shard, notes)[i] == Due(key, Flat(old_), Flat(new_), eq).value;
  }

  lemma AllTaggedDue<V(!new)>(old_: Shards<V>, new_: Shards<V>, shard: string, eq: (V, V) -> bool,
                              notes: seq<Note<string, V>>)
    requires Equivalence(eq) && OnlyShard(old_, new_, shard)
    requires IsDiff(Of(old_, shard), Of(new_, shard), eq, notes)
    ensures var tagged := TagAll(shard, notes);
      forall i :: 0 <= i < |tagged| ==> Due(tagged[i].id, Flat(old_), Flat(new_), eq) == Some(tagged[i])
  {
    var tagged := TagAll(shard, notes);
    forall i | 0 <= i < |tagged|
      ensures Due(tagged[i].id, Flat(old_), Flat(new_), eq) == Some(tagged[i])
    {
      TaggedIsDue(old_, new_, shard, eq, notes[i]);
    }
  }

  /** What is due for one shard, tagged with it, is what is due when only that shard differs. */
  lemma ShardDiff<V(!new)>(old_: Shards<V>, new_: Shards<V>, shard: string, eq: (V, V) -> bool,
                           notes: seq<Note<string, V>>)
    requires Equivalence(eq) && OnlyShard(old_, new_, shard)
    requires IsDiff(Of(old_, shard), Of(new_, shard), eq, notes)
    ensures IsDiff(Flat(old_), Flat(new_), eq, TagAll(shard, notes))
  {
    AllTaggedDue(old_, new_, shard, eq, notes);
    forall key | Due(key, Flat(old_), Flat(new_), eq).Some?
      ensures Due(key, Flat(old_), Flat(new_), eq).value in TagAll(shard, notes)
    {
      DueIsTagged(old_, new_, shard, eq, notes, key);
    }
  }

  lemma TagAllJoin<V>(shard: string, a: seq<Note<string, V>>, b: seq<Note<string, V>>, c: seq<Note<string, V>>)
    ensures TagAll(shard, a + b + c) == TagAll(shard, a) + TagAll(shard, b) + TagAll(shard, c)
  {
  }

  // ---------- one home for every item ----------

  /** Item ids are unique across shards: every id belongs to one shard. */
  ghost function HomeKeys(home: string -> string): iset<Key> {
    iset key: Key | home(key.1) == key.0
  }

  ghost predicate ShardsWithin<V>(shards: Shards<V>, home: string -> string) {
    forall key: Key :: Look(shards, key).Some? ==> key in HomeKeys(home)
  }

  /** The items without their shards. */
  ghost predicate IsUnion<V>(data: map<string, V>, shards: Shards<V>, home: string -> string) {
    forall id :: Get(data, id) == Look(shards, (home(id), id))
  }

  /** Shard keys are those of the items' homes, and every item of the node's own shard has one. */
  ghost predicate KeysFit<V>(keys: map<string, string>, shards: Shards<V>, local: string, home: string -> string) {
    KeysAtHome(keys, home) && forall id :: id in Of(shards, local) ==> id in keys
  }

  ghost predicate KeysAtHome(keys: map<string, string>, home: string -> string) {
    forall id :: id in keys ==> keys[id] == home(id)
  }

  lemma KeysAfterSet<V>(keys: map<string, string>, old_: Shards<V>, new_: Shards<V>, local: string,
                        home: string -> string, id: string, item: V)
    requires KeysFit(keys, old_, local, home) && new_ == old_[local := Of(old_, local)[id := item]]
    ensures KeysFit(keys[id := local], new_, local, home) <==> home(id) == local
  {
    assert id in keys[id := local];
  }

  lemma KeysAfterDelete<V>(keys: map<string, string>, old_: Shards<V>, new_: Shards<V>, local: string,
                           home: string -> string, id: string)
    requires KeysFit(keys, old_, local, home)
    requires forall j :: j in Of(new_, local) ==> j != id && j in Of(old_, local)
    ensures KeysFit(keys - {id}, new_, local, home)
  {
  }

  lemma KeysAfterMerge<V>(keys: map<string, string>, data: map<string, V>, shards: Shards<V>, local: string,
                          home: string -> string)
    requires ShardsWithin(shards, home) && IsUnion(data, shards, home)
    requires KeysAtHome(keys, home) && forall id :: id in data ==> id in keys
    ensures KeysFit(keys, shards, local, home)
  {
    forall id | id in Of(shards, local)
      ensures id in keys
    {
      assert Look(shards, (local, id)).Some?;
      assert (local, id) in HomeKeys(home);
      assert Get(data, id) == Look(shards, (home(id), id));
    }
  }

  /** Setting an item keeps items and shard keys in their homes exactly if the id belongs to the shard. */
  lemma AfterSet<V>(data: map<string, V>, keys: map<string, string>, old_: Shards<V>, new_: Shards<V>, local: string,
                    home: string -> string, id: string, item: V)
    requires ShardsWithin(old_, home) && IsUnion(data, old_, home) && KeysFit(keys, old_, local, home)
    requires DiffersAt(old_, new_, (local, id)) && new_ == old_[local := Of(old_, local)[id := item]]
    ensures ShardsWithin(new_, home) <==> home(id) == local
    ensures home(id) == local ==> IsUnion(data[id := item], new_, home) && KeysFit(keys[id := local], new_, local, home)
  {
    HomeAfterSet(old_, new_, local, home, id, item);
    UnionAfterSet(data, old_, new_, local, home, id, item);
    KeysAfterSet(keys, old_, new_, local, home, id, item);
  }

  /** What an event of another shard does to the shard keys. */
  lemma KeysAfterTook<V>(keys: map<string, string>, old_: Shards<V>, local: string, home: string -> string,
                         ev: Event<Key, V>)
    requires KeysFit(keys, old_, local, home) && ev.key.0 != local && home(ev.key.1) == ev.key.0
      && ShardsWithin(old_, home)
    ensures KeysFit(if ev.Delete? then keys - {ev.key.1} else keys, Took(old_, local, ev), local, home)
  {
    var id := ev.key.1;
    assert Look(old_, (local, id)).Some? ==> (local, id) in HomeKeys(home);
    assert Of(Took(old_, local, ev), local) == Of(old_, local);
  }

  /** Merging the shards one by one gives all items with their shard keys, whatever the order; shard keys of items that
      are gone stay. */
  method Merge<V>(shards: Shards<V>, itemToShardKey: map<string, string>, ghost home: string -> string)
    returns (data: map<string, V>, keys: map<string, string>)
    requires ShardsWithin(shards, home)
    ensures IsUnion(data, shards, home)
    ensures forall id :: Get(keys, id) == if id in data then Some(home(id)) else Get(itemToShardKey, id)
  {
    data, keys := map[], itemToShardKey;
    var rest := shards.Keys;
    while rest != {}
      invariant rest <= shards.Keys
      invariant forall id :: Get(data, id) == if home(id) in rest then None else Look(shards, (home(id), id))
      invariant forall id :: Get(keys, id) == if id in data then Some(home(id)) else Get(itemToShardKey, id)
    {
      var k :| k in rest;
      rest := rest - {k};
      MergeOne(shards, k, home);
      data := data + shards[k];
      keys := keys + map id | id in shards[k] :: k;
    }
  }

  lemma MergeOne<V>(shards: Shards<V>, k: string, home: string -> string)
    requires ShardsWithin(shards, home) && k in shards
    ensures forall id :: id in shards[k] ==> home(id) == k
  {
    forall id | id in shards[k]
      ensures home(id) == k
    {
      assert Look(shards, (k, id)).Some?;
      assert (k, id) in HomeKeys(home);
    }
  }

  // ---------- etcd while a node writes its own shard ----------

  ghost function LocalKeys(local: string): iset<Key> {
    iset key: Key | key.0 == local
  }

  /** Nobody else writes the node's shard, and everybody keeps items in their homes. */
  ghost predicate Environment<V>(kv: Kv<Key, V>, others: seq<seq<Txn<Key, V>>>, local: string, home: string -> string) {
    Leaves(others, LocalKeys(local)) && Within(kv, HomeKeys(home)) && OthersWithin(others, HomeKeys(home))
  }

  /** What etcd has of one shard. */
  ghost predicate ShardIs<V>(kv: Kv<Key, V>, local: string, items: map<string, V>) {
    forall id :: Get(kv.data, (local, id)) == Get(items, id)
  }

  lemma {:induction false} ExtendsConverges<V>(kv: Kv<Key, V>, ts: seq<Txn<Key, V>>, m: Member<V>)
    requires MemberConverges(kv, m)
    ensures MemberConverges(CommitAll(kv, ts), m)
    decreases |ts|
  {
    if ts != [] {
      WriteConverges(kv, ts[0], m);
      ExtendsConverges(Commit(kv, ts[0]), ts[1..], m);
    }
  }

  lemma StoredInShard<V(!new)>(kv: Kv<Key, V>, others: seq<seq<Txn<Key, V>>>, local: string, home: string -> string,
                               items: map<string, V>, id: string, item: V)
    requires Environment(kv, others, local, home) && ShardIs(kv, local, items)
    ensures var (kv', rest, wasWritten) := PutTwice(kv, others, (local, id), item);
      && ShardIs(kv', local, items[id := item]) && Extends(kv, kv')
      && (home(id) == local ==> Environment(kv', rest, local, home))
  {
    var key := (local, id);
    PutTwiceExtends(kv, others, key, item);
    SingleWriterStores(kv, others, key, item, LocalKeys(local));
    if home(id) == local {
      PutTwiceWithin(kv, others, key, item, HomeKeys(home));
    }
    var kv' := PutTwice(kv, others, key, item).0;
    forall j
      ensures Get(kv'.data, (local, j)) == Get(items[id := item], j)
    {
      assert (local, j) in LocalKeys(local);
    }
  }

  lemma RemovedFromShard<V(!new)>(kv: Kv<Key, V>, others: seq<seq<Txn<Key, V>>>, local: string, home: string -> string,
                                  items: map<string, V>, id: string)
    requires Environment(kv, others, local, home) && ShardIs(kv, local, items)
    ensures var kv' := Commit(Next(kv, others), Remove((local, id)));
      && Environment(kv', Rest(others), local, home) && ShardIs(kv', local, items - {id}) && Extends(kv, kv')
  {
    TransactExtends(kv, others, Remove((local, id)));
    NextWithin(kv, others, HomeKeys(home));
    NextLeaves(kv, others, LocalKeys(local));
    var kv' := Commit(Next(kv, others), Remove((local, id)));
    forall j
      ensures Get(kv'.data, (local, j)) == Get(items - {id}, j)
    {
      assert (local, j) in LocalKeys(local);
    }
  }

  // ---------- going through the keys of a map ----------

  ghost function Firsts(keys: seq<string>, n: nat): set<string>
    requires n <= |keys|
  {
    set i | 0 <= i < n :: keys[i]
  }

  lemma FirstsStep(keys: seq<string>, n: nat)
    requires n < |keys| && NoRepeats(keys)
    ensures keys[n] !in Firsts(keys, n) && Firsts(keys, n + 1) == Firsts(keys, n) + {keys[n]}
  {
  }

  lemma FirstsAppend(keys: seq<string>, k: string)
    ensures Firsts(keys + [k], |keys| + 1) == Firsts(keys, |keys|) + {k}
  {
    assert (keys + [k])[|keys|] == k;
    forall i | 0 <= i < |keys|
      ensures (keys + [k])[i] == keys[i]
    {
    }
    forall t | t in Firsts(keys, |keys|)
      ensures t in Firsts(keys + [k], |keys| + 1)
    {
      var i :| 0 <= i < |keys| && keys[i] == t;
      assert (keys + [k])[i] == t;
    }
  }

  /** The keys in some order, as ranging over a map yields them. */
  method ListKeys(all: set<string>) returns (keys: seq<string>)
    ensures NoRepeats(keys) && Firsts(keys, |keys|) == all
  {
    keys := [];
    var rest := all;
    while rest != {}
      invariant rest <= all && NoRepeats(keys) && Firsts(keys, |keys|) == all - rest
    {
      var k :| k in rest;
      assert forall i :: 0 <= i < |keys| ==> keys[i] in Firsts(keys, |keys|);
      FirstsAppend(keys, k);
      keys, rest := keys + [k], rest - {k};
    }
  }

  // ---------- the store ----------

  class ShardedStore<V(==, !new)> {
    const client: KvServer<Key, V>
    const localShardKey: string
    const eq: (V, V) -> bool
    ghost const home: string -> string

    var shardedData: Shards<V>
    var data: map<string, V>
    var itemToShardKey: map<string, string>
    var cursor: nat                // how much of the watch has been handled
    var told: seq<Note<Key, V>>    // everything the handlers have been told
    ghost var seed: map<Key, V>    // what GetAll gave a listener when the store had been initialised

    function View(): Member<V>
      reads this`shardedData, this`cursor
    {
      Member(localShardKey, shardedData, cursor)
    }

    /** Memory and etcd keep every item in its home, and nobody else writes the own shard. */
    ghost predicate Sound()
      reads this`shardedData, client
    {
      && Equivalence(eq) && localShardKey in shardedData
      && ShardsWithin(shardedData, home)
      && Environment(client.View(), client.others, localShardKey, home)
    }

    /** The parts of the state fit together. */
    ghost predicate Coherent()
      reads this`shardedData, this`data, client
    {
      Sound() && IsUnion(data, shardedData, home)
    }

    /** Every item has its shard key. */
    ghost predicate AllKeyed()
      reads this`data, this`itemToShardKey
    {
      KeysAtHome(itemToShardKey, home) && forall id :: id in data ==> id in itemToShardKey
    }

    /** Every item of the node's own shard has, and others have theirs or none. */
    ghost predicate OwnKeyed()
      reads this`shardedData, this`itemToShardKey
    {
      KeysFit(itemToShardKey, shardedData, localShardKey, home)
    }

    /** Between two calls the node is on track to etcd's content, and its listener mirrors all shards. */
    ghost predicate Valid()
      reads this, client
    {
      Coherent() && OwnKeyed() && MemberConverges(client.View(), View()) && Follows(seed, told, Flat(shardedData), eq)
    }

    constructor (client: KvServer<Key, V>, localShardKey: string, eq: (V, V) -> bool, ghost home: string -> string)
      requires Equivalence(eq) && Environment(client.View(), client.others, localShardKey, home)
      ensures Coherent() && itemToShardKey == map[] && shardedData == map[localShardKey := map[]]
      ensures this.client == client && this.localShardKey == localShardKey && this.eq == eq && this.home == home
      ensures cursor == 0 && told == [] && seed == map[]
    {
      this.client, this.localShardKey, this.eq, this.home := client, localShardKey, eq, home;
      shardedData, data, itemToShardKey, cursor, told, seed := map[localShardKey := map[]], map[], map[], 0, [], map[];
    }

    method GetAll() returns (all: Shards<V>)
      ensures all == shardedData
    {
      all := shardedData;
    }

    method GetShard(key: string) returns (shardItems: map<string, V>, shardExists: bool)
      ensures shardExists <==> key in shardedData
      ensures shardItems == Of(shardedData, key)
    {
      shardItems, shardExists := Of(shardedData, key), key in shardedData;
    }

    /** Looking an item up by its id alone finds it in its shard. The shard key is that of its shard, or empty if it has
        come by the watch; a caller that asks whether it is the node's own always learns that. */
    method GetItem(itemID: string) returns (shardKey: string, item: Option<V>)
      requires Coherent() && OwnKeyed()
      ensures item == Look(shardedData, (home(itemID), itemID))
      ensures shardKey == if itemID in itemToShardKey then home(itemID) else ""
      ensures item.Some? && localShardKey != "" ==> (shardKey == localShardKey <==> home(itemID) == localShardKey)
    {
      item := Get(data, itemID);
      shardKey := if itemID in itemToShardKey then itemToShardKey[itemID] else "";
    }

    /** The flat view and the shard keys, from all shards. */
    method Rebuild()
      requires Sound() && KeysAtHome(itemToShardKey, home)
      modifies this`data, this`itemToShardKey
      ensures Coherent() && AllKeyed()
    {
      data, itemToShardKey := Merge(shardedData, itemToShardKey, home);
    }

    method SyncToInternalState(shardKey: string, truth: map<string, V>)
      returns (changes: seq<Note<Key, V>>, added: seq<Note<Key, V>>, removed: seq<Note<Key, V>>)
      requires Coherent() && KeysAtHome(itemToShardKey, home) && forall id :: id in truth ==> home(id) == shardKey
      modifies this`shardedData, this`data, this`itemToShardKey
      ensures Coherent() && AllKeyed() && shardedData == old(shardedData)[shardKey := truth]
      ensures IsDiff(Flat(old(shardedData)), Flat(shardedData), eq, added + changes + removed)
    {
      ghost var before := shardedData;
      var c, a, r := Compare(Of(shardedData, shardKey), truth, eq);
      TagAllJoin(shardKey, a, c, r);
      changes, added, removed := TagAll(shardKey, c), TagAll(shardKey, a), TagAll(shardKey, r);
      shardedData := shardedData[shardKey := truth];
      ShardDiff(before, shardedData, shardKey, eq, a + c + r);
      Rebuild();
    }

    method StoreItem(itemID: string, item: V, ghost items: map<string, V>)
      requires Environment(client.View(), client.others, localShardKey, home)
      requires ShardIs(client.View(), localShardKey, items)
      modifies client
      ensures home(itemID) == localShardKey ==> Environment(client.View(), client.others, localShardKey, home)
      ensures ShardIs(client.View(), localShardKey, items[itemID := item])
      ensures Extends(old(client.View()), client.View())
    {
      StoredInShard(client.View(), client.others, localShardKey, home, items, itemID, item);
      var wasWritten := client.PutIfNewOrChanged((localShardKey, itemID), item);
    }

    method RemoveItem(itemID: string, ghost items: map<string, V>)
      requires Sound() && ShardIs(client.View(), localShardKey, items)
      modifies client
      ensures Sound() && ShardIs(client.View(), localShardKey, items - {itemID})
      ensures Extends(old(client.View()), client.View())
    {
      RemovedFromShard(client.View(), client.others, localShardKey, home, items, itemID);
      var succeeded := client.Transact(Remove((localShardKey, itemID)));
    }

    /** What etcd has of the node's own shard is what the node has of it. */
    ghost predicate Stored()
      reads this, client
    {
      ShardIs(client.View(), localShardKey, Of(shardedData, localShardKey))
    }

    /** Tells the handlers what happened to one key. */
    method TellOne(ghost before: Shards<V>, key: Key, previous: Option<V>, current: Option<V>)
      requires Equivalence(eq) && Follows(seed, told, Flat(before), eq) && DiffersAt(before, shardedData, key)
      requires previous == Look(before, key) && current == Look(shardedData, key)
      modifies this`told
      ensures Follows(seed, told, Flat(shardedData), eq)
      ensures told == old(told) + NotesOf(NoteFor(key, previous, current, eq))
    {
      var notes := [];
      if previous.Some? && current.Some? {
        if !eq(previous.value, current.value) {
          notes := [Changed(key, previous.value, current.value)];
        }
      } else if current.Some? {
        notes := [Added(key, current.value)];
      } else if previous.Some? {
        notes := [Removed(key, previous.value)];
      }
      KeyDiff(before, shardedData, key, eq);
      FollowsOn(seed, told, Flat(before), Flat(shardedData), eq, notes);
      told := told + notes;
    }

    /** The own shard and the flat view get the item, whichever shard it belongs to. */
    method SetInMemory(itemID: string, item: V) returns (previousItem: Option<V>)
      requires localShardKey in shardedData
      modifies this`shardedData, this`data, this`itemToShardKey
      ensures data == old(data)[itemID := item] && itemToShardKey == old(itemToShardKey)[itemID := localShardKey]
      ensures previousItem == Look(old(shardedData), (localShardKey, itemID))
      ensures DiffersAt(old(shardedData), shardedData, (localShardKey, itemID))
      ensures shardedData == old(shardedData)[localShardKey := Of(old(shardedData), localShardKey)[itemID := item]]
    {
      ghost var before := shardedData;
      var shardItems := Of(shardedData, localShardKey);
      previousItem := Get(shardItems, itemID);
      shardedData := shardedData[localShardKey := shardItems[itemID := item]];
      data, itemToShardKey := data[itemID := item], itemToShardKey[itemID := localShardKey];
      ItemDiffers(before, shardedData, localShardKey, itemID);
    }

    /** The flat view loses the item, whichever shard it belongs to. */
    method RemoveFromMemory(itemID: string) returns (previousItem: Option<V>)
      requires Coherent()
      modifies this`shardedData, this`data, this`itemToShardKey
      ensures Sound() && data == old(data) - {itemID} && itemToShardKey == old(itemToShardKey) - {itemID}
      ensures previousItem == Look(old(shardedData), (localShardKey, itemID))
      ensures DiffersAt(old(shardedData), shardedData, (localShardKey, itemID))
      ensures shardedData == old(shardedData)[localShardKey := Of(old(shardedData), localShardKey) - {itemID}]
    {
      ghost var before := shardedData;
      var shardItems := Of(shardedData, localShardKey);
      previousItem := Get(shardItems, itemID);
      shardedData := shardedData[localShardKey := shardItems - {itemID}];
      data, itemToShardKey := data - {itemID}, itemToShardKey - {itemID};
      ItemRemoved(before, shardedData, localShardKey, itemID, home);
      ItemDiffers(before, shardedData, localShardKey, itemID);
    }

    method SetAndStore(itemID: string, item: V) returns (previousItem: Option<V>)
      requires Coherent() && MemberConverges(client.View(), View())
      modifies this`shardedData, this`data, this`itemToShardKey, client
      ensures home(itemID) == localShardKey ==> Environment(client.View(), client.others, localShardKey, home)
      ensures MemberConverges(client.View(), View())
      ensures data == old(data)[itemID := item] && itemToShardKey == old(itemToShardKey)[itemID := localShardKey]
      ensures previousItem == Look(old(shardedData), (localShardKey, itemID))
      ensures DiffersAt(old(shardedData), shardedData, (localShardKey, itemID))
      ensures shardedData == old(shardedData)[localShardKey := Of(old(shardedData), localShardKey)[itemID := item]]
      ensures ShardIs(client.View(), localShardKey, ShardOf(old(client.data), localShardKey)[itemID := item])
      ensures Extends(old(client.View()), client.View())
    {
      ghost var m, kv := View(), client.View();
      EtcdShard(kv, localShardKey);
      previousItem := SetInMemory(itemID, item);
      StoreItem(itemID, item, ShardOf(client.data, localShardKey));
      LocalChange(kv, client.View(), m, Of(shardedData, localShardKey));
      assert View() == m.(shards := m.shards[m.local := Of(shardedData, localShardKey)]);
    }

    method RemoveAndDelete(itemID: string) returns (previousItem: Option<V>)
      requires Coherent() && MemberConverges(client.View(), View())
      modifies this`shardedData, this`data, this`itemToShardKey, client
      ensures Sound() && MemberConverges(client.View(), View())
      ensures data == old(data) - {itemID} && itemToShardKey == old(itemToShardKey) - {itemID}
      ensures previousItem == Look(old(shardedData), (localShardKey, itemID))
      ensures DiffersAt(old(shardedData), shardedData, (localShardKey, itemID))
      ensures shardedData == old(shardedData)[localShardKey := Of(old(shardedData), localShardKey) - {itemID}]
      ensures ShardIs(client.View(), localShardKey, ShardOf(old(client.data), localShardKey) - {itemID})
      ensures Extends(old(client.View()), client.View())
    {
      ghost var m, kv := View(), client.View();
      EtcdShard(kv, localShardKey);
      previousItem := RemoveFromMemory(itemID);
      RemoveItem(itemID, ShardOf(client.data, localShardKey));
      LocalChange(kv, client.View(), m, Of(shardedData, localShardKey));
      assert View() == m.(shards := m.shards[m.local := Of(shardedData, localShardKey)]);
    }

    /** The note about a deletion, told. */
    method DeleteAndTell(itemID: string)
      requires Valid()
      modifies this`shardedData, this`data, this`itemToShardKey, this`told, client
      ensures Sound() && MemberConverges(client.View(), View()) && Follows(seed, told, Flat(shardedData), eq)
      ensures data == old(data) - {itemID} && itemToShardKey == old(itemToShardKey) - {itemID}
      ensures DiffersAt(old(shardedData), shardedData, (localShardKey, itemID))
      ensures shardedData == old(shardedData)[localShardKey := Of(old(shardedData), localShardKey) - {itemID}]
      ensures ShardIs(client.View(), localShardKey, ShardOf(old(client.data), localShardKey) - {itemID})
      ensures Extends(old(client.View()), client.View())
    {
      ghost var before := shardedData;
      var previousItem := RemoveAndDelete(itemID);
      TellOne(before, (localShardKey, itemID), previousItem, None);
    }

    /** The item, set and told. */
    method SetAndTell(itemID: string, item: V)
      requires Valid()
      modifies this`shardedData, this`data, this`itemToShardKey, this`told, client
      ensures home(itemID) == localShardKey ==> Environment(client.View(), client.others, localShardKey, home)
      ensures MemberConverges(client.View(), View()) && Follows(seed, told, Flat(shardedData), eq)
      ensures data == old(data)[itemID := item] && itemToShardKey == old(itemToShardKey)[itemID := localShardKey]
      ensures DiffersAt(old(shardedData), shardedData, (localShardKey, itemID))
      ensures shardedData == old(shardedData)[localShardKey := Of(old(shardedData), localShardKey)[itemID := item]]
      ensures ShardIs(client.View(), localShardKey, ShardOf(old(client.data), localShardKey)[itemID := item])
      ensures Extends(old(client.View()), client.View())
      ensures var previous := Look(old(shardedData), (localShardKey, itemID));
        told == old(told) + NotesOf(NoteFor((localShardKey, itemID), previous, Some(item), eq))
    {
      ghost var before := shardedData;
      var previousItem := SetAndStore(itemID, item);
      TellOne(before, (localShardKey, itemID), previousItem, Some(item));
    }

    /** Adds or changes an item of the node's own shard. An id of another shard goes into the node's own shard all the
        same, so that the state stays right exactly if the item is the node's own. */
    method AddOrUpdateItem(itemID: string, item: V)
      requires Valid()
      modifies this`shardedData, this`data, this`itemToShardKey, this`told, client
      ensures Valid() <==> home(itemID) == localShardKey
      ensures shardedData == old(shardedData)[localShardKey := Of(old(shardedData), localShardKey)[itemID := item]]
      ensures data == old(data)[itemID := item] && itemToShardKey == old(itemToShardKey)[itemID := localShardKey]
      ensures ShardIs(client.View(), localShardKey, ShardOf(old(client.data), localShardKey)[itemID := item])
      ensures Extends(old(client.View()), client.View())
      ensures var previous := Look(old(shardedData), (localShardKey, itemID));
        told == old(told) + NotesOf(NoteFor((localShardKey, itemID), previous, Some(item), eq))
    {
      ghost var before, flat, keys := shardedData, data, itemToShardKey;
      SetAndTell(itemID, item);
      AfterSet(flat, keys, before, shardedData, localShardKey, home, itemID, item);
    }

    /** Deletes an item of the node's own shard. An id of another shard goes from the flat view only, so that the
        state stays right exactly if the item is the node's own or unknown. */
    method DeleteItem(itemID: string)
      requires Valid()
      modifies this`shardedData, this`data, this`itemToShardKey, this`told, client
      ensures Valid() <==> home(itemID) == localShardKey || Look(old(shardedData), (home(itemID), itemID)).None?
      ensures shardedData == old(shardedData)[localShardKey := Of(old(shardedData), localShardKey) - {itemID}]
      ensures data == old(data) - {itemID} && itemToShardKey == old(itemToShardKey) - {itemID}
      ensures ShardIs(client.View(), localShardKey, ShardOf(old(client.data), localShardKey) - {itemID})
      ensures Extends(old(client.View()), client.View())
    {
      ghost var before, flat, keys := shardedData, data, itemToShardKey;
      DeleteAndTell(itemID);
      KeysAfterDelete(keys, before, shardedData, localShardKey, home, itemID);
      UnionAfterDelete(flat, before, shardedData, localShardKey, home, itemID);
    }

    method StoreItems(items: map<string, V>, ghost etcdItems: map<string, V>)
      requires Coherent() && ShardIs(client.View(), localShardKey, etcdItems)
      requires forall id :: id in items ==> home(id) == localShardKey
      modifies client
      ensures Coherent() && ShardIs(client.View(), localShardKey, etcdItems + items)
      ensures Extends(old(client.View()), client.View())
    {
      ghost var kv, current := client.View(), etcdItems;
      ExtendsSelf(kv);
      AllItems(items, etcdItems);
      var rest := items.Keys;
      while rest != {}
        invariant Coherent() && rest <= items.Keys
        invariant ShardIs(client.View(), localShardKey, current) && Extends(kv, client.View())
        invariant AllBut(current, etcdItems, items, rest)
      {
        var id :| id in rest;
        ghost var kv1 := client.View();
        StoreItem(id, items[id], current);
        ExtendsOn(kv, kv1, client.View());
        AllButOneLess(current, etcdItems, items, rest, id);
        rest, current := rest - {id}, current[id := items[id]];
      }
      AllButNone(current, etcdItems, items);
    }

    method RemoveItems(ids: set<string>, ghost etcdItems: map<string, V>)
      requires Sound() && ShardIs(client.View(), localShardKey, etcdItems)
      modifies client
      ensures Sound() && ShardIs(client.View(), localShardKey, etcdItems - ids)
      ensures Extends(old(client.View()), client.View())
    {
      ghost var kv, done := client.View(), {};
      ExtendsSelf(kv);
      var rest := ids;
      assert etcdItems - {} == etcdItems;
      while rest != {}
        invariant Sound() && rest <= ids && done == ids - rest
        invariant ShardIs(client.View(), localShardKey, etcdItems - done) && Extends(kv, client.View())
      {
        var id :| id in rest;
        ghost var kv1 := client.View();
        RemoveItem(id, etcdItems - done);
        ExtendsOn(kv, kv1, client.View());
        assert (etcdItems - done) - {id} == etcdItems - (done + {id});
        rest, done := rest - {id}, done + {id};
      }
      assert done == ids;
    }

    /** Brings the node's own shard in etcd to exactly `items`. */
    method StoreShard(items: map<string, V>, etcdItems: map<string, V>)
      requires Coherent() && ShardIs(client.View(), localShardKey, etcdItems)
      requires forall id :: id in items ==> home(id) == localShardKey
      modifies client
      ensures Coherent() && ShardIs(client.View(), localShardKey, items)
      ensures Extends(old(client.View()), client.View())
    {
      ghost var kv := client.View();
      var toBeDeletedFromEtcd := etcdItems.Keys - items.Keys;
      StoreItems(items, etcdItems);
      ghost var kv1 := client.View();
      RemoveItems(toBeDeletedFromEtcd, etcdItems + items);
      ExtendsOn(kv, kv1, client.View());
      AllItems(items, etcdItems);
    }

    /** Takes one shard of another node over from etcd, and adds what is to be told about it to the lists. */
    method SyncRemoteShard(k: string, truth: map<string, V>, ghost before: Shards<V>, changes: seq<Note<Key, V>>,
                           added: seq<Note<Key, V>>, removed: seq<Note<Key, V>>)
      returns (changes': seq<Note<Key, V>>, added': seq<Note<Key, V>>, removed': seq<Note<Key, V>>)
      requires Coherent() && AllKeyed() && k != localShardKey && forall id :: id in truth ==> home(id) == k
      requires Of(before, k) == Of(shardedData, k)
      requires IsDiff(Flat(before), Flat(shardedData), eq, added + changes + removed)
      modifies this`shardedData, this`data, this`itemToShardKey
      ensures Coherent() && AllKeyed() && shardedData == old(shardedData)[k := truth]
      ensures IsDiff(Flat(before), Flat(shardedData), eq, added' + changes' + removed')
    {
      ghost var middle := shardedData;
      var localChanges, localAdded, localRemoved := SyncToInternalState(k, truth);
      ShardApart(before, middle, shardedData, k);
      DiffsJoin(Flat(before), Flat(middle), Flat(shardedData), eq, added, changes, removed, localAdded, localChanges,
                localRemoved);
      changes', added', removed' := changes + localChanges, added + localAdded, removed + localRemoved;
    }

    /** How far a full sync has come: `done` are the shards of `etcdData` that have been dealt with. */
    ghost predicate Syncing(items: map<string, V>, etcdData: map<Key, V>, middle: Shards<V>, kv: Kv<Key, V>,
                            done: set<string>)
      reads this`shardedData, this`data, this`itemToShardKey, client
    {
      && AllKeyed() && Extends(kv, client.View())
      && ShardIs(client.View(), localShardKey,
                 if localShardKey in done then items else ShardOf(etcdData, localShardKey))
      && SyncedSoFar(middle, shardedData, localShardKey, etcdData, done)
    }

    /** One turn of that, for a shard of another node: it is taken over. */
    method SyncOther(shardKey: string, items: map<string, V>, etcdData: map<Key, V>, ghost before: Shards<V>,
                     ghost middle: Shards<V>, ghost kv: Kv<Key, V>, ghost done: set<string>, changes: seq<Note<Key, V>>,
                     added: seq<Note<Key, V>>, removed: seq<Note<Key, V>>)
      returns (changes': seq<Note<Key, V>>, added': seq<Note<Key, V>>, removed': seq<Note<Key, V>>)
      requires Coherent() && Syncing(items, etcdData, middle, kv, done)
      requires shardKey !in done && shardKey != localShardKey
      requires kv.data == etcdData && Within(kv, HomeKeys(home))
      requires Of(before, shardKey) == Of(middle, shardKey)
      requires IsDiff(Flat(before), Flat(shardedData), eq, added + changes + removed)
      modifies this`shardedData, this`data, this`itemToShardKey
      ensures Coherent() && Syncing(items, etcdData, middle, kv, done + {shardKey})
      ensures IsDiff(Flat(before), Flat(shardedData), eq, added' + changes' + removed')
    {
      ghost var now := shardedData;
      HomedShard(kv, shardKey, home);
      SyncedOthers(middle, now, localShardKey, etcdData, done, shardKey);
      changes', added', removed' := SyncRemoteShard(shardKey, ShardOf(etcdData, shardKey), before, changes, added,
                                                    removed);
      SyncedOneMore(middle, now, shardedData, localShardKey, etcdData, done, shardKey);
    }

    /** ... and for the node's own: etcd is brought up to date. */
    method SyncOwn(items: map<string, V>, etcdData: map<Key, V>, ghost middle: Shards<V>, ghost kv: Kv<Key, V>,
                   ghost done: set<string>)
      requires Coherent() && Syncing(items, etcdData, middle, kv, done) && localShardKey !in done
      requires forall id :: id in items ==> home(id) == localShardKey
      modifies client
      ensures Coherent() && Syncing(items, etcdData, middle, kv, done + {localShardKey})
    {
      ghost var kv1 := client.View();
      StoreShard(items, ShardOf(etcdData, localShardKey));
      ExtendsOn(kv, kv1, client.View());
      SyncedLocal(middle, shardedData, localShardKey, etcdData, done);
    }

    method SyncShard(shardKey: string, items: map<string, V>, etcdData: map<Key, V>, ghost before: Shards<V>,
                     ghost middle: Shards<V>, ghost kv: Kv<Key, V>, ghost done: set<string>, changes: seq<Note<Key, V>>,
                     added: seq<Note<Key, V>>, removed: seq<Note<Key, V>>)
      returns (changes': seq<Note<Key, V>>, added': seq<Note<Key, V>>, removed': seq<Note<Key, V>>)
      requires Coherent() && Syncing(items, etcdData, middle, kv, done) && shardKey !in done
      requires kv.data == etcdData && Within(kv, HomeKeys(home))
      requires forall id :: id in items ==> home(id) == localShardKey
      requires shardKey != localShardKey ==> Of(before, shardKey) == Of(middle, shardKey)
      requires IsDiff(Flat(before), Flat(shardedData), eq, added + changes + removed)
      modifies this`shardedData, this`data, this`itemToShardKey, client
      ensures Coherent() && Syncing(items, etcdData, middle, kv, done + {shardKey})
      ensures IsDiff(Flat(before), Flat(shardedData), eq, added' + changes' + removed')
    {
      if shardKey != localShardKey {
        changes', added', removed' := SyncOther(shardKey, items, etcdData, before, middle, kv, done, changes, added,
                                                removed);
      } else {
        changes', added', removed' := changes, added, removed;
        SyncOwn(items, etcdData, middle, kv, done);
      }
    }

    method SyncEveryShard(items: map<string, V>, etcdData: map<Key, V>, ghost before: Shards<V>,
                          ghost middle: Shards<V>, ghost kv: Kv<Key, V>, changes: seq<Note<Key, V>>,
                          added: seq<Note<Key, V>>, removed: seq<Note<Key, V>>)
      returns (changes': seq<Note<Key, V>>, added': seq<Note<Key, V>>, removed': seq<Note<Key, V>>)
      requires Coherent() && Syncing(items, etcdData, middle, kv, {})
      requires kv.data == etcdData && Within(kv, HomeKeys(home))
      requires forall id :: id in items ==> home(id) == localShardKey
      requires forall k :: k != localShardKey ==> Of(before, k) == Of(middle, k)
      requires IsDiff(Flat(before), Flat(shardedData), eq, added + changes + removed)
      modifies this`shardedData, this`data, this`itemToShardKey, client
      ensures Coherent() && Syncing(items, etcdData, middle, kv, Present(etcdData))
      ensures IsDiff(Flat(before), Flat(shardedData), eq, added' + changes' + removed')
    {
      changes', added', removed' := changes, added, removed;
      var shardKeys := ListKeys(Present(etcdData));
      for i := 0 to |shardKeys|
        invariant Coherent() && Syncing(items, etcdData, middle, kv, Firsts(shardKeys, i))
        invariant IsDiff(Flat(before), Flat(shardedData), eq, added' + changes' + removed')
      {
        ghost var done := Firsts(shardKeys, i);
        FirstsStep(shardKeys, i);
        changes', added', removed' :=
          SyncShard(shardKeys[i], items, etcdData, before, middle, kv, done, changes', added', removed');
      }
      assert Firsts(shardKeys, |shardKeys|) == Present(etcdData);
    }

    method SyncShards(items: map<string, V>, etcdData: map<Key, V>, ghost before: Shards<V>, changes: seq<Note<Key, V>>,
                      added: seq<Note<Key, V>>, removed: seq<Note<Key, V>>)
      returns (changes': seq<Note<Key, V>>, added': seq<Note<Key, V>>, removed': seq<Note<Key, V>>)
      requires Coherent() && AllKeyed() && client.data == etcdData
      requires forall id :: id in items ==> home(id) == localShardKey
      requires forall k :: k != localShardKey ==> Of(before, k) == Of(shardedData, k)
      requires IsDiff(Flat(before), Flat(shardedData), eq, added + changes + removed)
      modifies this`shardedData, this`data, this`itemToShardKey, client
      ensures Coherent() && AllKeyed()
      ensures shardedData == Loaded(old(shardedData), localShardKey, etcdData)
      ensures Extends(old(client.View()), client.View())
      ensures ShardIs(client.View(), localShardKey, if localShardKey in Present(etcdData) then items else map[])
      ensures IsDiff(Flat(before), Flat(shardedData), eq, added' + changes' + removed')
    {
      ghost var middle, kv := shardedData, client.View();
      EtcdShard(kv, localShardKey);
      ExtendsSelf(kv);
      changes', added', removed' := SyncEveryShard(items, etcdData, before, middle, kv, changes, added, removed);
      SyncedIsLoaded(middle, shardedData, localShardKey, etcdData);
      AbsentIsEmpty(etcdData, localShardKey);
    }

    /** The full sync in both directions, short of telling the handlers. The node's own shard reaches etcd only if
        etcd has that shard already. */
    method SyncBothWays(items: map<string, V>)
      returns (changes: seq<Note<Key, V>>, added: seq<Note<Key, V>>, removed: seq<Note<Key, V>>, revision: nat)
      requires Coherent() && KeysAtHome(itemToShardKey, home) && forall id :: id in items ==> home(id) == localShardKey
      modifies this`shardedData, this`data, this`itemToShardKey, client
      ensures Coherent() && AllKeyed() && OwnKeyed()
      ensures var kv := Next(old(client.View()), old(client.others));
        && shardedData == Loaded(old(shardedData)[localShardKey := items], localShardKey, kv.data)
        && revision == |kv.log| && Extends(old(client.View()), kv) && Extends(kv, client.View())
      ensures ShardIs(client.View(), localShardKey, if localShardKey in Present(old(client.data)) then items else map[])
      ensures IsDiff(Flat(old(shardedData)), Flat(shardedData), eq, added + changes + removed)
    {
      ghost var before := shardedData;
      changes, added, removed := SyncToInternalState(localShardKey, items);
      LoadEnvironment(client.View(), client.others, localShardKey, home);
      var etcdData := client.Load();
      revision := |client.log|;
      changes, added, removed := SyncShards(items, etcdData, before, changes, added, removed);
      KeysAfterMerge(itemToShardKey, data, shardedData, localShardKey, home);
    }

    /** Reads etcd and starts the watch, taken as one step. */
    method Start(localShardItems: map<string, V>)
      requires Coherent() && itemToShardKey == map[] && shardedData == map[localShardKey := map[]]
      requires forall id :: id in localShardItems ==> home(id) == localShardKey
      modifies this`shardedData, this`data, this`itemToShardKey, this`cursor, client
      ensures Coherent() && AllKeyed() && OwnKeyed() && MemberConverges(client.View(), View())
      ensures shardedData == Loaded(map[localShardKey := localShardItems], localShardKey,
                                    Next(old(client.View()), old(client.others)).data)
      ensures ShardIs(client.View(), localShardKey,
                      if localShardKey in Present(old(client.data)) then localShardItems else map[])
    {
      ghost var kv := Next(client.View(), client.others);
      assert shardedData[localShardKey := localShardItems] == map[localShardKey := localShardItems];
      var changes, added, removed, revision := SyncBothWays(localShardItems);
      cursor := revision;
      StartedConverges(kv, client.View(), localShardKey, localShardItems);
    }

    /** The handlers hear nothing of the start. */
    method Init(localShardItems: map<string, V>)
      requires Coherent() && itemToShardKey == map[] && shardedData == map[localShardKey := map[]]
      requires forall id :: id in localShardItems ==> home(id) == localShardKey
      modifies this`shardedData, this`data, this`itemToShardKey, this`cursor, this`told, this`seed, client
      ensures Valid() && AllKeyed() && seed == Flat(shardedData) && told == []
      ensures shardedData == Loaded(map[localShardKey := localShardItems], localShardKey,
                                    Next(old(client.View()), old(client.others)).data)
      ensures ShardIs(client.View(), localShardKey,
                      if localShardKey in Present(old(client.data)) then localShardItems else map[])
    {
      Start(localShardItems);
      seed, told := Flat(shardedData), [];
      FollowsFromStart(seed, eq);
    }

    /** A full sync in mid-stream keeps the node on track. */
    method SyncOnTrack(localShardItems: map<string, V>)
      returns (changes: seq<Note<Key, V>>, added: seq<Note<Key, V>>, removed: seq<Note<Key, V>>)
      requires Valid() && forall id :: id in localShardItems ==> home(id) == localShardKey
      modifies this`shardedData, this`data, this`itemToShardKey, client
      ensures Coherent() && AllKeyed() && OwnKeyed() && MemberConverges(client.View(), View())
      ensures IsDiff(Flat(old(shardedData)), Flat(shardedData), eq, added + changes + removed)
      ensures shardedData == Loaded(old(shardedData)[localShardKey := localShardItems], localShardKey,
                                    Next(old(client.View()), old(client.others)).data)
      ensures ShardIs(client.View(), localShardKey,
                      if localShardKey in Present(old(client.data)) then localShardItems else map[])
    {
      ghost var m, kv0 := View(), client.View();
      ghost var kv := Next(kv0, client.others);
      var revision;
      changes, added, removed, revision := SyncBothWays(localShardItems);
      SyncConverges(kv0, kv, client.View(), m, localShardItems);
    }

    method SyncAndTell(localShardItems: map<string, V>)
      requires Valid() && forall id :: id in localShardItems ==> home(id) == localShardKey
      modifies this`shardedData, this`data, this`itemToShardKey, this`told, client
      ensures Valid() && AllKeyed()
      ensures shardedData == Loaded(old(shardedData)[localShardKey := localShardItems], localShardKey,
                                    Next(old(client.View()), old(client.others)).data)
      ensures ShardIs(client.View(), localShardKey,
                      if localShardKey in Present(old(client.data)) then localShardItems else map[])
    {
      ghost var before := shardedData;
      var changes, added, removed := SyncOnTrack(localShardItems);
      FollowsOn(seed, told, Flat(before), Flat(shardedData), eq, added + changes + removed);
      told := told + (added + changes + removed);
    }

    /** The node's own shard reaches etcd exactly if etcd had something of it before, or there is nothing to store. */
    method Sync(localShardItems: map<string, V>)
      requires Valid() && forall id :: id in localShardItems ==> home(id) == localShardKey
      modifies this`shardedData, this`data, this`itemToShardKey, this`told, client
      ensures Valid() && AllKeyed()
      ensures shardedData == Loaded(old(shardedData)[localShardKey := localShardItems], localShardKey,
                                    Next(old(client.View()), old(client.others)).data)
      ensures Stored() <==> localShardKey in Present(old(client.data)) || localShardItems == map[]
    {
      ghost var before, kv := shardedData, Next(client.View(), client.others);
      ghost var hadShard := localShardKey in Present(client.data);
      SyncAndTell(localShardItems);
      LoadedLocal(before[localShardKey := localShardItems], localShardKey, kv.data);
      ShardIsOnly(client.View(), localShardKey, localShardItems, hadShard);
    }

    /** Another node deleted an item. Its value is looked up by its id alone. */
    method HandleDelete(shardKey: string, itemID: string)
      requires Coherent() && Follows(seed, told, Flat(shardedData), eq)
      requires shardKey != localShardKey && home(itemID) == shardKey
      modifies this`shardedData, this`data, this`itemToShardKey, this`told
      ensures Coherent() && Follows(seed, told, Flat(shardedData), eq)
      ensures shardedData == Took(old(shardedData), localShardKey, Delete((shardKey, itemID)))
      ensures itemToShardKey == old(itemToShardKey) - {itemID}
    {
      ghost var before := shardedData;
      TookDiffers(before, localShardKey, Delete((shardKey, itemID)), home);
      if shardKey in shardedData {
        shardedData := shardedData[shardKey := shardedData[shardKey] - {itemID}];
      }
      var item := Get(data, itemID);
      UnionAfterDelete(data, before, shardedData, shardKey, home, itemID);
      data, itemToShardKey := data - {itemID}, itemToShardKey - {itemID};
      TellOne(before, (shardKey, itemID), item, None);
    }

    /** ... or set one. The shard key is not set. */
    method HandlePut(shardKey: string, itemID: string, item: V)
      requires Coherent() && Follows(seed, told, Flat(shardedData), eq)
      requires shardKey != localShardKey && home(itemID) == shardKey
      modifies this`shardedData, this`data, this`told
      ensures Coherent() && Follows(seed, told, Flat(shardedData), eq)
      ensures shardedData == Took(old(shardedData), localShardKey, Put((shardKey, itemID), item))
    {
      ghost var before := shardedData;
      TookDiffers(before, localShardKey, Put((shardKey, itemID), item), home);
      var previousItem := Look(shardedData, (shardKey, itemID));
      shardedData := shardedData[shardKey := Of(shardedData, shardKey)[itemID := item]];
      UnionAfterSet(data, before, shardedData, shardKey, home, itemID, item);
      data := data[itemID := item];
      TellOne(before, (shardKey, itemID), previousItem, Some(item));
    }

    /** An event of another node's shard. */
    method HandleOther(ev: Event<Key, V>)
      requires Coherent() && OwnKeyed() && Follows(seed, told, Flat(shardedData), eq)
      requires ev.key.0 != localShardKey && ev.key in HomeKeys(home)
      modifies this`shardedData, this`data, this`itemToShardKey, this`told
      ensures Coherent() && OwnKeyed() && Follows(seed, told, Flat(shardedData), eq)
      ensures shardedData == Took(old(shardedData), localShardKey, ev)
      ensures itemToShardKey == if ev.Delete? then old(itemToShardKey) - {ev.key.1} else old(itemToShardKey)
    {
      KeysAfterTook(itemToShardKey, shardedData, localShardKey, home, ev);
      assert ev.key == (ev.key.0, ev.key.1);
      match ev {
        case Delete(key) => HandleDelete(key.0, key.1);
        case Put(key, item) => HandlePut(key.0, key.1, item);
      }
    }

    /** The watch: handles the next event. Events of the node's own shard are ignored. */
    method HandleEvent()
      requires Valid() && cursor < |client.log|
      modifies this`shardedData, this`data, this`itemToShardKey, this`cursor, this`told
      ensures Valid() && cursor == old(cursor) + 1
      ensures shardedData == Took(old(shardedData), localShardKey, client.log[old(cursor)])
      ensures var ev := client.log[old(cursor)];
        itemToShardKey == if ev.Delete?
          && ev.key.0 != localShardKey then old(itemToShardKey) - {ev.key.1} else old(itemToShardKey)
    {
      ghost var m := View();
      DeliverConverges(client.View(), m);
      var ev := client.log[cursor];
      assert ev.key in HomeKeys(home);
      if ev.key.0 != localShardKey {
        HandleOther(ev);
      }
      cursor := cursor + 1;
      assert View() == m.(shards := Took(m.shards, m.local, ev), cursor := m.cursor + 1);
    }

    method HandleWatchEvents(count: nat)
      requires Valid() && cursor + count <= |client.log|
      modifies this`shardedData, this`data, this`itemToShardKey, this`cursor, this`told
      ensures Valid() && cursor == old(cursor) + count && itemToShardKey.Keys <= old(itemToShardKey).Keys
      ensures cursor == |client.log| ==>
        forall key: Key :: key.0 != localShardKey ==> Look(shardedData, key) == Get(client.data, key)
    {
      for i := 0 to count
        invariant Valid() && cursor == old(cursor) + i && itemToShardKey.Keys <= old(itemToShardKey).Keys
      {
        HandleEvent();
      }
      if cursor == |client.log| {
        forall key: Key | key.0 != localShardKey
          ensures Look(shardedData, key) == Get(client.data, key)
        {
          DrainedIsEqual(client.View(), key, Look(shardedData, key));
        }
      }
    }
  }

  lemma StillConverges<V(!new)>(kv: Kv<Key, V>, kv': Kv<Key, V>, m: Member<V>)
    requires MemberConverges(kv, m) && Extends(kv, kv')
    ensures MemberConverges(kv', m)
  {
    var ts :| kv' == CommitAll(kv, ts);
    ExtendsConverges(kv, ts, m);
  }

  lemma StartedConverges<V(!new)>(kv: Kv<Key, V>, kv': Kv<Key, V>, local: string, items: map<string, V>)
    requires Extends(kv, kv')
    ensures MemberConverges(kv', Member(local, Loaded(map[local := items], local, kv.data), |kv.log|))
  {
    StartConverges(kv, local, items);
    StillConverges(kv, kv', Member(local, Loaded(map[local := items], local, kv.data), |kv.log|));
  }

  lemma SyncConverges<V(!new)>(kv0: Kv<Key, V>, kv: Kv<Key, V>, kv': Kv<Key, V>, m: Member<V>, items: map<string, V>)
    requires MemberConverges(kv0, m) && Extends(kv0, kv) && Extends(kv, kv')
    ensures MemberConverges(kv', m.(shards := Loaded(m.shards[m.local := items], m.local, kv.data)))
  {
    var m1 := m.(shards := m.shards[m.local := items]);
    LocalChange(kv0, kv, m, items);
    LoadConverges(kv, m1);
    StillConverges(kv, kv', m1.(shards := Loaded(m1.shards, m.local, kv.data)));
  }

  lemma LoadedLocal<V>(shards: Shards<V>, local: string, data: map<Key, V>)
    ensures Of(Loaded(shards, local, data), local) == Of(shards, local)
  {
  }

  lemma FollowsFromStart<K(!new), V(!new)>(seed: map<K, V>, eq: (V, V) -> bool)
    requires Equivalence(eq)
    ensures Follows(seed, [], seed, eq)
  {
  }

  lemma TookDiffers<V>(shards: Shards<V>, local: string, ev: Event<Key, V>, home: string -> string)
    requires ShardsWithin(shards, home) && ev.key in HomeKeys(home) && ev.key.0 != local
    ensures DiffersAt(shards, Took(shards, local, ev), ev.key)
    ensures Look(Took(shards, local, ev), ev.key) == if ev.Put? then Some(ev.value) else None
    ensures ShardsWithin(Took(shards, local, ev), home)
  {
    var now := Took(shards, local, ev);
    forall key: Key | key != ev.key
      ensures Look(now, key) == Look(shards, key)
    {
    }
  }

  /** `current` is `was` with the entries of `items` set, except those in `rest`. */
  ghost predicate AllBut<V>(current: map<string, V>, was: map<string, V>, items: map<string, V>, rest: set<string>) {
    forall id :: Get(current, id) == if id in items && id !in rest then Some(items[id]) else Get(was, id)
  }

  lemma AllButOneLess<V>(current: map<string, V>, was: map<string, V>, items: map<string, V>, rest: set<string>,
                         id: string)
    requires AllBut(current, was, items, rest) && id in items
    ensures AllBut(current[id := items[id]], was, items, rest - {id})
  {
  }

  lemma AllButNone<V>(current: map<string, V>, was: map<string, V>, items: map<string, V>)
    requires AllBut(current, was, items, {})
    ensures current == was + items
  {
    forall id
      ensures Get(current, id) == Get(was + items, id)
    {
    }
    SameContent(current, was + items);
  }

  lemma AllItems<V>(items: map<string, V>, was: map<string, V>)
    ensures AllBut(was, was, items, items.Keys)
    ensures (was + items) - (was.Keys - items.Keys) == items
  {
  }

  lemma ShardIsOnly<V(!new)>(kv: Kv<Key, V>, local: string, items: map<string, V>, hadShard: bool)
    requires ShardIs(kv, local, if hadShard then items else map[])
    ensures ShardIs(kv, local, items) <==> hadShard || items == map[]
  {
    if ShardIs(kv, local, items) {
      StoredStays(kv, local, items);
    }
    StoredStays(kv, local, if hadShard then items else map[]);
  }

  lemma UnionAfterDelete<V>(data: map<string, V>, old_: Shards<V>, new_: Shards<V>, local: string,
                            home: string -> string, id: string)
    requires IsUnion(data, old_, home) && DiffersAt(old_, new_, (local, id)) && Look(new_, (local, id)).None?
    ensures IsUnion(data - {id}, new_, home) <==> home(id) == local || Look(old_, (home(id), id)).None?
  {
    if home(id) != local {
      assert Look(new_, (home(id), id)) == Look(old_, (home(id), id));
    }
    forall j | j != id
      ensures Get(data - {id}, j) == Look(new_, (home(j), j))
    {
    }
  }

  ghost predicate DiffersAt<V>(old_: Shards<V>, new_: Shards<V>, key: Key) {
    forall k: Key :: k != key ==> Look(old_, k) == Look(new_, k)
  }

  lemma ItemDiffers<V>(old_: Shards<V>, new_: Shards<V>, shard: string, id: string)
    requires forall k :: k != shard ==> Of(old_, k) == Of(new_, k)
    requires forall j :: j != id ==> Get(Of(old_, shard), j) == Get(Of(new_, shard), j)
    ensures DiffersAt(old_, new_, (shard, id))
  {
  }

  lemma KeyDiff<V(!new)>(old_: Shards<V>, new_: Shards<V>, key: Key, eq: (V, V) -> bool)
    requires Equivalence(eq) && DiffersAt(old_, new_, key)
    ensures IsDiff(Flat(old_), Flat(new_), eq, NotesOf(NoteFor(key, Look(old_, key), Look(new_, key), eq)))
  {
    FlatLook(old_, key);
    FlatLook(new_, key);
    forall k: Key | k != key
      ensures Get(Flat(old_), k) == Get(Flat(new_), k)
    {
      FlatLook(old_, k);
      FlatLook(new_, k);
    }
    OneKeyDiff(Flat(old_), Flat(new_), key, eq);
  }

  /** An item put into a shard is at home there exactly if its id belongs to the shard. */
  lemma HomeAfterSet<V>(old_: Shards<V>, new_: Shards<V>, local: string, home: string -> string, id: string, item: V)
    requires ShardsWithin(old_, home) && DiffersAt(old_, new_, (local, id)) && Look(new_, (local, id)) == Some(item)
    ensures ShardsWithin(new_, home) <==> home(id) == local
  {
    forall key: Key | key != (local, id)
      ensures Look(new_, key).Some? ==> key in HomeKeys(home)
    {
      assert Look(old_, key) == Look(new_, key);
    }
  }

  lemma UnionAfterSet<V>(data: map<string, V>, old_: Shards<V>, new_: Shards<V>, local: string, home: string -> string,
                         id: string, item: V)
    requires IsUnion(data, old_, home) && DiffersAt(old_, new_, (local, id)) && Look(new_, (local, id)) == Some(item)
    ensures home(id) == local ==> IsUnion(data[id := item], new_, home)
  {
    forall j | j != id
      ensures Get(data[id := item], j) == Look(new_, (home(j), j))
    {
    }
  }

  lemma ItemRemoved<V>(old_: Shards<V>, new_: Shards<V>, shard: string, id: string, home: string -> string)
    requires ShardsWithin(old_, home) && new_ == old_[shard := Of(old_, shard) - {id}]
    ensures ShardsWithin(new_, home)
  {
    forall key: Key | Look(new_, key).Some?
      ensures key in HomeKeys(home)
    {
      assert Look(old_, key) == Look(new_, key);
    }
  }

  /** Storing an item, or removing one, keeps the node's own shard stored. */
  lemma StoredStays<V(!new)>(kv: Kv<Key, V>, local: string, items: map<string, V>)
    requires ShardIs(kv, local, items)
    ensures ShardOf(kv.data, local) == items
  {
    EtcdShard(kv, local);
    forall id
      ensures Get(ShardOf(kv.data, local), id) == Get(items, id)
    {
      assert Get(kv.data, (local, id)) == Get(items, id);
    }
    SameContent(ShardOf(kv.data, local), items);
  }

  lemma EtcdShard<V>(kv: Kv<Key, V>, local: string)
    ensures ShardIs(kv, local, ShardOf(kv.data, local))
  {
    forall id
      ensures Get(kv.data, (local, id)) == Get(ShardOf(kv.data, local), id)
    {
      ShardOfLook(kv.data, (local, id));
    }
  }

  /** A node stays on track when it changes its own shard and etcd moves on. */
  lemma LocalChange<V(!new)>(kv: Kv<Key, V>, kv': Kv<Key, V>, m: Member<V>, items: map<string, V>)
    requires MemberConverges(kv, m) && Extends(kv, kv')
    ensures MemberConverges(kv', m.(shards := m.shards[m.local := items]))
  {
    var ts :| kv' == CommitAll(kv, ts);
    ExtendsConverges(kv, ts, m);
  }

  // ---------- a full sync, shard by shard ----------

  ghost predicate SyncedSoFar<V>(middle: Shards<V>, now: Shards<V>, local: string, data: map<Key, V>,
                                 done: set<string>) {
    && now.Keys == middle.Keys + (done - {local})
    && forall k :: k in now ==> now[k] == if k in done && k != local then ShardOf(data, k) else Of(middle, k)
  }

  lemma SyncedOneMore<V>(middle: Shards<V>, now: Shards<V>, now': Shards<V>, local: string, data: map<Key, V>,
                         done: set<string>, k: string)
    requires SyncedSoFar(middle, now, local, data, done) && k != local
    requires now' == now[k := ShardOf(data, k)]
    ensures SyncedSoFar(middle, now', local, data, done + {k})
  {
  }

  lemma SyncedLocal<V>(middle: Shards<V>, now: Shards<V>, local: string, data: map<Key, V>, done: set<string>)
    requires SyncedSoFar(middle, now, local, data, done)
    ensures SyncedSoFar(middle, now, local, data, done + {local})
  {
  }

  lemma SyncedOthers<V>(middle: Shards<V>, now: Shards<V>, local: string, data: map<Key, V>, done: set<string>,
                        k: string)
    requires SyncedSoFar(middle, now, local, data, done) && k !in done
    ensures Of(now, k) == Of(middle, k)
  {
  }

  lemma SyncedIsLoaded<V>(middle: Shards<V>, now: Shards<V>, local: string, data: map<Key, V>)
    requires SyncedSoFar(middle, now, local, data, Present(data)) && local in middle
    ensures now == Loaded(middle, local, data)
  {
  }

  lemma AbsentIsEmpty<V>(data: map<Key, V>, shard: string)
    ensures shard !in Present(data) ==> ShardOf(data, shard) == map[]
  {
  }

  lemma HomedShard<V>(kv: Kv<Key, V>, shard: string, home: string -> string)
    requires Within(kv, HomeKeys(home))
    ensures forall id :: id in ShardOf(kv.data, shard) ==> home(id) == shard
  {
    forall id | id in ShardOf(kv.data, shard)
      ensures home(id) == shard
    {
      assert (shard, id) in kv.data;
    }
  }

  lemma ShardApart<V>(before: Shards<V>, middle: Shards<V>, after: Shards<V>, k: string)
    requires Of(before, k) == Of(middle, k) && OnlyShard(middle, after, k)
    ensures Apart(Flat(before), Flat(middle), Flat(after))
  {
    forall key: Key
      ensures Get(Flat(before), key) == Get(Flat(middle), key) || Get(Flat(middle), key) == Get(Flat(after), key)
    {
      FlatLook(before, key);
      FlatLook(middle, key);
      FlatLook(after, key);
    }
  }

  lemma LoadEnvironment<V(!new)>(kv: Kv<Key, V>, others: seq<seq<Txn<Key, V>>>, local: string, home: string -> string)
    requires Environment(kv, others, local, home)
    ensures Environment(Next(kv, others), Rest(others), local, home)
    ensures Extends(kv, Next(kv, others))
    ensures local in Present(Next(kv, others).data) <==> local in Present(kv.data)
  {
    NextWithin(kv, others, HomeKeys(home));
    NextLeaves(kv, others, LocalKeys(local));
    var kv' := Next(kv, others);
    assert Extends(kv, kv') by { assert kv' == CommitAll(kv, FirstOr(others, [])); }
    forall key | key in kv.data && key.0 == local
      ensures key in kv'.data
    {
      assert key in LocalKeys(local);
    }
    forall key | key in kv'.data && key.0 == local
      ensures key in kv.data
    {
      assert key in LocalKeys(local);
    }
  }

  lemma ExtendsSelf<K(!new), V(!new)>(kv: Kv<K, V>)
    ensures Extends(kv, kv)
  {
    assert CommitAll(kv, []) == kv;
  }

  // ---------- a shard that is not stored ----------

  /** A node starts with nothing over an empty etcd. */
  method StartOverEmptyEtcd<V(==, !new)>(eq: (V, V) -> bool) returns (store: ShardedStore<V>)
    requires Equivalence(eq)
    ensures store.Valid() && store.localShardKey == "here" && (forall id :: store.home(id) == "here")
    ensures fresh(store) && fresh(store.client) && Present(store.client.data) == {}
  {
    var client := new KvServer<Key, V>(map[], [], []);
    store := new ShardedStore<V>(client, "here", eq, (id: string) => "here");
    store.Init(map[]);
    assert Present(client.data) == {} by {
      AllHere(client.View(), (id: string) => "here");
    }
  }

  lemma AllHere<V>(kv: Kv<Key, V>, home: string -> string)
    requires Within(kv, HomeKeys(home)) && ShardIs(kv, "here", map[]) && forall id :: home(id) == "here"
    ensures Present(kv.data) == {}
  {
    forall key: Key
      ensures key !in kv.data
    {
      assert key == (key.0, key.1);
      assert Get(kv.data, ("here", key.1)) == None;
      assert key in kv.data ==> key in HomeKeys(home);
    }
  }

  /** The first Sync of a node whose shard etcd does not know: the node keeps the item, etcd never gets it. */
  method SyncOverEmptyEtcd<V(==, !new)>(item: V, eq: (V, V) -> bool) returns (store: ShardedStore<V>)
    requires Equivalence(eq)
    ensures store.Valid() && store.localShardKey == "here"
    ensures Of(store.shardedData, "here") == map["item" := item] && !store.Stored()
  {
    store := StartOverEmptyEtcd(eq);
    ghost var before, kv := store.shardedData, Next(store.client.View(), store.client.others);
    var items := map["item" := item];
    assert "item" in items && items != map[];
    store.Sync(items);
    LoadedLocal(before["here" := items], "here", kv.data);
  }

  // ---------- an item of another shard ----------

  /** Item "x" belongs to the shard "there", everything else to "here". */
  function HomeOfX(id: string): string {
    if id == "x" then "there" else "here"
  }

  /** The node "here" starts over an etcd in which the shard "there" has item "x". */
  method StartBesideOther<V(==, !new)>(item: V, eq: (V, V) -> bool) returns (store: ShardedStore<V>)
    requires Equivalence(eq)
    ensures store.Valid() && store.localShardKey == "here" && store.home("x") == "there"
    ensures fresh(store) && fresh(store.client) && Look(store.shardedData, ("there", "x")) == Some(item)
  {
    var client := new KvServer<Key, V>(map[("there", "x") := item], [], []);
    assert ("there", "x") in HomeKeys(HomeOfX);
    store := new ShardedStore<V>(client, "here", eq, HomeOfX);
    ghost var kv := Next(client.View(), client.others);
    assert kv.data == client.data;
    store.Init(map[]);
    assert "there"[0] != "here"[0];
    LoadedLook(map["here" := map[]], "here", kv.data, ("there", "x"));
  }

  /** Deleting "x" at the node "here": the flat view loses the item, its shard keeps it. */
  method DeleteOfOtherShard<V(==, !new)>(item: V, eq: (V, V) -> bool) returns (store: ShardedStore<V>)
    requires Equivalence(eq)
    ensures !store.Valid() && store.home("x") == "there"
    ensures Look(store.shardedData, ("there", "x")) == Some(item) && "x" !in store.data
  {
    store := StartBesideOther(item, eq);
    assert "there" != "here";
    store.DeleteItem("x");
  }

  /** Setting "x" at the node "here": both shards hold it. */
  method AddOfOtherShard<V(==, !new)>(item: V, eq: (V, V) -> bool) returns (store: ShardedStore<V>)
    requires Equivalence(eq)
    ensures !store.Valid() && store.home("x") == "there"
    ensures Look(store.shardedData, ("there", "x")) == Some(item) == Look(store.shardedData, ("here", "x"))
  {
    store := StartBesideOther(item, eq);
    assert "there" != "here";
    store.AddOrUpdateItem("x", item);
  }

  // ---------- an item without its shard key ----------

  lemma WrittenByOther<V(!new)>(kv: Kv<Key, V>, item: V, m: Member<V>)
    requires kv == Kv(map[("there", "x") := item], [Put(("there", "x"), item)])
    requires m == Member("here", map["here" := map[]], 0)
    ensures MemberConverges(kv, m)
  {
    var kv0: Kv<Key, V> := Kv(map[], []);
    StartConverges(kv0, "here", map[]);
    assert Loaded(map["here" := map[]], "here", kv0.data) == map["here" := map[]];
    assert CommitAll(kv0, [Create(("there", "x"), item)]) == CommitAll(Commit(kv0, Create(("there", "x"), item)), []);
    assert Extends(kv0, kv);
    StillConverges(kv0, kv, m);
  }

  /** A node that has started over an empty etcd, once the node "there" has stored item "x". */
  method StartBeforeOther<V(==, !new)>(item: V, eq: (V, V) -> bool) returns (store: ShardedStore<V>)
    requires Equivalence(eq)
    ensures store.Valid() && store.localShardKey == "here" && store.home("x") == "there"
      && store.itemToShardKey == map[]
    ensures fresh(store) && store.cursor == 0 && store.client.log == [Put(("there", "x"), item)]
    ensures store.client.data == map[("there", "x") := item]
  {
    var client := new KvServer<Key, V>(map[("there", "x") := item], [Put(("there", "x"), item)], []);
    assert ("there", "x") in HomeKeys(HomeOfX);
    store := new ShardedStore<V>(client, "here", eq, HomeOfX);
    WrittenByOther(client.View(), item, Member("here", map["here" := map[]], 0));
    NothingYet(eq);
  }

  lemma NothingYet<V(!new)>(eq: (V, V) -> bool)
    requires Equivalence(eq)
    ensures var shards: Shards<V> := map["here" := map[]]; Flat(shards) == map[] && Follows(map[], [], Flat(shards), eq)
  {
    var shards: Shards<V> := map["here" := map[]];
    assert Flat(shards) == map[];
    FollowsFromStart<Key, V>(map[], eq);
  }

  /** The watch brings the item; looked up, it is there, but its shard key is empty instead of "there". */
  method HeardWithoutKey<V(==, !new)>(item: V, eq: (V, V) -> bool)
    returns (store: ShardedStore<V>, shardKey: string, found: Option<V>)
    requires Equivalence(eq)
    ensures store.Valid() && store.home("x") == "there" && shardKey == "" && found == Some(item)
  {
    store := StartBeforeOther(item, eq);
    store.HandleWatchEvents(1);
    assert "there"[0] != "here"[0];
    assert Look(store.shardedData, ("there", "x")) == Get(store.client.data, ("there", "x"));
    shardKey, found := store.GetItem("x");
  }
}
