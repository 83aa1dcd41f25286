/**
 The sharded store as steps on values: every node writes its own shard to etcd, keeps all shards in memory, hears of
 the others through a log of events, and may read everything again at any time.
 */
module ShardedReplication {
  import opened Basics
  import opened EventLog

  type Key = (string, string)   // shard, item

  type Shards<V> = map<string, map<string, V>>

  function Of<V>(shards: Shards<V>, shard: string): map<string, V> {
    if shard in shards then shards[shard] else map[]
  }

  function Look<V>(shards: Shards<V>, key: Key): Option<V> {
    Get(Of(shards, key.0), key.1)
  }

  // ---------- what one node does ----------

  datatype Member<V> = Member(local: string, shards: Shards<V>, cursor: nat)

  /** One shard of what etcd returns. */
  function ShardOf<V>(data: map<Key, V>, shard: string): map<string, V> {
    map key | key in data && key.0 == shard :: key.1 := data[key]
  }

  function Present<V>(data: map<Key, V>): set<string> {
    set key | key in data :: key.0
  }

  /** A full read replaces the other nodes' shards that etcd has; shards etcd does not have stay as they were. */
  function Loaded<V>(shards: Shards<V>, local: string, data: map<Key, V>): Shards<V> {
    map k | k in shards.Keys + (Present(data) - {local}) ::
      if k != local && k in Present(data) then ShardOf(data, k) else Of(shards, k)
  }

  function Took<V>(shards: Shards<V>, local: string, ev: Event<Key, V>): Shards<V> {
    if ev.key.0 == local then shards
    else
      match ev
      case Put((k, id), v) => shards[k := Of(shards, k)[id := v]]
      case Delete((k, id)) => if k in shards then shards[k := shards[k] - {id}] else shards
  }

  // ---------- the cluster ----------

  datatype World<V(==)> = World(kv: Kv<Key, V>, members: map<nat, Member<V>>)

  datatype Step<V> =
    | Start(i: nat, local: string, items: map<string, V>)   // a node reads etcd and starts its watch
    | Write(t: Txn<Key, V>)                                 // some node's transaction
    | SetLocal(i: nat, items: map<string, V>)               // a node changes its own shard in memory
    | Load(i: nat)                                          // the read of a full sync, at any time
    | Deliver(i: nat)                                       // the next event reaches a node

  predicate Enabled<V>(w: World<V>, step: Step<V>) {
    match step
    case Start(_, _, _) => true
    case Write(_) => true
    case SetLocal(i, _) => i in w.members
    case Load(i) => i in w.members
    case Deliver(i) => i in w.members && w.members[i].cursor < |w.kv.log|
  }

  function Apply<V(==)>(w: World<V>, step: Step<V>): World<V>
    requires Enabled(w, step)
  {
    match step
    case Start(i, local, items) =>
      w.(members := w.members[i := Member(local, Loaded(map[local := items], local, w.kv.data), |w.kv.log|)])
    case Write(t) =>
      w.(kv := Commit(w.kv, t))
    case SetLocal(i, items) =>
      var m := w.members[i];
      w.(members := w.members[i := m.(shards := m.shards[m.local := items])])
    case Load(i) =>
      var m := w.members[i];
      w.(members := w.members[i := m.(shards := Loaded(m.shards, m.local, w.kv.data))])
    case Deliver(i) =>
      var m := w.members[i];
      w.(members := w.members[i := m.(shards := Took(m.shards, m.local, w.kv.log[m.cursor]), cursor := m.cursor + 1)])
  }

  ghost predicate Run<V>(worlds: seq<World<V>>, steps: seq<Step<V>>) {
    && |worlds| == |steps| + 1
    && worlds[0] == World(Kv(map[], []), map[])
    && forall k :: 0 <= k < |steps| ==> Enabled(worlds[k], steps[k]) && worlds[k + 1] == Apply(worlds[k], steps[k])
  }

  // ---------- convergence ----------

  /** The events a node has still to handle turn its copy of every other shard into etcd's content. */
  ghost predicate MemberConverges<V>(kv: Kv<Key, V>, m: Member<V>) {
    && m.cursor <= |kv.log|
    && forall key: Key :: key.0 != m.local ==> CatchesUp(kv, m.cursor, key, Look(m.shards, key))
  }

  ghost predicate Converges<V>(w: World<V>) {
    forall i :: i in w.members ==> MemberConverges(w.kv, w.members[i])
  }

  lemma LoadedLook<V>(shards: Shards<V>, local: string, data: map<Key, V>, key: Key)
    ensures Look(Loaded(shards, local, data), key)
      == if key.0 != local && key.0 in Present(data) then Get(data, key) else Look(shards, key)
  {
    if key.0 != local && key.0 in Present(data) {
      ShardOfLook(data, key);
    }
  }

  lemma ShardOfLook<V>(data: map<Key, V>, key: Key)
    ensures Get(ShardOf(data, key.0), key.1) == Get(data, key)
  {
    assert key == (key.0, key.1);
    if key in data {
      assert key.1 in ShardOf(data, key.0);
    }
  }

  lemma AbsentShard<V>(data: map<Key, V>, key: Key)
    requires key.0 !in Present(data)
    ensures Get(data, key) == None
  {
  }

  lemma LoadConverges<V>(kv: Kv<Key, V>, m: Member<V>)
    requires MemberConverges(kv, m)
    ensures MemberConverges(kv, m.(shards := Loaded(m.shards, m.local, kv.data)))
  {
    forall key: Key | key.0 != m.local
      ensures CatchesUp(kv, m.cursor, key, Look(Loaded(m.shards, m.local, kv.data), key))
    {
      LoadedLook(m.shards, m.local, kv.data, key);
      LoadCatchesUp(kv, m.cursor, key, Look(m.shards, key));
    }
  }

  lemma StartConverges<V>(kv: Kv<Key, V>, local: string, items: map<string, V>)
    ensures MemberConverges(kv, Member(local, Loaded(map[local := items], local, kv.data), |kv.log|))
  {
    forall key: Key | key.0 != local
      ensures CatchesUp(kv, |kv.log|, key, Look(Loaded(map[local := items], local, kv.data), key))
    {
      LoadedLook(map[local := items], local, kv.data, key);
      if key.0 !in Present(kv.data) {
        AbsentShard(kv.data, key);
      }
      assert kv.log[|kv.log|..] == [];
    }
  }

  lemma TookLook<V>(shards: Shards<V>, local: string, ev: Event<Key, V>, key: Key)
    requires key.0 != local
    ensures Look(Took(shards, local, ev), key) == After([ev], key, Look(shards, key))
  {
    assert [ev][..0] == [];
  }

  lemma DeliverConverges<V>(kv: Kv<Key, V>, m: Member<V>)
    requires MemberConverges(kv, m) && m.cursor < |kv.log|
    ensures MemberConverges(kv, m.(shards := Took(m.shards, m.local, kv.log[m.cursor]), cursor := m.cursor + 1))
  {
    forall key: Key | key.0 != m.local
      ensures CatchesUp(kv, m.cursor + 1, key, Look(Took(m.shards, m.local, kv.log[m.cursor]), key))
    {
      DeliverCatchesUp(kv, m.cursor, key, Look(m.shards, key));
      TookLook(m.shards, m.local, kv.log[m.cursor], key);
    }
  }

  lemma WriteConverges<V>(kv: Kv<Key, V>, t: Txn<Key, V>, m: Member<V>)
    requires MemberConverges(kv, m)
    ensures MemberConverges(Commit(kv, t), m)
  {
    forall key: Key | key.0 != m.local
      ensures CatchesUp(Commit(kv, t), m.cursor, key, Look(m.shards, key))
    {
      CommitCatchesUp(kv, t, m.cursor, key, Look(m.shards, key));
    }
  }

  lemma StepConverges<V>(w: World<V>, step: Step<V>)
    requires Converges(w) && Enabled(w, step)
    ensures Converges(Apply(w, step))
  {
    match step
    case Start(i, local, items) => StartConverges(w.kv, local, items);
    case Write(t) =>
      forall i | i in w.members
        ensures MemberConverges(Commit(w.kv, t), w.members[i])
      {
        WriteConverges(w.kv, t, w.members[i]);
      }
    case SetLocal(i, items) => assert MemberConverges(w.kv, w.members[i]);
    case Load(i) => LoadConverges(w.kv, w.members[i]);
    case Deliver(i) => DeliverConverges(w.kv, w.members[i]);
  }

  /** In every run, with any node writing anything at any time and full reads in mid-stream: for every node and every
      shard of another node, the events still to come turn the copy in memory into exactly etcd's content. */
  lemma {:induction false} RunConverges<V>(worlds: seq<World<V>>, steps: seq<Step<V>>, k: nat)
    requires Run(worlds, steps) && k < |worlds|
    ensures Converges(worlds[k])
  {
    if k > 0 {
      RunConverges(worlds, steps, k - 1);
      StepConverges(worlds[k - 1], steps[k - 1]);
    }
  }

  /** In every run, a node that has handled all events holds exactly etcd's content of every other node's shard, and
      any two such nodes agree. */
  lemma DrainedNodesAgree<V>(worlds: seq<World<V>>, steps: seq<Step<V>>, k: nat, i: nat, j: nat, key: Key)
    requires Run(worlds, steps) && k < |worlds|
    requires i in worlds[k].members && j in worlds[k].members
    requires worlds[k].members[i].cursor == worlds[k].members[j].cursor == |worlds[k].kv.log|
    requires key.0 != worlds[k].members[i].local && key.0 != worlds[k].members[j].local
    ensures Look(worlds[k].members[i].shards, key) == Get(worlds[k].kv.data, key)
      == Look(worlds[k].members[j].shards, key)
  {
    RunConverges(worlds, steps, k);
    assert MemberConverges(worlds[k].kv, worlds[k].members[i]);
    assert MemberConverges(worlds[k].kv, worlds[k].members[j]);
  }

  /** The node's own shard is what etcd has of it. */
  ghost predicate LocalIsStored<V>(kv: Kv<Key, V>, m: Member<V>) {
    forall id :: Get(kv.data, (m.local, id)) == Get(Of(m.shards, m.local), id)
  }

  /** In every run, once a node's own shard is stored every other node that has handled all events holds that shard. */
  lemma DrainedNodesFollowOwner<V>(worlds: seq<World<V>>, steps: seq<Step<V>>, k: nat, i: nat, j: nat)
    requires Run(worlds, steps) && k < |worlds|
    requires i in worlds[k].members && j in worlds[k].members
    requires worlds[k].members[j].cursor == |worlds[k].kv.log|
    requires worlds[k].members[i].local != worlds[k].members[j].local
    requires LocalIsStored(worlds[k].kv, worlds[k].members[i])
    ensures var local := worlds[k].members[i].local;
      Of(worlds[k].members[j].shards, local) == Of(worlds[k].members[i].shards, local)
  {
    var kv, mi, mj := worlds[k].kv, worlds[k].members[i], worlds[k].members[j];
    RunConverges(worlds, steps, k);
    forall id
      ensures Get(Of(mj.shards, mi.local), id) == Get(Of(mi.shards, mi.local), id)
    {
      assert CatchesUp(kv, mj.cursor, (mi.local, id), Look(mj.shards, (mi.local, id)));
      assert Get(kv.data, (mi.local, id)) == Get(Of(mi.shards, mi.local), id);
    }
    SameContent(Of(mj.shards, mi.local), Of(mi.shards, mi.local));
  }
}
