/** Etcd as the replicated stores see it: keyed values, guarded transactions, and a log of watch events. */
module EventLog {
  import opened Basics

  // ---------- transactions ----------

  datatype Event<K, V> = Put(key: K, value: V) | Delete(key: K)

  datatype Kv<K(==), V(==)> = Kv(data: map<K, V>, log: seq<Event<K, V>>)

  datatype Txn<K, V> =
    | Create(key: K, value: V)   // put if the key is absent
    | Change(key: K, value: V)   // put if the key holds another value
    | Remove(key: K)

  /** A value comparison on a missing key is false, also for "not equal". Removing a missing key is no event. */
  predicate Fires<K(==), V(==)>(kv: Kv<K, V>, t: Txn<K, V>) {
    match t
    case Create(k, v) => k !in kv.data
    case Change(k, v) => k in kv.data && kv.data[k] != v
    case Remove(k) => k in kv.data
  }

  function Commit<K(==), V(==)>(kv: Kv<K, V>, t: Txn<K, V>): Kv<K, V> {
    if !Fires(kv, t) then kv
    else if t.Remove? then Kv(kv.data - {t.key}, kv.log + [Delete(t.key)])
    else Kv(kv.data[t.key := t.value], kv.log + [Put(t.key, t.value)])
  }

  function CommitAll<K(==), V(==)>(kv: Kv<K, V>, ts: seq<Txn<K, V>>): Kv<K, V>
    decreases |ts|
  {
    if ts == [] then kv else CommitAll(Commit(kv, ts[0]), ts[1..])
  }

  // ---------- replay ----------

  /** What a replica holds under `key` after the events of `es`, in order. */
  function After<K(==), V>(es: seq<Event<K, V>>, key: K, held: Option<V>): Option<V> {
    if es == [] then held
    else
      var last := es[|es| - 1];
      if last.key != key then After(es[..|es| - 1], key, held)
      else if last.Put? then Some(last.value)
      else None
  }

  /** The events of `log` from `cursor` on turn what is held under `key` into what etcd holds. */
  ghost predicate CatchesUp<K, V>(kv: Kv<K, V>, cursor: nat, key: K, held: Option<V>) {
    cursor <= |kv.log| && After(kv.log[cursor..], key, held) == Get(kv.data, key)
  }

  /** Replaying events that already led to the current content changes nothing: a full read in mid-stream is safe. */
  lemma {:induction false} ReplayTwice<K, V>(es: seq<Event<K, V>>, key: K, held: Option<V>)
    ensures After(es, key, After(es, key, held)) == After(es, key, held)
  {
    if es != [] {
      ReplayTwice(es[..|es| - 1], key, held);
    }
  }

  lemma CommitCatchesUp<K, V>(kv: Kv<K, V>, t: Txn<K, V>, cursor: nat, key: K, held: Option<V>)
    requires CatchesUp(kv, cursor, key, held)
    ensures CatchesUp(Commit(kv, t), cursor, key, held)
  {
    var kv' := Commit(kv, t);
    if Fires(kv, t) {
      var es, es' := kv.log[cursor..], kv'.log[cursor..];
      assert es' == es + [kv'.log[|kv.log|]];
      assert es'[..|es'| - 1] == es;
    }
  }

  lemma {:induction false} CommitsCatchUp<K, V>(kv: Kv<K, V>, ts: seq<Txn<K, V>>, cursor: nat, key: K, held: Option<V>)
    requires CatchesUp(kv, cursor, key, held)
    ensures CatchesUp(CommitAll(kv, ts), cursor, key, held)
    decreases |ts|
  {
    if ts != [] {
      CommitCatchesUp(kv, ts[0], cursor, key, held);
      CommitsCatchUp(Commit(kv, ts[0]), ts[1..], cursor, key, held);
    }
  }

  lemma {:induction false} FirstEvent<K, V>(es: seq<Event<K, V>>, key: K, held: Option<V>)
    requires es != []
    ensures After(es, key, held) == After(es[1..], key, After(es[..1], key, held))
  {
    if |es| == 1 {
      assert es[..1] == es && es[1..] == [];
    } else {
      var init, tail := es[..|es| - 1], es[1..];
      FirstEvent(init, key, held);
      assert init[..1] == es[..1] && init[1..] == tail[..|tail| - 1];
    }
  }

  /** Taking the next event in keeps a replica on track. */
  lemma DeliverCatchesUp<K, V>(kv: Kv<K, V>, cursor: nat, key: K, held: Option<V>)
    requires CatchesUp(kv, cursor, key, held) && cursor < |kv.log|
    ensures CatchesUp(kv, cursor + 1, key, After([kv.log[cursor]], key, held))
  {
    var es := kv.log[cursor..];
    FirstEvent(es, key, held);
    assert es[..1] == [kv.log[cursor]] && es[1..] == kv.log[cursor + 1..];
  }

  /** Reading etcd's content while events are still to come keeps a replica on track. */
  lemma LoadCatchesUp<K, V>(kv: Kv<K, V>, cursor: nat, key: K, held: Option<V>)
    requires CatchesUp(kv, cursor, key, held)
    ensures CatchesUp(kv, cursor, key, Get(kv.data, key))
  {
    ReplayTwice(kv.log[cursor..], key, held);
  }

  lemma DrainedIsEqual<K, V>(kv: Kv<K, V>, key: K, held: Option<V>)
    requires CatchesUp(kv, |kv.log|, key, held)
    ensures held == Get(kv.data, key)
  {
  }

  // ---------- the client of one process ----------

  /** Etcd's content once the transactions that others commit before the next request are in. */
  function Next<K(==), V(==)>(kv: Kv<K, V>, others: seq<seq<Txn<K, V>>>): Kv<K, V> {
    CommitAll(kv, FirstOr(others, []))
  }

  class KvServer<K(==), V(==)> {
    var data: map<K, V>
    var log: seq<Event<K, V>>
    var others: seq<seq<Txn<K, V>>>   // what other processes will commit before each of this one's next requests

    constructor (data: map<K, V>, log: seq<Event<K, V>>, others: seq<seq<Txn<K, V>>>)
      ensures View() == Kv(data, log) && this.others == others
    {
      this.data, this.log, this.others := data, log, others;
    }

    function View(): Kv<K, V>
      reads this
    {
      Kv(data, log)
    }

    method Transact(t: Txn<K, V>) returns (succeeded: bool)
      modifies this
      ensures succeeded == Fires(Next(old(View()), old(others)), t)
      ensures View() == Commit(Next(old(View()), old(others)), t)
      ensures others == Rest(old(others))
    {
      var kv := Next(View(), others);
      succeeded := Fires(kv, t);
      kv := Commit(kv, t);
      data, log, others := kv.data, kv.log, Rest(others);
    }

    method Load() returns (snapshot: map<K, V>)
      modifies this
      ensures View() == Next(old(View()), old(others)) && others == Rest(old(others))
      ensures snapshot == data
    {
      var kv := Next(View(), others);
      data, log, others := kv.data, kv.log, Rest(others);
      snapshot := data;
    }

    /** Two transactions: create the key or else change its value; others may act between the two. */
    method PutIfNewOrChanged(key: K, value: V) returns (wasWritten: bool)
      modifies this
      ensures (View(), others, wasWritten) == PutTwice(old(View()), old(others), key, value)
    {
      wasWritten := Transact(Create(key, value));
      if !wasWritten {
        wasWritten := Transact(Change(key, value));
      }
    }
  }

  function PutTwice<K(==), V(==)>(kv: Kv<K, V>, others: seq<seq<Txn<K, V>>>, key: K, value: V)
    : (Kv<K, V>, seq<seq<Txn<K, V>>>, bool)
  {
    var kv1 := Next(kv, others);
    if Fires(kv1, Create(key, value)) then (Commit(kv1, Create(key, value)), Rest(others), true)
    else
      var kv2 := Next(kv1, Rest(others));
      (Commit(kv2, Change(key, value)), Rest(Rest(others)), Fires(kv2, Change(key, value)))
  }

  /** The value is stored exactly when the key was new, or was still there for the second transaction: a removal by
      somebody else between the two leaves nothing stored and reports nothing written. */
  lemma StoredUnlessRemoved<K, V>(kv: Kv<K, V>, others: seq<seq<Txn<K, V>>>, key: K, value: V)
    ensures var (kv', rest, wasWritten) := PutTwice(kv, others, key, value);
      var kv1 := Next(kv, others); var kv2 := Next(kv1, Rest(others));
      && (Get(kv'.data, key) == Some(value) <==> key !in kv1.data || key in kv2.data)
      && (Get(kv'.data, key) != Some(value) ==> key !in kv'.data && !wasWritten)
  {
  }

  /** A key that somebody removes between the two transactions: nothing is stored, and nothing reported written. */
  lemma RemovedInBetween<K, V>(key: K, before: V, value: V)
    requires before != value
    ensures var (kv', rest, wasWritten) := PutTwice(Kv(map[key := before], [Put(key, before)]), [[], [Remove(key)]],
                                                    key, value);
      key !in kv'.data && !wasWritten
  {
    var kv := Kv(map[key := before], [Put(key, before)]);
    var others := [[], [Remove(key)]];
    assert Next(kv, others) == kv && Rest(others) == [[Remove(key)]];
    assert Next(kv, Rest(others)) == Commit(kv, Remove(key)) by {
      assert CommitAll(kv, [Remove(key)]) == CommitAll(Commit(kv, Remove(key)), []);
    }
  }

  ghost predicate Leaves<K, V>(others: seq<seq<Txn<K, V>>>, keys: iset<K>) {
    forall i, j :: 0 <= i < |others| && 0 <= j < |others[i]| ==> others[i][j].key !in keys
  }

  lemma {:induction false} CommitAllLeaves<K(!new), V>(kv: Kv<K, V>, ts: seq<Txn<K, V>>, keys: iset<K>)
    requires forall j :: 0 <= j < |ts| ==> ts[j].key !in keys
    ensures forall k :: k in keys ==> Get(CommitAll(kv, ts).data, k) == Get(kv.data, k)
    decreases |ts|
  {
    if ts != [] {
      CommitAllLeaves(Commit(kv, ts[0]), ts[1..], keys);
    }
  }

  lemma NextLeaves<K(!new), V>(kv: Kv<K, V>, others: seq<seq<Txn<K, V>>>, keys: iset<K>)
    requires Leaves(others, keys)
    ensures forall k :: k in keys ==> Get(Next(kv, others).data, k) == Get(kv.data, k)
    ensures Leaves(Rest(others), keys)
  {
    CommitAllLeaves(kv, FirstOr(others, []), keys);
  }

  /** With one writer for the key, its value is stored, and an event appears exactly if it was not there already. */
  lemma SingleWriterStores<K(!new), V>(kv: Kv<K, V>, others: seq<seq<Txn<K, V>>>, key: K, value: V, keys: iset<K>)
    requires Leaves(others, keys) && key in keys
    ensures var (kv', rest, wasWritten) := PutTwice(kv, others, key, value);
      && Get(kv'.data, key) == Some(value)
      && (forall k :: k in keys && k != key ==> Get(kv'.data, k) == Get(kv.data, k))
      && (wasWritten <==> Get(kv.data, key) != Some(value))
      && Leaves(rest, keys)
  {
    NextLeaves(kv, others, keys);
    NextLeaves(Next(kv, others), Rest(others), keys);
  }

  // ---------- etcd moving on ----------

  /** Some transactions lead from one content to the other. */
  ghost predicate Extends<K(!new), V(!new)>(kv: Kv<K, V>, kv': Kv<K, V>) {
    exists ts :: kv' == CommitAll(kv, ts)
  }

  lemma {:induction false} CommitAllAppend<K, V>(kv: Kv<K, V>, a: seq<Txn<K, V>>, b: seq<Txn<K, V>>)
    ensures CommitAll(kv, a + b) == CommitAll(CommitAll(kv, a), b)
    decreases |a|
  {
    if a == [] {
      assert a + b == b;
    } else {
      CommitAllAppend(Commit(kv, a[0]), a[1..], b);
      assert (a + b)[0] == a[0] && (a + b)[1..] == a[1..] + b;
    }
  }

  lemma ExtendsOn<K(!new), V(!new)>(kv: Kv<K, V>, kv1: Kv<K, V>, kv2: Kv<K, V>)
    requires Extends(kv, kv1) && Extends(kv1, kv2)
    ensures Extends(kv, kv2)
  {
    var a :| kv1 == CommitAll(kv, a);
    var b :| kv2 == CommitAll(kv1, b);
    CommitAllAppend(kv, a, b);
  }

  lemma TransactExtends<K(!new), V(!new)>(kv: Kv<K, V>, others: seq<seq<Txn<K, V>>>, t: Txn<K, V>)
    ensures Extends(kv, Next(kv, others)) && Extends(kv, Commit(Next(kv, others), t))
  {
    var ts := FirstOr(others, []);
    CommitAllAppend(kv, ts, [t]);
    assert CommitAll(CommitAll(kv, ts), [t]) == Commit(CommitAll(kv, ts), t);
    assert Next(kv, others) == CommitAll(kv, ts) && Commit(Next(kv, others), t) == CommitAll(kv, ts + [t]);
  }

  lemma PutTwiceExtends<K(!new), V(!new)>(kv: Kv<K, V>, others: seq<seq<Txn<K, V>>>, key: K, value: V)
    ensures Extends(kv, PutTwice(kv, others, key, value).0)
  {
    var kv1 := Next(kv, others);
    TransactExtends(kv, others, Create(key, value));
    TransactExtends(kv1, Rest(others), Change(key, value));
    ExtendsOn(kv, kv1, Commit(Next(kv1, Rest(others)), Change(key, value)));
  }

  /** Only keys of `keys` occur. */
  ghost predicate Within<K, V>(kv: Kv<K, V>, keys: iset<K>) {
    && (forall k :: k in kv.data ==> k in keys)
    && (forall i :: 0 <= i < |kv.log| ==> kv.log[i].key in keys)
  }

  ghost predicate OthersWithin<K, V>(others: seq<seq<Txn<K, V>>>, keys: iset<K>) {
    forall i, j :: 0 <= i < |others| && 0 <= j < |others[i]| ==> others[i][j].key in keys
  }

  lemma {:induction false} CommitAllWithin<K, V>(kv: Kv<K, V>, ts: seq<Txn<K, V>>, keys: iset<K>)
    requires Within(kv, keys) && forall j :: 0 <= j < |ts| ==> ts[j].key in keys
    ensures Within(CommitAll(kv, ts), keys)
    decreases |ts|
  {
    if ts != [] {
      CommitAllWithin(Commit(kv, ts[0]), ts[1..], keys);
    }
  }

  lemma NextWithin<K, V>(kv: Kv<K, V>, others: seq<seq<Txn<K, V>>>, keys: iset<K>)
    requires Within(kv, keys) && OthersWithin(others, keys)
    ensures Within(Next(kv, others), keys) && OthersWithin(Rest(others), keys)
  {
    CommitAllWithin(kv, FirstOr(others, []), keys);
  }

  lemma PutTwiceWithin<K, V>(kv: Kv<K, V>, others: seq<seq<Txn<K, V>>>, key: K, value: V, keys: iset<K>)
    requires Within(kv, keys) && OthersWithin(others, keys) && key in keys
    ensures Within(PutTwice(kv, others, key, value).0, keys) && OthersWithin(PutTwice(kv, others, key, value).1, keys)
  {
    NextWithin(kv, others, keys);
    NextWithin(Next(kv, others), Rest(others), keys);
  }
}
