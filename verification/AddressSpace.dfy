/**
 The address space of one node: the class that drives the reservation protocol, proved against the steps of
 SubnetProtocol. Other nodes act between any two of its requests to etcd.
 */
module AddressSpace {
  import opened Basics
  import opened Cidr
  import opened SubnetProtocol
  import opened ClusterSafety

  /** What happens around one request: the transactions other nodes commit before it, and how it goes. */
  datatype Exchange = Exchange(before: seq<Txn>, fault: Fault)

  function First(xs: seq<Exchange>): Exchange {
    FirstOr(xs, Exchange([], Answered))
  }

  datatype Outcome = Reserved(subnet: Prefix) | NoSubnetsLeft | EtcdError | AlreadyExists

  datatype Ending = Ending(node: Node, etcd: Etcd, exchanges: seq<Exchange>, outcome: Outcome)

  /** The whole reservation loop: turns of the protocol until one settles the node. */
  function Drive(n: Node, e: Etcd, xs: seq<Exchange>): Ending
    requires n.flight.Reserving?
    decreases |n.unused|
  {
    if n.unused == [] then Ending(Settle(n), e, xs, NoSubnetsLeft)
    else
      var x := First(xs);
      var (n', e') := Attempt(n, CommitAll(e, x.before), x.fault);
      if n'.flight.Reserving? then Drive(n', e', Rest(xs))
      else Ending(n', e', Rest(xs), if x.fault.Answered? then Reserved(n.unused[0]) else EtcdError)
  }

  /** The etcd cluster as one client sees it. */
  class EtcdServer {
    var owner: map<Prefix, PoolId>
    var log: seq<Event>
    var exchanges: seq<Exchange>   // what will happen around this client's next requests

    constructor (owner: map<Prefix, PoolId>, log: seq<Event>, exchanges: seq<Exchange>)
      ensures View() == Etcd(owner, log) && this.exchanges == exchanges
    {
      this.owner, this.log, this.exchanges := owner, log, exchanges;
    }

    function View(): Etcd
      reads this
    {
      Etcd(owner, log)
    }

    method Transact(t: Txn) returns (answer: Answer, err: bool)
      modifies this
      ensures var x := First(old(exchanges)); var e := CommitAll(old(View()), x.before);
        && answer == Commit(e, t).1
        && err == !x.fault.Answered?
        && View() == (if x.fault.RequestLost? then e else Commit(e, t).0)
      ensures exchanges == Rest(old(exchanges))
    {
      var x := First(exchanges);
      var e := CommitAll(View(), x.before);
      var done := Commit(e, t);
      answer := done.1;
      err := !x.fault.Answered?;
      if !x.fault.RequestLost? {
        e := done.0;
      }
      owner, log, exchanges := e.owner, e.log, Rest(exchanges);
    }
  }

  lemma {:induction false} WithoutTwice(u: seq<Prefix>, a: set<Prefix>, b: set<Prefix>)
    ensures Without(Without(u, a), b) == Without(u, a + b)
  {
    if u != [] {
      WithoutTwice(u[1..], a, b);
      var w := Without(u[1..], a);
      if u[0] in a {
        assert Without(u, a) == w;
      } else {
        assert ([u[0]] + w)[1..] == w;
      }
    }
  }

  method GetUsedSubnets(kvs: seq<(Prefix, PoolId)>, ghost owner: map<Prefix, PoolId>)
    returns (pools: map<PoolId, Prefix>)
    requires Lists(kvs, owner)
    ensures IsSnapshot(pools, owner)
  {
    pools := map[];
    for k := 0 to |kvs|
      invariant forall j :: 0 <= j < k ==> kvs[j].1 in pools
      invariant forall id :: id in pools ==> pools[id] in owner && owner[pools[id]] == id
    {
      pools := pools[kvs[k].1 := kvs[k].0];
    }
  }

  class Space {
    const etcdClient: EtcdServer
    const allSubnets: seq<Prefix>
    var unusedSubnets: seq<Prefix>
    var pools: map<PoolId, Prefix>

    /** The node between two calls, when no reservation loop is under way. */
    function View(): Node
      reads this
    {
      Node(unusedSubnets, pools, Idle)
    }

    constructor (allSubnets: seq<Prefix>, etcdClient: EtcdServer, kvs: seq<(Prefix, PoolId)>)
      requires Lists(kvs, etcdClient.owner)
      ensures IsSnapshot(pools, etcdClient.owner) && View() == Started(allSubnets, pools)
      ensures this.allSubnets == allSubnets && this.etcdClient == etcdClient
    {
      var used := GetUsedSubnets(kvs, etcdClient.owner);
      var unused := allSubnets;
      var rest, filtered: set<Prefix> := used.Keys, {};
      WithoutNothing(allSubnets);
      while rest != {}
        invariant rest <= used.Keys
        invariant filtered == (set id | id in used.Keys - rest :: used[id])
        invariant unused == Without(allSubnets, filtered)
      {
        var id :| id in rest;
        WithoutTwice(allSubnets, filtered, {used[id]});
        unused := Without(unused, {used[id]});
        assert used.Keys - (rest - {id}) == (used.Keys - rest) + {id};
        rest, filtered := rest - {id}, filtered + {used[id]};
      }
      assert filtered == used.Values;
      this.allSubnets, this.etcdClient := allSubnets, etcdClient;
      unusedSubnets, pools := unused, used;
    }

    method GetPoolById(id: PoolId) returns (known: bool, subnet: Prefix)
      ensures known <==> id in pools
      ensures known ==> subnet == pools[id]
    {
      known := id in pools;
      subnet := if known then pools[id] else Prefix(0, 0);
    }

    method GetOrAddPool(id: PoolId) returns (outcome: Outcome, isNewPool: bool)
      modifies this, etcdClient
      ensures id in old(pools) ==>
        outcome == Reserved(old(pools)[id]) && !isNewPool && unchanged(this) && unchanged(etcdClient)
      ensures id !in old(pools) ==>
        && Ending(View(), etcdClient.View(), etcdClient.exchanges, outcome)
            == Drive(Begin(old(View()), id), old(etcdClient.View()), old(etcdClient.exchanges))
        && isNewPool == outcome.Reserved?
      ensures id !in old(pools) ==>
        && (outcome.Reserved? ==>
              && id in pools && pools[id] == outcome.subnet && outcome.subnet in old(unusedSubnets)
              && outcome.subnet in etcdClient.owner && etcdClient.owner[outcome.subnet] == id)
        && (!outcome.Reserved? ==> id !in pools)
        && (outcome.NoSubnetsLeft? ==> unusedSubnets == [])
    {
      if id in pools {
        return Reserved(pools[id]), false;
      }
      DriveResult(Begin(View(), id), etcdClient.View(), etcdClient.exchanges);
      ghost var ending := Drive(Begin(View(), id), etcdClient.View(), etcdClient.exchanges);
      var foundPoolReservations: map<PoolId, Prefix> := map[];
      var done := false;
      outcome := NoSubnetsLeft;
      while !done
        invariant pools == old(pools)
        invariant !done ==> outcome == NoSubnetsLeft
        invariant !done ==>
          Drive(Node(unusedSubnets, pools, Reserving(id, foundPoolReservations)), etcdClient.View(),
                etcdClient.exchanges) == ending
        invariant done ==>
          var added := if outcome.Reserved? then pools[id := outcome.subnet] else pools;
          Ending(Node(unusedSubnets, added + foundPoolReservations, Idle), etcdClient.View(), etcdClient.exchanges,
                 outcome) == ending
        decreases !done, |unusedSubnets|
      {
        if |unusedSubnets| == 0 {
          done := true;
        } else {
          var subnet := unusedSubnets[0];
          var answer, err := etcdClient.Transact(ReserveTxn(subnet, id));
          if err {
            outcome, done := EtcdError, true;
          } else {
            unusedSubnets := unusedSubnets[1..];
            match answer
            case Granted => outcome, done := Reserved(subnet), true;
            case HeldBy(other) => foundPoolReservations := foundPoolReservations[other := subnet];
          }
        }
      }
      if outcome.Reserved? {
        pools := pools[id := outcome.subnet];
      }
      pools := pools + foundPoolReservations;
      isNewPool := outcome.Reserved?;
    }

    method GetNewOrExistingPool(id: PoolId) returns (outcome: Outcome)
      modifies this, etcdClient
      ensures id in old(pools) ==> outcome == Reserved(old(pools)[id]) && unchanged(this) && unchanged(etcdClient)
      ensures id !in old(pools) ==>
        Ending(View(), etcdClient.View(), etcdClient.exchanges, outcome)
          == Drive(Begin(old(View()), id), old(etcdClient.View()), old(etcdClient.exchanges))
      ensures outcome.Reserved? <==> id in pools
      ensures outcome.Reserved? ==> pools[id] == outcome.subnet
    {
      var isNewPool;
      outcome, isNewPool := GetOrAddPool(id);
    }

    /** Every failure of the loop is reported as a pool that already exists. */
    method GetNewPool(id: PoolId) returns (outcome: Outcome)
      modifies this, etcdClient
      ensures id in old(pools) ==> outcome == AlreadyExists && unchanged(this) && unchanged(etcdClient)
      ensures id !in old(pools) ==>
        var ending := Drive(Begin(old(View()), id), old(etcdClient.View()), old(etcdClient.exchanges));
        && View() == ending.node && etcdClient.View() == ending.etcd
        && outcome == if ending.outcome.Reserved? then ending.outcome else AlreadyExists
      ensures outcome.Reserved? <==> id !in old(pools) && id in pools
      ensures outcome.Reserved? ==> pools[id] == outcome.subnet
    {
      var isNewPool;
      outcome, isNewPool := GetOrAddPool(id);
      if !isNewPool {
        outcome := AlreadyExists;
      }
    }

    method ReleasePool(id: PoolId) returns (released: bool)
      modifies this, etcdClient
      ensures id !in old(pools) ==> !released && unchanged(this) && unchanged(etcdClient)
      ensures id in old(pools) ==>
        var x := First(old(etcdClient.exchanges)); var e := CommitAll(old(etcdClient.View()), x.before);
        && (View(), etcdClient.View()) == Free(old(View()), e, id, x.fault)
        && released == (x.fault.Answered? && Commit(e, ReleaseTxn(old(pools)[id], id)).1.Granted?)
      ensures id in old(pools) && First(old(etcdClient.exchanges)).fault.Answered? ==>
        var s, owner := old(pools)[id], etcdClient.owner;
        if released then
          pools == old(pools) - {id} && unusedSubnets == old(unusedSubnets) + [s] && s !in owner
        else
          && s in owner && owner[s] != id
          && pools == (old(pools) - {id})[owner[s] := s] && unusedSubnets == old(unusedSubnets)
      ensures id in old(pools) && !First(old(etcdClient.exchanges)).fault.Answered? ==>
        !released && pools == old(pools) - {id} && unusedSubnets == old(unusedSubnets)
    {
      if id !in pools {
        return false;
      }
      var subnet := pools[id];
      pools := pools - {id};
      var answer, err := etcdClient.Transact(ReleaseTxn(subnet, id));
      if err {
        return false;
      }
      match answer
      case Granted =>
        unusedSubnets := unusedSubnets + [subnet];
        released := true;
      case HeldBy(other) =>
        pools := pools[other := subnet];
        released := false;
    }

    method HandleEvents(events: seq<Event>)
      modifies this
      ensures View() == DeliverAll(old(View()), events)
      ensures forall id :: id in old(pools) && id != "" ==> id in pools && pools[id] == old(pools)[id]
      ensures forall k :: 0 <= k < |events| && events[k].Put? && events[k].owner != "" ==> events[k].owner in pools
      ensures |events| == 1 && events[0].Put? ==>
        var id, s := events[0].owner, events[0].subnet;
        if id in old(pools) then pools == old(pools) && unusedSubnets == old(unusedSubnets)
        else
          && pools == old(pools)[id := s]
          && forall t :: t in unusedSubnets <==> t in old(unusedSubnets) && t != s
      ensures |events| == 1 && events[0].Delete? ==>
        if "" in old(pools) then pools == old(pools) - {""} && unusedSubnets == old(unusedSubnets) + [events[0].subnet]
        else pools == old(pools) && unusedSubnets == old(unusedSubnets)
    {
      ghost var before := View();
      DeliverAllKnows(before, events);
      if |events| == 1 && events[0].Put? {
        DeliverPut(before, events[0].subnet, events[0].owner);
      }
      if |events| == 1 {
        assert DeliverAll(before, events) == Deliver(before, events[0]);
      }
      for k := 0 to |events|
        invariant DeliverAll(View(), events[k..]) == DeliverAll(old(View()), events)
      {
        assert events[k..][1..] == events[k + 1..];
        match events[k]
        case Put(subnet, id) =>
          if id !in pools {
            pools := pools[id := subnet];
            unusedSubnets := Without(unusedSubnets, {subnet});
          }
        case Delete(subnet) =>
          if "" in pools {
            pools := pools - {""};
            unusedSubnets := unusedSubnets + [subnet];
          }
      }
    }
  }

  /** After any events a node knows the pools it knew, on the same subnets, and those of the claims it heard of. */
  lemma {:induction false} DeliverAllKnows(n: Node, events: seq<Event>)
    ensures var n' := DeliverAll(n, events);
      && (forall id :: id in n.pools && id != "" ==> id in n'.pools && n'.pools[id] == n.pools[id])
      && (forall k :: 0 <= k < |events| && events[k].Put? && events[k].owner != "" ==> events[k].owner in n'.pools)
    decreases |events|
  {
    if events != [] {
      DeliverAllKnows(Deliver(n, events[0]), events[1..]);
      assert events == [events[0]] + events[1..];
    }
  }

  /** The loop succeeds exactly when the node maps the pool afterwards; the subnet is then the pool's in etcd,
      whatever other nodes did meanwhile. It reports exhaustion only with an empty list, and takes subnets off
      the list in order. */
  lemma {:induction false} DriveResult(n: Node, e: Etcd, xs: seq<Exchange>)
    requires n.flight.Reserving? && n.flight.id !in n.pools && n.flight.id !in n.flight.found
    ensures var end := Drive(n, e, xs);
      && !end.outcome.AlreadyExists?
      && (end.outcome.Reserved? <==> n.flight.id in end.node.pools)
      && (end.outcome.Reserved? ==>
            && end.node.pools[n.flight.id] == end.outcome.subnet
            && end.outcome.subnet in n.unused
            && end.outcome.subnet in end.etcd.owner && end.etcd.owner[end.outcome.subnet] == n.flight.id)
      && (end.outcome.NoSubnetsLeft? ==> end.node.unused == [])
      && |end.node.unused| <= |n.unused| && end.node.unused == n.unused[|n.unused| - |end.node.unused|..]
    decreases |n.unused|
  {
    if n.unused != [] {
      var x := First(xs);
      var (n', e') := Attempt(n, CommitAll(e, x.before), x.fault);
      if n'.flight.Reserving? {
        DriveResult(n', e', Rest(xs));
      }
    }
  }

  /** What other nodes' steps commit to etcd: nothing, or one transaction. */
  ghost function TxnsOf(c: Cluster, step: Step): seq<Txn>
    requires Enabled(c, step)
  {
    match step
    case Turn(j, fault) =>
      if c.nodes[j].unused == [] || fault.RequestLost? then []
      else [ReserveTxn(c.nodes[j].unused[0], c.nodes[j].flight.id)]
    case Release(j, id, fault) =>
      if fault.RequestLost? then [] else [ReleaseTxn(c.nodes[j].pools[id], id)]
    case _ => []
  }

  /** Whatever another node does, etcd only sees the transactions it commits, and this node does not change. */
  lemma OthersAreTransactions(all: seq<Prefix>, c: Cluster, step: Step, i: nat)
    requires Enabled(c, step) && Up(c, i)
    requires step.i == i ==> step.Miss?
    ensures var c' := Apply(all, c, step);
      c'.etcd == CommitAll(c.etcd, TxnsOf(c, step)) && Up(c', i) && c'.nodes[i] == c.nodes[i]
  {
    var ts := TxnsOf(c, step);
    if ts != [] {
      assert CommitAll(c.etcd, ts) == Commit(c.etcd, ts[0]).0;
    }
  }

  /** What happens around the requests of node `i` in a segment of a run: the faults of its own turns, and before each
      of them exactly the transactions that the steps of the others committed. */
  ghost function ExchangesOf(all: seq<Prefix>, states: seq<Cluster>, steps: seq<Step>, i: nat): seq<Exchange>
    requires Segment(all, states, steps)
    decreases |steps|
  {
    if steps == [] then []
    else
      var later := ExchangesOf(all, states[1..], steps[1..], i);
      if steps[0].Turn? && steps[0].i == i then [Exchange([], steps[0].fault)] + later
      else [Exchange(TxnsOf(states[0], steps[0]) + First(later).before, First(later).fault)] + Rest(later)
  }

  /** Etcd once what the others commit before a request that is not made any more is in. */
  function EtcdAfter(end: Ending): Etcd {
    CommitAll(end.etcd, First(end.exchanges).before)
  }

  /** The loop only sees etcd through its first request. */
  lemma SameFirstRequest(n: Node, e: Etcd, xs: seq<Exchange>, e': Etcd, ys: seq<Exchange>)
    requires n.flight.Reserving? && n.unused != []
    requires CommitAll(e, First(xs).before) == CommitAll(e', First(ys).before)
    requires First(xs).fault == First(ys).fault && Rest(xs) == Rest(ys)
    ensures Drive(n, e, xs) == Drive(n, e', ys)
  {
  }

  /** Transactions of others may be counted before the loop or before its first request. */
  lemma CountedBefore(n: Node, e: Etcd, ts: seq<Txn>, later: seq<Exchange>)
    requires n.flight.Reserving?
    ensures var end, end' := Drive(n, e, [Exchange(ts + First(later).before, First(later).fault)] + Rest(later)),
        Drive(n, CommitAll(e, ts), later);
      end.node == end'.node && EtcdAfter(end) == EtcdAfter(end')
  {
    var x := Exchange(ts + First(later).before, First(later).fault);
    var xs := [x] + Rest(later);
    CommitAllAppend(e, ts, First(later).before);
    assert First(xs) == x && Rest(xs) == Rest(later);
    if n.unused != [] {
      SameFirstRequest(n, e, xs, CommitAll(e, ts), later);
    } else {
      assert Drive(n, e, xs) == Ending(Settle(n), e, xs, NoSubnetsLeft);
    }
  }

  lemma OwnTurn(n: Node, e: Etcd, fault: Fault, later: seq<Exchange>)
    requires n.flight.Reserving? && n.unused != []
    ensures var (n', e') := Attempt(n, e, fault); var end := Drive(n, e, [Exchange([], fault)] + later);
      if n'.flight.Reserving? then end == Drive(n', e', later)
      else end.node == n' && end.etcd == e' && end.exchanges == later
  {
    assert Rest([Exchange([], fault)] + later) == later;
  }

  /** In every run of the cluster, a reservation loop that starts at the first state of a segment and ends at its
      last, with anything the other nodes do in between, leaves the node and etcd exactly as the loop computes. */
  lemma {:induction false} LoopInRunIsDrive(all: seq<Prefix>, states: seq<Cluster>, steps: seq<Step>, i: nat)
    requires Segment(all, states, steps) && |steps| > 0
    requires Up(states[0], i)
    requires forall k :: 0 <= k < |steps| ==> !(steps[k].Start? && steps[k].i == i)
    requires forall k :: 0 <= k < |steps| && i in states[k].nodes ==> states[k].nodes[i].flight.Reserving?
    requires i in states[|steps|].nodes && states[|steps|].nodes[i].flight.Idle?
    ensures var end := Drive(states[0].nodes[i], states[0].etcd, ExchangesOf(all, states, steps, i));
      end.node == states[|steps|].nodes[i] && EtcdAfter(end) == states[|steps|].etcd
    decreases |steps|
  {
    var n, e := states[0].nodes[i], states[0].etcd;
    assert states[1] == Apply(all, states[0], steps[0]);
    var later := ExchangesOf(all, states[1..], steps[1..], i);
    if steps[0].Turn? && steps[0].i == i {
      if n.unused != [] {
        OwnTurn(n, e, steps[0].fault, later);
      }
      if |steps| > 1 {
        LoopInRunIsDrive(all, states[1..], steps[1..], i);
      }
    } else {
      OthersAreTransactions(all, states[0], steps[0], i);
      assert |steps| > 1;
      LoopInRunIsDrive(all, states[1..], steps[1..], i);
      CountedBefore(n, e, TxnsOf(states[0], steps[0]), later);
    }
  }

  lemma {:induction false} CommitAllAppend(e: Etcd, a: seq<Txn>, b: seq<Txn>)
    ensures CommitAll(e, a + b) == CommitAll(CommitAll(e, a), b)
    decreases |a|
  {
    if a == [] {
      assert a + b == b;
    } else {
      CommitAllAppend(Commit(e, a[0]).0, a[1..], b);
      assert (a + b)[0] == a[0] && (a + b)[1..] == a[1..] + b;
    }
  }

  // ---------- a release that is granted ----------

  /** A subnet that was released is to be had again: the next undisturbed request for a pool that owns nothing on the
      node's list succeeds. */
  lemma ReleasedIsUsable(n: Node, e: Etcd, id: PoolId, next: PoolId)
    requires id in n.pools && Commit(e, ReleaseTxn(n.pools[id], id)).1.Granted?
    requires var n' := Free(n, e, id, Answered).0; next !in n'.pools
    requires forall s :: s in n.unused && s in e.owner ==> e.owner[s] != next
    ensures var (n', e') := Free(n, e, id, Answered);
      var end := Drive(Begin(n', next), e', []);
      end.outcome.Reserved? && next in end.node.pools
  {
    var (n', e') := Free(n, e, id, Answered);
    var s := n.pools[id];
    assert s in n'.unused && s !in e'.owner by { assert n'.unused[|n.unused|] == s; }
    assert SomeFree(n'.unused, e'.owner);
    forall t | t in n'.unused && t in e'.owner
      ensures e'.owner[t] != next
    {
    }
    DriveAlone(Begin(n', next), e');
    DriveResult(Begin(n', next), e', []);
  }

  // ---------- a release whose request is lost ----------

  ghost predicate SomeFree(unused: seq<Prefix>, owner: map<Prefix, PoolId>) {
    exists s :: s in unused && s !in owner
  }

  /** Undisturbed, the loop of a pool that owns nothing on the list succeeds exactly if something on it is free. */
  lemma {:induction false} DriveAlone(n: Node, e: Etcd)
    requires n.flight.Reserving?
    requires forall s :: s in n.unused && s in e.owner ==> e.owner[s] != n.flight.id
    ensures var end := Drive(n, e, []);
      && (end.outcome.Reserved? <==> SomeFree(n.unused, e.owner))
      && (end.outcome.Reserved? ==>
            && end.outcome.subnet in n.unused && end.outcome.subnet !in e.owner
            && end.etcd.owner == e.owner[end.outcome.subnet := n.flight.id])
      && (!end.outcome.Reserved? ==> end.etcd.owner == e.owner)
    decreases |n.unused|
  {
    if n.unused != [] {
      var s := n.unused[0];
      assert n.unused == [s] + n.unused[1..];
      var (n', e') := Attempt(n, e, Answered);
      if s in e.owner {
        assert n'.flight.Reserving? && e' == e;
        DriveAlone(n', e);
      } else {
        assert SomeFree(n.unused, e.owner);
      }
    }
  }

  /** Exactly when a lost release breaks "one subnet a pool": from any agreed state, a release whose request is lost,
      followed by a new, undisturbed request of the same pool, gives it a second subnet if and only if some subnet on
      the node's list is free in etcd. */
  lemma LostReleaseExactly(all: seq<Prefix>, c: Cluster, i: nat, id: PoolId)
    requires NoRepeats(all) && Agreed(all, c) && Enabled(c, Release(i, id, RequestLost)) && id !in c.released
    ensures var n := c.nodes[i];
      var end := Drive(Begin(Free(n, c.etcd, id, RequestLost).0, id), c.etcd, []);
      !OwnsAtMostOne(end.etcd.owner, id) <==> SomeFree(n.unused, c.etcd.owner)
  {
    var n, owner := c.nodes[i], c.etcd.owner;
    var asked := Begin(Free(n, c.etcd, id, RequestLost).0, id);
    assert NodeAgrees(all, owner, c.released, n);
    forall s | s in n.unused && s in owner
      ensures owner[s] != id
    {
      assert owner[n.pools[id]] == id;
    }
    DriveAlone(asked, c.etcd);
    var end := Drive(asked, c.etcd, []);
    if end.outcome.Reserved? {
      assert n.pools[id] in end.etcd.owner && end.etcd.owner[n.pools[id]] == id;
      assert end.etcd.owner[end.outcome.subnet] == id && end.outcome.subnet != n.pools[id];
    } else {
      assert OwnsAtMostOne(owner, id);
    }
  }
}
