/**
 The cluster-wide subnet reservation protocol as steps on values: the etcd transactions, what one node
 does with each answer and each watch event, and the runs of any number of nodes over one etcd.
 */
module SubnetProtocol {
  import opened Basics
  import opened Cidr

  type PoolId = string

  // ---------- etcd ----------

  /** A watch event. A deletion carries no value: the watch does not ask for previous values. */
  datatype Event = Put(subnet: Prefix, owner: PoolId) | Delete(subnet: Prefix)

  datatype Etcd = Etcd(owner: map<Prefix, PoolId>, log: seq<Event>)

  /** What a lease transaction reports: success, or the pool that holds the subnet. */
  datatype Answer = Granted | HeldBy(owner: PoolId)

  datatype Txn = ReserveTxn(subnet: Prefix, id: PoolId) | ReleaseTxn(subnet: Prefix, id: PoolId)

  function Commit(e: Etcd, t: Txn): (Etcd, Answer) {
    match t
    case ReserveTxn(s, id) =>
      if s !in e.owner then (Etcd(e.owner[s := id], e.log + [Put(s, id)]), Granted)
      else if e.owner[s] == id then (e, Granted)
      else (e, HeldBy(e.owner[s]))
    case ReleaseTxn(s, id) =>
      if s !in e.owner then (e, Granted)
      else if e.owner[s] == id then (Etcd(e.owner - {s}, e.log + [Delete(s)]), Granted)
      else (e, HeldBy(e.owner[s]))
  }

  function CommitAll(e: Etcd, ts: seq<Txn>): Etcd
    decreases |ts|
  {
    if ts == [] then e else CommitAll(Commit(e, ts[0]).0, ts[1..])
  }

  // ---------- one node ----------

  /** The reservation loop holds the node's lock between two of its transactions. */
  datatype Flight = Idle | Reserving(id: PoolId, found: map<PoolId, Prefix>)

  datatype Node = Node(unused: seq<Prefix>, pools: map<PoolId, Prefix>, flight: Flight)

  function Without(subnets: seq<Prefix>, used: set<Prefix>): seq<Prefix> {
    if subnets == [] then []
    else (if subnets[0] in used then [] else [subnets[0]]) + Without(subnets[1..], used)
  }

  /** The node starts from a snapshot of etcd. */
  function Started(all: seq<Prefix>, pools: map<PoolId, Prefix>): Node {
    Node(Without(all, pools.Values), pools, Idle)
  }

  function Begin(n: Node, id: PoolId): Node {
    if id in n.pools then n else n.(flight := Reserving(id, map[]))
  }

  /** The loop ends: whatever reservations of others it met are recorded, with or without an error. */
  function Settle(n: Node): Node
    requires n.flight.Reserving?
  {
    Node(n.unused, n.pools + n.flight.found, Idle)
  }

  /** One turn of the reservation loop. */
  function Attempt(n: Node, e: Etcd, fault: Fault): (r: (Node, Etcd))
    requires n.flight.Reserving?
    ensures r.0.flight.Idle? || |r.0.unused| < |n.unused|
  {
    if n.unused == [] then (Settle(n), e)
    else
      var s := n.unused[0];
      var (e', answer) := Commit(e, ReserveTxn(s, n.flight.id));
      match fault
      case RequestLost => (Settle(n), e)
      case AnswerLost => (Settle(n), e')
      case Answered =>
        match answer
        case Granted => (Settle(n.(unused := n.unused[1..], pools := n.pools[n.flight.id := s])), e')
        case HeldBy(other) => (n.(unused := n.unused[1..], flight := n.flight.(found := n.flight.found[other := s])),
                               e')
  }

  /** ReleasePool for a pool this node knows. */
  function Free(n: Node, e: Etcd, id: PoolId, fault: Fault): (Node, Etcd)
    requires id in n.pools
  {
    var s := n.pools[id];
    var forgotten := n.(pools := n.pools - {id});
    var (e', answer) := Commit(e, ReleaseTxn(s, id));
    match fault
    case RequestLost => (forgotten, e)
    case AnswerLost => (forgotten, e')
    case Answered =>
      match answer
      case Granted => (forgotten.(unused := n.unused + [s]), e')
      case HeldBy(other) => (forgotten.(pools := forgotten.pools[other := s]), e')
  }

  /** The watch handler. For a deletion it looks up the empty value the event carries. */
  function Deliver(n: Node, ev: Event): Node {
    match ev
    case Put(s, id) =>
      if id in n.pools then n
      else n.(pools := n.pools[id := s], unused := Without(n.unused, {s}))
    case Delete(s) =>
      if "" in n.pools then n.(pools := n.pools - {""}, unused := n.unused + [s]) else n
  }

  function DeliverAll(n: Node, events: seq<Event>): Node
    decreases |events|
  {
    if events == [] then n else DeliverAll(Deliver(n, events[0]), events[1..])
  }

  // ---------- the cluster ----------

  datatype Cluster = Cluster(
    etcd: Etcd,
    nodes: map<nat, Node>,
    cursors: map<nat, nat>,        // how far each node has read the event log
    released: set<PoolId>)         // pools whose release some node has begun

  const EMPTY_CLUSTER := Cluster(Etcd(map[], []), map[], map[], {})

  datatype Step =
    | Start(i: nat, snapshot: map<PoolId, Prefix>)   // a node joins, or restarts after a crash at any point
    | Request(i: nat, id: PoolId)                    // a node enters the reservation loop
    | Turn(i: nat, fault: Fault)                     // ... and takes one turn of it
    | Release(i: nat, id: PoolId, fault: Fault)
    | Watch(i: nat)                                  // the next event reaches a node
    | Miss(i: nat)                                   // ... or is lost

  /** A map from pool to subnet read off etcd; if a pool owned several subnets any one may be kept. */
  ghost predicate IsSnapshot(pools: map<PoolId, Prefix>, owner: map<Prefix, PoolId>) {
    && (forall s :: s in owner ==> owner[s] in pools)
    && (forall id :: id in pools ==> pools[id] in owner && owner[pools[id]] == id)
  }

  predicate Up(c: Cluster, i: nat) {
    i in c.nodes && i in c.cursors
  }

  ghost predicate Enabled(c: Cluster, step: Step) {
    match step
    case Start(i, snapshot) => IsSnapshot(snapshot, c.etcd.owner)
    case Request(i, id) => Up(c, i) && c.nodes[i].flight.Idle? && id != "" && id !in c.nodes[i].pools
    case Turn(i, _) => Up(c, i) && c.nodes[i].flight.Reserving?
    case Release(i, id, _) => Up(c, i) && c.nodes[i].flight.Idle? && id in c.nodes[i].pools
    case Watch(i) => Up(c, i) && c.nodes[i].flight.Idle? && c.cursors[i] < |c.etcd.log|
    case Miss(i) => Up(c, i) && c.cursors[i] < |c.etcd.log|
  }

  ghost function Apply(all: seq<Prefix>, c: Cluster, step: Step): Cluster
    requires Enabled(c, step)
  {
    match step
    case Start(i, snapshot) =>
      c.(nodes := c.nodes[i := Started(all, snapshot)], cursors := c.cursors[i := |c.etcd.log|])
    case Request(i, id) =>
      c.(nodes := c.nodes[i := Begin(c.nodes[i], id)])
    case Turn(i, fault) =>
      var (n, e) := Attempt(c.nodes[i], c.etcd, fault);
      c.(nodes := c.nodes[i := n], etcd := e)
    case Release(i, id, fault) =>
      var (n, e) := Free(c.nodes[i], c.etcd, id, fault);
      c.(nodes := c.nodes[i := n], etcd := e, released := c.released + {id})
    case Watch(i) =>
      c.(nodes := c.nodes[i := Deliver(c.nodes[i], c.etcd.log[c.cursors[i]])],
         cursors := c.cursors[i := c.cursors[i] + 1])
    case Miss(i) =>
      c.(cursors := c.cursors[i := c.cursors[i] + 1])
  }

  /** The successive states of a piece of a run. */
  ghost predicate Segment(all: seq<Prefix>, states: seq<Cluster>, steps: seq<Step>) {
    && |states| == |steps| + 1
    && forall k :: 0 <= k < |steps| ==> Enabled(states[k], steps[k]) && states[k + 1] == Apply(all, states[k], steps[k])
  }

  /** A run of the whole cluster, from an empty etcd and no nodes. */
  ghost predicate Run(all: seq<Prefix>, states: seq<Cluster>, steps: seq<Step>) {
    Segment(all, states, steps) && states[0] == EMPTY_CLUSTER
  }
}
