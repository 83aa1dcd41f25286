/** Safety of the subnet reservation protocol over every run of the cluster. */
module ClusterSafety {
  import opened Basics
  import opened Cidr
  import opened SubnetProtocol

  // ---------- lists of unused subnets ----------

  /** `u` is what remains of `all` after dropping some elements, the rest in their order. */
  predicate Sublist(u: seq<Prefix>, all: seq<Prefix>)
    decreases |all|
  {
    u == [] || (all != [] && Sublist(if u[0] == all[0] then u[1..] else u, all[1..]))
  }

  lemma {:induction false} SublistElement(u: seq<Prefix>, all: seq<Prefix>, s: Prefix)
    requires Sublist(u, all) && s in u
    ensures s in all
    decreases |all|
  {
    if u[0] == all[0] {
      if s != u[0] {
        SublistElement(u[1..], all[1..], s);
      }
    } else {
      SublistElement(u, all[1..], s);
    }
  }

  lemma {:induction false} SublistWider(u: seq<Prefix>, all: seq<Prefix>)
    requires all != [] && Sublist(u, all[1..])
    ensures Sublist(u, all)
    decreases |all|, 1
  {
    if u != [] && u[0] == all[0] {
      SublistTail(u, all[1..]);
    }
  }

  lemma {:induction false} SublistTail(u: seq<Prefix>, all: seq<Prefix>)
    requires Sublist(u, all) && u != []
    ensures Sublist(u[1..], all)
    decreases |all|, 2
  {
    if u[0] != all[0] {
      SublistTail(u, all[1..]);
    }
    SublistWider(u[1..], all);
  }

  lemma {:induction false} SublistSelf(all: seq<Prefix>)
    ensures Sublist(all, all)
  {
    if all != [] {
      SublistSelf(all[1..]);
    }
  }

  /** Nothing that precedes the head of a sublist is still in it. */
  lemma {:induction false} BeforeTheHead(u: seq<Prefix>, all: seq<Prefix>, i: nat, j: nat)
    requires NoRepeats(all) && Sublist(u, all) && u != []
    requires i < j < |all| && all[j] == u[0]
    ensures all[i] !in u
    decreases |all|
  {
    assert u[0] != all[0];
    if all[i] in u {
      SublistElement(u, all[1..], all[i]);
      if i > 0 {
        BeforeTheHead(u, all[1..], i - 1, j - 1);
      }
    }
  }

  lemma {:induction false} WithoutNothing(u: seq<Prefix>)
    ensures Without(u, {}) == u
  {
    if u != [] {
      WithoutNothing(u[1..]);
    }
  }

  lemma {:induction false} WithoutElements(u: seq<Prefix>, used: set<Prefix>)
    ensures forall s :: s in Without(u, used) <==> s in u && s !in used
  {
    if u != [] {
      WithoutElements(u[1..], used);
      assert u == [u[0]] + u[1..];
    }
  }

  lemma {:induction false} WithoutSublist(u: seq<Prefix>, used: set<Prefix>, all: seq<Prefix>)
    requires Sublist(u, all)
    ensures Sublist(Without(u, used), all)
    decreases |all|
  {
    if u != [] {
      if u[0] == all[0] {
        WithoutSublist(u[1..], used, all[1..]);
        var w := Without(u[1..], used);
        if u[0] in used {
          assert Without(u, used) == w;
          SublistWider(w, all);
        } else {
          assert ([u[0]] + w)[1..] == w;
        }
      } else {
        WithoutSublist(u, used, all[1..]);
        SublistWider(Without(u, used), all);
      }
    }
  }

  lemma {:induction false} HeadIsGone(u: seq<Prefix>, all: seq<Prefix>)
    requires NoRepeats(all) && Sublist(u, all) && u != []
    ensures u[0] !in u[1..]
    decreases |all|
  {
    if u[0] == all[0] {
      if u[0] in u[1..] {
        SublistElement(u[1..], all[1..], u[0]);
      }
    } else {
      HeadIsGone(u, all[1..]);
    }
  }

  // ---------- runs in which no release commits: one subnet a pool ----------

  /** The node knows that `s` belongs to `id`, or will when its reservation loop ends. */
  predicate Knows(n: Node, id: PoolId, s: Prefix) {
    || (id in n.pools && n.pools[id] == s)
    || (n.flight.Reserving? && id in n.flight.found && n.flight.found[id] == s)
  }

  /** Every entry of a node's map is etcd's word. */
  predicate TrueOf(pools: map<PoolId, Prefix>, owner: map<Prefix, PoolId>) {
    forall id :: id in pools ==> pools[id] in owner && owner[pools[id]] == id
  }

  /** No mapped subnet is still in the list of unused ones. */
  predicate Apart(pools: map<PoolId, Prefix>, unused: seq<Prefix>) {
    forall id :: id in pools ==> pools[id] !in unused
  }

  ghost predicate NodeAgrees(all: seq<Prefix>, owner: map<Prefix, PoolId>, released: set<PoolId>, n: Node) {
    && Sublist(n.unused, all)
    && (forall s :: s in all && s !in n.unused ==> s in owner && (owner[s] in released || Knows(n, owner[s], s)))
    && TrueOf(n.pools, owner) && Apart(n.pools, n.unused)
    && (n.flight.Reserving? ==>
          && n.flight.id !in n.pools && n.flight.id !in n.flight.found
          && TrueOf(n.flight.found, owner) && Apart(n.flight.found, n.unused))
  }

  ghost predicate OwnersAgree(all: seq<Prefix>, owner: map<Prefix, PoolId>, released: set<PoolId>) {
    // Subnets are claimed in the order of the list.
    && (forall s :: s in owner ==> s in all)
    && (forall i, j :: 0 <= i < j < |all| && all[j] in owner ==> all[i] in owner)
    // No pool owns two subnets, unless somebody has begun to release it.
    && (forall s, t :: s in owner && t in owner && owner[s] == owner[t] && owner[s] !in released ==> s == t)
  }

  ghost predicate LogAgrees(e: Etcd) {
    forall k :: 0 <= k < |e.log| ==>
      e.log[k].Put? && e.log[k].subnet in e.owner && e.owner[e.log[k].subnet] == e.log[k].owner
  }

  ghost predicate EtcdAgrees(all: seq<Prefix>, e: Etcd, released: set<PoolId>) {
    OwnersAgree(all, e.owner, released) && LogAgrees(e)
  }

  ghost predicate Agreed(all: seq<Prefix>, c: Cluster) {
    && EtcdAgrees(all, c.etcd, c.released)
    && forall i :: i in c.nodes ==> NodeAgrees(all, c.etcd.owner, c.released, c.nodes[i])
  }

  /** The heart of the argument: when the head of a node's unused list is free, everything before it in the
      list is claimed, and the pool the node reserves for owns nothing yet, unless it was released before. */
  lemma ClaimIsUnique(all: seq<Prefix>, owner: map<Prefix, PoolId>, released: set<PoolId>, n: Node)
    requires NoRepeats(all) && OwnersAgree(all, owner, released) && NodeAgrees(all, owner, released, n)
    requires n.flight.Reserving? && n.unused != [] && n.unused[0] !in owner
    ensures forall i, j :: 0 <= i < j < |all| && all[j] == n.unused[0] ==> all[i] in owner
    ensures n.flight.id !in released ==> forall t :: t in owner ==> owner[t] != n.flight.id
  {
    var s := n.unused[0];
    SublistElement(n.unused, all, s);
    var j :| 0 <= j < |all| && all[j] == s;
    forall i | 0 <= i < j
      ensures all[i] in owner
    {
      BeforeTheHead(n.unused, all, i, j);
    }
    forall t | t in owner && n.flight.id !in released
      ensures owner[t] != n.flight.id
    {
      var i :| 0 <= i < |all| && all[i] == t;
      assert i < j;
      BeforeTheHead(n.unused, all, i, j);
    }
  }

  lemma ReserveKeepsOwners(all: seq<Prefix>, e: Etcd, released: set<PoolId>, n: Node)
    requires NoRepeats(all) && EtcdAgrees(all, e, released) && NodeAgrees(all, e.owner, released, n)
    requires n.flight.Reserving? && n.unused != []
    ensures var e' := Commit(e, ReserveTxn(n.unused[0], n.flight.id)).0;
      && EtcdAgrees(all, e', released)
      && NodeAgrees(all, e'.owner, released, n)
      && (forall s :: s in e.owner ==> s in e'.owner && e'.owner[s] == e.owner[s])
  {
    SublistElement(n.unused, all, n.unused[0]);
    if n.unused[0] !in e.owner {
      ClaimIsUnique(all, e.owner, released, n);
    }
  }

  /** A node's view survives when etcd gains owners, or more releases begin. */
  lemma ViewSurvives(all: seq<Prefix>, owner: map<Prefix, PoolId>, owner': map<Prefix, PoolId>, released: set<PoolId>,
                     released': set<PoolId>, n: Node)
    requires NodeAgrees(all, owner, released, n) && released <= released'
    requires forall s :: s in owner ==> s in owner' && owner'[s] == owner[s]
    ensures NodeAgrees(all, owner', released', n)
  {
  }

  lemma SettleAgrees(all: seq<Prefix>, owner: map<Prefix, PoolId>, released: set<PoolId>, n: Node)
    requires OwnersAgree(all, owner, released) && n.flight.Reserving? && NodeAgrees(all, owner, released, n)
    ensures NodeAgrees(all, owner, released, Settle(n))
  {
    var n' := Settle(n);
    forall s | s in all && s !in n'.unused
      ensures s in owner && (owner[s] in released || Knows(n', owner[s], s))
    {
      assert owner[s] in released || Knows(n, owner[s], s);
    }
  }

  /** What a node that drops the head of its list must still know. */
  ghost predicate DropsHead(owner: map<Prefix, PoolId>, released: set<PoolId>, n: Node, n': Node)
    requires n.unused != []
  {
    && n'.unused == n.unused[1..]
    && TrueOf(n'.pools, owner) && Apart(n'.pools, n'.unused)
    && (n'.flight.Reserving? ==>
          && n'.flight.id !in n'.pools && n'.flight.id !in n'.flight.found
          && TrueOf(n'.flight.found, owner) && Apart(n'.flight.found, n'.unused))
    && n.unused[0] in owner && Knows(n', owner[n.unused[0]], n.unused[0])
    && (forall id, s :: Knows(n, id, s) && s in owner && owner[s] == id && id !in released ==> Knows(n', id, s))
  }

  /** Losing the head of the list is harmless once its owner is known. */
  lemma DropHeadAgrees(all: seq<Prefix>, owner: map<Prefix, PoolId>, released: set<PoolId>, n: Node, n': Node)
    requires NodeAgrees(all, owner, released, n) && n.unused != [] && DropsHead(owner, released, n, n')
    ensures NodeAgrees(all, owner, released, n')
  {
    SublistTail(n.unused, all);
    forall s | s in all && s !in n'.unused
      ensures s in owner && (owner[s] in released || Knows(n', owner[s], s))
    {
      if s != n.unused[0] {
        assert s !in n.unused by { assert n.unused == [n.unused[0]] + n'.unused; }
        assert owner[s] in released || Knows(n, owner[s], s);
      }
    }
  }

  lemma GrantDropsHead(all: seq<Prefix>, owner: map<Prefix, PoolId>, released: set<PoolId>, n: Node)
    requires NoRepeats(all) && n.flight.Reserving? && n.unused != []
    requires NodeAgrees(all, owner, released, n) && OwnersAgree(all, owner, released)
    requires n.unused[0] in owner && owner[n.unused[0]] == n.flight.id
    ensures DropsHead(owner, released, n,
                      Settle(n.(unused := n.unused[1..], pools := n.pools[n.flight.id := n.unused[0]])))
  {
    HeadIsGone(n.unused, all);
  }

  lemma RefusalDropsHead(all: seq<Prefix>, owner: map<Prefix, PoolId>, released: set<PoolId>, n: Node, other: PoolId)
    requires NoRepeats(all) && n.flight.Reserving? && n.unused != [] && other != n.flight.id
    requires NodeAgrees(all, owner, released, n) && OwnersAgree(all, owner, released)
    requires n.unused[0] in owner && owner[n.unused[0]] == other
    ensures var s := n.unused[0];
      DropsHead(owner, released, n, n.(unused := n.unused[1..],
                                       flight := n.flight.(found := n.flight.found[other := s])))
  {
    HeadIsGone(n.unused, all);
  }

  /** An answered turn makes the owner of the head known and forgets nothing true. */
  lemma TurnDropsHead(all: seq<Prefix>, e: Etcd, released: set<PoolId>, n: Node)
    requires NoRepeats(all) && n.flight.Reserving? && n.unused != []
    requires var owner := Commit(e, ReserveTxn(n.unused[0], n.flight.id)).0.owner;
      NodeAgrees(all, owner, released, n) && OwnersAgree(all, owner, released)
    ensures var owner := Commit(e, ReserveTxn(n.unused[0], n.flight.id)).0.owner;
      DropsHead(owner, released, n, Attempt(n, e, Answered).0)
  {
    var (e', answer) := Commit(e, ReserveTxn(n.unused[0], n.flight.id));
    match answer
    case Granted => GrantDropsHead(all, e'.owner, released, n);
    case HeldBy(other) => RefusalDropsHead(all, e'.owner, released, n, other);
  }

  lemma AnsweredTurnAgrees(all: seq<Prefix>, e: Etcd, released: set<PoolId>, n: Node)
    requires NoRepeats(all) && EtcdAgrees(all, e, released) && NodeAgrees(all, e.owner, released, n)
    requires n.flight.Reserving? && n.unused != []
    ensures var (n', e') := Attempt(n, e, Answered); NodeAgrees(all, e'.owner, released, n')
  {
    var e' := Commit(e, ReserveTxn(n.unused[0], n.flight.id)).0;
    ReserveKeepsOwners(all, e, released, n);
    TurnDropsHead(all, e, released, n);
    DropHeadAgrees(all, e'.owner, released, n, Attempt(n, e, Answered).0);
  }

  lemma TurnAgrees(all: seq<Prefix>, e: Etcd, released: set<PoolId>, n: Node, fault: Fault)
    requires NoRepeats(all) && EtcdAgrees(all, e, released) && NodeAgrees(all, e.owner, released, n)
    requires n.flight.Reserving?
    ensures var (n', e') := Attempt(n, e, fault);
      && EtcdAgrees(all, e', released) && NodeAgrees(all, e'.owner, released, n')
      && (forall s :: s in e.owner ==> s in e'.owner && e'.owner[s] == e.owner[s])
  {
    SettleAgrees(all, e.owner, released, n);
    if n.unused != [] {
      ReserveKeepsOwners(all, e, released, n);
      match fault
      case RequestLost =>
      case AnswerLost => SettleAgrees(all, Attempt(n, e, fault).1.owner, released, n);
      case Answered => AnsweredTurnAgrees(all, e, released, n);
    }
  }

  lemma StartAgrees(all: seq<Prefix>, owner: map<Prefix, PoolId>, released: set<PoolId>, pools: map<PoolId, Prefix>)
    requires OwnersAgree(all, owner, released) && IsSnapshot(pools, owner)
    ensures NodeAgrees(all, owner, released, Started(all, pools))
  {
    WithoutElements(all, pools.Values);
    SublistSelf(all);
    WithoutSublist(all, pools.Values, all);
  }

  lemma DeliverAgrees(all: seq<Prefix>, owner: map<Prefix, PoolId>, released: set<PoolId>, n: Node, ev: Event)
    requires NodeAgrees(all, owner, released, n) && n.flight.Idle?
    requires ev.Put? && ev.subnet in owner && owner[ev.subnet] == ev.owner
    ensures NodeAgrees(all, owner, released, Deliver(n, ev))
  {
    WithoutElements(n.unused, {ev.subnet});
    WithoutSublist(n.unused, {ev.subnet}, all);
    var n' := Deliver(n, ev);
    forall t | t in all && t !in n'.unused
      ensures t in owner && (owner[t] in released || Knows(n', owner[t], t))
    {
      assert t !in n.unused ==> owner[t] in released || Knows(n, owner[t], t);
    }
  }

  /** A node that forgets a pool it began to release keeps a true view. */
  lemma ForgetAgrees(all: seq<Prefix>, e: Etcd, released: set<PoolId>, n: Node, id: PoolId)
    requires NodeAgrees(all, e.owner, released, n) && n.flight.Idle? && id in n.pools
    ensures NodeAgrees(all, e.owner, released + {id}, Free(n, e, id, RequestLost).0)
  {
    var n' := Free(n, e, id, RequestLost).0;
    forall s | s in all && s !in n'.unused
      ensures s in e.owner && (e.owner[s] in released + {id} || Knows(n', e.owner[s], s))
    {
      assert e.owner[s] in released || Knows(n, e.owner[s], s);
    }
  }

  /** The step of another node: only etcd and the releases begun change for node `j`. */
  lemma OthersAgree(all: seq<Prefix>, c: Cluster, c': Cluster, i: nat)
    requires Agreed(all, c) && EtcdAgrees(all, c'.etcd, c'.released) && c.released <= c'.released
    requires forall s :: s in c.etcd.owner ==> s in c'.etcd.owner && c'.etcd.owner[s] == c.etcd.owner[s]
    requires forall j :: j in c'.nodes && j != i ==> j in c.nodes && c'.nodes[j] == c.nodes[j]
    requires i in c'.nodes && NodeAgrees(all, c'.etcd.owner, c'.released, c'.nodes[i])
    ensures Agreed(all, c')
  {
    forall j | j in c'.nodes
      ensures NodeAgrees(all, c'.etcd.owner, c'.released, c'.nodes[j])
    {
      if j != i {
        ViewSurvives(all, c.etcd.owner, c'.etcd.owner, c.released, c'.released, c.nodes[j]);
      }
    }
  }

  /** A release whose request never reaches etcd. */
  predicate Uncommitted(step: Step) {
    step.Release? ==> step.fault.RequestLost?
  }

  lemma StepAgrees(all: seq<Prefix>, c: Cluster, step: Step)
    requires NoRepeats(all) && Agreed(all, c) && Enabled(c, step) && Uncommitted(step)
    ensures Agreed(all, Apply(all, c, step))
  {
    match step
    case Start(i, snapshot) => StartAgrees(all, c.etcd.owner, c.released, snapshot);
    case Request(i, id) => {
      assert NodeAgrees(all, c.etcd.owner, c.released, c.nodes[i]);
      assert NodeAgrees(all, c.etcd.owner, c.released, Begin(c.nodes[i], id));
    }
    case Turn(i, fault) => {
      TurnAgrees(all, c.etcd, c.released, c.nodes[i], fault);
      OthersAgree(all, c, Apply(all, c, step), i);
    }
    case Release(i, id, _) => {
      ForgetAgrees(all, c.etcd, c.released, c.nodes[i], id);
      OthersAgree(all, c, Apply(all, c, step), i);
    }
    case Watch(i) => DeliverAgrees(all, c.etcd.owner, c.released, c.nodes[i], c.etcd.log[c.cursors[i]]);
    case Miss(i) =>
  }

  lemma {:induction false} RunAgrees(all: seq<Prefix>, states: seq<Cluster>, steps: seq<Step>, k: nat)
    requires NoRepeats(all) && Run(all, states, steps) && k < |states|
    requires forall j :: 0 <= j < k ==> Uncommitted(steps[j])
    ensures Agreed(all, states[k])
  {
    if k > 0 {
      RunAgrees(all, states, steps, k - 1);
      StepAgrees(all, states[k - 1], steps[k - 1]);
    }
  }

  /** In a run in which no release commits, every pool that nobody has begun to release owns at most one subnet, and
      all nodes that know it agree on that subnet; whatever a node maps is etcd's word. */
  lemma OneSubnetPerPool(all: seq<Prefix>, states: seq<Cluster>, steps: seq<Step>, k: nat)
    requires NoRepeats(all) && Run(all, states, steps) && k < |states|
    requires forall j :: 0 <= j < k ==> Uncommitted(steps[j])
    ensures var c := states[k];
      && (forall id :: id !in c.released ==> OwnsAtMostOne(c.etcd.owner, id))
      && (forall i, id :: i in c.nodes && id in c.nodes[i].pools ==>
            c.nodes[i].pools[id] in c.etcd.owner && c.etcd.owner[c.nodes[i].pools[id]] == id)
      && (forall i, j, id :: i in c.nodes && j in c.nodes && id in c.nodes[i].pools && id in c.nodes[j].pools ==>
            id in c.released || c.nodes[i].pools[id] == c.nodes[j].pools[id])
  {
    RunAgrees(all, states, steps, k);
    var c := states[k];
    forall i | i in c.nodes
      ensures TrueOf(c.nodes[i].pools, c.etcd.owner)
    {
      assert NodeAgrees(all, c.etcd.owner, c.released, c.nodes[i]);
    }
  }

  ghost predicate OwnsAtMostOne(owner: map<Prefix, PoolId>, id: PoolId) {
    forall s, t :: s in owner && t in owner && owner[s] == id && owner[t] == id ==> s == t
  }

  /** In such a run a reservation loop that runs out of subnets does so only when every subnet is claimed in etcd and,
      unless somebody began to release it, none of them for the pool it reserves for. */
  lemma ExhaustedOnlyWhenAllClaimed(all: seq<Prefix>, states: seq<Cluster>, steps: seq<Step>, k: nat, i: nat)
    requires NoRepeats(all) && Run(all, states, steps) && k < |states|
    requires forall j :: 0 <= j < k ==> Uncommitted(steps[j])
    requires i in states[k].nodes && states[k].nodes[i].flight.Reserving? && states[k].nodes[i].unused == []
    ensures var owner, id := states[k].etcd.owner, states[k].nodes[i].flight.id;
      forall s :: s in all ==> s in owner && (id !in states[k].released ==> owner[s] != id)
  {
    RunAgrees(all, states, steps, k);
    var n := states[k].nodes[i];
    assert NodeAgrees(all, states[k].etcd.owner, states[k].released, n);
    forall s | s in all
      ensures s in states[k].etcd.owner
      ensures n.flight.id !in states[k].released ==> states[k].etcd.owner[s] != n.flight.id
    {
      assert states[k].etcd.owner[s] in states[k].released || Knows(n, states[k].etcd.owner[s], s);
    }
  }

  // ---------- runs with releases: no two unreleased pools share a subnet ----------

  ghost predicate TrueUnlessReleased(pools: map<PoolId, Prefix>, c: Cluster) {
    forall id :: id in pools && id !in c.released ==> pools[id] in c.etcd.owner && c.etcd.owner[pools[id]] == id
  }

  ghost predicate WithinSpace(all: seq<Prefix>, pools: map<PoolId, Prefix>) {
    "" !in pools && forall id :: id in pools ==> pools[id] in all
  }

  ghost predicate NodeHonest(all: seq<Prefix>, c: Cluster, n: Node) {
    && (forall s :: s in n.unused ==> s in all)
    && WithinSpace(all, n.pools) && TrueUnlessReleased(n.pools, c)
    && (n.flight.Reserving? ==>
          n.flight.id != "" && WithinSpace(all, n.flight.found) && TrueUnlessReleased(n.flight.found, c))
  }

  ghost predicate EventHonest(all: seq<Prefix>, c: Cluster, ev: Event) {
    && ev.subnet in all
    && (ev.Put? ==> ev.owner != "" && (ev.owner !in c.released ==>
          ev.subnet in c.etcd.owner && c.etcd.owner[ev.subnet] == ev.owner))
  }

  ghost predicate Honest(all: seq<Prefix>, c: Cluster) {
    && (forall s :: s in c.etcd.owner ==> s in all && c.etcd.owner[s] != "")
    && (forall k :: 0 <= k < |c.etcd.log| ==> EventHonest(all, c, c.etcd.log[k]))
    && forall i :: i in c.nodes ==> NodeHonest(all, c, c.nodes[i])
  }

  /** Ownership of pools outside `c'.released` only grows from one state to the next. */
  ghost predicate Grows(c: Cluster, c': Cluster) {
    && c.released <= c'.released
    && forall s :: s in c.etcd.owner && c.etcd.owner[s] !in c'.released ==>
        s in c'.etcd.owner && c'.etcd.owner[s] == c.etcd.owner[s]
  }

  lemma HonestSurvives(all: seq<Prefix>, c: Cluster, c': Cluster, n: Node)
    requires NodeHonest(all, c, n) && Grows(c, c')
    ensures NodeHonest(all, c', n)
  {
  }

  lemma EventSurvives(all: seq<Prefix>, c: Cluster, c': Cluster, ev: Event)
    requires EventHonest(all, c, ev) && Grows(c, c')
    ensures EventHonest(all, c', ev)
  {
  }

  /** What a step of node i leaves honest: its own state, etcd's records, and the growth of ownership. */
  ghost predicate HonestMove(all: seq<Prefix>, c: Cluster, c': Cluster, i: nat) {
    && i in c'.nodes && NodeHonest(all, c', c'.nodes[i])
    && (forall j :: j in c'.nodes && j != i ==> j in c.nodes && c'.nodes[j] == c.nodes[j])
    && (forall s :: s in c'.etcd.owner ==> s in all && c'.etcd.owner[s] != "")
    && |c.etcd.log| <= |c'.etcd.log| && c.etcd.log == c'.etcd.log[..|c.etcd.log|]
    && (forall k :: |c.etcd.log| <= k < |c'.etcd.log| ==> EventHonest(all, c', c'.etcd.log[k]))
    && Grows(c, c')
  }

  lemma MoveStaysHonest(all: seq<Prefix>, c: Cluster, c': Cluster, i: nat)
    requires Honest(all, c) && HonestMove(all, c, c', i)
    ensures Honest(all, c')
  {
    forall k | 0 <= k < |c'.etcd.log|
      ensures EventHonest(all, c', c'.etcd.log[k])
    {
      if k < |c.etcd.log| {
        assert c'.etcd.log[k] == c.etcd.log[k];
        EventSurvives(all, c, c', c.etcd.log[k]);
      }
    }
    forall j | j in c'.nodes
      ensures NodeHonest(all, c', c'.nodes[j])
    {
      if j != i {
        HonestSurvives(all, c, c', c.nodes[j]);
      }
    }
  }

  lemma ReserveIsHonest(all: seq<Prefix>, c: Cluster, s: Prefix, id: PoolId)
    requires Honest(all, c) && s in all && id != ""
    ensures var c' := c.(etcd := Commit(c.etcd, ReserveTxn(s, id)).0);
      && (forall t :: t in c'.etcd.owner ==> t in all && c'.etcd.owner[t] != "")
      && |c.etcd.log| <= |c'.etcd.log| && c.etcd.log == c'.etcd.log[..|c.etcd.log|]
      && (forall k :: |c.etcd.log| <= k < |c'.etcd.log| ==> EventHonest(all, c', c'.etcd.log[k]))
      && Grows(c, c')
  {
  }

  lemma TurnNodeIsHonest(all: seq<Prefix>, c: Cluster, n: Node, fault: Fault)
    requires Honest(all, c) && NodeHonest(all, c, n) && n.flight.Reserving?
    ensures var (n', e') := Attempt(n, c.etcd, fault); NodeHonest(all, c.(etcd := e'), n')
  {
    if n.unused != [] {
      var c' := c.(etcd := Commit(c.etcd, ReserveTxn(n.unused[0], n.flight.id)).0);
      assert n.unused[0] in all;
      ReserveIsHonest(all, c, n.unused[0], n.flight.id);
      HonestSurvives(all, c, c', n);
    }
  }

  /** Honesty looks at etcd and the releases begun only. */
  lemma HonestLooksAtEtcd(all: seq<Prefix>, c: Cluster, c': Cluster, n: Node)
    requires NodeHonest(all, c, n) && c'.etcd == c.etcd && c'.released == c.released
    ensures NodeHonest(all, c', n)
  {
  }

  lemma TurnIsHonest(all: seq<Prefix>, c: Cluster, i: nat, fault: Fault)
    requires Honest(all, c) && Enabled(c, Turn(i, fault))
    ensures HonestMove(all, c, Apply(all, c, Turn(i, fault)), i)
  {
    var n := c.nodes[i];
    var (n', e') := Attempt(n, c.etcd, fault);
    assert NodeHonest(all, c, n);
    TurnNodeIsHonest(all, c, n, fault);
    HonestLooksAtEtcd(all, c.(etcd := e'), Apply(all, c, Turn(i, fault)), n');
    if n.unused != [] {
      assert n.unused[0] in all;
      ReserveIsHonest(all, c, n.unused[0], n.flight.id);
    }
  }

  lemma ReleaseIsHonest(all: seq<Prefix>, c: Cluster, i: nat, id: PoolId, fault: Fault)
    requires Honest(all, c) && Enabled(c, Release(i, id, fault))
    ensures HonestMove(all, c, Apply(all, c, Release(i, id, fault)), i)
  {
    var n := c.nodes[i];
    var c' := Apply(all, c, Release(i, id, fault));
    assert NodeHonest(all, c, n);
    assert Grows(c, c');
    assert NodeHonest(all, c', c'.nodes[i]);
  }

  lemma StartIsHonest(all: seq<Prefix>, c: Cluster, i: nat, pools: map<PoolId, Prefix>)
    requires Honest(all, c) && Enabled(c, Start(i, pools))
    ensures HonestMove(all, c, Apply(all, c, Start(i, pools)), i)
  {
    WithoutElements(all, pools.Values);
  }

  lemma WatchIsHonest(all: seq<Prefix>, c: Cluster, i: nat)
    requires Honest(all, c) && Enabled(c, Watch(i))
    ensures HonestMove(all, c, Apply(all, c, Watch(i)), i)
  {
    var ev := c.etcd.log[c.cursors[i]];
    WithoutElements(c.nodes[i].unused, {ev.subnet});
    assert EventHonest(all, c, ev);
    assert NodeHonest(all, c, c.nodes[i]);
  }

  lemma LocalStepIsHonest(all: seq<Prefix>, c: Cluster, step: Step)
    requires Honest(all, c) && Enabled(c, step) && (step.Request? || step.Miss?)
    ensures HonestMove(all, c, Apply(all, c, step), step.i)
  {
    assert NodeHonest(all, c, c.nodes[step.i]);
  }

  lemma StepIsMove(all: seq<Prefix>, c: Cluster, step: Step)
    requires Honest(all, c) && Enabled(c, step)
    ensures HonestMove(all, c, Apply(all, c, step), step.i)
  {
    match step
    case Start(i, pools) => StartIsHonest(all, c, i, pools);
    case Turn(i, fault) => TurnIsHonest(all, c, i, fault);
    case Release(i, id, fault) => ReleaseIsHonest(all, c, i, id, fault);
    case Watch(i) => WatchIsHonest(all, c, i);
    case _ => LocalStepIsHonest(all, c, step);
  }

  lemma {:induction false} RunIsHonest(all: seq<Prefix>, states: seq<Cluster>, steps: seq<Step>, k: nat)
    requires Run(all, states, steps) && k < |states|
    ensures Honest(all, states[k])
  {
    if k > 0 {
      RunIsHonest(all, states, steps, k - 1);
      StepIsMove(all, states[k - 1], steps[k - 1]);
      MoveStaysHonest(all, states[k - 1], states[k], steps[k - 1].i);
    }
  }

  /** In every run, whatever else is released, a pool nobody has begun to release is owned in etcd wherever a
      node maps it, and two such pools never share a subnet, on any pair of nodes. */
  lemma UnreleasedPoolsAreSafe(all: seq<Prefix>, states: seq<Cluster>, steps: seq<Step>, k: nat, i: nat, j: nat,
                               x: PoolId, y: PoolId)
    requires Run(all, states, steps) && k < |states|
    requires var c := states[k];
      && i in c.nodes && x in c.nodes[i].pools && x !in c.released
      && j in c.nodes && y in c.nodes[j].pools && y !in c.released
    ensures var c := states[k]; var s := c.nodes[i].pools[x];
      && s in all && s in c.etcd.owner && c.etcd.owner[s] == x
      && (x != y ==> s != c.nodes[j].pools[y])
  {
    RunIsHonest(all, states, steps, k);
    assert NodeHonest(all, states[k], states[k].nodes[i]);
    assert NodeHonest(all, states[k], states[k].nodes[j]);
  }

  /** A deletion event never changes a node: the handler looks up the empty pool id, which no node maps. */
  lemma DeletionsAreIgnored(all: seq<Prefix>, states: seq<Cluster>, steps: seq<Step>, k: nat, i: nat, s: Prefix)
    requires Run(all, states, steps) && k < |states| && i in states[k].nodes
    ensures Deliver(states[k].nodes[i], Delete(s)) == states[k].nodes[i]
  {
    RunIsHonest(all, states, steps, k);
    assert NodeHonest(all, states[k], states[k].nodes[i]);
  }

  // ---------- what a node learns from the watch ----------

  /** A Put of a pool the node does not know makes it known and takes its subnet off the list; any other changes
      nothing. */
  lemma DeliverPut(n: Node, s: Prefix, id: PoolId)
    ensures var n' := Deliver(n, Put(s, id));
      && n'.flight == n.flight
      && (id in n.pools ==> n'.pools == n.pools && n'.unused == n.unused)
      && (id !in n.pools ==>
            && n'.pools == n.pools[id := s] && Sublist(n'.unused, n.unused)
            && forall t :: t in n'.unused <==> t in n.unused && t != s)
  {
    WithoutElements(n.unused, {s});
    SublistSelf(n.unused);
    WithoutSublist(n.unused, {s}, n.unused);
  }

  /** The content that the events of a log add up to. */
  function Replay(log: seq<Event>): map<Prefix, PoolId> {
    if log == [] then map[]
    else
      match log[|log| - 1]
      case Put(s, id) => Replay(log[..|log| - 1])[s := id]
      case Delete(s) => Replay(log[..|log| - 1]) - {s}
  }

  lemma ReplaySnoc(log: seq<Event>, ev: Event)
    ensures Replay(log + [ev]) == if ev.Put? then Replay(log)[ev.subnet := ev.owner] else Replay(log) - {ev.subnet}
  {
    assert (log + [ev])[..|log|] == log;
  }

  lemma CommitIsLogged(e: Etcd, t: Txn)
    requires Replay(e.log) == e.owner
    ensures var e' := Commit(e, t).0; Replay(e'.log) == e'.owner
  {
    ReplaySnoc(e.log, Put(t.subnet, t.id));
    ReplaySnoc(e.log, Delete(t.subnet));
  }

  lemma StepIsLogged(all: seq<Prefix>, c: Cluster, step: Step)
    requires Enabled(c, step) && Replay(c.etcd.log) == c.etcd.owner
    ensures var e' := Apply(all, c, step).etcd; Replay(e'.log) == e'.owner
  {
    match step
    case Turn(i, _) =>
      if c.nodes[i].unused != [] {
        CommitIsLogged(c.etcd, ReserveTxn(c.nodes[i].unused[0], c.nodes[i].flight.id));
      }
    case Release(i, id, _) => CommitIsLogged(c.etcd, ReleaseTxn(c.nodes[i].pools[id], id));
    case _ =>
  }

  /** In every run the events of the log, releases included, add up to what etcd holds. */
  lemma {:induction false} LogIsHistory(all: seq<Prefix>, states: seq<Cluster>, steps: seq<Step>, k: nat)
    requires Run(all, states, steps) && k < |states|
    ensures Replay(states[k].etcd.log) == states[k].etcd.owner
  {
    if k > 0 {
      LogIsHistory(all, states, steps, k - 1);
      StepIsLogged(all, states[k - 1], steps[k - 1]);
    }
  }

  /** An event that tells of the claim is still to come. */
  ghost predicate Pending(e: Etcd, cursor: nat, s: Prefix, id: PoolId) {
    exists k :: cursor <= k < |e.log| && e.log[k] == Put(s, id)
  }

  /** The node knows of every claim or has yet to hear of it, pools whose release was begun aside. */
  ghost predicate WillKnow(c: Cluster, n: Node, cursor: nat) {
    forall s :: s in c.etcd.owner && c.etcd.owner[s] !in c.released ==>
      Knows(n, c.etcd.owner[s], s) || Pending(c.etcd, cursor, s, c.etcd.owner[s])
  }

  ghost predicate WillKnowAll(c: Cluster, i: nat) {
    Up(c, i) && c.cursors[i] <= |c.etcd.log| && WillKnow(c, c.nodes[i], c.cursors[i])
  }

  /** Etcd has gained one claim at most, and logged it. */
  ghost predicate ClaimsOne(e: Etcd, e': Etcd) {
    e' == e || exists s, id :: s !in e.owner && e'.owner == e.owner[s := id] && e'.log == e.log + [Put(s, id)]
  }

  lemma ClaimPending(c: Cluster, e': Etcd, n: Node, cursor: nat)
    requires WillKnow(c, n, cursor) && cursor <= |c.etcd.log| && ClaimsOne(c.etcd, e')
    ensures WillKnow(c.(etcd := e'), n, cursor)
  {
    if e' != c.etcd {
      var s, id :| s !in c.etcd.owner && e'.owner == c.etcd.owner[s := id] && e'.log == c.etcd.log + [Put(s, id)];
      assert e'.log[|c.etcd.log|] == Put(s, id);
      forall t | t in c.etcd.owner && Pending(c.etcd, cursor, t, c.etcd.owner[t])
        ensures Pending(e', cursor, t, e'.owner[t])
      {
        var k :| cursor <= k < |c.etcd.log| && c.etcd.log[k] == Put(t, c.etcd.owner[t]);
        assert e'.log[k] == Put(t, e'.owner[t]);
      }
    }
  }

  lemma NewIsPending(e: Etcd, e': Etcd, cursor: nat, s: Prefix)
    requires ClaimsOne(e, e') && cursor <= |e.log| && s in e'.owner && s !in e.owner
    ensures Pending(e', cursor, s, e'.owner[s])
  {
    assert e'.log[|e.log|] == Put(s, e'.owner[s]);
  }

  lemma TurnClaimsOne(n: Node, e: Etcd, fault: Fault)
    requires n.flight.Reserving?
    ensures ClaimsOne(e, Attempt(n, e, fault).1)
  {
    if n.unused != [] && n.unused[0] !in e.owner {
      var e' := Commit(e, ReserveTxn(n.unused[0], n.flight.id)).0;
      assert e'.owner == e.owner[n.unused[0] := n.flight.id] && e'.log == e.log + [Put(n.unused[0], n.flight.id)];
      assert ClaimsOne(e, e');
    }
  }

  /** What a node knew of claims before a turn it knows after it. */
  lemma TurnForgetsNothing(all: seq<Prefix>, e: Etcd, released: set<PoolId>, n: Node, fault: Fault, id: PoolId,
                           s: Prefix)
    requires NoRepeats(all) && EtcdAgrees(all, e, released) && NodeAgrees(all, e.owner, released, n)
    requires n.flight.Reserving? && Knows(n, id, s) && s in e.owner && e.owner[s] == id && id !in released
    ensures Knows(Attempt(n, e, fault).0, id, s)
  {
    if n.unused != [] && fault.Answered? {
      ReserveKeepsOwners(all, e, released, n);
      TurnDropsHead(all, e, released, n);
    }
  }

  lemma StartKnows(all: seq<Prefix>, c: Cluster, pools: map<PoolId, Prefix>)
    requires EtcdAgrees(all, c.etcd, c.released) && IsSnapshot(pools, c.etcd.owner)
    ensures WillKnow(c, Started(all, pools), |c.etcd.log|)
  {
  }

  lemma PendingNext(e: Etcd, cursor: nat, s: Prefix, id: PoolId)
    requires cursor < |e.log| && Pending(e, cursor, s, id)
    ensures e.log[cursor] == Put(s, id) || Pending(e, cursor + 1, s, id)
  {
    var k :| cursor <= k < |e.log| && e.log[k] == Put(s, id);
    assert k > cursor ==> Pending(e, cursor + 1, s, id);
  }

  /** Hearing of a claim makes it known, because a pool known before cannot own another subnet. */
  lemma HeardIsKnown(all: seq<Prefix>, owner: map<Prefix, PoolId>, released: set<PoolId>, n: Node, s: Prefix)
    requires OwnersAgree(all, owner, released) && NodeAgrees(all, owner, released, n)
    requires s in owner && owner[s] !in released
    ensures Knows(Deliver(n, Put(s, owner[s])), owner[s], s)
  {
    DeliverPut(n, s, owner[s]);
  }

  lemma StillKnown(n: Node, s: Prefix, id: PoolId, t: Prefix, known: PoolId)
    requires Knows(n, known, t)
    ensures Knows(Deliver(n, Put(s, id)), known, t)
  {
    DeliverPut(n, s, id);
  }

  lemma WatchKnows(all: seq<Prefix>, c: Cluster, i: nat)
    requires NoRepeats(all) && Agreed(all, c) && Enabled(c, Watch(i)) && WillKnowAll(c, i)
    ensures WillKnowAll(Apply(all, c, Watch(i)), i)
  {
    var n, cursor, owner := c.nodes[i], c.cursors[i], c.etcd.owner;
    var ev := c.etcd.log[cursor];
    var n' := Deliver(n, ev);
    assert ev.Put? && NodeAgrees(all, owner, c.released, n);
    forall s | s in owner && owner[s] !in c.released
      ensures Knows(n', owner[s], s) || Pending(c.etcd, cursor + 1, s, owner[s])
    {
      if Knows(n, owner[s], s) {
        StillKnown(n, ev.subnet, ev.owner, s, owner[s]);
      } else {
        PendingNext(c.etcd, cursor, s, owner[s]);
        HeardIsKnown(all, owner, c.released, n, s);
      }
    }
  }

  lemma OwnTurnKnows(all: seq<Prefix>, c: Cluster, i: nat, fault: Fault)
    requires NoRepeats(all) && Agreed(all, c) && Enabled(c, Turn(i, fault)) && WillKnowAll(c, i)
    ensures WillKnowAll(Apply(all, c, Turn(i, fault)), i)
  {
    var n, cursor := c.nodes[i], c.cursors[i];
    var (n', e') := Attempt(n, c.etcd, fault);
    TurnClaimsOne(n, c.etcd, fault);
    ClaimPending(c, e', n, cursor);
    var claimed := c.(etcd := e');
    forall s | s in e'.owner && e'.owner[s] !in c.released
      ensures Knows(n', e'.owner[s], s) || Pending(e', cursor, s, e'.owner[s])
    {
      if s !in c.etcd.owner {
        NewIsPending(c.etcd, e', cursor, s);
      } else if Knows(n, c.etcd.owner[s], s) {
        TurnForgetsNothing(all, c.etcd, c.released, n, fault, c.etcd.owner[s], s);
      }
    }
  }

  lemma OwnStepKnows(all: seq<Prefix>, c: Cluster, step: Step)
    requires NoRepeats(all) && Agreed(all, c) && Enabled(c, step) && Uncommitted(step) && !step.Miss?
    requires step.Start? || WillKnowAll(c, step.i)
    ensures WillKnowAll(Apply(all, c, step), step.i)
  {
    match step
    case Start(i, pools) => StartKnows(all, c, pools);
    case Request(i, id) =>
    case Turn(i, fault) => OwnTurnKnows(all, c, i, fault);
    case Release(i, id, fault) =>
    case Watch(i) => WatchKnows(all, c, i);
    case Miss(i) =>
  }

  /** The step of another node. */
  lemma OtherStepKnows(all: seq<Prefix>, c: Cluster, step: Step, i: nat)
    requires Enabled(c, step) && Uncommitted(step) && step.i != i && WillKnowAll(c, i)
    ensures WillKnowAll(Apply(all, c, step), i)
  {
    if step.Turn? {
      TurnClaimsOne(c.nodes[step.i], c.etcd, step.fault);
      ClaimPending(c, Attempt(c.nodes[step.i], c.etcd, step.fault).1, c.nodes[i], c.cursors[i]);
    }
  }

  /** An event was lost on the way to the node since it last started. */
  predicate HasMissed(steps: seq<Step>, k: nat, i: nat)
    requires k <= |steps|
  {
    if k == 0 then false
    else if steps[k - 1] == Miss(i) then true
    else if steps[k - 1].Start? && steps[k - 1].i == i then false
    else HasMissed(steps, k - 1, i)
  }

  lemma {:induction false} RunWillKnow(all: seq<Prefix>, states: seq<Cluster>, steps: seq<Step>, k: nat, i: nat)
    requires NoRepeats(all) && Run(all, states, steps) && k < |states|
    requires forall j :: 0 <= j < k ==> Uncommitted(steps[j])
    requires Up(states[k], i) && !HasMissed(steps, k, i)
    ensures WillKnowAll(states[k], i)
  {
    if k > 0 {
      var step := steps[k - 1];
      RunAgrees(all, states, steps, k - 1);
      if !(step.Start? && step.i == i) {
        RunWillKnow(all, states, steps, k - 1, i);
      }
      if step.i == i {
        OwnStepKnows(all, states[k - 1], step);
      } else {
        OtherStepKnows(all, states[k - 1], step, i);
      }
    }
  }

  lemma HeadNotInTail(all: seq<Prefix>)
    requires NoRepeats(all) && all != []
    ensures all[0] !in all[1..] && NoRepeats(all[1..])
  {
    assert forall i :: 0 <= i < |all| - 1 ==> all[1..][i] == all[i + 1];
  }

  lemma TailExact(u: seq<Prefix>, all: seq<Prefix>, used: set<Prefix>)
    requires NoRepeats(all) && all != [] && Sublist(u, all) && forall s :: s in all ==> (s in u <==> s !in used)
    requires u != [] && u[0] == all[0]
    ensures Sublist(u[1..], all[1..]) && forall s :: s in all[1..] ==> (s in u[1..] <==> s !in used)
  {
    HeadNotInTail(all);
    assert u == [u[0]] + u[1..] && all == [all[0]] + all[1..];
  }

  lemma RestExact(u: seq<Prefix>, all: seq<Prefix>, used: set<Prefix>)
    requires NoRepeats(all) && all != [] && Sublist(u, all) && forall s :: s in all ==> (s in u <==> s !in used)
    requires u == [] || u[0] != all[0]
    ensures Sublist(u, all[1..]) && all[0] in used && forall s :: s in all[1..] ==> (s in u <==> s !in used)
  {
    HeadNotInTail(all);
    forall s | s in u
      ensures s in all[1..]
    {
      SublistElement(u, all[1..], s);
    }
    assert all == [all[0]] + all[1..];
  }

  /** A sublist without repeats is fixed by its elements. */
  lemma {:induction false} SublistExact(u: seq<Prefix>, all: seq<Prefix>, used: set<Prefix>)
    requires NoRepeats(all) && Sublist(u, all) && forall s :: s in all ==> (s in u <==> s !in used)
    ensures u == Without(all, used)
  {
    if all != [] {
      HeadNotInTail(all);
      if u != [] && u[0] == all[0] {
        TailExact(u, all, used);
        SublistExact(u[1..], all[1..], used);
        assert u == [u[0]] + u[1..];
      } else {
        RestExact(u, all, used);
        SublistExact(u, all[1..], used);
      }
    }
  }

  /** In every run in which no release commits, a node that has missed no event since it started, and has no event left
      to hear, knows every claim of every pool nobody began to release; if none was begun, its list is exactly the
      subnets that are free in etcd, in their order. */
  lemma CaughtUpKnowsAll(all: seq<Prefix>, states: seq<Cluster>, steps: seq<Step>, k: nat, i: nat)
    requires NoRepeats(all) && Run(all, states, steps) && k < |states|
    requires forall j :: 0 <= j < k ==> Uncommitted(steps[j])
    requires Up(states[k], i) && !HasMissed(steps, k, i)
    requires states[k].nodes[i].flight.Idle? && states[k].cursors[i] == |states[k].etcd.log|
    ensures var c, n := states[k], states[k].nodes[i];
      && (forall s :: s in c.etcd.owner && c.etcd.owner[s] !in c.released ==>
            c.etcd.owner[s] in n.pools && n.pools[c.etcd.owner[s]] == s)
      && (c.released == {} ==> n.unused == Without(all, c.etcd.owner.Keys))
  {
    RunWillKnow(all, states, steps, k, i);
    RunAgrees(all, states, steps, k);
    var c, n := states[k], states[k].nodes[i];
    assert NodeAgrees(all, c.etcd.owner, c.released, n);
    if c.released == {} {
      forall s | s in all
        ensures s in n.unused <==> s !in c.etcd.owner.Keys
      {
        assert s in c.etcd.owner ==> n.pools[c.etcd.owner[s]] !in n.unused;
      }
      SublistExact(n.unused, all, c.etcd.owner.Keys);
    }
  }

  lemma FreeTurn(n: Node, e: Etcd)
    requires n.flight.Reserving? && n.flight.found == map[] && n.unused != [] && n.unused[0] !in e.owner
    ensures var s, id := n.unused[0], n.flight.id;
      Attempt(n, e, Answered)
        == (Node(n.unused[1..], n.pools[id := s], Idle), Etcd(e.owner[s := id], e.log + [Put(s, id)]))
  {
    assert n.pools[n.flight.id := n.unused[0]] + map[] == n.pools[n.flight.id := n.unused[0]];
  }

  function OneNode(e: Etcd, n: Node, released: set<PoolId>): Cluster {
    Cluster(e, map[0 := n], map[0 := 0], released)
  }

  /** A pool claims the head of a single node's list. */
  lemma OneNodeClaims(all: seq<Prefix>, e: Etcd, n: Node, released: set<PoolId>, id: PoolId)
    requires n.flight.Idle? && id != "" && id !in n.pools && n.unused != [] && n.unused[0] !in e.owner
    ensures var s := n.unused[0];
      var c, asked := OneNode(e, n, released), OneNode(e, n.(flight := Reserving(id, map[])), released);
      && Enabled(c, Request(0, id)) && Apply(all, c, Request(0, id)) == asked
      && Enabled(asked, Turn(0, Answered))
      && Apply(all, asked, Turn(0, Answered))
           == OneNode(Etcd(e.owner[s := id], e.log + [Put(s, id)]), Node(n.unused[1..], n.pools[id := s], Idle),
                      released)
  {
    FreeTurn(n.(flight := Reserving(id, map[])), e);
  }

  /** The only node starts from an empty etcd. */
  lemma OneNodeStarts(all: seq<Prefix>)
    ensures Enabled(EMPTY_CLUSTER, Start(0, map[]))
    ensures Apply(all, EMPTY_CLUSTER, Start(0, map[])) == OneNode(Etcd(map[], []), Node(all, map[], Idle), {})
  {
    WithoutNothing(all);
    var none: map<PoolId, Prefix> := map[];
    assert none.Values == {} && Started(all, none) == Node(all, map[], Idle);
  }

  /** It forgets a pool whose release is lost. */
  lemma OneNodeForgets(all: seq<Prefix>, e: Etcd, unused: seq<Prefix>, s: Prefix, id: PoolId)
    ensures var c := OneNode(e, Node(unused, map[id := s], Idle), {});
      && Enabled(c, Release(0, id, RequestLost))
      && Apply(all, c, Release(0, id, RequestLost)) == OneNode(e, Node(unused, map[], Idle), {id})
  {
    var pools := map[id := s];
    assert pools - {id} == map[];
  }

  lemma SegmentAppend(all: seq<Prefix>, states: seq<Cluster>, steps: seq<Step>, states': seq<Cluster>,
                      steps': seq<Step>)
    requires Segment(all, states, steps) && Segment(all, states', steps') && states[|steps|] == states'[0]
    ensures Segment(all, states + states'[1..], steps + steps')
    ensures (states + states'[1..])[|steps + steps'|] == states'[|steps'|]
  {
    var n, joined, both := |steps|, states + states'[1..], steps + steps';
    assert forall k :: 0 <= k <= n ==> joined[k] == states[k];
    assert forall k :: n <= k < |joined| ==> joined[k] == states'[k - n];
    forall k | 0 <= k < |both|
      ensures Enabled(joined[k], both[k]) && joined[k + 1] == Apply(all, joined[k], both[k])
    {
      if k < n {
        assert both[k] == steps[k];
      } else {
        assert both[k] == steps'[k - n];
      }
    }
  }

  /** From the start: the only node starts, and a pool claims the first subnet. */
  lemma FirstClaim(s: Prefix, t: Prefix, id: PoolId) returns (states: seq<Cluster>, steps: seq<Step>)
    requires s != t && id != ""
    ensures Run([s, t], states, steps) && forall k :: 0 <= k < |steps| ==> !steps[k].Release?
    ensures states[|steps|] == OneNode(Etcd(map[s := id], [Put(s, id)]), Node([t], map[id := s], Idle), {})
  {
    var all, e, n := [s, t], Etcd(map[], []), Node([s, t], map[], Idle);
    OneNodeStarts(all);
    OneNodeClaims(all, e, n, {}, id);
    assert all[1..] == [t];
    steps := [Start(0, map[]), Request(0, id), Turn(0, Answered)];
    states := [EMPTY_CLUSTER, OneNode(e, n, {}), OneNode(e, n.(flight := Reserving(id, map[])), {}),
               OneNode(Etcd(map[s := id], [Put(s, id)]), Node([t], map[id := s], Idle), {})];
  }

  /** From there: the release is lost, and the pool claims the second subnet. */
  lemma SecondClaim(s: Prefix, t: Prefix, id: PoolId) returns (states: seq<Cluster>, steps: seq<Step>)
    requires s != t && id != ""
    ensures Segment([s, t], states, steps) && forall k :: 0 <= k < |steps| ==> Uncommitted(steps[k])
    ensures states[0] == OneNode(Etcd(map[s := id], [Put(s, id)]), Node([t], map[id := s], Idle), {})
    ensures states[|steps|]
      == OneNode(Etcd(map[s := id, t := id], [Put(s, id), Put(t, id)]), Node([], map[id := t], Idle), {id})
  {
    var e, n := Etcd(map[s := id], [Put(s, id)]), Node([t], map[], Idle);
    OneNodeForgets([s, t], e, [t], s, id);
    OneNodeClaims([s, t], e, n, {id}, id);
    assert [t][1..] == [] && e.log + [Put(t, id)] == [Put(s, id), Put(t, id)];
    steps := [Release(0, id, RequestLost), Request(0, id), Turn(0, Answered)];
    states := [OneNode(e, Node([t], map[id := s], Idle), {}), OneNode(e, n, {id}),
               OneNode(e, n.(flight := Reserving(id, map[])), {id}),
               OneNode(Etcd(map[s := id, t := id], [Put(s, id), Put(t, id)]), Node([], map[id := t], Idle), {id})];
  }

  /** A pool that somebody began to release can own two subnets although no release commits: the lost release makes
      the node forget the pool while etcd still records it, and the next request claims a second subnet. */
  lemma LostReleaseBreaksUniqueness(s: Prefix, t: Prefix, id: PoolId) returns (states: seq<Cluster>, steps: seq<Step>)
    requires s != t && id != ""
    ensures Run([s, t], states, steps) && forall k :: 0 <= k < |steps| ==> Uncommitted(steps[k])
    ensures var c := states[|steps|];
      && c.etcd.owner == map[s := id, t := id]
      && 0 in c.nodes && c.nodes[0].pools == map[id := t]
  {
    var states', steps';
    states, steps := FirstClaim(s, t, id);
    states', steps' := SecondClaim(s, t, id);
    SegmentAppend([s, t], states, steps, states', steps');
    states, steps := states + states'[1..], steps + steps';
  }
}
