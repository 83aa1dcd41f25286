/** The protocol over the tiled address space: networks on any nodes get disjoint address ranges. */
module NetworkRanges {
  import opened Basics
  import opened Cidr
  import opened ClusterSafety
  import opened SubnetProtocol
  import opened Tiling

  lemma DisjointMeansDistinct(ps: seq<Prefix>)
    requires AllValid(ps) && PairwiseDisjoint(ps)
    ensures NoRepeats(ps)
  {
    forall i, j | 0 <= i < j < |ps|
      ensures ps[i] != ps[j]
    {
      assert Disjoint(ps[i], ps[j]);
      assert ps[i].Contains(ps[i].base);
    }
  }

  lemma DisjointMembers(ps: seq<Prefix>, p: Prefix, q: Prefix)
    requires PairwiseDisjoint(ps) && p in ps && q in ps && p != q
    ensures p.ones <= 32 && q.ones <= 32 && Disjoint(p, q)
  {
    var i :| 0 <= i < |ps| && ps[i] == p;
    var j :| 0 <= j < |ps| && ps[j] == q;
    if i < j {
      assert Disjoint(ps[i], ps[j]);
    } else {
      assert Disjoint(ps[j], ps[i]);
    }
  }

  /** In every run over the subnets cut from pairwise disjoint spaces: two networks that nobody has begun to release,
      on any pair of nodes, never share an address, whatever happens to other networks. */
  lemma NetworksNeverOverlap(spaces: seq<Prefix>, poolSize: nat, states: seq<Cluster>, steps: seq<Step>, k: nat, i: nat,
                             j: nat, x: PoolId, y: PoolId)
    requires AllValid(spaces) && PairwiseDisjoint(spaces) && poolSize <= 32
    requires Run(Tiles(spaces, poolSize), states, steps) && k < |states|
    requires var c := states[k];
      && i in c.nodes && x in c.nodes[i].pools && x !in c.released
      && j in c.nodes && y in c.nodes[j].pools && y !in c.released
    requires x != y
    ensures var p, q := states[k].nodes[i].pools[x], states[k].nodes[j].pools[y];
      p.ones == q.ones == poolSize && Disjoint(p, q)
  {
    var all := Tiles(spaces, poolSize);
    TilesAreExact(spaces, poolSize);
    UnreleasedPoolsAreSafe(all, states, steps, k, i, j, x, y);
    UnreleasedPoolsAreSafe(all, states, steps, k, j, i, y, x);
    DisjointMembers(all, states[k].nodes[i].pools[x], states[k].nodes[j].pools[y]);
  }

  /** ... and in a run in which no release commits, all nodes that know a network nobody has begun to release know it
      under the same range. */
  lemma NetworksAgree(spaces: seq<Prefix>, poolSize: nat, states: seq<Cluster>, steps: seq<Step>, k: nat, i: nat,
                      j: nat, x: PoolId)
    requires AllValid(spaces) && PairwiseDisjoint(spaces) && poolSize <= 32
    requires Run(Tiles(spaces, poolSize), states, steps) && k < |states|
    requires forall l :: 0 <= l < k ==> Uncommitted(steps[l])
    requires i in states[k].nodes && x in states[k].nodes[i].pools
    requires j in states[k].nodes && x in states[k].nodes[j].pools
    requires x !in states[k].released
    ensures states[k].nodes[i].pools[x] == states[k].nodes[j].pools[x]
  {
    TilesAreExact(spaces, poolSize);
    DisjointMeansDistinct(Tiles(spaces, poolSize));
    OneSubnetPerPool(Tiles(spaces, poolSize), states, steps, k);
  }
}
