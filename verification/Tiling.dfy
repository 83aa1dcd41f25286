/** Cutting the address space into pool-sized subnets. */
module Tiling {
  import opened Basics
  import opened Cidr

  /** go-cidr's Subnet: subnet number `number` of the `newBits` bits that extend the prefix of `base`. */
  function CidrSubnet(base: Prefix, newBits: int, number: nat): Result<Prefix> {
    if newBits < 0 || base.ones + newBits > 32 || number >= Pow2(newBits) then Err
    else Ok(Prefix(base.base + number * Pow2(32 - base.ones - newBits), base.ones + newBits))
  }

  const TWO_TO_THE_63: int := 0x8000_0000_0000_0000

  /** Go's `1 << uint(n)` for a 64-bit integer: the last bit is the sign, and further ones, among them the huge counts
      that negative ones convert to, shift the bit out. */
  function ShiftOne(n: int): int {
    if 0 <= n <= 62 then Pow2(n) else if n == 63 then -TWO_TO_THE_63 else 0
  }

  /** 64-bit addition. */
  function Wrap(x: int): int {
    (x + TWO_TO_THE_63) % (2 * TWO_TO_THE_63) - TWO_TO_THE_63
  }

  lemma WrapAdd(x: int, y: int)
    ensures Wrap(Wrap(x) + y) == Wrap(x + y)
  {
  }

  function Tile(space: Prefix, poolSize: nat, i: nat): Prefix
    requires poolSize <= 32
  {
    Prefix(space.base + i * Pow2(32 - poolSize), poolSize)
  }

  /** The first tiles of a space; a space smaller than the pool size has none. */
  function FirstTiles(space: Prefix, poolSize: int, count: nat): (tiles: seq<Prefix>)
    requires poolSize <= 32 && count <= ShiftOne(poolSize - space.ones)
    ensures |tiles| == count
    ensures forall i :: 0 <= i < count ==> tiles[i] == Tile(space, poolSize, i)
  {
    if count == 0 then [] else FirstTiles(space, poolSize, count - 1) + [Tile(space, poolSize, count - 1)]
  }

  function TilesOf(space: Prefix, poolSize: int): seq<Prefix>
    requires poolSize <= 32
  {
    FirstTiles(space, poolSize, ShiftOne(poolSize - space.ones))
  }

  function Tiles(spaces: seq<Prefix>, poolSize: int): seq<Prefix>
    requires poolSize <= 32
  {
    if spaces == [] then [] else Tiles(spaces[..|spaces| - 1], poolSize) + TilesOf(spaces[|spaces| - 1], poolSize)
  }

  ghost predicate AllValid(spaces: seq<Prefix>) {
    forall i :: 0 <= i < |spaces| ==> spaces[i].Valid()
  }

  /** Subnets beyond the width of an address are asked for, unless the number of subnets has overflowed to nothing. */
  predicate AsksTooMuch(space: Prefix, poolSize: int) {
    poolSize > 32 && poolSize - space.ones <= 62
  }

  /** The library's subnet is the tile of that number, as long as addresses are wide enough. */
  lemma SubnetIsTile(space: Prefix, poolSize: int, i: nat)
    requires space.ones <= 32 && i < ShiftOne(poolSize - space.ones)
    ensures CidrSubnet(space, poolSize - space.ones, i)
      == if poolSize > 32 then Err else Ok(Tile(space, poolSize, i))
  {
    assert 32 - space.ones - (poolSize - space.ones) == 32 - poolSize;
  }

  /** The inner loop: the subnets of one space. */
  method SubnetsOf(availableSubnet: Prefix, poolSize: int) returns (r: Result<seq<Prefix>>)
    requires availableSubnet.Valid()
    ensures r.Err? <==> AsksTooMuch(availableSubnet, poolSize)
    ensures r.Ok? ==> r.value == if poolSize > 32 then [] else TilesOf(availableSubnet, poolSize)
  {
    var numSubnets := ShiftOne(poolSize - availableSubnet.ones);
    var subnets: seq<Prefix> := [];
    var i := 0;
    while i < numSubnets
      invariant 0 <= i && (i <= numSubnets || i == 0)
      invariant poolSize > 32 ==> i == 0 && subnets == []
      invariant poolSize <= 32 ==> subnets == FirstTiles(availableSubnet, poolSize, i)
    {
      SubnetIsTile(availableSubnet, poolSize, i);
      var subnet := CidrSubnet(availableSubnet, poolSize - availableSubnet.ones, i);
      if subnet.Err? {
        return Err;
      }
      subnets, i := subnets + [subnet.value], i + 1;
    }
    r := Ok(subnets);
  }

  method GenerateAllSubnets(availableSubnets: seq<Prefix>, poolSize: int) returns (r: Result<seq<Prefix>>)
    requires AllValid(availableSubnets)
    ensures r.Err? <==> exists k :: 0 <= k < |availableSubnets| && AsksTooMuch(availableSubnets[k], poolSize)
    ensures r.Ok? ==> r.value == if poolSize > 32 then [] else Tiles(availableSubnets, poolSize)
  {
    var allSubnets: seq<Prefix> := [];
    for k := 0 to |availableSubnets|
      invariant forall j :: 0 <= j < k ==> !AsksTooMuch(availableSubnets[j], poolSize)
      invariant allSubnets == if poolSize > 32 then [] else Tiles(availableSubnets[..k], poolSize)
    {
      var subnets := SubnetsOf(availableSubnets[k], poolSize);
      if subnets.Err? {
        return Err;
      }
      allSubnets := allSubnets + subnets.value;
      assert availableSubnets[..k + 1][..k] == availableSubnets[..k];
    }
    assert availableSubnets[..|availableSubnets|] == availableSubnets;
    r := Ok(allSubnets);
  }

  /** A pool size of 100 over 10.0.0.0/8 gives no subnets and no error, because the number of subnets overflows. */
  method HundredGivesNothing() returns (r: Result<seq<Prefix>>)
    ensures r == Ok([])
  {
    var space := Prefix(0x0A00_0000, 8);
    assert Pow2(24) == 0x100_0000 by {
      Pow2Add(8, 16);
      Pow2Add(8, 8);
      assert Pow2(8) == 256;
    }
    assert space.Valid();
    r := GenerateAllSubnets([space], 100);
  }

  /** The subnets that the spaces are counted for, before the sum overflows. */
  function CountOf(spaces: seq<Prefix>, poolSize: int): int {
    if spaces == [] then 0
    else
      var last := spaces[|spaces| - 1];
      CountOf(spaces[..|spaces| - 1], poolSize) + if last.ones > poolSize then 0 else ShiftOne(poolSize - last.ones)
  }

  lemma {:induction false} CountIsTiles(spaces: seq<Prefix>, poolSize: int)
    requires poolSize <= 32
    ensures CountOf(spaces, poolSize) == |Tiles(spaces, poolSize)|
  {
    if spaces != [] {
      CountIsTiles(spaces[..|spaces| - 1], poolSize);
    }
  }

  lemma WrapSmall(x: int)
    requires 0 <= x < TWO_TO_THE_63
    ensures Wrap(x) == x
  {
  }

  lemma CountOne(spaces: seq<Prefix>, poolSize: int, k: nat, total: int)
    requires k < |spaces| && total == Wrap(CountOf(spaces[..k], poolSize))
    ensures Wrap(CountOf(spaces[..k + 1], poolSize))
      == if spaces[k].ones > poolSize then total else Wrap(total + ShiftOne(poolSize - spaces[k].ones))
  {
    assert spaces[..k + 1][..k] == spaces[..k];
    WrapAdd(CountOf(spaces[..k], poolSize), ShiftOne(poolSize - spaces[k].ones));
  }

  /** Counts exactly the subnets that are generated, up to 64-bit overflow. */
  method CountPoolSizeSubnets(completeSpace: seq<Prefix>, poolSize: int) returns (total: int)
    ensures total == Wrap(CountOf(completeSpace, poolSize))
    ensures poolSize <= 32 && |Tiles(completeSpace, poolSize)| < TWO_TO_THE_63 ==>
      total == |Tiles(completeSpace, poolSize)|
  {
    total := 0;
    WrapSmall(0);
    for k := 0 to |completeSpace|
      invariant total == Wrap(CountOf(completeSpace[..k], poolSize))
    {
      CountOne(completeSpace, poolSize, k, total);
      if completeSpace[k].ones > poolSize {
        continue;
      }
      total := Wrap(total + ShiftOne(poolSize - completeSpace[k].ones));
    }
    assert completeSpace[..|completeSpace|] == completeSpace;
    if poolSize <= 32 && |Tiles(completeSpace, poolSize)| < TWO_TO_THE_63 {
      CountIsTiles(completeSpace, poolSize);
      WrapSmall(|Tiles(completeSpace, poolSize)|);
    }
  }

  // ---------- the tiles cover the spaces exactly ----------

  ghost predicate Covers(ps: seq<Prefix>, a: int) {
    exists i :: 0 <= i < |ps| && ps[i].ones <= 32 && ps[i].Contains(a)
  }

  lemma TileSizes(space: Prefix, poolSize: nat)
    requires space.ones <= poolSize <= 32
    ensures space.Size() == Pow2(poolSize - space.ones) * Pow2(32 - poolSize)
  {
    Pow2Add(poolSize - space.ones, 32 - poolSize);
  }

  /** Tile `i` of a space is an aligned block inside it. */
  lemma TileValid(space: Prefix, poolSize: nat, i: nat)
    requires space.Valid() && space.ones <= poolSize <= 32 && i < Pow2(poolSize - space.ones)
    ensures Tile(space, poolSize, i).Valid()
    ensures i * Pow2(32 - poolSize) + Pow2(32 - poolSize) <= space.Size()
  {
    var t, n := Pow2(32 - poolSize), Pow2(poolSize - space.ones);
    TileSizes(space, poolSize);
    AlignedBlock(space.base, n, t, i);
    BlockFits(n, t, i);
  }

  /** An address of the space lies in tile `i` just when `i` is its quotient. */
  lemma TileOfAddress(space: Prefix, poolSize: nat, a: int, i: nat)
    requires space.Valid() && space.ones <= poolSize <= 32 && space.Contains(a)
    ensures Tile(space, poolSize, i).Contains(a) <==> (a - space.base) / Pow2(32 - poolSize) == i
    ensures (a - space.base) / Pow2(32 - poolSize) < Pow2(poolSize - space.ones)
  {
    var t, n, x := Pow2(32 - poolSize), Pow2(poolSize - space.ones), a - space.base;
    TileSizes(space, poolSize);
    QuotientIs(x, t, i);
    QuotientBelow(x, n, t);
  }

  /** A block within the bounds of another lies inside it. */
  lemma InsideByBounds(p: Prefix, q: Prefix)
    requires p.ones <= 32 && q.ones <= 32 && q.base <= p.base && p.base + p.Size() <= q.base + q.Size()
    ensures forall a: int :: p.Contains(a) ==> q.Contains(a)
  {
  }

  lemma TileBounds(base: nat, offset: nat, t: nat, size: nat)
    requires offset + t <= size
    ensures base <= base + offset && base + offset + t <= base + size
  {
  }

  lemma TileInside(space: Prefix, poolSize: nat, i: nat)
    requires space.Valid() && space.ones <= poolSize <= 32 && i < Pow2(poolSize - space.ones)
    ensures Tile(space, poolSize, i).Valid()
    ensures forall a: int :: Tile(space, poolSize, i).Contains(a) ==> space.Contains(a)
  {
    TileValid(space, poolSize, i);
    TileBounds(space.base, i * Pow2(32 - poolSize), Pow2(32 - poolSize), space.Size());
    InsideByBounds(Tile(space, poolSize, i), space);
  }

  lemma TilesInside(space: Prefix, poolSize: nat)
    requires space.Valid() && poolSize <= 32
    ensures var ts := TilesOf(space, poolSize);
      forall i :: 0 <= i < |ts| ==> ts[i].Valid() && ts[i].ones == poolSize && forall a: int :: ts[i].Contains(a) ==>
        space.Contains(a)
  {
    forall i: nat | i < |TilesOf(space, poolSize)|
      ensures Tile(space, poolSize, i).Valid()
      ensures forall a: int :: Tile(space, poolSize, i).Contains(a) ==> space.Contains(a)
    {
      TileInside(space, poolSize, i);
    }
  }

  lemma TilesApart(space: Prefix, poolSize: nat, i: nat, j: nat)
    requires space.Valid() && poolSize <= 32 && i < j < |TilesOf(space, poolSize)|
    ensures Disjoint(TilesOf(space, poolSize)[i], TilesOf(space, poolSize)[j])
  {
    TilesInside(space, poolSize);
    forall a: int | TilesOf(space, poolSize)[i].Contains(a)
      ensures !TilesOf(space, poolSize)[j].Contains(a)
    {
      TileOfAddress(space, poolSize, a, i);
      TileOfAddress(space, poolSize, a, j);
    }
  }

  lemma TileAt(space: Prefix, poolSize: nat, a: int)
    requires space.Valid() && space.ones <= poolSize <= 32 && space.Contains(a)
    ensures Covers(TilesOf(space, poolSize), a)
  {
    var i := (a - space.base) / Pow2(32 - poolSize);
    TileOfAddress(space, poolSize, a, i);
    assert TilesOf(space, poolSize)[i].Contains(a);
  }

  lemma TilesDisjoint(space: Prefix, poolSize: nat)
    requires space.Valid() && poolSize <= 32
    ensures PairwiseDisjoint(TilesOf(space, poolSize))
  {
    var ts := TilesOf(space, poolSize);
    forall i, j | 0 <= i < j < |ts|
      ensures Disjoint(ts[i], ts[j])
    {
      TilesApart(space, poolSize, i, j);
    }
  }

  /** The tiles of one space cut it into disjoint blocks that leave nothing out. */
  lemma TilesOfSpace(space: Prefix, poolSize: nat)
    requires space.Valid() && poolSize <= 32
    ensures PairwiseDisjoint(TilesOf(space, poolSize))
    ensures forall a: int :: Covers(TilesOf(space, poolSize), a) <==> space.ones <= poolSize && space.Contains(a)
  {
    TilesDisjoint(space, poolSize);
    TilesInside(space, poolSize);
    forall a: int | space.ones <= poolSize && space.Contains(a)
      ensures Covers(TilesOf(space, poolSize), a)
    {
      TileAt(space, poolSize, a);
    }
  }

  ghost predicate CoversLargeEnough(spaces: seq<Prefix>, poolSize: nat, a: int) {
    exists k :: 0 <= k < |spaces| && spaces[k].ones <= poolSize <= 32 && spaces[k].Contains(a)
  }

  lemma CoversSnoc(init: seq<Prefix>, last: Prefix, poolSize: nat, a: int)
    ensures CoversLargeEnough(init + [last], poolSize, a)
       <==> CoversLargeEnough(init, poolSize, a) || (last.ones <= poolSize <= 32 && last.Contains(a))
  {
    var spaces := init + [last];
    if CoversLargeEnough(spaces, poolSize, a) {
      var k :| 0 <= k < |spaces| && spaces[k].ones <= poolSize <= 32 && spaces[k].Contains(a);
      assert k < |init| ==> init[k].Contains(a);
    }
    if CoversLargeEnough(init, poolSize, a) {
      var k :| 0 <= k < |init| && init[k].ones <= poolSize <= 32 && init[k].Contains(a);
      assert spaces[k].Contains(a);
    }
    assert spaces[|init|] == last;
  }

  lemma LastIsApart(spaces: seq<Prefix>, poolSize: nat, a: int)
    requires AllValid(spaces) && PairwiseDisjoint(spaces) && spaces != []
    ensures var n := |spaces| - 1; !(CoversLargeEnough(spaces[..n], poolSize, a) && spaces[n].Contains(a))
  {
    var n := |spaces| - 1;
    if CoversLargeEnough(spaces[..n], poolSize, a) {
      var k :| 0 <= k < n && spaces[..n][k].ones <= poolSize <= 32 && spaces[..n][k].Contains(a);
      assert Disjoint(spaces[k], spaces[n]);
    }
  }

  /** The generated subnets are valid, pairwise disjoint prefixes of the pool size, and together hold exactly the
      addresses of those spaces that are no smaller than the pool size. */
  lemma {:induction false} TilesAreExact(spaces: seq<Prefix>, poolSize: nat)
    requires AllValid(spaces) && PairwiseDisjoint(spaces) && poolSize <= 32
    ensures var ts := Tiles(spaces, poolSize);
      && PairwiseDisjoint(ts) && AllValid(ts)
      && (forall i :: 0 <= i < |ts| ==> ts[i].ones == poolSize)
      && (forall a: int :: Covers(ts, a) <==> CoversLargeEnough(spaces, poolSize, a))
  {
    if spaces != [] {
      var n := |spaces| - 1;
      var init, last := spaces[..n], spaces[n];
      TilesAreExact(init, poolSize);
      TilesOfSpace(last, poolSize);
      TilesInside(last, poolSize);
      assert spaces == init + [last];
      var us, vs := Tiles(init, poolSize), TilesOf(last, poolSize);
      forall a: int
        ensures !(Covers(us, a) && Covers(vs, a))
        ensures CoversLargeEnough(spaces, poolSize, a)
           <==> CoversLargeEnough(init, poolSize, a) || (last.ones <= poolSize && last.Contains(a))
      {
        CoversSnoc(init, last, poolSize, a);
        LastIsApart(spaces, poolSize, a);
      }
      JoinDisjoint(us, vs);
    }
  }

  /** The subnets come space by space in the order of the spaces, and within a space by address. */
  lemma {:induction false} TilesInOrder(spaces: seq<Prefix>, poolSize: nat, k: nat, i: nat)
    requires poolSize <= 32 && k < |spaces| && i < ShiftOne(poolSize - spaces[k].ones)
    ensures var at := |Tiles(spaces[..k], poolSize)| + i;
      && at < |Tiles(spaces, poolSize)|
      && Tiles(spaces, poolSize)[at] == Prefix(spaces[k].base + i * Pow2(32 - poolSize), poolSize)
  {
    var n := |spaces| - 1;
    if k < n {
      assert spaces[..n][..k] == spaces[..k];
      TilesInOrder(spaces[..n], poolSize, k, i);
    }
  }

  lemma JoinDisjoint(us: seq<Prefix>, vs: seq<Prefix>)
    requires PairwiseDisjoint(us) && PairwiseDisjoint(vs)
    requires forall a: int :: !(Covers(us, a) && Covers(vs, a))
    ensures PairwiseDisjoint(us + vs)
    ensures forall a: int :: Covers(us + vs, a) <==> Covers(us, a) || Covers(vs, a)
  {
    var ws := us + vs;
    forall a: int
      ensures Covers(ws, a) <==> Covers(us, a) || Covers(vs, a)
    {
      if Covers(us, a) {
        var i :| 0 <= i < |us| && us[i].Contains(a);
        assert ws[i].Contains(a);
      }
      if Covers(vs, a) {
        var i :| 0 <= i < |vs| && vs[i].Contains(a);
        assert ws[|us| + i].Contains(a);
      }
    }
    forall i, j, a: int | 0 <= i < j < |ws|
      ensures !(ws[i].Contains(a) && ws[j].Contains(a))
    {
      if i < |us| <= j {
        assert us[i].Contains(a) ==> Covers(us, a);
        assert vs[j - |us|].Contains(a) ==> Covers(vs, a);
      } else if j < |us| {
        assert Disjoint(us[i], us[j]);
      } else {
        assert Disjoint(vs[i - |us|], vs[j - |us|]);
      }
    }
  }
}
