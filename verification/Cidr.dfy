/** IPv4 addresses and CIDR prefixes (section 3.1 of RFC 4632), as numbers. */
module Cidr {

  /** Two to the power n: the value of Go's `1 << n`. */
  function Pow2(n: nat): (p: nat)
    ensures p >= 1
  {
    if n == 0 then 1 else 2 * Pow2(n - 1)
  }

  const ADDRESSES: nat := 0x1_0000_0000

  /** A subnet in CIDR form: its base address and the number of leading one bits of its mask. */
  datatype Prefix = Prefix(base: nat, ones: nat) {

    /** The prefix denotes an aligned block that lies inside the IPv4 address range. */
    ghost predicate Valid() {
      ones <= 32 && base % Pow2(32 - ones) == 0 && base + Pow2(32 - ones) <= ADDRESSES
    }

    function Size(): nat
      requires ones <= 32
    {
      Pow2(32 - ones)
    }

    predicate Contains(address: int)
      requires ones <= 32
    {
      base <= address < base + Size()
    }
  }

  /** No address lies in both prefixes. */
  ghost predicate Disjoint(p: Prefix, q: Prefix)
    requires p.ones <= 32 && q.ones <= 32
  {
    forall a: int :: !(p.Contains(a) && q.Contains(a))
  }

  ghost predicate PairwiseDisjoint(ps: seq<Prefix>) {
    && (forall i :: 0 <= i < |ps| ==> ps[i].ones <= 32)
    && (forall i, j :: 0 <= i < j < |ps| ==> Disjoint(ps[i], ps[j]))
  }

  lemma {:induction false} Pow2Add(m: nat, n: nat)
    ensures Pow2(m + n) == Pow2(m) * Pow2(n)
  {
    if m == 0 {
    } else {
      Pow2Add(m - 1, n);
    }
  }

  lemma Pow2At32()
    ensures Pow2(32) == ADDRESSES
  {
    Pow2Add(16, 16);
    Pow2Add(8, 8);
    assert Pow2(8) == 256;
  }

  /** The base of the block of `size` numbers that holds `a`. */
  function BlockStart(a: nat, size: nat): nat
    requires size > 0
  {
    a / size * size
  }

  lemma DivideBlock(q: nat, d: nat, r: nat)
    requires r < d
    ensures (q * d + r) / d == q
    ensures (q * d + r) % d == r
  {
    var n := q * d + r;
    assert (n / d - q) * d == r - n % d;
    Multiples(n / d - q, d);
  }

  lemma Multiples(x: int, d: nat)
    ensures x >= 1 ==> x * d >= d
    ensures x <= -1 ==> x * d + d <= 0
  {
  }

  /** A multiple of `n * t` stays a multiple of `t` when whole blocks of `t` are added. */
  lemma AlignedBlock(base: nat, n: nat, t: nat, i: nat)
    requires n * t > 0 && base % (n * t) == 0
    ensures t > 0 && (base + i * t) % t == 0
  {
    var q := base / (n * t);
    assert base == q * (n * t);
    assert base == (q * n) * t;
    DivideBlock(q * n + i, t, 0);
  }

  lemma BlockFits(n: nat, t: nat, i: nat)
    requires i < n
    ensures i * t + t <= n * t
  {
    var d := n - i - 1;
    assert n * t == i * t + t + d * t;
  }

  lemma QuotientBelow(x: nat, n: nat, t: nat)
    requires t > 0 && x < n * t
    ensures x / t < n
  {
    var d := x / t - n;
    assert x / t * t == n * t + d * t;
    Multiples(d, t);
  }

  lemma QuotientIs(x: nat, t: nat, i: nat)
    requires t > 0
    ensures i * t <= x < i * t + t <==> x / t == i
  {
    if i * t <= x < i * t + t {
      DivideBlock(i, t, x - i * t);
    }
  }
}
