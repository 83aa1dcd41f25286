/** IPv4 addresses as bytes: successor, masks, and the enumeration of a subnet. */
module IpMath {
  import opened Cidr

  type Byte = b: nat | b < 256
  type Ip = seq<Byte>

  /** The big-endian value of an address. */
  function Value(ip: Ip): nat {
    if ip == [] then 0 else 256 * Value(ip[..|ip| - 1]) + ip[|ip| - 1]
  }

  /** The next address in byte order, the carry running from the last byte; all ones becomes all zeroes. */
  function Successor(ip: Ip): (next: Ip)
    ensures |next| == |ip|
  {
    if ip == [] then []
    else
      var init, last := ip[..|ip| - 1], ip[|ip| - 1];
      if last == 255 then Successor(init) + [0] else init + [last + 1]
  }

  /** The number of addresses of `width` bytes. */
  function SpaceSize(width: nat): nat {
    if width == 0 then 1 else 256 * SpaceSize(width - 1)
  }

  lemma ValueSnoc(init: Ip, last: Byte)
    ensures Value(init + [last]) == 256 * Value(init) + last
  {
    assert (init + [last])[..|init|] == init;
  }

  /** For addresses of any width the carry adds one, and wraps to zero at the end of the address space. */
  lemma {:induction false} SuccessorValue(ip: Ip)
    ensures Value(ip) < SpaceSize(|ip|)
    ensures Value(Successor(ip)) == if Value(ip) + 1 == SpaceSize(|ip|) then 0 else Value(ip) + 1
  {
    if ip != [] {
      var init, last := ip[..|ip| - 1], ip[|ip| - 1];
      SuccessorValue(init);
      if last == 255 {
        ValueSnoc(Successor(init), 0);
      } else {
        ValueSnoc(init, last + 1);
      }
    }
  }

  /** What the carry does at byte `j`. */
  lemma SuccessorAt(ip: Ip, j: nat)
    requires j < |ip|
    ensures Successor(ip[..j + 1]) == if ip[j] == 255 then Successor(ip[..j]) + [0] else ip[..j] + [ip[j] + 1]
  {
    var head := ip[..j + 1];
    assert head[..|head| - 1] == ip[..j] && head[|head| - 1] == ip[j];
  }

  /** The carry has passed all bytes from `n` on. */
  ghost predicate Carried(ip: Ip, now: Ip, n: nat) {
    |now| == |ip| && n <= |ip| && now[..n] == ip[..n] && Successor(ip) == Successor(ip[..n]) + now[n..]
  }

  lemma CarriedByte(ip: Ip, now: Ip, j: nat)
    requires Carried(ip, now, j + 1)
    ensures now[j] == ip[j] && now[..j] == ip[..j]
  {
    assert ip[..j + 1][..j] == ip[..j] && now[..j + 1][..j] == now[..j];
    assert now[..j + 1][j] == ip[..j + 1][j];
  }

  /** A byte other than 255 takes the carry. */
  lemma CarryEnds(ip: Ip, now: Ip, j: nat, b: Byte)
    requires Carried(ip, now, j + 1) && now[j] < 255 && b == now[j] + 1
    ensures now[j := b] == Successor(ip)
  {
    CarriedByte(ip, now, j);
    SuccessorAt(ip, j);
    assert now[j := b] == now[..j] + [b] + now[j + 1..];
  }

  /** 255 becomes 0 and passes it on. */
  lemma CarryGoesOn(ip: Ip, now: Ip, j: nat)
    requires Carried(ip, now, j + 1) && now[j] == 255
    ensures Carried(ip, now[j := 0], j)
  {
    CarriedByte(ip, now, j);
    SuccessorAt(ip, j);
    assert now[j := 0][..j] == ip[..j];
    assert now[j := 0][j..] == [0] + now[j + 1..];
  }

  lemma CarryOne(ip: Ip, now: Ip, j: nat)
    requires Carried(ip, now, j + 1)
    ensures var b: int := now[j]; var next := now[j := (b + 1) % 256];
      if b < 255 then next == Successor(ip) else Carried(ip, next, j)
  {
    if now[j] < 255 {
      CarryEnds(ip, now, j, now[j] + 1);
    } else {
      CarryGoesOn(ip, now, j);
    }
  }

  method NextIP(ip: Ip) returns (next: Ip)
    ensures next == Successor(ip)
  {
    var a := new Byte[|ip|](i requires 0 <= i < |ip| => ip[i]);
    assert a[..] == ip && ip[..|ip|] == ip && a[..][|ip|..] == [];
    var j := |ip| - 1;
    while j >= 0
      invariant -1 <= j < |ip| && Carried(ip, a[..], j + 1)
    {
      ghost var now := a[..];
      CarryOne(ip, now, j);
      var b: int := a[j];
      a[j] := (b + 1) % 256;
      assert a[..] == now[j := a[j]];
      if a[j] != 0 {
        break;
      }
      j := j - 1;
    }
    assert j < 0 ==> a[..][0..] == a[..] && ip[..0] == [];
    next := a[..];
  }

  // ---------- order ----------

  /** The shifts and disjunctions that put four bytes into one word. */
  function Word(a: bv32, b: bv32, c: bv32, d: bv32): bv32 {
    (a << 24) | (b << 16) | (c << 8) | d
  }

  lemma WordIsSum(a: bv32, b: bv32, c: bv32, d: bv32)
    requires a < 256 && b < 256 && c < 256 && d < 256
    ensures Word(a, b, c, d) == 0x100_0000 * a + 0x1_0000 * b + 0x100 * c + d
  {
  }

  /** An IPv4 address as one number: the sum that WordIsSum shows the bit operations to be. */
  function IpToInt(ip: Ip): nat
    requires |ip| == 4
  {
    var a: int, b: int, c: int, d: int := ip[0], ip[1], ip[2], ip[3];
    0x100_0000 * a + 0x1_0000 * b + 0x100 * c + d
  }

  lemma IpToIntIsValue(ip: Ip)
    requires |ip| == 4
    ensures IpToInt(ip) == Value(ip)
  {
    var a, b, c := ip[..3], ip[..2], ip[..1];
    assert a[..2] == b && b[..1] == c && c[..0] == [];
    assert Value(c) == ip[0];
    assert Value(b) == 256 * Value(c) + ip[1];
    assert Value(a) == 256 * Value(b) + ip[2];
  }

  /** The addresses first differ at byte `i`, where `a` is smaller. */
  predicate SmallerAt(a: Ip, b: Ip, i: nat) {
    i < |a| && i < |b| && a[..i] == b[..i] && a[i] < b[i]
  }

  ghost predicate Precedes(a: Ip, b: Ip) {
    exists i: nat :: SmallerAt(a, b, i)
  }

  lemma PrecedesSnoc(a: Ip, b: Ip, x: Byte, y: Byte)
    requires |a| == |b|
    ensures Precedes(a + [x], b + [y]) <==> Precedes(a, b) || (a == b && x < y)
  {
    var a', b' := a + [x], b + [y];
    if Precedes(a', b') {
      var i: nat :| SmallerAt(a', b', i);
      if i < |a| {
        assert a'[..i] == a[..i] && b'[..i] == b[..i];
        assert SmallerAt(a, b, i);
      } else {
        assert a'[..i] == a && b'[..i] == b;
      }
    }
    if Precedes(a, b) {
      var i: nat :| SmallerAt(a, b, i);
      assert a'[..i] == a[..i] && b'[..i] == b[..i];
      assert SmallerAt(a', b', i);
    }
    if a == b && x < y {
      assert a'[..|a|] == a && b'[..|a|] == b;
      assert SmallerAt(a', b', |a|);
    }
  }

  /** Comparing the numbers of two addresses is comparing their bytes from the left. */
  lemma {:induction false} ValueOrder(a: Ip, b: Ip)
    requires |a| == |b|
    ensures Value(a) < Value(b) <==> Precedes(a, b)
    decreases |a|
  {
    if a != [] {
      var n := |a| - 1;
      ValueOrder(a[..n], b[..n]);
      ValueOrder(b[..n], a[..n]);
      PrecedesSnoc(a[..n], b[..n], a[n], b[n]);
      assert a == a[..n] + [a[n]] && b == b[..n] + [b[n]];
      if Value(a[..n]) == Value(b[..n]) {
        ValueInjective(a[..n], b[..n]);
      }
    }
  }

  /** The number of an address keeps the order of addresses and tells them apart. */
  lemma IpToIntIsOrderPreserving(a: Ip, b: Ip)
    requires |a| == 4 && |b| == 4
    ensures IpToInt(a) < IpToInt(b) <==> Precedes(a, b)
    ensures IpToInt(a) == IpToInt(b) <==> a == b
    ensures IpToInt(a) < ADDRESSES
  {
    IpToIntIsValue(a);
    IpToIntIsValue(b);
    ValueOrder(a, b);
    if Value(a) == Value(b) {
      ValueInjective(a, b);
    }
  }

  // ---------- masks ----------

  /** One byte of a mask with `k` leading ones. */
  function MaskByte(k: int): bv8 {
    if k <= 0 then 0x00 else if k == 1 then 0x80 else if k == 2 then 0xC0 else if k == 3 then 0xE0
    else if k == 4 then 0xF0 else if k == 5 then 0xF8 else if k == 6 then 0xFC else if k == 7 then 0xFE else 0xFF
  }

  function LowSize(k: int): (m: nat)
    ensures 1 <= m <= 256
  {
    if k <= 0 then 256 else if k == 1 then 128 else if k == 2 then 64 else if k == 3 then 32
    else if k == 4 then 16 else if k == 5 then 8 else if k == 6 then 4 else if k == 7 then 2 else 1
  }

  /** `b & mask`, for a mask byte with `k` leading ones. */
  function KeepHigh(b: Byte, k: int): Byte {
    b / LowSize(k) * LowSize(k)
  }

  /** `b | ^mask`, for a mask byte with `k` leading ones. */
  function FillLow(b: Byte, k: int): Byte {
    b / LowSize(k) * LowSize(k) + LowSize(k) - 1
  }

  ghost predicate Rounds(b: bv8, mask: bv8, m: int)
    requires m > 0
  {
    (b & mask) as int == b as int / m * m && (b | !mask) as int == b as int / m * m + m - 1
  }

  lemma RoundsUpTo4(b: bv8)
    ensures Rounds(b, 0x00, 256) && Rounds(b, 0x80, 128) && Rounds(b, 0xC0, 64) && Rounds(b, 0xE0, 32)
  {
  }

  lemma RoundsUpTo5(b: bv8)
    ensures Rounds(b, 0xF0, 16) && Rounds(b, 0xF8, 8)
  {
  }

  lemma RoundsUpTo6(b: bv8)
    ensures Rounds(b, 0xFC, 4)
  {
  }

  lemma RoundsUpTo8(b: bv8)
    ensures Rounds(b, 0xFE, 2) && Rounds(b, 0xFF, 1)
  {
  }

  /** The bit operations on a byte are these roundings. */
  lemma BitsAreBlocks(b: bv8, k: int)
    ensures Rounds(b, MaskByte(k), LowSize(k))
  {
    if k < 4 { RoundsUpTo4(b); }
    else if k < 6 { RoundsUpTo5(b); }
    else if k < 7 { RoundsUpTo6(b); }
    else { RoundsUpTo8(b); }
  }

  /** Byte `i` of an address under a mask with `ones` leading ones is masked with `ones - 8 * i` leading ones. */
  function And(ip: Ip, ones: nat): (r: Ip)
    ensures |r| == |ip|
  {
    if ip == [] then []
    else And(ip[..|ip| - 1], ones) + [KeepHigh(ip[|ip| - 1], ones - 8 * (|ip| - 1))]
  }

  function OrNot(ip: Ip, ones: nat): (r: Ip)
    ensures |r| == |ip|
  {
    if ip == [] then []
    else OrNot(ip[..|ip| - 1], ones) + [FillLow(ip[|ip| - 1], ones - 8 * (|ip| - 1))]
  }

  /** Rounding a two-digit number down to a block that splits its last digit rounds only that digit. */
  lemma RoundLastDigit(h: nat, b: nat, m: nat, c: nat)
    requires m * c == 256 && m > 0
    ensures (h * 256 + b) / m * m == h * 256 + b / m * m
  {
    var q := h * c + b / m;
    calc {
      q * m;
      h * c * m + b / m * m;
      h * (m * c) + b / m * m;
    }
    DivideBlock(q, m, b % m);
    assert h * 256 + b == q * m + b % m;
  }

  /** ... and to a block of whole digits drops the last digit. */
  lemma DropLastDigit(h: nat, b: nat, s: nat)
    requires b < 256 && s > 0
    ensures (h * 256 + b) / (256 * s) * (256 * s) == 256 * (h / s * s)
  {
    var q, r := h / s, h % s;
    assert h == q * s + r;
    assert h * 256 + b == q * (256 * s) + (r * 256 + b);
    DivideBlock(q, 256 * s, r * 256 + b);
  }

  lemma {:induction false} FullMask(ip: Ip, ones: nat)
    requires ones >= 8 * |ip|
    ensures And(ip, ones) == ip && OrNot(ip, ones) == ip
  {
    if ip != [] {
      FullMask(ip[..|ip| - 1], ones);
    }
  }

  lemma LowSizes(k: nat)
    requires k <= 8
    ensures LowSize(k) == Pow2(8 - k) && LowSize(k) * Pow2(k) == 256
  {
    assert Pow2(0) == 1 && Pow2(1) == 2 && Pow2(2) == 4 && Pow2(3) == 8;
    assert Pow2(4) == 16 && Pow2(5) == 32 && Pow2(6) == 64 && Pow2(7) == 128 && Pow2(8) == 256;
  }

  /** A mask that ends inside the last byte rounds that byte. */
  lemma MaskLastByte(init: Ip, last: Byte, k: nat)
    requires 0 <= k <= 8
    ensures var v, size := 256 * Value(init) + last, LowSize(k);
      && 256 * Value(init) + KeepHigh(last, k) == v / size * size
      && 256 * Value(init) + FillLow(last, k) == v / size * size + size - 1
  {
    LowSizes(k);
    RoundLastDigit(Value(init), last, LowSize(k), Pow2(k));
  }

  /** A mask that ends before the last byte clears or fills all of it. */
  lemma MaskNoLastByte(v: nat, last: Byte, s: nat)
    requires s > 0
    ensures (256 * v + last) / (256 * s) * (256 * s) == 256 * (v / s * s)
    ensures 256 * (v / s * s + s - 1) + 255 == 256 * (v / s * s) + 256 * s - 1
  {
    DropLastDigit(v, last, s);
  }

  lemma MaskSnoc(ip: Ip, ones: nat)
    requires ip != []
    ensures var init, last, k := ip[..|ip| - 1], ip[|ip| - 1], ones - 8 * (|ip| - 1);
      && Value(ip) == 256 * Value(init) + last
      && Value(And(ip, ones)) == 256 * Value(And(init, ones)) + KeepHigh(last, k)
      && Value(OrNot(ip, ones)) == 256 * Value(OrNot(init, ones)) + FillLow(last, k)
  {
    var init, last, k := ip[..|ip| - 1], ip[|ip| - 1], ones - 8 * (|ip| - 1);
    ValueSnoc(And(init, ones), KeepHigh(last, k));
    ValueSnoc(OrNot(init, ones), FillLow(last, k));
  }

  /** The mask of a prefix cuts an address to the base of its block, and its complement fills it to the last
      address of the block, for addresses of any width. */
  lemma {:induction false} MaskValue(ip: Ip, ones: nat)
    requires ones <= 8 * |ip|
    ensures var size := Pow2(8 * |ip| - ones); var base := Value(ip) / size * size;
      Value(And(ip, ones)) == base && Value(OrNot(ip, ones)) == base + size - 1
  {
    if ip != [] {
      var init, last, k := ip[..|ip| - 1], ip[|ip| - 1], ones - 8 * (|ip| - 1);
      MaskSnoc(ip, ones);
      if k >= 0 {
        FullMask(init, ones);
        LowSizes(k);
        MaskLastByte(init, last, k);
      } else {
        MaskValue(init, ones);
        LowSizes(0);
        Pow2Add(8, -k);
        MaskNoLastByte(Value(init), last, Pow2(-k));
      }
    }
  }

  // ---------- enumeration of a subnet ----------

  /** A subnet as the source holds it: the address of its network and the length of its mask. */
  datatype IPNet = IPNet(ip: Ip, ones: nat) {

    /** The IPv4 subnets that parsing a CIDR gives: the address is the base of its block. */
    ghost predicate Denotes(p: Prefix) {
      |ip| == 4 && p.Valid() && ones == p.ones && Value(ip) == p.base
    }

    predicate Contains(address: Ip) {
      |address| == |ip| && And(address, ones) == And(ip, ones)
    }
  }

  lemma {:induction false} ValueInjective(a: Ip, b: Ip)
    requires |a| == |b| && Value(a) == Value(b)
    ensures a == b
  {
    if a != [] {
      var n := |a| - 1;
      assert Value(a) == 256 * Value(a[..n]) + a[n] && Value(b) == 256 * Value(b[..n]) + b[n];
      ValueInjective(a[..n], b[..n]);
      assert a == a[..n] + [a[n]] && b == b[..n] + [b[n]];
    }
  }

  lemma {:induction false} SpaceIs(width: nat)
    ensures SpaceSize(width) == Pow2(8 * width)
  {
    if width > 0 {
      SpaceIs(width - 1);
      Pow2Add(8, 8 * (width - 1));
      LowSizes(0);
    }
  }

  lemma MaskedMember(a: Ip, p: Prefix)
    requires |a| == 4 && p.Valid()
    ensures Value(And(a, p.ones)) == p.base <==> p.Contains(Value(a))
  {
    MaskValue(a, p.ones);
    BlockBase(Value(a), p.base, p.Size());
  }

  lemma NetworkAndBroadcast(net: IPNet, p: Prefix)
    requires net.Denotes(p)
    ensures And(net.ip, net.ones) == net.ip
    ensures Value(OrNot(net.ip, net.ones)) == p.base + p.Size() - 1
  {
    MaskValue(net.ip, net.ones);
    BlockBase(p.base, p.base, p.Size());
    ValueInjective(And(net.ip, net.ones), net.ip);
  }

  /** Comparing masked bytes decides membership in the block of addresses. */
  lemma ContainsIsRange(net: IPNet, p: Prefix, a: Ip)
    requires net.Denotes(p) && |a| == 4
    ensures net.Contains(a) <==> p.Contains(Value(a))
  {
    NetworkAndBroadcast(net, p);
    MaskedMember(a, p);
    if Value(And(a, net.ones)) == p.base {
      ValueInjective(And(a, net.ones), And(net.ip, net.ones));
    }
  }

  lemma BlockBase(a: nat, base: nat, size: nat)
    requires size > 0 && base % size == 0
    ensures base / size * size == base
    ensures a / size * size == base <==> base <= a < base + size
  {
    if base <= a < base + size {
      DivideBlock(base / size, size, a - base);
    }
  }

  /** The first `n` bytes are filled outside the mask. */
  ghost predicate FilledUpTo(ip: Ip, ones: nat, now: Ip, n: nat) {
    |now| == |ip| && n <= |ip| && now[..n] == OrNot(ip[..n], ones) && now[n..] == ip[n..]
  }

  lemma FillOne(ip: Ip, ones: nat, now: Ip, n: nat)
    requires FilledUpTo(ip, ones, now, n) && n < |ip|
    ensures FilledUpTo(ip, ones, now[n := FillLow(now[n], ones - 8 * n)], n + 1)
  {
    var next := now[n := FillLow(now[n], ones - 8 * n)];
    assert now[n] == now[n..][0] && ip[n] == ip[n..][0];
    assert ip[..n + 1][..n] == ip[..n] && ip[..n + 1][n] == ip[n];
    assert next[..n + 1] == now[..n] + [next[n]];
    assert next[n + 1..] == now[n..][1..] && ip[n + 1..] == ip[n..][1..];
  }

  method GetBroadcastIP(subnet: IPNet) returns (broadcast: Ip)
    ensures broadcast == OrNot(subnet.ip, subnet.ones)
  {
    var a := new Byte[|subnet.ip|](i requires 0 <= i < |subnet.ip| => subnet.ip[i]);
    assert a[..] == subnet.ip;
    for i := 0 to a.Length
      invariant FilledUpTo(subnet.ip, subnet.ones, a[..], i)
    {
      ghost var now := a[..];
      FillOne(subnet.ip, subnet.ones, now, i);
      a[i] := FillLow(a[i], subnet.ones - 8 * i);
      assert a[..] == now[i := a[i]];
    }
    assert subnet.ip[..a.Length] == subnet.ip && a[..][..a.Length] == a[..];
    broadcast := a[..];
  }

  /** The addresses `from`, ..., of a block other than its network, gateway and broadcast address. */
  function Hosts(p: Prefix, from: nat, excludeGateway: bool, excludeBroadcast: bool): seq<nat>
    requires p.ones <= 32
    decreases p.base + p.Size() - from
  {
    if from >= p.base + p.Size() then []
    else
      (if from == p.base || (excludeGateway && from == p.base + 1)
          || (excludeBroadcast && from == p.base + p.Size() - 1)
       then [] else [from])
      + Hosts(p, from + 1, excludeGateway, excludeBroadcast)
  }

  ghost predicate FourBytes(ips: seq<Ip>) {
    forall i :: 0 <= i < |ips| ==> |ips[i]| == 4
  }

  function Values(ips: seq<Ip>): seq<nat> {
    seq(|ips|, i requires 0 <= i < |ips| => Value(ips[i]))
  }

  /** Counting from inside a block leaves it exactly after its last address, even where the count wraps to zero. */
  lemma CountInBlock(net: IPNet, p: Prefix, ip: Ip)
    requires net.Denotes(p) && p.ones >= 1 && |ip| == 4 && p.Contains(Value(ip))
    ensures if net.Contains(Successor(ip)) then Value(Successor(ip)) == Value(ip) + 1
            else Value(ip) + 1 == p.base + p.Size()
  {
    ContainsIsRange(net, p, Successor(ip));
    SuccessorValue(ip);
    SpaceIs(4);
    Pow2At32();
    Pow2Add(p.ones - 1, 32 - p.ones);
    Pow2Add(1, 31);
    assert Pow2(1) == 2;
    HalfSpace(p);
  }

  lemma TwiceAtMost(n: nat, size: nat)
    requires n >= 1
    ensures 2 * size <= 2 * n * size
  {
    assert n * size == size + (n - 1) * size;
  }

  lemma HalfSpace(p: Prefix)
    requires 1 <= p.ones <= 32
    ensures 2 * p.Size() <= ADDRESSES
  {
    var n, size := Pow2(p.ones - 1), p.Size();
    Pow2At32();
    Pow2Add(p.ones, 32 - p.ones);
    assert Pow2(p.ones) == 2 * n;
    assert ADDRESSES == 2 * n * size;
    TwiceAtMost(n, size);
  }

  lemma SameAddress(a: Ip, b: Ip)
    requires |a| == |b|
    ensures a == b <==> Value(a) == Value(b)
  {
    if Value(a) == Value(b) {
      ValueInjective(a, b);
    }
  }

  /** Taking or leaving the next address of a block brings the enumeration one address further. */
  lemma EnumerateOne(p: Prefix, ips: seq<Ip>, ip: Ip, excludeGateway: bool, excludeBroadcast: bool)
    requires p.ones <= 32 && p.base < Value(ip) < p.base + p.Size()
    ensures var v := Value(ip);
      Values(ips) + Hosts(p, v, excludeGateway, excludeBroadcast)
        == Values(if (excludeGateway && v == p.base + 1) || (excludeBroadcast && v == p.base + p.Size() - 1)
                  then ips else ips + [ip])
             + Hosts(p, v + 1, excludeGateway, excludeBroadcast)
  {
    assert Values(ips + [ip]) == Values(ips) + [Value(ip)];
  }

  /** The tests of the enumeration single out the network, gateway and broadcast addresses by number. */
  lemma TestsByNumber(net: IPNet, p: Prefix, ip: Ip)
    requires net.Denotes(p) && p.ones >= 1 && |ip| == 4 && p.base < Value(ip) < p.base + p.Size()
    ensures ip != net.ip
    ensures ip == Successor(net.ip) <==> Value(ip) == p.base + 1
    ensures ip == OrNot(net.ip, net.ones) <==> Value(ip) == p.base + p.Size() - 1
  {
    CountInBlock(net, p, net.ip);
    SameAddress(ip, Successor(net.ip));
    NetworkAndBroadcast(net, p);
    SameAddress(ip, OrNot(net.ip, net.ones));
  }

  /** The addresses found so far, and those from the next one on, are all. */
  ghost predicate Enumerated(p: Prefix, ips: seq<Ip>, ip: Ip, excludeGateway: bool, excludeBroadcast: bool)
    requires p.ones <= 32
  {
    && |ip| == 4 && p.Contains(Value(ip)) && FourBytes(ips)
    && Values(ips) + Hosts(p, Value(ip) + 1, excludeGateway, excludeBroadcast)
         == Hosts(p, p.base + 1, excludeGateway, excludeBroadcast)
  }

  /** The tests by which the enumeration leaves an address out. */
  predicate LeavesOut(net: IPNet, ip: Ip, excludeGateway: bool, excludeBroadcast: bool) {
    || ip == net.ip
    || (excludeGateway && ip == Successor(net.ip))
    || (excludeBroadcast && ip == OrNot(net.ip, net.ones))
  }

  /** One turn of the enumeration: the count leaves the block after its last address, or visits the next one. */
  lemma VisitNext(net: IPNet, p: Prefix, ips: seq<Ip>, ip: Ip, excludeGateway: bool, excludeBroadcast: bool)
    requires net.Denotes(p) && p.ones >= 1 && Enumerated(p, ips, ip, excludeGateway, excludeBroadcast)
    ensures var next := Successor(ip);
      if !net.Contains(next) then Values(ips) == Hosts(p, p.base + 1, excludeGateway, excludeBroadcast)
      else
        && Value(ip) < Value(next) < p.base + p.Size()
        && Enumerated(p, if LeavesOut(net, next, excludeGateway, excludeBroadcast) then ips else ips + [next], next,
                      excludeGateway, excludeBroadcast)
  {
    CountInBlock(net, p, ip);
    var next := Successor(ip);
    if net.Contains(next) {
      ContainsIsRange(net, p, next);
      TestsByNumber(net, p, next);
      EnumerateOne(p, ips, next, excludeGateway, excludeBroadcast);
    }
  }

  lemma EnumeratesFrom(net: IPNet, p: Prefix, excludeGateway: bool, excludeBroadcast: bool)
    requires net.Denotes(p)
    ensures Enumerated(p, [], And(net.ip, net.ones), excludeGateway, excludeBroadcast)
  {
    NetworkAndBroadcast(net, p);
  }

  /** Enumerates a subnet by counting from its base until the count leaves the block. */
  method IpsInSubnet(subnet: IPNet, ghost p: Prefix, excludeGateway: bool, excludeBroadcast: bool)
    returns (ips: seq<Ip>)
    requires subnet.Denotes(p) && p.ones >= 1
    ensures FourBytes(ips)
    ensures Values(ips) == Hosts(p, p.base + 1, excludeGateway, excludeBroadcast)
  {
    ips := [];
    var gatewayIP := NextIP(subnet.ip);
    var broadcastIP := GetBroadcastIP(subnet);
    var ip := And(subnet.ip, subnet.ones);
    EnumeratesFrom(subnet, p, excludeGateway, excludeBroadcast);
    while true
      invariant Enumerated(p, ips, ip, excludeGateway, excludeBroadcast)
      decreases p.base + p.Size() - Value(ip)
    {
      VisitNext(subnet, p, ips, ip, excludeGateway, excludeBroadcast);
      ip := NextIP(ip);
      if !subnet.Contains(ip) {
        break;
      }
      if ip == subnet.ip {
        continue;
      }
      if excludeGateway && ip == gatewayIP {
        continue;
      }
      if excludeBroadcast && ip == broadcastIP {
        continue;
      }
      ips := ips + [ip];
    }
  }

  /** A prefix of no bits holds every address, so that the count never leaves it and the enumeration never ends. */
  lemma ZeroPrefixNeverEnds(net: IPNet, p: Prefix, ip: Ip)
    requires net.Denotes(p) && p.ones == 0 && |ip| == 4
    ensures net.Contains(ip) && net.Contains(Successor(ip))
  {
    Pow2At32();
    AlwaysContained(net, p, ip);
    AlwaysContained(net, p, Successor(ip));
  }

  lemma AlwaysContained(net: IPNet, p: Prefix, ip: Ip)
    requires net.Denotes(p) && p.ones == 0 && |ip| == 4 && Pow2(32) == ADDRESSES
    ensures net.Contains(ip)
  {
    ContainsIsRange(net, p, ip);
    SuccessorValue(ip);
    SpaceIs(4);
  }

  lemma {:induction false} HostsFrom(p: Prefix, from: nat)
    requires p.ones <= 32 && p.base + 2 <= from <= p.base + p.Size()
    ensures var h := Hosts(p, from, true, true);
      && |h| == (if from < p.base + p.Size() then p.base + p.Size() - 1 - from else 0)
      && forall i :: 0 <= i < |h| ==> h[i] == from + i
    decreases p.base + p.Size() - from
  {
    if from < p.base + p.Size() {
      HostsFrom(p, from + 1);
    }
  }

  /** Exactly the addresses other than network, gateway and broadcast, in ascending order: three fewer than the
      block holds, or none in a block too small to have any. */
  lemma HostsOfPrefix(p: Prefix)
    requires p.ones <= 32
    ensures var h := Hosts(p, p.base + 1, true, true);
      && |h| == (if p.ones <= 30 then Pow2(32 - p.ones) - 3 else 0)
      && (forall i :: 0 <= i < |h| ==> h[i] == p.base + 2 + i)
      && (forall a :: a in h <==> p.Contains(a) && a != p.base && a != p.base + 1 && a != p.base + p.Size() - 1)
  {
    var h := Hosts(p, p.base + 1, true, true);
    assert Pow2(0) == 1 && Pow2(1) == 2;
    if p.ones <= 30 {
      Pow2Add(30 - p.ones, 2);
      assert Pow2(2) == 4;
    }
    if p.Size() > 1 {
      HostsFrom(p, p.base + 2);
    }
    forall a | p.Contains(a) && a != p.base && a != p.base + 1 && a != p.base + p.Size() - 1
      ensures a in h
    {
      assert h[a - p.base - 2] == a;
    }
  }
}
