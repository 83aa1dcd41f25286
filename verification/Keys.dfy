/** The texts under which addresses, subnets, pools and items appear in etcd, and their round trips. */
module Keys {
  import opened Basics
  import opened Cidr
  import opened GoText

  // ---------- IPv4 addresses ----------

  datatype Octets = Octets(a: nat, b: nat, c: nat, d: nat) {
    predicate Valid() {
      a < 256 && b < 256 && c < 256 && d < 256
    }

    function Value(): nat {
      0x100_0000 * a + 0x1_0000 * b + 0x100 * c + d
    }

    function Print(): string {
      Join([PrintNat(a), PrintNat(b), PrintNat(c), PrintNat(d)], '.')
    }
  }

  function OctetsOf(address: nat): Octets {
    Octets(address / 256 / 256 / 256, address / 256 / 256 % 256, address / 256 % 256, address % 256)
  }

  lemma OctetsOfValue(address: nat)
    requires address < ADDRESSES
    ensures OctetsOf(address).Valid() && OctetsOf(address).Value() == address
  {
  }

  lemma ValueOfOctets(o: Octets)
    requires o.Valid()
    ensures o.Value() < ADDRESSES && OctetsOf(o.Value()) == o
  {
    assert o.Value() / 256 == 0x1_0000 * o.a + 0x100 * o.b + o.c;
    assert o.Value() / 256 / 256 == 0x100 * o.a + o.b;
  }

  function PrintIP(address: nat): string {
    OctetsOf(address).Print()
  }

  function ParseOctet(s: string): Option<nat> {
    if |s| > 1 && s[0] == '0' then None
    else
      match ParseNat(s)
      case None => None
      case Some(n) => if n < 256 then Some(n) else None
  }

  function ParseOctets(parts: seq<string>): Option<Octets>
    requires |parts| == 4
  {
    var a, b, c, d := ParseOctet(parts[0]), ParseOctet(parts[1]), ParseOctet(parts[2]), ParseOctet(parts[3]);
    if a.Some? && b.Some? && c.Some? && d.Some? then Some(Octets(a.value, b.value, c.value, d.value)) else None
  }

  function ParseDotted(s: string): Option<nat> {
    var parts := Split(s, '.');
    if |parts| != 4 then None
    else
      match ParseOctets(parts)
      case None => None
      case Some(o) => Some(o.Value())
  }

  /** An address as the library holds it; IPv6 spellings of an IPv4 address give that IPv4 address. */
  datatype Address = V4(value: nat) | V6(wide: nat)

  function Dotted(s: string): Option<Address> {
    match ParseDotted(s)
    case None => None
    case Some(a) => Some(V4(a))
  }

  /** Any way to read addresses. */
  type Reader = string -> Option<Address>

  /** A reader takes dotted texts for what they are. What it makes of other texts is left open: the same address has
      many more spellings, such as "::ffff:10.0.0.5", "::FFFF:a00:5" and "0:0:0:0:0:ffff:10.0.0.5". */
  ghost predicate IsReader(parse: Reader) {
    && (forall t :: Dotted(t).Some? ==> parse(t) == Dotted(t))
    && (forall t :: parse(t).Some? && parse(t).value.V4? ==> parse(t).value.value < ADDRESSES)
  }

  predicate ColonFirst(s: string) {
    s != [] && (s[0] == ':' || (s[0] != '.' && s[0] != '%' && ColonFirst(s[1..])))
  }

  /** `net.ParseIP`: a text in which a colon comes first is an IPv6 text, read by any function; others are dotted. */
  function ParseIP(colonForm: Reader, s: string): Option<Address> {
    if ColonFirst(s) then colonForm(s) else Dotted(s)
  }

  lemma OctetRoundTrip(n: nat)
    requires n < 256
    ensures ParseOctet(PrintNat(n)) == Some(n)
    ensures '.' !in PrintNat(n) && '/' !in PrintNat(n) && '-' !in PrintNat(n) && ':' !in PrintNat(n)
    ensures IsDigit(PrintNat(n)[0])
  {
    ParsePrintedNat(n);
    if n == 0 {
      assert PrintNat(0) == [Digit(0)];
    }
  }

  lemma OctetsRoundTrip(o: Octets)
    requires o.Valid()
    ensures Split(o.Print(), '.') == [PrintNat(o.a), PrintNat(o.b), PrintNat(o.c), PrintNat(o.d)]
    ensures o.Print() != [] && IsDigit(o.Print()[0])
    ensures '/' !in o.Print() && '-' !in o.Print() && ':' !in o.Print()
  {
    OctetRoundTrip(o.a);
    OctetRoundTrip(o.b);
    OctetRoundTrip(o.c);
    OctetRoundTrip(o.d);
    var parts := [PrintNat(o.a), PrintNat(o.b), PrintNat(o.c), PrintNat(o.d)];
    SplitJoin(parts, '.');
    NoSuch(parts, '.', '/');
    NoSuch(parts, '.', '-');
    NoSuch(parts, '.', ':');
    assert o.Print()[0] == parts[0][0];
  }

  lemma {:induction false} NoSuch(s: seq<string>, sep: char, c: char)
    requires c != sep && forall i :: 0 <= i < |s| ==> c !in s[i]
    ensures c !in Join(s, sep)
  {
    if |s| > 1 {
      NoSuch(s[1..], sep, c);
    }
  }

  lemma ParsePrintedIP(address: nat)
    requires address < ADDRESSES
    ensures ParseDotted(PrintIP(address)) == Some(address)
    ensures PrintIP(address) != []
    ensures '/' !in PrintIP(address) && '-' !in PrintIP(address) && ':' !in PrintIP(address)
  {
    var o := OctetsOf(address);
    OctetsOfValue(address);
    OctetsRoundTrip(o);
    OctetRoundTrip(o.a);
    OctetRoundTrip(o.b);
    OctetRoundTrip(o.c);
    OctetRoundTrip(o.d);
  }

  lemma ParsedOctet(s: string)
    requires ParseOctet(s).Some?
    ensures PrintNat(ParseOctet(s).value) == s && ParseOctet(s).value < 256
  {
    PrintParsedNat(s);
  }

  lemma ParsedDotted(s: string)
    requires ParseDotted(s).Some?
    ensures ParseDotted(s).value < ADDRESSES && PrintIP(ParseDotted(s).value) == s
  {
    var parts := Split(s, '.');
    ParsedOctet(parts[0]);
    ParsedOctet(parts[1]);
    ParsedOctet(parts[2]);
    ParsedOctet(parts[3]);
    ValueOfOctets(ParseOctets(parts).value);
    JoinSplit(s, '.');
    assert parts == [parts[0], parts[1], parts[2], parts[3]];
  }

  lemma {:induction false} NoColonFirst(s: string)
    requires ':' !in s
    ensures !ColonFirst(s)
  {
    if s != [] {
      NoColonFirst(s[1..]);
    }
  }

  /** The library reads dotted texts as such, whatever it makes of IPv6 texts. */
  lemma ParseIPReads(colonForm: Reader, s: string)
    requires Dotted(s).Some?
    ensures ParseIP(colonForm, s) == Dotted(s) && Dotted(s).value.value < ADDRESSES
  {
    ParsedDotted(s);
    ParsePrintedIP(ParseDotted(s).value);
    NoColonFirst(s);
  }

  lemma ParseIPIsReader(colonForm: Reader)
    requires forall t :: colonForm(t).Some? && colonForm(t).value.V4? ==> colonForm(t).value.value < ADDRESSES
    ensures IsReader(s => ParseIP(colonForm, s))
  {
    forall s | Dotted(s).Some?
      ensures ParseIP(colonForm, s) == Dotted(s) && Dotted(s).value.value < ADDRESSES
    {
      ParseIPReads(colonForm, s);
    }
  }

  /** Of all the spellings of an IPv4 address exactly the dotted one is the text it prints as. */
  lemma ReadAsPrinted(parse: Reader, s: string)
    requires IsReader(parse) && parse(s).Some? && parse(s).value.V4?
    ensures PrintIP(parse(s).value.value) == s <==> Dotted(s).Some?
  {
    ParsePrintedIP(parse(s).value.value);
    if Dotted(s).Some? {
      ParsedDotted(s);
    }
  }

  // ---------- subnets ----------

  function PrintCIDR(p: Prefix): string {
    PrintIP(p.base) + "/" + PrintNat(p.ones)
  }

  function NetworkOf(address: nat, ones: nat): Option<Prefix> {
    if ones > 32 then None else Some(Prefix(BlockStart(address, Pow2(32 - ones)), ones))
  }

  /** `net.ParseCIDR` for IPv4: the network of the address under the mask. */
  function ParseCIDR(s: string): Option<Prefix> {
    var parts := Split(s, '/');
    if |parts| != 2 then None
    else
      var address, ones := ParseDotted(parts[0]), ParseNat(parts[1]);
      if address.Some? && ones.Some? then NetworkOf(address.value, ones.value) else None
  }

  lemma NetworkOfBase(p: Prefix)
    requires p.Valid()
    ensures NetworkOf(p.base, p.ones) == Some(p)
  {
    assert p.base == p.base / p.Size() * p.Size() + p.base % p.Size();
  }

  lemma ParsePrintedCIDR(p: Prefix)
    requires p.Valid()
    ensures ParseCIDR(PrintCIDR(p)) == Some(p)
    ensures '-' !in PrintCIDR(p)
    ensures PrintCIDR(p) != [] && PrintCIDR(p)[0] != '/'
  {
    ParsePrintedIP(p.base);
    ParsePrintedNat(p.ones);
    NetworkOfBase(p);
    SplitAt(PrintIP(p.base), PrintNat(p.ones), '/');
    SplitSingle(PrintIP(p.base), '/');
    SplitSingle(PrintNat(p.ones), '/');
  }

  function SubnetToKey(subnet: string): string {
    ReplaceAll(subnet, '/', '-')
  }

  function SubnetKey(prefix: string, p: Prefix): string {
    prefix + "/" + SubnetToKey(PrintCIDR(p))
  }

  /** What `getUsedSubnets` and the watch handler make of a key. */
  function ParseSubnetKey(prefix: string, key: string): Option<Prefix> {
    var rest := TrimLeft(TrimPrefix(key, prefix), '/');
    if '/' in rest then None else ParseCIDR(ReplaceAll(rest, '-', '/'))
  }

  /** A subnet's key parses back to the subnet, so different subnets have different keys. */
  lemma SubnetKeyRoundTrip(prefix: string, p: Prefix)
    requires p.Valid()
    ensures ParseSubnetKey(prefix, SubnetKey(prefix, p)) == Some(p)
  {
    var s := PrintCIDR(p);
    ParsePrintedCIDR(p);
    ReplaceBack(s, '/', '-');
    BelowPrefix(prefix, SubnetToKey(s));
  }

  /** A key further down is no subnet. */
  lemma DeeperIsNoSubnet(prefix: string, rest: string)
    requires rest == [] || rest[0] != '/'
    ensures '/' in rest ==> ParseSubnetKey(prefix, prefix + "/" + rest) == None
    ensures '/' !in rest ==> ParseSubnetKey(prefix, prefix + "/" + rest) == ParseCIDR(ReplaceAll(rest, '-', '/'))
  {
    BelowPrefix(prefix, rest);
  }

  lemma SubnetKeysDiffer(prefix: string, p: Prefix, q: Prefix)
    requires p.Valid() && q.Valid() && SubnetKey(prefix, p) == SubnetKey(prefix, q)
    ensures p == q
  {
    SubnetKeyRoundTrip(prefix, p);
    SubnetKeyRoundTrip(prefix, q);
  }

  /** On unbounded strings the replacement is reversible exactly when the subnet's text has no dash. */
  lemma SubnetToKeyReversible(subnet: string)
    ensures ReplaceAll(SubnetToKey(subnet), '-', '/') == subnet <==> '-' !in subnet
    ensures '/' !in SubnetToKey(subnet)
  {
    ReplaceBack(subnet, '/', '-');
  }

  // ---------- pool ids ----------

  function PoolID(flannelNetworkID: string): string {
    "FlannelPool" + "-" + flannelNetworkID
  }

  function PoolIDToNetworkID(poolID: string): string {
    Join(Split(poolID, '-')[1..], '-')
  }

  lemma PoolIDRoundTrip(flannelNetworkID: string)
    ensures PoolIDToNetworkID(PoolID(flannelNetworkID)) == flannelNetworkID
  {
    var id := flannelNetworkID;
    SplitAt("FlannelPool", id, '-');
    SplitSingle("FlannelPool", '-');
    assert (["FlannelPool"] + Split(id, '-'))[1..] == Split(id, '-');
    JoinSplit(id, '-');
  }

  // ---------- items of a sharded store ----------

  function ItemKey(prefix: string, shardKey: string, itemID: string): string {
    prefix + "/" + Join([shardKey, itemID], '/')
  }

  /** The shard and the item a key names; keys of another depth are ignored. */
  function ParseItemKey(prefix: string, key: string): Option<(string, string)> {
    var parts := Split(TrimLeft(TrimPrefix(key, prefix), '/'), '/');
    if |parts| != 2 then None else Some((parts[0], parts[1]))
  }

  lemma ItemKeyRoundTrip(prefix: string, shardKey: string, itemID: string)
    requires shardKey != [] && '/' !in shardKey && '/' !in itemID
    ensures ParseItemKey(prefix, ItemKey(prefix, shardKey, itemID)) == Some((shardKey, itemID))
  {
    var parts := [shardKey, itemID];
    assert Join(parts, '/')[0] == shardKey[0];
    BelowPrefix(prefix, Join(parts, '/'));
    SplitJoin(parts, '/');
  }

  /** The keys that name an item are exactly those two parts below the prefix. */
  lemma ItemKeyExactly(prefix: string, rest: string, shardKey: string, itemID: string)
    requires rest == [] || rest[0] != '/'
    ensures ParseItemKey(prefix, prefix + "/" + rest) == Some((shardKey, itemID))
       <==> rest == shardKey + "/" + itemID && '/' !in shardKey && '/' !in itemID
  {
    BelowPrefix(prefix, rest);
    var parts := Split(rest, '/');
    JoinSplit(rest, '/');
    SplitParts(rest, '/');
    if |parts| == 2 {
      assert parts == [parts[0], parts[1]];
      assert Join(parts, '/') == parts[0] + "/" + parts[1];
    }
    if rest == shardKey + "/" + itemID && '/' !in shardKey && '/' !in itemID {
      SplitSingle(shardKey, '/');
      SplitSingle(itemID, '/');
      SplitAt(shardKey, itemID, '/');
    }
  }

  // ---------- records of an address pool ----------

  /** The up to four keys of an address: its type and, below it, the data that goes with it. */
  datatype RecordKey = TypeKey(ip: string) | AllocatedAtKey(ip: string) | MacKey(ip: string) | ServiceIDKey(ip: string)

  /** The part of a key below the address. */
  function Suffix(key: RecordKey): string {
    match key
    case TypeKey(_) => []
    case AllocatedAtKey(_) => "allocated-at"
    case MacKey(_) => "mac"
    case ServiceIDKey(_) => "service-id"
  }

  function RenderRecordKey(prefix: string, key: RecordKey): string {
    prefix + "/" + if key.TypeKey? then key.ip else key.ip + "/" + Suffix(key)
  }

  function DataKey(ip: string, suffix: string): Option<RecordKey> {
    if suffix == "mac" then Some(MacKey(ip))
    else if suffix == "service-id" then Some(ServiceIDKey(ip))
    else if suffix == "allocated-at" then Some(AllocatedAtKey(ip))
    else None
  }

  lemma SuffixRoundTrip(key: RecordKey)
    requires !key.TypeKey?
    ensures DataKey(key.ip, Suffix(key)) == Some(key) && '/' !in Suffix(key)
  {
    assert "mac"[0] == 'm' && "service-id"[0] == 's' && "allocated-at"[0] == 'a';
  }

  /** How the decoder reads a key below the prefix; keys it does not know are skipped. */
  function ParseRecordKey(prefix: string, text: string): Option<RecordKey> {
    var key := TrimLeft(TrimPrefix(text, prefix), '/');
    if '/' !in key then Some(TypeKey(key))
    else
      var parts := Split(key, '/');
      if |parts| != 2 then None else DataKey(parts[0], parts[1])
  }

  lemma BelowAddress(ip: string, suffix: string)
    requires '/' !in ip && '/' !in suffix
    ensures Split(ip + "/" + suffix, '/') == [ip, suffix]
  {
    SplitSingle(ip, '/');
    SplitSingle(suffix, '/');
    SplitAt(ip, suffix, '/');
  }

  lemma RecordKeyRoundTrip(prefix: string, key: RecordKey)
    requires key.ip != [] && '/' !in key.ip
    ensures ParseRecordKey(prefix, RenderRecordKey(prefix, key)) == Some(key)
  {
    if key.TypeKey? {
      BelowPrefix(prefix, key.ip);
    } else {
      var text := key.ip + "/" + Suffix(key);
      BelowPrefix(prefix, text);
      SuffixRoundTrip(key);
      BelowAddress(key.ip, Suffix(key));
      assert text[|key.ip|] == '/';
    }
  }

  lemma DataKeyHasSuffix(ip: string, suffix: string)
    ensures DataKey(ip, suffix).Some? ==>
      var key := DataKey(ip, suffix).value; !key.TypeKey? && key.ip == ip && Suffix(key) == suffix
  {
  }

  /** Every key that is read as one of an address is rendered as it was. */
  lemma ParsedKeyIsRendered(prefix: string, rest: string)
    requires rest == [] || rest[0] != '/'
    requires ParseRecordKey(prefix, prefix + "/" + rest).Some?
    ensures RenderRecordKey(prefix, ParseRecordKey(prefix, prefix + "/" + rest).value) == prefix + "/" + rest
  {
    BelowPrefix(prefix, rest);
    if '/' in rest {
      var parts := Split(rest, '/');
      JoinSplit(rest, '/');
      DataKeyHasSuffix(parts[0], parts[1]);
      assert parts == [parts[0], parts[1]];
      assert Join(parts, '/') == parts[0] + "/" + parts[1];
    }
  }
}
