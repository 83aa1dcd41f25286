/** The address pool of one host: the class that keeps a cache over etcd's records, proved against PoolStates. */
module Pool {
  import opened Basics
  import opened Cidr
  import opened IpMath
  import opened Keys
  import NextFit
  import opened PoolRecords
  import opened PoolStates

  /** The part of etcd that holds the pool's records. The host subnet, and so the pool, belongs to one host. A request
      is answered, or lost before or after it is carried out. */
  class RecordStore {
    var records: Records

    constructor ()
      ensures records == map[]
    {
      records := map[];
    }

    /** Tries one transaction for each condition until one is accepted; request number `at` has the fault. */
    method AllocateIPByCondition(claim: Claim, ip: nat, now: int, at: nat, fault: Fault)
      returns (err: bool, result: Option<Allocation>)
      modifies this
      ensures var f := SeriesFault(old(records), claim, PrintIP(ip), at, fault);
        var accepted := Grantable(old(records), claim, PrintIP(ip));
        && (err <==> !f.Answered?)
        && result == (if accepted && f.Answered? then Some(Granted(claim, ip, now)) else None)
        && records == (if accepted && !f.RequestLost? then AfterGrant(old(records), claim, PrintIP(ip), now)
            else old(records))
    {
      var conditions := Conditions(claim, PrintIP(ip));
      for c := 0 to |conditions|
        invariant records == old(records) && (c <= at || fault.Answered?)
        invariant forall b :: 0 <= b < c ==> !AllHold(records, conditions[b])
      {
        var accepted := AllHold(records, conditions[c]);
        if accepted && !(c == at && fault.RequestLost?) {
          records := ApplyOps(records, AllocationOps(claim, PrintIP(ip), now));
        }
        if c == at && !fault.Answered? {
          return true, None;
        }
        if accepted {
          return false, Some(Granted(claim, ip, now));
        }
      }
      err, result := false, None;
    }

    /** A refused release reads back what etcd has instead, if it has the type and the time of the allocation. */
    method ReleaseAllocation(r: Allocation, fault: Fault)
      returns (err: bool, success: bool, current: Option<Allocation>)
      requires r.ip.Some? && r.ip.value.V4?
      modifies this
      ensures var t := PrintIP(r.ip.value.value);
        var accepted := AllHold(old(records), ReleaseConditions(r, t));
        && (err <==> !fault.Answered?)
        && success == (accepted && !err)
        && records == (if accepted && !fault.RequestLost? then AfterRelease(old(records), t) else old(records))
        && current == if accepted || err then None else CurrentAllocation(records, r.ip, t)
    {
      var t := PrintIP(r.ip.value.value);
      var accepted := AllHold(records, ReleaseConditions(r, t));
      if accepted && !fault.RequestLost? {
        ReleaseRecords(records, t);
        records := ApplyOps(records, ReleaseOps(t));
      }
      err := !fault.Answered?;
      success := accepted && !err;
      current := if accepted || err then None else CurrentAllocation(records, r.ip, t);
    }

    method DeleteAll(fault: Fault) returns (err: bool)
      modifies this
      ensures (err <==> !fault.Answered?) && records == if fault.RequestLost? then old(records) else map[]
    {
      if !fault.RequestLost? {
        records := map[];
      }
      err := !fault.Answered?;
    }

    method List() returns (kvs: seq<(RecordKey, Value)>)
      ensures Lists(kvs, records)
    {
      kvs := [];
      var rest := records.Keys;
      while rest != {}
        invariant rest <= records.Keys
        invariant forall i :: 0 <= i < |kvs| ==> kvs[i].0 in records && records[kvs[i].0] == kvs[i].1
        invariant forall k :: k in records && k !in rest ==> (k, records[k]) in kvs
      {
        var k :| k in rest;
        kvs, rest := kvs + [(k, records[k])], rest - {k};
      }
    }
  }

  function Texts(ips: seq<nat>): set<string> {
    set ip | ip in ips :: PrintIP(ip)
  }

  lemma TextsAreCanonical(ips: seq<nat>)
    requires forall a :: a in ips ==> a < ADDRESSES
    ensures AllCanonical(Texts(ips))
  {
    forall ip | ip in ips
      ensures Canonical(PrintIP(ip))
    {
      PrintedIsCanonical(ip);
    }
  }

  /** The records of the pool decode alike under every reader. */
  lemma SpelledDecodes(parse: Reader, m: map<string, Allocation>, records: Records)
    requires IsReader(parse) && WellFormed(records) && Spelled(records) && Decodes(parse, m, records)
    ensures Decodes(Dotted, m, records)
  {
    forall t | t in m
      ensures parse(t) == Dotted(t)
    {
      assert Canonical(TypeKey(t).ip);
    }
  }

  lemma SpelledIsReadable(parse: Reader, records: Records)
    requires IsReader(parse) && Spelled(records)
    ensures Readable(parse, records)
  {
    forall k | k in records
      ensures parse(k.ip).Some?
    {
      assert Canonical(k.ip);
    }
  }

  lemma TextsSnoc(ips: seq<nat>, ip: nat, t: string)
    requires t == PrintIP(ip)
    ensures Texts(ips + [ip]) == Texts(ips) + {t}
  {
  }

  /** The host addresses without an allocation, all unused from now. */
  function UnusedOf(texts: set<string>, allocated_: set<string>, now: int): map<string, int> {
    map t | t in texts && t !in allocated_ :: now
  }

  lemma UnusedOneMore(texts: set<string>, allocated_: set<string>, t: string, now: int)
    ensures UnusedOf(texts + {t}, allocated_, now)
      == if t in allocated_ then UnusedOf(texts, allocated_, now) else UnusedOf(texts, allocated_, now)[t := now]
  {
  }

  method UnusedSince(ips: seq<nat>, allocations: map<string, Allocation>, now: int) returns (unused: map<string, int>)
    ensures unused == UnusedOf(Texts(ips), allocations.Keys, now)
  {
    unused := map[];
    for i := 0 to |ips|
      invariant unused == UnusedOf(Texts(ips[..i]), allocations.Keys, now)
    {
      var t := PrintIP(ips[i]);
      assert ips[..i + 1] == ips[..i] + [ips[i]];
      TextsSnoc(ips[..i], ips[i], t);
      UnusedOneMore(Texts(ips[..i]), allocations.Keys, t, now);
      if t !in allocations {
        unused := unused[t := now];
      }
    }
    assert ips[..|ips|] == ips;
  }

  /** An address of the subnet other than network, gateway and broadcast. */
  predicate IsHost(p: Prefix, a: nat)
    requires p.ones <= 32
  {
    p.Contains(a) && a != p.base && a != p.base + 1 && a != p.base + p.Size() - 1
  }

  lemma HostsAreHosts(p: Prefix)
    requires p.Valid()
    ensures var hosts := Hosts(p, p.base + 1, true, true);
      (forall a :: a in hosts <==> IsHost(p, a)) && (forall a :: a in hosts ==> a < ADDRESSES)
  {
    HostsOfPrefix(p);
  }

  method ListHosts(net: IPNet, p: Prefix) returns (ips: seq<nat>)
    requires net.Denotes(p) && p.ones >= 1
    ensures (forall a :: a in ips <==> IsHost(p, a)) && (forall a :: a in ips ==> a < ADDRESSES)
  {
    var hosts := IpsInSubnet(net, p, true, true);
    HostsAreHosts(p);
    ips := Values(hosts);
  }

  /** The addresses that have records. */
  ghost function Recorded(records: Records): set<string> {
    set k | k in records :: k.ip
  }

  lemma RecordedIsCanonical(records: Records)
    requires Spelled(records)
    ensures AllCanonical(Recorded(records))
    ensures forall t :: TypeKey(t) in records ==> t in Recorded(records)
  {
    forall t | TypeKey(t) in records
      ensures t in Recorded(records)
    {
      assert TypeKey(t).ip == t;
    }
  }

  lemma StartsInv(ips: seq<nat>, records: Records, s: PoolState, now: int)
    requires forall a :: a in ips ==> a < ADDRESSES
    requires WellFormed(records) && Spelled(records) && Synced(Texts(ips), records, s, now)
    ensures Inv(Texts(ips), Recorded(records), {}, s)
  {
    TextsAreCanonical(ips);
    RecordedIsCanonical(records);
    SyncGivesInv(Texts(ips), Recorded(records), records, s, now);
  }

  // ---------- picking an address ----------

  method RestedTexts(unused: map<string, int>, now: int) returns (texts: seq<string>)
    ensures forall t :: t in texts <==> Rested(unused, t, now)
  {
    texts := [];
    var rest := unused.Keys;
    while rest != {}
      invariant rest <= unused.Keys
      invariant forall t :: t in texts <==> t !in rest && Rested(unused, t, now)
    {
      var t :| t in rest;
      rest := rest - {t};
      if Rested(unused, t, now) {
        texts := texts + [t];
      }
    }
  }

  method AllTexts(unused: map<string, int>) returns (texts: seq<string>)
    ensures forall t :: t in texts <==> t in unused
    ensures texts == [] <==> unused.Keys == {}
  {
    texts := [];
    var rest := unused.Keys;
    while rest != {}
      invariant rest <= unused.Keys
      invariant forall t :: t in texts <==> t in unused && t !in rest
    {
      var t :| t in rest;
      texts, rest := texts + [t], rest - {t};
    }
    assert texts != [] ==> texts[0] in texts;
  }

  /** `ips` are the addresses spelled by `texts`. */
  ghost predicate Reads(ips: seq<nat>, texts: seq<string>) {
    && |ips| == |texts|
    && forall i :: 0 <= i < |ips| ==> texts[i] == PrintIP(ips[i]) && ips[i] < ADDRESSES
  }

  lemma ReadsCanonical(parse: Reader, t: string)
    requires IsReader(parse) && Canonical(t)
    ensures parse(t).Some? && parse(t).value.V4? && parse(t).value.value < ADDRESSES
      && t == PrintIP(parse(t).value.value)
  {
    CanonicalIsPlain(t);
  }

  /** One text of an address, read. */
  method ParseOne(parse: Reader, t: string) returns (ip: nat)
    requires IsReader(parse) && Canonical(t)
    ensures t == PrintIP(ip) && ip < ADDRESSES
  {
    ReadsCanonical(parse, t);
    ip := parse(t).value.value;
  }

  lemma ReadsOneMore(ips: seq<nat>, texts: seq<string>, ip: nat)
    requires |ips| < |texts| && Reads(ips, texts[..|ips|]) && texts[|ips|] == PrintIP(ip) && ip < ADDRESSES
    ensures Reads(ips + [ip], texts[..|ips| + 1])
  {
    assert texts[..|ips| + 1] == texts[..|ips|] + [texts[|ips|]];
  }

  method ParseAll(parse: Reader, texts: seq<string>) returns (ips: seq<nat>)
    requires IsReader(parse) && forall i :: 0 <= i < |texts| ==> Canonical(texts[i])
    ensures Reads(ips, texts)
  {
    ips := [];
    for i := 0 to |texts|
      invariant Reads(ips, texts[..i])
    {
      var ip := ParseOne(parse, texts[i]);
      ReadsOneMore(ips, texts, ip);
      ips := ips + [ip];
    }
    assert texts[..|texts|] == texts;
  }

  lemma AvailableIsCanonical(hosts: set<string>, named: set<string>, doubt: set<string>, s: PoolState,
                             texts: seq<string>)
    requires Inv(hosts, named, doubt, s) && forall t :: t in texts ==> t in s.unused
    ensures forall i :: 0 <= i < |texts| ==> Canonical(texts[i])
  {
    forall i | 0 <= i < |texts|
      ensures Canonical(texts[i])
    {
      assert texts[i] in s.unused;
    }
  }

  /** The address of an IPv4 allocation. */
  predicate At(a: Allocation, ip: nat) {
    a.ip == Some(V4(ip))
  }

  predicate IsV4(a: Allocation) {
    a.ip.Some? && a.ip.value.V4? && a.ip.value.value < ADDRESSES
  }

  /** The latest of the cached allocations, and its address. */
  ghost predicate IsLatestIn(allocations: map<string, Allocation>, last: string, ip: nat) {
    && last in allocations && At(allocations[last], ip)
    && forall t :: t in allocations ==> allocations[t].allocatedAt <= allocations[last].allocatedAt
  }

  ghost predicate Offered(unused: map<string, int>, now: int, a: nat) {
    a < ADDRESSES && MayPick(unused, PrintIP(a), now)
  }

  /** `ip` is the least of the addresses that may be picked. */
  ghost predicate IsLeast(unused: map<string, int>, now: int, ip: nat) {
    forall a :: Offered(unused, now, a) ==> ip <= a
  }

  /** `ip` comes first after `last`, going round, among the addresses that may be picked. */
  ghost predicate ComesNext(unused: map<string, int>, now: int, ip: nat, last: nat) {
    forall a :: Offered(unused, now, a) ==> NextFit.StepsAfter(last, ip) <= NextFit.StepsAfter(last, a)
  }

  /** Next fit, over the pool's state. */
  ghost predicate FollowsLatest(s: PoolState, now: int, ip: nat) {
    if s.cached.Keys == {} then IsLeast(s.unused, now, ip)
    else exists t, last :: IsLatestIn(s.cached, t, last) && ComesNext(s.unused, now, ip, last)
  }

  /** The allocations as a list, in whatever order the map yields them. */
  ghost predicate StampsOf(stamps: seq<NextFit.Stamp>, texts: seq<string>, allocations: map<string, Allocation>) {
    && |stamps| == |texts|
    && (forall i :: 0 <= i < |stamps| ==>
          && texts[i] in allocations && At(allocations[texts[i]], stamps[i].ip)
          && stamps[i].allocatedAt == allocations[texts[i]].allocatedAt)
    && forall t :: t in allocations ==> t in texts
  }

  method ListStamps(allocations: map<string, Allocation>) returns (stamps: seq<NextFit.Stamp>, ghost texts: seq<string>)
    requires forall t :: t in allocations ==> IsV4(allocations[t])
    ensures StampsOf(stamps, texts, allocations)
  {
    stamps, texts := [], [];
    var rest := allocations.Keys;
    while rest != {}
      invariant rest <= allocations.Keys
      invariant |stamps| == |texts|
      invariant forall i :: 0 <= i < |stamps| ==>
          && texts[i] in allocations && At(allocations[texts[i]], stamps[i].ip)
          && stamps[i].allocatedAt == allocations[texts[i]].allocatedAt
      invariant forall t :: t in allocations && t !in rest ==> t in texts
    {
      var t :| t in rest;
      stamps := stamps + [NextFit.Stamp(allocations[t].ip.value.value, allocations[t].allocatedAt)];
      texts, rest := texts + [t], rest - {t};
    }
  }

  lemma PrintIsInjective(a: nat, b: nat)
    requires a < ADDRESSES && b < ADDRESSES && PrintIP(a) == PrintIP(b)
    ensures a == b
  {
    ParsePrintedIP(a);
    ParsePrintedIP(b);
  }

  lemma AvailableIndex(ips: seq<nat>, texts: seq<string>, a: nat)
    requires Reads(ips, texts) && a < ADDRESSES && PrintIP(a) in texts
    ensures a in ips
  {
    var i :| 0 <= i < |texts| && texts[i] == PrintIP(a);
    PrintIsInjective(a, ips[i]);
    assert ips[i] in ips;
  }

  lemma LeastOfListed(unused: map<string, int>, now: int, ip: nat, ips: seq<nat>, texts: seq<string>)
    requires Reads(ips, texts) && forall t :: t in texts <==> MayPick(unused, t, now)
    requires forall a :: a in ips ==> ip <= a
    ensures IsLeast(unused, now, ip)
  {
    forall a | Offered(unused, now, a)
      ensures ip <= a
    {
      AvailableIndex(ips, texts, a);
    }
  }

  lemma NextOfListed(unused: map<string, int>, now: int, ip: nat, last: nat, ips: seq<nat>, texts: seq<string>)
    requires Reads(ips, texts) && forall t :: t in texts <==> MayPick(unused, t, now)
    requires NextFit.IsNextAfter(ip, last, ips)
    ensures ComesNext(unused, now, ip, last)
  {
    forall a | Offered(unused, now, a)
      ensures NextFit.StepsAfter(last, ip) <= NextFit.StepsAfter(last, a)
    {
      AvailableIndex(ips, texts, a);
    }
  }

  lemma LatestStamp(stamps: seq<NextFit.Stamp>, keys: seq<string>, allocations: map<string, Allocation>, i: int)
    requires StampsOf(stamps, keys, allocations) && NextFit.IsLatestAt(i, stamps)
    ensures IsLatestIn(allocations, keys[i], stamps[i].ip)
  {
    forall t | t in allocations
      ensures allocations[t].allocatedAt <= allocations[keys[i]].allocatedAt
    {
      var j :| 0 <= j < |keys| && keys[j] == t;
      assert stamps[j].allocatedAt <= stamps[i].allocatedAt;
    }
  }

  lemma NoStamps(stamps: seq<NextFit.Stamp>, keys: seq<string>, allocations: map<string, Allocation>)
    requires StampsOf(stamps, keys, allocations)
    ensures stamps == [] <==> allocations.Keys == {}
  {
    if stamps != [] {
      assert keys[0] in allocations;
    } else {
      assert forall t :: t !in allocations;
    }
  }

  lemma FollowsStamps(s: PoolState, now: int, ip: nat, ips: seq<nat>, texts: seq<string>, stamps: seq<NextFit.Stamp>,
                      keys: seq<string>)
    requires Reads(ips, texts) && forall t :: t in texts <==> MayPick(s.unused, t, now)
    requires StampsOf(stamps, keys, s.cached) && NextFit.MayFollow(ip, ips, stamps)
    ensures FollowsLatest(s, now, ip)
  {
    NoStamps(stamps, keys, s.cached);
    if stamps == [] {
      LeastOfListed(s.unused, now, ip, ips, texts);
    } else {
      var last :| NextFit.IsLatest(last, stamps) && NextFit.IsNextAfter(ip, last, ips);
      var i :| NextFit.IsLatestAt(i, stamps) && stamps[i].ip == last;
      LatestStamp(stamps, keys, s.cached, i);
      NextOfListed(s.unused, now, ip, last, ips, texts);
    }
  }

  ghost predicate IsNextFit(ip: nat, ips: seq<nat>, allocations: map<string, Allocation>) {
    exists stamps, keys :: StampsOf(stamps, keys, allocations) && NextFit.MayFollow(ip, ips, stamps)
  }

  method NextToAllocate(allocations: map<string, Allocation>, ips: seq<nat>) returns (ip: nat)
    requires ips != [] && forall a :: a in ips ==> a < ADDRESSES
    requires forall t :: t in allocations ==> IsV4(allocations[t])
    ensures ip in ips && IsNextFit(ip, ips, allocations)
  {
    var stamps, keys := ListStamps(allocations);
    var choice := NextFit.GetNextAvailableIP(ips, stamps);
    ip := choice.ip;
  }

  lemma CachedIPs(hosts: set<string>, named: set<string>, doubt: set<string>, s: PoolState)
    requires Inv(hosts, named, doubt, s)
    ensures forall t :: t in s.cached ==> IsV4(s.cached[t]) && PrintIP(s.cached[t].ip.value.value) == t
  {
    forall t | t in s.cached
      ensures IsV4(s.cached[t]) && PrintIP(s.cached[t].ip.value.value) == t
    {
      assert t in hosts + named && Proper(Dotted, t, s.cached[t]);
      CanonicalIsPlain(t);
    }
  }

  lemma PickedText(ips: seq<nat>, texts: seq<string>, unused: map<string, int>, now: int, ip: nat)
    requires Reads(ips, texts) && ip in ips
    requires forall t :: t in texts <==> MayPick(unused, t, now)
    ensures ip < ADDRESSES && MayPick(unused, PrintIP(ip), now)
  {
    var i :| 0 <= i < |ips| && ips[i] == ip;
    assert texts[i] in texts;
  }

  // ---------- one turn of the loop that picks an address ----------

  /** The pool's state, and the addresses for which an answer was lost since. */
  datatype Known = Known(state: PoolState, doubt: set<string>)

  /** What a free address is asked for. */
  datatype Asking = Asking(random: bool, claim: Claim)

  /** When a turn takes place and what goes wrong in it: whether reading etcd fails, should it be read, and the fault of
      one request. */
  datatype Luck = Luck(now: int, readLost: bool, at: nat, fault: Fault)

  /** How a turn ends: without having read etcd, without any address, or with a request for an address. */
  datatype Turn = Unread | NoneLeft | Lost(ip: nat) | Refused(ip: nat) | Given(ip: nat)

  /** The address is one that may be picked, and the next one unless any will do. */
  ghost predicate Chosen(s: PoolState, a: Asking, now: int, ip: nat) {
    Offered(s.unused, now, ip) && (!a.random ==> FollowsLatest(s, now, ip))
  }

  ghost function FaultOf(s: PoolState, claim: Claim, ip: nat, luck: Luck): Fault {
    SeriesFault(s.records, claim, PrintIP(ip), luck.at, luck.fault)
  }

  /** What asking for an address, spelled `t`, does. */
  ghost function Tried(s: PoolState, t: string, ip: nat, claim: Claim, luck: Luck): PoolState {
    if Grantable(s.records, claim, PrintIP(ip))
    then Asked(s, t, ip, claim, luck.now, FaultOf(s, claim, ip, luck)) else s
  }

  /** How that ends. */
  ghost function EndOf(s: PoolState, claim: Claim, ip: nat, luck: Luck): Turn {
    if !FaultOf(s, claim, ip, luck).Answered? then Lost(ip)
    else if Grantable(s.records, claim, PrintIP(ip)) then Given(ip)
    else Refused(ip)
  }

  /** It has changed etcd. */
  ghost predicate ChangesEtcd(s: PoolState, claim: Claim, ip: nat, luck: Luck) {
    Grantable(s.records, claim, PrintIP(ip)) && !FaultOf(s, claim, ip, luck).RequestLost?
  }

  ghost function DoubtOnceTried(k: Known, claim: Claim, ip: nat, luck: Luck): set<string> {
    if Grantable(k.state.records, claim, PrintIP(ip))
    then DoubtAfterGrant(k.doubt, PrintIP(ip), FaultOf(k.state, claim, ip, luck)) else k.doubt
  }

  /** No unused address is in doubt. */
  ghost predicate Trusted(k: Known) {
    k.state.unused.Keys !! k.doubt
  }

  /** A pool without unused addresses has read etcd again. */
  ghost predicate LookedUp(hosts: set<string>, k: Known, now: int, k': Known) {
    Looked(hosts, k.state, now, k'.state) && k'.doubt == if k.state.unused.Keys == {} then {} else k.doubt
  }

  ghost predicate CannotRead(k: Known, luck: Luck) {
    k.state.unused.Keys == {} && luck.readLost
  }

  /** A turn once etcd has been read again, if that was needed. */
  ghost predicate Picks(k: Known, a: Asking, luck: Luck, turn: Turn, k': Known) {
    match turn
    case Unread => false
    case NoneLeft => k.state.unused.Keys == {} && k' == k
    case _ =>
      && Chosen(k.state, a, luck.now, turn.ip) && turn == EndOf(k.state, a.claim, turn.ip, luck)
      && k'.state == Tried(k.state, PrintIP(turn.ip), turn.ip, a.claim, luck)
      && k'.doubt == DoubtOnceTried(k, a.claim, turn.ip, luck)
  }

  /** One turn; `mid` is what is known once etcd has been read again, if that was needed. */
  ghost predicate TurnOf(hosts: set<string>, k: Known, a: Asking, luck: Luck, turn: Turn, mid: Known, k': Known) {
    if CannotRead(k, luck) then turn.Unread? && mid == k && k' == k
    else LookedUp(hosts, k, luck.now, mid) && Picks(mid, a, luck, turn, k')
  }

  ghost predicate Tracks(hosts: set<string>, named: set<string>, k: Known) {
    Inv(hosts, named, k.doubt, k.state)
  }

  lemma LookedUpTracks(hosts: set<string>, named: set<string>, k: Known, now: int, k': Known)
    requires Tracks(hosts, named, k) && LookedUp(hosts, k, now, k')
    ensures Tracks(hosts, named, k')
  {
    if k.state.unused.Keys == {} {
      SyncGivesInv(hosts, named, k.state.records, k'.state, now);
    }
  }

  lemma EmptyDataBreaks(hosts: set<string>, named: set<string>, doubt: set<string>, s: PoolState, t: string, ip: nat,
                        claim: Claim, now: int, fault: Fault)
    requires WellFormed(s.records) && Grantable(s.records, claim, PrintIP(ip)) && !Filled(claim) && !fault.RequestLost?
    ensures !Inv(hosts, named, doubt, Asked(s, t, ip, claim, now, fault))
  {
    GrantKeepsRecords(s.records, claim, PrintIP(ip), now);
  }

  /** Asking for an unused address keeps the invariant exactly if it leaves etcd alone or the MAC or service id is not
      empty. */
  lemma TriedTracks(hosts: set<string>, named: set<string>, k: Known, ip: nat, claim: Claim, luck: Luck)
    requires Tracks(hosts, named, k) && ip < ADDRESSES && PrintIP(ip) in k.state.unused
    ensures Tracks(hosts, named, Known(Tried(k.state, PrintIP(ip), ip, claim, luck),
                                       DoubtOnceTried(k, claim, ip, luck)))
       <==> ChangesEtcd(k.state, claim, ip, luck) ==> Filled(claim)
  {
    var s, fault := k.state, FaultOf(k.state, claim, ip, luck);
    if Grantable(s.records, claim, PrintIP(ip)) {
      if fault.RequestLost? || Filled(claim) {
        AskKeepsInv(hosts, named, k.doubt, s, ip, claim, luck.now, fault);
      } else {
        EmptyDataBreaks(hosts, named, DoubtOnceTried(k, claim, ip, luck), s, PrintIP(ip), ip, claim, luck.now, fault);
      }
    }
  }

  /** The turn has given an address in etcd, whether or not the host learns of it. */
  ghost predicate Spends(k: Known, a: Asking, luck: Luck, turn: Turn) {
    (turn.Given? || turn.Lost?) && ChangesEtcd(k.state, a.claim, turn.ip, luck)
  }

  lemma TurnTracks(hosts: set<string>, named: set<string>, k: Known, a: Asking, luck: Luck, turn: Turn, mid: Known,
                   k': Known)
    requires Tracks(hosts, named, k) && TurnOf(hosts, k, a, luck, turn, mid, k')
    ensures Tracks(hosts, named, mid)
    ensures Tracks(hosts, named, k') <==> (Spends(mid, a, luck, turn) ==> Filled(a.claim))
  {
    if !CannotRead(k, luck) {
      LookedUpTracks(hosts, named, k, luck.now, mid);
      if !turn.NoneLeft? {
        TriedTracks(hosts, named, mid, turn.ip, a.claim, luck);
        assert k' == Known(Tried(mid.state, PrintIP(turn.ip), turn.ip, a.claim, luck),
                           DoubtOnceTried(mid, a.claim, turn.ip, luck));
      }
    }
  }

  /** A turn that spends an address is a move of the pool. */
  lemma TurnMoves(hosts: set<string>, k: Known, a: Asking, luck: Luck, turn: Turn, k': Known)
    requires Picks(k, a, luck, turn, k') && Spends(k, a, luck, turn)
    ensures Moves(hosts, k.state, TakeUnused(turn.ip, a.claim, luck.now, FaultOf(k.state, a.claim, turn.ip, luck)),
                  k'.state)
  {
  }

  // ---------- the loop ----------

  /** Some address that may be picked is not to be had for the claim. */
  ghost predicate SomeRefused(s: PoolState, a: Asking, now: int) {
    exists ip :: Chosen(s, a, now, ip) && !Grantable(s.records, a.claim, PrintIP(ip))
  }

  /** No address that may be picked is to be had for the claim. */
  ghost predicate AllRefused(s: PoolState, a: Asking, now: int) {
    forall ip :: Chosen(s, a, now, ip) ==> !Grantable(s.records, a.claim, PrintIP(ip))
  }

  /** What is known after `turns` turns that were all refused: etcd was read in the first, if that was needed, and
      nothing has changed since. */
  ghost predicate StillTurning(hosts: set<string>, k: Known, a: Asking, lucks: seq<Luck>, turns: nat, k': Known)
    requires turns <= |lucks|
  {
    if turns == 0 then k' == k
    else if turns == 1 then
      && !CannotRead(k, lucks[0]) && LookedUp(hosts, k, lucks[0].now, k')
      && k'.state.unused.Keys != {} && SomeRefused(k'.state, a, lucks[0].now)
    else StillTurning(hosts, k, a, lucks, turns - 1, k') && SomeRefused(k'.state, a, lucks[turns - 1].now)
  }

  lemma {:induction false} OnceTurned(hosts: set<string>, k: Known, a: Asking, lucks: seq<Luck>, turns: nat, k': Known)
    requires 0 < turns <= |lucks| && StillTurning(hosts, k, a, lucks, turns, k')
    ensures !CannotRead(k, lucks[0]) && LookedUp(hosts, k, lucks[0].now, k') && k'.state.unused.Keys != {}
  {
    if turns > 1 {
      OnceTurned(hosts, k, a, lucks, turns - 1, k');
    }
  }

  lemma SameOnceTurned(hosts: set<string>, k: Known, a: Asking, lucks: seq<Luck>, turns: nat, k': Known)
    requires turns <= |lucks| && StillTurning(hosts, k, a, lucks, turns, k') && k.state.unused.Keys != {}
    ensures k' == k
  {
    if turns > 0 {
      OnceTurned(hosts, k, a, lucks, turns, k');
    }
  }

  /** The whole loop: it ends in its last turn, or turns as often as `lucks` says and is not over. */
  ghost predicate LoopOf(hosts: set<string>, k: Known, a: Asking, lucks: seq<Luck>, result: Option<Turn>, turns: nat,
                         mid: Known, k': Known) {
    match result
    case None => turns == |lucks| && StillTurning(hosts, k, a, lucks, turns, k') && mid == k'
    case Some(turn) =>
      && 0 < turns <= |lucks| && !turn.Refused?
      && StillTurning(hosts, k, a, lucks, turns - 1, if turns == 1 then k else mid)
      && TurnOf(hosts, if turns == 1 then k else mid, a, lucks[turns - 1], turn, mid, k')
  }

  /** What may be known after so many turns, all refused. */
  ghost function Turning(hosts: set<string>, k: Known, a: Asking, lucks: seq<Luck>, turns: nat): iset<Known>
    requires turns <= |lucks|
  {
    iset k': Known | StillTurning(hosts, k, a, lucks, turns, k')
  }

  /** How the loop may go. */
  datatype Course = Course(result: Option<Turn>, turns: nat, mid: Known, after: Known)

  ghost function Loops(hosts: set<string>, k: Known, a: Asking, lucks: seq<Luck>): iset<Course> {
    iset c: Course | LoopOf(hosts, k, a, lucks, c.result, c.turns, c.mid, c.after)
  }

  lemma OneTurnLess(hosts: set<string>, k: Known, a: Asking, lucks: seq<Luck>, turns: nat, k': Known)
    requires 0 < turns <= |lucks| && k' in Turning(hosts, k, a, lucks, turns)
    ensures SomeRefused(k'.state, a, lucks[turns - 1].now)
    ensures turns > 1 ==> k' in Turning(hosts, k, a, lucks, turns - 1)
  {
  }

  lemma {:induction false} RefusedAt(hosts: set<string>, k: Known, a: Asking, lucks: seq<Luck>, turns: nat, k': Known,
                                     i: nat)
    requires i < turns <= |lucks| && k' in Turning(hosts, k, a, lucks, turns)
    ensures SomeRefused(k'.state, a, lucks[i].now)
  {
    OneTurnLess(hosts, k, a, lucks, turns, k');
    if i < turns - 1 {
      RefusedAt(hosts, k, a, lucks, turns - 1, k', i);
    }
  }

  lemma StillTurningTracks(hosts: set<string>, named: set<string>, k: Known, a: Asking, lucks: seq<Luck>, turns: nat,
                           k': Known)
    requires turns <= |lucks| && Tracks(hosts, named, k) && k' in Turning(hosts, k, a, lucks, turns)
    ensures Tracks(hosts, named, k')
  {
    if turns > 0 {
      OnceTurned(hosts, k, a, lucks, turns, k');
      LookedUpTracks(hosts, named, k, lucks[0].now, k');
    }
  }

  lemma NothingToRead(hosts: set<string>, k: Known, a: Asking, luck: Luck, turn: Turn, mid: Known, k': Known)
    requires TurnOf(hosts, k, a, luck, turn, mid, k') && k.state.unused.Keys != {}
    ensures mid == k
  {
  }

  lemma RefusalChangesNothing(k: Known, a: Asking, luck: Luck, turn: Turn, k': Known)
    requires Picks(k, a, luck, turn, k') && turn.Refused?
    ensures k' == k && k.state.unused.Keys != {} && SomeRefused(k.state, a, luck.now)
  {
    assert Chosen(k.state, a, luck.now, turn.ip);
  }

  /** A refused turn is one more; the pool is as it was once etcd had been read. */
  lemma RefusedTurn(hosts: set<string>, k: Known, a: Asking, lucks: seq<Luck>, turns: nat, k1: Known, turn: Turn,
                    mid: Known, k': Known)
    requires turns < |lucks| && k1 in Turning(hosts, k, a, lucks, turns)
    requires TurnOf(hosts, k1, a, lucks[turns], turn, mid, k') && turn.Refused?
    ensures k' in Turning(hosts, k, a, lucks, turns + 1) && k' == mid
  {
    RefusalChangesNothing(mid, a, lucks[turns], turn, k');
    if turns > 0 {
      OnceTurned(hosts, k, a, lucks, turns, k1);
      NothingToRead(hosts, k1, a, lucks[turns], turn, mid, k');
    }
  }

  lemma LastTurn(hosts: set<string>, k: Known, a: Asking, lucks: seq<Luck>, turns: nat, k1: Known, turn: Turn,
                 mid: Known, k': Known)
    requires turns < |lucks| && k1 in Turning(hosts, k, a, lucks, turns)
    requires TurnOf(hosts, k1, a, lucks[turns], turn, mid, k') && !turn.Refused?
    ensures Course(Some(turn), turns + 1, mid, k') in Loops(hosts, k, a, lucks)
  {
    if turns > 0 {
      OnceTurned(hosts, k, a, lucks, turns, k1);
      NothingToRead(hosts, k1, a, lucks[turns], turn, mid, k');
    }
  }

  lemma NoTurnYet(hosts: set<string>, k: Known, a: Asking, lucks: seq<Luck>)
    ensures k in Turning(hosts, k, a, lucks, 0)
  {
  }

  lemma NotOverYet(hosts: set<string>, k: Known, a: Asking, lucks: seq<Luck>, k': Known)
    requires k' in Turning(hosts, k, a, lucks, |lucks|)
    ensures Course(None, |lucks|, k', k') in Loops(hosts, k, a, lucks)
  {
  }

  /** The loop has given an address in etcd, whether or not the host learns of it. */
  ghost predicate LoopSpends(a: Asking, lucks: seq<Luck>, result: Option<Turn>, turns: nat, mid: Known) {
    result.Some? && 0 < turns <= |lucks| && Spends(mid, a, lucks[turns - 1], result.value)
  }

  /** The loop keeps the invariant exactly if it leaves etcd alone or the MAC or service id is not empty. */
  lemma LoopTracks(hosts: set<string>, named: set<string>, k: Known, a: Asking, lucks: seq<Luck>, result: Option<Turn>,
                   turns: nat, mid: Known, k': Known)
    requires Tracks(hosts, named, k) && Course(result, turns, mid, k') in Loops(hosts, k, a, lucks)
    ensures Tracks(hosts, named, mid)
    ensures Tracks(hosts, named, k') <==> (LoopSpends(a, lucks, result, turns, mid) ==> Filled(a.claim))
  {
    match result
    case None => StillTurningTracks(hosts, named, k, a, lucks, turns, k');
    case Some(turn) =>
      var k1 := if turns == 1 then k else mid;
      StillTurningTracks(hosts, named, k, a, lucks, turns - 1, k1);
      TurnTracks(hosts, named, k1, a, lucks[turns - 1], turn, mid, k');
  }

  lemma NoRefusal(hosts: set<string>, named: set<string>, k: Known, a: Asking, lucks: seq<Luck>, turns: nat, k': Known)
    requires turns <= |lucks| && Tracks(hosts, named, k) && k' in Turning(hosts, k, a, lucks, turns) && Trusted(k)
    ensures turns == 0
  {
    if turns > 0 {
      OnceTurned(hosts, k, a, lucks, turns, k');
      LookedUpTracks(hosts, named, k, lucks[0].now, k');
      RefusedAt(hosts, k, a, lucks, turns, k', 0);
      var ip :| Chosen(k'.state, a, lucks[0].now, ip) && !Grantable(k'.state.records, a.claim, PrintIP(ip));
      UnusedIsGrantable(hosts, named, k'.doubt, k'.state, PrintIP(ip), a.claim);
      assert false;
    }
  }

  /** All turns but the last of a loop that ends are refused. */
  lemma AllButLast(hosts: set<string>, k: Known, a: Asking, lucks: seq<Luck>, c: Course) returns (k1: Known)
    requires c in Loops(hosts, k, a, lucks)
    ensures c.result.None? ==> c.turns == |lucks| && k1 in Turning(hosts, k, a, lucks, c.turns)
    ensures c.result.None? ==> k1 == c.after
    ensures c.result.Some? ==> 0 < c.turns <= |lucks| && k1 in Turning(hosts, k, a, lucks, c.turns - 1)
    ensures c.result.Some? ==>
      !c.result.value.Refused? && TurnOf(hosts, k1, a, lucks[c.turns - 1], c.result.value, c.mid, c.after)
  {
    k1 := if c.result.None? then c.after else if c.turns == 1 then k else c.mid;
  }

  /** As long as no unused address is in doubt, the loop ends with its first turn: with an address, because none is
      left, or because of a fault. */
  lemma FirstTurnDecides(hosts: set<string>, named: set<string>, k: Known, a: Asking, lucks: seq<Luck>, c: Course)
    requires Tracks(hosts, named, k) && c in Loops(hosts, k, a, lucks) && Trusted(k) && lucks != []
    ensures c.turns == 1 && c.result.Some?
  {
    var k1 := AllButLast(hosts, k, a, lucks, c);
    NoRefusal(hosts, named, k, a, lucks, if c.result.None? then c.turns else c.turns - 1, k1);
  }

  predicate NoFaults(lucks: seq<Luck>) {
    forall i :: 0 <= i < |lucks| ==> !lucks[i].readLost && lucks[i].fault.Answered?
  }

  lemma RefusedForSure(hosts: set<string>, k: Known, a: Asking, luck: Luck, turn: Turn, mid: Known, k': Known)
    requires TurnOf(hosts, k, a, luck, turn, mid, k') && luck.fault.Answered?
    requires k.state.unused.Keys != {} && AllRefused(k.state, a, luck.now)
    ensures turn.Refused?
  {
    NothingToRead(hosts, k, a, luck, turn, mid, k');
  }

  /** At none of the turns is an address to be had that may be picked then. */
  ghost predicate RefusedThroughout(s: PoolState, a: Asking, lucks: seq<Luck>) {
    forall i :: 0 <= i < |lucks| ==> AllRefused(s, a, lucks[i].now)
  }

  /** As long as no address that may be picked is to be had, the loop does not end and nothing changes, however often it
      turns. */
  lemma NeverEnds(hosts: set<string>, k: Known, a: Asking, lucks: seq<Luck>, c: Course)
    requires c in Loops(hosts, k, a, lucks) && NoFaults(lucks)
    requires k.state.unused.Keys != {} && RefusedThroughout(k.state, a, lucks)
    ensures c.result.None? && c.after == k
  {
    var k1 := AllButLast(hosts, k, a, lucks, c);
    SameOnceTurned(hosts, k, a, lucks, if c.result.None? then c.turns else c.turns - 1, k1);
    if c.result.Some? {
      RefusedForSure(hosts, k, a, lucks[c.turns - 1], c.result.value, c.mid, c.after);
    }
  }

  lemma RefusedAlways(ip: nat, mac: string, other: string, granted: int, random: bool, now: int)
    requires ip < ADDRESSES && mac != "" && other != mac
    ensures AllRefused(AfterUnheardGrant(ip, mac, granted), Asking(random, Container(other)), now)
  {
    var before := UnheardGrantBlocks(ip, mac, other, granted);
    var s := AfterUnheardGrant(ip, mac, granted);
    assert forall x :: Offered(s.unused, now, x) ==> PrintIP(x) == PrintIP(ip);
  }

  /** A fresh pool with one host address whose grant to one container was not heard: asked for an address for another
      container, with or without next fit and with every request answered, it turns forever. */
  lemma UnheardGrantSticks(ip: nat, mac: string, other: string, granted: int, random: bool, lucks: seq<Luck>,
                           result: Option<Turn>, turns: nat, mid: Known, k': Known)
    requires ip < ADDRESSES && mac != "" && other != mac && NoFaults(lucks)
    requires var k := Known(AfterUnheardGrant(ip, mac, granted), {PrintIP(ip)});
      Course(result, turns, mid, k') in Loops({PrintIP(ip)}, k, Asking(random, Container(other)), lucks)
    ensures result.None? && k' == Known(AfterUnheardGrant(ip, mac, granted), {PrintIP(ip)})
  {
    var before := UnheardGrantBlocks(ip, mac, other, granted);
    var k := Known(AfterUnheardGrant(ip, mac, granted), {PrintIP(ip)});
    forall i | 0 <= i < |lucks|
      ensures AllRefused(k.state, Asking(random, Container(other)), lucks[i].now)
    {
      RefusedAlways(ip, mac, other, granted, random, lucks[i].now);
    }
    NeverEnds({PrintIP(ip)}, k, Asking(random, Container(other)), lucks, Course(result, turns, mid, k'));
  }

  // ---------- which address is picked again ----------

  /** No two addresses are both latest. */
  ghost predicate OneLatest(s: PoolState) {
    forall t, u, a, b :: IsLatestIn(s.cached, t, a) && IsLatestIn(s.cached, u, b) ==> a == b
  }

  lemma StepsDiffer(last: nat, a: nat, b: nat)
    requires last < ADDRESSES && a < ADDRESSES && b < ADDRESSES
    requires NextFit.StepsAfter(last, a) == NextFit.StepsAfter(last, b)
    ensures a == b
  {
    NextFit.NextIsUnique(a, b, last, [a, b]);
  }

  /** With one latest allocation next fit picks the same address again, as long as nothing changes. */
  lemma SameChoice(hosts: set<string>, named: set<string>, doubt: set<string>, s: PoolState, a: Asking, now: int,
                   x: nat, y: nat)
    requires Inv(hosts, named, doubt, s) && OneLatest(s) && !a.random && Chosen(s, a, now, x) && Chosen(s, a, now, y)
    ensures x == y
  {
    if s.cached.Keys != {} {
      CachedIPs(hosts, named, doubt, s);
      var t, last :| IsLatestIn(s.cached, t, last) && ComesNext(s.unused, now, x, last);
      var u, last' :| IsLatestIn(s.cached, u, last') && ComesNext(s.unused, now, y, last');
      assert last == last';
      StepsDiffer(last, x, y);
    }
  }

  lemma AllRefusedIfOne(hosts: set<string>, named: set<string>, k: Known, a: Asking, now: int)
    requires Tracks(hosts, named, k) && OneLatest(k.state) && !a.random && SomeRefused(k.state, a, now)
    ensures AllRefused(k.state, a, now)
  {
    var ip :| Chosen(k.state, a, now, ip) && !Grantable(k.state.records, a.claim, PrintIP(ip));
    forall other | Chosen(k.state, a, now, other)
      ensures !Grantable(k.state.records, a.claim, PrintIP(other))
    {
      SameChoice(hosts, named, k.doubt, k.state, a, now, ip, other);
    }
  }

  /** With next fit and one latest allocation, the loop does not end exactly as long as the address it picks is not to
      be had. */
  lemma NextFitNeverEnds(hosts: set<string>, named: set<string>, k: Known, a: Asking, lucks: seq<Luck>,
                         result: Option<Turn>, turns: nat, mid: Known, k': Known)
    requires Tracks(hosts, named, k) && Course(result, turns, mid, k') in Loops(hosts, k, a, lucks) && NoFaults(lucks)
    requires k.state.unused.Keys != {} && !a.random && OneLatest(k.state)
    ensures result.None? <==> RefusedThroughout(k.state, a, lucks)
  {
    if RefusedThroughout(k.state, a, lucks) {
      NeverEnds(hosts, k, a, lucks, Course(result, turns, mid, k'));
    }
    if result.None? {
      SameOnceTurned(hosts, k, a, lucks, turns, k');
      forall i | 0 <= i < |lucks|
        ensures AllRefused(k.state, a, lucks[i].now)
      {
        RefusedAt(hosts, k, a, lucks, turns, k', i);
        AllRefusedIfOne(hosts, named, k, a, lucks[i].now);
      }
    }
  }

  // ---------- a named address ----------

  /** Asking for the address `ip` under the text `t`. */
  ghost predicate NamedOf(k: Known, t: string, ip: nat, claim: Claim, luck: Luck, k': Known) {
    k'.state == Tried(k.state, t, ip, claim, luck) && k'.doubt == DoubtOnceTried(k, claim, ip, luck)
  }

  ghost function NamedOnceTried(named: set<string>, s: PoolState, ip: nat, claim: Claim, luck: Luck): set<string> {
    if ChangesEtcd(s, claim, ip, luck) then named + {PrintIP(ip)} else named
  }

  /** It leaves etcd alone, or the MAC or service id is not empty and an address that is cached is spelled the way it
      prints. */
  ghost predicate NamedKeepsTrack(s: PoolState, t: string, ip: nat, claim: Claim, luck: Luck) {
    ChangesEtcd(s, claim, ip, luck) ==>
      Filled(claim) && (FaultOf(s, claim, ip, luck).Answered? ==> t == PrintIP(ip))
  }

  /** That is exactly when asking for a named address keeps the invariant. */
  lemma NamedTracks(hosts: set<string>, named: set<string>, k: Known, t: string, ip: nat, claim: Claim, luck: Luck,
                    k': Known)
    requires Tracks(hosts, named, k) && ip < ADDRESSES && NamedOf(k, t, ip, claim, luck, k')
    ensures Tracks(hosts, NamedOnceTried(named, k.state, ip, claim, luck), k')
       <==> NamedKeepsTrack(k.state, t, ip, claim, luck)
  {
    var s, fault := k.state, FaultOf(k.state, claim, ip, luck);
    if ChangesEtcd(s, claim, ip, luck) {
      if !Filled(claim) {
        EmptyDataBreaks(hosts, named + {PrintIP(ip)}, k'.doubt, s, t, ip, claim, luck.now, fault);
      } else if fault.Answered? {
        TakeShape(s, t, ip, claim, luck.now);
        if t == PrintIP(ip) {
          AskKeepsInv(hosts, named, k.doubt, s, ip, claim, luck.now, fault);
        }
      } else {
        AskKeepsInv(hosts, named, k.doubt, s, ip, claim, luck.now, fault);
      }
    }
  }

  /** An address given under some text, with nothing in doubt: the cache is still what etcd decodes to, exactly if the
      text is the one the address prints as and the MAC or service id is not empty. */
  lemma NamedCache(hosts: set<string>, named: set<string>, k: Known, t: string, ip: nat, claim: Claim, luck: Luck,
                   k': Known)
    requires Tracks(hosts, named, k) && ip < ADDRESSES && NamedOf(k, t, ip, claim, luck, k')
    requires k.doubt == {} && EndOf(k.state, claim, ip, luck).Given?
    ensures CacheAgrees(k'.state) <==> t == PrintIP(ip) && Filled(claim)
  {
    AgreementIsDecoding(k.state);
    TakeKeepsCache(k.state, t, ip, claim, luck.now);
  }

  // ---------- the pool ----------

  datatype Outcome = Allocated(ip: nat) | InvalidIP | NoMoreIPs | EtcdError | NotOver

  /** What the caller gets from the turns of the loop; without an end the loop is still turning. */
  function OutcomeOf(result: Option<Turn>): Outcome {
    match result
    case None => NotOver
    case Some(Given(ip)) => Allocated(ip)
    case Some(NoneLeft) => NoMoreIPs
    case Some(_) => EtcdError
  }

  /** Etcd has the address for the claim. */
  ghost predicate HeldFor(records: Records, t: string, claim: Claim) {
    && HoldingOf(records, t).Some?
    && match claim
       case Reserve => HoldingOf(records, t).value.Reserved?
       case Container(mac) => HoldingOf(records, t).value.ForContainer? && HoldingOf(records, t).value.mac == mac
       case Service(id) => HoldingOf(records, t).value.ForService? && HoldingOf(records, t).value.id == id
  }

  /** The host has cached the address under the text `t`, and etcd has it for the claim if that says for whom. */
  ghost predicate Handed(s: PoolState, t: string, ip: nat, claim: Claim) {
    && ip < ADDRESSES && t in s.cached && s.cached[t].ip == Some(V4(ip)) && s.cached[t].allocationType == TypeOf(claim)
    && (Filled(claim) ==> HeldFor(s.records, PrintIP(ip), claim))
  }

  lemma TakeHands(s: PoolState, t: string, ip: nat, claim: Claim, now: int)
    requires WellFormed(s.records) && Grantable(s.records, claim, PrintIP(ip)) && ip < ADDRESSES
    ensures Handed(Take(s, t, ip, claim, now), t, ip, claim)
  {
    if Filled(claim) {
      GrantEffect(s.records, claim, PrintIP(ip), now);
    }
  }

  /** What the caller of the loop is told is what happened: an address that was unused and is now held for the claim,
      that nothing is unused, or that a request was lost. */
  ghost predicate FreeTells(a: Asking, outcome: Outcome, c: Course) {
    && !outcome.InvalidIP?
    && (outcome.Allocated? ==>
          && PrintIP(outcome.ip) in c.mid.state.unused && PrintIP(outcome.ip) !in c.after.doubt
          && Handed(c.after.state, PrintIP(outcome.ip), outcome.ip, a.claim))
    && (outcome.NoMoreIPs? <==> c.result == Some(NoneLeft))
    && (outcome.NoMoreIPs? ==> c.after.state.unused.Keys == {})
    && (outcome.EtcdError? <==> c.result.Some? && (c.result.value.Unread? || c.result.value.Lost?))
    && (outcome.NotOver? <==> c.result.None?)
  }

  lemma GivenIsTaken(k: Known, a: Asking, luck: Luck, turn: Turn, k': Known)
    requires Picks(k, a, luck, turn, k') && turn.Given?
    ensures Grantable(k.state.records, a.claim, PrintIP(turn.ip)) && turn.ip < ADDRESSES
    ensures PrintIP(turn.ip) in k.state.unused && PrintIP(turn.ip) !in k'.doubt
    ensures k'.state == Take(k.state, PrintIP(turn.ip), turn.ip, a.claim, luck.now)
  {
  }

  /** The turn that ends the loop, if it got as far as picking an address. */
  lemma LastPick(hosts: set<string>, k: Known, a: Asking, lucks: seq<Luck>, c: Course)
    requires c in Loops(hosts, k, a, lucks)
    ensures c.result.Some? ==> 0 < c.turns <= |lucks| && !c.result.value.Refused?
    ensures c.result.Some? && !c.result.value.Unread? ==>
      Picks(c.mid, a, lucks[c.turns - 1], c.result.value, c.after)
  {
    var k1 := AllButLast(hosts, k, a, lucks, c);
  }

  lemma LoopTells(hosts: set<string>, named: set<string>, k: Known, a: Asking, lucks: seq<Luck>, c: Course)
    requires Tracks(hosts, named, k) && c in Loops(hosts, k, a, lucks)
    ensures FreeTells(a, OutcomeOf(c.result), c)
  {
    LoopTracks(hosts, named, k, a, lucks, c.result, c.turns, c.mid, c.after);
    LastPick(hosts, k, a, lucks, c);
    if c.result.Some? && c.result.value.Given? {
      var turn := c.result.value;
      GivenIsTaken(c.mid, a, lucks[c.turns - 1], turn, c.after);
      TakeHands(c.mid.state, PrintIP(turn.ip), turn.ip, a.claim, lucks[c.turns - 1].now);
    }
  }

  /** What the caller is told of a named address: that address, held for the claim and cached under the text, or that a
      request was lost. */
  ghost predicate NamedTells(k: Known, t: string, ip: nat, claim: Claim, luck: Luck, outcome: Outcome, k': Known) {
    && (outcome.Allocated? || outcome.EtcdError?)
    && (outcome.Allocated? ==> outcome.ip == ip && Handed(k'.state, t, ip, claim) && PrintIP(ip) !in k'.doubt)
    && k'.doubt <= k.doubt + {PrintIP(ip)}
    && (outcome.EtcdError? <==> !FaultOf(k.state, claim, ip, luck).Answered?)
  }

  lemma EndTells(k: Known, t: string, ip: nat, claim: Claim, luck: Luck, k': Known)
    requires WellFormed(k.state.records) && ip < ADDRESSES && NamedOf(k, t, ip, claim, luck, k')
    requires !EndOf(k.state, claim, ip, luck).Refused?
    ensures NamedTells(k, t, ip, claim, luck, OutcomeOf(Some(EndOf(k.state, claim, ip, luck))), k')
  {
    if EndOf(k.state, claim, ip, luck).Given? {
      TakeHands(k.state, t, ip, claim, luck.now);
    }
  }

  /** The address is an IPv4 address of the subnet, the claim may take it, and the requests are answered. */
  ghost predicate IsToBeHad(subnet: Prefix, s: PoolState, parsed: Option<Address>, claim: Claim, luck: Luck) {
    && parsed.Some? && parsed.value.V4? && subnet.ones <= 32 && subnet.Contains(parsed.value.value)
    && Grantable(s.records, claim, PrintIP(parsed.value.value)) && luck.fault.Answered?
  }

  /** The address is an IPv4 address of the subnet, and asking for it is not refused. */
  ghost predicate GivesNamed(subnet: Prefix, s: PoolState, parsed: Option<Address>, claim: Claim, luck: Luck) {
    && parsed.Some? && parsed.value.V4? && subnet.ones <= 32 && subnet.Contains(parsed.value.value)
    && !EndOf(s, claim, parsed.value.value, luck).Refused?
  }

  /** A text that is no address is an error. A named address of the subnet is asked for itself; if that is refused, and
      for any other address, a free one is allocated. */
  ghost predicate PreferredOf(hosts: set<string>, subnet: Prefix, k: Known, t: string, parsed: Option<Address>,
                              a: Asking, luck: Luck, lucks: seq<Luck>, outcome: Outcome, result: Option<Turn>,
                              turns: nat, mid: Known, k': Known) {
    if parsed.None? then outcome.InvalidIP? && k' == k
    else if GivesNamed(subnet, k.state, parsed, a.claim, luck) then
      && NamedOf(k, t, parsed.value.value, a.claim, luck, k')
      && NamedTells(k, t, parsed.value.value, a.claim, luck, outcome, k')
    else
      && Course(result, turns, mid, k') in Loops(hosts, k, a, lucks)
      && FreeTells(a, outcome, Course(result, turns, mid, k'))
  }

  /** The invariant survives exactly if etcd is left alone, or the MAC or service id is not empty and a named address
      that is cached is spelled the way it prints. */
  ghost predicate KeepsTrack(subnet: Prefix, k: Known, t: string, parsed: Option<Address>, a: Asking, luck: Luck,
                             lucks: seq<Luck>, result: Option<Turn>, turns: nat, mid: Known) {
    if parsed.None? then true
    else if GivesNamed(subnet, k.state, parsed, a.claim, luck) then
      NamedKeepsTrack(k.state, t, parsed.value.value, a.claim, luck)
    else LoopSpends(a, lucks, result, turns, mid) ==> Filled(a.claim)
  }

  lemma PreferredNamed(hosts: set<string>, subnet: Prefix, k: Known, t: string, parsed: Option<Address>, a: Asking,
                       luck: Luck, lucks: seq<Luck>, turn: Turn, c: Course, k': Known)
    requires GivesNamed(subnet, k.state, parsed, a.claim, luck)
    requires turn == EndOf(k.state, a.claim, parsed.value.value, luck)
    requires NamedOf(k, t, parsed.value.value, a.claim, luck, k')
    requires WellFormed(k.state.records) && parsed.value.value < ADDRESSES
    ensures PreferredOf(hosts, subnet, k, t, parsed, a, luck, lucks, OutcomeOf(Some(turn)), c.result, c.turns, c.mid,
                        k')
    ensures KeepsTrack(subnet, k, t, parsed, a, luck, lucks, c.result, c.turns, c.mid)
       <==> NamedKeepsTrack(k.state, t, parsed.value.value, a.claim, luck)
  {
    EndTells(k, t, parsed.value.value, a.claim, luck, k');
  }

  lemma PreferredFree(hosts: set<string>, subnet: Prefix, k: Known, t: string, parsed: Option<Address>, a: Asking,
                      luck: Luck, lucks: seq<Luck>, c: Course)
    requires parsed.Some? && !GivesNamed(subnet, k.state, parsed, a.claim, luck) && c in Loops(hosts, k, a, lucks)
    requires FreeTells(a, OutcomeOf(c.result), c)
    ensures PreferredOf(hosts, subnet, k, t, parsed, a, luck, lucks, OutcomeOf(c.result), c.result, c.turns, c.mid,
                        c.after)
    ensures KeepsTrack(subnet, k, t, parsed, a, luck, lucks, c.result, c.turns, c.mid)
       <==> (LoopSpends(a, lucks, c.result, c.turns, c.mid) ==> Filled(a.claim))
  {
  }

  datatype ReleaseOutcome = NotReserved | FreedNow | NotAnswered | HeldDifferently | Broken

  /** How an answered release ends; where etcd has the address free the source fails. */
  function Answer(holding: Holding, cachedAs: Holding): ReleaseOutcome {
    if SameHolder(holding, cachedAs) then FreedNow else if holding.Free? then Broken else HeldDifferently
  }

  /** What an answered release leaves: a free address, unused from now; or in the cache what etcd has instead; or, where
      etcd has the address free already, everything as it was. */
  ghost predicate ReleaseTells(s: PoolState, t: string, now: int, outcome: ReleaseOutcome, s': PoolState) {
    && (outcome.FreedNow? ==>
          && HoldingOf(s'.records, t) == Some(Free) && s'.cached == s.cached - {t} && s'.unused == s.unused[t := now]
          && forall u :: u != t ==> HoldingOf(s'.records, u) == HoldingOf(s.records, u))
    && (outcome.HeldDifferently? ==> AgreesAt(s', t) && s'.records == s.records)
    && (outcome.Broken? ==> s' == s && HoldingOf(s'.records, t) == Some(Free))
  }

  lemma AnswerTells(doubt: set<string>, s: PoolState, t: string, now: int)
    requires AgreesBut(doubt, s) && t in s.cached
    ensures HoldingOf(s.records, t).Some?
    ensures var answer := Answer(HoldingOf(s.records, t).value, CachedAs(s, t));
      && ReleaseTells(s, t, now, answer, Released(s, t, now, Answered))
      && (t !in doubt ==> answer.FreedNow?)
  {
    CachedIsReleasable(doubt, s, t);
    ReleaseEffect(s.records, t);
    RefusalReportsHolder(s.records, s.cached[t].ip, t);
    if HoldingOf(s.records, t) != Some(Free) {
      RefusedReleaseAgrees(doubt, s, t);
      HeldIsProper(Dotted, s.records, t);
    }
  }

  lemma DoubtTells(doubt: set<string>, s: PoolState, t: string, fault: Fault)
    requires AgreesBut(doubt, s) && t in s.cached && HoldingOf(s.records, t).Some?
    ensures var doubt' := DoubtAfterRelease(doubt, s, t, fault);
      && doubt' <= doubt + {t}
      && (fault.Answered? && !Answer(HoldingOf(s.records, t).value, CachedAs(s, t)).Broken? ==> t !in doubt')
  {
  }

  lemma AnswerIs(doubt: set<string>, s: PoolState, t: string)
    requires AgreesBut(doubt, s) && t in s.cached
    ensures HoldingOf(s.records, t).Some?
    ensures Answer(HoldingOf(s.records, t).value, CachedAs(s, t))
      == if Releasable(s, t) then FreedNow
         else if CurrentAllocation(s.records, s.cached[t].ip, t).None? then Broken else HeldDifferently
    ensures t !in doubt ==> Releasable(s, t)
  {
    CachedIsReleasable(doubt, s, t);
    RefusalReportsHolder(s.records, s.cached[t].ip, t);
  }

  class EtcdPool {
    const poolSubnet: Prefix
    const allIPs: seq<nat>
    const store: RecordStore
    const parseIP: Reader
    var allocatedIPs: map<string, Allocation>
    var unusedIPs: map<string, int>
    ghost var named: set<string>   // every address text a caller named, here or before a restart
    ghost var doubt: set<string>   // addresses for which an answer was lost since

    ghost function Hosts(): set<string> {
      Texts(allIPs)
    }

    ghost function State(): PoolState
      reads this, store
    {
      PoolState(store.records, allocatedIPs, unusedIPs)
    }

    ghost function Knows(): Known
      reads this, store
    {
      Known(State(), doubt)
    }

    ghost predicate Valid()
      reads this, store
    {
      poolSubnet.Valid() && IsReader(parseIP) && Tracks(Hosts(), named, Knows())
    }

    /** The pool of a host subnet, over whatever records an earlier process left. */
    constructor (net: IPNet, poolSubnet: Prefix, store: RecordStore, parseIP: Reader, now: int)
      requires net.Denotes(poolSubnet) && poolSubnet.ones >= 1 && IsReader(parseIP)
      requires WellFormed(store.records) && Spelled(store.records)
      ensures Valid() && doubt == {} && Synced(Hosts(), store.records, State(), now)
      ensures this.store == store && this.poolSubnet == poolSubnet && this.parseIP == parseIP
      ensures forall a :: a in allIPs <==> IsHost(poolSubnet, a)
    {
      var ips := ListHosts(net, poolSubnet);
      this.poolSubnet, this.store, this.parseIP, allIPs := poolSubnet, store, parseIP, ips;
      allocatedIPs, unusedIPs := map[], map[];
      named, doubt := Recorded(store.records), {};
      new;
      var err := SyncIPs(now, false);
      StartsInv(allIPs, store.records, State(), now);
    }

    /** Reads etcd, unless that fails. */
    method SyncIPs(now: int, readLost: bool) returns (err: bool)
      requires IsReader(parseIP) && WellFormed(store.records) && Spelled(store.records)
      modifies this`allocatedIPs, this`unusedIPs, this`doubt
      ensures err == readLost
      ensures if err then State() == old(State()) && doubt == old(doubt)
              else Synced(Hosts(), store.records, State(), now) && doubt == {}
    {
      if readLost {
        return true;
      }
      var kvs := store.List();
      WellFormedIsTyped(store.records);
      SpelledIsReadable(parseIP, store.records);
      var decoded := GetAllocations(parseIP, kvs, store.records);
      SpelledDecodes(parseIP, decoded, store.records);
      var unused := UnusedSince(allIPs, decoded, now);
      allocatedIPs, unusedIPs, doubt := decoded, unused, {};
      err := false;
    }

    /** The texts of the addresses that may be picked: those unused for more than five minutes or, if there are none,
        all unused ones. With none at all etcd is read again before giving up. */
    method AvailableTexts(now: int, readLost: bool) returns (err: bool, available: seq<string>)
      requires Valid()
      modifies this`allocatedIPs, this`unusedIPs, this`doubt
      ensures Valid()
      ensures err <==> old(unusedIPs).Keys == {} && readLost
      ensures if err then Knows() == old(Knows()) else LookedUp(Hosts(), old(Knows()), now, Knows())
      ensures !err ==> (forall t :: t in available <==> MayPick(unusedIPs, t, now))
      ensures !err ==> (available == [] <==> unusedIPs.Keys == {})
    {
      ghost var before := Knows();
      err := false;
      available := RestedTexts(unusedIPs, now);
      assert available != [] ==> available[0] in available;
      if available == [] {
        available := AllTexts(unusedIPs);
      }
      if available == [] {
        err := SyncIPs(now, readLost);
        if !err {
          LookedUpTracks(Hosts(), named, before, now, Knows());
          available := AllTexts(unusedIPs);
        }
      }
    }

    /** Fails if reading etcd does, or if there is no unused address. */
    method GetAvailableUnusedIPs(now: int, readLost: bool) returns (read: bool, ips: seq<nat>, ghost texts: seq<string>)
      requires Valid()
      modifies this`allocatedIPs, this`unusedIPs, this`doubt
      ensures Valid()
      ensures !read <==> old(unusedIPs).Keys == {} && readLost
      ensures if read then LookedUp(Hosts(), old(Knows()), now, Knows()) else Knows() == old(Knows()) && ips == []
      ensures read ==> (ips == [] <==> unusedIPs.Keys == {})
      ensures read ==> Reads(ips, texts) && forall t :: t in texts <==> MayPick(unusedIPs, t, now)
    {
      var err, available := AvailableTexts(now, readLost);
      read, ips, texts := !err, [], available;
      if read {
        AvailableIsCanonical(Hosts(), named, doubt, State(), available);
        ips := ParseAll(parseIP, available);
      }
    }

    /** Asks for one address and, if it is given, takes it out of the unused ones. */
    method AskFor(ip: nat, claim: Claim, luck: Luck) returns (turn: Turn)
      requires PrintIP(ip) !in allocatedIPs
      modifies this`allocatedIPs, this`unusedIPs, store
      ensures turn == EndOf(old(State()), claim, ip, luck)
      ensures State() == Tried(old(State()), PrintIP(ip), ip, claim, luck)
    {
      var err, allocation := store.AllocateIPByCondition(claim, ip, luck.now, luck.at, luck.fault);
      if err {
        turn := Lost(ip);
      } else if allocation.None? {
        turn := Refused(ip);
      } else {
        unusedIPs := unusedIPs - {PrintIP(ip)};
        allocatedIPs := allocatedIPs[PrintIP(ip) := allocation.value];
        turn := Given(ip);
      }
    }

    method AskForOneOf(random: bool, claim: Claim, luck: Luck, ips: seq<nat>, ghost texts: seq<string>)
      returns (turn: Turn)
      requires Valid() && ips != [] && Reads(ips, texts)
      requires forall t :: t in texts <==> MayPick(unusedIPs, t, luck.now)
      modifies this`allocatedIPs, this`unusedIPs, this`doubt, store
      ensures Picks(old(Knows()), Asking(random, claim), luck, turn, Knows())
    {
      ghost var before := Knows();
      var ip := PickIP(random, ips, texts, luck.now);
      turn := AskFor(ip, claim, luck);
      doubt := DoubtOnceTried(before, claim, ip, luck);
    }

    /** One turn of the loop that picks an address and allocates it. `mid` is what is known once etcd has been read
        again, if that was needed. */
    method AttemptFreeIP(random: bool, claim: Claim, luck: Luck) returns (turn: Turn, ghost mid: Known)
      requires Valid()
      modifies this`allocatedIPs, this`unusedIPs, this`doubt, store
      ensures TurnOf(Hosts(), old(Knows()), Asking(random, claim), luck, turn, mid, Knows())
    {
      var read, availableUnusedIPs;
      ghost var texts;
      read, availableUnusedIPs, texts := GetAvailableUnusedIPs(luck.now, luck.readLost);
      mid := Knows();
      if !read {
        turn := Unread;
      } else if availableUnusedIPs == [] {
        turn := NoneLeft;
      } else {
        turn := AskForOneOf(random, claim, luck, availableUnusedIPs, texts);
      }
    }

    /** The pool was right when this was known. */
    ghost predicate WasValid(k: Known)
      reads this`named
    {
      poolSubnet.Valid() && IsReader(parseIP) && Tracks(Hosts(), named, k)
    }

    /** One more turn of the loop. */
    method OneMoreTurn(random: bool, claim: Claim, lucks: seq<Luck>, turns: nat, ghost before: Known)
      returns (turn: Turn, ghost mid: Known)
      requires WasValid(before) && turns < |lucks|
      requires Knows() in Turning(Hosts(), before, Asking(random, claim), lucks, turns)
      modifies this`allocatedIPs, this`unusedIPs, this`doubt, store
      ensures if turn.Refused?
              then mid == Knows() && mid in Turning(Hosts(), before, Asking(random, claim), lucks, turns + 1)
              else Course(Some(turn), turns + 1, mid, Knows()) in Loops(Hosts(), before, Asking(random, claim), lucks)
    {
      ghost var start, a := Knows(), Asking(random, claim);
      StillTurningTracks(Hosts(), named, before, a, lucks, turns, start);
      turn, mid := AttemptFreeIP(random, claim, lucks[turns]);
      if turn.Refused? {
        RefusedTurn(Hosts(), before, a, lucks, turns, start, turn, mid, Knows());
      } else {
        LastTurn(Hosts(), before, a, lucks, turns, start, turn, mid, Knows());
      }
    }

    /** Turn after turn until one ends the loop. */
    method TurnUntilEnd(random: bool, claim: Claim, lucks: seq<Luck>)
      returns (result: Option<Turn>, turns: nat, ghost mid: Known)
      requires Valid()
      modifies this`allocatedIPs, this`unusedIPs, this`doubt, store
      ensures Course(result, turns, mid, Knows()) in Loops(Hosts(), old(Knows()), Asking(random, claim), lucks)
    {
      ghost var before := Knows();
      NoTurnYet(Hosts(), before, Asking(random, claim), lucks);
      result, turns, mid := None, 0, before;
      while turns < |lucks|
        invariant turns <= |lucks| && mid == Knows()
        invariant mid in Turning(Hosts(), before, Asking(random, claim), lucks, turns)
        decreases |lucks| - turns
      {
        var turn;
        turn, mid := OneMoreTurn(random, claim, lucks, turns, before);
        turns := turns + 1;
        if !turn.Refused? {
          return Some(turn), turns, mid;
        }
      }
      NotOverYet(Hosts(), before, Asking(random, claim), lucks, mid);
    }

    /** Picks an address and allocates it. As long as no unused address is in doubt the first turn is the last. */
    method AllocateFreeIP(random: bool, claim: Claim, lucks: seq<Luck>)
      returns (result: Option<Turn>, turns: nat, ghost mid: Known)
      requires Valid()
      modifies this`allocatedIPs, this`unusedIPs, this`doubt, store
      ensures Course(result, turns, mid, Knows()) in Loops(Hosts(), old(Knows()), Asking(random, claim), lucks)
      ensures Valid() <==> (LoopSpends(Asking(random, claim), lucks, result, turns, mid) ==> Filled(claim))
      ensures lucks != [] && Trusted(old(Knows())) ==> turns == 1 && result.Some?
    {
      ghost var before, a := Knows(), Asking(random, claim);
      result, turns, mid := TurnUntilEnd(random, claim, lucks);
      LoopTracks(Hosts(), named, before, a, lucks, result, turns, mid, Knows());
      if lucks != [] && Trusted(before) {
        FirstTurnDecides(Hosts(), named, before, a, lucks, Course(result, turns, mid, Knows()));
      }
    }

    method PickIP(random: bool, ips: seq<nat>, ghost texts: seq<string>, now: int) returns (ip: nat)
      requires Valid() && ips != [] && Reads(ips, texts)
      requires forall t :: t in texts <==> MayPick(unusedIPs, t, now)
      ensures forall claim :: Chosen(State(), Asking(random, claim), now, ip)
      ensures PrintIP(ip) !in allocatedIPs
    {
      if random {
        var i :| 0 <= i < |ips|;
        ip := ips[i];
      } else {
        CachedIPs(Hosts(), named, doubt, State());
        ip := NextToAllocate(allocatedIPs, ips);
        ghost var stamps, keys :| StampsOf(stamps, keys, allocatedIPs) && NextFit.MayFollow(ip, ips, stamps);
        FollowsStamps(State(), now, ip, ips, texts, stamps, keys);
      }
      PickedText(ips, texts, unusedIPs, now, ip);
    }

    /** Tries the named address itself. */
    method AllocateNamed(preferredIP: string, ip: nat, claim: Claim, luck: Luck) returns (turn: Turn)
      requires Valid() && ip < ADDRESSES
      modifies this, store
      ensures turn == EndOf(old(State()), claim, ip, luck)
      ensures NamedOf(old(Knows()), preferredIP, ip, claim, luck, Knows())
      ensures named == NamedOnceTried(old(named), old(State()), ip, claim, luck)
      ensures Valid() <==> NamedKeepsTrack(old(State()), preferredIP, ip, claim, luck)
    {
      ghost var before := Knows();
      var err, allocation := store.AllocateIPByCondition(claim, ip, luck.now, luck.at, luck.fault);
      if err {
        turn := Lost(ip);
      } else if allocation.None? {
        turn := Refused(ip);
      } else {
        if preferredIP !in allocatedIPs {
          unusedIPs := unusedIPs - {preferredIP};
        }
        allocatedIPs := allocatedIPs[preferredIP := allocation.value];
        turn := Given(ip);
      }
      doubt := DoubtOnceTried(before, claim, ip, luck);
      NamedTracks(Hosts(), named, before, preferredIP, ip, claim, luck, Knows());
      named := NamedOnceTried(named, before.state, ip, claim, luck);
    }

    /** Asks for the address itself if it is one of the subnet. */
    method TryNamed(preferredIP: string, parsedIP: Address, claim: Claim, luck: Luck)
      returns (turn: Option<Turn>)
      requires Valid() && parseIP(preferredIP) == Some(parsedIP)
      modifies this, store
      ensures turn.Some? <==> GivesNamed(poolSubnet, old(State()), Some(parsedIP), claim, luck)
      ensures turn.None? ==> Valid() && Knows() == old(Knows()) && named == old(named)
      ensures turn.Some? ==>
        && turn.value == EndOf(old(State()), claim, parsedIP.value, luck)
        && NamedOf(old(Knows()), preferredIP, parsedIP.value, claim, luck, Knows())
        && (Valid() <==> NamedKeepsTrack(old(State()), preferredIP, parsedIP.value, claim, luck))
    {
      if parsedIP.V4? && poolSubnet.Contains(parsedIP.value) {
        var end := AllocateNamed(preferredIP, parsedIP.value, claim, luck);
        if !end.Refused? {
          return Some(end);
        }
      }
      turn := None;
    }

    method AllocatePreferred(preferredIP: string, random: bool, claim: Claim, luck: Luck, lucks: seq<Luck>)
      returns (outcome: Outcome, ghost result: Option<Turn>, ghost turns: nat, ghost mid: Known)
      requires Valid()
      modifies this, store
      ensures PreferredOf(Hosts(), poolSubnet, old(Knows()), preferredIP, parseIP(preferredIP),
                          Asking(random, claim), luck, lucks, outcome, result, turns, mid, Knows())
      ensures Valid() <==> KeepsTrack(poolSubnet, old(Knows()), preferredIP, parseIP(preferredIP),
                                      Asking(random, claim), luck, lucks, result, turns, mid)
      ensures IsToBeHad(poolSubnet, old(State()), parseIP(preferredIP), claim, luck) ==>
        outcome == Allocated(parseIP(preferredIP).value.value)
      ensures outcome.Allocated? && !poolSubnet.Contains(outcome.ip) ==> PrintIP(outcome.ip) in mid.state.unused
    {
      ghost var before, a := Knows(), Asking(random, claim);
      result, turns, mid := None, 0, before;
      var parsedIP := parseIP(preferredIP);
      if parsedIP.None? {
        outcome := InvalidIP;
        return;
      }
      var end := TryNamed(preferredIP, parsedIP.value, claim, luck);
      if end.Some? {
        PreferredNamed(Hosts(), poolSubnet, before, preferredIP, parsedIP, a, luck, lucks, end.value,
                       Course(result, turns, mid, before), Knows());
      } else {
        end, turns, mid := AllocateFreeIP(random, claim, lucks);
        result := end;
        LoopTells(Hosts(), old(named), before, a, lucks, Course(end, turns, mid, Knows()));
        PreferredFree(Hosts(), poolSubnet, before, preferredIP, parsedIP, a, luck, lucks,
                      Course(end, turns, mid, Knows()));
      }
      outcome := OutcomeOf(end);
    }

    method AllocateContainerIP(preferredIP: string, mac: string, random: bool, luck: Luck, lucks: seq<Luck>)
      returns (outcome: Outcome, ghost result: Option<Turn>, ghost turns: nat, ghost mid: Known)
      requires Valid()
      modifies this, store
      ensures PreferredOf(Hosts(), poolSubnet, old(Knows()), preferredIP, parseIP(preferredIP),
                          Asking(random, Container(mac)), luck, lucks, outcome, result, turns, mid, Knows())
      ensures Valid() <==> KeepsTrack(poolSubnet, old(Knows()), preferredIP, parseIP(preferredIP),
                                      Asking(random, Container(mac)), luck, lucks, result, turns, mid)
      ensures IsToBeHad(poolSubnet, old(State()), parseIP(preferredIP), Container(mac), luck) ==>
        outcome == Allocated(parseIP(preferredIP).value.value)
      ensures outcome.Allocated? && !poolSubnet.Contains(outcome.ip) ==> PrintIP(outcome.ip) in mid.state.unused
    {
      outcome, result, turns, mid := AllocatePreferred(preferredIP, random, Container(mac), luck, lucks);
    }

    method AllocateServiceVIP(ipamVIP: string, serviceID: string, random: bool, luck: Luck, lucks: seq<Luck>)
      returns (outcome: Outcome, ghost result: Option<Turn>, ghost turns: nat, ghost mid: Known)
      requires Valid()
      modifies this, store
      ensures PreferredOf(Hosts(), poolSubnet, old(Knows()), ipamVIP, parseIP(ipamVIP),
                          Asking(random, Service(serviceID)), luck, lucks, outcome, result, turns, mid, Knows())
      ensures Valid() <==> KeepsTrack(poolSubnet, old(Knows()), ipamVIP, parseIP(ipamVIP),
                                      Asking(random, Service(serviceID)), luck, lucks, result, turns, mid)
      ensures IsToBeHad(poolSubnet, old(State()), parseIP(ipamVIP), Service(serviceID), luck) ==>
        outcome == Allocated(parseIP(ipamVIP).value.value)
      ensures outcome.Allocated? && !poolSubnet.Contains(outcome.ip) ==> PrintIP(outcome.ip) in mid.state.unused
    {
      outcome, result, turns, mid := AllocatePreferred(ipamVIP, random, Service(serviceID), luck, lucks);
    }

    method ReserveIP(random: bool, lucks: seq<Luck>)
      returns (outcome: Outcome, ghost result: Option<Turn>, ghost turns: nat, ghost mid: Known)
      requires Valid()
      modifies this`allocatedIPs, this`unusedIPs, this`doubt, store
      ensures Valid() && FreeTells(Asking(random, Reserve), outcome, Course(result, turns, mid, Knows()))
      ensures Course(result, turns, mid, Knows()) in Loops(Hosts(), old(Knows()), Asking(random, Reserve), lucks)
    {
      ghost var before := Knows();
      var end;
      end, turns, mid := AllocateFreeIP(random, Reserve, lucks);
      LoopTells(Hosts(), named, before, Asking(random, Reserve), lucks, Course(end, turns, mid, Knows()));
      result, outcome := end, OutcomeOf(end);
    }

    /** Releases a cached allocation. */
    method ReleaseCached(ip: string, now: int, fault: Fault) returns (outcome: ReleaseOutcome)
      requires ip in allocatedIPs && IsV4(allocatedIPs[ip]) && PrintIP(allocatedIPs[ip].ip.value.value) == ip
      modifies this`allocatedIPs, this`unusedIPs, store
      ensures State() == Released(old(State()), ip, now, fault)
      ensures outcome == if !fault.Answered? then NotAnswered
                         else if Releasable(old(State()), ip) then FreedNow
                         else if CurrentAllocation(old(store.records), old(allocatedIPs)[ip].ip, ip).None? then Broken
                         else HeldDifferently
    {
      var err, success, current := store.ReleaseAllocation(allocatedIPs[ip], fault);
      if err {
        return NotAnswered;
      }
      if !success {
        if current.None? {
          return Broken;
        }
        allocatedIPs := allocatedIPs[ip := current.value];
        return HeldDifferently;
      }
      allocatedIPs := allocatedIPs - {ip};
      unusedIPs := unusedIPs[ip := now];
      outcome := FreedNow;
    }

    /** Releases an allocation the pool knows. */
    method ReleaseKnown(ip: string, now: int, fault: Fault) returns (outcome: ReleaseOutcome)
      requires Valid() && ip in allocatedIPs
      modifies this`allocatedIPs, this`unusedIPs, this`doubt, store
      ensures Valid()
      ensures State() == Released(old(State()), ip, now, fault)
      ensures doubt == DoubtAfterRelease(old(doubt), old(State()), ip, fault)
      ensures HoldingOf(old(store.records), ip).Some?
      ensures outcome == if !fault.Answered? then NotAnswered
                         else Answer(HoldingOf(old(store.records), ip).value, HoldingFor(old(allocatedIPs)[ip]))
    {
      ghost var before := State();
      CachedIPs(Hosts(), named, doubt, before);
      AnswerIs(doubt, before, ip);
      outcome := ReleaseCached(ip, now, fault);
      ReleaseKeepsInv(Hosts(), named, doubt, before, ip, now, fault);
      doubt := DoubtAfterRelease(doubt, before, ip, fault);
    }

    /** An answered release of an allocation the pool knows, and that is not in doubt, always frees the address. */
    method ReleaseIPIfReserved(ip: string, now: int, fault: Fault) returns (outcome: ReleaseOutcome)
      requires Valid()
      modifies this`allocatedIPs, this`unusedIPs, this`doubt, store
      ensures Valid()
      ensures ip !in old(allocatedIPs) ==> outcome.NotReserved? && State() == old(State()) && doubt == old(doubt)
      ensures ip in old(allocatedIPs) ==>
        && Moves(Hosts(), old(State()), Return(ip, now, fault), State())
        && doubt == DoubtAfterRelease(old(doubt), old(State()), ip, fault)
        && HoldingOf(old(store.records), ip).Some?
        && outcome == (if !fault.Answered? then NotAnswered
                       else Answer(HoldingOf(old(store.records), ip).value, HoldingFor(old(allocatedIPs)[ip])))
      ensures ip in old(allocatedIPs) && ip !in old(doubt) && fault.Answered? ==> outcome.FreedNow?
      ensures ReleaseTells(old(State()), ip, now, outcome, State()) && doubt <= old(doubt) + {ip}
      ensures outcome.FreedNow? || outcome.HeldDifferently? ==> ip !in doubt
    {
      if ip !in allocatedIPs {
        return NotReserved;
      }
      ghost var before, doubted := State(), doubt;
      AnswerTells(doubted, before, ip, now);
      DoubtTells(doubted, before, ip, fault);
      outcome := ReleaseKnown(ip, now, fault);
    }

    /** Any outcome other than a release is an error, except that the source fails on a broken one. */
    method ReleaseIP(ip: string, now: int, fault: Fault) returns (outcome: ReleaseOutcome, err: bool)
      requires Valid()
      modifies this`allocatedIPs, this`unusedIPs, this`doubt, store
      ensures Valid()
      ensures err <==> !outcome.FreedNow? && !outcome.Broken?
      ensures ip !in old(doubt) && fault.Answered? ==> (err <==> ip !in old(allocatedIPs))
      ensures if ip in old(allocatedIPs) then Moves(Hosts(), old(State()), Return(ip, now, fault), State())
              else State() == old(State())
    {
      outcome := ReleaseIPIfReserved(ip, now, fault);
      err := !outcome.FreedNow? && !outcome.Broken?;
    }

    /** To read etcd in vain after everything was deleted is to lose the answer. */
    method ReleaseAllIPs(now: int, fault: Fault, readLost: bool) returns (err: bool)
      requires Valid()
      modifies this`allocatedIPs, this`unusedIPs, this`doubt, store
      ensures Valid()
      ensures var f := if fault.Answered? && readLost then AnswerLost else fault;
        && (err <==> !f.Answered?)
        && Moves(Hosts(), old(State()), ReturnAll(now, f), State())
        && doubt == DoubtAfter(old(doubt), old(State()), ReturnAll(now, f))
      ensures !err ==> store.records == map[] && allocatedIPs.Keys == {} && unusedIPs == map t | t in Hosts() :: now
    {
      ghost var before, doubted := State(), doubt;
      ghost var f := if fault.Answered? && readLost then AnswerLost else fault;
      err := store.DeleteAll(fault);
      if !err {
        err := SyncIPs(now, readLost);
      }
      if !err {
        ReadNothing(Hosts(), State(), now);
      }
      ReturnAllKeepsInv(Hosts(), named, doubted, before, now, f, State());
      doubt := DoubtAfter(doubted, before, ReturnAll(now, f));
    }
  }
}
