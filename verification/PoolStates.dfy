/** One host's address pool as a state: etcd's records, and the cache the host keeps over them. */
module PoolStates {
  import opened Basics
  import opened Cidr
  import opened Keys
  import opened PoolRecords

  datatype PoolState = PoolState(
    records: Records,
    cached: map<string, Allocation>,   // address -> its allocation
    unused: map<string, int>)          // address -> since when it is unused, in nanoseconds

  /** The cache, times cut to whole seconds, is what etcd's records decode to. */
  ghost predicate CacheAgrees(s: PoolState) {
    WellFormed(s.records) && Decodes(Dotted, WholeSeconds(s.cached), s.records)
  }

  /** What the cache takes an address to be held for. */
  function CachedAs(s: PoolState, t: string): Holding {
    if t in s.cached then HoldingFor(s.cached[t]) else Free
  }

  ghost predicate AgreesAt(s: PoolState, t: string) {
    HoldingOf(s.records, t) == Some(CachedAs(s, t))
  }

  ghost predicate Shaped(cached: map<string, Allocation>) {
    forall t :: t in cached ==> Proper(Dotted, t, cached[t])
  }

  /** The cache and the records agree on every address except, maybe, those in doubt. */
  ghost predicate AgreesBut(doubt: set<string>, s: PoolState) {
    && WellFormed(s.records) && Shaped(s.cached)
    && forall t :: t !in doubt ==> AgreesAt(s, t)
  }

  lemma ReadWhenCached(parse: Reader, s: PoolState, t: string)
    requires WellFormed(s.records) && Decodes(parse, WholeSeconds(s.cached), s.records)
    requires TypeKey(t) in s.records ==> parse(t).Some?
    ensures AgreesAt(s, t)
    ensures t in s.cached ==> Proper(parse, t, s.cached[t])
  {
    HoldingExists(s.records, t);
    WholeKeys(s.cached);
    if t in s.cached {
      DecodedSpells(parse, s.records, t, s.cached[t]);
    }
  }

  lemma AgreesWhenDecoded(s: PoolState, t: string)
    requires CacheAgrees(s) && Spelled(s.records)
    ensures AgreesAt(s, t)
    ensures t in s.cached ==> Proper(Dotted, t, s.cached[t])
  {
    if TypeKey(t) in s.records {
      assert Canonical(TypeKey(t).ip);
    }
    ReadWhenCached(Dotted, s, t);
  }

  lemma DecodedWhenAgrees(parse: Reader, s: PoolState, t: string)
    requires WellFormed(s.records) && AgreesAt(s, t) && (t in s.cached ==> Proper(parse, t, s.cached[t]))
    ensures var m := WholeSeconds(s.cached);
      && (t in m <==> TypeKey(t) in s.records)
      && (t in m ==> HoldingOf(s.records, t).Some? && m[t] == AllocationOf(parse(t), t, HoldingOf(s.records, t).value))
  {
    HoldingExists(s.records, t);
    if t in s.cached {
      HoldingReadsBack(parse, t, s.cached[t]);
    }
  }

  lemma AllDecoded(parse: Reader, s: PoolState)
    requires WellFormed(s.records) && forall t :: AgreesAt(s, t)
    requires forall t :: t in s.cached ==> Proper(parse, t, s.cached[t])
    ensures Decodes(parse, WholeSeconds(s.cached), s.records)
  {
    var m := WholeSeconds(s.cached);
    forall t
      ensures t in m <==> TypeKey(t) in s.records
      ensures t in m ==>
        HoldingOf(s.records, t).Some? && m[t] == AllocationOf(parse(t), t, HoldingOf(s.records, t).value)
    {
      DecodedWhenAgrees(parse, s, t);
    }
  }

  lemma AllAgree(s: PoolState)
    requires CacheAgrees(s) && Spelled(s.records)
    ensures AgreesBut({}, s)
  {
    forall t
      ensures AgreesAt(s, t) && (t in s.cached ==> Proper(Dotted, t, s.cached[t]))
    {
      AgreesWhenDecoded(s, t);
    }
  }

  /** With no address in doubt, agreeing address by address is equality with what the records decode to. */
  lemma AgreementIsDecoding(s: PoolState)
    requires Spelled(s.records)
    ensures CacheAgrees(s) <==> AgreesBut({}, s)
  {
    if CacheAgrees(s) {
      AllAgree(s);
    }
    if AgreesBut({}, s) {
      AllDecoded(Dotted, s);
    }
  }

  /** Allocated and unused addresses are disjoint and together cover every host address; there are no others
      but those that some caller named. */
  ghost predicate Partition(hosts: set<string>, named: set<string>, s: PoolState) {
    && s.cached.Keys !! s.unused.Keys
    && hosts <= s.cached.Keys + s.unused.Keys <= hosts + named
  }

  ghost predicate AllCanonical(texts: set<string>) {
    forall t :: t in texts ==> Canonical(t)
  }

  /** Etcd has records of host addresses and of those that some caller named. */
  ghost predicate RecordsWithin(texts: set<string>, records: Records) {
    forall t :: TypeKey(t) in records ==> t in texts
  }

  ghost predicate Inv(hosts: set<string>, named: set<string>, doubt: set<string>, s: PoolState) {
    && AgreesBut(doubt, s) && Partition(hosts, named, s)
    && Spelled(s.records) && RecordsWithin(hosts + named, s.records)
    && AllCanonical(hosts) && AllCanonical(named)
  }

  // ---------- what the operations do to the state ----------

  /** The address `ip` is granted and cached under the text `t`. */
  function Take(s: PoolState, t: string, ip: nat, claim: Claim, now: int): PoolState {
    PoolState(
      AfterGrant(s.records, claim, PrintIP(ip), now),
      s.cached[t := Granted(claim, ip, now)],
      if t in s.cached then s.unused else s.unused - {t})
  }

  /** Etcd gives the address `ip`, asked for under the text `t`. The host does not learn of it if the answer is lost. */
  function Asked(s: PoolState, t: string, ip: nat, claim: Claim, now: int, fault: Fault): PoolState {
    match fault
    case Answered => Take(s, t, ip, claim, now)
    case RequestLost => s
    case AnswerLost => s.(records := AfterGrant(s.records, claim, PrintIP(ip), now))
  }

  function GiveBack(s: PoolState, t: string, now: int): PoolState {
    PoolState(AfterRelease(s.records, t), s.cached - {t}, s.unused[t := now])
  }

  /** The release of a cached address is accepted. */
  ghost predicate Releasable(s: PoolState, t: string)
    requires t in s.cached
  {
    AllHold(s.records, ReleaseConditions(s.cached[t], t))
  }

  /** The release of a cached address. A refused one puts what etcd has instead into the cache, if etcd has
      anything; otherwise the source fails in the middle of it. */
  ghost function Released(s: PoolState, t: string, now: int, fault: Fault): PoolState
    requires t in s.cached
  {
    match fault
    case RequestLost => s
    case AnswerLost => if Releasable(s, t) then s.(records := AfterRelease(s.records, t)) else s
    case Answered =>
      if Releasable(s, t) then GiveBack(s, t, now)
      else
        match CurrentAllocation(s.records, s.cached[t].ip, t)
        case Some(current) => s.(cached := s.cached[t := current])
        case None => s
  }

  /** A full read of etcd. */
  ghost predicate Synced(hosts: set<string>, records: Records, s': PoolState, now: int) {
    && s'.records == records
    && WellFormed(records) && Decodes(Dotted, s'.cached, records)
    && s'.unused == map t | t in hosts && t !in s'.cached :: now
  }

  /** Before it picks an address, a pool without unused ones reads etcd again. */
  ghost predicate Looked(hosts: set<string>, s: PoolState, now: int, s': PoolState) {
    if s.unused.Keys == {} then Synced(hosts, s.records, s', now) else s' == s
  }

  const FIVE_MINUTES: int := 300 * SECOND

  /** Unused for more than five minutes. */
  predicate Rested(unused: map<string, int>, t: string, now: int) {
    t in unused && unused[t] + FIVE_MINUTES < now
  }

  /** An address may be picked if it has rested, or if none has. */
  ghost predicate MayPick(unused: map<string, int>, t: string, now: int) {
    t in unused && (Rested(unused, t, now) || forall u :: u in unused ==> !Rested(unused, u, now))
  }

  /** An address that came free is left alone for five minutes while there is another to pick: after a release at `now`
      it may be picked at `later` exactly if more than five minutes have passed, or if no address has rested. */
  lemma RestsFiveMinutes(s: PoolState, t: string, now: int, later: int)
    ensures var unused := GiveBack(s, t, now).unused;
      && t in unused && t !in GiveBack(s, t, now).cached
      && (MayPick(unused, t, later) <==>
            later > now + 300_000_000_000 || forall u :: u in unused ==> later <= unused[u] + 300_000_000_000)
  {
    var unused := GiveBack(s, t, now).unused;
    assert forall u :: u in unused ==> (Rested(unused, u, later) <==> later > unused[u] + 300_000_000_000);
  }

  /** ... and so are all addresses that a read of etcd finds unused: none may be picked later than another. */
  lemma ReadRestsAll(hosts: set<string>, records: Records, s': PoolState, now: int, t: string, later: int)
    requires Synced(hosts, records, s', now) && t in hosts && later >= now
    ensures t in s'.unused <==> t !in s'.cached
    ensures MayPick(s'.unused, t, later) <==> t !in s'.cached
  {
  }

  /** After everything was released all host addresses are unused from then on. */
  lemma ReadNothing(hosts: set<string>, s': PoolState, now: int)
    requires Synced(hosts, map[], s', now)
    ensures s'.records == map[] && s'.cached.Keys == {} && s'.unused == map t | t in hosts :: now
  {
    DecodedKeys(Dotted, s'.cached, map[]);
    assert forall t :: t !in s'.cached;
  }

  datatype Call =
    | TakeNamed(t: string, ip: nat, claim: Claim, now: int, fault: Fault)  // etcd gives an address spelled `t`
    | TakeUnused(ip: nat, claim: Claim, now: int, fault: Fault)            // etcd gives an unused address
    | Return(t: string, now: int, fault: Fault)
    | Resync(now: int)
    | ReturnAll(now: int, fault: Fault)

  /** What one call does. Calls that leave everything as it was are left out. */
  ghost predicate Moves(hosts: set<string>, s: PoolState, call: Call, s': PoolState) {
    match call
    case TakeNamed(t, ip, claim, now, fault) =>
      && ip < ADDRESSES && Grantable(s.records, claim, PrintIP(ip))
      && s' == Asked(s, t, ip, claim, now, fault)
    case TakeUnused(ip, claim, now, fault) =>
      && ip < ADDRESSES && MayPick(s.unused, PrintIP(ip), now) && Grantable(s.records, claim, PrintIP(ip))
      && s' == Asked(s, PrintIP(ip), ip, claim, now, fault)
    case Return(t, now, fault) =>
      t in s.cached && s' == Released(s, t, now, fault)
    case Resync(now) =>
      Synced(hosts, s.records, s', now)
    case ReturnAll(now, fault) =>
      match fault
      case RequestLost => s' == s
      case AnswerLost => s' == s.(records := map[])
      case Answered => Synced(hosts, map[], s', now)
  }

  // ---------- granting ----------

  lemma GrantedElsewhere(s: PoolState, s': PoolState, t: string, claim: Claim, now: int, u: string)
    requires s'.records == AfterGrant(s.records, claim, t, now) && AgreesAt(s, u) && u != t
    requires CachedAs(s', u) == CachedAs(s, u)
    ensures AgreesAt(s', u)
  {
    GrantElsewhere(s.records, claim, t, now);
  }

  lemma TakeShape(s: PoolState, t: string, ip: nat, claim: Claim, now: int)
    requires Shaped(s.cached) && ip < ADDRESSES
    ensures Shaped(Take(s, t, ip, claim, now).cached) <==> t == PrintIP(ip) && Filled(claim)
  {
    GrantedIsProper(t, ip, claim, now);
    var cached := Take(s, t, ip, claim, now).cached;
    assert t in cached && cached[t] == Granted(claim, ip, now);
  }

  lemma TakeAgrees(doubt: set<string>, s: PoolState, t: string, ip: nat, claim: Claim, now: int)
    requires AgreesBut(doubt, s) && t == PrintIP(ip) && ip < ADDRESSES
    requires Grantable(s.records, claim, t) && Filled(claim)
    ensures AgreesBut(doubt - {t}, Take(s, t, ip, claim, now))
  {
    var s' := Take(s, t, ip, claim, now);
    TakeShape(s, t, ip, claim, now);
    GrantEffect(s.records, claim, t, now);
    GrantedIsProper(t, ip, claim, now);
    forall u | u !in doubt - {t}
      ensures AgreesAt(s', u)
    {
      if u != t {
        GrantedElsewhere(s, s', t, claim, now, u);
      }
    }
  }

  /** An answered grant settles the address, exactly if it is spelled the way it prints and the MAC or service id is
      not empty. */
  lemma TakeExactly(doubt: set<string>, s: PoolState, t: string, ip: nat, claim: Claim, now: int)
    requires AgreesBut(doubt, s) && ip < ADDRESSES && Grantable(s.records, claim, PrintIP(ip))
    ensures AgreesBut(doubt - {t}, Take(s, t, ip, claim, now)) <==> t == PrintIP(ip) && Filled(claim)
  {
    TakeShape(s, t, ip, claim, now);
    if t == PrintIP(ip) && Filled(claim) {
      TakeAgrees(doubt, s, t, ip, claim, now);
    }
  }

  /** Allocating keeps the cache equal to what etcd decodes to exactly when the address is spelled the way it prints,
      and the MAC or service id is not empty. */
  lemma TakeKeepsCache(s: PoolState, t: string, ip: nat, claim: Claim, now: int)
    requires CacheAgrees(s) && Spelled(s.records) && ip < ADDRESSES && Grantable(s.records, claim, PrintIP(ip))
    ensures CacheAgrees(Take(s, t, ip, claim, now)) <==> t == PrintIP(ip) && Filled(claim)
  {
    AgreementIsDecoding(s);
    TakeSpelled(s.records, ip, claim, now);
    AgreementIsDecoding(Take(s, t, ip, claim, now));
    TakeExactly({}, s, t, ip, claim, now);
    assert {} - {t} == {};
  }

  lemma TakeSpelled(records: Records, ip: nat, claim: Claim, now: int)
    requires Spelled(records) && ip < ADDRESSES
    ensures Spelled(AfterGrant(records, claim, PrintIP(ip), now))
  {
    PrintedIsCanonical(ip);
    GrantElsewhere(records, claim, PrintIP(ip), now);
  }

  lemma GrantedWithin(texts: set<string>, records: Records, claim: Claim, t: string, now: int)
    requires RecordsWithin(texts, records)
    ensures RecordsWithin(texts + {t}, AfterGrant(records, claim, t, now))
  {
    GrantRecords(records, claim, t, now);
  }

  lemma TakePartition(hosts: set<string>, named: set<string>, s: PoolState, t: string, ip: nat, claim: Claim, now: int)
    requires Partition(hosts, named, s)
    ensures Partition(hosts, named + {t}, Take(s, t, ip, claim, now))
    ensures t in s.unused ==> Partition(hosts, named, Take(s, t, ip, claim, now))
  {
  }

  lemma TakeKeepsInv(hosts: set<string>, named: set<string>, doubt: set<string>, s: PoolState, t: string, ip: nat,
                     claim: Claim, now: int)
    requires Inv(hosts, named, doubt, s) && t == PrintIP(ip) && ip < ADDRESSES
    requires Grantable(s.records, claim, t) && Filled(claim)
    ensures Inv(hosts, named + {t}, doubt - {t}, Take(s, t, ip, claim, now))
    ensures t in s.unused ==> Inv(hosts, named, doubt - {t}, Take(s, t, ip, claim, now))
  {
    PrintedIsCanonical(ip);
    TakeAgrees(doubt, s, t, ip, claim, now);
    TakeSpelled(s.records, ip, claim, now);
    GrantedWithin(hosts + named, s.records, claim, t, now);
    TakePartition(hosts, named, s, t, ip, claim, now);
    NamedToo(hosts, named, t, Take(s, t, ip, claim, now).records);
  }

  lemma NamedToo(hosts: set<string>, named: set<string>, t: string, records: Records)
    requires RecordsWithin(hosts + named + {t}, records)
    ensures RecordsWithin(hosts + (named + {t}), records)
    ensures t in hosts + named ==> RecordsWithin(hosts + named, records)
  {
  }

  // ---------- a grant whose answer is lost ----------

  lemma UnheardGrantAgrees(doubt: set<string>, s: PoolState, t: string, claim: Claim, now: int)
    requires AgreesBut(doubt, s) && Grantable(s.records, claim, t) && Filled(claim)
    ensures AgreesBut(doubt + {t}, s.(records := AfterGrant(s.records, claim, t, now)))
    ensures HoldingOf(s.records, t) == Some(Held(claim, now)) ==>
      AgreesBut(doubt, s.(records := AfterGrant(s.records, claim, t, now)))
  {
    var s' := s.(records := AfterGrant(s.records, claim, t, now));
    GrantEffect(s.records, claim, t, now);
    forall u | u !in doubt && u != t
      ensures AgreesAt(s', u)
    {
      GrantedElsewhere(s, s', t, claim, now, u);
    }
  }

  /** A grant whose answer is lost puts the address in doubt, except exactly if it was in doubt before or is held for
      the same claim since the same second. */
  lemma UnheardGrantExactly(doubt: set<string>, s: PoolState, t: string, claim: Claim, now: int)
    requires AgreesBut(doubt, s) && Grantable(s.records, claim, t) && Filled(claim)
    ensures AgreesBut(doubt, s.(records := AfterGrant(s.records, claim, t, now)))
       <==> t in doubt || HoldingOf(s.records, t) == Some(Held(claim, now))
  {
    UnheardGrantAgrees(doubt, s, t, claim, now);
    GrantEffect(s.records, claim, t, now);
    assert t in doubt ==> doubt + {t} == doubt;
    assert t !in doubt ==> AgreesAt(s, t);
  }

  lemma UnheardGrantKeepsInv(hosts: set<string>, named: set<string>, doubt: set<string>, s: PoolState, ip: nat,
                             claim: Claim, now: int)
    requires Inv(hosts, named, doubt, s) && ip < ADDRESSES
    requires Grantable(s.records, claim, PrintIP(ip)) && Filled(claim)
    ensures var t := PrintIP(ip); var s' := s.(records := AfterGrant(s.records, claim, t, now));
      && Inv(hosts, named + {t}, doubt + {t}, s')
      && (t in hosts + named ==> Inv(hosts, named, doubt + {t}, s'))
  {
    var t := PrintIP(ip);
    PrintedIsCanonical(ip);
    UnheardGrantAgrees(doubt, s, t, claim, now);
    TakeSpelled(s.records, ip, claim, now);
    GrantedWithin(hosts + named, s.records, claim, t, now);
    NamedToo(hosts, named, t, AfterGrant(s.records, claim, t, now));
  }

  /** Who gets an address after a grant whose answer was lost: exactly who may take it from the claim that was lost. */
  lemma NextAfterUnheardGrant(s: PoolState, t: string, lost: Claim, now: int, claim: Claim)
    requires WellFormed(s.records) && Grantable(s.records, lost, t) && Filled(lost)
    ensures Grantable(AfterGrant(s.records, lost, t, now), claim, t) <==> MayTake(claim, Held(lost, now))
  {
    GrantEffect(s.records, lost, t, now);
    GrantableIsMayTake(AfterGrant(s.records, lost, t, now), claim, t);
  }

  /** An address the cache shows as unused is free in etcd unless it is in doubt, so that anyone may have it at the
      first attempt. */
  lemma UnusedIsGrantable(hosts: set<string>, named: set<string>, doubt: set<string>, s: PoolState, t: string,
                          claim: Claim)
    requires Inv(hosts, named, doubt, s) && t in s.unused && t !in doubt
    ensures Canonical(t) && HoldingOf(s.records, t) == Some(Free) && Grantable(s.records, claim, t)
  {
    assert AgreesAt(s, t) && t in hosts + named;
    GrantableIsMayTake(s.records, claim, t);
  }

  // ---------- releasing ----------

  lemma ReleasedElsewhere(s: PoolState, s': PoolState, t: string, u: string)
    requires WellFormed(s.records) && s'.records == AfterRelease(s.records, t) && AgreesAt(s, u) && u != t
    requires CachedAs(s', u) == CachedAs(s, u)
    ensures AgreesAt(s', u)
  {
    ReleaseEffect(s.records, t);
  }

  /** A release of a cached address is accepted exactly if etcd has it for the same holder as the cache. */
  lemma CachedIsReleasable(doubt: set<string>, s: PoolState, t: string)
    requires AgreesBut(doubt, s) && t in s.cached
    ensures s.cached[t].ip == Dotted(t) && HoldingOf(s.records, t).Some?
    ensures Releasable(s, t) <==> SameHolder(HoldingOf(s.records, t).value, CachedAs(s, t))
    ensures t !in doubt ==> Releasable(s, t)
  {
    ReleaseSucceeds(Dotted, s.records, t, s.cached[t]);
    assert t !in doubt ==> AgreesAt(s, t);
  }

  lemma GiveBackAgrees(doubt: set<string>, s: PoolState, t: string, now: int)
    requires AgreesBut(doubt, s) && t in s.cached
    ensures AgreesBut(doubt - {t}, GiveBack(s, t, now))
  {
    var s' := GiveBack(s, t, now);
    ReleaseEffect(s.records, t);
    forall u | u !in doubt - {t}
      ensures AgreesAt(s', u)
    {
      if u != t {
        ReleasedElsewhere(s, s', t, u);
      }
    }
  }

  lemma UnheardReleaseAgrees(doubt: set<string>, s: PoolState, t: string)
    requires AgreesBut(doubt, s)
    ensures AgreesBut(doubt + {t}, s.(records := AfterRelease(s.records, t)))
  {
    var s' := s.(records := AfterRelease(s.records, t));
    ReleaseEffect(s.records, t);
    forall u | u !in doubt + {t}
      ensures AgreesAt(s', u)
    {
      ReleasedElsewhere(s, s', t, u);
    }
  }

  /** A release whose answer is lost puts the address in doubt. Releasing it again is refused, and the refusal finds
      nothing to report: there the source fails. */
  lemma UnheardReleaseExactly(doubt: set<string>, s: PoolState, t: string)
    requires AgreesBut(doubt, s) && t in s.cached
    ensures var s' := s.(records := AfterRelease(s.records, t));
      && (AgreesBut(doubt, s') <==> t in doubt)
      && !Releasable(s', t) && CurrentAllocation(s'.records, s'.cached[t].ip, t) == None
  {
    var s' := s.(records := AfterRelease(s.records, t));
    UnheardReleaseAgrees(doubt, s, t);
    ReleasedIsFree(s.records, t);
    CachedIsReleasable(doubt + {t}, s', t);
    RefusalReportsHolder(s'.records, s'.cached[t].ip, t);
    assert t in doubt ==> doubt + {t} == doubt;
    assert CachedAs(s', t) != Free;
  }

  lemma RefusedReleaseAgrees(doubt: set<string>, s: PoolState, t: string)
    requires AgreesBut(doubt, s) && t in s.cached && HoldingOf(s.records, t) != Some(Free)
    ensures var current := CurrentAllocation(s.records, s.cached[t].ip, t);
      current.Some? && AgreesBut(doubt - {t}, s.(cached := s.cached[t := current.value]))
  {
    RefusalReportsHolder(s.records, s.cached[t].ip, t);
    HeldIsProper(Dotted, s.records, t);
    var current := CurrentAllocation(s.records, s.cached[t].ip, t).value;
    var s' := s.(cached := s.cached[t := current]);
    forall u | u !in doubt - {t}
      ensures AgreesAt(s', u)
    {
      assert u != t ==> AgreesAt(s, u) && CachedAs(s', u) == CachedAs(s, u);
    }
  }

  lemma ReleasedWithin(texts: set<string>, records: Records, t: string)
    requires RecordsWithin(texts, records)
    ensures RecordsWithin(texts, AfterRelease(records, t))
  {
  }

  /** What a release leaves in doubt: nothing about the address if it was answered, unless etcd had it free. */
  ghost function DoubtAfterRelease(doubt: set<string>, s: PoolState, t: string, fault: Fault): set<string> {
    match fault
    case RequestLost => doubt
    case AnswerLost => doubt + {t}
    case Answered => if HoldingOf(s.records, t) == Some(Free) then doubt else doubt - {t}
  }

  lemma ReleaseAgrees(doubt: set<string>, s: PoolState, t: string, now: int, fault: Fault)
    requires AgreesBut(doubt, s) && t in s.cached
    ensures AgreesBut(DoubtAfterRelease(doubt, s, t, fault), Released(s, t, now, fault))
  {
    CachedIsReleasable(doubt, s, t);
    RefusalReportsHolder(s.records, s.cached[t].ip, t);
    if Releasable(s, t) {
      GiveBackAgrees(doubt, s, t, now);
      UnheardReleaseAgrees(doubt, s, t);
    } else if HoldingOf(s.records, t) != Some(Free) {
      RefusedReleaseAgrees(doubt, s, t);
    }
  }

  lemma ReleasePartition(hosts: set<string>, named: set<string>, s: PoolState, t: string, now: int, fault: Fault)
    requires Partition(hosts, named, s) && t in s.cached
    ensures Partition(hosts, named, Released(s, t, now, fault))
    ensures Released(s, t, now, fault).records in {s.records, AfterRelease(s.records, t)}
  {
  }

  /** Whatever becomes of a release, the invariant holds with the address in doubt only if an answer was lost. */
  lemma ReleaseKeepsInv(hosts: set<string>, named: set<string>, doubt: set<string>, s: PoolState, t: string, now: int,
                        fault: Fault)
    requires Inv(hosts, named, doubt, s) && t in s.cached
    ensures Inv(hosts, named, DoubtAfterRelease(doubt, s, t, fault), Released(s, t, now, fault))
  {
    ReleaseAgrees(doubt, s, t, now, fault);
    ReleasePartition(hosts, named, s, t, now, fault);
    ReleasedWithin(hosts + named, s.records, t);
  }

  /** With no address in doubt an answered release always frees the address. */
  lemma GiveBackKeepsInv(hosts: set<string>, named: set<string>, doubt: set<string>, s: PoolState, t: string, now: int)
    requires Inv(hosts, named, doubt, s) && t in s.cached && t !in doubt
    ensures Released(s, t, now, Answered) == GiveBack(s, t, now)
    ensures Inv(hosts, named, doubt, GiveBack(s, t, now))
  {
    CachedIsReleasable(doubt, s, t);
    ReleaseKeepsInv(hosts, named, doubt, s, t, now, Answered);
    assert doubt - {t} == doubt;
  }

  // ---------- reading etcd, and releasing everything ----------

  lemma SyncPartition(hosts: set<string>, named: set<string>, records: Records, s': PoolState, now: int)
    requires Synced(hosts, records, s', now) && RecordsWithin(hosts + named, records)
    ensures Partition(hosts, named, s')
  {
  }

  /** Reading etcd settles every doubt. */
  lemma SyncGivesInv(hosts: set<string>, named: set<string>, records: Records, s': PoolState, now: int)
    requires Synced(hosts, records, s', now) && Spelled(records) && RecordsWithin(hosts + named, records)
    requires AllCanonical(hosts) && AllCanonical(named)
    ensures Inv(hosts, named, {}, s')
  {
    DecodedIsWhole(Dotted, records, s'.cached);
    AgreementIsDecoding(s');
    SyncPartition(hosts, named, records, s', now);
  }

  lemma SameKeys(s: PoolState, s': PoolState)
    requires forall t :: t in s'.cached <==> TypeKey(t) in s.records
    requires forall t :: t in WholeSeconds(s.cached) <==> TypeKey(t) in s.records
    ensures s'.cached.Keys == s.cached.Keys
  {
    WholeKeys(s.cached);
    assert forall t :: t in s'.cached <==> t in WholeSeconds(s.cached).Keys;
  }

  /** With everything allocated and nothing in doubt, reading etcd again finds nothing unused. */
  lemma SyncFindsNothing(hosts: set<string>, named: set<string>, s: PoolState, s': PoolState, now: int)
    requires Inv(hosts, named, {}, s) && s.unused.Keys == {} && Synced(hosts, s.records, s', now)
    ensures s'.unused.Keys == {} && s'.cached.Keys == s.cached.Keys
  {
    AgreementIsDecoding(s);
    DecodedKeys(Dotted, s'.cached, s.records);
    DecodedKeys(Dotted, WholeSeconds(s.cached), s.records);
    SameKeys(s, s');
  }

  /** A release of everything whose answer is lost is harmless exactly if the allocated addresses were in doubt. */
  lemma UnheardClearExactly(doubt: set<string>, s: PoolState)
    requires AgreesBut(doubt, s)
    ensures AgreesBut(doubt, s.(records := map[])) <==> s.cached.Keys <= doubt
  {
    var s' := s.(records := map[]);
    if AgreesBut(doubt, s') {
      forall t | t in s.cached
        ensures t in doubt
      {
        assert t !in doubt ==> AgreesAt(s', t);
      }
    }
  }

  lemma UnheardClearKeepsInv(hosts: set<string>, named: set<string>, doubt: set<string>, s: PoolState)
    requires Inv(hosts, named, doubt, s)
    ensures Inv(hosts, named, doubt + s.cached.Keys, s.(records := map[]))
  {
    var s' := s.(records := map[]);
    forall t | t !in doubt + s.cached.Keys
      ensures AgreesAt(s', t)
    {
    }
  }

  // ---------- every call, every run ----------

  /** A preferred address that is cached is spelled the way it prints, and MACs and service ids are not empty. */
  predicate WellMade(call: Call) {
    && (call.TakeNamed? && call.fault.Answered? ==> call.t == PrintIP(call.ip))
    && ((call.TakeNamed? || call.TakeUnused?) && !call.fault.RequestLost? ==> Filled(call.claim))
  }

  /** The addresses named by callers, after one more call. */
  function NamedAfter(named: set<string>, call: Call): set<string> {
    if !call.TakeNamed? || call.fault.RequestLost? then named else named + {PrintIP(call.ip)}
  }

  /** The addresses in doubt after one more call: a lost answer puts an address in doubt, an answer or a full read
      settles it. */
  ghost function DoubtAfter(doubt: set<string>, s: PoolState, call: Call): set<string> {
    match call
    case TakeNamed(t, ip, claim, now, fault) => DoubtAfterGrant(doubt, PrintIP(ip), fault)
    case TakeUnused(ip, claim, now, fault) => DoubtAfterGrant(doubt, PrintIP(ip), fault)
    case Return(t, now, fault) => DoubtAfterRelease(doubt, s, t, fault)
    case Resync(_) => {}
    case ReturnAll(now, fault) =>
      match fault
      case RequestLost => doubt
      case AnswerLost => doubt + s.cached.Keys
      case Answered => {}
  }

  function DoubtAfterGrant(doubt: set<string>, t: string, fault: Fault): set<string> {
    match fault
    case RequestLost => doubt
    case AnswerLost => doubt + {t}
    case Answered => doubt - {t}
  }

  lemma AskKeepsInv(hosts: set<string>, named: set<string>, doubt: set<string>, s: PoolState, ip: nat, claim: Claim,
                    now: int, fault: Fault)
    requires Inv(hosts, named, doubt, s) && ip < ADDRESSES && Grantable(s.records, claim, PrintIP(ip))
    requires fault.RequestLost? || Filled(claim)
    ensures var t := PrintIP(ip); var s' := Asked(s, t, ip, claim, now, fault);
      && (fault.RequestLost? || t in s.unused ==> Inv(hosts, named, DoubtAfterGrant(doubt, t, fault), s'))
      && Inv(hosts, if fault.RequestLost? then named else named + {t}, DoubtAfterGrant(doubt, t, fault), s')
  {
    match fault
    case RequestLost =>
    case Answered => TakeKeepsInv(hosts, named, doubt, s, PrintIP(ip), ip, claim, now);
    case AnswerLost => UnheardGrantKeepsInv(hosts, named, doubt, s, ip, claim, now);
  }

  lemma ReturnAllKeepsInv(hosts: set<string>, named: set<string>, doubt: set<string>, s: PoolState, now: int,
                          fault: Fault, s': PoolState)
    requires Inv(hosts, named, doubt, s) && Moves(hosts, s, ReturnAll(now, fault), s')
    ensures Inv(hosts, named, DoubtAfter(doubt, s, ReturnAll(now, fault)), s')
  {
    match fault
    case RequestLost =>
    case AnswerLost => UnheardClearKeepsInv(hosts, named, doubt, s);
    case Answered => SyncGivesInv(hosts, named, map[], s', now);
  }

  /** Every call keeps the invariant, faults included. */
  lemma MoveKeepsInv(hosts: set<string>, named: set<string>, doubt: set<string>, s: PoolState, call: Call,
                     s': PoolState)
    requires Inv(hosts, named, doubt, s) && Moves(hosts, s, call, s') && WellMade(call)
    ensures Inv(hosts, NamedAfter(named, call), DoubtAfter(doubt, s, call), s')
  {
    match call
    case TakeNamed(t, ip, claim, now, fault) =>
      AskKeepsInv(hosts, named, doubt, s, ip, claim, now, fault);
    case TakeUnused(ip, claim, now, fault) =>
      AskKeepsInv(hosts, named, doubt, s, ip, claim, now, fault);
    case Return(t, now, fault) =>
      ReleaseKeepsInv(hosts, named, doubt, s, t, now, fault);
    case Resync(now) =>
      SyncGivesInv(hosts, named, s.records, s', now);
    case ReturnAll(now, fault) =>
      ReturnAllKeepsInv(hosts, named, doubt, s, now, fault, s');
  }

  ghost predicate PoolRun(hosts: set<string>, states: seq<PoolState>, calls: seq<Call>) {
    && |states| == |calls| + 1
    && (exists now :: Synced(hosts, map[], states[0], now))
    && forall k :: 0 <= k < |calls| ==> Moves(hosts, states[k], calls[k], states[k + 1])
  }

  /** The addresses that callers have named in the first `k` calls of a run. */
  function NamedIn(calls: seq<Call>, k: nat): set<string>
    requires k <= |calls|
  {
    if k == 0 then {} else NamedAfter(NamedIn(calls, k - 1), calls[k - 1])
  }

  /** The addresses in doubt after the first `k` calls of a run. */
  ghost function DoubtIn(states: seq<PoolState>, calls: seq<Call>, k: nat): set<string>
    requires k <= |calls| && |states| == |calls| + 1
  {
    if k == 0 then {} else DoubtAfter(DoubtIn(states, calls, k - 1), states[k - 1], calls[k - 1])
  }

  /** In every run of a pool that starts empty, with requests and answers lost anywhere: the cache equals what etcd's
      records decode to except at the addresses in doubt, and allocated and unused addresses partition the host
      addresses and those that were named. */
  lemma {:induction false} RunKeepsInv(hosts: set<string>, states: seq<PoolState>, calls: seq<Call>, k: nat)
    requires PoolRun(hosts, states, calls) && k <= |calls|
    requires AllCanonical(hosts) && forall j :: 0 <= j < |calls| ==> WellMade(calls[j])
    ensures Inv(hosts, NamedIn(calls, k), DoubtIn(states, calls, k), states[k])
  {
    if k == 0 {
      var now :| Synced(hosts, map[], states[0], now);
      SyncGivesInv(hosts, {}, map[], states[0], now);
    } else {
      RunKeepsInv(hosts, states, calls, k - 1);
      MoveKeepsInv(hosts, NamedIn(calls, k - 1), DoubtIn(states, calls, k - 1), states[k - 1], calls[k - 1], states[k]);
    }
  }

  predicate LosesAnswer(call: Call) {
    !call.Resync? && call.fault.AnswerLost?
  }

  lemma {:induction false} NothingInDoubt(states: seq<PoolState>, calls: seq<Call>, k: nat)
    requires k <= |calls| && |states| == |calls| + 1 && forall j :: 0 <= j < k ==> !LosesAnswer(calls[j])
    ensures DoubtIn(states, calls, k) == {}
  {
    if k > 0 {
      NothingInDoubt(states, calls, k - 1);
    }
  }

  /** As long as no answer gets lost, and again after every full read, the cache is exactly what etcd decodes to. */
  lemma CacheIsDecoding(hosts: set<string>, states: seq<PoolState>, calls: seq<Call>, k: nat)
    requires PoolRun(hosts, states, calls) && k <= |calls|
    requires AllCanonical(hosts) && forall j :: 0 <= j < |calls| ==> WellMade(calls[j])
    requires (k > 0 && calls[k - 1].Resync?) || forall j :: 0 <= j < k ==> !LosesAnswer(calls[j])
    ensures CacheAgrees(states[k])
  {
    RunKeepsInv(hosts, states, calls, k);
    if forall j :: 0 <= j < k ==> !LosesAnswer(calls[j]) {
      NothingInDoubt(states, calls, k);
    }
    AgreementIsDecoding(states[k]);
  }

  // ---------- the records alone, whatever the cache says ----------

  /** A transaction that committed, whether or not its answer arrived. */
  datatype Commit = Grant(claim: Claim, ip: nat, now: int) | Drop(ip: nat) | DropAll

  ghost predicate Commits(records: Records, c: Commit, records': Records) {
    match c
    case Grant(claim, ip, now) =>
      && ip < ADDRESSES && Filled(claim) && Grantable(records, claim, PrintIP(ip))
      && records' == AfterGrant(records, claim, PrintIP(ip), now)
    case Drop(ip) => ip < ADDRESSES && records' == AfterRelease(records, PrintIP(ip))
    case DropAll => records' == map[]
  }

  ghost predicate RecordsRun(history: seq<Records>, commits: seq<Commit>) {
    && |history| == |commits| + 1 && history[0] == map[]
    && forall k :: 0 <= k < |commits| ==> Commits(history[k], commits[k], history[k + 1])
  }

  lemma CommitKeepsRecords(records: Records, c: Commit, records': Records)
    requires WellFormed(records) && Spelled(records) && Commits(records, c, records')
    ensures WellFormed(records') && Spelled(records')
  {
    match c
    case Grant(claim, ip, now) =>
      PrintedIsCanonical(ip);
      GrantEffect(records, claim, PrintIP(ip), now);
    case Drop(ip) =>
      ReleaseEffect(records, PrintIP(ip));
    case DropAll =>
  }

  /** Every reachable state of the records is well formed, lost answers and restarts included. */
  lemma {:induction false} RecordsStayWellFormed(history: seq<Records>, commits: seq<Commit>, k: nat)
    requires RecordsRun(history, commits) && k <= |commits|
    ensures WellFormed(history[k]) && Spelled(history[k])
  {
    if k > 0 {
      RecordsStayWellFormed(history, commits, k - 1);
      CommitKeepsRecords(history[k - 1], commits[k - 1], history[k]);
    }
  }

  /** The container or service that holds an address. */
  function HolderOf(h: Holding): Option<Claim> {
    match h
    case ForContainer(_, mac) => Some(Container(mac))
    case ForService(_, id) => Some(Service(id))
    case _ => None
  }

  ghost predicate Drops(c: Commit, ip: nat) {
    c == Drop(ip) || c.DropAll?
  }

  lemma HolderStays(records: Records, c: Commit, records': Records, ip: nat)
    requires WellFormed(records) && Commits(records, c, records') && ip < ADDRESSES
    requires HoldingOf(records, PrintIP(ip)).Some? && HolderOf(HoldingOf(records, PrintIP(ip)).value).Some?
    requires !Drops(c, ip)
    ensures HoldingOf(records', PrintIP(ip)).Some?
    ensures HolderOf(HoldingOf(records', PrintIP(ip)).value) == HolderOf(HoldingOf(records, PrintIP(ip)).value)
  {
    ParsePrintedIP(ip);
    ParsePrintedIP(c.ip);
    if c.Grant? {
      GrantEffect(records, c.claim, PrintIP(c.ip), c.now);
      GrantableIsMayTake(records, c.claim, PrintIP(c.ip));
    } else {
      ReleaseEffect(records, PrintIP(c.ip));
    }
  }

  /** In every run, an address held for a container or a service stays with it until it is released. */
  lemma {:induction false} HeldUntilReleased(history: seq<Records>, commits: seq<Commit>, i: nat, j: nat, ip: nat)
    requires RecordsRun(history, commits) && i <= j <= |commits| && ip < ADDRESSES
    requires HoldingOf(history[i], PrintIP(ip)).Some? && HolderOf(HoldingOf(history[i], PrintIP(ip)).value).Some?
    requires forall k :: i <= k < j ==> !Drops(commits[k], ip)
    ensures HoldingOf(history[j], PrintIP(ip)).Some?
    ensures HolderOf(HoldingOf(history[j], PrintIP(ip)).value) == HolderOf(HoldingOf(history[i], PrintIP(ip)).value)
  {
    if i < j {
      HeldUntilReleased(history, commits, i, j - 1, ip);
      RecordsStayWellFormed(history, commits, j - 1);
      HolderStays(history[j - 1], commits[j - 1], history[j], ip);
    }
  }

  // ---------- an address in another spelling ----------

  const MAPPED_SPELLING := "::ffff:10.0.0.5"
  const ITS_ADDRESS: nat := 0x0A00_0005

  /** A reader of dotted texts and of that one spelling. */
  function ReadsMapped(t: string): Option<Address> {
    ParseIP(u => if u == MAPPED_SPELLING then Some(V4(ITS_ADDRESS)) else None, t)
  }

  lemma MappedIsRead()
    ensures IsReader(ReadsMapped) && ReadsMapped(MAPPED_SPELLING) == Some(V4(ITS_ADDRESS))
    ensures MAPPED_SPELLING != PrintIP(ITS_ADDRESS)
  {
    forall t | Dotted(t).Some?
      ensures ReadsMapped(t) == Dotted(t) && Dotted(t).value.value < ADDRESSES
    {
      ParseIPReads(u => if u == MAPPED_SPELLING then Some(V4(ITS_ADDRESS)) else None, t);
    }
    assert MAPPED_SPELLING[0] == ':';
    ParsePrintedIP(ITS_ADDRESS);
  }

  /** A fresh pool with one host address. */
  function FreshPool(t: string, now: int): PoolState {
    PoolState(map[], map[], map[t := now])
  }

  lemma FreshPoolIsValid(ip: nat, claim: Claim, now: int)
    requires ip < ADDRESSES
    ensures var t := PrintIP(ip); var s := FreshPool(t, now);
      && Synced({t}, map[], s, now) && Inv({t}, {}, {}, s) && Grantable(s.records, claim, t)
      && CacheAgrees(s) && MayPick(s.unused, t, now)
  {
    var t := PrintIP(ip);
    var s := FreshPool(t, now);
    PrintedIsCanonical(ip);
    SyncGivesInv({t}, {}, map[], s, now);
    UnusedIsGrantable({t}, {}, {}, s, t, claim);
    AgreementIsDecoding(s);
  }

  /** A fresh pool with one host address, asked for that address in its mapped spelling: it is granted, and the cache
      then disagrees with etcd. */
  lemma MappedSpellingDisagrees(claim: Claim, now: int) returns (s: PoolState, s': PoolState)
    ensures Synced({PrintIP(ITS_ADDRESS)}, map[], s, now) && Inv({PrintIP(ITS_ADDRESS)}, {}, {}, s)
    ensures IsReader(ReadsMapped) && ReadsMapped(MAPPED_SPELLING) == Some(V4(ITS_ADDRESS))
    ensures Moves({PrintIP(ITS_ADDRESS)}, s, TakeNamed(MAPPED_SPELLING, ITS_ADDRESS, claim, now, Answered), s')
    ensures !CacheAgrees(s')
  {
    s := FreshPool(PrintIP(ITS_ADDRESS), now);
    s' := Take(s, MAPPED_SPELLING, ITS_ADDRESS, claim, now);
    MappedIsRead();
    FreshPoolIsValid(ITS_ADDRESS, claim, now);
    TakeKeepsCache(s, MAPPED_SPELLING, ITS_ADDRESS, claim, now);
  }

  /** A fresh pool that gives its address to a container with an empty MAC: the cache then disagrees with etcd. */
  lemma EmptyMacDisagrees(ip: nat, now: int) returns (s: PoolState, s': PoolState)
    requires ip < ADDRESSES
    ensures Synced({PrintIP(ip)}, map[], s, now) && Inv({PrintIP(ip)}, {}, {}, s)
    ensures Moves({PrintIP(ip)}, s, TakeUnused(ip, Container(""), now, Answered), s')
    ensures !CacheAgrees(s')
  {
    s := FreshPool(PrintIP(ip), now);
    s' := Take(s, PrintIP(ip), ip, Container(""), now);
    FreshPoolIsValid(ip, Container(""), now);
    TakeKeepsCache(s, PrintIP(ip), ip, Container(""), now);
  }

  /** A fresh pool with one host address after a grant that was not heard. */
  function AfterUnheardGrant(ip: nat, mac: string, now: int): PoolState {
    Asked(FreshPool(PrintIP(ip), now), PrintIP(ip), ip, Container(mac), now, AnswerLost)
  }

  /** The address still shows as unused, and no other container gets it. */
  lemma UnheardGrantBlocks(ip: nat, mac: string, other: string, now: int) returns (s: PoolState)
    requires ip < ADDRESSES && mac != "" && other != mac
    ensures Synced({PrintIP(ip)}, map[], s, now)
    ensures var s' := AfterUnheardGrant(ip, mac, now);
      && Moves({PrintIP(ip)}, s, TakeUnused(ip, Container(mac), now, AnswerLost), s')
      && s'.unused.Keys == {PrintIP(ip)} && MayPick(s'.unused, PrintIP(ip), now)
      && !Grantable(s'.records, Container(other), PrintIP(ip))
  {
    s := FreshPool(PrintIP(ip), now);
    FreshPoolIsValid(ip, Container(mac), now);
    NextAfterUnheardGrant(s, PrintIP(ip), Container(mac), now, Container(other));
  }

  /** A fresh pool that gives its address and takes it back with the answer lost: the next release finds nothing. */
  lemma UnheardReleaseFails(ip: nat, mac: string, now: int) returns (s: PoolState, s1: PoolState, s2: PoolState)
    requires ip < ADDRESSES && mac != ""
    ensures Synced({PrintIP(ip)}, map[], s, now)
    ensures Moves({PrintIP(ip)}, s, TakeUnused(ip, Container(mac), now, Answered), s1)
    ensures Moves({PrintIP(ip)}, s1, Return(PrintIP(ip), now, AnswerLost), s2)
    ensures PrintIP(ip) in s2.cached && !Releasable(s2, PrintIP(ip))
    ensures CurrentAllocation(s2.records, s2.cached[PrintIP(ip)].ip, PrintIP(ip)) == None
  {
    var t := PrintIP(ip);
    s := FreshPool(t, now);
    s1 := Take(s, t, ip, Container(mac), now);
    FreshPoolIsValid(ip, Container(mac), now);
    TakeAgrees({}, s, t, ip, Container(mac), now);
    assert {} - {t} == {};
    CachedIsReleasable({}, s1, t);
    s2 := Released(s1, t, now, AnswerLost);
    UnheardReleaseExactly({}, s1, t);
  }
}
