/**
 The etcd records of one host's address pool: up to four keys per address, changed by guarded transactions,
 and the decoder that reads them back.
 */
module PoolRecords {
  import opened Basics
  import opened Cidr
  import opened Keys

  /** A stored value. A time is stored with whole-second resolution. */
  datatype Value = Text(s: string) | Stamp(seconds: int)

  type Records = map<RecordKey, Value>

  const SECOND: int := 1_000_000_000

  function FormatTime(nanoseconds: int): Value {
    Stamp(nanoseconds / SECOND)
  }

  const RESERVED := "reserved"
  const CONTAINER_IP := "container-ip"
  const SERVICE_VIP := "service-vip"

  datatype Allocation = Allocation(
    ip: Option<Address>,
    allocationType: string,
    allocatedAt: int,              // nanoseconds
    dataKey: Option<RecordKey>,
    data: string)

  const NO_ALLOCATION := Allocation(None, "", 0, None, "")

  // ---------- what the records of one address say ----------

  datatype Holding =
    | Free
    | Reserved(at: int)
    | ForContainer(at: int, mac: string)
    | ForService(at: int, id: string)

  /** The holding that the four keys of an address spell, if they spell one. */
  function HoldingOf(records: Records, t: string): Option<Holding> {
    var kind, at := Get(records, TypeKey(t)), Get(records, AllocatedAtKey(t));
    var mac, id := Get(records, MacKey(t)), Get(records, ServiceIDKey(t));
    if kind.None? && at.None? && mac.None? && id.None? then Some(Free)
    else if !(at.Some? && at.value.Stamp?) then None
    else if kind == Some(Text(RESERVED)) && mac.None? && id.None? then Some(Reserved(at.value.seconds))
    else if kind == Some(Text(CONTAINER_IP)) && mac.Some? && mac.value.Text? && mac.value.s != "" && id.None? then
      Some(ForContainer(at.value.seconds, mac.value.s))
    else if kind == Some(Text(SERVICE_VIP)) && id.Some? && id.value.Text? && id.value.s != "" && mac.None? then
      Some(ForService(at.value.seconds, id.value.s))
    else None
  }

  /** The records of every address spell one of the holdings. */
  ghost predicate WellFormed(records: Records) {
    forall k :: k in records ==> HoldingOf(records, k.ip).Some?
  }

  /** The text is the one an address prints as. */
  predicate Canonical(t: string) {
    Dotted(t).Some?
  }

  /** Every address with a record is spelled the way it prints. */
  ghost predicate Spelled(records: Records) {
    forall k :: k in records ==> Canonical(k.ip)
  }

  lemma HoldingExists(records: Records, t: string)
    requires WellFormed(records)
    ensures HoldingOf(records, t).Some?
    ensures HoldingOf(records, t) == Some(Free) <==> TypeKey(t) !in records
  {
  }

  // ---------- transactions ----------

  datatype Cmp = ValueIs(key: RecordKey, value: Value) | Absent(key: RecordKey)

  /** A value comparison on a missing key is false. */
  predicate Holds(records: Records, c: Cmp) {
    match c
    case ValueIs(k, v) => k in records && records[k] == v
    case Absent(k) => k !in records
  }

  predicate AllHold(records: Records, cmps: seq<Cmp>) {
    forall i :: 0 <= i < |cmps| ==> Holds(records, cmps[i])
  }

  datatype Op = PutOp(key: RecordKey, value: Value) | DeleteOp(key: RecordKey)

  function ApplyOp(records: Records, op: Op): Records {
    match op
    case PutOp(k, v) => records[k := v]
    case DeleteOp(k) => records - {k}
  }

  function ApplyOps(records: Records, ops: seq<Op>): Records
    decreases |ops|
  {
    if ops == [] then records else ApplyOps(ApplyOp(records, ops[0]), ops[1..])
  }

  lemma ApplyTwo(records: Records, ops: seq<Op>)
    requires |ops| >= 2
    ensures ApplyOps(records, ops) == ApplyOps(ApplyOp(ApplyOp(records, ops[0]), ops[1]), ops[2..])
  {
    assert ops[1..][1..] == ops[2..];
  }

  /** What an address is asked for. */
  datatype Claim = Reserve | Container(mac: string) | Service(id: string)

  function TypeOf(claim: Claim): string {
    match claim
    case Reserve => RESERVED
    case Container(_) => CONTAINER_IP
    case Service(_) => SERVICE_VIP
  }

  function DataKeyOf(claim: Claim, t: string): Option<RecordKey> {
    match claim
    case Reserve => None
    case Container(_) => Some(MacKey(t))
    case Service(_) => Some(ServiceIDKey(t))
  }

  function DataOf(claim: Claim): string {
    match claim
    case Reserve => ""
    case Container(mac) => mac
    case Service(id) => id
  }

  /** The alternatives under which the address is given, tried one transaction after the other. */
  function Conditions(claim: Claim, t: string): seq<seq<Cmp>> {
    match claim
    case Reserve => [[Absent(TypeKey(t))]]
    case Container(mac) => [
      [ValueIs(TypeKey(t), Text(RESERVED)), Absent(MacKey(t))],
      [Absent(TypeKey(t))],
      [ValueIs(TypeKey(t), Text(RESERVED)), ValueIs(MacKey(t), Text(mac))],
      [ValueIs(TypeKey(t), Text(CONTAINER_IP)), ValueIs(MacKey(t), Text(mac))]]
    case Service(id) => [
      [ValueIs(TypeKey(t), Text(RESERVED)), Absent(ServiceIDKey(t))],
      [ValueIs(TypeKey(t), Text(SERVICE_VIP)), ValueIs(ServiceIDKey(t), Text(id))],
      [Absent(TypeKey(t))]]
  }

  function AllocationOps(claim: Claim, t: string, now: int): seq<Op> {
    [PutOp(TypeKey(t), Text(TypeOf(claim))), PutOp(AllocatedAtKey(t), FormatTime(now))]
    + if claim.Reserve? || DataOf(claim) == "" then [] else [PutOp(DataKeyOf(claim, t).value, Text(DataOf(claim)))]
  }

  ghost predicate Grantable(records: Records, claim: Claim, t: string) {
    exists c :: 0 <= c < |Conditions(claim, t)| && AllHold(records, Conditions(claim, t)[c])
  }

  function Granted(claim: Claim, ip: nat, now: int): Allocation {
    Allocation(Some(V4(ip)), TypeOf(claim), now, DataKeyOf(claim, PrintIP(ip)), DataOf(claim))
  }

  /** The holding a granted claim leaves. */
  function Held(claim: Claim, now: int): Holding {
    match claim
    case Reserve => Reserved(now / SECOND)
    case Container(mac) => ForContainer(now / SECOND, mac)
    case Service(id) => ForService(now / SECOND, id)
  }

  /** Who may take an address: anyone if it is free; a container or a service if it is merely reserved; and the
      same container or service again. */
  predicate MayTake(claim: Claim, h: Holding) {
    match h
    case Free => true
    case Reserved(_) => !claim.Reserve?
    case ForContainer(_, mac) => claim == Container(mac)
    case ForService(_, id) => claim == Service(id)
  }

  /** The condition lists give an address exactly to those who may take it: one held for a container or a service
      is never given to another before it is released. */
  lemma GrantableIsMayTake(records: Records, claim: Claim, t: string)
    requires WellFormed(records)
    ensures HoldingOf(records, t).Some?
      && (Grantable(records, claim, t) <==> MayTake(claim, HoldingOf(records, t).value))
  {
    HoldingExists(records, t);
    var cs := Conditions(claim, t);
    if MayTake(claim, HoldingOf(records, t).value) {
      match claim
      case Reserve => assert AllHold(records, cs[0]);
      case Container(mac) => assert AllHold(records, cs[0]) || AllHold(records, cs[1]) || AllHold(records, cs[3]);
      case Service(id) => assert AllHold(records, cs[0]) || AllHold(records, cs[1]) || AllHold(records, cs[2]);
    }
    if Grantable(records, claim, t) {
      var c :| 0 <= c < |cs| && AllHold(records, cs[c]);
      assert Holds(records, cs[c][0]) && (|cs[c]| == 2 ==> Holds(records, cs[c][1]));
    }
  }

  /** "Already reserved for this same MAC" never happens. */
  lemma ReservedWithMacNeverFires(records: Records, mac: string, t: string)
    requires WellFormed(records)
    ensures !AllHold(records, Conditions(Container(mac), t)[2])
  {
    HoldingExists(records, t);
    var c := Conditions(Container(mac), t)[2];
    assert AllHold(records, c) ==> Holds(records, c[0]) && Holds(records, c[1]);
  }

  function AfterGrant(records: Records, claim: Claim, t: string, now: int): Records {
    ApplyOps(records, AllocationOps(claim, t, now))
  }

  /** Callers give a container's MAC and a service's id, never an empty one. */
  predicate Filled(claim: Claim) {
    claim.Reserve? || DataOf(claim) != ""
  }

  lemma GrantRecords(records: Records, claim: Claim, t: string, now: int)
    ensures var r := records[TypeKey(t) := Text(TypeOf(claim))][AllocatedAtKey(t) := FormatTime(now)];
      AfterGrant(records, claim, t, now)
        == if claim.Reserve? || !Filled(claim) then r else r[DataKeyOf(claim, t).value := Text(DataOf(claim))]
  {
    ApplyTwo(records, AllocationOps(claim, t, now));
  }

  ghost predicate SameFor(records: Records, records': Records, u: string) {
    forall k :: k in {TypeKey(u), AllocatedAtKey(u), MacKey(u), ServiceIDKey(u)} ==> Get(records', k) == Get(records, k)
  }

  lemma SameHolding(records: Records, records': Records, u: string)
    requires SameFor(records, records', u)
    ensures HoldingOf(records', u) == HoldingOf(records, u)
  {
  }

  /** Granting an address leaves every other address as it was. */
  lemma GrantElsewhere(records: Records, claim: Claim, t: string, now: int)
    ensures var records' := AfterGrant(records, claim, t, now);
      && (forall u :: u != t ==> HoldingOf(records', u) == HoldingOf(records, u))
      && (forall k :: k in records' ==> k in records || k.ip == t)
  {
    GrantRecords(records, claim, t, now);
    var records' := AfterGrant(records, claim, t, now);
    forall u | u != t
      ensures HoldingOf(records', u) == HoldingOf(records, u)
    {
      SameHolding(records, records', u);
    }
  }

  lemma GrantOwn(records: Records, claim: Claim, t: string, now: int)
    requires WellFormed(records) && Grantable(records, claim, t) && Filled(claim)
    ensures HoldingOf(AfterGrant(records, claim, t, now), t) == Some(Held(claim, now))
  {
    GrantableIsMayTake(records, claim, t);
    GrantRecords(records, claim, t, now);
  }

  /** Granting a claim leaves the address held for it, every other address as it was, and the records well formed. */
  lemma GrantEffect(records: Records, claim: Claim, t: string, now: int)
    requires WellFormed(records) && Grantable(records, claim, t) && Filled(claim)
    ensures var records' := AfterGrant(records, claim, t, now);
      && WellFormed(records')
      && HoldingOf(records', t) == Some(Held(claim, now))
      && (forall u :: u != t ==> HoldingOf(records', u) == HoldingOf(records, u))
      && (forall k :: k in records' ==> k in records || k.ip == t)
  {
    GrantOwn(records, claim, t, now);
    GrantElsewhere(records, claim, t, now);
  }

  lemma EmptyDataSpellsNothing(records: Records, claim: Claim, t: string, now: int)
    requires WellFormed(records) && Grantable(records, claim, t) && !Filled(claim)
    ensures HoldingOf(AfterGrant(records, claim, t, now), t) == None
    ensures TypeKey(t) in AfterGrant(records, claim, t, now)
  {
    GrantableIsMayTake(records, claim, t);
    GrantRecords(records, claim, t, now);
  }

  /** Granting keeps the records well formed exactly if the MAC or service id is not empty. */
  lemma GrantKeepsRecords(records: Records, claim: Claim, t: string, now: int)
    requires WellFormed(records) && Grantable(records, claim, t)
    ensures WellFormed(AfterGrant(records, claim, t, now)) <==> Filled(claim)
  {
    if Filled(claim) {
      GrantEffect(records, claim, t, now);
    } else {
      EmptyDataSpellsNothing(records, claim, t, now);
      assert TypeKey(t).ip == t;
    }
  }

  /** Request number `at` of the series of transactions has a fault. What that comes to for the whole series: it is
      answered if one of the requests before was accepted, or if there are not that many. */
  ghost function SeriesFault(records: Records, claim: Claim, t: string, at: nat, fault: Fault): Fault {
    var conditions := Conditions(claim, t);
    if at >= |conditions| || exists c :: 0 <= c < at && AllHold(records, conditions[c]) then Answered
    else if fault.AnswerLost? && !AllHold(records, conditions[at]) then RequestLost
    else fault
  }

  // ---------- release ----------

  function ReleaseConditions(r: Allocation, t: string): seq<Cmp> {
    [ValueIs(TypeKey(t), Text(r.allocationType))]
    + if r.data == "" || r.dataKey.None? then [Absent(MacKey(t)), Absent(ServiceIDKey(t))]
      else [ValueIs(r.dataKey.value, Text(r.data))]
  }

  function ReleaseOps(t: string): seq<Op> {
    [DeleteOp(TypeKey(t)), DeleteOp(AllocatedAtKey(t)), DeleteOp(MacKey(t)), DeleteOp(ServiceIDKey(t))]
  }

  function AfterRelease(records: Records, t: string): Records {
    records - {TypeKey(t), AllocatedAtKey(t), MacKey(t), ServiceIDKey(t)}
  }

  lemma ReleaseRecords(records: Records, t: string)
    ensures ApplyOps(records, ReleaseOps(t)) == AfterRelease(records, t)
  {
    ApplyTwo(records, ReleaseOps(t));
    ApplyTwo(ApplyOp(ApplyOp(records, ReleaseOps(t)[0]), ReleaseOps(t)[1]), ReleaseOps(t)[2..]);
  }

  // ---------- decoding ----------

  /** The allocation that a holding reads back as. */
  function AllocationOf(ip: Option<Address>, t: string, h: Holding): Allocation {
    match h
    case Free => NO_ALLOCATION
    case Reserved(at) => Allocation(ip, RESERVED, at * SECOND, None, "")
    case ForContainer(at, mac) => Allocation(ip, CONTAINER_IP, at * SECOND, Some(MacKey(t)), mac)
    case ForService(at, id) => Allocation(ip, SERVICE_VIP, at * SECOND, Some(ServiceIDKey(t)), id)
  }

  /** An allocation for the address spelled `t`. */
  ghost predicate Proper(parse: Reader, t: string, a: Allocation) {
    && parse(t).Some? && a.ip == parse(t)
    && ((a.allocationType == RESERVED && a.dataKey == None && a.data == "")
        || (a.allocationType == CONTAINER_IP && a.dataKey == Some(MacKey(t)) && a.data != "")
        || (a.allocationType == SERVICE_VIP && a.dataKey == Some(ServiceIDKey(t)) && a.data != ""))
  }

  /** The holding that the keys of a proper allocation spell. */
  function HoldingFor(a: Allocation): (h: Holding)
    ensures !h.Free?
  {
    var at := a.allocatedAt / SECOND;
    if a.allocationType == CONTAINER_IP then ForContainer(at, a.data)
    else if a.allocationType == SERVICE_VIP then ForService(at, a.data)
    else Reserved(at)
  }

  lemma HoldingReadsBack(parse: Reader, t: string, a: Allocation)
    requires Proper(parse, t, a)
    ensures AllocationOf(parse(t), t, HoldingFor(a)) == a.(allocatedAt := a.allocatedAt / SECOND * SECOND)
  {
  }

  /** What etcd holds for an address is a proper allocation, and spells the same again. */
  lemma HeldIsProper(parse: Reader, records: Records, t: string)
    requires WellFormed(records) && parse(t).Some? && HoldingOf(records, t) != Some(Free)
    ensures HoldingOf(records, t).Some?
    ensures var h := HoldingOf(records, t).value;
      Proper(parse, t, AllocationOf(parse(t), t, h)) && HoldingFor(AllocationOf(parse(t), t, h)) == h
  {
    HoldingExists(records, t);
  }

  /** A granted allocation is proper under a text exactly if the address prints as that text and the MAC or service
      id is not empty. */
  lemma GrantedIsProper(t: string, ip: nat, claim: Claim, now: int)
    requires ip < ADDRESSES
    ensures Proper(Dotted, t, Granted(claim, ip, now)) <==> t == PrintIP(ip) && Filled(claim)
    ensures HoldingFor(Granted(claim, ip, now)) == Held(claim, now)
  {
    PrintedIsCanonical(ip);
    if Dotted(t) == Some(V4(ip)) {
      CanonicalIsPlain(t);
    }
  }

  /** Held by the same, maybe since another time. */
  predicate SameHolder(h: Holding, h': Holding) {
    || (h.Reserved? && h'.Reserved?)
    || (h.ForContainer? && h'.ForContainer? && h.mac == h'.mac)
    || (h.ForService? && h'.ForService? && h.id == h'.id)
  }

  /** A release takes its success branch exactly if etcd has the address for the holder that the allocation says. */
  lemma ReleaseSucceeds(parse: Reader, records: Records, t: string, r: Allocation)
    requires WellFormed(records) && Proper(parse, t, r)
    ensures HoldingOf(records, t).Some?
    ensures AllHold(records, ReleaseConditions(r, t)) <==> SameHolder(HoldingOf(records, t).value, HoldingFor(r))
  {
    HoldingExists(records, t);
    var conditions := ReleaseConditions(r, t);
    assert AllHold(records, conditions) ==> Holds(records, conditions[0]) && Holds(records, conditions[1]);
  }

  /** What a refused release finds. The source indexes the type and the time without asking whether they are there:
      where one is missing it fails, and this is None. */
  function CurrentAllocation(records: Records, ip: Option<Address>, t: string): Option<Allocation> {
    var kind, at := Get(records, TypeKey(t)), Get(records, AllocatedAtKey(t));
    var mac, id := Get(records, MacKey(t)), Get(records, ServiceIDKey(t));
    if kind.None? || at.None? then None
    else
      var a := Allocation(ip, if kind.value.Text? then kind.value.s else "",
                          if at.value.Stamp? then at.value.seconds * SECOND else 0, None, "");
      if mac.Some? && mac.value.Text? then Some(a.(dataKey := Some(MacKey(t)), data := mac.value.s))
      else if id.Some? && id.value.Text? then Some(a.(dataKey := Some(ServiceIDKey(t)), data := id.value.s))
      else Some(a)
  }

  /** In well-formed records that is the allocation the address has, unless it is free. */
  lemma RefusalReportsHolder(records: Records, ip: Option<Address>, t: string)
    requires WellFormed(records)
    ensures HoldingOf(records, t).Some?
    ensures CurrentAllocation(records, ip, t)
      == if HoldingOf(records, t).value.Free? then None else Some(AllocationOf(ip, t, HoldingOf(records, t).value))
  {
    HoldingExists(records, t);
  }

  lemma ReleasedIsFree(records: Records, t: string)
    ensures HoldingOf(AfterRelease(records, t), t) == Some(Free)
  {
  }

  lemma ReleaseEffect(records: Records, t: string)
    requires WellFormed(records)
    ensures var records' := AfterRelease(records, t);
      && WellFormed(records')
      && HoldingOf(records', t) == Some(Free)
      && (forall u :: u != t ==> HoldingOf(records', u) == HoldingOf(records, u))
  {
    var records' := AfterRelease(records, t);
    ReleasedIsFree(records, t);
    forall u | u != t
      ensures HoldingOf(records', u) == HoldingOf(records, u)
    {
      SameHolding(records, records', u);
    }
    forall k | k in records'
      ensures HoldingOf(records', k.ip).Some?
    {
      if k.ip != t {
        HoldingExists(records, k.ip);
      }
    }
  }

  /** The map a full decode gives: one entry per address that is not free. */
  ghost predicate Decodes(parse: Reader, m: map<string, Allocation>, records: Records)
    requires WellFormed(records)
  {
    && (forall t :: t in m <==> TypeKey(t) in records)
    && (forall t :: t in m ==>
        HoldingOf(records, t).Some? && m[t] == AllocationOf(parse(t), t, HoldingOf(records, t).value))
  }

  /** Only an allocation time is stored as a time. */
  ghost predicate Typed(records: Records) {
    forall k :: k in records && records[k].Stamp? ==> k.AllocatedAtKey?
  }

  /** Keys of unreadable addresses and unreadable times are skipped. */
  predicate Accepted(parse: Reader, k: RecordKey, v: Value) {
    match k
    case TypeKey(t) => parse(t).Some?
    case AllocatedAtKey(_) => v.Stamp?
    case _ => true
  }

  ghost predicate Seen(parse: Reader, records: Records, seen: set<RecordKey>, k: RecordKey) {
    k in seen && k in records && Accepted(parse, k, records[k])
  }

  /** `a` is what the keys seen say of address `t`. If it has both a MAC and a service id, it is one of them. */
  ghost predicate Gathers(parse: Reader, records: Records, seen: set<RecordKey>, t: string, a: Allocation)
    requires Typed(records)
  {
    && (if Seen(parse, records, seen, TypeKey(t)) then a.ip == parse(t) && a.allocationType == records[TypeKey(t)].s
        else a.ip == None && a.allocationType == "")
    && (if Seen(parse, records, seen, AllocatedAtKey(t))
        then a.allocatedAt == records[AllocatedAtKey(t)].seconds * SECOND else a.allocatedAt == 0)
    && GathersData(parse, records, seen, t, a)
  }

  ghost predicate GathersData(parse: Reader, records: Records, seen: set<RecordKey>, t: string, a: Allocation)
    requires Typed(records)
  {
    var mac, id := Seen(parse, records, seen, MacKey(t)), Seen(parse, records, seen, ServiceIDKey(t));
    || (mac && a.dataKey == Some(MacKey(t)) && a.data == records[MacKey(t)].s)
    || (id && a.dataKey == Some(ServiceIDKey(t)) && a.data == records[ServiceIDKey(t)].s)
    || (!mac && !id && a.dataKey == None && a.data == "")
  }

  /** Some key seen belongs to the address. */
  ghost predicate SeenAny(parse: Reader, records: Records, seen: set<RecordKey>, t: string) {
    || Seen(parse, records, seen, TypeKey(t)) || Seen(parse, records, seen, AllocatedAtKey(t))
    || Seen(parse, records, seen, MacKey(t)) || Seen(parse, records, seen, ServiceIDKey(t))
  }

  ghost predicate GatheredSoFar(parse: Reader, result: map<string, Allocation>, records: Records, seen: set<RecordKey>)
    requires Typed(records)
  {
    && (forall t :: t in result <==> SeenAny(parse, records, seen, t))
    && (forall t :: t in result ==> Gathers(parse, records, seen, t, result[t]))
  }

  function Existing(store: map<string, Allocation>, id: string): Allocation {
    if id in store then store[id] else NO_ALLOCATION
  }

  /** What an accepted key changes in the entry of its address. */
  function Updated(existing: Allocation, ip: Option<Address>, k: RecordKey, v: Value): Allocation {
    match k
    case TypeKey(_) => if v.Text? then existing.(ip := ip, allocationType := v.s) else existing
    case AllocatedAtKey(_) => if v.Stamp? then existing.(allocatedAt := v.seconds * SECOND) else existing
    case _ => if v.Text? then existing.(dataKey := Some(k), data := v.s) else existing
  }

  /** The entry the decoder writes for a key is what all keys seen so far say about the address. */
  lemma GatherStep(parse: Reader, records: Records, seen: set<RecordKey>, k: RecordKey, a: Allocation)
    requires Typed(records) && k in records && Accepted(parse, k, records[k])
    requires Gathers(parse, records, seen, k.ip, a)
    ensures Gathers(parse, records, seen + {k}, k.ip, Updated(a, parse(k.ip), k, records[k]))
  {
  }

  lemma NothingGathered(parse: Reader, records: Records, seen: set<RecordKey>, t: string)
    requires Typed(records) && !SeenAny(parse, records, seen, t)
    ensures Gathers(parse, records, seen, t, NO_ALLOCATION)
  {
  }

  /** Keys of other addresses, and keys that are skipped, do not matter. */
  lemma GatheredElsewhere(parse: Reader, records: Records, seen: set<RecordKey>, k: RecordKey, t: string, a: Allocation)
    requires Typed(records) && (t != k.ip || (k in records && !Accepted(parse, k, records[k])))
    ensures Gathers(parse, records, seen + {k}, t, a) == Gathers(parse, records, seen, t, a)
    ensures SeenAny(parse, records, seen + {k}, t) == SeenAny(parse, records, seen, t)
  {
  }

  lemma SkipOne(parse: Reader, records: Records, k: RecordKey, result: map<string, Allocation>, seen: set<RecordKey>)
    requires Typed(records) && k in records && !Accepted(parse, k, records[k])
    requires GatheredSoFar(parse, result, records, seen)
    ensures GatheredSoFar(parse, result, records, seen + {k})
  {
    forall t
      ensures SeenAny(parse, records, seen + {k}, t) == SeenAny(parse, records, seen, t)
      ensures t in result ==> Gathers(parse, records, seen + {k}, t, result[t])
    {
      GatheredElsewhere(parse, records, seen, k, t, Existing(result, t));
    }
  }

  lemma DecodeOne(parse: Reader, records: Records, k: RecordKey, result: map<string, Allocation>, seen: set<RecordKey>)
    requires Typed(records) && k in records && Accepted(parse, k, records[k])
    requires GatheredSoFar(parse, result, records, seen)
    ensures var entry := Updated(Existing(result, k.ip), parse(k.ip), k, records[k]);
      GatheredSoFar(parse, result[k.ip := entry], records, seen + {k})
  {
    var entry := Updated(Existing(result, k.ip), parse(k.ip), k, records[k]);
    if k.ip !in result {
      NothingGathered(parse, records, seen, k.ip);
    }
    GatherStep(parse, records, seen, k, Existing(result, k.ip));
    assert Seen(parse, records, seen + {k}, k);
    forall t
      ensures t in result[k.ip := entry] <==> SeenAny(parse, records, seen + {k}, t)
      ensures t in result && t != k.ip ==> Gathers(parse, records, seen + {k}, t, result[t])
    {
      if t != k.ip {
        GatheredElsewhere(parse, records, seen, k, t, Existing(result, t));
      }
    }
  }

  ghost predicate Readable(parse: Reader, records: Records) {
    forall k :: k in records ==> parse(k.ip).Some?
  }

  lemma FullyGathered(parse: Reader, records: Records, t: string, a: Allocation)
    requires Typed(records) && HoldingOf(records, t).Some? && HoldingOf(records, t) != Some(Free) && parse(t).Some?
    requires Gathers(parse, records, records.Keys, t, a)
    ensures a == AllocationOf(parse(t), t, HoldingOf(records, t).value)
  {
  }

  lemma SeenIsHeld(parse: Reader, records: Records, t: string)
    requires WellFormed(records) && Readable(parse, records)
    ensures SeenAny(parse, records, records.Keys, t) <==> TypeKey(t) in records
  {
    HoldingExists(records, t);
    assert TypeKey(t) in records ==> parse(TypeKey(t).ip).Some?;
  }

  lemma WellFormedIsTyped(records: Records)
    requires WellFormed(records)
    ensures Typed(records)
  {
    forall k | k in records && records[k].Stamp?
      ensures k.AllocatedAtKey?
    {
      HoldingExists(records, k.ip);
    }
  }

  /** Well-formed records of readable addresses decode to one allocation for each address that is held. */
  lemma GatheredDecodes(parse: Reader, result: map<string, Allocation>, records: Records)
    requires WellFormed(records) && Readable(parse, records)
    requires Typed(records) && GatheredSoFar(parse, result, records, records.Keys)
    ensures Decodes(parse, result, records)
  {
    forall t
      ensures t in result <==> TypeKey(t) in records
      ensures t in result ==>
        HoldingOf(records, t).Some? && result[t] == AllocationOf(parse(t), t, HoldingOf(records, t).value)
    {
      SeenIsHeld(parse, records, t);
      HoldingExists(records, t);
      if t in result {
        assert parse(TypeKey(t).ip).Some?;
        FullyGathered(parse, records, t, result[t]);
      }
    }
  }

  /** Every key not seen yet is still to come. */
  ghost predicate Remaining(kvs: seq<(RecordKey, Value)>, records: Records, seen: set<RecordKey>) {
    forall k :: k in records && k !in seen ==> (k, records[k]) in kvs
  }

  lemma RemainingAfter(kvs: seq<(RecordKey, Value)>, records: Records, seen: set<RecordKey>)
    requires kvs != [] && Remaining(kvs, records, seen)
    ensures Remaining(kvs[1..], records, seen + {kvs[0].0})
  {
    assert kvs == [kvs[0]] + kvs[1..];
  }

  /** What the keys of one address say: a type only of a readable address, a time only if it is one, and one of the two
      kinds of data. */
  ghost predicate SaysOf(parse: Reader, records: Records, t: string, a: Allocation)
    requires Typed(records)
  {
    var kind := TypeKey(t) in records && parse(t).Some?;
    var at := AllocatedAtKey(t) in records && records[AllocatedAtKey(t)].Stamp?;
    && a.ip == (if kind then parse(t) else None)
    && a.allocationType == (if kind then records[TypeKey(t)].s else "")
    && a.allocatedAt == (if at then records[AllocatedAtKey(t)].seconds * 1_000_000_000 else 0)
    && (|| (MacKey(t) in records && a.dataKey == Some(MacKey(t)) && a.data == records[MacKey(t)].s)
        || (ServiceIDKey(t) in records && a.dataKey == Some(ServiceIDKey(t)) && a.data == records[ServiceIDKey(t)].s)
        || (MacKey(t) !in records && ServiceIDKey(t) !in records && a.dataKey == None && a.data == ""))
  }

  ghost predicate IsMentioned(parse: Reader, records: Records, t: string) {
    || (TypeKey(t) in records && parse(t).Some?)
    || (AllocatedAtKey(t) in records && records[AllocatedAtKey(t)].Stamp?)
    || MacKey(t) in records || ServiceIDKey(t) in records
  }

  lemma GatheredSays(parse: Reader, result: map<string, Allocation>, records: Records)
    requires Typed(records) && GatheredSoFar(parse, result, records, records.Keys)
    ensures forall t :: t in result <==> IsMentioned(parse, records, t)
    ensures forall t :: t in result ==> SaysOf(parse, records, t, result[t])
  {
    forall t
      ensures t in result <==> IsMentioned(parse, records, t)
      ensures t in result ==> SaysOf(parse, records, t, result[t])
    {
      assert t in result <==> SeenAny(parse, records, records.Keys, t);
    }
  }

  /** Decoding gathers, whatever the order of the pairs, exactly what the readable keys say. */
  method GetAllocations(parse: Reader, kvs: seq<(RecordKey, Value)>, ghost records: Records)
    returns (result: map<string, Allocation>)
    requires Typed(records) && Lists(kvs, records)
    ensures forall t :: t in result <==> IsMentioned(parse, records, t)
    ensures forall t :: t in result ==> SaysOf(parse, records, t, result[t])
    ensures WellFormed(records) && Readable(parse, records) ==> Decodes(parse, result, records)
  {
    result := map[];
    ghost var seen: set<RecordKey> := {};
    for i := 0 to |kvs|
      invariant Remaining(kvs[i..], records, seen)
      invariant seen <= records.Keys && GatheredSoFar(parse, result, records, seen)
    {
      var (key, value) := kvs[i];
      RemainingAfter(kvs[i..], records, seen);
      assert kvs[i..][1..] == kvs[i + 1..];
      if Accepted(parse, key, value) {
        DecodeOne(parse, records, key, result, seen);
        result := result[key.ip := Updated(Existing(result, key.ip), parse(key.ip), key, value)];
      } else {
        SkipOne(parse, records, key, result, seen);
      }
      seen := seen + {key};
    }
    assert seen == records.Keys;
    GatheredSays(parse, result, records);
    if WellFormed(records) && Readable(parse, records) {
      GatheredDecodes(parse, result, records);
    }
  }

  // ---------- the pairs as text ----------

  /** What etcd stores: each key rendered below the prefix. */
  function Rendered(prefix: string, kvs: seq<(RecordKey, Value)>): seq<(string, Value)> {
    if kvs == [] then [] else [(RenderRecordKey(prefix, kvs[0].0), kvs[0].1)] + Rendered(prefix, kvs[1..])
  }

  /** What the decoder reads: keys it does not know are skipped. */
  function Parsed(prefix: string, kvs: seq<(string, Value)>): seq<(RecordKey, Value)> {
    if kvs == [] then []
    else
      match ParseRecordKey(prefix, kvs[0].0)
      case None => Parsed(prefix, kvs[1..])
      case Some(key) => [(key, kvs[0].1)] + Parsed(prefix, kvs[1..])
  }

  lemma {:induction false} ParsedRendered(prefix: string, kvs: seq<(RecordKey, Value)>)
    requires forall i :: 0 <= i < |kvs| ==> kvs[i].0.ip != [] && '/' !in kvs[i].0.ip
    ensures Parsed(prefix, Rendered(prefix, kvs)) == kvs
  {
    if kvs != [] {
      RecordKeyRoundTrip(prefix, kvs[0].0);
      ParsedRendered(prefix, kvs[1..]);
      assert Rendered(prefix, kvs)[1..] == Rendered(prefix, kvs[1..]);
    }
  }

  lemma CanonicalIsPlain(t: string)
    requires Canonical(t)
    ensures t != [] && '/' !in t && PrintIP(Dotted(t).value.value) == t && Dotted(t).value.value < ADDRESSES
  {
    ParsedDotted(t);
    ParsePrintedIP(ParseDotted(t).value);
  }

  lemma PrintedIsCanonical(ip: nat)
    requires ip < ADDRESSES
    ensures Dotted(PrintIP(ip)) == Some(V4(ip)) && Canonical(PrintIP(ip))
  {
    ParsePrintedIP(ip);
  }

  // ---------- encoding ----------

  /** The records hold exactly the keys and values of the allocation of `t`. */
  ghost predicate EncodesEntry(records: Records, t: string, a: Allocation) {
    && Get(records, TypeKey(t)) == Some(Text(a.allocationType))
    && Get(records, AllocatedAtKey(t)) == Some(FormatTime(a.allocatedAt))
    && Get(records, MacKey(t)) == (if a.dataKey == Some(MacKey(t)) then Some(Text(a.data)) else None)
    && Get(records, ServiceIDKey(t)) == (if a.dataKey == Some(ServiceIDKey(t)) then Some(Text(a.data)) else None)
  }

  /** `records` hold exactly the keys and values of the allocations in `m`. */
  ghost predicate Encodes(records: Records, m: map<string, Allocation>) {
    && (forall k :: k in records ==> k.ip in m)
    && (forall t :: t in m ==> EncodesEntry(records, t, m[t]))
  }

  lemma EncodedHolding(parse: Reader, records: Records, m: map<string, Allocation>, t: string)
    requires Encodes(records, m) && t in m && Proper(parse, t, m[t])
    ensures HoldingOf(records, t) == Some(HoldingFor(m[t]))
  {
  }

  /** Times at the resolution they are stored with. */
  function WholeSeconds(m: map<string, Allocation>): map<string, Allocation> {
    map t | t in m :: m[t].(allocatedAt := m[t].allocatedAt / SECOND * SECOND)
  }

  lemma EncodedWellFormed(parse: Reader, records: Records, m: map<string, Allocation>)
    requires Encodes(records, m) && forall t :: t in m ==> Proper(parse, t, m[t])
    ensures WellFormed(records) && Readable(parse, records)
  {
    forall k | k in records
      ensures HoldingOf(records, k.ip).Some?
    {
      EncodedHolding(parse, records, m, k.ip);
    }
  }

  lemma EncodedKeys(records: Records, m: map<string, Allocation>)
    requires Encodes(records, m)
    ensures forall t :: TypeKey(t) in records <==> t in m
  {
    forall t
      ensures TypeKey(t) in records <==> t in m
    {
      assert TypeKey(t) in records ==> TypeKey(t).ip in m;
      assert t in m ==> EncodesEntry(records, t, m[t]);
    }
  }

  lemma DecodedEntry(parse: Reader, records: Records, m: map<string, Allocation>, decoded: map<string, Allocation>,
                     t: string)
    requires Encodes(records, m) && t in m && Proper(parse, t, m[t])
    requires WellFormed(records) && Decodes(parse, decoded, records) && t in decoded
    ensures decoded[t] == m[t].(allocatedAt := m[t].allocatedAt / SECOND * SECOND)
  {
    EncodedHolding(parse, records, m, t);
    HoldingReadsBack(parse, t, m[t]);
  }

  lemma DecodedMap(parse: Reader, records: Records, m: map<string, Allocation>, decoded: map<string, Allocation>)
    requires Encodes(records, m) && forall t :: t in m ==> Proper(parse, t, m[t])
    requires WellFormed(records) && Decodes(parse, decoded, records)
    ensures decoded == WholeSeconds(m)
  {
    EncodedKeys(records, m);
    forall t | t in m
      ensures decoded[t] == WholeSeconds(m)[t]
    {
      DecodedEntry(parse, records, m, decoded, t);
    }
  }

  /** Decoding the records of any map of proper allocations gives the map back, times cut to whole seconds. */
  lemma EncodeRoundTrip(parse: Reader, records: Records, m: map<string, Allocation>, decoded: map<string, Allocation>)
    requires Encodes(records, m) && forall t :: t in m ==> Proper(parse, t, m[t])
    ensures WellFormed(records) && Readable(parse, records)
    ensures Decodes(parse, decoded, records) ==> decoded == WholeSeconds(m)
  {
    EncodedWellFormed(parse, records, m);
    if Decodes(parse, decoded, records) {
      DecodedMap(parse, records, m, decoded);
    }
  }

  /** The keys under which an allocation of the address `t` is stored. */
  function KeysFor(t: string, a: Allocation): set<RecordKey> {
    {TypeKey(t), AllocatedAtKey(t)}
    + (if a.dataKey == Some(MacKey(t)) then {MacKey(t)} else {})
    + (if a.dataKey == Some(ServiceIDKey(t)) then {ServiceIDKey(t)} else {})
  }

  function ValueFor(k: RecordKey, a: Allocation): Value {
    match k
    case TypeKey(_) => Text(a.allocationType)
    case AllocatedAtKey(_) => FormatTime(a.allocatedAt)
    case _ => Text(a.data)
  }

  /** The records of a map of allocations. */
  function Encode(m: map<string, Allocation>): Records {
    map t, k | t in m && k in KeysFor(t, m[t]) && k.ip == t :: k := ValueFor(k, m[k.ip])
  }

  lemma EncodedKey(m: map<string, Allocation>, k: RecordKey)
    ensures Get(Encode(m), k) == if k.ip in m && k in KeysFor(k.ip, m[k.ip]) then Some(ValueFor(k, m[k.ip])) else None
  {
  }

  lemma KeysOfAllocation(t: string, a: Allocation)
    ensures TypeKey(t) in KeysFor(t, a) && AllocatedAtKey(t) in KeysFor(t, a)
    ensures MacKey(t) in KeysFor(t, a) <==> a.dataKey == Some(MacKey(t))
    ensures ServiceIDKey(t) in KeysFor(t, a) <==> a.dataKey == Some(ServiceIDKey(t))
  {
  }

  lemma EncodesOne(m: map<string, Allocation>, records: Records, t: string)
    requires t in m && records == Encode(m)
    ensures EncodesEntry(records, t, m[t])
  {
    KeysOfAllocation(t, m[t]);
    EncodedKey(m, TypeKey(t));
    EncodedKey(m, AllocatedAtKey(t));
    EncodedKey(m, MacKey(t));
    EncodedKey(m, ServiceIDKey(t));
  }

  lemma EncodesNothingElse(m: map<string, Allocation>, k: RecordKey)
    requires k in Encode(m)
    ensures k.ip in m
  {
    EncodedKey(m, k);
  }

  lemma EncodeEncodes(m: map<string, Allocation>, records: Records)
    requires records == Encode(m)
    ensures Encodes(records, m)
  {
    forall k | k in records
      ensures k.ip in m
    {
      EncodesNothingElse(m, k);
    }
    forall t | t in m
      ensures EncodesEntry(records, t, m[t])
    {
      EncodesOne(m, records, t);
    }
  }

  /** The texts are plain: no part of a key. */
  ghost predicate Plain(m: map<string, Allocation>) {
    forall t :: t in m ==> t != [] && '/' !in t
  }

  lemma EncodedIsPlain(m: map<string, Allocation>, kvs: seq<(RecordKey, Value)>)
    requires Plain(m) && Lists(kvs, Encode(m))
    ensures forall i :: 0 <= i < |kvs| ==> kvs[i].0.ip != [] && '/' !in kvs[i].0.ip
  {
    forall i | 0 <= i < |kvs|
      ensures kvs[i].0.ip in m
    {
      EncodesNothingElse(m, kvs[i].0);
    }
  }

  /** Encoding a map of proper allocations, rendering the keys as text, listing the pairs in any order, parsing and
      decoding them gives the map back, times cut to whole seconds. */
  method DecodeEncoded(parse: Reader, prefix: string, kvs: seq<(string, Value)>, ghost m: map<string, Allocation>,
                       ghost typed: seq<(RecordKey, Value)>)
    returns (decoded: map<string, Allocation>)
    requires Plain(m) && forall t :: t in m ==> Proper(parse, t, m[t])
    requires Lists(typed, Encode(m)) && kvs == Rendered(prefix, typed)
    ensures decoded == WholeSeconds(m)
  {
    EncodedIsPlain(m, typed);
    ParsedRendered(prefix, typed);
    EncodeEncodes(m, Encode(m));
    EncodedWellFormed(parse, Encode(m), m);
    WellFormedIsTyped(Encode(m));
    decoded := GetAllocations(parse, Parsed(prefix, kvs), Encode(m));
    EncodeRoundTrip(parse, Encode(m), m, decoded);
  }

  // ---------- what a decoded map says ----------

  lemma DecodedKeys(parse: Reader, m: map<string, Allocation>, records: Records)
    requires WellFormed(records) && Decodes(parse, m, records)
    ensures forall t :: t in m <==> TypeKey(t) in records
  {
  }

  lemma WholeKeys(m: map<string, Allocation>)
    ensures WholeSeconds(m).Keys == m.Keys
  {
  }

  lemma DecodedIsWhole(parse: Reader, records: Records, m: map<string, Allocation>)
    requires WellFormed(records) && Decodes(parse, m, records)
    ensures WholeSeconds(m) == m
  {
    forall t | t in m
      ensures m[t].(allocatedAt := m[t].allocatedAt / SECOND * SECOND) == m[t]
    {
      HoldingIsWhole(parse(t), t, HoldingOf(records, t).value);
    }
  }

  lemma HoldingIsWhole(ip: Option<Address>, t: string, h: Holding)
    ensures var a := AllocationOf(ip, t, h); a.(allocatedAt := a.allocatedAt / SECOND * SECOND) == a
  {
  }

  /** An allocation that is, in whole seconds, what etcd's records of an address decode to spells these records. */
  lemma DecodedSpells(parse: Reader, records: Records, t: string, a: Allocation)
    requires WellFormed(records) && parse(t).Some? && HoldingOf(records, t).Some? && HoldingOf(records, t) != Some(Free)
    requires a.(allocatedAt := a.allocatedAt / SECOND * SECOND)
      == AllocationOf(parse(t), t, HoldingOf(records, t).value)
    ensures Proper(parse, t, a) && HoldingFor(a) == HoldingOf(records, t).value
  {
    HeldIsProper(parse, records, t);
  }
}
