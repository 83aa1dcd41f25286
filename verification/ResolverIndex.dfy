/** The name index of the DNS resolver: names to the containers that have them, kept current in place. */
module ResolverIndex {
  import opened Basics

  type Ip = Option<nat>

  datatype ContainerInfo = ContainerInfo(
    id: string,
    dnsNames: map<string, seq<string>>,   // network -> names
    ips: map<string, nat>)                // network -> address
  {
    predicate Named(name: string, network: string) {
      network in dnsNames && name in dnsNames[network]
    }

    function EntryOn(network: string): Entry {
      Entry(id, network, Get(ips, network))
    }
  }

  datatype Entry = Entry(containerID: string, networkID: string, ip: Ip)

  type Index = map<string, seq<Entry>>

  predicate Listed(data: Index, name: string, e: Entry) {
    name in data && e in data[name]
  }

  /** The index as a set of names, networks and containers. */
  ghost predicate Has(data: Index, name: string, network: string, id: string) {
    exists e :: Listed(data, name, e) && e.networkID == network && e.containerID == id
  }

  ghost predicate NoEmptyBucket(data: Index) {
    forall name :: name in data ==> data[name] != []
  }

  // ---------- one bucket ----------

  function Add(data: Index, name: string, e: Entry): Index {
    data[name := (if name in data then data[name] else []) + [e]]
  }

  function Filter(es: seq<Entry>, drop: Entry -> bool): seq<Entry> {
    if es == [] then [] else (if drop(es[0]) then [] else [es[0]]) + Filter(es[1..], drop)
  }

  function RemoveFrom(data: Index, name: string, drop: Entry -> bool): Index {
    var items := if name in data then Filter(data[name], drop) else [];
    if items == [] then data - {name} else data[name := items]
  }

  lemma {:induction false} FilterElements(es: seq<Entry>, drop: Entry -> bool)
    ensures forall e :: e in Filter(es, drop) <==> e in es && !drop(e)
  {
    if es != [] {
      FilterElements(es[1..], drop);
      assert es == [es[0]] + es[1..];
    }
  }

  lemma AddLists(data: Index, name: string, e: Entry)
    requires NoEmptyBucket(data)
    ensures NoEmptyBucket(Add(data, name, e))
    ensures forall x, f :: Listed(Add(data, name, e), x, f) <==> Listed(data, x, f) || (x == name && f == e)
  {
  }

  lemma RemoveLists(data: Index, name: string, drop: Entry -> bool)
    requires NoEmptyBucket(data)
    ensures NoEmptyBucket(RemoveFrom(data, name, drop))
    ensures forall x, f :: Listed(RemoveFrom(data, name, drop), x, f) <==> Listed(data, x, f) && !(x == name && drop(f))
  {
    if name in data {
      FilterElements(data[name], drop);
      var items := Filter(data[name], drop);
      assert items == [] ==> forall f :: f !in items;
    }
  }

  // ---------- the containers the resolver knows ----------

  /** The index is the relation read directly off the known containers. */
  ghost predicate IsIndexOf(data: Index, known: map<string, ContainerInfo>) {
    && NoEmptyBucket(data)
    && (forall id :: id in known ==> known[id].id == id)
    && (forall name, n, id :: Has(data, name, n, id) <==> id in known && known[id].Named(name, n))
  }

  /** Every entry carries the container's current address. */
  ghost predicate IsCurrent(data: Index, known: map<string, ContainerInfo>) {
    forall name, e :: Listed(data, name, e) ==>
      e.containerID in known && e.ip == Get(known[e.containerID].ips, e.networkID)
  }

  /** The entry carries the container's id and its address on the entry's network. */
  predicate IsEntryOf(c: ContainerInfo, e: Entry) {
    e.containerID == c.id && e.ip == Get(c.ips, e.networkID)
  }

  /** What adding a container leaves. */
  ghost predicate Added(data: Index, data': Index, c: ContainerInfo) {
    && NoEmptyBucket(data')
    && forall name, e ::
      Listed(data', name, e) <==>
        Listed(data, name, e) || (c.Named(name, e.networkID) && IsEntryOf(c, e))
  }

  /** What removing a container under its current names leaves. */
  ghost predicate Dropped(data: Index, data': Index, c: ContainerInfo) {
    && NoEmptyBucket(data')
    && forall name, e :: Listed(data', name, e) <==>
        Listed(data, name, e) && !(e.containerID == c.id && exists n :: c.Named(name, n))
  }

  /** What updating a container leaves: its entries are those of its current names. One that was there before keeps
      the address it had. */
  ghost predicate Updated(data: Index, data': Index, c: ContainerInfo) {
    && NoEmptyBucket(data')
    && (forall name, e: Entry :: e.containerID != c.id ==> (Listed(data', name, e) <==> Listed(data, name, e)))
    && (forall name, n :: Has(data', name, n, c.id) <==> c.Named(name, n))
    && (forall name, e :: Listed(data', name, e) && e.containerID == c.id ==>
        Listed(data, name, e) || IsEntryOf(c, e))
  }

  /** Every name the container was known under is among its names now. */
  ghost predicate NamesCovered(known: map<string, ContainerInfo>, c: ContainerInfo) {
    c.id in known ==> forall name, n :: known[c.id].Named(name, n) ==> c.Named(name, n)
  }

  /** Every name the container is known under occurs in the info given, on whatever network. */
  ghost predicate NamesReached(known: map<string, ContainerInfo>, c: ContainerInfo) {
    c.id in known ==> forall name, n :: known[c.id].Named(name, n) ==> exists m :: c.Named(name, m)
  }

  /** Where a container is known under a network before and after, its address there is the same. */
  ghost predicate SameAddresses(known: map<string, ContainerInfo>, c: ContainerInfo) {
    c.id in known ==> forall n :: n in known[c.id].dnsNames && n in c.dnsNames ==>
      Get(known[c.id].ips, n) == Get(c.ips, n)
  }

  lemma AddedHas(data: Index, data': Index, c: ContainerInfo, name: string, n: string, id: string)
    requires Added(data, data', c)
    ensures Has(data', name, n, id) <==> Has(data, name, n, id) || (id == c.id && c.Named(name, n))
  {
    if Has(data', name, n, id) {
      var e :| Listed(data', name, e) && e.networkID == n && e.containerID == id;
      assert Listed(data, name, e) ==> Has(data, name, n, id);
    }
    if Has(data, name, n, id) {
      var e :| Listed(data, name, e) && e.networkID == n && e.containerID == id;
      assert Listed(data', name, e);
    }
    if id == c.id && c.Named(name, n) {
      assert Listed(data', name, c.EntryOn(n));
    }
  }

  /** Adding a container keeps the index equal to the relation exactly if the container was not known, or under no
      name it has lost. */
  lemma AddKeepsIndex(data: Index, data': Index, known: map<string, ContainerInfo>, c: ContainerInfo)
    requires IsIndexOf(data, known) && Added(data, data', c)
    ensures IsIndexOf(data', known[c.id := c]) <==> NamesCovered(known, c)
  {
    forall name, n, id
      ensures Has(data', name, n, id) <==> Has(data, name, n, id) || (id == c.id && c.Named(name, n))
    {
      AddedHas(data, data', c, name, n, id);
    }
    if IsIndexOf(data', known[c.id := c]) && c.id in known {
      forall name, n | known[c.id].Named(name, n)
        ensures c.Named(name, n)
      {
        assert Has(data, name, n, c.id);
        assert Has(data', name, n, c.id);
      }
    }
  }

  lemma AddKeepsCurrent(data: Index, data': Index, known: map<string, ContainerInfo>, c: ContainerInfo)
    requires IsIndexOf(data, known) && IsCurrent(data, known) && Added(data, data', c)
    requires NamesCovered(known, c) && SameAddresses(known, c)
    ensures IsCurrent(data', known[c.id := c])
  {
    forall name, e | Listed(data', name, e)
      ensures e.containerID in known[c.id := c] && e.ip == Get(known[c.id := c][e.containerID].ips, e.networkID)
    {
      if Listed(data, name, e) {
        assert Has(data, name, e.networkID, e.containerID);
      }
    }
  }

  lemma DroppedHas(data: Index, data': Index, c: ContainerInfo, name: string, n: string, id: string)
    requires Dropped(data, data', c)
    ensures Has(data', name, n, id) <==> Has(data, name, n, id) && !(id == c.id && exists m :: c.Named(name, m))
  {
    if Has(data', name, n, id) {
      var e :| Listed(data', name, e) && e.networkID == n && e.containerID == id;
      assert Listed(data, name, e);
    }
    if Has(data, name, n, id) && !(id == c.id && exists m :: c.Named(name, m)) {
      var e :| Listed(data, name, e) && e.networkID == n && e.containerID == id;
      assert Listed(data', name, e);
    }
  }

  /** Removing a container keeps the index equal to the relation exactly if the info given has all the names it is
      known under, as its latest info does. */
  lemma DropKeepsIndex(data: Index, data': Index, known: map<string, ContainerInfo>, c: ContainerInfo)
    requires IsIndexOf(data, known) && Dropped(data, data', c)
    ensures IsIndexOf(data', known - {c.id}) <==> NamesReached(known, c)
  {
    forall name, n, id
      ensures Has(data', name, n, id) <==> Has(data, name, n, id) && !(id == c.id && exists m :: c.Named(name, m))
    {
      DroppedHas(data, data', c, name, n, id);
    }
    if IsIndexOf(data', known - {c.id}) && c.id in known {
      forall name, n | known[c.id].Named(name, n)
        ensures exists m :: c.Named(name, m)
      {
        assert Has(data, name, n, c.id);
        assert !Has(data', name, n, c.id);
      }
    }
  }

  lemma DropKeepsCurrent(data: Index, data': Index, known: map<string, ContainerInfo>, c: ContainerInfo)
    requires IsIndexOf(data, known) && IsCurrent(data, known) && Dropped(data, data', c) && NamesReached(known, c)
    ensures IsCurrent(data', known - {c.id})
  {
    forall name, e | Listed(data', name, e)
      ensures e.containerID in known && e.containerID != c.id
    {
      assert Has(data, name, e.networkID, e.containerID);
    }
  }

  lemma UpdateKeepsIndex(data: Index, data': Index, known: map<string, ContainerInfo>, c: ContainerInfo)
    requires IsIndexOf(data, known) && Updated(data, data', c)
    ensures IsIndexOf(data', known[c.id := c])
  {
    var known' := known[c.id := c];
    forall name, n, id
      ensures Has(data', name, n, id) <==> id in known' && known'[id].Named(name, n)
    {
      if id != c.id {
        if Has(data', name, n, id) {
          var e :| Listed(data', name, e) && e.networkID == n && e.containerID == id;
          assert Listed(data, name, e);
        }
        if Has(data, name, n, id) {
          var e :| Listed(data, name, e) && e.networkID == n && e.containerID == id;
          assert Listed(data', name, e);
        }
      }
    }
  }

  lemma UpdateKeepsCurrent(data: Index, data': Index, known: map<string, ContainerInfo>, c: ContainerInfo)
    requires IsIndexOf(data, known) && IsCurrent(data, known) && Updated(data, data', c) && SameAddresses(known, c)
    ensures IsCurrent(data', known[c.id := c])
  {
    forall name, e | Listed(data', name, e)
      ensures e.containerID in known[c.id := c] && e.ip == Get(known[c.id := c][e.containerID].ips, e.networkID)
    {
      if e.containerID == c.id {
        assert Has(data', name, e.networkID, c.id);
        if Listed(data, name, e) {
          assert Has(data, name, e.networkID, c.id);
        }
      } else {
        assert Has(data, name, e.networkID, e.containerID);
      }
    }
  }

  // ---------- every run ----------

  datatype Call = AddCall(c: ContainerInfo) | UpdateCall(c: ContainerInfo) | RemoveCall(c: ContainerInfo)

  /** The index, and the latest info given for every container not removed. */
  datatype State = State(data: Index, known: map<string, ContainerInfo>)

  ghost predicate Moves(s: State, call: Call, s': State) {
    match call
    case AddCall(c) => Added(s.data, s'.data, c) && s'.known == s.known[c.id := c]
    case UpdateCall(c) => Updated(s.data, s'.data, c) && s'.known == s.known[c.id := c]
    case RemoveCall(c) => Dropped(s.data, s'.data, c) && s'.known == s.known - {c.id}
  }

  /** Nothing is lost in between: a container is not added again without a name it is known under, nor removed with
      info that lacks one. */
  ghost predicate Suffices(s: State, call: Call) {
    match call
    case AddCall(c) => NamesCovered(s.known, c)
    case UpdateCall(_) => true
    case RemoveCall(c) => NamesReached(s.known, c)
  }

  ghost predicate IndexRun(states: seq<State>, calls: seq<Call>) {
    && |states| == |calls| + 1 && states[0] == State(map[], map[])
    && forall k :: 0 <= k < |calls| ==> Moves(states[k], calls[k], states[k + 1]) && Suffices(states[k], calls[k])
  }

  /** No call so far has changed an address. */
  ghost predicate AddressesFixed(states: seq<State>, calls: seq<Call>, k: nat)
    requires k <= |calls| <= |states|
  {
    forall j :: 0 <= j < k && !calls[j].RemoveCall? ==> SameAddresses(states[j].known, calls[j].c)
  }

  lemma MoveKeepsIndex(s: State, call: Call, s': State)
    requires IsIndexOf(s.data, s.known) && Moves(s, call, s') && Suffices(s, call)
    ensures IsIndexOf(s'.data, s'.known)
  {
    match call
    case AddCall(c) => AddKeepsIndex(s.data, s'.data, s.known, c);
    case UpdateCall(c) => UpdateKeepsIndex(s.data, s'.data, s.known, c);
    case RemoveCall(c) => DropKeepsIndex(s.data, s'.data, s.known, c);
  }

  lemma MoveKeepsCurrent(s: State, call: Call, s': State)
    requires IsIndexOf(s.data, s.known) && IsCurrent(s.data, s.known) && Moves(s, call, s') && Suffices(s, call)
    requires !call.RemoveCall? ==> SameAddresses(s.known, call.c)
    ensures IsCurrent(s'.data, s'.known)
  {
    match call
    case AddCall(c) => AddKeepsCurrent(s.data, s'.data, s.known, c);
    case UpdateCall(c) => UpdateKeepsCurrent(s.data, s'.data, s.known, c);
    case RemoveCall(c) => DropKeepsCurrent(s.data, s'.data, s.known, c);
  }

  /** After any sequence of calls that loses no name in between, in particular if containers are added once and removed
      with their latest info, the index is the relation read off the known containers, and current if their addresses
      stay fixed. */
  lemma {:induction false} RunKeepsIndex(states: seq<State>, calls: seq<Call>, k: nat)
    requires IndexRun(states, calls) && k <= |calls|
    ensures IsIndexOf(states[k].data, states[k].known)
    ensures AddressesFixed(states, calls, k) ==> IsCurrent(states[k].data, states[k].known)
  {
    if k > 0 {
      RunKeepsIndex(states, calls, k - 1);
      assert Moves(states[k - 1], calls[k - 1], states[k]) && Suffices(states[k - 1], calls[k - 1]);
      MoveKeepsIndex(states[k - 1], calls[k - 1], states[k]);
      if AddressesFixed(states, calls, k) {
        assert AddressesFixed(states, calls, k - 1);
        MoveKeepsCurrent(states[k - 1], calls[k - 1], states[k]);
      }
    }
  }

  // ---------- names that stay behind ----------

  const OLD_INFO := ContainerInfo("c", map["web" := ["a"]], map[])
  const NEW_INFO := ContainerInfo("c", map["web" := ["b"]], map[])
  const OLD_INDEX: Index := map["a" := [Entry("c", "web", None)]]
  const BOTH_INDEX: Index := map["a" := [Entry("c", "web", None)], "b" := [Entry("c", "web", None)]]

  lemma OldInfoIsIndexed()
    ensures IsIndexOf(OLD_INDEX, map["c" := OLD_INFO])
  {
    forall name, e
      ensures Listed(OLD_INDEX, name, e) <==> OLD_INFO.Named(name, e.networkID) && IsEntryOf(OLD_INFO, e)
    {
    }
    assert Added(map[], OLD_INDEX, OLD_INFO);
    AddKeepsIndex(map[], OLD_INDEX, map[], OLD_INFO);
    assert map[]["c" := OLD_INFO] == map["c" := OLD_INFO];
  }

  lemma NameIsLost()
    ensures OLD_INFO.Named("a", "web") && forall m :: !NEW_INFO.Named("a", m)
  {
    assert "a"[0] != "b"[0];
  }

  /** A container known as "a" is added again as "b": it stays listed as "a". */
  lemma AddedAgainKeepsOldName()
    ensures IsIndexOf(OLD_INDEX, map["c" := OLD_INFO]) && Added(OLD_INDEX, BOTH_INDEX, NEW_INFO)
    ensures !IsIndexOf(BOTH_INDEX, map["c" := OLD_INFO]["c" := NEW_INFO])
  {
    OldInfoIsIndexed();
    NameIsLost();
    assert "a"[0] != "b"[0];
    assert Added(OLD_INDEX, BOTH_INDEX, NEW_INFO);
    AddKeepsIndex(OLD_INDEX, BOTH_INDEX, map["c" := OLD_INFO], NEW_INFO);
  }

  /** A container known as "a" is removed with info that only has "b": it stays listed as "a". */
  lemma RemovedWithOtherInfoStays()
    ensures IsIndexOf(OLD_INDEX, map["c" := OLD_INFO]) && Dropped(OLD_INDEX, OLD_INDEX, NEW_INFO)
    ensures !IsIndexOf(OLD_INDEX, map["c" := OLD_INFO] - {"c"})
  {
    OldInfoIsIndexed();
    NameIsLost();
    assert Dropped(OLD_INDEX, OLD_INDEX, NEW_INFO);
    DropKeepsIndex(OLD_INDEX, OLD_INDEX, map["c" := OLD_INFO], NEW_INFO);
  }
}
