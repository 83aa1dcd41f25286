/** The DNS resolver: the class that keeps the name index, and the lookup of names in it. */
module Resolver {
  import opened Basics
  import opened GoText
  import opened NameLookup
  import opened ResolverIndex

  // ---------- updating a container ----------

  predicate InKnown(known: map<string, set<string>>, network: string, name: string) {
    network in known && name in known[network]
  }

  function Noted(known: map<string, set<string>>, network: string, name: string): map<string, set<string>> {
    known[network := (if network in known then known[network] else {}) + {name}]
  }

  /** The names below which the index has the container. */
  ghost predicate KnownIn(known: map<string, set<string>>, data: Index, names: set<string>, id: string) {
    forall n, name :: InKnown(known, n, name) <==> name in names && Has(data, name, n, id)
  }

  lemma HasAt(data: Index, name: string, i: nat)
    requires name in data && i < |data[name]|
    ensures Has(data, name, data[name][i].networkID, data[name][i].containerID)
  {
    assert Listed(data, name, data[name][i]);
  }

  method KnownDnsNames(data: Index, id: string) returns (known: map<string, set<string>>)
    ensures KnownIn(known, data, data.Keys, id)
  {
    known := map[];
    var rest := data.Keys;
    while rest != {}
      invariant rest <= data.Keys && KnownIn(known, data, data.Keys - rest, id)
    {
      var name :| name in rest;
      ghost var before := known;
      var items := data[name];
      for i := 0 to |items|
        invariant forall n, x :: InKnown(known, n, x) <==>
          InKnown(before, n, x) || (x == name && exists j ::
              0 <= j < i && items[j].containerID == id && items[j].networkID == n)
      {
        if items[i].containerID == id {
          known := Noted(known, items[i].networkID, name);
        }
      }
      BucketHas(data, name, id);
      rest := rest - {name};
    }
  }

  lemma BucketHas(data: Index, name: string, id: string)
    requires name in data
    ensures forall n :: Has(data, name, n, id) <==>
      exists j :: 0 <= j < |data[name]| && data[name][j].containerID == id && data[name][j].networkID == n
  {
    forall n | Has(data, name, n, id)
      ensures exists j :: 0 <= j < |data[name]| && data[name][j].containerID == id && data[name][j].networkID == n
    {
      var e :| Listed(data, name, e) && e.networkID == n && e.containerID == id;
    }
    forall j | 0 <= j < |data[name]|
      ensures Has(data, name, data[name][j].networkID, data[name][j].containerID)
    {
      HasAt(data, name, j);
    }
  }

  /** Entries have only been added, for names of the container on the networks of `networks`. */
  ghost predicate Grown(data: Index, data': Index, c: ContainerInfo, networks: set<string>) {
    && NoEmptyBucket(data')
    && (forall name, e :: Listed(data, name, e) ==> Listed(data', name, e))
    && (forall name, e :: Listed(data', name, e) ==>
          Listed(data, name, e) || (e.networkID in networks && c.Named(name, e.networkID)
              && IsEntryOf(c, e)))
  }

  lemma GrownHas(data: Index, data': Index, c: ContainerInfo, networks: set<string>, name: string, n: string)
    requires Grown(data, data', c, networks) && Has(data, name, n, c.id)
    ensures Has(data', name, n, c.id)
  {
    var e :| Listed(data, name, e) && e.networkID == n && e.containerID == c.id;
    assert Listed(data', name, e);
  }

  /** The stale entries of the container have been removed. */
  ghost predicate Shrunk(data: Index, data': Index, id: string, stale: map<string, set<string>>) {
    && NoEmptyBucket(data')
    && forall name, e :: Listed(data', name, e) <==>
        Listed(data, name, e) && !(e.containerID == id && InKnown(stale, e.networkID, name))
  }

  /** Adding the missing names and removing the stale ones is the update. */
  lemma GrownAndShrunk(data: Index, middle: Index, data': Index, c: ContainerInfo, stale: map<string, set<string>>)
    requires Grown(data, middle, c, c.dnsNames.Keys) && Shrunk(middle, data', c.id, stale)
    requires forall name, n :: c.Named(name, n) ==> Has(middle, name, n, c.id)
    requires forall n, name :: InKnown(stale, n, name) <==> Has(data, name, n, c.id) && !c.Named(name, n)
    ensures Updated(data, data', c)
  {
    forall name, n
      ensures Has(data', name, n, c.id) <==> c.Named(name, n)
    {
      if c.Named(name, n) {
        var e :| Listed(middle, name, e) && e.networkID == n && e.containerID == c.id;
        assert Listed(data', name, e);
      }
      if Has(data', name, n, c.id) {
        var e :| Listed(data', name, e) && e.networkID == n && e.containerID == c.id;
        if Listed(data, name, e) {
          assert Has(data, name, n, c.id);
        }
      }
    }
  }

  // ---------- the class ----------

  class Resolver {
    const dockerCompatibilityMode: bool
    var networkNameToID: map<string, string>
    var containerData: Index
    var serviceData: map<string, ServiceInfo>
    ghost var known: map<string, ContainerInfo>   // the latest info given for every container not removed

    ghost predicate Valid()
      reads this
    {
      IsIndexOf(containerData, known)
    }

    constructor (dockerCompatibilityMode: bool)
      ensures Valid() && known == map[] && containerData == map[] && IsCurrent(containerData, known)
    {
      this.dockerCompatibilityMode := dockerCompatibilityMode;
      networkNameToID, containerData, serviceData, known := map[], map[], map[], map[];
    }

    method AddEntry(name: string, e: Entry)
      requires NoEmptyBucket(containerData)
      modifies this`containerData
      ensures NoEmptyBucket(containerData)
      ensures forall x, f :: Listed(containerData, x, f) <==> Listed(old(containerData), x, f) || (x == name && f == e)
    {
      AddLists(containerData, name, e);
      containerData := Add(containerData, name, e);
    }

    method AddNames(c: ContainerInfo, n: string)
      requires NoEmptyBucket(containerData) && n in c.dnsNames
      modifies this`containerData
      ensures NoEmptyBucket(containerData)
      ensures forall x, f :: Listed(containerData, x, f) <==>
        Listed(old(containerData), x, f) || (x in c.dnsNames[n] && f.networkID == n && IsEntryOf(c, f))
    {
      for i := 0 to |c.dnsNames[n]|
        invariant NoEmptyBucket(containerData)
        invariant forall x, f :: Listed(containerData, x, f) <==>
          Listed(old(containerData), x, f) || (x in c.dnsNames[n][..i] && f.networkID == n && IsEntryOf(c, f))
      {
        AddEntry(c.dnsNames[n][i], c.EntryOn(n));
      }
    }

    /** The index stays right exactly if the container was not known, or under no name it has lost. */
    method AddContainer(c: ContainerInfo)
      requires Valid()
      modifies this`containerData, this`known
      ensures known == old(known)[c.id := c]
      ensures Added(old(containerData), containerData, c)
      ensures forall name, n :: c.Named(name, n) ==> Listed(containerData, name, Entry(c.id, n, Get(c.ips, n)))
      ensures forall name, e :: Listed(containerData, name, e) && !Listed(old(containerData), name, e) ==>
        e.containerID == c.id && e.ip == Get(c.ips, e.networkID)
      ensures Valid() <==> NamesCovered(old(known), c)
      ensures Valid() && IsCurrent(old(containerData), old(known)) && SameAddresses(old(known), c) ==>
        IsCurrent(containerData, known)
    {
      ghost var before := containerData;
      var rest := c.dnsNames.Keys;
      while rest != {}
        invariant rest <= c.dnsNames.Keys && NoEmptyBucket(containerData) && known == old(known)
        invariant forall x, f :: Listed(containerData, x, f) <==>
          Listed(before, x, f) || (f.networkID !in rest && c.Named(x, f.networkID) && IsEntryOf(c, f))
      {
        var n :| n in rest;
        rest := rest - {n};
        AddNames(c, n);
      }
      AddKeepsIndex(before, containerData, known, c);
      if NamesCovered(known, c) && IsCurrent(before, known) && SameAddresses(known, c) {
        AddKeepsCurrent(before, containerData, known, c);
      }
      known := known[c.id := c];
    }

    method RemoveEntries(name: string, drop: Entry -> bool)
      requires NoEmptyBucket(containerData)
      modifies this`containerData
      ensures NoEmptyBucket(containerData)
      ensures forall x, f ::
        Listed(containerData, x, f) <==> Listed(old(containerData), x, f) && !(x == name && drop(f))
    {
      RemoveLists(containerData, name, drop);
      containerData := RemoveFrom(containerData, name, drop);
    }

    method RemoveNames(names: seq<string>, id: string)
      requires NoEmptyBucket(containerData)
      modifies this`containerData
      ensures NoEmptyBucket(containerData)
      ensures forall x, f: Entry ::
        Listed(containerData, x, f) <==> Listed(old(containerData), x, f) && !(x in names && f.containerID == id)
    {
      for i := 0 to |names|
        invariant NoEmptyBucket(containerData)
        invariant forall x, f: Entry :: Listed(containerData, x, f) <==>
          Listed(old(containerData), x, f) && !(x in names[..i] && f.containerID == id)
      {
        RemoveEntries(names[i], (e: Entry) => e.containerID == id);
      }
    }

    /** The index stays right exactly if the info given has all the names the container is known under. */
    method RemoveContainer(c: ContainerInfo)
      requires Valid()
      modifies this`containerData, this`known
      ensures known == old(known) - {c.id}
      ensures Dropped(old(containerData), containerData, c)
      ensures Valid() <==> NamesReached(old(known), c)
      ensures Valid() && IsCurrent(old(containerData), old(known)) ==> IsCurrent(containerData, known)
    {
      ghost var before := containerData;
      var rest := c.dnsNames.Keys;
      while rest != {}
        invariant rest <= c.dnsNames.Keys && NoEmptyBucket(containerData) && known == old(known)
        invariant forall x, f: Entry :: Listed(containerData, x, f) <==>
          Listed(before, x, f) && !(f.containerID == c.id && exists n :: n !in rest && c.Named(x, n))
      {
        var n :| n in rest;
        rest := rest - {n};
        RemoveNames(c.dnsNames[n], c.id);
      }
      DropKeepsIndex(before, containerData, known, c);
      if NamesReached(known, c) && IsCurrent(before, known) {
        DropKeepsCurrent(before, containerData, known, c);
      }
      known := known - {c.id};
    }

    method AddMissingNames(c: ContainerInfo, n: string, unseen: map<string, set<string>>)
      returns (unseen': map<string, set<string>>)
      requires NoEmptyBucket(containerData) && n in c.dnsNames
      requires forall x :: InKnown(unseen, n, x) ==> Has(containerData, x, n, c.id)
      modifies this`containerData
      ensures Grown(old(containerData), containerData, c, {n})
      ensures forall x :: x in c.dnsNames[n] ==> Has(containerData, x, n, c.id)
      ensures forall m, x :: InKnown(unseen', m, x) <==> InKnown(unseen, m, x) && !(m == n && x in c.dnsNames[n])
    {
      unseen' := unseen;
      ghost var before := containerData;
      var names := c.dnsNames[n];
      for i := 0 to |names|
        invariant Grown(before, containerData, c, {n})
        invariant forall x :: x in names[..i] ==> Has(containerData, x, n, c.id)
        invariant forall m, x :: InKnown(unseen', m, x) <==> InKnown(unseen, m, x) && !(m == n && x in names[..i])
      {
        ghost var middle := containerData;
        if InKnown(unseen', n, names[i]) {
          unseen' := unseen'[n := unseen'[n] - {names[i]}];
          GrownHas(before, containerData, c, {n}, names[i], n);
        } else {
          AddEntry(names[i], c.EntryOn(n));
          assert Listed(containerData, names[i], c.EntryOn(n));
        }
        StillHas(middle, containerData, c.id);
      }
    }

    method AddMissing(c: ContainerInfo, knownDnsNames: map<string, set<string>>)
      returns (stale: map<string, set<string>>)
      requires NoEmptyBucket(containerData) && KnownIn(knownDnsNames, containerData, containerData.Keys, c.id)
      modifies this`containerData
      ensures Grown(old(containerData), containerData, c, c.dnsNames.Keys)
      ensures forall name, n :: c.Named(name, n) ==> Has(containerData, name, n, c.id)
      ensures forall n, name :: InKnown(stale, n, name) <==> Has(old(containerData), name, n, c.id) && !c.Named(name, n)
    {
      stale := knownDnsNames;
      ghost var before := containerData;
      var rest := c.dnsNames.Keys;
      while rest != {}
        invariant rest <= c.dnsNames.Keys && Grown(before, containerData, c, c.dnsNames.Keys - rest)
        invariant forall name, n :: n !in rest && c.Named(name, n) ==> Has(containerData, name, n, c.id)
        invariant forall n, name :: InKnown(stale, n, name) <==>
          InKnown(knownDnsNames, n, name) && !(n !in rest && c.Named(name, n))
      {
        var n :| n in rest;
        ghost var middle, done := containerData, c.dnsNames.Keys - rest;
        rest := rest - {n};
        assert c.dnsNames.Keys - rest == done + {n};
        forall x | InKnown(stale, n, x)
          ensures Has(containerData, x, n, c.id)
        {
          GrownHas(before, containerData, c, done, x, n);
        }
        stale := AddMissingNames(c, n, stale);
        GrownOn(before, middle, containerData, c, done, n);
        StillHas(middle, containerData, c.id);
      }
    }

    method RemoveStaleNames(names: set<string>, n: string, id: string)
      requires NoEmptyBucket(containerData)
      modifies this`containerData
      ensures NoEmptyBucket(containerData)
      ensures forall x, e: Entry :: Listed(containerData, x, e) <==>
        Listed(old(containerData), x, e) && !(x in names && e.containerID == id && e.networkID == n)
    {
      var rest := names;
      while rest != {}
        invariant rest <= names && NoEmptyBucket(containerData)
        invariant forall x, e: Entry :: Listed(containerData, x, e) <==>
          Listed(old(containerData), x, e) && !(x in names && x !in rest && e.containerID == id && e.networkID == n)
      {
        var name :| name in rest;
        rest := rest - {name};
        RemoveEntries(name, (e: Entry) => e.containerID == id && e.networkID == n);
      }
    }

    method RemoveStale(stale: map<string, set<string>>, id: string)
      requires NoEmptyBucket(containerData)
      modifies this`containerData
      ensures Shrunk(old(containerData), containerData, id, stale)
    {
      var rest := stale.Keys;
      while rest != {}
        invariant rest <= stale.Keys && NoEmptyBucket(containerData)
        invariant forall x, e: Entry :: Listed(containerData, x, e) <==>
          Listed(old(containerData), x, e)
            && !(e.networkID !in rest && e.containerID == id && InKnown(stale, e.networkID, x))
      {
        var n :| n in rest;
        rest := rest - {n};
        RemoveStaleNames(stale[n], n, id);
      }
    }

    method UpdateContainer(c: ContainerInfo)
      requires Valid()
      modifies this`containerData, this`known
      ensures Valid() && known == old(known)[c.id := c]
      ensures Updated(old(containerData), containerData, c)
      ensures forall name, e :: Listed(containerData, name, e) && !Listed(old(containerData), name, e) ==>
        e.containerID == c.id && e.ip == Get(c.ips, e.networkID)
      ensures IsCurrent(old(containerData), old(known)) && SameAddresses(old(known), c) ==>
        IsCurrent(containerData, known)
    {
      ghost var before := containerData;
      var knownDnsNames := KnownDnsNames(containerData, c.id);
      var stale := AddMissing(c, knownDnsNames);
      ghost var middle := containerData;
      RemoveStale(stale, c.id);
      GrownAndShrunk(before, middle, containerData, c, stale);
      UpdateKeepsIndex(before, containerData, known, c);
      if IsCurrent(before, known) && SameAddresses(known, c) {
        UpdateKeepsCurrent(before, containerData, known, c);
      }
      known := known[c.id := c];
    }

    ghost function View(): Tables
      reads this
    {
      Tables(networkNameToID, containerData, serviceData)
    }

    method AddService(name: string, info: ServiceInfo)
      modifies this`serviceData
      ensures serviceData == old(serviceData)[name := info]
    {
      serviceData := serviceData[name := info];
    }

    method RemoveService(name: string)
      modifies this`serviceData
      ensures serviceData == old(serviceData) - {name}
    {
      serviceData := serviceData - {name};
    }

    method AddNetwork(name: string, dockerID: string)
      modifies this`networkNameToID
      ensures networkNameToID == old(networkNameToID)[name := dockerID]
    {
      networkNameToID := networkNameToID[name := dockerID];
    }

    method ResolveServiceName(name: string, network: string) returns (result: seq<Ip>)
      ensures forall ip :: ip in result <==> ServiceMatches(View(), name, network, ip)
      ensures name in serviceData && serviceData[name].mode.Vip? ==>
        forall ip :: ip in result <==>
          network in serviceData[name].vips && ip == Some(serviceData[name].vips[network])
      ensures name in serviceData && serviceData[name].mode.Dnsrr? ==>
        forall ip :: ip in result <==>
          exists ips :: ips in serviceData[name].containerIPs && network in ips && ip == Some(ips[network])
      ensures name !in serviceData || serviceData[name].mode.OtherMode? ==> result == []
    {
      result := [];
      if name in serviceData {
        var info := serviceData[name];
        match info.mode {
          case Vip =>
            result := FilterIPsByNetwork(info.vips, network);
          case Dnsrr =>
            for i := 0 to |info.containerIPs|
              invariant forall ip :: ip in result <==> exists ips ::
                ips in info.containerIPs[..i] && HasAddress(ips, network, ip)
            {
              ghost var before := result;
              var ips := FilterIPsByNetwork(info.containerIPs[i], network);
              result := result + ips;
              assert info.containerIPs[..i + 1] == info.containerIPs[..i] + [info.containerIPs[i]];
            }
            assert info.containerIPs[..|info.containerIPs|] == info.containerIPs;
          case OtherMode =>
        }
      }
    }

    method ResolveContainerName(name: string, network: string) returns (result: seq<Ip>)
      ensures forall ip :: ip in result <==> ContainerMatches(View(), name, network, ip)
    {
      result := [];
      if name in containerData {
        var items := containerData[name];
        for i := 0 to |items|
          invariant forall ip :: ip in result <==> exists e :: e in items[..i] && e.networkID == network && e.ip == ip
        {
          assert items[..i + 1] == items[..i] + [items[i]];
          if items[i].networkID == network {
            result := result + [items[i].ip];
          }
        }
        assert items[..|items|] == items;
        forall ip
          ensures ip in result <==> ContainerMatches(View(), name, network, ip)
        {
          if e :| e in items && e.networkID == network && e.ip == ip {
            assert Listed(containerData, name, e);
          }
        }
      }
    }

    method ResolveOne(name: string, requestedNetwork: string, network: string) returns (result: seq<Ip>)
      ensures forall ip :: ip in result <==> Matches(View(), name, requestedNetwork, network, ip)
      ensures forall ip :: ip in result <==>
        && (requestedNetwork == "" || Get(networkNameToID, requestedNetwork) == Some(network))
        && (ServiceMatches(View(), name, network, ip) || ContainerMatches(View(), name, network, ip))
    {
      result := [];
      if requestedNetwork != "" {
        if requestedNetwork !in networkNameToID {
          return;
        }
        if network != networkNameToID[requestedNetwork] {
          return;
        }
      }
      var ofService := ResolveServiceName(name, network);
      var ofContainers := ResolveContainerName(name, network);
      result := ofService + ofContainers;
    }

    /** The matches of one cut: on all networks or, in compatibility mode, on the first that has any. */
    method ResolveCut(ghost parts: seq<string>, ghost i: nat, name: string, requestedNetwork: string,
                      networks: seq<string>)
      returns (result: seq<Ip>, ghost at: nat)
      requires i < |parts| && name == CutName(parts, i) && requestedNetwork == CutNetwork(parts, i)
      ensures result != [] <==> CutHas(View(), parts, i, networks)
      ensures result != [] && dockerCompatibilityMode ==>
        FirstNetwork(View(), parts, i, networks, at) && AnswersOne(View(), parts, i, networks[at], result)
      ensures !dockerCompatibilityMode ==> AnswersAll(View(), parts, i, networks, result)
    {
      result, at := [], 0;
      for k := 0 to |networks|
        invariant dockerCompatibilityMode ==> result == []
        invariant result == [] ==> forall j :: 0 <= j < k ==> !NetworkHas(View(), parts, i, networks[j])
        invariant forall ip :: ip in result <==> SomeMatch(View(), parts, i, networks[..k], ip)
      {
        var found := ResolveOne(name, requestedNetwork, networks[k]);
        NetworkFound(View(), parts, i, networks[k], found);
        OneMoreNetwork(View(), parts, i, networks, k);
        ghost var before := result;
        result := result + found;
        assert result == [] ==> before == [] && found == [];
        if dockerCompatibilityMode && |result| > 0 {
          at := k;
          assert result == found;
          assert networks[k] in networks;
          return;
        }
      }
      assert networks[..|networks|] == networks;
      SomeIsCut(View(), parts, i, networks, result);
    }

    /** Tries the cuts of the query in order, the longest name first. Sorting leaves the valid networks in some
        order; only compatibility mode depends on it. */
    method ResolveName(query: string, validNetworkIDs: seq<string>, sortedNetworkIDs: seq<string>)
      returns (result: seq<Ip>)
      requires multiset(sortedNetworkIDs) == multiset(validNetworkIDs)
      ensures IsAnswer(View(), Split(TrimSuffix(query, '.'), '.'), sortedNetworkIDs, dockerCompatibilityMode, result)
      ensures !dockerCompatibilityMode ==>
        IsAnswer(View(), Split(TrimSuffix(query, '.'), '.'), validNetworkIDs, false, result)
    {
      var queryParts := Split(TrimSuffix(query, '.'), '.');
      for i := 0 to |queryParts|
        invariant forall j :: 0 <= j < i ==> !CutHas(View(), queryParts, j, sortedNetworkIDs)
      {
        var found, at := ResolveCut(queryParts, i, CutName(queryParts, i), CutNetwork(queryParts, i), sortedNetworkIDs);
        if |found| > 0 {
          result := UniqBy(found);
          AnswersFound(View(), queryParts, i, sortedNetworkIDs, dockerCompatibilityMode, found, result, at);
          AnswerIgnoresOrder(View(), queryParts, sortedNetworkIDs, validNetworkIDs, result);
          return;
        }
      }
      result := [];
      AnswerIgnoresOrder(View(), queryParts, sortedNetworkIDs, validNetworkIDs, result);
    }
  }

  method FilterIPsByNetwork(ips: map<string, nat>, network: string) returns (result: seq<Ip>)
    ensures forall ip :: ip in result <==> HasAddress(ips, network, ip)
  {
    result := [];
    var rest := ips.Keys;
    while rest != {}
      invariant rest <= ips.Keys
      invariant forall ip :: ip in result <==> network !in rest && HasAddress(ips, network, ip)
    {
      var n :| n in rest;
      rest := rest - {n};
      if n == network {
        result := result + [Some(ips[n])];
      }
    }
  }

  lemma NetworkFound(t: Tables, parts: seq<string>, i: nat, network: string, found: seq<Ip>)
    requires i < |parts| && AnswersOne(t, parts, i, network, found)
    ensures found != [] <==> NetworkHas(t, parts, i, network)
  {
    if found != [] {
      assert found[0] in found;
    }
  }

  lemma OneMoreNetwork(t: Tables, parts: seq<string>, i: nat, networks: seq<string>, k: nat)
    requires i < |parts| && k < |networks|
    ensures forall ip :: SomeMatch(t, parts, i, networks[..k + 1], ip) <==>
      SomeMatch(t, parts, i, networks[..k], ip) || MatchesAt(t, parts, i, networks[k], ip)
  {
    assert networks[..k + 1] == networks[..k] + [networks[k]];
  }

  lemma SomeIsCut(t: Tables, parts: seq<string>, i: nat, networks: seq<string>, result: seq<Ip>)
    requires i < |parts| && AnswersAll(t, parts, i, networks, result)
    ensures result != [] <==> CutHas(t, parts, i, networks)
  {
    if result != [] {
      assert SomeMatch(t, parts, i, networks, result[0]);
    }
    if CutHas(t, parts, i, networks) {
      var n :| n in networks && NetworkHas(t, parts, i, n);
      var ip :| MatchesAt(t, parts, i, n, ip);
      assert SomeMatch(t, parts, i, networks, ip);
    }
  }

  lemma StillHas(data: Index, data': Index, id: string)
    requires forall name, e :: Listed(data, name, e) ==> Listed(data', name, e)
    ensures forall x, n :: Has(data, x, n, id) ==> Has(data', x, n, id)
  {
    forall x, n | Has(data, x, n, id)
      ensures Has(data', x, n, id)
    {
      var e :| Listed(data, x, e) && e.networkID == n && e.containerID == id;
      assert Listed(data', x, e);
    }
  }

  lemma GrownOn(data: Index, middle: Index, data': Index, c: ContainerInfo, done: set<string>, n: string)
    requires Grown(data, middle, c, done) && Grown(middle, data', c, {n})
    ensures Grown(data, data', c, done + {n})
  {
  }
}
