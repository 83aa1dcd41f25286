/** What a DNS query means: the ways to read it as a name and a network, and what matches. */
module NameLookup {
  import opened Basics
  import opened GoText
  import opened ResolverIndex

  // ---------- cutting a query ----------

  function CutName(parts: seq<string>, i: nat): string
    requires i < |parts|
  {
    Join(parts[..|parts| - i], '.')
  }

  function CutNetwork(parts: seq<string>, i: nat): string
    requires i < |parts|
  {
    Join(parts[|parts| - i..], '.')
  }

  lemma {:induction false} JoinAppend(a: seq<string>, b: seq<string>, sep: char)
    requires a != [] && b != []
    ensures Join(a + b, sep) == Join(a, sep) + [sep] + Join(b, sep)
  {
    if |a| == 1 {
      assert (a + b)[1..] == b;
    } else {
      JoinAppend(a[1..], b, sep);
      assert (a + b)[1..] == a[1..] + b;
      assert Join(a, sep) == a[0] + [sep] + Join(a[1..], sep);
    }
  }

  lemma JoinNonEmpty(parts: seq<string>, sep: char)
    requires parts != [] && parts[0] != []
    ensures Join(parts, sep) != []
  {
  }

  lemma {:induction false} JoinShortens(parts: seq<string>, sep: char)
    requires |parts| > 1
    ensures |Join(parts, sep)| > |Join(parts[..|parts| - 1], sep)|
  {
    var init, last := parts[..|parts| - 1], parts[|parts| - 1..];
    assert parts == init + last;
    JoinAppend(init, last, sep);
  }

  /** The cuts are tried in the order of their names, the longest first. */
  lemma {:induction false} LongestNameFirst(parts: seq<string>, i: nat, j: nat)
    requires i < j < |parts|
    ensures |CutName(parts, i)| > |CutName(parts, j)|
  {
    if i + 1 < j {
      LongestNameFirst(parts, i, j - 1);
    }
    var longer := parts[..|parts| - (j - 1)];
    JoinShortens(longer, '.');
    assert longer[..|longer| - 1] == parts[..|parts| - j];
  }

  /** The query read as a name alone, or as a name below a network. */
  predicate Reads(query: string, name: string, network: string) {
    if network == [] then name == query else name != [] && query == name + "." + network
  }

  ghost predicate IsCut(query: string, name: string, network: string) {
    var parts := Split(query, '.');
    exists i :: 0 <= i < |parts| && name == CutName(parts, i) && network == CutNetwork(parts, i)
  }

  lemma CutReads(query: string, i: nat)
    requires i < |Split(query, '.')| && forall k :: 0 <= k < |Split(query, '.')| ==> Split(query, '.')[k] != []
    ensures Reads(query, CutName(Split(query, '.'), i), CutNetwork(Split(query, '.'), i))
  {
    var parts := Split(query, '.');
    JoinSplit(query, '.');
    var a, b := parts[..|parts| - i], parts[|parts| - i..];
    assert parts == a + b;
    if i == 0 {
      assert a == parts && b == [];
    } else {
      JoinAppend(a, b, '.');
      JoinNonEmpty(a, '.');
    }
  }

  lemma ReadingIsCut(query: string, name: string, network: string)
    requires Reads(query, name, network)
    ensures IsCut(query, name, network)
  {
    var parts := Split(query, '.');
    JoinSplit(query, '.');
    if network == [] {
      assert parts[..|parts|] == parts && parts[|parts|..] == [];
      assert name == CutName(parts, 0) && network == CutNetwork(parts, 0);
    } else {
      SplitAt(name, network, '.');
      var a, b := Split(name, '.'), Split(network, '.');
      assert parts == a + b;
      JoinSplit(name, '.');
      JoinSplit(network, '.');
      assert parts[..|parts| - |b|] == a && parts[|parts| - |b|..] == b;
      assert name == CutName(parts, |b|) && network == CutNetwork(parts, |b|);
    }
  }

  /** For a query without empty labels the cuts are exactly the ways to read it. */
  lemma CutsAreReadings(query: string, name: string, network: string)
    requires forall k :: 0 <= k < |Split(query, '.')| ==> Split(query, '.')[k] != []
    ensures IsCut(query, name, network) <==> Reads(query, name, network)
  {
    if IsCut(query, name, network) {
      var parts := Split(query, '.');
      var i :| 0 <= i < |parts| && name == CutName(parts, i) && network == CutNetwork(parts, i);
      CutReads(query, i);
    }
    if Reads(query, name, network) {
      ReadingIsCut(query, name, network);
    }
  }

  // ---------- what matches ----------

  datatype EndpointMode = Vip | Dnsrr | OtherMode

  datatype ServiceInfo = ServiceInfo(mode: EndpointMode, vips: map<string, nat>, containerIPs: seq<map<string, nat>>)

  datatype Tables = Tables(networkNameToID: map<string, string>, containerData: Index,
                           serviceData: map<string, ServiceInfo>)

  ghost predicate HasAddress(ips: map<string, nat>, network: string, ip: Ip) {
    network in ips && ip == Some(ips[network])
  }

  ghost predicate ServiceMatches(t: Tables, name: string, network: string, ip: Ip) {
    && name in t.serviceData
    && match t.serviceData[name].mode
       case Vip => HasAddress(t.serviceData[name].vips, network, ip)
       case Dnsrr => exists ips :: ips in t.serviceData[name].containerIPs && HasAddress(ips, network, ip)
       case OtherMode => false
  }

  ghost predicate ContainerMatches(t: Tables, name: string, network: string, ip: Ip) {
    exists e :: Listed(t.containerData, name, e) && e.networkID == network && e.ip == ip
  }

  predicate NetworkFits(t: Tables, requestedNetwork: string, network: string) {
    requestedNetwork == "" || (requestedNetwork in t.networkNameToID && t.networkNameToID[requestedNetwork] == network)
  }

  ghost predicate Matches(t: Tables, name: string, requestedNetwork: string, network: string, ip: Ip) {
    NetworkFits(t, requestedNetwork, network)
      && (ServiceMatches(t, name, network, ip) || ContainerMatches(t, name, network, ip))
  }

  /** Looking a container up by name is a scan of the containers known. */
  lemma LookupIsScan(t: Tables, known: map<string, ContainerInfo>, name: string, network: string, ip: Ip)
    requires IsIndexOf(t.containerData, known) && IsCurrent(t.containerData, known)
    ensures ContainerMatches(t, name, network, ip) <==>
      exists id :: id in known && known[id].Named(name, network) && Get(known[id].ips, network) == ip
  {
    if ContainerMatches(t, name, network, ip) {
      var e :| Listed(t.containerData, name, e) && e.networkID == network && e.ip == ip;
      assert Has(t.containerData, name, network, e.containerID);
    }
    if id :| id in known && known[id].Named(name, network) && Get(known[id].ips, network) == ip {
      assert Has(t.containerData, name, network, id);
      var e :| Listed(t.containerData, name, e) && e.networkID == network && e.containerID == id;
    }
  }

  // ---------- the answer ----------

  ghost predicate MatchesAt(t: Tables, parts: seq<string>, i: nat, network: string, ip: Ip)
    requires i < |parts|
  {
    Matches(t, CutName(parts, i), CutNetwork(parts, i), network, ip)
  }

  ghost predicate NetworkHas(t: Tables, parts: seq<string>, i: nat, network: string)
    requires i < |parts|
  {
    exists ip :: MatchesAt(t, parts, i, network, ip)
  }

  ghost predicate CutHas(t: Tables, parts: seq<string>, i: nat, networks: seq<string>)
    requires i < |parts|
  {
    exists n :: n in networks && NetworkHas(t, parts, i, n)
  }

  /** The first cut that anything matches. */
  ghost predicate FirstCut(t: Tables, parts: seq<string>, i: nat, networks: seq<string>) {
    && i < |parts| && CutHas(t, parts, i, networks)
    && forall j :: 0 <= j < i ==> !CutHas(t, parts, j, networks)
  }

  /** Exactly the matches on one network. */
  ghost predicate AnswersOne(t: Tables, parts: seq<string>, i: nat, network: string, result: seq<Ip>)
    requires i < |parts|
  {
    forall ip :: ip in result <==> MatchesAt(t, parts, i, network, ip)
  }

  ghost predicate SomeMatch(t: Tables, parts: seq<string>, i: nat, networks: seq<string>, ip: Ip)
    requires i < |parts|
  {
    exists n :: n in networks && MatchesAt(t, parts, i, n, ip)
  }

  /** Exactly the matches on all networks. */
  ghost predicate AnswersAll(t: Tables, parts: seq<string>, i: nat, networks: seq<string>, result: seq<Ip>)
    requires i < |parts|
  {
    forall ip :: ip in result <==> SomeMatch(t, parts, i, networks, ip)
  }

  /** The first network, in the order gone through, on which the cut matches. */
  ghost predicate FirstNetwork(t: Tables, parts: seq<string>, i: nat, networks: seq<string>, k: nat)
    requires i < |parts|
  {
    && k < |networks| && NetworkHas(t, parts, i, networks[k])
    && forall j :: 0 <= j < k ==> !NetworkHas(t, parts, i, networks[j])
  }

  /** What the resolver promises for a query cut into `parts`. */
  ghost predicate IsAnswer(t: Tables, parts: seq<string>, networks: seq<string>, compatible: bool, result: seq<Ip>) {
    && NoRepeats(result)
    && ((forall i: nat :: i < |parts| ==> !CutHas(t, parts, i, networks)) ==> result == [])
    && (forall i: nat :: FirstCut(t, parts, i, networks) ==>
          if compatible then exists k: nat ::
            FirstNetwork(t, parts, i, networks, k) && AnswersOne(t, parts, i, networks[k], result)
          else AnswersAll(t, parts, i, networks, result))
  }

  method UniqBy(items: seq<Ip>) returns (result: seq<Ip>)
    ensures NoRepeats(result) && forall ip :: ip in result <==> ip in items
  {
    result := [];
    for i := 0 to |items|
      invariant NoRepeats(result) && forall ip :: ip in result <==> ip in items[..i]
    {
      if items[i] !in result {
        result := result + [items[i]];
      }
    }
  }

  lemma AnswersFound(t: Tables, parts: seq<string>, i: nat, networks: seq<string>, compatible: bool, found: seq<Ip>,
                     result: seq<Ip>, k: nat)
    requires FirstCut(t, parts, i, networks) && NoRepeats(result) && forall ip :: ip in result <==> ip in found
    requires if compatible then FirstNetwork(t, parts, i, networks, k) && AnswersOne(t, parts, i, networks[k], found)
             else AnswersAll(t, parts, i, networks, found)
    ensures IsAnswer(t, parts, networks, compatible, result)
  {
    if compatible {
      assert AnswersOne(t, parts, i, networks[k], result);
    }
    forall j: nat | FirstCut(t, parts, j, networks)
      ensures j == i
    {
      assert !(j < i) && !(i < j);
    }
  }

  /** Outside compatibility mode the order of the networks does not matter. */
  lemma AnswerIgnoresOrder(t: Tables, parts: seq<string>, networks: seq<string>, networks': seq<string>,
                           result: seq<Ip>)
    requires multiset(networks) == multiset(networks')
    ensures IsAnswer(t, parts, networks, false, result) <==> IsAnswer(t, parts, networks', false, result)
  {
    forall n
      ensures n in networks <==> n in networks'
    {
      assert n in networks <==> n in multiset(networks);
    }
    forall i: nat | i < |parts|
      ensures CutHas(t, parts, i, networks) <==> CutHas(t, parts, i, networks')
      ensures AnswersAll(t, parts, i, networks, result) <==> AnswersAll(t, parts, i, networks', result)
    {
      forall ip
        ensures SomeMatch(t, parts, i, networks, ip) <==> SomeMatch(t, parts, i, networks', ip)
      {
      }
    }
  }

  // ---------- which reading is answered ----------

  /** A final dot of a query is dropped, and nothing else. */
  lemma FinalDotIsDropped(query: string)
    ensures TrimSuffix(query + ".", '.') == query
    ensures query == [] || query[|query| - 1] != '.' ==> TrimSuffix(query, '.') == query
  {
    assert (query + ".")[..|query|] == query;
  }

  ghost predicate ReadingHas(t: Tables, name: string, network: string, networks: seq<string>) {
    exists n, ip :: n in networks && Matches(t, name, network, n, ip)
  }

  lemma CutIsReading(t: Tables, parts: seq<string>, i: nat, networks: seq<string>)
    requires i < |parts|
    ensures CutHas(t, parts, i, networks) <==> ReadingHas(t, CutName(parts, i), CutNetwork(parts, i), networks)
  {
    if ReadingHas(t, CutName(parts, i), CutNetwork(parts, i), networks) {
      var n, ip :| n in networks && Matches(t, CutName(parts, i), CutNetwork(parts, i), n, ip);
      assert MatchesAt(t, parts, i, n, ip);
      assert NetworkHas(t, parts, i, n);
    }
    if CutHas(t, parts, i, networks) {
      var n :| n in networks && NetworkHas(t, parts, i, n);
      var ip :| MatchesAt(t, parts, i, n, ip);
    }
  }

  /** No reading with a longer name matches. */
  ghost predicate NoLongerMatches(t: Tables, query: string, name: string, networks: seq<string>) {
    forall name', network' :: Reads(query, name', network') && |name'| > |name| ==>
      !ReadingHas(t, name', network', networks)
  }

  lemma IsFirst(t: Tables, query: string, i: nat, networks: seq<string>)
    requires var parts := Split(query, '.'); i < |parts| && forall k :: 0 <= k < |parts| ==> parts[k] != []
    requires ReadingHas(t, CutName(Split(query, '.'), i), CutNetwork(Split(query, '.'), i), networks)
    requires NoLongerMatches(t, query, CutName(Split(query, '.'), i), networks)
    ensures FirstCut(t, Split(query, '.'), i, networks)
  {
    var parts := Split(query, '.');
    CutIsReading(t, parts, i, networks);
    forall j | 0 <= j < i
      ensures !CutHas(t, parts, j, networks)
    {
      CutReads(query, j);
      LongestNameFirst(parts, j, i);
      CutIsReading(t, parts, j, networks);
    }
  }

  /** A query without empty labels is answered with exactly the matches, on all networks, of its reading with the
      longest name that has any. */
  lemma LongestReadingAnswers(t: Tables, query: string, networks: seq<string>, result: seq<Ip>, name: string,
                              network: string)
    requires forall k :: 0 <= k < |Split(query, '.')| ==> Split(query, '.')[k] != []
    requires IsAnswer(t, Split(query, '.'), networks, false, result)
    requires Reads(query, name, network) && ReadingHas(t, name, network, networks)
    requires NoLongerMatches(t, query, name, networks)
    ensures forall ip :: ip in result <==> exists n :: n in networks && Matches(t, name, network, n, ip)
  {
    var parts := Split(query, '.');
    ReadingIsCut(query, name, network);
    var i :| 0 <= i < |parts| && name == CutName(parts, i) && network == CutNetwork(parts, i);
    IsFirst(t, query, i, networks);
    assert AnswersAll(t, parts, i, networks, result);
    forall ip
      ensures ip in result <==> exists n :: n in networks && Matches(t, name, network, n, ip)
    {
      assert ip in result <==> SomeMatch(t, parts, i, networks, ip);
      if n :| n in networks && Matches(t, name, network, n, ip) {
        assert MatchesAt(t, parts, i, n, ip);
      }
    }
  }

  /** ... and with nothing if no reading has a match. */
  lemma NoReadingNoAnswer(t: Tables, query: string, networks: seq<string>, result: seq<Ip>)
    requires forall k :: 0 <= k < |Split(query, '.')| ==> Split(query, '.')[k] != []
    requires IsAnswer(t, Split(query, '.'), networks, false, result)
    requires forall name, network :: Reads(query, name, network) ==> !ReadingHas(t, name, network, networks)
    ensures result == []
  {
    var parts := Split(query, '.');
    forall i: nat | i < |parts|
      ensures !CutHas(t, parts, i, networks)
    {
      CutReads(query, i);
      CutIsReading(t, parts, i, networks);
    }
  }
}
