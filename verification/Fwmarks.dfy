/** The firewall marks of services: two maps in etcd, one from service to mark and one back, on each network. */
module Fwmarks {
  import opened Basics

  type Mark = nat

  datatype Marks = Marks(
    byService: map<(string, string), Mark>,   // (network, service) -> mark
    list: map<(string, Mark), string>)        // (network, mark) -> service

  /** The two maps are exact inverses of each other on each network. */
  ghost predicate Inverse(m: Marks) {
    && (forall n, s :: (n, s) in m.byService ==>
        (n, m.byService[(n, s)]) in m.list && m.list[(n, m.byService[(n, s)])] == s)
    && (forall n, f :: (n, f) in m.list ==> (n, m.list[(n, f)]) in m.byService && m.byService[(n, m.list[(n, f)])] == f)
  }

  function Assigned(m: Marks, network: string, service: string, mark: Mark): Marks {
    Marks(m.byService[(network, service) := mark], m.list[(network, mark) := service])
  }

  function Freed(m: Marks, network: string, service: string, mark: Mark): Marks {
    Marks(m.byService - {(network, service)}, m.list - {(network, mark)})
  }

  predicate Holds(m: Marks, network: string, service: string, mark: Mark) {
    && (network, service) in m.byService && m.byService[(network, service)] == mark
    && (network, mark) in m.list && m.list[(network, mark)] == service
  }

  /** What is left when only the listed services keep their marks. */
  function Kept(m: Marks, services: seq<string>): Marks {
    Marks(map k | k in m.byService && k.1 in services :: m.byService[k],
          map k | k in m.list && m.list[k] in services :: m.list[k])
  }

  function NetworkMarks(m: Marks, network: string): set<Mark> {
    set k | k in m.list && k.0 == network :: k.1
  }

  /** Two services on one network never share a mark. */
  lemma MarksAreDistinct(m: Marks, network: string, s: string, t: string)
    requires Inverse(m) && (network, s) in m.byService && (network, t) in m.byService
    requires m.byService[(network, s)] == m.byService[(network, t)]
    ensures s == t
  {
    assert m.list[(network, m.byService[(network, s)])] == s;
  }

  /** Every service other than this one, and this one on other networks, has the marks it had. */
  ghost predicate OthersHold(m: Marks, m': Marks, network: string, service: string) {
    forall n, s, f :: (n, s) != (network, service) ==> (Holds(m', n, s, f) <==> Holds(m, n, s, f))
  }

  /** An assigned mark is the service's only one on the network. */
  lemma AssignHolds(m: Marks, network: string, service: string, mark: Mark)
    requires Inverse(m) && (network, service) !in m.byService && (network, mark) !in m.list
    ensures var m' := Assigned(m, network, service, mark);
      && (forall f :: Holds(m', network, service, f) <==> f == mark) && OthersHold(m, m', network, service)
  {
  }

  /** A freed mark is nobody's any more. */
  lemma FreeDrops(m: Marks, network: string, service: string, mark: Mark)
    requires Inverse(m) && Holds(m, network, service, mark)
    ensures var m' := Freed(m, network, service, mark);
      && (forall s :: !Holds(m', network, s, mark)) && (forall f :: !Holds(m', network, service, f))
      && (network, service) !in m'.byService && (network, mark) !in m'.list && OthersHold(m, m', network, service)
  {
    forall n, s, f: Mark | (n, s) != (network, service) && Holds(m, n, s, f)
      ensures (n, f) != (network, mark)
    {
    }
  }

  lemma AssignKeepsInverse(m: Marks, network: string, service: string, mark: Mark)
    requires Inverse(m) && (network, service) !in m.byService && (network, mark) !in m.list
    ensures Inverse(Assigned(m, network, service, mark))
  {
  }

  lemma FreeKeepsInverse(m: Marks, network: string, service: string, mark: Mark)
    requires Inverse(m) && Holds(m, network, service, mark)
    ensures Inverse(Freed(m, network, service, mark))
  {
    var m' := Freed(m, network, service, mark);
    forall n, s | (n, s) in m'.byService
      ensures (n, m'.byService[(n, s)]) in m'.list
    {
      if n == network {
        if m.byService[(n, s)] == mark {
          MarksAreDistinct(m, network, s, service);
        }
      }
    }
  }

  /** Cleaning up removes exactly the pairs of unlisted services, from both maps alike. */
  lemma KeptKeepsInverse(m: Marks, services: seq<string>)
    requires Inverse(m)
    ensures Inverse(Kept(m, services))
    ensures forall n, s, f :: Holds(Kept(m, services), n, s, f) <==> Holds(m, n, s, f) && s in services
  {
  }

  // ---------- choosing a mark ----------

  const MAX_ATTEMPTS := 1000

  /** The name hashed at an attempt. */
  function NameAt(serviceID: string, networkID: string, suffix: nat -> string, attempt: nat): string {
    if attempt == 0 then serviceID + "-" + networkID else serviceID + "_" + suffix(attempt - 1)
  }

  ghost predicate Collides(serviceID: string, networkID: string, hash: string -> Mark, suffix: nat -> string,
                           existing: seq<Mark>, attempt: nat) {
    hash(NameAt(serviceID, networkID, suffix, attempt)) in existing
  }

  /** The mark is the candidate of attempt `a`, and all candidates before it were in use. */
  ghost predicate IsFirstFree(serviceID: string, networkID: string, hash: string -> Mark, suffix: nat -> string,
                              existing: seq<Mark>, a: nat, mark: Mark) {
    && a < MAX_ATTEMPTS && mark == hash(NameAt(serviceID, networkID, suffix, a)) && mark !in existing
    && forall b: nat :: b < a ==> Collides(serviceID, networkID, hash, suffix, existing, b)
  }

  /** The first of at most a thousand candidates that is not in use. */
  method GenerateFWMARK(serviceID: string, networkID: string, existingFWMARKs: seq<Mark>, hash: string -> Mark,
                        suffix: nat -> string)
    returns (r: Result<Mark>)
    ensures r.Ok? ==> r.value !in existingFWMARKs
    ensures var first := hash(serviceID + "-" + networkID); first !in existingFWMARKs ==> r == Ok(first)
    ensures r.Ok? ==> exists a :: IsFirstFree(serviceID, networkID, hash, suffix, existingFWMARKs, a, r.value)
    ensures r.Err? <==> forall a: nat :: a < MAX_ATTEMPTS ==>
      Collides(serviceID, networkID, hash, suffix, existingFWMARKs, a)
  {
    var currentName := serviceID + "-" + networkID;
    for attempt := 0 to MAX_ATTEMPTS
      invariant currentName == NameAt(serviceID, networkID, suffix, attempt)
      invariant attempt > 0 ==> hash(serviceID + "-" + networkID) in existingFWMARKs
      invariant forall b: nat :: b < attempt ==> Collides(serviceID, networkID, hash, suffix, existingFWMARKs, b)
    {
      var fwmark := hash(currentName);
      if fwmark !in existingFWMARKs {
        assert !Collides(serviceID, networkID, hash, suffix, existingFWMARKs, attempt);
        assert IsFirstFree(serviceID, networkID, hash, suffix, existingFWMARKs, attempt, fwmark);
        return Ok(fwmark);
      }
      currentName := serviceID + "_" + suffix(attempt);
    }
    r := Err;
  }

  // ---------- the manager ----------

  /** An entry as cleaning up reads it. */
  datatype Entry = ServiceEntry(network: string, service: string, mark: Mark)
    | ListEntry(network: string, mark: Mark, service: string)

  predicate Present(m: Marks, e: Entry) {
    match e
    case ServiceEntry(n, s, f) => (n, s) in m.byService && m.byService[(n, s)] == f
    case ListEntry(n, f, s) => (n, f) in m.list && m.list[(n, f)] == s
  }

  ghost predicate ListsEntries(entries: seq<Entry>, m: Marks) {
    && (forall i :: 0 <= i < |entries| ==> Present(m, entries[i]))
    && (forall n, s :: (n, s) in m.byService ==> ServiceEntry(n, s, m.byService[(n, s)]) in entries)
    && (forall n, f :: (n, f) in m.list ==> ListEntry(n, f, m.list[(n, f)]) in entries)
  }

  /** The marks of services on one host, as etcd holds them; one process works on them. */
  class FwmarksManagement {
    var byService: map<(string, string), Mark>
    var list: map<(string, Mark), string>

    function View(): Marks
      reads this
    {
      Marks(byService, list)
    }

    constructor (m: Marks)
      ensures View() == m
    {
      byService, list := m.byService, m.list;
    }

    method ListMarks(networkID: string) returns (marks: seq<Mark>)
      ensures forall f :: f in marks <==> f in NetworkMarks(View(), networkID)
    {
      marks := [];
      var all := NetworkMarks(View(), networkID);
      var rest := all;
      while rest != {}
        invariant rest <= all
        invariant forall f :: f in marks <==> f in all && f !in rest
      {
        var f :| f in rest;
        marks, rest := marks + [f], rest - {f};
      }
    }

    /** The service's mark if it has one, otherwise a new one that no service of the network has. The loop that
        retries a transaction ends after its first turn. */
    method GetMark(serviceID: string, networkID: string, hash: string -> Mark, suffix: nat -> string)
      returns (r: Result<Mark>)
      requires Inverse(View())
      modifies this
      ensures Inverse(View())
      ensures (networkID, serviceID) in old(byService) ==>
        r == Ok(old(byService)[(networkID, serviceID)]) && View() == old(View())
      ensures (networkID, serviceID) !in old(byService) ==>
        match r
        case Ok(fwmark) =>
          && fwmark !in NetworkMarks(old(View()), networkID)
          && View() == Assigned(old(View()), networkID, serviceID, fwmark)
        case Err =>
          && View() == old(View())
          && (forall a: nat :: a < MAX_ATTEMPTS ==>
                hash(NameAt(serviceID, networkID, suffix, a)) in NetworkMarks(View(), networkID))
      ensures r.Ok? ==>
        Holds(View(), networkID, serviceID, r.value) && OthersHold(old(View()), View(), networkID, serviceID)
      ensures var first := hash(serviceID + "-" + networkID);
        (networkID, serviceID) !in old(byService) && (networkID, first) !in old(list) ==> r == Ok(first)
      ensures r.Err? ==>
        forall a: nat :: a < 1000 ==> (networkID, hash(NameAt(serviceID, networkID, suffix, a))) in list
    {
      if (networkID, serviceID) in byService {
        return Ok(byService[(networkID, serviceID)]);
      }
      var done := false;
      r := Err;
      while !done
        invariant !done ==> View() == old(View())
        invariant done && r.Ok? ==>
          && r.value !in NetworkMarks(old(View()), networkID)
          && View() == Assigned(old(View()), networkID, serviceID, r.value)
        invariant done && (networkID, hash(serviceID + "-" + networkID)) !in old(list) ==>
          r == Ok(hash(serviceID + "-" + networkID))
        invariant done && r.Err? ==> View() == old(View()) && forall a: nat :: a < MAX_ATTEMPTS ==>
          hash(NameAt(serviceID, networkID, suffix, a)) in NetworkMarks(View(), networkID)
        decreases !done
      {
        var existingFwmarks := ListMarks(networkID);
        MarkIsListed(View(), networkID, hash(serviceID + "-" + networkID));
        r := GenerateFWMARK(serviceID, networkID, existingFwmarks, hash, suffix);
        if r.Err? {
          AllTaken(View(), serviceID, networkID, hash, suffix, existingFwmarks);
          done := true;
        } else if (networkID, r.value) !in list {
          byService, list := byService[(networkID, serviceID) := r.value], list[(networkID, r.value) := serviceID];
          done := true;
        } else {
          TakenIsListed(View(), networkID, r.value);
        }
      }
      if r.Err? {
        TakenIsInList(View(), serviceID, networkID, hash, suffix);
      } else {
        NewIsFree(old(View()), networkID, r.value);
        AssignHolds(old(View()), networkID, serviceID, r.value);
        AssignKeepsInverse(old(View()), networkID, serviceID, r.value);
      }
    }

    /** The caller does not learn whether anything was released: a refused transaction is no error. */
    method Release(serviceID: string, networkID: string, fwmark: Mark)
      requires Inverse(View())
      modifies this
      ensures Inverse(View())
      ensures View() == if Holds(old(View()), networkID, serviceID, fwmark)
                        then Freed(old(View()), networkID, serviceID, fwmark) else old(View())
      ensures !Holds(View(), networkID, serviceID, fwmark) && OthersHold(old(View()), View(), networkID, serviceID)
      ensures !Holds(old(View()), networkID, serviceID, fwmark) ==> byService == old(byService) && list == old(list)
    {
      if Holds(View(), networkID, serviceID, fwmark) {
        FreeDrops(View(), networkID, serviceID, fwmark);
        FreeKeepsInverse(View(), networkID, serviceID, fwmark);
        byService, list := byService - {(networkID, serviceID)}, list - {(networkID, fwmark)};
      }
    }

    method DeleteEntry(e: Entry)
      modifies this
      ensures View() == Without(old(View()), e)
    {
      match e
      case ServiceEntry(n, s, _) => byService := byService - {(n, s)};
      case ListEntry(n, f, _) => list := list - {(n, f)};
    }

    /** Deletes, entry by entry, what belongs to services that are not listed, and returns for each such service the
        mark of its last entry. */
    method CleanUpStaleFwmarks(existingServices: seq<string>, entries: seq<Entry>) returns (marks: seq<Mark>)
      requires Inverse(View()) && ListsEntries(entries, View())
      modifies this
      ensures Inverse(View()) && View() == Kept(old(View()), existingServices)
      ensures forall f :: f in marks <==> Returned(entries, existingServices, f)
    {
      var fwmarks: map<string, Mark> := map[];
      ghost var m := View();
      for i := 0 to |entries|
        invariant Remains(m, existingServices, entries[..i], View())
        invariant LastMarks(entries[..i], existingServices, fwmarks)
      {
        CleanOne(m, existingServices, entries, i, View());
        LastMarksStep(entries, i, existingServices, fwmarks);
        var e := entries[i];
        if e.service !in existingServices {
          fwmarks := fwmarks[e.service := e.mark];
          DeleteEntry(e);
        }
      }
      assert entries[..|entries|] == entries;
      AllCleaned(m, existingServices, entries, View());
      KeptKeepsInverse(m, existingServices);
      marks := ValuesOf(fwmarks);
      ReturnedIsLast(entries, existingServices, fwmarks);
    }
  }

  /** The values of a map in some order. */
  method ValuesOf(fwmarks: map<string, Mark>) returns (marks: seq<Mark>)
    ensures forall f :: f in marks <==> f in fwmarks.Values
  {
    marks := [];
    var rest := fwmarks.Keys;
    while rest != {}
      invariant rest <= fwmarks.Keys
      invariant forall f :: f in marks <==> exists s :: s in fwmarks && s !in rest && fwmarks[s] == f
    {
      var s :| s in rest;
      marks, rest := marks + [fwmarks[s]], rest - {s};
    }
  }

  lemma TakenIsListed(m: Marks, network: string, mark: Mark)
    requires (network, mark) in m.list
    ensures mark in NetworkMarks(m, network)
  {
  }

  lemma NewIsFree(m: Marks, network: string, mark: Mark)
    requires mark !in NetworkMarks(m, network)
    ensures (network, mark) !in m.list
  {
  }

  lemma MarkIsListed(m: Marks, network: string, mark: Mark)
    ensures mark in NetworkMarks(m, network) <==> (network, mark) in m.list
  {
    if (network, mark) in m.list {
      TakenIsListed(m, network, mark);
    }
  }

  lemma TakenIsInList(m: Marks, serviceID: string, networkID: string, hash: string -> Mark, suffix: nat -> string)
    requires forall a: nat :: a < MAX_ATTEMPTS ==>
      hash(NameAt(serviceID, networkID, suffix, a)) in NetworkMarks(m, networkID)
    ensures forall a: nat :: a < 1000 ==> (networkID, hash(NameAt(serviceID, networkID, suffix, a))) in m.list
  {
    forall a: nat | a < 1000
      ensures (networkID, hash(NameAt(serviceID, networkID, suffix, a))) in m.list
    {
      MarkIsListed(m, networkID, hash(NameAt(serviceID, networkID, suffix, a)));
    }
  }

  lemma AllTaken(m: Marks, serviceID: string, networkID: string, hash: string -> Mark, suffix: nat -> string,
                 existing: seq<Mark>)
    requires forall f :: f in existing <==> f in NetworkMarks(m, networkID)
    requires forall a: nat :: a < MAX_ATTEMPTS ==> Collides(serviceID, networkID, hash, suffix, existing, a)
    ensures forall a: nat :: a < MAX_ATTEMPTS ==>
      hash(NameAt(serviceID, networkID, suffix, a)) in NetworkMarks(m, networkID)
  {
    forall a: nat | a < MAX_ATTEMPTS
      ensures hash(NameAt(serviceID, networkID, suffix, a)) in NetworkMarks(m, networkID)
    {
      assert Collides(serviceID, networkID, hash, suffix, existing, a);
    }
  }

  /** What is left once some entries have been looked at. */
  ghost predicate Remains(m: Marks, services: seq<string>, seen: seq<Entry>, now: Marks) {
    && (forall k :: k in now.byService <==>
          k in m.byService && (k.1 in services || ServiceEntry(k.0, k.1, m.byService[k]) !in seen))
    && (forall k :: k in now.list <==>
          k in m.list && (m.list[k] in services || ListEntry(k.0, k.1, m.list[k]) !in seen))
    && (forall k :: k in now.byService ==> now.byService[k] == m.byService[k])
    && (forall k :: k in now.list ==> now.list[k] == m.list[k])
  }

  function Without(m: Marks, e: Entry): Marks {
    match e
    case ServiceEntry(n, s, _) => m.(byService := m.byService - {(n, s)})
    case ListEntry(n, f, _) => m.(list := m.list - {(n, f)})
  }

  lemma SeenOneMore(entries: seq<Entry>, i: nat, x: Entry)
    requires i < |entries|
    ensures x in entries[..i + 1] <==> x in entries[..i] || x == entries[i]
  {
    assert entries[..i + 1] == entries[..i] + [entries[i]];
  }

  lemma CleanOne(m: Marks, services: seq<string>, entries: seq<Entry>, i: nat, now: Marks)
    requires i < |entries| && Present(m, entries[i]) && Remains(m, services, entries[..i], now)
    ensures Remains(m, services, entries[..i + 1],
                    if entries[i].service in services then now else Without(now, entries[i]))
  {
    var e := entries[i];
    forall k | k in m.byService
      ensures ServiceEntry(k.0, k.1, m.byService[k]) in entries[..i + 1]
         <==> ServiceEntry(k.0, k.1, m.byService[k]) in entries[..i] || (e.ServiceEntry? && k == (e.network, e.service))
    {
      SeenOneMore(entries, i, ServiceEntry(k.0, k.1, m.byService[k]));
    }
    forall k | k in m.list
      ensures ListEntry(k.0, k.1, m.list[k]) in entries[..i + 1]
         <==> ListEntry(k.0, k.1, m.list[k]) in entries[..i] || (e.ListEntry? && k == (e.network, e.mark))
    {
      SeenOneMore(entries, i, ListEntry(k.0, k.1, m.list[k]));
    }
  }

  lemma AllCleaned(m: Marks, services: seq<string>, entries: seq<Entry>, now: Marks)
    requires ListsEntries(entries, m) && Remains(m, services, entries, now)
    ensures now == Kept(m, services)
  {
    forall k | k in m.byService
      ensures k in now.byService <==> k.1 in services
    {
      assert k == (k.0, k.1);
    }
    forall k | k in m.list
      ensures k in now.list <==> m.list[k] in services
    {
      assert k == (k.0, k.1);
    }
  }

  // ---------- which marks are returned ----------

  /** Entry `i` is the last one of its service. */
  ghost predicate IsLastEntry(entries: seq<Entry>, i: nat) {
    i < |entries| && forall j :: i < j < |entries| ==> entries[j].service != entries[i].service
  }

  /** The mark is that of the last entry of some service that is not listed. */
  ghost predicate Returned(entries: seq<Entry>, services: seq<string>, f: Mark) {
    exists i: nat :: IsLastEntry(entries, i) && entries[i].service !in services && entries[i].mark == f
  }

  /** The marks of the last entries of services that are not listed. */
  ghost predicate LastMarks(entries: seq<Entry>, services: seq<string>, fwmarks: map<string, Mark>) {
    && (forall i: nat :: IsLastEntry(entries, i) && entries[i].service !in services ==>
          entries[i].service in fwmarks && fwmarks[entries[i].service] == entries[i].mark)
    && (forall s :: s in fwmarks ==>
        s !in services && exists i: nat :: IsLastEntry(entries, i) && entries[i].service == s)
  }

  /** Reading one more entry makes it the last of its service. */
  lemma LastEntryStep(entries: seq<Entry>, i: nat, j: nat)
    requires i < |entries| && j <= i
    ensures IsLastEntry(entries[..i + 1], j)
       <==> j == i || (IsLastEntry(entries[..i], j) && entries[j].service != entries[i].service)
  {
  }

  lemma LastMarksStep(entries: seq<Entry>, i: nat, services: seq<string>, fwmarks: map<string, Mark>)
    requires i < |entries| && LastMarks(entries[..i], services, fwmarks)
    ensures var e := entries[i];
      LastMarks(entries[..i + 1], services, if e.service in services then fwmarks else fwmarks[e.service := e.mark])
  {
    var e, seen, seen' := entries[i], entries[..i], entries[..i + 1];
    var fwmarks' := if e.service in services then fwmarks else fwmarks[e.service := e.mark];
    forall j: nat | IsLastEntry(seen', j) && seen'[j].service !in services
      ensures seen'[j].service in fwmarks' && fwmarks'[seen'[j].service] == seen'[j].mark
    {
      LastEntryStep(entries, i, j);
      assert j < i ==> seen[j] == seen'[j];
    }
    forall s | s in fwmarks'
      ensures s !in services && exists j: nat :: IsLastEntry(seen', j) && seen'[j].service == s
    {
      if s == e.service {
        LastEntryStep(entries, i, i);
      } else {
        var j: nat :| IsLastEntry(seen, j) && seen[j].service == s;
        LastEntryStep(entries, i, j);
      }
    }
  }

  lemma ReturnedIsLast(entries: seq<Entry>, services: seq<string>, fwmarks: map<string, Mark>)
    requires LastMarks(entries, services, fwmarks)
    ensures forall f :: f in fwmarks.Values <==> Returned(entries, services, f)
  {
    forall f | f in fwmarks.Values
      ensures Returned(entries, services, f)
    {
      var s :| s in fwmarks && fwmarks[s] == f;
      var i: nat :| IsLastEntry(entries, i) && entries[i].service == s;
    }
  }

  /** A service that is not listed had this mark, and no other on any network. */
  ghost predicate OnlyMarkOfSome(m: Marks, services: seq<string>, f: Mark) {
    exists n, s :: Holds(m, n, s, f) && s !in services && forall n', f' :: Holds(m, n', s, f') ==> f' == f
  }

  lemma LastEntryOf(entries: seq<Entry>, service: string) returns (i: nat)
    requires exists j :: 0 <= j < |entries| && entries[j].service == service
    ensures IsLastEntry(entries, i) && entries[i].service == service
  {
    i := |entries| - 1;
    while entries[i].service != service
      invariant i < |entries| && forall j :: i < j < |entries| ==> entries[j].service != service
      decreases i
    {
      var j :| 0 <= j < |entries| && entries[j].service == service;
      assert j <= i;
      i := i - 1;
    }
  }

  lemma PresentHolds(m: Marks, e: Entry)
    requires Inverse(m) && Present(m, e)
    ensures Holds(m, e.network, e.service, e.mark)
  {
  }

  lemma OnlyMarkIsReturned(m: Marks, services: seq<string>, entries: seq<Entry>, f: Mark)
    requires Inverse(m) && ListsEntries(entries, m) && OnlyMarkOfSome(m, services, f)
    ensures Returned(entries, services, f)
  {
    var n, s :| Holds(m, n, s, f) && s !in services && forall n', f' :: Holds(m, n', s, f') ==> f' == f;
    assert ServiceEntry(n, s, f) in entries;
    var j :| 0 <= j < |entries| && entries[j] == ServiceEntry(n, s, f);
    assert entries[j].service == s;
    var i := LastEntryOf(entries, s);
    PresentHolds(m, entries[i]);
  }

  function AllEntries(m: Marks): set<Entry> {
    (set k | k in m.byService :: ServiceEntry(k.0, k.1, m.byService[k]))
    + (set k | k in m.list :: ListEntry(k.0, k.1, m.list[k]))
  }

  lemma EntriesListed(m: Marks, entries: seq<Entry>)
    requires forall e :: e in entries <==> e in AllEntries(m)
    ensures ListsEntries(entries, m)
  {
    forall n, s | (n, s) in m.byService
      ensures ServiceEntry(n, s, m.byService[(n, s)]) in entries
    {
      var k := (n, s);
      assert k in m.byService && ServiceEntry(k.0, k.1, m.byService[k]) in AllEntries(m);
    }
    forall n, f | (n, f) in m.list
      ensures ListEntry(n, f, m.list[(n, f)]) in entries
    {
      var k := (n, f);
      assert k in m.list && ListEntry(k.0, k.1, m.list[k]) in AllEntries(m);
    }
    forall i | 0 <= i < |entries|
      ensures Present(m, entries[i])
    {
      assert entries[i] in AllEntries(m);
    }
  }

  /** An order that has the entries with mark `f` first. */
  lemma WithMarkFirst(m: Marks, f: Mark) returns (entries: seq<Entry>, n: nat)
    ensures ListsEntries(entries, m) && n <= |entries|
    ensures forall i :: 0 <= i < |entries| ==> (entries[i].mark == f <==> i < n)
  {
    entries, n := [], 0;
    var rest := AllEntries(m);
    while rest != {}
      invariant rest <= AllEntries(m) && n <= |entries|
      invariant forall e :: e in entries <==> e in AllEntries(m) && e !in rest
      invariant forall i :: 0 <= i < |entries| ==> (entries[i].mark == f <==> i < n)
    {
      var e :| e in rest;
      rest := rest - {e};
      if e.mark == f {
        entries, n := [e] + entries, n + 1;
      } else {
        entries := entries + [e];
      }
    }
    EntriesListed(m, entries);
  }

  lemma ReturnedLateIsOnly(m: Marks, services: seq<string>, entries: seq<Entry>, n: nat, f: Mark)
    requires Inverse(m) && ListsEntries(entries, m) && n <= |entries| && Returned(entries, services, f)
    requires forall i :: 0 <= i < |entries| ==> (entries[i].mark == f <==> i < n)
    ensures OnlyMarkOfSome(m, services, f)
  {
    var i: nat :| IsLastEntry(entries, i) && entries[i].service !in services && entries[i].mark == f;
    var e := entries[i];
    PresentHolds(m, e);
    forall n', f' | Holds(m, n', e.service, f')
      ensures f' == f
    {
      assert ServiceEntry(n', e.service, f') in entries;
      var j :| 0 <= j < |entries| && entries[j] == ServiceEntry(n', e.service, f');
      assert entries[j].service == e.service;
    }
  }

  /** Whatever order etcd lists the entries in, cleaning up returns a mark: exactly if some service that is not listed
      had this mark and no other. */
  lemma AlwaysReturned(m: Marks, services: seq<string>, f: Mark)
    requires Inverse(m)
    ensures (forall entries :: ListsEntries(entries, m) ==> Returned(entries, services, f))
      <==> OnlyMarkOfSome(m, services, f)
  {
    if OnlyMarkOfSome(m, services, f) {
      forall entries | ListsEntries(entries, m)
        ensures Returned(entries, services, f)
      {
        OnlyMarkIsReturned(m, services, entries, f);
      }
    } else {
      var entries, n := WithMarkFirst(m, f);
      if Returned(entries, services, f) {
        ReturnedLateIsOnly(m, services, entries, n, f);
      }
    }
  }

  /** A service with mark 1 on one network and 2 on another. */
  function TwoMarks(service: string): Marks {
    Marks(map[("web", service) := 1, ("internal", service) := 2],
          map[("web", 1) := service, ("internal", 2) := service])
  }

  lemma TwoMarksHold(service: string)
    ensures Inverse(TwoMarks(service)) && Holds(TwoMarks(service), "internal", service, 2)
    ensures Kept(TwoMarks(service), []) == Marks(map[], map[])
  {
    assert "web"[0] != "internal"[0];
  }

  /** Its entries in the order of their keys. */
  function TwoMarksEntries(service: string): seq<Entry> {
    [ServiceEntry("internal", service, 2), ListEntry("internal", 2, service),
     ServiceEntry("web", service, 1), ListEntry("web", 1, service)]
  }

  lemma TwoMarksListed(service: string)
    ensures ListsEntries(TwoMarksEntries(service), TwoMarks(service))
  {
    var entries := TwoMarksEntries(service);
    assert "web"[0] != "internal"[0];
    assert ServiceEntry("internal", service, 2) == entries[0] && ListEntry("internal", 2, service) == entries[1];
    assert ServiceEntry("web", service, 1) == entries[2] && ListEntry("web", 1, service) == entries[3];
  }

  /** Cleaning up a service with two marks removes both and returns one: mark 2 is not among those returned. */
  lemma TwoMarksOneReturned(service: string)
    ensures var m, entries := TwoMarks(service), TwoMarksEntries(service);
      && Inverse(m) && ListsEntries(entries, m) && Holds(m, "internal", service, 2)
        && Kept(m, []) == Marks(map[], map[])
      && Returned(entries, [], 1) && !Returned(entries, [], 2)
  {
    TwoMarksHold(service);
    TwoMarksListed(service);
    assert IsLastEntry(TwoMarksEntries(service), 3);
  }

  // ---------- every run ----------

  /** What a completed call did. */
  datatype Call = Assign(network: string, service: string, mark: Mark)
    | Free(network: string, service: string, mark: Mark)
                | Clean(services: seq<string>) | Nothing

  ghost predicate Moves(m: Marks, call: Call, m': Marks) {
    match call
    case Assign(n, s, f) => (n, s) !in m.byService && f !in NetworkMarks(m, n) && m' == Assigned(m, n, s, f)
    case Free(n, s, f) => Holds(m, n, s, f) && m' == Freed(m, n, s, f)
    case Clean(services) => m' == Kept(m, services)
    case Nothing => m' == m
  }

  ghost predicate MarksRun(states: seq<Marks>, calls: seq<Call>) {
    && |states| == |calls| + 1 && states[0] == Marks(map[], map[])
    && forall k :: 0 <= k < |calls| ==> Moves(states[k], calls[k], states[k + 1])
  }

  /** In every run the two maps stay inverses, so that no two services of a network ever share a mark. */
  lemma {:induction false} RunKeepsInverse(states: seq<Marks>, calls: seq<Call>, k: nat)
    requires MarksRun(states, calls) && k <= |calls|
    ensures Inverse(states[k])
  {
    if k > 0 {
      RunKeepsInverse(states, calls, k - 1);
      assert Moves(states[k - 1], calls[k - 1], states[k]);
      match calls[k - 1]
      case Assign(n, s, f) =>
        NewIsFree(states[k - 1], n, f);
        AssignKeepsInverse(states[k - 1], n, s, f);
      case Free(n, s, f) => FreeKeepsInverse(states[k - 1], n, s, f);
      case Clean(services) => KeptKeepsInverse(states[k - 1], services);
      case Nothing =>
    }
  }

  ghost predicate Ends(call: Call, network: string, service: string) {
    || (call.Free? && call.network == network && call.service == service)
    || (call.Clean? && service !in call.services)
  }

  /** In every run a service keeps its mark on a network until it is released or cleaned up. */
  lemma {:induction false} MarkStays(states: seq<Marks>, calls: seq<Call>, i: nat, j: nat, network: string,
                                     service: string, mark: Mark)
    requires MarksRun(states, calls) && i <= j <= |calls| && Holds(states[i], network, service, mark)
    requires forall k :: i <= k < j ==> !Ends(calls[k], network, service)
    ensures Holds(states[j], network, service, mark)
  {
    if i < j {
      MarkStays(states, calls, i, j - 1, network, service, mark);
      RunKeepsInverse(states, calls, j - 1);
      assert Moves(states[j - 1], calls[j - 1], states[j]);
    }
  }

  /** An assignment is recorded, and a release removes it. */
  lemma CallIsRecorded(states: seq<Marks>, calls: seq<Call>, k: nat)
    requires MarksRun(states, calls) && k < |calls|
    ensures match calls[k]
            case Assign(n, s, f) => Holds(states[k + 1], n, s, f)
            case Free(n, s, f) => (n, s) !in states[k + 1].byService && (n, f) !in states[k + 1].list
            case _ => true
  {
    RunKeepsInverse(states, calls, k);
    assert Moves(states[k], calls[k], states[k + 1]);
    match calls[k]
    case Assign(n, s, f) =>
      NewIsFree(states[k], n, f);
      AssignHolds(states[k], n, s, f);
    case Free(n, s, f) => FreeDrops(states[k], n, s, f);
    case _ =>
  }

  /** Some call of the run assigned the mark to the service, and none has ended that since. */
  ghost predicate AssignedSince(calls: seq<Call>, k: nat, network: string, service: string, mark: Mark) {
    exists i :: 0 <= i < k <= |calls| && calls[i] == Assign(network, service, mark)
      && forall j :: i < j < k ==> !Ends(calls[j], network, service)
  }

  /** In every run a service holds exactly the marks that were assigned to it and neither released nor cleaned up
      since. */
  lemma {:induction false} HoldsWhatWasAssigned(states: seq<Marks>, calls: seq<Call>, k: nat, network: string,
                                                service: string, mark: Mark)
    requires MarksRun(states, calls) && k <= |calls|
    ensures Holds(states[k], network, service, mark) <==> AssignedSince(calls, k, network, service, mark)
  {
    if AssignedSince(calls, k, network, service, mark) {
      var i :| 0 <= i < k && calls[i] == Assign(network, service, mark)
        && forall j :: i < j < k ==> !Ends(calls[j], network, service);
      CallIsRecorded(states, calls, i);
      MarkStays(states, calls, i + 1, k, network, service, mark);
    }
    if k > 0 && Holds(states[k], network, service, mark) {
      HoldsWhatWasAssigned(states, calls, k - 1, network, service, mark);
      HeldBefore(states, calls, k, network, service, mark);
      if AssignedSince(calls, k - 1, network, service, mark) {
        var i :| 0 <= i < k - 1 && calls[i] == Assign(network, service, mark)
          && forall j :: i < j < k - 1 ==> !Ends(calls[j], network, service);
        assert AssignedSince(calls, k, network, service, mark);
      }
    }
  }

  lemma HeldBefore(states: seq<Marks>, calls: seq<Call>, k: nat, network: string, service: string, mark: Mark)
    requires MarksRun(states, calls) && 0 < k <= |calls| && Holds(states[k], network, service, mark)
    ensures calls[k - 1] == Assign(network, service, mark)
      || (Holds(states[k - 1], network, service, mark) && !Ends(calls[k - 1], network, service))
  {
    RunKeepsInverse(states, calls, k - 1);
    assert Moves(states[k - 1], calls[k - 1], states[k]);
    match calls[k - 1]
    case Assign(n, s, f) =>
      NewIsFree(states[k - 1], n, f);
      AssignHolds(states[k - 1], n, s, f);
    case Free(n, s, f) => FreeDrops(states[k - 1], n, s, f);
    case _ =>
  }
}
