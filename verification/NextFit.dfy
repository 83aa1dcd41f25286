/** Picking the next address after the one allocated last. Addresses are numbers below 2^32. */
module NextFit {
  import opened Cidr

  type Address = nat

  // ---------- sorting ----------

  ghost predicate Sorted(s: seq<Address>) {
    forall i, j :: 0 <= i < j < |s| ==> s[i] <= s[j]
  }

  function Insert(s: seq<Address>, x: Address): seq<Address> {
    if s == [] || x <= s[0] then [x] + s else [s[0]] + Insert(s[1..], x)
  }

  /** What `sort.Slice` leaves: the elements in ascending order. */
  function SortIPs(s: seq<Address>): seq<Address> {
    if s == [] then [] else Insert(SortIPs(s[1..]), s[0])
  }

  lemma {:induction false} InsertSorts(s: seq<Address>, x: Address)
    requires Sorted(s)
    ensures Sorted(Insert(s, x))
    ensures forall a :: a in Insert(s, x) <==> a == x || a in s
  {
    if s != [] && s[0] < x {
      InsertSorts(s[1..], x);
      assert s == [s[0]] + s[1..];
      var t := Insert(s[1..], x);
      assert forall j :: 0 <= j < |t| ==> t[j] in t;
    }
  }

  lemma {:induction false} InsertCounts(s: seq<Address>, x: Address)
    ensures multiset(Insert(s, x)) == multiset(s) + multiset{x}
  {
    if s != [] && s[0] < x {
      InsertCounts(s[1..], x);
      assert s == [s[0]] + s[1..];
    }
  }

  lemma {:induction false} SortSorts(s: seq<Address>)
    ensures Sorted(SortIPs(s)) && multiset(SortIPs(s)) == multiset(s)
    ensures forall a :: a in SortIPs(s) <==> a in s
  {
    if s != [] {
      SortSorts(s[1..]);
      InsertSorts(SortIPs(s[1..]), s[0]);
      InsertCounts(SortIPs(s[1..]), s[0]);
      assert s == [s[0]] + s[1..];
    }
  }

  lemma HeadIsLeast(s: seq<Address>, t: seq<Address>)
    requires Sorted(s) && s != [] && multiset(s) == multiset(t)
    ensures t != [] && s[0] <= t[0]
  {
    assert s[0] in multiset(t);
    assert t[0] in multiset(s);
  }

  /** Any sorted permutation is that one, whichever algorithm produced it and whatever order it started from. */
  lemma {:induction false} SortedIsUnique(s: seq<Address>, t: seq<Address>)
    requires Sorted(s) && Sorted(t) && multiset(s) == multiset(t)
    ensures s == t
  {
    if s == [] {
      assert |t| == |multiset(t)|;
    } else {
      HeadIsLeast(s, t);
      HeadIsLeast(t, s);
      assert s == [s[0]] + s[1..] && t == [t[0]] + t[1..];
      assert multiset(s[1..]) == multiset(s) - multiset{s[0]};
      assert multiset(t[1..]) == multiset(t) - multiset{t[0]};
      SortedIsUnique(s[1..], t[1..]);
    }
  }

  // ---------- the most recent allocation ----------

  /** An allocation as far as this choice looks at it. */
  datatype Stamp = Stamp(ip: Address, allocatedAt: int)

  datatype Choice = Chosen(ip: Address) | NothingAvailable

  ghost predicate IsLatestAt(i: int, reservations: seq<Stamp>) {
    0 <= i < |reservations| && forall j :: 0 <= j < |reservations| ==>
      reservations[j].allocatedAt <= reservations[i].allocatedAt
  }

  ghost predicate IsLatest(last: Address, reservations: seq<Stamp>) {
    exists i :: IsLatestAt(i, reservations) && reservations[i].ip == last
  }

  /** Goes through the allocations in whatever order the map yields them; the first of the latest wins. */
  method GetLastReservedIP(reservations: seq<Stamp>) returns (found: bool, ip: Address)
    ensures found <==> reservations != []
    ensures found ==> IsLatest(ip, reservations)
  {
    found, ip := false, 0;
    var latest := 0;
    ghost var at := 0;
    for k := 0 to |reservations|
      invariant found <==> k > 0
      invariant found ==> 0 <= at < k && latest == reservations[at].allocatedAt && ip == reservations[at].ip
      invariant found ==> forall j :: 0 <= j < k ==> reservations[j].allocatedAt <= latest
    {
      if !found || reservations[k].allocatedAt > latest {
        latest, ip, found := reservations[k].allocatedAt, reservations[k].ip, true;
        at := k;
      }
    }
    if found {
      assert IsLatestAt(at, reservations);
    }
  }

  // ---------- circular next fit ----------

  /** How many steps lead from `last` to `a`, going up and wrapping around; to `last` itself it is a full turn. */
  function StepsAfter(last: Address, a: Address): int {
    if a > last then a - last else a + ADDRESSES - last
  }

  /** `ip` is available, and no available address comes before it on the way round from `last`. */
  ghost predicate IsNextAfter(ip: Address, last: Address, available: seq<Address>) {
    ip in available && forall a :: a in available ==> StepsAfter(last, ip) <= StepsAfter(last, a)
  }

  /** What the choice promises. */
  ghost predicate MayFollow(ip: Address, available: seq<Address>, reservations: seq<Stamp>) {
    if reservations == [] then ip in available && forall a :: a in available ==> ip <= a
    else exists last :: IsLatest(last, reservations) && IsNextAfter(ip, last, available)
  }

  method GetNextAvailableIP(availableUnusedIPs: seq<Address>, reservations: seq<Stamp>) returns (choice: Choice)
    requires forall a :: a in availableUnusedIPs ==> a < ADDRESSES
    requires forall i :: 0 <= i < |reservations| ==> reservations[i].ip < ADDRESSES
    ensures choice.NothingAvailable? <==> availableUnusedIPs == []
    ensures choice.Chosen? ==> MayFollow(choice.ip, availableUnusedIPs, reservations)
  {
    if availableUnusedIPs == [] {
      return NothingAvailable;
    }
    var found, lastReserved := GetLastReservedIP(reservations);
    var sorted := SortIPs(availableUnusedIPs);
    SortSorts(availableUnusedIPs);
    assert sorted != [] by { assert availableUnusedIPs[0] in sorted; }
    if !found {
      return Chosen(sorted[0]);
    }
    for k := 0 to |sorted|
      invariant forall j :: 0 <= j < k ==> sorted[j] <= lastReserved
    {
      if sorted[k] > lastReserved {
        FirstAfter(sorted, k, lastReserved, availableUnusedIPs);
        return Chosen(sorted[k]);
      }
    }
    FirstAfter(sorted, 0, lastReserved, availableUnusedIPs);
    choice := Chosen(sorted[0]);
  }

  lemma FirstAfter(sorted: seq<Address>, k: nat, last: Address, available: seq<Address>)
    requires Sorted(sorted) && k < |sorted| && forall a :: a in available <==> a in sorted
    requires forall a :: a in sorted ==> a < ADDRESSES
    requires last < ADDRESSES
    requires forall j :: 0 <= j < k ==> sorted[j] <= last
    requires sorted[k] > last || (k == 0 && forall a :: a in sorted ==> a <= last)
    ensures IsNextAfter(sorted[k], last, available)
  {
  }

  /** The next available address is unique, so the choice does not depend on the order of the list. */
  lemma NextIsUnique(a: Address, b: Address, last: Address, available: seq<Address>)
    requires last < ADDRESSES && forall x :: x in available ==> x < ADDRESSES
    requires IsNextAfter(a, last, available) && IsNextAfter(b, last, available)
    ensures a == b
  {
  }
}
