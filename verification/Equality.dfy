/** The comparisons that `Equals` methods are made of: maps that may be nil, lists, addresses. */
module Equality {
  import opened Basics
  import opened Listening

  type NilableMap<V> = Option<map<string, V>>

  /** Both nil, or the same keys with equal values. A nil map differs from an empty one. */
  ghost predicate SameMaps<V>(a: NilableMap<V>, b: NilableMap<V>, eq: (V, V) -> bool) {
    match (a, b)
    case (None, None) => true
    case (Some(m), Some(n)) => m.Keys == n.Keys && forall k :: k in m && k in n ==> eq(m[k], n[k])
    case _ => false
  }

  lemma EqualSizes<T>(a: set<T>, b: set<T>)
    requires a <= b && |a| == |b|
    ensures a == b
  {
    assert b == a + (b - a) && |b| == |a| + |b - a|;
  }

  /** Goes through one map only; that the other has no further keys follows from the sizes. */
  method CompareMaps<V>(a: NilableMap<V>, b: NilableMap<V>, eq: (V, V) -> bool) returns (same: bool)
    ensures same <==> SameMaps(a, b, eq)
  {
    if a.None? && b.None? {
      return true;
    }
    if a.None? || b.None? {
      return false;
    }
    if |a.value| != |b.value| {
      return false;
    }
    var rest := a.value.Keys;
    while rest != {}
      invariant rest <= a.value.Keys
      invariant forall k :: k in a.value.Keys - rest ==> k in b.value && eq(a.value[k], b.value[k])
    {
      var k :| k in rest;
      rest := rest - {k};
      if k !in b.value || !eq(a.value[k], b.value[k]) {
        return false;
      }
    }
    EqualSizes(a.value.Keys, b.value.Keys);
    same := true;
  }

  method CompareStringSlices(a: seq<string>, b: seq<string>) returns (same: bool)
    ensures same <==> a == b
  {
    if |a| != |b| {
      return false;
    }
    for i := 0 to |a|
      invariant a[..i] == b[..i]
    {
      if a[i] != b[i] {
        return false;
      }
    }
    same := true;
  }

  /** Comparing maps by an equivalence of their values is an equivalence, as handlers and stores rely on. */
  lemma SameMapsEquivalence<V(!new)>(eq: (V, V) -> bool)
    requires Equivalence(eq)
    ensures forall a: NilableMap<V> :: SameMaps(a, a, eq)
    ensures forall a: NilableMap<V>, b: NilableMap<V> :: SameMaps(a, b, eq) ==> SameMaps(b, a, eq)
    ensures forall a: NilableMap<V>, b: NilableMap<V>, c: NilableMap<V> ::
      SameMaps(a, b, eq) && SameMaps(b, c, eq) ==> SameMaps(a, c, eq)
  {
    forall a: NilableMap<V>, b: NilableMap<V>, c: NilableMap<V> | SameMaps(a, b, eq) && SameMaps(b, c, eq)
      ensures SameMaps(a, c, eq)
    {
      SameMapsTransitive(a, b, c, eq);
    }
  }

  lemma SameMapsTransitive<V(!new)>(a: NilableMap<V>, b: NilableMap<V>, c: NilableMap<V>, eq: (V, V) -> bool)
    requires Equivalence(eq) && SameMaps(a, b, eq) && SameMaps(b, c, eq)
    ensures SameMaps(a, c, eq)
  {
    if a.Some? {
      forall k | k in a.value
        ensures eq(a.value[k], c.value[k])
      {
        assert eq(a.value[k], b.value[k]) && eq(b.value[k], c.value[k]);
      }
    }
  }

  // ---------- addresses ----------

  type Bytes = seq<bv8>

  const V4_IN_V6: Bytes := [0, 0, 0, 0, 0, 0, 0, 0, 0, 0, 0xFF, 0xFF]

  /** `net.IP.Equal`: an IPv4 address equals its IPv6 form. */
  predicate IPEqual(a: Bytes, b: Bytes) {
    if |a| == |b| then a == b
    else if |a| == 4 && |b| == 16 then b[..12] == V4_IN_V6 && a == b[12..]
    else if |a| == 16 && |b| == 4 then a[..12] == V4_IN_V6 && a[12..] == b
    else false
  }

  function To16(a: Bytes): Bytes {
    if |a| == 4 then V4_IN_V6 + a else a
  }

  /** Two addresses are equal when their 16-byte forms are. */
  lemma IPEqualIsSameForm(a: Bytes, b: Bytes)
    ensures IPEqual(a, b) <==> To16(a) == To16(b)
  {
    if |a| == 4 && |b| == 16 {
      assert b == b[..12] + b[12..];
      assert (V4_IN_V6 + a)[..12] == V4_IN_V6 && (V4_IN_V6 + a)[12..] == a;
    } else if |a| == 16 && |b| == 4 {
      assert a == a[..12] + a[12..];
      assert (V4_IN_V6 + b)[..12] == V4_IN_V6 && (V4_IN_V6 + b)[12..] == b;
    } else if |a| == 4 && |b| == 4 {
      assert (V4_IN_V6 + a)[12..] == a && (V4_IN_V6 + b)[12..] == b;
    }
  }

  lemma IPEqualEquivalence()
    ensures Equivalence(IPEqual)
  {
    forall a: Bytes, b: Bytes
      ensures IPEqual(a, b) <==> To16(a) == To16(b)
    {
      IPEqualIsSameForm(a, b);
    }
  }
}
