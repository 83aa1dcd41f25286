/** The map that goroutines share: one call at a time, and any interleaving of GetOrAdd. */
module ConcurrentMaps {
  import opened Basics

  // ---------- one call at a time ----------

  class ConcurrentMap<K(==), V> {
    var m: map<K, V>

    constructor ()
      ensures m == map[]
    {
      m := map[];
    }

    method Set(key: K, value: V)
      modifies this
      ensures m == old(m)[key := value]
    {
      m := m[key := value];
    }

    method TryRemove(key: K) returns (value: Option<V>)
      modifies this
      ensures value == Get(old(m), key) && m == old(m) - {key}
    {
      value := Get(m, key);
      if value.Some? {
        m := m - {key};
      }
    }

    /** The factory runs only if the key is absent, and may fail. */
    method GetOrAdd(key: K, factory: () -> Option<V>) returns (value: Option<V>, wasAdded: bool)
      modifies this
      ensures key in old(m) ==> value == Some(old(m)[key]) && !wasAdded && m == old(m)
      ensures key !in old(m) ==>
        && value == factory() && wasAdded == value.Some?
        && m == if value.Some? then old(m)[key := value.value] else old(m)
    {
      if key in m {
        return Some(m[key]), false;
      }
      value := factory();
      wasAdded := value.Some?;
      if wasAdded {
        m := m[key := value.value];
      }
    }

    method AddOrUpdate(key: K, addValue: V, updateFunc: V -> V) returns (value: V, wasUpdated: bool)
      modifies this
      ensures wasUpdated <==> key in old(m)
      ensures value == (if key in old(m) then updateFunc(old(m)[key]) else addValue) && m == old(m)[key := value]
    {
      wasUpdated := key in m;
      value := if key in m then updateFunc(m[key]) else addValue;
      m := m[key := value];
    }
  }

  // ---------- any interleaving ----------

  /** Where a caller of GetOrAdd is: before the read, between the two locks, or done. A done caller without a value
      saw its factory fail. */
  datatype Caller<V> = Calling | Missed | Done(value: Option<V>, wasAdded: bool)

  /** What the key holds, the callers, and the values that successful factory calls made. */
  datatype Race<V> = Race(held: Option<V>, callers: map<nat, Caller<V>>, made: seq<V>)

  datatype Step<V> =
    | Enter(i: nat)
    | Read(i: nat)                        // under the read lock
    | Write(i: nat, made: Option<V>)      // under the write lock; the factory's result, should it run

  predicate Enabled<V>(r: Race<V>, step: Step<V>) {
    match step
    case Enter(i) => i !in r.callers
    case Read(i) => i in r.callers && r.callers[i].Calling?
    case Write(i, _) => i in r.callers && r.callers[i].Missed?
  }

  function Apply<V>(r: Race<V>, step: Step<V>): Race<V>
    requires Enabled(r, step)
  {
    match step
    case Enter(i) => r.(callers := r.callers[i := Calling])
    case Read(i) => r.(callers := r.callers[i := if r.held.Some? then Done(r.held, false) else Missed])
    case Write(i, made) =>
      if r.held.Some? then r.(callers := r.callers[i := Done(r.held, false)])
      else if made.None? then r.(callers := r.callers[i := Done(None, false)])
      else Race(made, r.callers[i := Done(made, true)], r.made + [made.value])
  }

  ghost predicate Run<V>(races: seq<Race<V>>, steps: seq<Step<V>>) {
    && |races| == |steps| + 1 && races[0].callers == map[] && races[0].made == []
    && forall k :: 0 <= k < |steps| ==> Enabled(races[k], steps[k]) && races[k + 1] == Apply(races[k], steps[k])
  }

  predicate Succeeded<V>(r: Race<V>, i: nat) {
    i in r.callers && r.callers[i].Done? && r.callers[i].value.Some?
  }

  predicate AddedBy<V>(r: Race<V>, i: nat) {
    i in r.callers && r.callers[i].Done? && r.callers[i].wasAdded
  }

  /** Every successful caller has the value held; a value made is the value held, and one caller added it. */
  ghost predicate Settled<V>(start: Option<V>, r: Race<V>) {
    && (start.Some? ==> r.held == start && r.made == [])
    && (forall i :: Succeeded(r, i) ==> r.callers[i].value == r.held)
    && (forall i :: AddedBy(r, i) ==> Succeeded(r, i) && r.made != [])
    && (r.made != [] ==> |r.made| == 1 && r.held == Some(r.made[0]) && exists i :: AddedBy(r, i))
    && (forall i, j :: AddedBy(r, i) && AddedBy(r, j) ==> i == j)
    && (r.made == [] ==> r.held == start)
  }

  lemma StepSettles<V>(start: Option<V>, r: Race<V>, step: Step<V>)
    requires Settled(start, r) && Enabled(r, step)
    ensures Settled(start, Apply(r, step))
  {
    var r' := Apply(r, step);
    forall j | j != step.i
      ensures AddedBy(r', j) == AddedBy(r, j) && Succeeded(r', j) == Succeeded(r, j)
    {
    }
    if r.made != [] {
      var j :| AddedBy(r, j);
      assert j != step.i;
      assert AddedBy(r', j);
    } else if r'.made != [] {
      assert AddedBy(r', step.i);
    }
  }

  lemma {:induction false} RunSettles<V>(races: seq<Race<V>>, steps: seq<Step<V>>, k: nat)
    requires Run(races, steps) && k <= |steps|
    ensures Settled(races[0].held, races[k])
  {
    if k > 0 {
      RunSettles(races, steps, k - 1);
      StepSettles(races[0].held, races[k - 1], steps[k - 1]);
    }
  }

  /** In every interleaving of GetOrAdd calls on one key that nobody removes: at most one factory call succeeds; all
      successful callers return the same value; if the key was absent and anybody succeeded, exactly one caller
      reports the addition, and if it was present nobody does. */
  lemma OneAddition<V>(races: seq<Race<V>>, steps: seq<Step<V>>, k: nat, i: nat, j: nat)
    requires Run(races, steps) && k <= |steps|
    requires Succeeded(races[k], i) && Succeeded(races[k], j)
    ensures |races[k].made| <= 1
    ensures races[k].callers[i].value == races[k].callers[j].value == races[k].held
    ensures (exists a :: AddedBy(races[k], a)) <==> races[0].held.None?
    ensures forall a, b :: AddedBy(races[k], a) && AddedBy(races[k], b) ==> a == b
  {
    RunSettles(races, steps, k);
    var r := races[k];
    if races[0].held.None? {
      assert r.made != [];
    }
  }

  predicate Failed<V>(r: Race<V>, i: nat) {
    i in r.callers && r.callers[i].Done? && r.callers[i].value.None?
  }

  /** The caller found the key absent under the write lock and ran its factory, with this result. */
  ghost predicate RanFactory<V>(races: seq<Race<V>>, steps: seq<Step<V>>, k: nat, i: nat, made: Option<V>) {
    exists j :: 0 <= j < k <= |steps| < |races| && races[j].held.None? && steps[j] == Write(i, made)
  }

  /** In every interleaving a caller fails exactly if its own factory ran and failed, and reports an addition exactly if
      its own factory ran and made the value it returns. */
  lemma {:induction false} OwnFactoryDecides<V>(races: seq<Race<V>>, steps: seq<Step<V>>, k: nat, i: nat)
    requires Run(races, steps) && k <= |steps|
    ensures Failed(races[k], i) <==> RanFactory(races, steps, k, i, None)
    ensures forall v :: AddedBy(races[k], i) && races[k].callers[i].value == Some(v) <==>
      RanFactory(races, steps, k, i, Some(v))
  {
    if k > 0 {
      OwnFactoryDecides(races, steps, k - 1, i);
      StepDecides(races, steps, k - 1, i);
    }
  }

  lemma StepDecides<V>(races: seq<Race<V>>, steps: seq<Step<V>>, k: nat, i: nat)
    requires Run(races, steps) && k < |steps|
    requires Failed(races[k], i) <==> RanFactory(races, steps, k, i, None)
    requires forall v :: AddedBy(races[k], i) && races[k].callers[i].value == Some(v) <==>
      RanFactory(races, steps, k, i, Some(v))
    ensures Failed(races[k + 1], i) <==> RanFactory(races, steps, k + 1, i, None)
    ensures forall v :: AddedBy(races[k + 1], i) && races[k + 1].callers[i].value == Some(v) <==>
      RanFactory(races, steps, k + 1, i, Some(v))
  {
    var r, step := races[k], steps[k];
    forall made
      ensures RanFactory(races, steps, k + 1, i, made) <==>
        RanFactory(races, steps, k, i, made) || (r.held.None? && step == Write(i, made))
    {
      if r.held.None? && step == Write(i, made) {
        assert races[k].held.None? && steps[k] == Write(i, made);
      }
    }
  }
}
