/** Notions that every part of the model uses. */
module Basics {

  datatype Option<T> = None | Some(value: T)

  datatype Result<T> = Ok(value: T) | Err

  /** How a request to etcd may go: answered, or an error before or after the transaction committed. */
  datatype Fault = Answered | RequestLost | AnswerLost

  function Get<K, V>(m: map<K, V>, k: K): Option<V> {
    if k in m then Some(m[k]) else None
  }

  lemma SameContent<K(!new), V>(a: map<K, V>, b: map<K, V>)
    requires forall k :: Get(a, k) == Get(b, k)
    ensures a == b
  {
    forall k
      ensures k in a <==> k in b
      ensures k in a ==> a[k] == b[k]
    {
      assert Get(a, k) == Get(b, k);
    }
  }

  ghost predicate NoRepeats<T>(s: seq<T>) {
    forall i, j :: 0 <= i < j < |s| ==> s[i] != s[j]
  }

  /** A listing of the keys and values of a map, in any order. */
  ghost predicate Lists<K(!new), V>(kvs: seq<(K, V)>, m: map<K, V>) {
    && (forall i :: 0 <= i < |kvs| ==> kvs[i].0 in m && m[kvs[i].0] == kvs[i].1)
    && (forall k :: k in m ==> (k, m[k]) in kvs)
  }

  function FirstOr<T>(xs: seq<T>, default_: T): T {
    if xs == [] then default_ else xs[0]
  }

  function Rest<T>(xs: seq<T>): seq<T> {
    if xs == [] then [] else xs[1..]
  }
}
