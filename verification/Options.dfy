// Go's nil pointers and absent map entries.
module Options {
  datatype Option<+T> = None | Some(value: T)

  function Get<K, V>(m: map<K, V>, k: K): Option<V> {
    if k in m then Some(m[k]) else None
  }

  // Bind k to v, or unbind it when v is None.
  function Put<K, V>(m: map<K, V>, k: K, v: Option<V>): map<K, V> {
    match v
    case Some(x) => m[k := x]
    case None => m - {k}
  }

  function Elements<T>(l: seq<T>): (s: set<T>)
    ensures |s| <= |l|
    ensures forall i :: 0 <= i < |l| ==> l[i] in s
  {
    if l == [] then {} else {l[0]} + Elements(l[1..])
  }

  lemma PutElsewhere<K, V>(m: map<K, V>, k: K, j: K, v: Option<V>)
    ensures j != k ==> (j in Put(m, k, v) <==> j in m)
  {
  }

  // Updating the half of a disjoint union that owns the key.
  lemma UnionPut<K, V>(a: map<K, V>, b: map<K, V>, k: K, v: Option<V>)
    ensures k !in b ==> Put(a, k, v) + b == Put(a + b, k, v)
    ensures k !in a ==> a + Put(b, k, v) == Put(a + b, k, v)
  {
  }

  lemma SameByGet<K, V>(m: map<K, V>, n: map<K, V>)
    requires forall k :: Get(m, k) == Get(n, k)
    ensures m == n
  {
    assert forall k :: (k in m <==> Get(m, k).Some?) && (k in n <==> Get(n, k).Some?);
    assert forall k :: k in m ==> Get(m, k) == Some(m[k]) && Get(n, k) == Some(n[k]);
  }
}
