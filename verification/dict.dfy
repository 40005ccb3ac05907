/** An insertion-ordered dictionary: the behaviour of .NET's Dictionary<K,V>
    when nothing is ever removed (it enumerates in insertion order) and of
    OrderedDictionary. Entries are kept as a sequence of key/value pairs. */
module Dict {
  import opened Wrappers

  type Dict<K, V> = seq<(K, V)>

  /** Dictionary.Add / OrderedDictionary.Add throw ArgumentException on a key already present. */
  datatype DuplicateKey<K> = DuplicateKey(key: K)

  /** The keys in enumeration order. */
  function Keys<K, V>(d: Dict<K, V>): (ks: seq<K>)
    ensures |ks| == |d|
    ensures forall i :: 0 <= i < |d| ==> ks[i] == d[i].0
  {
    if |d| == 0 then [] else Keys(d[..|d| - 1]) + [d[|d| - 1].0]
  }

  /** The values in enumeration order. */
  function Values<K, V>(d: Dict<K, V>): (vs: seq<V>)
    ensures |vs| == |d|
    ensures forall i :: 0 <= i < |d| ==> vs[i] == d[i].1
  {
    if |d| == 0 then [] else Values(d[..|d| - 1]) + [d[|d| - 1].1]
  }

  /** No key occurs twice: what every real dictionary satisfies. */
  predicate Wf<K(==), V>(d: Dict<K, V>)
  {
    forall i, j :: 0 <= i < j < |d| ==> d[i].0 != d[j].0
  }

  predicate HasKey<K(==), V>(d: Dict<K, V>, k: K)
  {
    exists i :: 0 <= i < |d| && d[i].0 == k
  }

  /** The position of the first entry with key `k`. */
  function Find<K(==), V>(d: Dict<K, V>, k: K): (r: Option<nat>)
    ensures r.Some? ==> r.value < |d| && d[r.value].0 == k
    ensures r.Some? ==> forall j :: 0 <= j < r.value ==> d[j].0 != k
    ensures r.None? <==> !HasKey(d, k)
  {
    if |d| == 0 then None
    else if d[0].0 == k then Some(0)
    else
      match Find(d[1..], k)
      case None => None
      case Some(i) => Some(i + 1)
  }

  /** TryGetValue / the indexer's read. */
  function Get<K(==), V>(d: Dict<K, V>, k: K): (r: Option<V>)
    ensures r.Some? <==> HasKey(d, k)
    ensures r.Some? ==> exists i :: 0 <= i < |d| && d[i] == (k, r.value)
  {
    match Find(d, k)
    case None => None
    case Some(i) => Some(d[i].1)
  }

  /** Appending an entry for an absent key: found at the end, other lookups unchanged. */
  lemma AppendProps<K, V>(d: Dict<K, V>, k: K, v: V)
    requires !HasKey(d, k)
    ensures Get(d + [(k, v)], k) == Some(v)
    ensures forall k' :: k' != k ==> Get(d + [(k, v)], k') == Get(d, k')
    ensures Keys(d + [(k, v)]) == Keys(d) + [k]
    ensures Wf(d) ==> Wf(d + [(k, v)])
  {
    var r := d + [(k, v)];
    forall k' | k' != k ensures Find(r, k') == Find(d, k') {
      FindAppend(d, k', (k, v));
    }
    FindAppend(d, k, (k, v));
    assert Keys(r) == Keys(d) + [k];
  }

  /** Replacing the value of the first entry with key `k`: other lookups and the keys unchanged. */
  lemma ReplaceProps<K, V>(d: Dict<K, V>, i: nat, k: K, v: V)
    requires Find(d, k) == Some(i)
    ensures Get(d[i := (k, v)], k) == Some(v)
    ensures forall k' :: k' != k ==> Get(d[i := (k, v)], k') == Get(d, k')
    ensures Keys(d[i := (k, v)]) == Keys(d)
    ensures Wf(d) ==> Wf(d[i := (k, v)])
  {
    var r := d[i := (k, v)];
    forall k' | k' != k ensures Find(r, k') == Find(d, k') {
      FindReplace(d, i, k', v);
    }
    FindReplace(d, i, k, v);
    assert Keys(r) == Keys(d);
  }

  /** The indexer's write `d[k] = v`: replaces the value in place when `k`
      is present, otherwise appends a new entry at the end. */
  function Set<K(==,!new), V>(d: Dict<K, V>, k: K, v: V): (r: Dict<K, V>)
    ensures Get(r, k) == Some(v)
    ensures forall k' :: k' != k ==> Get(r, k') == Get(d, k')
    ensures HasKey(d, k) ==> Keys(r) == Keys(d)
    ensures !HasKey(d, k) ==> Keys(r) == Keys(d) + [k]
    ensures Wf(d) ==> Wf(r)
  {
    match Find(d, k)
    case None =>
      AppendProps(d, k, v);
      d + [(k, v)]
    case Some(i) =>
      ReplaceProps(d, i, k, v);
      d[i := (k, v)]
  }

  /** Writing an absent key appends it. */
  lemma SetAbsent<K(!new), V>(d: Dict<K, V>, k: K, v: V)
    requires !HasKey(d, k)
    ensures Set(d, k, v) == d + [(k, v)]
  {
  }

  /** Three writes of distinct keys into an empty dictionary append three entries in order. */
  lemma SetThreeAbsent<K(!new), V>(k1: K, k2: K, k3: K, v1: V, v2: V, v3: V)
    requires k1 != k2 && k2 != k3 && k1 != k3
    ensures Set(Set(Set([], k1, v1), k2, v2), k3, v3) == [(k1, v1), (k2, v2), (k3, v3)]
  {
    var d1 := [(k1, v1)];
    SetAbsent([], k1, v1);
    assert [] + d1 == d1;
    assert !HasKey(d1, k2);
    SetAbsent(d1, k2, v2);
    var d2 := d1 + [(k2, v2)];
    assert !HasKey(d2, k3) by {
      assert d2[0].0 == k1 && d2[1].0 == k2;
    }
    SetAbsent(d2, k3, v3);
  }

  /** In a dictionary without duplicate keys each entry's value is found under its key. */
  lemma WfGet<K, V>(d: Dict<K, V>, i: nat)
    requires Wf(d) && i < |d|
    ensures Get(d, d[i].0) == Some(d[i].1)
  {
    WfFind(d, i);
  }

  /** OrderedDictionary.Add / Dictionary.Add: a new key goes at the end; a present key is an error. */
  function Add<K(==), V>(d: Dict<K, V>, k: K, v: V): (r: Result<Dict<K, V>, DuplicateKey<K>>)
    ensures r.Err? <==> HasKey(d, k)
    ensures r.Ok? ==> r.value == d + [(k, v)]
    ensures r.Ok? && Wf(d) ==> Wf(r.value)
  {
    if Find(d, k).Some? then Err(DuplicateKey(k)) else Ok(d + [(k, v)])
  }

  lemma {:induction false} FindAppend<K, V>(d: Dict<K, V>, k: K, e: (K, V))
    ensures Find(d + [e], k) == (if HasKey(d, k) then Find(d, k) else if e.0 == k then Some(|d|) else None)
  {
    if |d| > 0 && d[0].0 != k {
      assert (d + [e])[1..] == d[1..] + [e];
      FindAppend(d[1..], k, e);
      assert HasKey(d, k) <==> HasKey(d[1..], k) by {
        if HasKey(d, k) {
          var i :| 0 <= i < |d| && d[i].0 == k;
          assert d[1..][i - 1].0 == k;
        }
        if HasKey(d[1..], k) {
          var i :| 0 <= i < |d[1..]| && d[1..][i].0 == k;
          assert d[i + 1].0 == k;
        }
      }
    }
  }

  lemma FindReplace<K, V>(d: Dict<K, V>, i: nat, k: K, v: V)
    requires i < |d| && Find(d, d[i].0) == Some(i)
    ensures Find(d[i := (d[i].0, v)], k) == Find(d, k)
  {
    var r := d[i := (d[i].0, v)];
    assert forall j :: 0 <= j < |d| ==> r[j].0 == d[j].0;
    assert HasKey(r, k) <==> HasKey(d, k);
    if HasKey(d, k) {
      var a := Find(d, k).value;
      var b := Find(r, k).value;
      assert a == b;
    }
  }

  /** Lookups depend on the keys alone. */
  lemma {:induction false} FindSameKeys<K, V, W>(a: Dict<K, V>, b: Dict<K, W>, k: K)
    requires Keys(a) == Keys(b)
    ensures Find(a, k) == Find(b, k)
  {
    assert |a| == |b|;
    if |a| > 0 {
      assert a[0].0 == Keys(a)[0] == Keys(b)[0] == b[0].0;
      assert Keys(a[1..]) == Keys(a)[1..] == Keys(b)[1..] == Keys(b[1..]);
      FindSameKeys(a[1..], b[1..], k);
    }
  }

  /** Applies `f` to every value, keeping keys and order. */
  function MapValues<K, V>(d: Dict<K, V>, f: V -> V): (r: Dict<K, V>)
    ensures |r| == |d| && Keys(r) == Keys(d)
    ensures forall i :: 0 <= i < |d| ==> r[i] == (d[i].0, f(d[i].1))
  {
    if |d| == 0 then [] else [(d[0].0, f(d[0].1))] + MapValues(d[1..], f)
  }

  /** The value under each key is mapped; absent keys stay absent. */
  lemma MapValuesGet<K, V>(d: Dict<K, V>, f: V -> V, k: K)
    ensures Get(MapValues(d, f), k) == (match Get(d, k) case None => None case Some(v) => Some(f(v)))
  {
    FindSameKeys(MapValues(d, f), d, k);
  }

  /** Wf depends on the keys alone. */
  lemma WfSameKeys<K, V, W>(a: Dict<K, V>, b: Dict<K, W>)
    requires Keys(a) == Keys(b) && Wf(a)
    ensures Wf(b)
  {
    forall i, j | 0 <= i < j < |b| ensures b[i].0 != b[j].0 {
      assert a[i].0 == Keys(a)[i] && a[j].0 == Keys(a)[j];
    }
  }

  /** In a dictionary without duplicate keys an entry is found at its own position. */
  lemma WfFind<K, V>(d: Dict<K, V>, i: nat)
    requires Wf(d) && i < |d|
    ensures Find(d, d[i].0) == Some(i)
  {
  }
}
