/** A Python `dict`: a map together with the insertion order of its keys. */
module OrderedDict {
  import opened Seqs
  import opened Wrappers

  datatype Dict<K(==), V> = Dict(keys: seq<K>, m: map<K, V>)

  predicate Valid<K(==), V>(d: Dict<K, V>) {
    Distinct(d.keys) && d.m.Keys == set k | k in d.keys
  }

  function Empty<K(==), V>(): (d: Dict<K, V>)
    ensures Valid(d) && d.keys == []
  {
    Dict([], map[])
  }

  /** `d[k] = v`: a new key goes to the end, an existing key keeps its place. */
  function Put<K(==), V>(d: Dict<K, V>, k: K, v: V): (r: Dict<K, V>)
    requires Valid(d)
    ensures Valid(r)
    ensures r.keys == if k in d.keys then d.keys else d.keys + [k]
    ensures r.m == d.m[k := v]
  {
    Dict(if k in d.m then d.keys else d.keys + [k], d.m[k := v])
  }

  /** `d.get(k)`. */
  function Get<K(==), V>(d: Dict<K, V>, k: K): Option<V> {
    if k in d.m then Some(d.m[k]) else None
  }

  /** `list(d.values())`. */
  function Values<K(==), V>(d: Dict<K, V>): (vs: seq<V>)
    requires Valid(d)
    ensures |vs| == |d.keys|
    ensures forall i :: 0 <= i < |vs| ==> vs[i] == d.m[d.keys[i]]
  {
    seq(|d.keys|, i requires 0 <= i < |d.keys| => d.m[d.keys[i]])
  }

  /** Writing a key twice leaves only the second value. */
  lemma PutTwice<K, V>(d: Dict<K, V>, k: K, a: V, b: V)
    requires Valid(d)
    ensures Put(Put(d, k, a), k, b) == Put(d, k, b)
  {
    assert d.m[k := a][k := b] == d.m[k := b];
  }

  /** The dictionary that maps every key of `ks`, in order of first occurrence, to
      its image under `f`. */
  function DictOf<K(==, !new), V>(ks: seq<K>, f: K --> V): (d: Dict<K, V>)
    requires forall k :: k in ks ==> f.requires(k)
    ensures Valid(d) && d.keys == Dedup(ks)
    ensures forall k :: k in d.m <==> k in ks
  {
    Dict(Dedup(ks), map k | k in ks :: f(k))
  }

  /** `for k in ks: d[k] = f(k)`, starting from an empty dictionary. */
  method PutAll<K(==, !new), V>(ks: seq<K>, f: K --> V) returns (d: Dict<K, V>)
    requires forall k :: k in ks ==> f.requires(k)
    ensures d == DictOf(ks, f)
  {
    d := Empty();
    var i := 0;
    while i < |ks|
      invariant 0 <= i <= |ks|
      invariant PutSoFar(ks, ks[..i], f, d)
    {
      PutStep(ks, ks[..i], ks[i], f, d);
      assert ks[..i + 1] == ks[..i] + [ks[i]];
      d := Put(d, ks[i], f(ks[i]));
      i := i + 1;
    }
    assert ks[..i] == ks;
    PutComplete(ks, f, d);
  }

  /** What `PutAll` has built after the keys `done`. */
  ghost predicate PutSoFar<K(!new), V>(ks: seq<K>, done: seq<K>, f: K --> V, d: Dict<K, V>)
    requires forall k :: k in ks ==> f.requires(k)
  {
    && Valid(d)
    && d.keys == Dedup(done)
    && (forall k :: k in d.m <==> k in done)
    && (forall k :: k in d.m ==> k in ks && d.m[k] == f(k))
  }

  lemma PutStep<K(!new), V>(ks: seq<K>, done: seq<K>, k: K, f: K --> V, d: Dict<K, V>)
    requires forall k :: k in ks ==> f.requires(k)
    requires k in ks && PutSoFar(ks, done, f, d)
    ensures PutSoFar(ks, done + [k], f, Put(d, k, f(k)))
  {
    DedupSnoc(done, k);
    assert forall x :: x in done + [k] <==> x in done || x == k;
  }

  lemma PutComplete<K(!new), V>(ks: seq<K>, f: K --> V, d: Dict<K, V>)
    requires forall k :: k in ks ==> f.requires(k)
    requires PutSoFar(ks, ks, f, d)
    ensures d == DictOf(ks, f)
  {
    assert d.m == (map k | k in ks :: f(k));
  }
}
