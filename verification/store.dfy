/** A Python dict with string keys: entries in insertion order, each key at
    most once. Assigning to an existing key keeps its place; a new key goes
    to the end. `AsMap` is the abstraction every operation is checked
    against. */
module Store {

  import opened Wrappers

  type Entries<V> = seq<(string, V)>

  /** No key appears twice. */
  predicate Keyed<V>(s: Entries<V>) {
    forall i, j :: 0 <= i < j < |s| ==> s[i].0 != s[j].0
  }

  function Keys<V>(s: Entries<V>): set<string>
    decreases |s|
  {
    if |s| == 0 then {} else {s[0].0} + Keys(s[1..])
  }

  /** The dict as a finite map. */
  function AsMap<V>(s: Entries<V>): (m: map<string, V>)
    ensures m.Keys == Keys(s)
    decreases |s|
  {
    if |s| == 0 then map[] else AsMap(s[1..])[s[0].0 := s[0].1]
  }

  /** `d.get(k)`. */
  function Find<V>(s: Entries<V>, k: string): (r: Option<V>)
    ensures r.None? <==> k !in Keys(s)
    ensures r.Some? ==> (k, r.value) in s
    decreases |s|
  {
    if |s| == 0 then None
    else if s[0].0 == k then Some(s[0].1)
    else Find(s[1..], k)
  }

  /** `d[k] = v`. */
  function Put<V>(s: Entries<V>, k: string, v: V): (r: Entries<V>)
    ensures Keys(r) == Keys(s) + {k}
    ensures |r| == if k in Keys(s) then |s| else |s| + 1
    decreases |s|
  {
    if |s| == 0 then [(k, v)]
    else if s[0].0 == k then [(k, v)] + s[1..]
    else [s[0]] + Put(s[1..], k, v)
  }

  /** `del d[k]`. */
  function Remove<V>(s: Entries<V>, k: string): (r: Entries<V>)
    ensures Keys(r) == Keys(s) - {k}
    ensures |r| <= |s|
    decreases |s|
  {
    if |s| == 0 then []
    else if s[0].0 == k then Remove(s[1..], k)
    else [s[0]] + Remove(s[1..], k)
  }

  /** A key is in `Keys` exactly when some entry carries it. */
  lemma {:induction false} KeysHas<V>(s: Entries<V>, k: string)
    ensures k in Keys(s) <==> exists i :: 0 <= i < |s| && s[i].0 == k
    decreases |s|
  {
    if |s| > 0 {
      KeysHas(s[1..], k);
      if k in Keys(s[1..]) {
        var i :| 0 <= i < |s[1..]| && s[1..][i].0 == k;
        assert s[i + 1].0 == k;
      }
      if exists i :: 0 <= i < |s| && s[i].0 == k {
        var i :| 0 <= i < |s| && s[i].0 == k;
        if i > 0 { assert s[1..][i - 1].0 == k; }
      }
    }
  }

  /** In a dict the first key occurs nowhere else. */
  lemma HeadKeyUnique<V>(s: Entries<V>)
    requires Keyed(s) && |s| > 0
    ensures s[0].0 !in Keys(s[1..])
  {
    KeysHas(s[1..], s[0].0);
  }

  /** Looking a key up in the list and in the map agree. */
  lemma {:induction false} FindAgrees<V>(s: Entries<V>, k: string)
    ensures Find(s, k) == if k in AsMap(s) then Some(AsMap(s)[k]) else None
    decreases |s|
  {
    if |s| > 0 {
      FindAgrees(s[1..], k);
    }
  }

  lemma {:induction false} PutKeyed<V>(s: Entries<V>, k: string, v: V)
    requires Keyed(s)
    ensures Keyed(Put(s, k, v))
    decreases |s|
  {
    if |s| > 0 && s[0].0 != k {
      PutKeyed(s[1..], k, v);
      HeadKeyUnique(s);
      var rest := Put(s[1..], k, v);
      forall j | 0 <= j < |rest| ensures rest[j].0 != s[0].0 {
        KeysHas(rest, rest[j].0);
      }
    } else if |s| > 0 {
      HeadKeyUnique(s);
      var r := Put(s, k, v);
      forall i, j | 0 <= i < j < |r| ensures r[i].0 != r[j].0 {
        if i == 0 { KeysHas(s[1..], r[j].0); assert r[j] == s[1..][j - 1]; }
      }
    }
  }

  /** Assigning a key gives the updated map, and keeps the keys distinct. */
  lemma {:induction false} PutAsMap<V>(s: Entries<V>, k: string, v: V)
    requires Keyed(s)
    ensures Keyed(Put(s, k, v))
    ensures AsMap(Put(s, k, v)) == AsMap(s)[k := v]
    decreases |s|
  {
    PutKeyed(s, k, v);
    if |s| > 0 && s[0].0 != k {
      PutAsMap(s[1..], k, v);
      assert Put(s, k, v)[1..] == Put(s[1..], k, v);
    } else if |s| > 0 {
      assert Put(s, k, v)[1..] == s[1..];
    }
  }

  lemma {:induction false} RemoveKeyed<V>(s: Entries<V>, k: string)
    requires Keyed(s)
    ensures Keyed(Remove(s, k))
    decreases |s|
  {
    if |s| > 0 {
      RemoveKeyed(s[1..], k);
      if s[0].0 != k {
        HeadKeyUnique(s);
        var rest := Remove(s[1..], k);
        forall j | 0 <= j < |rest| ensures rest[j].0 != s[0].0 {
          KeysHas(rest, rest[j].0);
        }
      }
    }
  }

  /** Deleting a key gives the map without it, and keeps the keys
      distinct. */
  lemma {:induction false} RemoveAsMap<V>(s: Entries<V>, k: string)
    requires Keyed(s)
    ensures Keyed(Remove(s, k))
    ensures AsMap(Remove(s, k)) == AsMap(s) - {k}
    decreases |s|
  {
    RemoveKeyed(s, k);
    if |s| > 0 {
      RemoveAsMap(s[1..], k);
      if s[0].0 != k {
        assert Remove(s, k)[1..] == Remove(s[1..], k);
      }
    }
  }
}
