/**
  A JavaScript `Map` as an association sequence. Entries keep insertion order:
  `set` on a key that is present replaces its value in place, `set` on a new
  key appends, `delete` removes the entry and closes the gap. Iteration order
  (`values()`, `entries()`, `forEach`) is the order of the sequence.
 */
module JsMap {
  import opened Wrappers

  type Entries<K, V> = seq<(K, V)>

  /** No key occurs twice; every Map built with Set and Delete has this shape. */
  ghost predicate UniqueKeys<K, V>(m: Entries<K, V>) {
    forall i, j :: 0 <= i < j < |m| ==> m[i].0 != m[j].0
  }

  /** The position of the first entry with key `k`. */
  function Find<K(==), V>(m: Entries<K, V>, k: K): (r: Option<nat>)
    ensures r.Some? ==> r.value < |m| && m[r.value].0 == k
    ensures r.Some? ==> forall j :: 0 <= j < r.value ==> m[j].0 != k
    ensures r.None? <==> forall j :: 0 <= j < |m| ==> m[j].0 != k
  {
    if |m| == 0 then None
    else if m[0].0 == k then Some(0)
    else match Find(m[1..], k)
      case Some(i) => Some(i + 1)
      case None => None
  }

  predicate Has<K(==), V>(m: Entries<K, V>, k: K) {
    Find(m, k).Some?
  }

  /** `map.get(k)`: None plays the part of `undefined`. */
  function Get<K(==), V>(m: Entries<K, V>, k: K): (r: Option<V>)
    ensures r.Some? <==> Has(m, k)
  {
    match Find(m, k)
    case Some(i) => Some(m[i].1)
    case None => None
  }

  /** `map.set(k, v)`. */
  function Set<K(==), V>(m: Entries<K, V>, k: K, v: V): (r: Entries<K, V>)
    ensures Has(m, k) ==> |r| == |m|
    ensures !Has(m, k) ==> |r| == |m| + 1
  {
    match Find(m, k)
    case Some(i) => m[i := (k, v)]
    case None => m + [(k, v)]
  }

  /** `map.delete(k)`. */
  function Delete<K(==), V>(m: Entries<K, V>, k: K): (r: Entries<K, V>)
    ensures Has(m, k) ==> |r| == |m| - 1
    ensures !Has(m, k) ==> r == m
  {
    match Find(m, k)
    case Some(i) => m[..i] + m[i + 1..]
    case None => m
  }

  function Keys<K(==), V>(m: Entries<K, V>): (r: seq<K>)
    ensures |r| == |m|
  {
    seq(|m|, i requires 0 <= i < |m| => m[i].0)
  }

  /** `Array.from(map.values())`. */
  function Values<K(==), V>(m: Entries<K, V>): (r: seq<V>)
    ensures |r| == |m|
  {
    seq(|m|, i requires 0 <= i < |m| => m[i].1)
  }

  lemma HasIsKey<K, V>(m: Entries<K, V>, k: K)
    ensures Has(m, k) <==> k in Keys(m)
  {
    if k in Keys(m) {
      var j :| 0 <= j < |m| && Keys(m)[j] == k;
      assert m[j].0 == k;
    }
    if Has(m, k) {
      assert Keys(m)[Find(m, k).value] == k;
    }
  }

  /** In a Map with unique keys, Get returns the value stored at the key's one position. */
  lemma GetAt<K, V>(m: Entries<K, V>, j: nat)
    requires UniqueKeys(m) && j < |m|
    ensures Find(m, m[j].0) == Some(j)
    ensures Get(m, m[j].0) == Some(m[j].1)
  {
  }

  /** Setting a present key keeps every position; only that entry's value changes. */
  lemma SetExisting<K, V>(m: Entries<K, V>, k: K, v: V, i: nat)
    requires UniqueKeys(m) && i < |m| && m[i].0 == k
    ensures Set(m, k, v) == m[i := (k, v)]
  {
    GetAt(m, i);
  }

  /** Setting an absent key appends one entry at the end. */
  lemma SetNew<K, V>(m: Entries<K, V>, k: K, v: V)
    requires !Has(m, k)
    ensures Set(m, k, v) == m + [(k, v)]
  {
  }

  lemma SetUnique<K, V>(m: Entries<K, V>, k: K, v: V)
    requires UniqueKeys(m)
    ensures UniqueKeys(Set(m, k, v))
  {
  }

  /** Set changes the value seen at its own key and nothing else. */
  lemma GetSet<K, V>(m: Entries<K, V>, k: K, v: V, k': K)
    requires UniqueKeys(m)
    ensures Get(Set(m, k, v), k) == Some(v)
    ensures k' != k ==> Get(Set(m, k, v), k') == Get(m, k')
  {
    SetUnique(m, k, v);
    var r := Set(m, k, v);
    match Find(m, k)
    case Some(i) =>
      GetAt(r, i);
      if k' != k {
        match Find(m, k')
        case Some(j) => GetAt(r, j);
        case None =>
      }
    case None =>
      GetAt(r, |m|);
      if k' != k {
        match Find(m, k')
        case Some(j) => GetAt(r, j);
        case None =>
      }
  }

  /** Set keeps the keys already present in their positions; a new key comes last. */
  lemma SetKeys<K, V>(m: Entries<K, V>, k: K, v: V)
    ensures Has(m, k) ==> Keys(Set(m, k, v)) == Keys(m)
    ensures !Has(m, k) ==> Keys(Set(m, k, v)) == Keys(m) + [k]
  {
  }

  /** Set stores its own entry and otherwise only entries already present. */
  lemma SetEntries<K, V>(m: Entries<K, V>, k: K, v: V)
    ensures (k, v) in Set(m, k, v)
    ensures forall e :: e in Set(m, k, v) ==> e in m || e == (k, v)
  {
    match Find(m, k)
    case None =>
      assert Set(m, k, v) == m + [(k, v)];
    case Some(i) =>
      var r := m[i := (k, v)];
      assert Set(m, k, v) == r && r[i] == (k, v);
      forall e | e in r ensures e in m || e == (k, v) {
        var j :| 0 <= j < |r| && r[j] == e;
        if j != i { assert m[j] == e; }
      }
  }

  /** Delete keeps a subset of the entries. */
  lemma DeleteEntries<K, V>(m: Entries<K, V>, k: K)
    ensures forall e :: e in Delete(m, k) ==> e in m
  {
    match Find(m, k)
    case None =>
    case Some(i) =>
      forall e | e in Delete(m, k) ensures e in m {
        var j :| 0 <= j < |Delete(m, k)| && Delete(m, k)[j] == e;
        if j < i { assert m[j] == e; } else { assert m[j + 1] == e; }
      }
  }

  lemma DeleteUnique<K, V>(m: Entries<K, V>, k: K)
    requires UniqueKeys(m)
    ensures UniqueKeys(Delete(m, k))
  {
  }

  /** Delete removes its key and keeps every other key's value. */
  lemma GetDelete<K, V>(m: Entries<K, V>, k: K, k': K)
    requires UniqueKeys(m)
    ensures !Has(Delete(m, k), k)
    ensures k' != k ==> Get(Delete(m, k), k') == Get(m, k')
  {
    DeleteUnique(m, k);
    var r := Delete(m, k);
    match Find(m, k)
    case None =>
    case Some(i) =>
      assert forall j :: 0 <= j < |r| ==> r[j] == if j < i then m[j] else m[j + 1];
      if k' != k {
        match Find(m, k')
        case None =>
        case Some(j) =>
          if j < i { GetAt(r, j); } else { GetAt(r, j - 1); }
      }
  }
}
