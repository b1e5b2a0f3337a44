/**
 * A PHP array with string keys: an ordered map whose order is the order in
 * which keys were first inserted. `$a[$k] = $v` keeps an existing key in
 * place and appends a new one; `unset($a[$k])` closes the gap.
 */
module OrderedMap {
  import opened Wrappers

  type OMap<V> = seq<(string, V)>

  /** No key occurs twice. */
  ghost predicate UniqueKeys<V>(m: OMap<V>)
  {
    forall i, j :: 0 <= i < j < |m| ==> m[i].0 != m[j].0
  }

  /** `array_keys($a)`. */
  function Keys<V>(m: OMap<V>): seq<string>
  {
    seq(|m|, i requires 0 <= i < |m| => m[i].0)
  }

  /** `array_values($a)`. */
  function Values<V>(m: OMap<V>): seq<V>
  {
    seq(|m|, i requires 0 <= i < |m| => m[i].1)
  }

  /** The position of key `k`, or `|m|` when it is absent. */
  function Find<V>(m: OMap<V>, k: string): (p: nat)
    ensures p <= |m|
    ensures p < |m| ==> m[p].0 == k
    ensures forall q :: 0 <= q < p ==> m[q].0 != k
  {
    if m == [] then 0 else if m[0].0 == k then 0 else 1 + Find(m[1..], k)
  }

  /** `isset($a[$k])`. */
  predicate HasKey<V>(m: OMap<V>, k: string)
  {
    Find(m, k) < |m|
  }

  /** `$a[$k] ?? null`. */
  function Get<V>(m: OMap<V>, k: string): Option<V>
  {
    if HasKey(m, k) then Some(m[Find(m, k)].1) else None
  }

  /** `Find` is determined by its contract. */
  lemma FindIs<V>(m: OMap<V>, k: string, p: nat)
    requires p <= |m| && (p < |m| ==> m[p].0 == k)
    requires forall q :: 0 <= q < p ==> m[q].0 != k
    ensures Find(m, k) == p
  {
  }

  /** Storing under `k` leaves the lookup of every other key as it was. */
  lemma PutLookupOther<V>(m: OMap<V>, k: string, v: V, r: OMap<V>, k': string)
    requires r == if Find(m, k) < |m| then m[Find(m, k) := (k, v)] else m + [(k, v)]
    requires k' != k
    ensures Get(r, k') == Get(m, k')
  {
    var p' := Find(m, k');
    if p' < |m| {
      FindIs(r, k', p');
    } else {
      FindIs(r, k', |r|);
    }
  }

  lemma PutLookup<V>(m: OMap<V>, k: string, v: V, r: OMap<V>)
    requires r == if Find(m, k) < |m| then m[Find(m, k) := (k, v)] else m + [(k, v)]
    ensures Get(r, k) == Some(v)
    ensures forall k' :: k' != k ==> Get(r, k') == Get(m, k')
  {
    FindIs(r, k, Find(m, k));
    forall k' | k' != k
      ensures Get(r, k') == Get(m, k')
    {
      PutLookupOther(m, k, v, r, k');
    }
  }

  /** Cutting out position `p` shifts every later entry down by one. */
  lemma CutIndex<V>(m: OMap<V>, p: nat, q: nat)
    requires p < |m| && q < |m| - 1
    ensures (m[..p] + m[p + 1..])[q] == m[if q < p then q else q + 1]
  {
  }

  /** Cutting out the entry of `k` leaves the lookup of every other key as it was. */
  lemma RemoveLookupOther<V>(m: OMap<V>, k: string, r: OMap<V>, k': string)
    requires Find(m, k) < |m| && r == m[..Find(m, k)] + m[Find(m, k) + 1..]
    requires k' != k
    ensures Get(r, k') == Get(m, k')
  {
    var p, p' := Find(m, k), Find(m, k');
    var target := if p' < p then p' else p' - 1;
    assert p' != p;
    forall q | 0 <= q < target
      ensures r[q].0 != k'
    {
      CutIndex(m, p, q);
    }
    if p' < |m| {
      CutIndex(m, p, target);
    }
    FindIs(r, k', target);
  }

  lemma RemoveLookup<V>(m: OMap<V>, k: string, r: OMap<V>)
    requires Find(m, k) < |m| && r == m[..Find(m, k)] + m[Find(m, k) + 1..]
    ensures forall k' :: k' != k ==> Get(r, k') == Get(m, k')
  {
    forall k' | k' != k
      ensures Get(r, k') == Get(m, k')
    {
      RemoveLookupOther(m, k, r, k');
    }
  }

  /** `$a[$k] = $v`. */
  function Put<V>(m: OMap<V>, k: string, v: V): (r: OMap<V>)
    ensures UniqueKeys(m) ==> UniqueKeys(r)
    ensures Keys(r) == if HasKey(m, k) then Keys(m) else Keys(m) + [k]
    ensures Get(r, k) == Some(v)
    ensures forall k' :: k' != k ==> Get(r, k') == Get(m, k')
  {
    var p := Find(m, k);
    var r := if p < |m| then m[p := (k, v)] else m + [(k, v)];
    PutLookup(m, k, v, r);
    PutKeys(m, k, v, r);
    r
  }

  /** Storing under `k` keeps the key order, appending `k` when it is new. */
  lemma PutKeys<V>(m: OMap<V>, k: string, v: V, r: OMap<V>)
    requires r == if Find(m, k) < |m| then m[Find(m, k) := (k, v)] else m + [(k, v)]
    ensures UniqueKeys(m) ==> UniqueKeys(r)
    ensures Keys(r) == if HasKey(m, k) then Keys(m) else Keys(m) + [k]
  {
    var p := Find(m, k);
    assert forall i :: 0 <= i < |r| ==> r[i].0 == if i < |m| then m[i].0 else k;
  }

  /** `unset($a[$k])`. */
  function Remove<V>(m: OMap<V>, k: string): (r: OMap<V>)
    ensures UniqueKeys(m) ==> UniqueKeys(r) && !HasKey(r, k)
    ensures forall k' :: k' != k ==> Get(r, k') == Get(m, k')
    ensures |r| == if HasKey(m, k) then |m| - 1 else |m|
  {
    var p := Find(m, k);
    if p < |m| then
      var r := m[..p] + m[p + 1..];
      RemoveLookup(m, k, r);
      r
    else m
  }

  /** Storing under a present key replaces that entry in place. */
  lemma PutPresent<V>(m: OMap<V>, k: string, v: V)
    requires HasKey(m, k)
    ensures Put(m, k, v) == m[Find(m, k) := (k, v)]
  {
  }

  /** Storing under a new key appends the entry. */
  lemma PutAbsent<V>(m: OMap<V>, k: string, v: V)
    requires !HasKey(m, k)
    ensures Put(m, k, v) == m + [(k, v)]
  {
  }

  /** Removing a present key cuts out its entry and keeps the others in order. */
  lemma RemovePresent<V>(m: OMap<V>, k: string)
    requires HasKey(m, k)
    ensures var p := Find(m, k); Remove(m, k) == m[..p] + m[p + 1..]
  {
  }

  /** The entries before a key's position do not hold that key. */
  lemma UniquePrefix<V>(m: OMap<V>, n: nat)
    requires UniqueKeys(m) && n < |m|
    ensures UniqueKeys(m[..n]) && !HasKey(m[..n], m[n].0)
  {
    var init := m[..n];
    assert forall q :: 0 <= q < |init| ==> init[q] == m[q];
  }
}
