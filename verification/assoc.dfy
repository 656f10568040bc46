/**
 An insertion-ordered map from string keys, kept as a list of pairs: Java's
 `LinkedHashMap<String, V>`. `Put` replaces the value of a key already present
 without moving it, and appends a new key at the end.
 */
module Assoc {
  import opened Wrappers
  import opened Seqs

  type AList<V> = seq<(string, V)>

  /** The keys in iteration order (`keySet()` of a `LinkedHashMap`). */
  function Keys<V>(m: AList<V>): seq<string> {
    seq(|m|, i requires 0 <= i < |m| => m[i].0)
  }

  /** `get(key)`: the value stored under `key`, `None` when the key is absent. */
  function Get<V>(m: AList<V>, key: string): Option<V> {
    if |m| == 0 then None
    else if m[0].0 == key then Some(m[0].1)
    else Get(m[1..], key)
  }

  /** The map holds each key once, as every `LinkedHashMap` does. */
  predicate DistinctKeys<V>(m: AList<V>) {
    Distinct(Keys(m))
  }

  /**
   `put(key, value)`: afterwards `key` reads back `value`, every other key reads
   what it read before, and the key order is that of a `LinkedHashSet` add.
   */
  function Put<V>(m: AList<V>, key: string, value: V): (r: AList<V>)
    ensures Get(r, key) == Some(value)
    ensures forall k :: k != key ==> Get(r, k) == Get(m, k)
    ensures Keys(r) == AppendNew(Keys(m), key)
  {
    if |m| == 0 then [(key, value)]
    else if m[0].0 == key then
      KeysCons(m);
      KeysCons([(key, value)] + m[1..]);
      [(key, value)] + m[1..]
    else
      var rest := Put(m[1..], key, value);
      KeysCons(m);
      KeysCons([m[0]] + rest);
      [m[0]] + rest
  }

  /** The keys of a non-empty map are its first key followed by the keys of the rest. */
  lemma KeysCons<V>(m: AList<V>)
    requires |m| > 0
    ensures Keys(m) == [m[0].0] + Keys(m[1..])
  {
  }

  /** `Get` finds exactly the keys listed by `Keys`. */
  lemma {:induction false} GetSomeIffKey<V>(m: AList<V>, key: string)
    ensures Get(m, key).Some? <==> key in Keys(m)
  {
    if |m| > 0 {
      KeysCons(m);
      GetSomeIffKey(m[1..], key);
    }
  }

  /** In a map without repeated keys, the key of entry `i` reads entry `i`'s value. */
  lemma {:induction false} GetDistinctAt<V>(m: AList<V>, i: nat)
    requires DistinctKeys(m) && i < |m|
    ensures Get(m, m[i].0) == Some(m[i].1)
    decreases |m|
  {
    if i > 0 {
      assert Keys(m)[0] != Keys(m)[i];
      var rest := m[1..];
      forall a, b | 0 <= a < b < |rest|
        ensures Keys(rest)[a] != Keys(rest)[b]
      {
        assert Keys(rest)[a] == Keys(m)[a + 1] && Keys(rest)[b] == Keys(m)[b + 1];
      }
      assert rest[i - 1] == m[i];
      GetDistinctAt(rest, i - 1);
    }
  }

  /** Putting a key and value into a map builds the map of one more pair when the key is new. */
  lemma {:induction false} PutNewKeyAppends<V>(m: AList<V>, key: string, value: V)
    requires key !in Keys(m)
    ensures Put(m, key, value) == m + [(key, value)]
  {
    if |m| > 0 {
      KeysCons(m);
      PutNewKeyAppends(m[1..], key, value);
      assert [m[0]] + (m[1..] + [(key, value)]) == m + [(key, value)];
    }
  }
}
