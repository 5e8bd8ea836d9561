/**
 * An insertion-ordered map (the semantics of a Java LinkedHashMap), kept as a
 * sequence of key/value entries. Iteration order is the sequence order.
 */
module LinkedMaps {
  import opened Options
  import opened SeqLemmas

  type LinkedMap<K, V> = seq<(K, V)>

  /** The keys in iteration order. */
  function Keys<K, V>(m: LinkedMap<K, V>): (ks: seq<K>)
    ensures |ks| == |m|
    ensures forall i :: 0 <= i < |m| ==> ks[i] == m[i].0
  {
    if m == [] then [] else [m[0].0] + Keys(m[1..])
  }

  predicate Distinct<K(==, !new)>(ks: seq<K>)
  {
    forall i, j :: 0 <= i < j < |ks| ==> ks[i] != ks[j]
  }

  /** The value stored for `k`, found at the first entry with that key. */
  function Get<K(==, !new), V>(m: LinkedMap<K, V>, k: K): (r: Option<V>)
    ensures r.None? <==> k !in Keys(m)
    ensures r.Some? ==> (k, r.value) in m
  {
    if m == [] then None
    else if m[0].0 == k then Some(m[0].1)
    else Get(m[1..], k)
  }

  /**
   * Java's `put`: an existing key keeps its position and takes the new
   * value; a new key is appended at the end of the order.
   */
  function Put<K(==, !new), V>(m: LinkedMap<K, V>, k: K, v: V): (r: LinkedMap<K, V>)
    ensures k in Keys(m) ==> Keys(r) == Keys(m)
    ensures k !in Keys(m) ==> Keys(r) == Keys(m) + [k]
  {
    if m == [] then [(k, v)]
    else if m[0].0 == k then
      var r := [(k, v)] + m[1..];
      assert Keys(r) == [k] + Keys(m[1..]) && Keys(m) == [k] + Keys(m[1..]);
      r
    else
      var rest := Put(m[1..], k, v);
      var r := [m[0]] + rest;
      assert r[1..] == rest;
      assert Keys(r) == [m[0].0] + Keys(rest) && Keys(m) == [m[0].0] + Keys(m[1..]);
      r
  }

  /** After a put, the key reads back the value just stored. */
  lemma {:induction false} PutThenGet<K(!new), V>(m: LinkedMap<K, V>, k: K, v: V)
    ensures Get(Put(m, k, v), k) == Some(v)
  {
    if m != [] && m[0].0 != k {
      PutThenGet(m[1..], k, v);
      assert Put(m, k, v)[1..] == Put(m[1..], k, v);
    }
  }

  /** A put leaves the values of all other keys as they were. */
  lemma {:induction false} PutKeepsOtherKeys<K(!new), V>(m: LinkedMap<K, V>, k: K, v: V, k': K)
    requires k' != k
    ensures Get(Put(m, k, v), k') == Get(m, k')
  {
    if m != [] && m[0].0 != k {
      PutKeepsOtherKeys(m[1..], k, v, k');
      assert Put(m, k, v)[1..] == Put(m[1..], k, v);
    }
  }

  /** A put rewrites at most the entry of its own key; every other entry stays at its index. */
  lemma {:induction false} PutKeepsOtherEntries<K(!new), V>(m: LinkedMap<K, V>, k: K, v: V, i: nat)
    requires i < |m| && m[i].0 != k
    ensures i < |Put(m, k, v)| && Put(m, k, v)[i] == m[i]
  {
    if i > 0 && m[0].0 != k {
      PutKeepsOtherEntries(m[1..], k, v, i - 1);
      assert Put(m, k, v)[1..] == Put(m[1..], k, v);
    }
  }

  /** What a put does to lookups, gathered in one statement. */
  lemma PutFacts<K(!new), V>(m: LinkedMap<K, V>, k: K, v: V)
    ensures Get(Put(m, k, v), k) == Some(v)
    ensures forall k' :: k' != k ==> Get(Put(m, k, v), k') == Get(m, k')
    ensures Distinct(Keys(m)) ==> Distinct(Keys(Put(m, k, v)))
  {
    PutThenGet(m, k, v);
    forall k' | k' != k
      ensures Get(Put(m, k, v), k') == Get(m, k')
    {
      PutKeepsOtherKeys(m, k, v, k');
    }
  }

  /** A chain of `put` calls, made in sequence order. */
  function PutAll<K(==, !new), V>(m: LinkedMap<K, V>, calls: seq<(K, V)>): LinkedMap<K, V>
    decreases |calls|
  {
    if calls == [] then m else PutAll(Put(m, calls[0].0, calls[0].1), calls[1..])
  }

  /** The value of the last call that names `k`, if any. */
  function LastValue<K(==, !new), V>(calls: seq<(K, V)>, k: K): Option<V>
  {
    if calls == [] then None
    else if calls[|calls| - 1].0 == k then Some(calls[|calls| - 1].1)
    else LastValue(calls[..|calls| - 1], k)
  }

  lemma {:induction false} PutAllSnoc<K(!new), V>(m: LinkedMap<K, V>, calls: seq<(K, V)>, c: (K, V))
    ensures PutAll(m, calls + [c]) == Put(PutAll(m, calls), c.0, c.1)
    decreases |calls|
  {
    if calls == [] {
      assert calls + [c] == [c];
    } else {
      assert (calls + [c])[1..] == calls[1..] + [c];
      PutAllSnoc(Put(m, calls[0].0, calls[0].1), calls[1..], c);
    }
  }

  /** After a chain of puts, every key holds the value of the last call naming it. */
  lemma {:induction false} PutAllLastWriteWins<K(!new), V>(m: LinkedMap<K, V>, calls: seq<(K, V)>, k: K)
    ensures Get(PutAll(m, calls), k) == if LastValue(calls, k).Some? then LastValue(calls, k) else Get(m, k)
    decreases |calls|
  {
    if calls != [] {
      var init := calls[..|calls| - 1];
      var c := calls[|calls| - 1];
      assert calls == init + [c];
      PutAllSnoc(m, init, c);
      assert calls[..|calls| - 1] == init;
      if c.0 == k {
        PutThenGet(PutAll(m, init), c.0, c.1);
      } else {
        PutKeepsOtherKeys(PutAll(m, init), c.0, c.1, k);
        PutAllLastWriteWins(m, init, k);
      }
    }
  }

  /** The entries after the first still have new, pairwise distinct keys. */
  lemma FreshDistinctTail<K(!new), V>(m: LinkedMap<K, V>, calls: seq<(K, V)>)
    requires calls != []
    requires Distinct(Keys(calls))
    requires forall i :: 0 <= i < |calls| ==> calls[i].0 !in Keys(m)
    ensures Keys(calls) == [calls[0].0] + Keys(calls[1..])
    ensures Distinct(Keys(calls[1..]))
    ensures forall i :: 0 <= i < |calls[1..]| ==> calls[1..][i].0 !in Keys(m) + [calls[0].0]
  {
    assert Keys(calls) == [calls[0].0] + Keys(calls[1..]);
    forall i | 0 <= i < |calls[1..]|
      ensures calls[1..][i].0 !in Keys(m) + [calls[0].0]
    {
      assert Keys(calls)[0] != Keys(calls)[i + 1];
    }
  }

  /**
   * Putting keys that are new and pairwise distinct leaves them in call
   * order after the keys already present.
   */
  lemma {:induction false} PutAllFreshKeysInCallOrder<K(!new), V>(m: LinkedMap<K, V>, calls: seq<(K, V)>)
    requires Distinct(Keys(calls))
    requires forall i :: 0 <= i < |calls| ==> calls[i].0 !in Keys(m)
    ensures Keys(PutAll(m, calls)) == Keys(m) + Keys(calls)
    decreases |calls|
  {
    if calls == [] {
      assert Keys(m) + [] == Keys(m);
    } else {
      var k := calls[0].0;
      var m' := Put(m, k, calls[0].1);
      FreshDistinctTail(m, calls);
      PutAllFreshKeysInCallOrder(m', calls[1..]);
      AppendAssoc(Keys(m), [k], Keys(calls[1..]));
    }
  }
}
