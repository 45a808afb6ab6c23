/**
 PHP arrays with keys: an ordered list of (key, value) pairs in which every
 key appears once. Assigning to an existing key keeps its position;
 assigning to a new key appends it.
 */
module Assoc {
  import opened PhpValue

  type Assoc<K, V> = seq<(K, V)>

  /** No key appears twice. */
  predicate Keyed<K(==,!new), V>(a: Assoc<K, V>) {
    forall i, j :: 0 <= i < j < |a| ==> a[i].0 != a[j].0
  }

  /** `xs` is `ys` with some elements left out, the rest kept in order. */
  predicate Subsequence<T(==)>(xs: seq<T>, ys: seq<T>)
    decreases |ys|
  {
    |xs| == 0 || (|ys| > 0 && ((xs[0] == ys[0] && Subsequence(xs[1..], ys[1..])) || Subsequence(xs, ys[1..])))
  }

  /** Leaving out the first element of `ys` keeps `xs` a subsequence of the rest. */
  lemma SubsequenceSkip<T>(xs: seq<T>, ys: seq<T>)
    requires |ys| > 0 && Subsequence(xs, ys[1..])
    ensures Subsequence(xs, ys)
  {
  }

  /**
   One step of building keys in order: if `after` is `before`, or `before`
   with the first name appended, and the keys past `after` follow the other
   names, then the keys past `before` follow all the names.
   */
  lemma PrefixStep<T>(keys: seq<T>, before: seq<T>, after: seq<T>, names: seq<T>)
    requires |names| > 0
    requires after == before || after == before + [names[0]]
    requires after <= keys && Subsequence(keys[|after|..], names[1..])
    ensures before <= keys && Subsequence(keys[|before|..], names)
  {
    var tail := keys[|before|..];
    assert keys[..|before|] == before by {
      assert keys[..|after|] == after;
    }
    if after == before {
      SubsequenceSkip(tail, names);
    } else {
      assert keys[|before|] == after[|before|] == names[0];
      assert tail[1..] == keys[|after|..];
    }
  }

  function Keys<K, V>(a: Assoc<K, V>): (r: seq<K>)
    ensures |r| == |a|
    ensures forall i :: 0 <= i < |a| ==> r[i] == a[i].0
  {
    if |a| == 0 then [] else [a[0].0] + Keys(a[1..])
  }

  /** `$a[$k]` when the key is set. */
  function Lookup<K(==,!new), V>(a: Assoc<K, V>, k: K): (r: Option<V>)
    ensures r.Some? <==> k in Keys(a)
    ensures r.Some? ==> exists i :: 0 <= i < |a| && a[i] == (k, r.value)
  {
    if |a| == 0 then None
    else if a[0].0 == k then Some(a[0].1)
    else Lookup(a[1..], k)
  }

  /** `$a[$k] = $v`. */
  function Put<K(==,!new), V>(a: Assoc<K, V>, k: K, v: V): (r: Assoc<K, V>)
    ensures Keys(r) == if k in Keys(a) then Keys(a) else Keys(a) + [k]
    ensures Keyed(a) ==> Keyed(r)
    ensures forall k' :: Lookup(r, k') == if k' == k then Some(v) else Lookup(a, k')
  {
    if |a| == 0 then [(k, v)]
    else if a[0].0 == k then
      var r := [(k, v)] + a[1..];
      assert r[1..] == a[1..];
      assert Keys(r) == Keys(a);
      r
    else
      var rest := Put(a[1..], k, v);
      var r := [a[0]] + rest;
      assert r[1..] == rest;
      assert Keys(a) == [a[0].0] + Keys(a[1..]);
      assert Keys(r) == [a[0].0] + Keys(rest);
      assert k in Keys(a) <==> k in Keys(a[1..]);
      if Keyed(a) then
        assert a[0].0 !in Keys(a[1..]);
        KeyedCons(a[0], rest);
        r
      else r
  }

  /** An entry whose key is not among the others may go in front. */
  lemma KeyedCons<K(!new), V>(e: (K, V), a: Assoc<K, V>)
    requires Keyed(a) && e.0 !in Keys(a)
    ensures Keyed([e] + a)
  {
    var r := [e] + a;
    forall i, j | 0 <= i < j < |r| ensures r[i].0 != r[j].0 {
      assert r[j] == a[j - 1];
      if i > 0 {
        assert r[i] == a[i - 1];
      } else {
        assert Keys(a)[j - 1] == a[j - 1].0;
      }
    }
  }

  /**
   `array_merge($a, $b)` for string keys: the entries of `b` are assigned in
   order on top of `a`, so `b` wins on a shared key and keys only in `a` stay.
   */
  function Merge<K(==,!new), V>(a: Assoc<K, V>, b: Assoc<K, V>): (r: Assoc<K, V>)
    requires Keyed(b)
    ensures Keyed(a) ==> Keyed(r)
    ensures forall k :: Lookup(r, k) == if Lookup(b, k).Some? then Lookup(b, k) else Lookup(a, k)
    ensures |r| >= |a|
    ensures forall i :: 0 <= i < |a| ==> r[i].0 == a[i].0
    decreases |b|
  {
    if |b| == 0 then a
    else
      var r := Merge(Put(a, b[0].0, b[0].1), b[1..]);
      assert forall k :: Lookup(b, k) == if k == b[0].0 then Some(b[0].1) else Lookup(b[1..], k);
      assert b[0].0 !in Keys(b[1..]);
      r
  }

  /** In an array without repeated keys, looking up the key of an entry finds that entry. */
  lemma {:induction false} LookupEntry<K(!new), V>(a: Assoc<K, V>, i: nat)
    requires Keyed(a) && i < |a|
    ensures Lookup(a, a[i].0) == Some(a[i].1)
  {
    if i > 0 {
      assert a[0].0 != a[i].0;
      assert a[1..][i - 1] == a[i];
      LookupEntry(a[1..], i - 1);
    }
  }

  /** Looking up in an array with one entry appended at the end. */
  lemma {:induction false} LookupAppend<K(!new), V>(a: Assoc<K, V>, k: K, v: V, k': K)
    ensures Lookup(a + [(k, v)], k') == if k' in Keys(a) then Lookup(a, k') else if k' == k then Some(v) else None
  {
    if |a| > 0 {
      assert (a + [(k, v)])[1..] == a[1..] + [(k, v)];
      assert Keys(a) == [a[0].0] + Keys(a[1..]);
      LookupAppend(a[1..], k, v, k');
    } else {
      assert a + [(k, v)] == [(k, v)];
    }
  }
}
