/** Python dicts, which remember insertion order: a sequence of entries in which no key repeats. */
module Dicts {
  import opened Wrappers
  import opened Seqs

  type Dict<K, V> = seq<(K, V)>

  function Keys<K, V>(d: Dict<K, V>): seq<K> {
    seq(|d|, i requires 0 <= i < |d| => d[i].0)
  }

  function Values<K, V>(d: Dict<K, V>): seq<V> {
    seq(|d|, i requires 0 <= i < |d| => d[i].1)
  }

  /** What every Python dict satisfies: each key occurs once. */
  predicate Valid<K(==), V>(d: Dict<K, V>) {
    NoDuplicates(Keys(d))
  }

  /** `d.get(k)`: the value stored under `k`, or `None`. */
  function Get<K(==), V>(d: Dict<K, V>, k: K): (r: Option<V>)
    ensures r.None? <==> k !in Keys(d)
    ensures r.Some? ==> exists i :: 0 <= i < |d| && d[i] == (k, r.value)
    ensures Valid(d) ==> forall i :: 0 <= i < |d| && d[i].0 == k ==> r == Some(d[i].1)
  {
    if d == [] then None
    else
      ValidTail(d);
      if d[0].0 == k then Some(d[0].1) else Get(d[1..], k)
  }

  /** The entries after the first of a dict form a dict that does not hold the first key. */
  lemma ValidTail<K, V>(d: Dict<K, V>)
    requires d != []
    ensures Keys(d) == [d[0].0] + Keys(d[1..])
    ensures Valid(d) ==> Valid(d[1..]) && d[0].0 !in Keys(d[1..])
    ensures Valid(d) ==> forall i :: 0 < i < |d| ==> d[i].0 != d[0].0
  {
    var ks := Keys(d);
    assert ks == [d[0].0] + Keys(d[1..]);
    if Valid(d) {
      forall i | 0 < i < |d| ensures d[i].0 != d[0].0 {
        assert ks[0] != ks[i];
      }
      var tail := Keys(d[1..]);
      forall i, j | 0 <= i < j < |tail| ensures tail[i] != tail[j] {
        assert tail[i] == ks[i + 1] && tail[j] == ks[j + 1];
      }
    }
  }

  /** `d[k] = v`: an existing key keeps its position and takes the new value; a new key goes last. */
  function Put<K(==,!new), V>(d: Dict<K, V>, k: K, v: V): (r: Dict<K, V>)
    ensures Keys(r) == if k in Keys(d) then Keys(d) else Keys(d) + [k]
    ensures k !in Keys(d) ==> r == d + [(k, v)]
    ensures Get(r, k) == Some(v)
    ensures forall k' :: k' != k ==> Get(r, k') == Get(d, k')
    ensures Valid(d) ==> Valid(r)
  {
    if d == [] then
      assert Keys([(k, v)]) == [k];
      [(k, v)]
    else if d[0].0 == k then
      PutHead(d, k, v);
      [(k, v)] + d[1..]
    else
      var r' := Put(d[1..], k, v);
      PutConsKeys(d, k, v, r');
      PutConsGet(d, k, v, r');
      PutConsValid(d, k, r');
      [d[0]] + r'
  }

  /** Assigning to the first key replaces the first entry and nothing else. */
  lemma PutHead<K(!new), V>(d: Dict<K, V>, k: K, v: V)
    requires d != [] && d[0].0 == k
    ensures Keys([(k, v)] + d[1..]) == Keys(d) && k in Keys(d)
    ensures Get([(k, v)] + d[1..], k) == Some(v)
    ensures forall k' :: k' != k ==> Get([(k, v)] + d[1..], k') == Get(d, k')
  {
    var r := [(k, v)] + d[1..];
    assert Keys(r) == Keys(d) by {
      assert forall i :: 0 <= i < |r| ==> Keys(r)[i] == Keys(d)[i];
    }
    assert Keys(d)[0] == k;
    assert r[1..] == d[1..];
  }

  /** The keys after assigning to a later key: the tail's keys behind the first key. */
  lemma PutConsKeys<K(!new), V>(d: Dict<K, V>, k: K, v: V, r': Dict<K, V>)
    requires d != [] && d[0].0 != k
    requires Keys(r') == if k in Keys(d[1..]) then Keys(d[1..]) else Keys(d[1..]) + [k]
    requires k !in Keys(d[1..]) ==> r' == d[1..] + [(k, v)]
    ensures Keys([d[0]] + r') == if k in Keys(d) then Keys(d) else Keys(d) + [k]
    ensures k !in Keys(d) ==> [d[0]] + r' == d + [(k, v)]
  {
    ValidTail(d);
    KeysCons(d[0], r');
    assert k in Keys(d) <==> k in Keys(d[1..]);
    if k !in Keys(d) {
      assert [d[0]] + (d[1..] + [(k, v)]) == d + [(k, v)];
    }
  }

  /** Looking up in the result of assigning to a later key. */
  lemma PutConsGet<K(!new), V>(d: Dict<K, V>, k: K, v: V, r': Dict<K, V>)
    requires d != [] && d[0].0 != k
    requires Get(r', k) == Some(v)
    requires forall k' :: k' != k ==> Get(r', k') == Get(d[1..], k')
    ensures Get([d[0]] + r', k) == Some(v)
    ensures forall k' :: k' != k ==> Get([d[0]] + r', k') == Get(d, k')
  {
    var r := [d[0]] + r';
    assert r[0] == d[0] && r[1..] == r';
  }

  /** Assigning to a later key keeps a dict a dict. */
  lemma PutConsValid<K(!new), V>(d: Dict<K, V>, k: K, r': Dict<K, V>)
    requires d != [] && d[0].0 != k
    requires forall x :: x in Keys(r') ==> x in Keys(d[1..]) || x == k
    requires Valid(d[1..]) ==> Valid(r')
    ensures Valid(d) ==> Valid([d[0]] + r')
  {
    if Valid(d) {
      ValidTail(d);
      KeysCons(d[0], r');
      var ks := Keys([d[0]] + r');
      assert d[0].0 !in Keys(r');
      forall i, j | 0 <= i < j < |ks| ensures ks[i] != ks[j] {
        if i == 0 {
          assert ks[j] == Keys(r')[j - 1];
        } else {
          assert ks[i] == Keys(r')[i - 1] && ks[j] == Keys(r')[j - 1];
        }
      }
    }
  }

  /** The keys of a dict with one more entry in front. */
  lemma KeysCons<K, V>(e: (K, V), d: Dict<K, V>)
    ensures Keys([e] + d) == [e.0] + Keys(d)
  {
  }

  /** The value of the last entry of `kvs` whose key is `k`: the one that survives repeated assignments. */
  function LastValue<K(==), V>(kvs: seq<(K, V)>, k: K): (r: Option<V>)
    ensures r.None? <==> k !in Keys(kvs)
    ensures r.Some? ==>
      exists i :: 0 <= i < |kvs| && kvs[i] == (k, r.value) && forall j :: i < j < |kvs| ==> kvs[j].0 != k
  {
    if kvs == [] then None
    else
      var init := kvs[..|kvs| - 1];
      KeysInit(kvs);
      if kvs[|kvs| - 1].0 == k then Some(kvs[|kvs| - 1].1) else LastValue(init, k)
  }

  /** In a dict the last entry with a key is its only entry. */
  lemma LastValueOfValid<K(!new), V>(d: Dict<K, V>, k: K)
    requires Valid(d)
    ensures LastValue(d, k) == Get(d, k)
  {
    if LastValue(d, k).Some? {
      var i :| 0 <= i < |d| && d[i] == (k, LastValue(d, k).value);
      assert Keys(d)[i] == k;
    }
  }

  /** Assigns every entry of `kvs` to `d` in order, as `d.update(...)`, `d | kvs` or a loop of `d[k] = v` do. */
  function PutAll<K(==,!new), V>(d: Dict<K, V>, kvs: seq<(K, V)>): (r: Dict<K, V>)
    ensures Keys(r) == Extend(Keys(d), Keys(kvs))
    ensures forall k :: Get(r, k) == if k in Keys(kvs) then LastValue(kvs, k) else Get(d, k)
    ensures Valid(d) ==> Valid(r)
  {
    if kvs == [] then d
    else
      var init, last := kvs[..|kvs| - 1], kvs[|kvs| - 1];
      KeysInit(kvs);
      Put(PutAll(d, init), last.0, last.1)
  }

  /** Assigning one more pair is assigning it after the others. */
  lemma PutAllSnoc<K(!new), V>(d: Dict<K, V>, kvs: seq<(K, V)>, e: (K, V))
    ensures PutAll(d, kvs + [e]) == Put(PutAll(d, kvs), e.0, e.1)
  {
    assert (kvs + [e])[..|kvs|] == kvs;
  }

  /** Assigning pairs to an empty dict: each key once, in order of first appearance, with its last value. */
  lemma PutAllEmpty<K(!new), V>(kvs: seq<(K, V)>)
    ensures Valid(PutAll([], kvs))
    ensures Keys(PutAll([], kvs)) == Distinct(Keys(kvs))
    ensures forall k :: Get(PutAll([], kvs), k) == LastValue(kvs, k)
  {
    var empty: Dict<K, V> := [];
    assert Valid(empty);
    forall k ensures Get(PutAll(empty, kvs), k) == LastValue(kvs, k) {
      assert Get(empty, k) == None;
    }
  }

  /** Assigning pairs whose keys are all different to an empty dict stores them as they are. */
  lemma {:induction false} PutAllDistinct<K(!new), V>(kvs: seq<(K, V)>)
    requires NoDuplicates(Keys(kvs))
    ensures PutAll([], kvs) == kvs
  {
    if kvs != [] {
      var init, last := kvs[..|kvs| - 1], kvs[|kvs| - 1];
      KeysInit(kvs);
      NoDuplicatesInit(Keys(kvs));
      PutAllDistinct(init);
      var empty: Dict<K, V> := [];
      assert PutAll(empty, kvs) == Put(init, last.0, last.1);
      assert (last.0, last.1) == last;
      InitLast(kvs);
    }
  }

  /** The keys of all entries but the last are the keys but the last; the last key closes them. */
  lemma KeysInit<K, V>(kvs: seq<(K, V)>)
    requires kvs != []
    ensures Keys(kvs[..|kvs| - 1]) == Keys(kvs)[..|kvs| - 1]
    ensures Keys(kvs)[|kvs| - 1] == kvs[|kvs| - 1].0
    ensures Keys(kvs) == Keys(kvs[..|kvs| - 1]) + [kvs[|kvs| - 1].0]
  {
    var a, b := Keys(kvs), Keys(kvs[..|kvs| - 1]) + [kvs[|kvs| - 1].0];
    forall i | 0 <= i < |a| ensures a[i] == b[i] {
      if i < |kvs| - 1 {
        assert kvs[..|kvs| - 1][i] == kvs[i];
      }
    }
    assert a == b;
  }

  /** The values paired with `k` in `kvs`, in order. */
  function ValuesOf<K(==), V>(kvs: seq<(K, V)>, k: K): (r: seq<V>)
    ensures r == [] <==> k !in Keys(kvs)
    ensures |r| <= |kvs|
  {
    if kvs == [] then []
    else
      var init, last := kvs[..|kvs| - 1], kvs[|kvs| - 1];
      KeysInit(kvs);
      ValuesOf(init, k) + (if last.0 == k then [last.1] else [])
  }

  /** `d[k].append(v)` on a `defaultdict(list)`. */
  function Append<K(==,!new), V>(d: Dict<K, seq<V>>, k: K, v: V): Dict<K, seq<V>> {
    Put(d, k, Get(d, k).GetOr([]) + [v])
  }

  /** The number of values held in all the lists of `d`. */
  function TotalSize<K, V>(d: Dict<K, seq<V>>): nat {
    if d == [] then 0 else |d[0].1| + TotalSize(d[1..])
  }

  /** Replacing the list under `k` changes the total by the difference of the lengths. */
  lemma {:induction false} TotalSizePut<K(!new), V>(d: Dict<K, seq<V>>, k: K, vs: seq<V>)
    requires Valid(d)
    ensures TotalSize(Put(d, k, vs)) + |Get(d, k).GetOr([])| == TotalSize(d) + |vs|
  {
    if d != [] {
      ValidTail(d);
      if d[0].0 != k {
        assert Put(d, k, vs) == [d[0]] + Put(d[1..], k, vs);
        TotalSizePut(d[1..], k, vs);
      } else {
        assert Put(d, k, vs) == [(k, vs)] + d[1..];
      }
    }
  }

  /** Appends every entry of `kvs` to a fresh `defaultdict(list)`, as a grouping loop does. */
  function GroupAll<K(==,!new), V>(kvs: seq<(K, V)>): (r: Dict<K, seq<V>>)
    ensures Valid(r)
    ensures Keys(r) == Distinct(Keys(kvs))
    ensures forall k :: Get(r, k) == if k in Keys(kvs) then Some(ValuesOf(kvs, k)) else None
    ensures TotalSize(r) == |kvs|
  {
    if kvs == [] then []
    else
      var init, last := kvs[..|kvs| - 1], kvs[|kvs| - 1];
      var g := GroupAll(init);
      GroupAllSnoc(kvs, g);
      Append(g, last.0, last.1)
  }

  /** Grouping one more pair appends its value under its key. */
  lemma GroupAllAppend<K(!new), V>(kvs: seq<(K, V)>, kv: (K, V))
    ensures GroupAll(kvs + [kv]) == Append(GroupAll(kvs), kv.0, kv.1)
  {
    assert (kvs + [kv])[..|kvs|] == kvs;
  }

  /** Appending the last pair to a grouping of all the pairs before it groups every pair. */
  lemma GroupAllSnoc<K(!new), V>(kvs: seq<(K, V)>, g: Dict<K, seq<V>>)
    requires kvs != [] && Valid(g)
    requires Keys(g) == Distinct(Keys(kvs[..|kvs| - 1]))
    requires forall k :: Get(g, k) == if k in Keys(kvs[..|kvs| - 1]) then Some(ValuesOf(kvs[..|kvs| - 1], k)) else None
    requires TotalSize(g) == |kvs| - 1
    ensures Valid(Append(g, kvs[|kvs| - 1].0, kvs[|kvs| - 1].1))
    ensures Keys(Append(g, kvs[|kvs| - 1].0, kvs[|kvs| - 1].1)) == Distinct(Keys(kvs))
    ensures forall k :: Get(Append(g, kvs[|kvs| - 1].0, kvs[|kvs| - 1].1), k) == if k in Keys(kvs) then Some(ValuesOf(kvs, k)) else None
    ensures TotalSize(Append(g, kvs[|kvs| - 1].0, kvs[|kvs| - 1].1)) == |kvs|
  {
    var last := kvs[|kvs| - 1];
    KeysInit(kvs);
    TotalSizePut(g, last.0, Get(g, last.0).GetOr([]) + [last.1]);
    forall k {
      GroupAllSnocGet(kvs, g, k);
    }
  }

  /** The lookup of one key after the last pair is appended. */
  lemma GroupAllSnocGet<K(!new), V>(kvs: seq<(K, V)>, g: Dict<K, seq<V>>, k: K)
    requires kvs != []
    requires Get(g, k) == if k in Keys(kvs[..|kvs| - 1]) then Some(ValuesOf(kvs[..|kvs| - 1], k)) else None
    ensures Get(Append(g, kvs[|kvs| - 1].0, kvs[|kvs| - 1].1), k) == if k in Keys(kvs) then Some(ValuesOf(kvs, k)) else None
  {
    var init, last := kvs[..|kvs| - 1], kvs[|kvs| - 1];
    KeysInit(kvs);
    assert ValuesOf(kvs, k) == ValuesOf(init, k) + (if last.0 == k then [last.1] else []);
    var v := Get(g, last.0).GetOr([]) + [last.1];
    if k == last.0 {
      assert Get(Append(g, last.0, last.1), k) == Some(v);
      assert Get(g, k).GetOr([]) == ValuesOf(init, k);
      assert k in Keys(kvs);
    } else {
      assert Get(Append(g, last.0, last.1), k) == Get(g, k);
      assert ValuesOf(kvs, k) == ValuesOf(init, k);
      assert k in Keys(kvs) <==> k in Keys(init);
    }
  }
}
