/** Order-preserving operations on sequences: filtering, the ties for a maximum, a stable descending sort. */
module Seqs {

  /** No element occurs twice in `s`. */
  predicate NoDuplicates<T(==)>(s: seq<T>) {
    forall i, j :: 0 <= i < j < |s| ==> s[i] != s[j]
  }

  /** Without duplicates, the last element is not among the others, which have no duplicates either. */
  lemma NoDuplicatesInit<T>(s: seq<T>)
    requires s != [] && NoDuplicates(s)
    ensures s[|s| - 1] !in s[..|s| - 1] && NoDuplicates(s[..|s| - 1])
  {
    var init := s[..|s| - 1];
    forall i | 0 <= i < |init| ensures init[i] != s[|s| - 1] {
      assert init[i] == s[i];
    }
  }

  /** `a` is obtained from `b` by deleting elements, so what is kept stays in the order of `b`. */
  predicate IsSubsequence<T(==)>(a: seq<T>, b: seq<T>)
    decreases |b|
  {
    || a == []
    || (&& b != []
        && (|| (a[|a| - 1] == b[|b| - 1] && IsSubsequence(a[..|a| - 1], b[..|b| - 1]))
            || IsSubsequence(a, b[..|b| - 1])))
  }

  /** The list comprehension `[x for x in xs if p(x)]`. */
  function Filter<T>(xs: seq<T>, p: T -> bool): (r: seq<T>)
    ensures |r| <= |xs|
  {
    if xs == [] then []
    else
      var init, last := xs[..|xs| - 1], xs[|xs| - 1];
      Filter(init, p) + (if p(last) then [last] else [])
  }

  /** A non-empty sequence is its elements but the last, followed by the last. */
  lemma InitLast<T>(s: seq<T>)
    requires s != []
    ensures s == s[..|s| - 1] + [s[|s| - 1]]
  {
  }

  /** Filtering a sequence with one more element at the end. */
  lemma FilterSnoc<T>(xs: seq<T>, x: T, p: T -> bool)
    ensures Filter(xs + [x], p) == Filter(xs, p) + (if p(x) then [x] else [])
  {
    assert (xs + [x])[..|xs|] == xs;
  }

  /** The filter keeps exactly the elements that satisfy `p`. */
  lemma {:induction false} FilterMembers<T(!new)>(xs: seq<T>, p: T -> bool)
    ensures forall x :: x in Filter(xs, p) <==> x in xs && p(x)
  {
    if xs != [] {
      var init, last := xs[..|xs| - 1], xs[|xs| - 1];
      assert xs == init + [last];
      FilterMembers(init, p);
    }
  }

  /** The filter keeps every copy of an element that satisfies `p` and no copy of one that does not. */
  lemma {:induction false} FilterCount<T(!new)>(xs: seq<T>, p: T -> bool)
    ensures forall x :: multiset(Filter(xs, p))[x] == if p(x) then multiset(xs)[x] else 0
  {
    if xs != [] {
      var init, last := xs[..|xs| - 1], xs[|xs| - 1];
      assert xs == init + [last];
      FilterCount(init, p);
    }
  }

  /** The filter keeps the input order. */
  lemma {:induction false} FilterIsSubsequence<T(!new)>(xs: seq<T>, p: T -> bool)
    ensures IsSubsequence(Filter(xs, p), xs)
  {
    if xs != [] {
      var init, last := xs[..|xs| - 1], xs[|xs| - 1];
      FilterIsSubsequence(init, p);
      var r := Filter(xs, p);
      if p(last) {
        assert r[..|r| - 1] == Filter(init, p);
      } else {
        assert r == Filter(init, p);
        assert IsSubsequence(r, xs[..|xs| - 1]);
      }
    }
  }

  /** `seen` followed by the elements of `ks` not already present, each once, in order of first occurrence. */
  function Extend<T(==,!new)>(seen: seq<T>, ks: seq<T>): (r: seq<T>)
    ensures |seen| <= |r| && r[..|seen|] == seen
    ensures forall x :: x in r <==> x in seen || x in ks
    ensures NoDuplicates(seen) ==> NoDuplicates(r)
  {
    if ks == [] then seen
    else
      var r' := Extend(seen, ks[..|ks| - 1]);
      var k := ks[|ks| - 1];
      assert ks == ks[..|ks| - 1] + [k];
      if k in r' then r' else r' + [k]
  }

  /** The distinct elements of `ks` in order of first occurrence. */
  function Distinct<T(==,!new)>(ks: seq<T>): (r: seq<T>)
    ensures NoDuplicates(r)
    ensures forall x :: x in r <==> x in ks
  {
    Extend([], ks)
  }

  /** Python's `max(score(x) for x in xs)`; undefined (it raises) on an empty sequence. */
  function MaxScore<T>(xs: seq<T>, score: T -> real): (m: real)
    requires xs != []
    ensures forall i :: 0 <= i < |xs| ==> score(xs[i]) <= m
    ensures exists i :: 0 <= i < |xs| && score(xs[i]) == m
  {
    if |xs| == 1 then score(xs[0])
    else
      var m' := MaxScore(xs[..|xs| - 1], score);
      var s := score(xs[|xs| - 1]);
      if s > m' then s else m'
  }

  /** Every element whose score equals the maximum, in input order; `[]` for an empty input. */
  function TiedForMax<T(==,!new)>(xs: seq<T>, score: T -> real): (r: seq<T>)
    ensures r == [] <==> xs == []
    ensures forall x :: x in r <==> x in xs && forall y :: y in xs ==> score(y) <= score(x)
    ensures forall x :: x in r ==> multiset(r)[x] == multiset(xs)[x]
    ensures IsSubsequence(r, xs)
  {
    if xs == [] then []
    else
      var m := MaxScore(xs, score);
      var atMax := x => score(x) == m;
      var r := Filter(xs, atMax);
      FilterMembers(xs, atMax);
      FilterCount(xs, atMax);
      FilterIsSubsequence(xs, atMax);
      ghost var i :| 0 <= i < |xs| && score(xs[i]) == m;
      assert xs[i] in r;
      r
  }

  /** Entries sorted by their first component, largest first. */
  predicate SortedDesc<T>(s: seq<(real, T)>) {
    forall i, j :: 0 <= i < j < |s| ==> s[i].0 >= s[j].0
  }

  /** The entries of `s` whose sort key is `v`, in order. */
  function WithKey<T>(s: seq<(real, T)>, v: real): seq<(real, T)> {
    if s == [] then []
    else WithKey(s[..|s| - 1], v) + (if s[|s| - 1].0 == v then [s[|s| - 1]] else [])
  }

  /** Puts `x` after every entry whose key is at least its own and before every entry with a smaller key. */
  function InsertDesc<T(==,!new)>(t: seq<(real, T)>, x: (real, T)): (r: seq<(real, T)>)
    requires SortedDesc(t)
    ensures SortedDesc(r)
    ensures |r| == |t| + 1
    ensures forall y :: y in r <==> y in t || y == x
    ensures multiset(r) == multiset(t) + multiset{x}
  {
    if t == [] || t[|t| - 1].0 >= x.0 then
      t + [x]
    else
      var init, last := t[..|t| - 1], t[|t| - 1];
      assert t == init + [last];
      var r' := InsertDesc(init, x);
      assert forall y :: y in r' ==> y.0 >= last.0;
      r' + [last]
  }

  /** Inserting `x` keeps every other key's entries in order and puts `x` after the entries that share its key. */
  lemma {:induction false} InsertDescWithKey<T(!new)>(t: seq<(real, T)>, x: (real, T), v: real)
    requires SortedDesc(t)
    ensures WithKey(InsertDesc(t, x), v) == WithKey(t, v) + (if x.0 == v then [x] else [])
  {
    var r := InsertDesc(t, x);
    if t == [] || t[|t| - 1].0 >= x.0 {
      assert r == t + [x];
      assert r[..|r| - 1] == t;
    } else {
      var init, last := t[..|t| - 1], t[|t| - 1];
      var r' := InsertDesc(init, x);
      assert r == r' + [last];
      assert r[..|r| - 1] == r';
      calc {
        WithKey(r, v);
        WithKey(r', v) + (if last.0 == v then [last] else []);
        { InsertDescWithKey(init, x, v); }
        WithKey(init, v) + (if x.0 == v then [x] else []) + (if last.0 == v then [last] else []);
        { assert last.0 < x.0; }
        WithKey(init, v) + (if last.0 == v then [last] else []) + (if x.0 == v then [x] else []);
        WithKey(t, v) + (if x.0 == v then [x] else []);
      }
    }
  }

  /** Python's `sorted(s, key=lambda e: e[0], reverse=True)`: a stable sort, largest key first. */
  function SortDesc<T(==,!new)>(s: seq<(real, T)>): (r: seq<(real, T)>)
    ensures SortedDesc(r)
    ensures |r| == |s|
    ensures multiset(r) == multiset(s)
  {
    if s == [] then []
    else
      var init, last := s[..|s| - 1], s[|s| - 1];
      assert s == init + [last];
      InsertDesc(SortDesc(init), last)
  }

  /** Two entries with the second key larger are swapped. */
  lemma SortDescTwo<T(!new)>(a: (real, T), b: (real, T))
    requires a.0 < b.0
    ensures SortDesc([a, b]) == [b, a]
  {
    var none: seq<(real, T)> := [];
    assert [a, b][..1] == [a] && [a][..0] == none;
    assert SortDesc([a]) == [a];
    assert InsertDesc(none, b) == [b];
    assert InsertDesc([a], b) == [b, a];
  }

  /** The sort is stable: the entries sharing one key come out in the order they went in. */
  lemma {:induction false} SortDescStable<T(!new)>(s: seq<(real, T)>, v: real)
    ensures WithKey(SortDesc(s), v) == WithKey(s, v)
  {
    if s != [] {
      var init, last := s[..|s| - 1], s[|s| - 1];
      SortDescStable(init, v);
      InsertDescWithKey(SortDesc(init), last, v);
    }
  }
  /** The entries of a keyed sequence without their sort keys. */
  function Unkeyed<T>(s: seq<(real, T)>): (r: seq<T>)
    ensures |r| == |s|
    ensures forall i :: 0 <= i < |s| ==> r[i] == s[i].1
  {
    seq(|s|, i requires 0 <= i < |s| => s[i].1)
  }

  /** Dropping the keys distributes over concatenation. */
  lemma UnkeyedConcat<T>(p: seq<(real, T)>, q: seq<(real, T)>)
    ensures Unkeyed(p + q) == Unkeyed(p) + Unkeyed(q)
  {
  }

  /** Taking the same entry out of two rearrangements of the same entries leaves two rearrangements. */
  lemma RemoveMatching<T>(a: seq<T>, b: seq<T>, j: nat)
    requires multiset(a) == multiset(b) && a != [] && j < |b| && b[j] == a[0]
    ensures multiset(a[1..]) == multiset(b[..j] + b[j + 1..])
  {
    assert a == [a[0]] + a[1..];
    assert b == b[..j] + [b[j]] + b[j + 1..];
    assert multiset(a[1..]) == multiset(a) - multiset{a[0]};
    assert multiset(b[..j] + b[j + 1..]) == multiset(b) - multiset{b[j]};
  }

  /** Dropping the keys of two rearrangements of the same entries leaves two rearrangements of the same values. */
  lemma {:induction false} UnkeyedPermutation<T(!new)>(a: seq<(real, T)>, b: seq<(real, T)>)
    requires multiset(a) == multiset(b)
    ensures multiset(Unkeyed(a)) == multiset(Unkeyed(b))
  {
    if a == [] {
      assert |b| == |multiset(b)| == 0;
    } else {
      var x := a[0];
      assert x in multiset(b);
      var j :| 0 <= j < |b| && b[j] == x;
      var p, q := b[..j], b[j + 1..];
      RemoveMatching(a, b, j);
      UnkeyedPermutation(a[1..], p + q);
      UnkeyedConcat(p, q);
      assert b == p + [x] + q;
      UnkeyedConcat(p + [x], q);
      UnkeyedConcat(p, [x]);
      UnkeyedConcat([x], a[1..]);
      assert a == [x] + a[1..];
    }
  }
}
