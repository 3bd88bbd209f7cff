/** Sequence operations behind the handlers' list comprehensions:
    filtering, mapping, and grouping a list by a key. */
module Sequences {

  predicate NoDuplicates<T(==)>(s: seq<T>) {
    forall i, j :: 0 <= i < j < |s| ==> s[i] != s[j]
  }

  /** `[x for x in s if p(x)]`: the elements of `s` that satisfy `p`, in order. */
  function Filter<T(!new)>(s: seq<T>, p: T -> bool): (r: seq<T>)
    ensures |r| <= |s|
    ensures forall x :: x in r <==> x in s && p(x)
  {
    if s == [] then [] else (if p(s[0]) then [s[0]] else []) + Filter(s[1..], p)
  }

  /** `[f(x) for x in s]`. */
  function MapSeq<T, U>(f: T -> U, s: seq<T>): (r: seq<U>)
    ensures |r| == |s|
    ensures forall i :: 0 <= i < |s| ==> r[i] == f(s[i])
  {
    seq(|s|, i requires 0 <= i < |s| => f(s[i]))
  }

  /** Filtering a sequence with a given first element. */
  lemma FilterCons<T(!new)>(x: T, s: seq<T>, p: T -> bool)
    ensures Filter([x] + s, p) == (if p(x) then [x] else []) + Filter(s, p)
  {
    assert ([x] + s)[0] == x && ([x] + s)[1..] == s;
  }

  /** Filtering keeps order: it distributes over concatenation. */
  lemma {:induction false} FilterConcat<T(!new)>(a: seq<T>, b: seq<T>, p: T -> bool)
    ensures Filter(a + b, p) == Filter(a, p) + Filter(b, p)
  {
    if a == [] {
      assert a + b == b;
    } else {
      assert (a + b)[0] == a[0];
      assert (a + b)[1..] == a[1..] + b;
      FilterConcat(a[1..], b, p);
    }
  }

  /** Filtering with a predicate that holds at position `k` splits around `k`. */
  lemma FilterAround<T(!new)>(s: seq<T>, k: nat, p: T -> bool)
    requires k < |s| && p(s[k])
    ensures Filter(s, p) == Filter(s[..k], p) + [s[k]] + Filter(s[k + 1..], p)
  {
    assert s == s[..k] + s[k..];
    FilterConcat(s[..k], s[k..], p);
    assert s[k..][0] == s[k] && s[k..][1..] == s[k + 1..];
  }

  /** Where the element at `k` lands in the filtered sequence: after exactly
      the selected elements before it. */
  lemma FilterPosition<T(!new)>(s: seq<T>, k: nat, p: T -> bool)
    requires k < |s| && p(s[k])
    ensures |Filter(s[..k], p)| < |Filter(s, p)|
    ensures Filter(s, p)[|Filter(s[..k], p)|] == s[k]
    ensures Filter(s, p)[..|Filter(s[..k], p)|] == Filter(s[..k], p)
  {
    FilterAround(s, k, p);
  }

  /** Filtering a prefix one element longer. */
  lemma FilterSnoc<T(!new)>(s: seq<T>, i: nat, p: T -> bool)
    requires i < |s|
    ensures Filter(s[..i + 1], p) == Filter(s[..i], p) + (if p(s[i]) then [s[i]] else [])
  {
    assert s[..i + 1] == s[..i] + [s[i]];
    FilterConcat(s[..i], [s[i]], p);
  }

  /** Filtering a prefix gives a prefix of the filtered sequence. */
  lemma FilterPrefix<T(!new)>(s: seq<T>, n: nat, p: T -> bool)
    requires n <= |s|
    ensures Filter(s[..n], p) <= Filter(s, p)
  {
    assert s == s[..n] + s[n..];
    FilterConcat(s[..n], s[n..], p);
  }

  /** The multiset of a sequence is the sum of those of its two parts. */
  lemma MultisetSplit<T>(s: seq<T>, n: nat)
    requires n <= |s|
    ensures multiset(s) == multiset(s[..n]) + multiset(s[n..])
  {
    assert s == s[..n] + s[n..];
  }

  /** Two predicates that agree on the elements of `s` select the same subsequence. */
  lemma {:induction false} FilterCongruent<T(!new)>(s: seq<T>, p: T -> bool, q: T -> bool)
    requires forall x :: x in s ==> p(x) == q(x)
    ensures Filter(s, p) == Filter(s, q)
  {
    if s != [] {
      assert forall x :: x in s[1..] ==> x in s;
      FilterCongruent(s[1..], p, q);
    }
  }

  /** Filtering by a weaker predicate first does not change the result. */
  lemma {:induction false} FilterNarrowing<T(!new)>(s: seq<T>, p: T -> bool, q: T -> bool)
    requires forall x :: x in s && q(x) ==> p(x)
    ensures Filter(Filter(s, p), q) == Filter(s, q)
  {
    if s != [] {
      var head, tail := s[0], s[1..];
      assert forall x :: x in tail ==> x in s;
      FilterNarrowing(tail, p, q);
      assert Filter(s, q) == (if q(head) then [head] else []) + Filter(tail, q);
      if p(head) {
        var fp := Filter(s, p);
        assert fp == [head] + Filter(tail, p);
        assert fp[0] == head && fp[1..] == Filter(tail, p);
        assert Filter(fp, q) == (if q(head) then [head] else []) + Filter(fp[1..], q);
      } else {
        assert Filter(s, p) == Filter(tail, p);
        assert head in s;
      }
    }
  }

  /** A predicate that no element satisfies selects nothing. */
  lemma {:induction false} FilterNone<T(!new)>(s: seq<T>, p: T -> bool)
    requires forall x :: x in s ==> !p(x)
    ensures Filter(s, p) == []
  {
    if s != [] {
      assert forall x :: x in s[1..] ==> x in s;
      FilterNone(s[1..], p);
    }
  }

  /** The predicate "has key k". */
  function HasKey<T, K(==)>(key: T -> K, k: K): T -> bool {
    x => key(x) == k
  }

  /** Sum, over the keys `ks`, of the sizes of the groups they select. */
  function GroupSizes<T(!new), K(==)>(s: seq<T>, key: T -> K, ks: seq<K>): nat {
    if ks == [] then 0 else |Filter(s, HasKey(key, ks[0]))| + GroupSizes(s, key, ks[1..])
  }

  /** Union, over the keys `ks`, of the groups they select, each mapped through `f`. */
  function GroupUnion<T(!new), K(==), V>(s: seq<T>, key: T -> K, f: T -> V, ks: seq<K>): multiset<V> {
    if ks == [] then multiset{}
    else multiset(MapSeq(f, Filter(s, HasKey(key, ks[0])))) + GroupUnion(s, key, f, ks[1..])
  }

  /** Mapping a sequence with a given first element. */
  lemma MapSeqCons<T, U>(f: T -> U, x: T, s: seq<T>)
    ensures MapSeq(f, [x] + s) == [f(x)] + MapSeq(f, s)
  {
    var l, r := MapSeq(f, [x] + s), [f(x)] + MapSeq(f, s);
    assert |l| == |r|;
    forall i | 0 <= i < |l| ensures l[i] == r[i] {
      if i > 0 { assert ([x] + s)[i] == s[i - 1]; }
    }
  }

  /** The mapped multiset of a non-empty sequence, split at its first element. */
  lemma MapSeqHead<T, U>(f: T -> U, s: seq<T>)
    requires s != []
    ensures multiset(MapSeq(f, s)) == multiset{f(s[0])} + multiset(MapSeq(f, s[1..]))
  {
    var l, r := MapSeq(f, s), [f(s[0])] + MapSeq(f, s[1..]);
    forall i | 0 <= i < |l| ensures l[i] == r[i] {
      if i > 0 { assert s[1..][i - 1] == s[i]; }
    }
    assert l == r;
  }

  /** The first element's key is counted in at most one group. */
  lemma {:induction false} GroupSizesHead<T(!new), K>(s: seq<T>, key: T -> K, ks: seq<K>)
    requires s != [] && NoDuplicates(ks)
    ensures GroupSizes(s, key, ks) == (if key(s[0]) in ks then 1 else 0) + GroupSizes(s[1..], key, ks)
  {
    if ks != [] {
      var p := HasKey(key, ks[0]);
      assert p(s[0]) == (key(s[0]) == ks[0]);
      assert |Filter(s, p)| == (if p(s[0]) then 1 else 0) + |Filter(s[1..], p)|;
      assert key(s[0]) in ks <==> key(s[0]) == ks[0] || key(s[0]) in ks[1..];
      assert key(s[0]) == ks[0] ==> key(s[0]) !in ks[1..];
      GroupSizesHead(s, key, ks[1..]);
    }
  }

  /** The first element lands in at most one group. */
  lemma {:induction false} GroupUnionHead<T(!new), K, V>(s: seq<T>, key: T -> K, f: T -> V, ks: seq<K>)
    requires s != [] && NoDuplicates(ks)
    ensures GroupUnion(s, key, f, ks)
         == (if key(s[0]) in ks then multiset{f(s[0])} else multiset{}) + GroupUnion(s[1..], key, f, ks)
  {
    if ks != [] {
      var p := HasKey(key, ks[0]);
      var rest := Filter(s[1..], p);
      assert p(s[0]) == (key(s[0]) == ks[0]);
      if p(s[0]) {
        assert Filter(s, p) == [s[0]] + rest;
        MapSeqCons(f, s[0], rest);
        assert multiset(MapSeq(f, Filter(s, p))) == multiset{f(s[0])} + multiset(MapSeq(f, rest));
      } else {
        assert Filter(s, p) == rest;
      }
      assert key(s[0]) in ks <==> key(s[0]) == ks[0] || key(s[0]) in ks[1..];
      assert key(s[0]) == ks[0] ==> key(s[0]) !in ks[1..];
      GroupUnionHead(s, key, f, ks[1..]);
    }
  }

  /** When every element's key is listed once in `ks`, the group sizes add up to `|s|`. */
  lemma {:induction false} GroupSizesTotal<T(!new), K>(s: seq<T>, key: T -> K, ks: seq<K>)
    requires NoDuplicates(ks)
    requires forall x :: x in s ==> key(x) in ks
    ensures GroupSizes(s, key, ks) == |s|
    decreases |s|, |ks|
  {
    if s == [] {
      if ks != [] {
        assert Filter(s, HasKey(key, ks[0])) == [];
        GroupSizesTotal(s, key, ks[1..]);
      }
    } else {
      assert s[0] in s;
      assert forall x :: x in s[1..] ==> x in s;
      GroupSizesHead(s, key, ks);
      GroupSizesTotal(s[1..], key, ks);
    }
  }

  /** When every element's key is listed once in `ks`, the groups partition `s`:
      each element lands in exactly one group. */
  lemma {:induction false} GroupsPartition<T(!new), K, V>(s: seq<T>, key: T -> K, f: T -> V, ks: seq<K>)
    requires NoDuplicates(ks)
    requires forall x :: x in s ==> key(x) in ks
    ensures GroupUnion(s, key, f, ks) == multiset(MapSeq(f, s))
    decreases |s|, |ks|
  {
    if s == [] {
      if ks != [] {
        assert Filter(s, HasKey(key, ks[0])) == [];
        GroupsPartition(s, key, f, ks[1..]);
      }
    } else {
      assert s[0] in s;
      assert forall x :: x in s[1..] ==> x in s;
      GroupUnionHead(s, key, f, ks);
      GroupsPartition(s[1..], key, f, ks);
      MapSeqHead(f, s);
    }
  }

  /** Sum of the values of `m` at the keys `ks`, a missing key counting 0. */
  function SumOver<K>(m: map<K, nat>, ks: seq<K>): nat {
    if ks == [] then 0 else (if ks[0] in m then m[ks[0]] else 0) + SumOver(m, ks[1..])
  }

  /** A map holding the group sizes (or nothing, for an empty group) sums to `GroupSizes`. */
  lemma {:induction false} SumOverGroupSizes<T(!new), K>(m: map<K, nat>, s: seq<T>, key: T -> K, ks: seq<K>)
    requires forall k :: k in ks ==> (if k in m then m[k] else 0) == |Filter(s, HasKey(key, k))|
    ensures SumOver(m, ks) == GroupSizes(s, key, ks)
  {
    if ks != [] {
      assert ks[0] in ks;
      assert forall k :: k in ks[1..] ==> k in ks;
      SumOverGroupSizes(m, s, key, ks[1..]);
    }
  }
}
