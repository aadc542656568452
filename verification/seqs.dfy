/** Sequence helpers shared by the repository's scan loops. */
module Seqs {
  import opened Wrappers

  /** No element occurs twice (a Java Set iterated into a sequence). */
  predicate Distinct<T(==)>(xs: seq<T>) {
    forall a, b :: 0 <= a < b < |xs| ==> xs[a] != xs[b]
  }

  /** The loop "for x in xs: v = f(x); if v != null: result.add(v)". */
  function FilterMap<K, V(==)>(f: K -> Option<V>, xs: seq<K>): (r: seq<V>)
    ensures |r| <= |xs|
    ensures forall v :: v in r ==> exists i :: 0 <= i < |xs| && f(xs[i]) == Some(v)
    ensures forall i :: 0 <= i < |xs| && f(xs[i]).Some? ==> f(xs[i]).value in r
  {
    if |xs| == 0 then []
    else
      var rest := FilterMap(f, xs[1..]);
      assert forall i :: 1 <= i < |xs| ==> xs[1..][i - 1] == xs[i];
      match f(xs[0])
      case None => rest
      case Some(v) => [v] + rest
  }

  /** No two values share a key. */
  predicate DistinctKeys<K(==), V>(key: V -> K, vs: seq<V>) {
    forall a, b :: 0 <= a < b < |vs| ==> key(vs[a]) != key(vs[b])
  }

  /** When every kept value determines the element it came from, distinct
      elements give values with distinct keys. */
  lemma {:induction false} FilterMapKeysDistinct<K, V>(f: K -> Option<V>, key: V -> K, xs: seq<K>)
    requires forall i :: 0 <= i < |xs| && f(xs[i]).Some? ==> key(f(xs[i]).value) == xs[i]
    requires Distinct(xs)
    ensures DistinctKeys(key, FilterMap(f, xs))
  {
    if |xs| > 0 {
      var tail := xs[1..];
      assert forall i :: 0 <= i < |tail| ==> tail[i] == xs[i + 1];
      assert Distinct(tail);
      FilterMapKeysDistinct(f, key, tail);
      var rest := FilterMap(f, tail);
      match f(xs[0])
      case None =>
        assert FilterMap(f, xs) == rest;
        assert DistinctKeys(key, rest);
      case Some(v) =>
        var r := FilterMap(f, xs);
        assert r == [v] + rest;
        forall b | 0 <= b < |rest|
          ensures key(rest[b]) != key(v)
        {
          assert rest[b] in rest;
          var i :| 0 <= i < |tail| && f(tail[i]) == Some(rest[b]);
          assert key(rest[b]) == tail[i] == xs[i + 1] != xs[0];
        }
        assert DistinctKeys(key, rest);
        forall a, b | 0 <= a < b < |r|
          ensures key(r[a]) != key(r[b])
        {
          assert r[b] == rest[b - 1];
          if a == 0 {
            assert r[a] == v;
          } else {
            assert r[a] == rest[a - 1];
            assert key(rest[a - 1]) != key(rest[b - 1]);
          }
        }
    }
  }

  /** The positions of `xs` whose element satisfies `p`. */
  function Positions<K>(p: K -> bool, xs: seq<K>): (r: set<int>)
    ensures forall i :: i in r <==> 0 <= i < |xs| && p(xs[i])
  {
    set i | 0 <= i < |xs| && p(xs[i])
  }

  /** Appending one element adds its position exactly when it satisfies `p`. */
  lemma PositionsSnoc<K>(p: K -> bool, xs: seq<K>)
    requires |xs| > 0
    ensures |Positions(p, xs)| == |Positions(p, xs[..|xs| - 1])| + (if p(xs[|xs| - 1]) then 1 else 0)
  {
    var n := |xs|;
    var before := Positions(p, xs[..n - 1]);
    var now := Positions(p, xs);
    if p(xs[n - 1]) {
      assert now == before + {n - 1};
    } else {
      assert now == before;
    }
  }

  /** The elements of `xs` that satisfy `p`, in order. */
  function Filter<T(==)>(p: T -> bool, xs: seq<T>): (r: seq<T>)
    ensures |r| <= |xs|
    ensures forall i :: 0 <= i < |r| ==> p(r[i]) && r[i] in xs
    ensures forall i :: 0 <= i < |xs| && p(xs[i]) ==> xs[i] in r
  {
    if |xs| == 0 then []
    else
      var front := Filter(p, xs[..|xs| - 1]);
      var last := xs[|xs| - 1];
      assert forall i :: 0 <= i < |xs| - 1 ==> xs[..|xs| - 1][i] == xs[i];
      if p(last) then front + [last] else front
  }

  /** Filtering an extended sequence extends the filtered one by the new
      element exactly when it satisfies `p`. */
  lemma FilterSnoc<T>(p: T -> bool, xs: seq<T>, x: T)
    ensures Filter(p, xs + [x]) == Filter(p, xs) + (if p(x) then [x] else [])
  {
    assert (xs + [x])[..|xs|] == xs;
  }

  /** Filtering by `p` and then by `q` is filtering by their conjunction `pq`. */
  lemma {:induction false} FilterFilter<T>(p: T -> bool, q: T -> bool, pq: T -> bool, xs: seq<T>)
    requires forall x :: pq(x) == (p(x) && q(x))
    ensures Filter(q, Filter(p, xs)) == Filter(pq, xs)
  {
    if |xs| > 0 {
      var front, x := xs[..|xs| - 1], xs[|xs| - 1];
      assert xs == front + [x];
      FilterFilter(p, q, pq, front);
      FilterSnoc(p, front, x);
      FilterSnoc(pq, front, x);
      FilterSnoc(q, Filter(p, front), x);
    }
  }

  /** A filter keeps one element per satisfying position. */
  lemma {:induction false} FilterCount<T>(p: T -> bool, xs: seq<T>)
    ensures |Filter(p, xs)| == |Positions(p, xs)|
  {
    if |xs| == 0 {
      assert Positions(p, xs) == {};
    } else {
      FilterCount(p, xs[..|xs| - 1]);
      PositionsSnoc(p, xs);
    }
  }
}
