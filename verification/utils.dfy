/** The two slice helpers of utils/map.go. */
module Utils {

  /** utils.Map: apply `f` to every element, keeping positions. */
  function Map<T, U>(ts: seq<T>, f: T -> U): (us: seq<U>)
    ensures |us| == |ts|
    ensures forall i :: 0 <= i < |ts| ==> us[i] == f(ts[i])
  {
    if ts == [] then [] else [f(ts[0])] + Map(ts[1..], f)
  }

  /** utils.Filter: the elements satisfying `f`, in their original order. */
  function Filter<T(!new)>(ts: seq<T>, f: T -> bool): (us: seq<T>)
    ensures |us| <= |ts|
    ensures forall x :: x in us ==> x in ts && f(x)
    ensures forall x :: x in ts && f(x) ==> x in us
  {
    if ts == [] then []
    else
      var rest := Filter(ts[1..], f);
      assert ts == [ts[0]] + ts[1..];
      if f(ts[0]) then [ts[0]] + rest else rest
  }

  /** Filtering keeps every occurrence of an element that satisfies `f` and
      none of one that does not. */
  lemma {:induction false} FilterCounts<T(!new)>(ts: seq<T>, f: T -> bool)
    ensures forall x :: multiset(Filter(ts, f))[x] == if f(x) then multiset(ts)[x] else 0
  {
    if ts != [] {
      FilterCounts(ts[1..], f);
      assert ts == [ts[0]] + ts[1..];
    }
  }

  /** Filtering keeps relative order: any relation that holds between every
      earlier and later element of the input holds in the output too. With a
      strict order as `rel`, filtering a sorted slice yields a sorted slice. */
  lemma {:induction false} FilterKeepsOrder<T(!new)>(ts: seq<T>, f: T -> bool, rel: (T, T) -> bool)
    requires forall i, j :: 0 <= i < j < |ts| ==> rel(ts[i], ts[j])
    ensures forall i, j :: 0 <= i < j < |Filter(ts, f)| ==> rel(Filter(ts, f)[i], Filter(ts, f)[j])
  {
    if ts != [] {
      var tail := ts[1..];
      var rest := Filter(tail, f);
      assert forall i, j :: 0 <= i < j < |tail| ==> rel(tail[i], tail[j]) by {
        forall i, j | 0 <= i < j < |tail| ensures rel(tail[i], tail[j]) {
          assert tail[i] == ts[i + 1] && tail[j] == ts[j + 1];
        }
      }
      FilterKeepsOrder(tail, f, rel);
      var us := Filter(ts, f);
      if f(ts[0]) {
        assert us == [ts[0]] + rest;
        forall i, j | 0 <= i < j < |us| ensures rel(us[i], us[j]) {
          if i == 0 {
            assert us[j] == rest[j - 1] && rest[j - 1] in rest;
            var k :| 0 <= k < |tail| && tail[k] == us[j];
            assert ts[k + 1] == us[j] && us[0] == ts[0];
            assert rel(ts[0], ts[k + 1]);
          } else {
            assert us[i] == rest[i - 1] && us[j] == rest[j - 1];
          }
        }
      } else {
        assert us == rest;
      }
    }
  }

  /** Filtering a duplicate-free sequence yields a duplicate-free sequence. */
  ghost predicate Distinct<T>(ts: seq<T>)
  {
    forall i, j :: 0 <= i < j < |ts| ==> ts[i] != ts[j]
  }

  lemma FilterDistinct<T(!new)>(ts: seq<T>, f: T -> bool)
    requires Distinct(ts)
    ensures Distinct(Filter(ts, f))
  {
    FilterKeepsOrder(ts, f, (a, b) => a != b);
  }

  /** In a duplicate-free sequence every element occurs once. */
  lemma {:induction false} DistinctCount<T>(ts: seq<T>, x: T)
    requires Distinct(ts)
    ensures multiset(ts)[x] == if x in ts then 1 else 0
  {
    if ts != [] {
      assert ts == [ts[0]] + ts[1..];
      assert Distinct(ts[1..]) by {
        forall i, j | 0 <= i < j < |ts[1..]|
          ensures ts[1..][i] != ts[1..][j]
        {
          assert ts[1..][i] == ts[i + 1] && ts[1..][j] == ts[j + 1];
        }
      }
      DistinctCount(ts[1..], x);
      assert ts[0] !in ts[1..] by {
        forall k | 0 <= k < |ts[1..]|
          ensures ts[1..][k] != ts[0]
        {
          assert ts[1..][k] == ts[k + 1];
        }
      }
      assert multiset(ts) == multiset{ts[0]} + multiset(ts[1..]);
    }
  }

  /** Two duplicate-free enumerations of the same elements are
      rearrangements of each other. */
  lemma DistinctSameMultiset<T>(a: seq<T>, b: seq<T>)
    requires Distinct(a) && Distinct(b)
    requires forall x :: x in a <==> x in b
    ensures multiset(a) == multiset(b)
  {
    forall x
      ensures multiset(a)[x] == multiset(b)[x]
    {
      DistinctCount(a, x);
      DistinctCount(b, x);
    }
  }

  /** A duplicate-free sequence has as many elements as its set. */
  lemma {:induction false} DistinctSize<T>(ts: seq<T>)
    requires Distinct(ts)
    ensures |set x | x in ts| == |ts|
  {
    if ts != [] {
      var tail := ts[1..];
      assert Distinct(tail) by {
        forall i, j | 0 <= i < j < |tail|
          ensures tail[i] != tail[j]
        {
          assert tail[i] == ts[i + 1] && tail[j] == ts[j + 1];
        }
      }
      DistinctSize(tail);
      assert ts[0] !in tail by {
        forall k | 0 <= k < |tail|
          ensures tail[k] != ts[0]
        {
          assert tail[k] == ts[k + 1];
        }
      }
      assert ts == [ts[0]] + tail;
      assert (set x | x in ts) == {ts[0]} + (set x | x in tail);
    }
  }

  /** Cutting out position i removes one occurrence of its element. */
  lemma MultisetWithout<T>(b: seq<T>, i: nat)
    requires i < |b|
    ensures multiset(b[..i] + b[i + 1..]) == multiset(b) - multiset{b[i]}
  {
    assert b == b[..i] + [b[i]] + b[i + 1..];
    assert multiset(b) == multiset(b[..i]) + multiset{b[i]} + multiset(b[i + 1..]);
  }

  /** Position j of b with position i cut out. */
  lemma WithoutAt<T>(b: seq<T>, i: nat, j: nat)
    requires i < |b| && j < |b| - 1
    ensures (b[..i] + b[i + 1..])[j] == if j < i then b[j] else b[j + 1]
  {
  }

  /** Cutting out a position adds no element. */
  lemma WithoutMembers<T>(b: seq<T>, i: nat)
    requires i < |b|
    ensures forall x :: x in b[..i] + b[i + 1..] ==> x in b
  {
    assert forall x :: x in b[..i] + b[i + 1..] ==> x in b[..i] || x in b[i + 1..];
  }

  /** Sequences with the same elements have the same images. */
  lemma MapSameImage<T, U>(a: seq<T>, b: seq<T>, f: T -> U)
    requires forall x :: x in a <==> x in b
    ensures forall y :: y in Map(a, f) <==> y in Map(b, f)
  {
    forall y | y in Map(a, f) ensures y in Map(b, f) {
      var i :| 0 <= i < |a| && Map(a, f)[i] == y;
      assert a[i] in b;
      var j :| 0 <= j < |b| && b[j] == a[i];
      assert Map(b, f)[j] == y;
    }
    forall y | y in Map(b, f) ensures y in Map(a, f) {
      var i :| 0 <= i < |b| && Map(b, f)[i] == y;
      assert b[i] in a;
      var j :| 0 <= j < |a| && a[j] == b[i];
      assert Map(a, f)[j] == y;
    }
  }
}
