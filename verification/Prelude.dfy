/**
 Shared vocabulary: machine bytes and counters, optional values, flattening of
 a sequence of sequences, and a stable sort by an integer key.
 */
module Prelude {

  type byte = b: int | 0 <= b < 0x100

  const U64_LIMIT := 0x1_0000_0000_0000_0000

  type u64 = n: int | 0 <= n < U64_LIMIT

  datatype Option<+T> = None | Some(value: T)

  function Min(a: int, b: int): int { if a <= b then a else b }

  // ---------- Arithmetic ----------

  lemma MultipleAtLeast(d: int, k: int)
    requires 0 < d && 1 <= k
    ensures d <= d * k
  {
    assert 0 <= d * (k - 1);
  }

  lemma MultiplyMonotone(d: nat, a: int, b: int)
    requires a <= b
    ensures d * a <= d * b
  {
    assert 0 <= d * (b - a);
  }

  /** Quotient and remainder are the only pair that adds up. */
  lemma DivModUnique(n: int, d: int, q: int, r: int)
    requires 0 <= r < d && n == d * q + r
    ensures n / d == q && n % d == r
  {
    var gap := q - n / d;
    assert n == d * (n / d) + n % d;
    assert d * gap == n % d - r by {
      assert d * gap == d * q - d * (n / d);
    }
    if gap >= 1 {
      MultipleAtLeast(d, gap);
    } else if gap <= -1 {
      MultipleAtLeast(d, -gap);
    }
  }

  // ---------- Flattening ----------

  function Flatten<T>(parts: seq<seq<T>>): seq<T> {
    if parts == [] then [] else parts[0] + Flatten(parts[1..])
  }

  lemma {:induction false} FlattenAppend<T>(a: seq<seq<T>>, b: seq<seq<T>>)
    ensures Flatten(a + b) == Flatten(a) + Flatten(b)
  {
    if a == [] {
      assert a + b == b;
    } else {
      assert (a + b)[1..] == a[1..] + b;
      FlattenAppend(a[1..], b);
    }
  }

  lemma FlattenSnoc<T>(a: seq<seq<T>>, x: seq<T>)
    ensures Flatten(a + [x]) == Flatten(a) + x
  {
    FlattenAppend(a, [x]);
    assert [x][1..] == [];
    assert Flatten([x]) == x + Flatten<T>([]);
  }

  // ---------- Slices ----------

  lemma SliceOfSlice<T>(s: seq<T>, i: nat, end: nat, a: nat, b: nat)
    requires i <= end <= |s| && a <= b <= end - i
    ensures s[i..end][a..b] == s[i + a..i + b]
  {
    var t := s[i..end];
    assert forall k :: 0 <= k < b - a ==> t[a..b][k] == t[a + k] == s[i + a + k] == s[i + a..i + b][k];
  }

  // ---------- Sorting ----------

  ghost predicate SortedBy<T(!new)>(xs: seq<T>, key: T -> int) {
    forall i, j :: 0 <= i < j < |xs| ==> key(xs[i]) <= key(xs[j])
  }

  /** Insert before the first element with a strictly larger key. */
  function InsertBy<T>(x: T, xs: seq<T>, key: T -> int): (r: seq<T>)
    ensures multiset(r) == multiset(xs) + multiset{x}
  {
    if xs == [] || key(x) < key(xs[0]) then
      [x] + xs
    else
      assert xs == [xs[0]] + xs[1..];
      [xs[0]] + InsertBy(x, xs[1..], key)
  }

  lemma {:induction false} InsertBySorted<T(!new)>(x: T, xs: seq<T>, key: T -> int)
    requires SortedBy(xs, key)
    ensures SortedBy(InsertBy(x, xs, key), key)
  {
    if xs == [] || key(x) < key(xs[0]) {
    } else {
      var rest := xs[1..];
      var tail := InsertBy(x, rest, key);
      InsertBySorted(x, rest, key);
      forall y | y in tail
        ensures key(xs[0]) <= key(y)
      {
        assert y in multiset(tail);
        assert y == x || y in rest;
      }
    }
  }

  /** `sort_by_key`: ascending by key, same elements with the same multiplicity. */
  function SortBy<T>(xs: seq<T>, key: T -> int): (r: seq<T>)
    ensures multiset(r) == multiset(xs)
  {
    if xs == [] then [] else
      assert xs == xs[..|xs| - 1] + [xs[|xs| - 1]];
      InsertBy(xs[|xs| - 1], SortBy(xs[..|xs| - 1], key), key)
  }

  lemma {:induction false} SortBySorted<T(!new)>(xs: seq<T>, key: T -> int)
    ensures SortedBy(SortBy(xs, key), key)
  {
    if xs != [] {
      SortBySorted(xs[..|xs| - 1], key);
      InsertBySorted(xs[|xs| - 1], SortBy(xs[..|xs| - 1], key), key);
    }
  }

  lemma SameElements<T>(xs: seq<T>, ys: seq<T>)
    requires multiset(xs) == multiset(ys)
    ensures |xs| == |ys|
    ensures forall x :: x in xs <==> x in ys
  {
    assert |multiset(xs)| == |xs| && |multiset(ys)| == |ys|;
    forall x
      ensures x in xs <==> x in ys
    {
      assert x in xs <==> x in multiset(xs);
      assert x in ys <==> x in multiset(ys);
    }
  }
}
