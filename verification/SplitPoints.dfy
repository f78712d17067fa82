/**
 Where a ClientHello is cut: evenly, at random, or around its host name.
 */
module SplitPoints {
  import opened Prelude
  import opened ClientHello
  import opened ServerName
  import opened Profiles

  /** Strictly ascending positions strictly inside (0, n). */
  ghost predicate Cuts(points: seq<nat>, n: nat) {
    && (forall i {:trigger points[i]} :: 0 <= i < |points| ==> 0 < points[i] < n)
    && (forall i, j {:trigger points[i], points[j]} :: 0 <= i < j < |points| ==> points[i] < points[j])
  }

  // ---------- Even splits ----------

  /** The i-th of k evenly spaced positions in n. */
  function Even(n: nat, k: nat, i: nat): nat
    requires 0 < k
  {
    n * i / k
  }

  function CeilDiv(n: nat, k: nat): nat
    requires 0 < k
  {
    if n % k == 0 then n / k else n / k + 1
  }

  /** Consecutive even positions differ by the floor or the ceiling of n / k. */
  lemma EvenStep(n: nat, k: nat, i: nat)
    requires 0 < k
    ensures Even(n, k, i + 1) == Even(n, k, i) + n / k || Even(n, k, i + 1) == Even(n, k, i) + CeilDiv(n, k)
  {
    var a, q, r := n * i, n / k, n % k;
    var b, s := a / k, a % k;
    assert n == k * q + r && a == k * b + s;
    assert n * (i + 1) == a + n;
    if s + r < k {
      assert k * (b + q) == k * b + k * q;
      DivModUnique(a + n, k, b + q, s + r);
    } else {
      assert k * (b + q + 1) == k * b + k * q + k;
      DivModUnique(a + n, k, b + q + 1, s + r - k);
    }
  }

  lemma EvenEnds(n: nat, k: nat)
    requires 0 < k
    ensures Even(n, k, 0) == 0 && Even(n, k, k) == n
  {
    DivModUnique(n * k, k, n, 0);
    assert n * 0 == 0;
  }

  lemma EvenBelow(n: nat, k: nat, i: nat)
    requires 0 < n && i < k
    ensures Even(n, k, i) < n
  {
    var q := Even(n, k, i);
    assert n * i == k * q + (n * i) % k;
    assert n * (k - 1) == k * n - n;
    if q >= n {
      MultiplyMonotone(n, i, k - 1);
      MultiplyMonotone(k, n, q);
    }
  }

  lemma FloorPositive(n: nat, k: nat)
    requires 0 < k <= n
    ensures 1 <= n / k
  {
    assert n == k * (n / k) + n % k;
  }

  lemma FloorZero(n: nat, k: nat)
    requires n < k
    ensures n / k == 0 && CeilDiv(n, k) == if n == 0 then 0 else 1
  {
    DivModUnique(n, k, 0, n);
  }

  lemma {:induction false} EvenGrows(n: nat, k: nat, i: nat)
    requires 0 < k <= n
    ensures i <= Even(n, k, i)
  {
    if i == 0 {
      EvenEnds(n, k);
    } else {
      EvenGrows(n, k, i - 1);
      EvenStep(n, k, i - 1);
      FloorPositive(n, k);
    }
  }

  /** The j-th cut of an even split: an even position, or every position when there are fewer bytes than chunks. */
  function EvenCut(n: nat, k: nat, j: nat): nat
    requires 0 < k
  {
    if k <= n then Even(n, k, j) else j
  }

  /** `equal_splits`. */
  method EqualSplits(n: nat, k: nat) returns (out: seq<nat>)
    ensures k <= 1 || n == 0 ==> out == []
    ensures k >= 2 && n >= 1 ==> |out| == Min(n, k) - 1
    ensures k >= 2 ==> forall j {:trigger out[j]} :: 0 <= j < |out| ==> out[j] == EvenCut(n, k, j + 1)
  {
    out := [];
    if k <= 1 || n == 0 {
      return;
    }
    var prev := 0;
    EvenEnds(n, k);
    for i := 1 to k
      invariant prev == Even(n, k, i - 1)
      invariant |out| == if k <= n then i - 1 else prev
      invariant forall j {:trigger out[j]} :: 0 <= j < |out| ==> out[j] == EvenCut(n, k, j + 1)
    {
      var p := n * i / k;
      EvenStep(n, k, i - 1);
      EvenBelow(n, k, i);
      if k <= n {
        EvenGrows(n, k, i);
        FloorPositive(n, k);
      } else {
        FloorZero(n, k);
      }
      if p == 0 || p == n {
        continue;
      }
      if p == prev {
        continue;
      }
      out := out + [p];
      prev := p;
    }
    EvenStep(n, k, k - 1);
    EvenBelow(n, k, k - 1);
    if n < k {
      FloorZero(n, k);
    }
  }

  /** The positions that delimit the chunks: both ends and the cuts. */
  function Bounds(points: seq<nat>, n: nat): (bs: seq<nat>)
    ensures |bs| == |points| + 2
  {
    [0] + points + [n]
  }

  predicate Steps(from: nat, to: nat, lo: nat, hi: nat) {
    from < to && (to == from + lo || to == from + hi)
  }

  ghost predicate StepAt(cut: nat -> nat, j: nat, lo: nat, hi: nat) { Steps(cut(j), cut(j + 1), lo, hi) }

  /** The cuts are the values of `cut` at 1, 2, ..., and `cut` rises from 0 to n in steps of lo or hi. */
  ghost predicate Stepped(out: seq<nat>, n: nat, cut: nat -> nat, lo: nat, hi: nat) {
    && (forall j {:trigger out[j]} :: 0 <= j < |out| ==> out[j] == cut(j + 1))
    && cut(0) == 0 && cut(|out| + 1) == n
    && (forall j: nat {:trigger StepAt(cut, j, lo, hi)} :: j <= |out| ==> StepAt(cut, j, lo, hi))
  }

  lemma {:induction false} SteppedAscends(out: seq<nat>, n: nat, cut: nat -> nat, lo: nat, hi: nat, i: nat, j: nat)
    requires Stepped(out, n, cut, lo, hi) && i < j <= |out| + 1
    ensures cut(i) < cut(j)
  {
    assert StepAt(cut, j - 1, lo, hi);
    if i < j - 1 {
      SteppedAscends(out, n, cut, lo, hi, i, j - 1);
    }
  }

  ghost predicate ChunkSize(points: seq<nat>, n: nat, j: nat, lo: nat, hi: nat)
    requires j <= |points|
  {
    Steps(Bounds(points, n)[j], Bounds(points, n)[j + 1], lo, hi)
  }

  /** Every chunk the cuts delimit has lo or hi bytes. */
  ghost predicate SizesAre(points: seq<nat>, n: nat, lo: nat, hi: nat) {
    forall j: nat {:trigger ChunkSize(points, n, j, lo, hi)} :: j <= |points| ==> ChunkSize(points, n, j, lo, hi)
  }

  lemma SteppedSizes(out: seq<nat>, n: nat, cut: nat -> nat, lo: nat, hi: nat)
    requires Stepped(out, n, cut, lo, hi)
    ensures SizesAre(out, n, lo, hi)
  {
    forall j: nat | j <= |out|
      ensures ChunkSize(out, n, j, lo, hi)
    {
      assert StepAt(cut, j, lo, hi);
    }
  }

  lemma SteppedIsCuts(out: seq<nat>, n: nat, cut: nat -> nat, lo: nat, hi: nat)
    requires Stepped(out, n, cut, lo, hi)
    ensures Cuts(out, n)
  {
    forall i | 0 <= i < |out|
      ensures 0 < out[i] < n
    {
      SteppedAscends(out, n, cut, lo, hi, 0, i + 1);
      SteppedAscends(out, n, cut, lo, hi, i + 1, |out| + 1);
    }
    forall i, j | 0 <= i < j < |out|
      ensures out[i] < out[j]
    {
      SteppedAscends(out, n, cut, lo, hi, i + 1, j + 1);
    }
  }

  lemma EvenCutStep(n: nat, k: nat, j: nat)
    requires 0 < k && 0 < n
    ensures Steps(EvenCut(n, k, j), EvenCut(n, k, j + 1), n / k, CeilDiv(n, k))
  {
    if k <= n {
      EvenStep(n, k, j);
      FloorPositive(n, k);
    } else {
      FloorZero(n, k);
    }
  }

  ghost predicate IsEvenSplit(out: seq<nat>, n: nat, k: nat) {
    && k >= 2 && n >= 1 && |out| == Min(n, k) - 1
    && forall j {:trigger out[j]} :: 0 <= j < |out| ==> out[j] == EvenCut(n, k, j + 1)
  }

  /** An even split into k has exactly min(n, k) chunks, each of the floor or the ceiling of n / k bytes. */
  lemma EvenIsCuts(out: seq<nat>, n: nat, k: nat)
    requires IsEvenSplit(out, n, k)
    ensures Cuts(out, n) && SizesAre(out, n, n / k, CeilDiv(n, k))
  {
    var cut := (j: nat) => EvenCut(n, k, j);
    EvenIsStepped(out, n, k, cut);
    SteppedIsCuts(out, n, cut, n / k, CeilDiv(n, k));
    SteppedSizes(out, n, cut, n / k, CeilDiv(n, k));
  }

  lemma EvenIsStepped(out: seq<nat>, n: nat, k: nat, cut: nat -> nat)
    requires IsEvenSplit(out, n, k) && forall j: nat {:trigger cut(j)} :: cut(j) == EvenCut(n, k, j)
    ensures Stepped(out, n, cut, n / k, CeilDiv(n, k))
  {
    EvenEnds(n, k);
    forall j: nat | j <= |out|
      ensures StepAt(cut, j, n / k, CeilDiv(n, k))
    {
      EvenCutStep(n, k, j);
    }
  }

  // ---------- Normalising ----------

  function Identity(x: nat): int { x }

  function Dedup(xs: seq<nat>): seq<nat> {
    if |xs| <= 1 then xs
    else if xs[0] == xs[1] then Dedup(xs[1..])
    else [xs[0]] + Dedup(xs[1..])
  }

  function Inside(xs: seq<nat>, n: nat): seq<nat> {
    if xs == [] then [] else (if 0 < xs[0] < n then [xs[0]] else []) + Inside(xs[1..], n)
  }

  /** Drop positions outside (0, n), sort, and remove repeats. */
  function Normalize(xs: seq<nat>, n: nat): seq<nat> { Dedup(SortBy(Inside(xs, n), Identity)) }

  lemma {:induction false} InsideMembers(xs: seq<nat>, n: nat)
    ensures forall x :: x in Inside(xs, n) <==> x in xs && 0 < x < n
  {
    if xs != [] {
      InsideMembers(xs[1..], n);
      assert forall x :: x in xs <==> x == xs[0] || x in xs[1..];
    }
  }

  lemma {:induction false} DedupMembers(xs: seq<nat>)
    ensures forall x :: x in Dedup(xs) <==> x in xs
  {
    if |xs| > 1 {
      var rest := xs[1..];
      DedupMembers(rest);
      assert forall x :: x in xs <==> x == xs[0] || x in rest;
      assert xs[0] == xs[1] ==> xs[0] == rest[0] && xs[0] in rest;
    }
  }

  lemma SortedTail(xs: seq<nat>)
    requires SortedBy(xs, Identity) && |xs| > 1
    ensures SortedBy(xs[1..], Identity)
    ensures xs[0] != xs[1] ==> forall x :: x in xs[1..] ==> xs[0] < x
  {
    var rest := xs[1..];
    assert forall i {:trigger rest[i]} :: 0 <= i < |rest| ==> rest[i] == xs[i + 1];
    if xs[0] != xs[1] {
      forall x | x in rest
        ensures xs[0] < x
      {
        var k :| 0 <= k < |rest| && rest[k] == x;
        assert Identity(xs[0]) <= Identity(xs[1]) && (k > 0 ==> Identity(xs[1]) <= Identity(xs[k + 1]));
      }
    }
  }

  lemma {:induction false} DedupAscends(xs: seq<nat>)
    requires SortedBy(xs, Identity)
    ensures forall i, j :: 0 <= i < j < |Dedup(xs)| ==> Dedup(xs)[i] < Dedup(xs)[j]
  {
    if |xs| > 1 {
      SortedTail(xs);
      DedupAscends(xs[1..]);
      DedupMembers(xs[1..]);
      var d := Dedup(xs[1..]);
      assert forall j {:trigger d[j]} :: 0 <= j < |d| ==> d[j] in d;
    }
  }

  /** Normalising keeps exactly the positions inside (0, n), once each, in order. */
  lemma NormalizeCuts(xs: seq<nat>, n: nat)
    ensures Cuts(Normalize(xs, n), n)
    ensures forall x :: x in Normalize(xs, n) <==> x in xs && 0 < x < n
  {
    var inside := Inside(xs, n);
    InsideMembers(xs, n);
    SameElements(SortBy(inside, Identity), inside);
    SortBySorted(inside, Identity);
    DedupAscends(SortBy(inside, Identity));
    DedupMembers(SortBy(inside, Identity));
    AscendingInside(Normalize(xs, n), n);
  }

  lemma AscendingInside(out: seq<nat>, n: nat)
    requires forall i, j :: 0 <= i < j < |out| ==> out[i] < out[j]
    requires forall x :: x in out ==> 0 < x < n
    ensures Cuts(out, n)
  {
    assert forall i {:trigger out[i]} :: 0 <= i < |out| ==> out[i] in out;
  }

  lemma CutsFixed(xs: seq<nat>, n: nat)
    requires Cuts(xs, n)
    ensures Normalize(xs, n) == xs
  {
    NormalizeCuts(xs, n);
    AscendingSetUnique(Normalize(xs, n), xs, n);
  }

  lemma CutsTail(xs: seq<nat>, n: nat)
    requires Cuts(xs, n) && xs != []
    ensures Cuts(xs[1..], n)
    ensures forall x :: x in xs[1..] <==> x in xs && x != xs[0]
    ensures forall x :: x in xs ==> xs[0] <= x
  {
    forall x | x in xs && x != xs[0]
      ensures x in xs[1..]
    {
      var k :| 0 <= k < |xs| && xs[k] == x;
      assert xs[1..][k - 1] == x;
    }
  }

  lemma SomeMember(ys: seq<nat>)
    requires ys != []
    ensures exists y :: y in ys
  {
    assert ys[0] in ys;
  }

  lemma {:induction false} AscendingSetUnique(xs: seq<nat>, ys: seq<nat>, n: nat)
    requires Cuts(xs, n) && Cuts(ys, n) && forall x :: x in xs <==> x in ys
    ensures xs == ys
  {
    if xs == [] {
      if ys != [] {
        SomeMember(ys);
      }
    } else {
      assert xs[0] in ys && ys != [];
      CutsTail(xs, n);
      CutsTail(ys, n);
      assert ys[0] in ys;
      AscendingSetUnique(xs[1..], ys[1..], n);
    }
  }

  // ---------- Random splits ----------

  function Swap(s: seq<nat>, i: nat, j: nat): seq<nat>
    requires i < |s| && j < |s|
  {
    s[i := s[j]][j := s[i]]
  }

  /** Draw k picks among the positions that are still open after k swaps. */
  ghost predicate ValidDraws(draws: seq<nat>, pool: nat) {
    |draws| <= pool && forall k {:trigger draws[k]} :: 0 <= k < |draws| ==> draws[k] < pool - k
  }

  /** Partial Fisher-Yates from position i on. */
  ghost function Shuffle(s: seq<nat>, i: nat, draws: seq<nat>): (r: seq<nat>)
    requires i <= |s| && ValidDraws(draws, |s| - i)
    ensures |r| == |s|
    decreases |draws|
  {
    if draws == [] then s
    else
      assert forall k {:trigger draws[1..][k]} :: 0 <= k < |draws[1..]| ==> draws[1..][k] == draws[k + 1];
      Shuffle(Swap(s, i, i + draws[0]), i + 1, draws[1..])
  }

  function Pool(n: nat): (s: seq<nat>)
    requires 1 <= n
    ensures |s| == n - 1 && forall k {:trigger s[k]} :: 0 <= k < |s| ==> s[k] == k + 1
  {
    seq(n - 1, k => k + 1)
  }

  function Take(n: nat, count: nat): nat { if n <= 1 || count == 0 then 0 else Min(count, n - 1) }

  /** `random_splits`, with the generator's draws as an input. */
  method RandomSplits(n: nat, count: nat, draws: seq<nat>) returns (out: seq<nat>)
    requires |draws| == Take(n, count) && ValidDraws(draws, if n <= 1 then 0 else n - 1)
    ensures |out| == (if n <= 1 then 0 else Min(count, n - 1)) && Cuts(out, n)
    ensures n >= 2 ==> out == SortBy(Shuffle(Pool(n), 0, draws)[..Take(n, count)], Identity)
  {
    if n <= 1 || count == 0 {
      return [];
    }
    var idx := new nat[n - 1](k => k + 1);
    assert idx[..] == Pool(n);
    PartialShuffle(idx, draws);
    var take := Min(count, n - 1);
    out := SortBy(idx[..take], Identity);
    PickedAreCuts(n, draws);
    assert idx[..take] == idx[..][..take];
  }

  /** Swap each leading position with a drawn position at or after it. */
  method PartialShuffle(idx: array<nat>, draws: seq<nat>)
    requires ValidDraws(draws, idx.Length)
    modifies idx
    ensures idx[..] == Shuffle(old(idx[..]), 0, draws)
  {
    ghost var start := idx[..];
    assert draws[0..] == draws;
    for i := 0 to |draws|
      invariant ValidDraws(draws[i..], idx.Length - i)
      invariant Shuffle(idx[..], i, draws[i..]) == Shuffle(start, 0, draws)
    {
      var j := i + draws[i];
      DrawsTail(draws, i, idx.Length);
      ghost var before := idx[..];
      idx[i], idx[j] := idx[j], idx[i];
      assert idx[..] == Swap(before, i, j);
    }
  }

  lemma DrawsTail(draws: seq<nat>, i: nat, pool: nat)
    requires ValidDraws(draws, pool) && i < |draws|
    ensures draws[i..][0] == draws[i] && draws[i..][1..] == draws[i + 1..]
    ensures ValidDraws(draws[i + 1..], pool - (i + 1))
  {
    var rest := draws[i + 1..];
    assert forall k {:trigger rest[k]} :: 0 <= k < |rest| ==> rest[k] == draws[i + 1 + k];
  }

  // ---------- What a shuffle can pick ----------

  ghost predicate Distinct(s: seq<nat>) {
    forall i, j {:trigger s[i], s[j]} :: 0 <= i < j < |s| ==> s[i] != s[j]
  }

  lemma SwapKeeps(s: seq<nat>, i: nat, j: nat)
    requires i <= j < |s| && Distinct(s)
    ensures Distinct(Swap(s, i, j))
    ensures forall x :: x in Swap(s, i, j) <==> x in s
  {
    var t := Swap(s, i, j);
    assert t[i] == s[j] && t[j] == s[i];
    assert forall k {:trigger t[k]} :: 0 <= k < |s| && k != i && k != j ==> t[k] == s[k];
    forall x | x in s
      ensures x in t
    {
      var k :| 0 <= k < |s| && s[k] == x;
      assert k == i ==> t[j] == x;
      assert k == j ==> t[i] == x;
      assert k != i && k != j ==> t[k] == x;
    }
  }

  lemma {:induction false} ShuffleKeeps(s: seq<nat>, i: nat, draws: seq<nat>)
    requires i <= |s| && ValidDraws(draws, |s| - i) && Distinct(s)
    ensures Distinct(Shuffle(s, i, draws))
    ensures forall x :: x in Shuffle(s, i, draws) <==> x in s
    decreases |draws|
  {
    if draws != [] {
      SwapKeeps(s, i, i + draws[0]);
      assert forall k {:trigger draws[1..][k]} :: 0 <= k < |draws[1..]| ==> draws[1..][k] == draws[k + 1];
      ShuffleKeeps(Swap(s, i, i + draws[0]), i + 1, draws[1..]);
    }
  }

  lemma SortedDistinctIsCuts(xs: seq<nat>, n: nat)
    requires Distinct(xs) && forall x :: x in xs ==> 0 < x < n
    ensures Cuts(SortBy(xs, Identity), n)
  {
    var out := SortBy(xs, Identity);
    SortBySorted(xs, Identity);
    SameElements(out, xs);
    forall i | 0 <= i < |out|
      ensures 0 < out[i] < n
    {
      assert out[i] in out;
    }
    DistinctMultiset(xs);
    forall i, j | 0 <= i < j < |out|
      ensures out[i] < out[j]
    {
      assert Identity(out[i]) <= Identity(out[j]);
      if out[i] == out[j] {
        CountedTwice(out, i, j);
      }
    }
  }

  lemma CountedTwice(xs: seq<nat>, i: nat, j: nat)
    requires i < j < |xs| && xs[i] == xs[j]
    ensures multiset(xs)[xs[i]] >= 2
  {
    assert xs == xs[..i] + [xs[i]] + xs[i + 1..j] + [xs[j]] + xs[j + 1..];
  }

  lemma {:induction false} DistinctMultiset(xs: seq<nat>)
    requires Distinct(xs)
    ensures forall x :: multiset(xs)[x] <= 1
  {
    if xs != [] {
      var n := |xs| - 1;
      DistinctMultiset(xs[..n]);
      assert xs == xs[..n] + [xs[n]];
      assert xs[n] !in xs[..n];
    }
  }

  lemma PickedAreCuts(n: nat, draws: seq<nat>)
    requires n >= 2 && ValidDraws(draws, n - 1)
    ensures Cuts(SortBy(Shuffle(Pool(n), 0, draws)[..|draws|], Identity), n)
    ensures |SortBy(Shuffle(Pool(n), 0, draws)[..|draws|], Identity)| == |draws|
  {
    var shuffled := Shuffle(Pool(n), 0, draws);
    ShuffleKeeps(Pool(n), 0, draws);
    var picked := shuffled[..|draws|];
    assert forall x :: x in picked ==> x in shuffled;
    SortedDistinctIsCuts(picked, n);
    SameElements(SortBy(picked, Identity), picked);
  }

  /** Every choice is possible: some draws bring any distinct elements, in any order, to the front. */
  lemma {:induction false} ShuffleReaches(s: seq<nat>, i: nat, target: seq<nat>) returns (draws: seq<nat>)
    requires i + |target| <= |s| && Distinct(s) && Distinct(target)
    requires forall x :: x in target ==> x in s[i..]
    ensures |draws| == |target| && ValidDraws(draws, |s| - i)
    ensures Shuffle(s, i, draws)[..i] == s[..i]
    ensures Shuffle(s, i, draws)[i..i + |target|] == target
    decreases |target|
  {
    if target == [] {
      return [];
    }
    assert target[0] in s[i..];
    var d :| 0 <= d < |s| - i && s[i..][d] == target[0];
    var t := Swap(s, i, i + d);
    SwapKeeps(s, i, i + d);
    RestStaysOpen(s, i, d, target);
    var rest := ShuffleReaches(t, i + 1, target[1..]);
    draws := [d] + rest;
    ShuffleCons(s, i, d, rest);
    FrontGrows(s, i, d, target, Shuffle(t, i + 1, rest));
  }

  lemma ShuffleCons(s: seq<nat>, i: nat, d: nat, rest: seq<nat>)
    requires i + d < |s| && ValidDraws(rest, |s| - i - 1)
    ensures ValidDraws([d] + rest, |s| - i)
    ensures Shuffle(s, i, [d] + rest) == Shuffle(Swap(s, i, i + d), i + 1, rest)
  {
    assert ([d] + rest)[1..] == rest;
  }

  lemma RestStaysOpen(s: seq<nat>, i: nat, d: nat, target: seq<nat>)
    requires i + d < |s| && Distinct(s) && Distinct(target) && target != [] && s[i + d] == target[0]
    requires forall x :: x in target ==> x in s[i..]
    ensures Distinct(target[1..]) && forall x :: x in target[1..] ==> x in Swap(s, i, i + d)[i + 1..]
  {
    var t := Swap(s, i, i + d);
    forall x | x in target[1..]
      ensures x in t[i + 1..]
    {
      var m :| 0 <= m < |target[1..]| && target[1..][m] == x;
      assert x == target[m + 1] && x != target[0] && x in target;
      var k :| 0 <= k < |s| - i && s[i..][k] == x;
      assert t[i + 1..][if k == 0 then d - 1 else k - 1] == x;
    }
  }

  lemma FrontGrows(s: seq<nat>, i: nat, d: nat, target: seq<nat>, r: seq<nat>)
    requires i + d < |s| == |r| && target != [] && i + |target| <= |s| && s[i + d] == target[0]
    requires r[..i + 1] == Swap(s, i, i + d)[..i + 1]
    requires r[i + 1..i + 1 + |target[1..]|] == target[1..]
    ensures r[..i] == s[..i] && r[i..i + |target|] == target
  {
    assert r[..i] == r[..i + 1][..i];
    assert r[i] == r[..i + 1][i];
    assert r[i..i + |target|] == [r[i]] + r[i + 1..i + |target|];
  }

  /** Hence random splitting can produce any set of cuts of the asked size. */
  lemma AnyCutsPossible(n: nat, cuts: seq<nat>) returns (draws: seq<nat>)
    requires n >= 2 && Cuts(cuts, n) && |cuts| <= n - 1
    ensures |draws| == |cuts| && ValidDraws(draws, n - 1)
    ensures SortBy(Shuffle(Pool(n), 0, draws)[..|cuts|], Identity) == cuts
  {
    var pool := Pool(n);
    CutsInPool(n, cuts);
    draws := ShuffleReaches(pool, 0, cuts);
    assert Shuffle(pool, 0, draws)[..|cuts|] == cuts;
    SortedFixed(cuts, n);
  }

  lemma CutsInPool(n: nat, cuts: seq<nat>)
    requires n >= 2 && Cuts(cuts, n)
    ensures Distinct(cuts) && Distinct(Pool(n)) && forall x :: x in cuts ==> x in Pool(n)[0..]
  {
    forall x | x in cuts
      ensures x in Pool(n)[0..]
    {
      assert Pool(n)[0..][x - 1] == x;
    }
  }

  lemma SortedFixed(cuts: seq<nat>, n: nat)
    requires Cuts(cuts, n)
    ensures SortBy(cuts, Identity) == cuts
  {
    assert forall x :: x in cuts ==> 0 < x < n;
    SortedDistinctIsCuts(cuts, n);
    SameElements(SortBy(cuts, Identity), cuts);
    AscendingSetUnique(SortBy(cuts, Identity), cuts, n);
  }

  // ---------- Splits around the host ----------

  function Minus(a: nat, b: nat): nat { if a < b then 0 else a - b }

  /** Record and handshake boundaries, and positions around and inside the host. */
  function HostCandidates(host: Span): seq<nat> {
    [1, 5, Minus(host.start, 8), Minus(host.start, 1), host.start + 1, host.start + 7, host.end]
  }

  /** The seven places around a host where a cut is wanted. */
  predicate CutHere(x: nat, host: Span) {
    || x == 1 || x == 5
    || x + 8 == host.start || x + 1 == host.start
    || x == host.start + 1 || x == host.start + 7 || x == host.end
  }

  lemma CandidatesAre(host: Span, x: nat)
    requires 0 < x
    ensures x in HostCandidates(host) <==> CutHere(x, host)
  {}

  function SniSplits(data: seq<byte>): Option<seq<nat>> {
    match HostRange(data)
    case None => None
    case Some(host) =>
      var out := Normalize(HostCandidates(host), |data|);
      if out == [] then None else Some(out)
  }

  // ---------- The cuts of a profile ----------

  function SniRaw(strategy: Strategy, data: seq<byte>): seq<nat> {
    (if strategy == SniPrefixed then [1, 5] else []) + match SniSplits(data) case Some(s) => s case None => []
  }

  /** Draws are consumed only when a host strategy finds no cut at all. */
  ghost predicate DrawsFor(p: Profile, data: seq<byte>, draws: seq<nat>) {
    |draws| == Take(|data|, Minus(p.numChunks, 1)) && ValidDraws(draws, Minus(|data|, 1))
  }

  /** `compute_splits`. */
  method ComputeSplits(p: Profile, data: seq<byte>, draws: seq<nat>) returns (splits: seq<nat>)
    requires DrawsFor(p, data, draws)
    ensures Cuts(splits, |data|)
    ensures |data| < 2 || p.strategy == Passthrough ==> splits == []
    ensures |data| >= 2 && p.strategy != Passthrough && p.numChunks >= 2 ==> splits != []
    ensures |data| >= 2 && p.strategy == Equal && p.numChunks >= 2 ==> IsEvenSplit(splits, |data|, p.numChunks)
    ensures |data| >= 2 && p.strategy in {Sni, SniPrefixed} && HostRange(data).Some? ==>
      forall x: nat {:trigger x in splits} :: x in splits <==> CutHere(x, HostRange(data).value) && 0 < x < |data|
    ensures |data| >= 2 && p.strategy == SniPrefixed && HostRange(data).None? ==>
      forall x {:trigger x in splits} :: x in splits <==> (x == 1 || x == 5) && 0 < x < |data|
    ensures |data| >= 2 && p.strategy == Sni && HostRange(data).None? ==>
      |splits| == Min(Minus(p.numChunks, 1), |data| - 1) && splits == SortBy(Shuffle(Pool(|data|), 0, draws)[..|draws|], Identity)
  {
    var n := |data|;
    if n < 2 || p.strategy == Passthrough {
      return [];
    }
    if p.strategy == Equal {
      splits := EqualSplits(n, p.numChunks);
      if p.numChunks >= 2 {
        EvenIsCuts(splits, n, p.numChunks);
      }
      CutsFixed(splits, n);
      splits := Normalize(splits, n);
      return;
    }
    var raw := SniRaw(p.strategy, data);
    splits := Normalize(raw, n);
    NormalizeCuts(raw, n);
    if HostRange(data).Some? {
      CutsWithHost(p.strategy, data);
    } else {
      CutsWithoutHost(p.strategy, data);
    }
    if splits == [] {
      splits := RandomSplits(n, Minus(p.numChunks, 1), draws);
    }
  }

  /** With a host, the cuts are the places around it. */
  lemma {:induction false} CutsWithHost(strategy: Strategy, data: seq<byte>)
    requires strategy in {Sni, SniPrefixed} && |data| >= 2 && HostRange(data).Some?
    ensures var splits := Normalize(SniRaw(strategy, data), |data|);
            && splits != []
            && forall x: nat {:trigger x in splits} :: x in splits <==> CutHere(x, HostRange(data).value) && 0 < x < |data|
  {
    SniRawMembers(strategy, data);
    CutsAround(SniRaw(strategy, data), |data|, HostRange(data).value);
  }

  /** Without one, they are the two fixed places or none. */
  lemma {:induction false} CutsWithoutHost(strategy: Strategy, data: seq<byte>)
    requires strategy in {Sni, SniPrefixed} && |data| >= 2 && HostRange(data).None?
    ensures var splits := Normalize(SniRaw(strategy, data), |data|);
            && (strategy == SniPrefixed <==> splits != [])
            && (strategy == SniPrefixed ==>
                  forall x {:trigger x in splits} :: x in splits <==> (x == 1 || x == 5) && 0 < x < |data|)
  {
    var raw := SniRaw(strategy, data);
    SniRawMembers(strategy, data);
    NormalizeCuts(raw, |data|);
    if strategy == SniPrefixed {
      assert 1 in Normalize(raw, |data|);
    }
  }

  lemma CutsAround(raw: seq<nat>, n: nat, host: Span)
    requires n >= 2 && 1 in raw && forall x :: 0 < x < n ==> (x in raw <==> x in HostCandidates(host))
    ensures Normalize(raw, n) != []
    ensures forall x: nat {:trigger x in Normalize(raw, n)} :: x in Normalize(raw, n) <==> CutHere(x, host) && 0 < x < n
  {
    NormalizeCuts(raw, n);
    assert 1 in Normalize(raw, n);
    forall x: nat
      ensures x in Normalize(raw, n) <==> CutHere(x, host) && 0 < x < n
    {
      if 0 < x {
        CandidatesAre(host, x);
      }
    }
  }

  lemma SniRawMembers(strategy: Strategy, data: seq<byte>)
    requires strategy in {Sni, SniPrefixed} && |data| >= 2
    ensures var raw := SniRaw(strategy, data);
            && (HostRange(data).Some? || strategy == SniPrefixed ==> 1 in raw)
            && (HostRange(data).None? ==> raw == if strategy == SniPrefixed then [1, 5] else [])
            && (HostRange(data).Some? ==>
                  forall x :: 0 < x < |data| ==> (x in raw <==> x in HostCandidates(HostRange(data).value)))
  {
    if HostRange(data).Some? {
      var candidates := HostCandidates(HostRange(data).value);
      NormalizeCuts(candidates, |data|);
      assert 1 in candidates && 5 in candidates;
      assert 1 in Normalize(candidates, |data|);
      assert SniSplits(data) == Some(Normalize(candidates, |data|));
    }
  }
}
