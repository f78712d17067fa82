/**
 A list of uploaded batches as one frame stream.
 */
module Batches {
  import opened Wire

  /** Seq of the first frame of batch i. */
  function Start(batches: seq<Batch>, i: nat): nat
    requires i <= |batches|
  {
    if i == 0 then 0 else Start(batches, i - 1) + |batches[i - 1].frames|
  }

  function Stream(batches: seq<Batch>): (s: seq<WireFrame>)
    ensures |s| == Start(batches, |batches|)
  {
    if batches == [] then []
    else
      var n := |batches| - 1;
      StartPrefix(batches, n, n);
      Stream(batches[..n]) + batches[n].frames
  }

  lemma {:induction false} StartPrefix(batches: seq<Batch>, n: nat, i: nat)
    requires i <= n <= |batches|
    ensures Start(batches[..n], i) == Start(batches, i)
  {
    if i != 0 {
      StartPrefix(batches, n, i - 1);
    }
  }

  /** Frame k of batch i is frame Start(i) + k of the stream. */
  lemma {:induction false} StreamAt(batches: seq<Batch>, i: nat, k: nat)
    requires i < |batches| && k < |batches[i].frames|
    ensures Start(batches, i) + k < |Stream(batches)|
    ensures Stream(batches)[Start(batches, i) + k] == batches[i].frames[k]
  {
    var n := |batches| - 1;
    StartPrefix(batches, n, i);
    StartPrefix(batches, n, n);
    if i < n {
      StreamAt(batches[..n], i, k);
    }
  }

  lemma StreamSnoc(batches: seq<Batch>, b: Batch)
    ensures Stream(batches + [b]) == Stream(batches) + b.frames
  {
    assert (batches + [b])[..|batches|] == batches;
  }

  lemma StreamOne(b: Batch)
    ensures Stream([b]) == b.frames
  {
    assert [b][..0] == [];
    assert [] + b.frames == b.frames;
  }

  ghost predicate NoneEmpty(batches: seq<Batch>) {
    forall i {:trigger batches[i]} :: 0 <= i < |batches| ==> batches[i].frames != []
  }

  lemma {:induction false} StartRises(batches: seq<Batch>, i: nat, j: nat)
    requires NoneEmpty(batches) && i < j <= |batches|
    ensures Start(batches, i) < Start(batches, i) + |batches[i].frames| <= Start(batches, j)
  {
    assert batches[i].frames != [];
    if i + 1 < j {
      StartRises(batches, i, j - 1);
    }
  }

  /** Seq order is batch order. */
  lemma StartOrder(batches: seq<Batch>, i: nat, j: nat)
    requires NoneEmpty(batches) && i <= |batches| && j <= |batches|
    ensures Start(batches, i) < Start(batches, j) <==> i < j
  {
    if i < j {
      StartRises(batches, i, j);
    } else if j < i {
      StartRises(batches, j, i);
    }
  }
}
