/**
 Writing a ClientHello in pieces: no byte is lost or reordered, the pieces are
 real, and the host strategies never leave the host name whole in one of them.
 */
module Fragmenter {
  import opened Prelude
  import opened ClientHello
  import opened ServerName
  import opened Profiles
  import opened SplitPoints

  /** The pieces that the cuts delimit. */
  ghost function Pieces(data: seq<byte>, splits: seq<nat>): (ps: seq<seq<byte>>)
    requires Cuts(splits, |data|)
    ensures |ps| == |splits| + 1
  {
    if splits == [] then [data]
    else
      var last := |splits| - 1;
      var from := splits[last];
      Pieces(data[..from], splits[..last]) + [data[from..]]
  }

  /** Piece j is the slice between bounds j and j + 1. */
  lemma {:induction false} PieceAt(data: seq<byte>, splits: seq<nat>, j: nat)
    requires Cuts(splits, |data|) && j <= |splits|
    ensures var bs := Bounds(splits, |data|);
            bs[j] <= bs[j + 1] <= |data| && Pieces(data, splits)[j] == data[bs[j]..bs[j + 1]]
    decreases |splits|
  {
    var bs := Bounds(splits, |data|);
    if splits == [] {
      assert data[0..|data|] == data;
    } else {
      var last := |splits| - 1;
      var from := splits[last];
      if j == last + 1 {
        assert bs[j] == from && bs[j + 1] == |data|;
      } else {
        PieceAt(data[..from], splits[..last], j);
        var inner := Bounds(splits[..last], from);
        assert inner[j] == bs[j] && inner[j + 1] == bs[j + 1];
        assert Pieces(data, splits)[j] == Pieces(data[..from], splits[..last])[j];
        assert data[..from][bs[j]..bs[j + 1]] == data[bs[j]..bs[j + 1]];
      }
    }
  }

  /** The first j pieces carry exactly the bytes up to bound j. */
  lemma {:induction false} PiecesJoin(data: seq<byte>, splits: seq<nat>, j: nat)
    requires Cuts(splits, |data|) && j <= |splits| + 1
    ensures Bounds(splits, |data|)[j] <= |data|
    ensures Flatten(Pieces(data, splits)[..j]) == data[..Bounds(splits, |data|)[j]]
  {
    var bs, ps := Bounds(splits, |data|), Pieces(data, splits);
    if j > 0 {
      PiecesJoin(data, splits, j - 1);
      PieceAt(data, splits, j - 1);
      assert ps[..j] == ps[..j - 1] + [ps[j - 1]];
      FlattenSnoc(ps[..j - 1], ps[j - 1]);
      assert data[..bs[j - 1]] + data[bs[j - 1]..bs[j]] == data[..bs[j]];
    }
  }

  /** Where piece j starts in the data. */
  ghost function Offset(pieces: seq<seq<byte>>, j: nat): nat
    requires j <= |pieces|
  {
    |Flatten(pieces[..j])|
  }

  /** No piece holds all of the span. */
  ghost predicate Broken(pieces: seq<seq<byte>>, span: Span) {
    forall j {:trigger Offset(pieces, j)} :: 0 <= j < |pieces| ==>
      !(Offset(pieces, j) <= span.start && span.end <= Offset(pieces, j) + |pieces[j]|)
  }

  /** A cut strictly inside a span breaks it. */
  lemma CutBreaks(data: seq<byte>, splits: seq<nat>, span: Span, m: nat)
    requires Cuts(splits, |data|) && m < |splits| && span.start < splits[m] < span.end
    ensures Broken(Pieces(data, splits), span)
  {
    var bs, ps := Bounds(splits, |data|), Pieces(data, splits);
    forall j | 0 <= j < |ps|
      ensures !(Offset(ps, j) <= span.start && span.end <= Offset(ps, j) + |ps[j]|)
    {
      PiecesJoin(data, splits, j);
      PieceAt(data, splits, j);
      assert bs[m + 1] == splits[m];
      if j <= m {
        assert bs[j + 1] == splits[j] <= splits[m];
      } else {
        assert bs[j] == splits[j - 1] >= splits[m];
      }
    }
  }

  lemma PiecesNonempty(data: seq<byte>, splits: seq<nat>)
    requires Cuts(splits, |data|) && data != []
    ensures forall j {:trigger Pieces(data, splits)[j]} :: 0 <= j <= |splits| ==> Pieces(data, splits)[j] != []
  {
    var bs := Bounds(splits, |data|);
    forall j | 0 <= j <= |splits|
      ensures Pieces(data, splits)[j] != []
    {
      PieceAt(data, splits, j);
      assert j > 0 ==> bs[j] == splits[j - 1];
      assert j < |splits| ==> bs[j + 1] == splits[j];
    }
  }

  ghost predicate AllSized(pieces: seq<seq<byte>>, lo: nat, hi: nat) {
    forall j {:trigger pieces[j]} :: 0 <= j < |pieces| ==> |pieces[j]| == lo || |pieces[j]| == hi
  }

  lemma PiecesSized(data: seq<byte>, splits: seq<nat>, lo: nat, hi: nat)
    requires Cuts(splits, |data|) && SizesAre(splits, |data|, lo, hi)
    ensures AllSized(Pieces(data, splits), lo, hi)
  {
    forall j | 0 <= j < |Pieces(data, splits)|
      ensures |Pieces(data, splits)[j]| == lo || |Pieces(data, splits)[j]| == hi
    {
      PieceAt(data, splits, j);
      assert ChunkSize(splits, |data|, j, lo, hi);
    }
  }

  /**
   `fragmented_write`: the chunks handed to the socket, in order. `failAt` is the
   write that fails, if any; what was written before it stands.
   */
  method FragmentedWrite(data: seq<byte>, p: Profile, draws: seq<nat>, failAt: Option<nat>)
    returns (chunks: seq<seq<byte>>, sleeps: nat, ok: bool)
    requires DrawsFor(p, data, draws)
    ensures Flatten(chunks) <= data
    ensures !ok ==> failAt == Some(|chunks|)
    ensures failAt == None ==> ok
    ensures ok ==> Flatten(chunks) == data
    ensures ok && p.strategy == Passthrough ==> chunks == [data]
    ensures ok && |data| >= 2 && p.strategy != Passthrough && p.numChunks >= 2 ==> |chunks| >= 2
    ensures ok && data != [] ==> forall j {:trigger chunks[j]} :: 0 <= j < |chunks| ==> chunks[j] != []
    ensures ok && |data| >= 2 && p.strategy == Equal && p.numChunks >= 2 ==>
      |chunks| == Min(|data|, p.numChunks) && AllSized(chunks, |data| / p.numChunks, CeilDiv(|data|, p.numChunks))
    ensures ok && |data| >= 2 && p.strategy in {Sni, SniPrefixed} && HostRange(data).Some? ==>
      (Broken(chunks, HostRange(data).value) <==> HostRange(data).value.end - HostRange(data).value.start >= 2)
    ensures ok ==> sleeps == if p.delayMs == 0 then 0 else |chunks| - 1
  {
    var splits := ComputeSplits(p, data, draws);
    chunks, sleeps, ok := WritePieces(data, splits, p.delayMs != 0, failAt);
    if data != [] {
      PiecesNonempty(data, splits);
    }
    if |data| >= 2 && p.strategy == Equal && p.numChunks >= 2 {
      EvenPieces(data, splits, p.numChunks);
    }
    if |data| >= 2 && p.strategy in {Sni, SniPrefixed} && HostRange(data).Some? {
      HostBroken(data, splits, HostRange(data).value);
    }
  }

  /** The write loop of `fragmented_write`, once the cuts are known. */
  method WritePieces(data: seq<byte>, splits: seq<nat>, pause: bool, failAt: Option<nat>)
    returns (chunks: seq<seq<byte>>, sleeps: nat, ok: bool)
    requires Cuts(splits, |data|)
    ensures Flatten(chunks) <= data
    ensures !ok ==> failAt == Some(|chunks|) && chunks <= Pieces(data, splits)
    ensures failAt == None ==> ok
    ensures ok ==> Flatten(chunks) == data && chunks == Pieces(data, splits)
    ensures ok ==> sleeps == if pause then |splits| else 0
  {
    ghost var pieces := Pieces(data, splits);
    chunks, sleeps := [], 0;
    var prev, k := 0, 0;
    while k < |splits|
      invariant 0 <= k <= |splits| && chunks == pieces[..k]
      invariant prev == Bounds(splits, |data|)[k]
      invariant sleeps == if pause then k else 0
    {
      PieceAt(data, splits, k);
      PiecesJoin(data, splits, k);
      if failAt == Some(|chunks|) {
        return chunks, sleeps, false;
      }
      assert splits[k] == Bounds(splits, |data|)[k + 1];
      chunks := chunks + [data[prev..splits[k]]];
      prev := splits[k];
      if pause {
        sleeps := sleeps + 1;
      }
      k := k + 1;
    }
    PieceAt(data, splits, k);
    PiecesJoin(data, splits, k);
    if failAt == Some(|chunks|) {
      return chunks, sleeps, false;
    }
    chunks := chunks + [data[prev..]];
    assert chunks == pieces[..k + 1] == pieces;
    PiecesJoin(data, splits, k + 1);
    assert data[..|data|] == data;
    return chunks, sleeps, true;
  }

  lemma EvenPieces(data: seq<byte>, splits: seq<nat>, k: nat)
    requires IsEvenSplit(splits, |data|, k)
    ensures Cuts(splits, |data|) && AllSized(Pieces(data, splits), |data| / k, CeilDiv(|data|, k))
  {
    EvenIsCuts(splits, |data|, k);
    PiecesSized(data, splits, |data| / k, CeilDiv(|data|, k));
  }

  /** A host of two bytes or more is cut after its first byte; a shorter one cannot be cut at all. */
  lemma HostBroken(data: seq<byte>, splits: seq<nat>, host: Span)
    requires Cuts(splits, |data|) && 0 < host.start <= host.end <= |data|
    requires forall x: nat {:trigger x in splits} :: CutHere(x, host) && 0 < x < |data| ==> x in splits
    ensures Broken(Pieces(data, splits), host) <==> host.end - host.start >= 2
  {
    if host.end - host.start >= 2 {
      assert CutHere(host.start + 1, host) && host.start + 1 in splits;
      var m :| 0 <= m < |splits| && splits[m] == host.start + 1;
      CutBreaks(data, splits, host, m);
    } else {
      var j := PieceHolding(data, splits, host);
      assert !Broken(Pieces(data, splits), host);
    }
  }

  /** Some piece holds any span of at most one byte. */
  lemma {:induction false} PieceHolding(data: seq<byte>, splits: seq<nat>, span: Span) returns (j: nat)
    requires Cuts(splits, |data|) && span.start <= span.end <= |data| && span.end - span.start <= 1
    ensures j <= |splits|
    ensures Offset(Pieces(data, splits), j) <= span.start
    ensures span.end <= Offset(Pieces(data, splits), j) + |Pieces(data, splits)[j]|
  {
    var bs := Bounds(splits, |data|);
    j := 0;
    while j < |splits| && bs[j + 1] < span.end
      invariant j <= |splits| && bs[j] <= span.start
    {
      assert bs[j + 1] == splits[j];
      j := j + 1;
    }
    PieceAt(data, splits, j);
    PiecesJoin(data, splits, j);
  }
}
