/**
 How large the sender's uploads are: every file it makes is within the cap that
 the receiver enforces, given a bound on what is embedded in the first one.
 */
module UploadSizes {
  import opened Prelude
  import opened Wire
  import opened Batches
  import opened Receiver
  import opened Sender
  import opened Pumping

  lemma {:induction false} PayloadBytesCons(f: WireFrame, rest: seq<WireFrame>)
    ensures PayloadBytes([f] + rest) == |f.payload| + PayloadBytes(rest)
  {
    var frames := [f] + rest;
    if rest == [] {
      assert frames[..0] == [];
    } else {
      var n := |rest| - 1;
      assert frames[..|frames| - 1] == [f] + rest[..n];
      PayloadBytesCons(f, rest[..n]);
    }
  }

  lemma EncodedCons(fs: seq<WireFrame>)
    requires fs != []
    ensures |EncodeFrames(fs)| == 34 + |fs[0].payload| + |EncodeFrames(fs[1..])|
  {
    assert |EncodeFrame(fs[0])| == HEADER_LEN + |fs[0].payload|;
    assert |BigEndian(|EncodeFrame(fs[0])|, 4)| == 4;
  }

  /** Each frame costs its payload, a header and a length prefix. */
  lemma {:induction false} EncodedSize(fs: seq<WireFrame>)
    ensures |EncodeFrames(fs)| == 34 * |fs| + PayloadBytes(fs)
  {
    if fs != [] {
      EncodedCons(fs);
      EncodedSize(fs[1..]);
      assert PayloadBytes(fs) == |fs[0].payload| + PayloadBytes(fs[1..]) by {
        PayloadBytesCons(fs[0], fs[1..]);
        assert fs == [fs[0]] + fs[1..];
      }
    }
  }

  lemma BatchSize(b: Batch)
    ensures SealedSize(b) == 21 + 34 * |b.frames| + PayloadBytes(b.frames)
  {
    EncodedSize(b.frames);
  }

  lemma {:induction false} DataSize(frames: seq<WireFrame>)
    requires ReadSized(frames)
    ensures PayloadBytes(frames) == |DataBytes(frames)|
  {
    if frames != [] {
      DataSize(frames[..|frames| - 1]);
    }
  }

  function FrameCount(n: nat): nat { (n + LOCAL_SOCKET_READ_BUFFER - 1) / LOCAL_SOCKET_READ_BUFFER }

  /** The sealed size of an open batch, by the length of the address and of the embedded bytes. */
  function OpenSize(address: seq<byte>, opening: Opening): nat {
    var n := |OpeningBytes(opening)|;
    21 + 34 * (1 + FrameCount(n)) + |address| + n
  }

  /** The receiver reads the open batch: both its size and its frame count are within the caps. */
  predicate OpenReadable(address: seq<byte>, opening: Opening) {
    && OpenSize(address, opening) <= MAX_SEALED_FRAME_BODY_BYTES
    && |OpeningBytes(opening)| <= 254 * LOCAL_SOCKET_READ_BUFFER
  }

  lemma OpenCounts(sid: SessionId, opening: Opening)
    requires ValidOpening(opening)
    ensures |OpenFrames(sid, opening)| == FrameCount(|OpeningBytes(opening)|)
    ensures PayloadBytes(OpenFrames(sid, opening)) == |OpeningBytes(opening)|
  {
    DataSize(OpenFrames(sid, opening));
    OpenDataBytes(sid, opening);
  }

  lemma OpenBatchSize(sid: SessionId, address: seq<byte>, opening: Opening)
    requires ValidOpening(opening)
    ensures SealedSize(StartPump(sid, address, opening).open) == OpenSize(address, opening)
  {
    var connect, data := BuildWireFrame(Connect, sid, 0, address), OpenFrames(sid, opening);
    BatchSize(StartPump(sid, address, opening).open);
    PayloadBytesCons(connect, data);
    OpenCounts(sid, opening);
  }

  lemma SteadyReadable(b: Batch)
    requires SteadyBatch(b)
    ensures Readable(b)
  {
    BatchSize(b);
  }

  lemma UploadVersions(tx: Tx, k: nat)
    requires NumberedFrom(AllFrames(tx), tx.sid, 0) && k < |Uploads(tx)|
    ensures OurVersion(Uploads(tx)[k])
  {
    forall i | 0 <= i < |Uploads(tx)[k].frames|
      ensures Uploads(tx)[k].frames[i].version == WIRE_VERSION
    {
      StreamAt(Uploads(tx), k, i);
      assert Uploads(tx)[k].frames[i] == AllFrames(tx)[Start(Uploads(tx), k) + i];
    }
  }

  /**
   Over every run of a session: every flushed batch is within the size cap and
   decodes to itself at the receiver, and so does the open batch exactly when address
   and preface leave it room.
   */
  lemma UploadsReadable(sid: SessionId, address: seq<byte>, opening: Opening, events: seq<PumpEvent>, k: nat)
    requires ValidOpening(opening) && PossibleRun(StartPump(sid, address, opening), events)
    requires k < |Uploads(Run(StartPump(sid, address, opening), events))|
    ensures var batch := Uploads(Run(StartPump(sid, address, opening), events))[k];
            && (SealedSize(batch) <= MAX_SEALED_FRAME_BODY_BYTES
                <==> k > 0 || OpenSize(address, opening) <= MAX_SEALED_FRAME_BODY_BYTES)
            && (Readable(batch) <==> k > 0 || OpenReadable(address, opening))
            && (Readable(batch) ==> DecodeBatch(EncodeBatch(batch)) == Ok(batch))
  {
    var tx := Run(StartPump(sid, address, opening), events);
    StartGood(sid, address, opening);
    RunGood(StartPump(sid, address, opening), events);
    OpenNeverChanges(StartPump(sid, address, opening), events);
    UploadVersions(tx, k);
    if k > 0 {
      assert Uploads(tx)[k] == tx.flushed[k - 1];
      SteadyReadable(tx.flushed[k - 1]);
    } else {
      OpenBatchReadable(sid, address, opening);
    }
    if Readable(Uploads(tx)[k]) {
      FitsDecodes(Uploads(tx)[k]);
    }
  }

  lemma OpenBatchReadable(sid: SessionId, address: seq<byte>, opening: Opening)
    requires ValidOpening(opening)
    ensures SealedSize(StartPump(sid, address, opening).open) == OpenSize(address, opening)
    ensures Readable(StartPump(sid, address, opening).open) <==> OpenReadable(address, opening)
  {
    OpenBatchSize(sid, address, opening);
    OpenFrameCount(sid, opening);
  }

  /**
   The proxy reads at most 64 KiB and one more read of a request head before it
   refuses it. Rewriting adds at most a byte to each header line and one closing
   line, so it cannot more than double the head.
   */
  const MAX_HEADER_BYTES := 64 * 1024
  const HEAD_READ := 4096
  const MAX_PREFACE := 2 * (MAX_HEADER_BYTES + HEAD_READ) + 64

  /** Within those bounds the open batch decodes at the peer and fits the cap. */
  lemma ProxyOpeningsArrive(sid: SessionId, address: seq<byte>, opening: Opening)
    requires ValidOpening(opening) && |OpeningBytes(opening)| <= MAX_PREFACE && |address| <= MAX_PREFACE
    ensures var open := StartPump(sid, address, opening).open;
            DecodeBatch(EncodeBatch(open)) == Ok(open) && SealedSize(open) <= MAX_SEALED_FRAME_BODY_BYTES
  {
    assert MAX_PREFACE <= 254 * LOCAL_SOCKET_READ_BUFFER;
    OpenBatchDecodes(sid, address, opening);
    OpenBatchSize(sid, address, opening);
    FrameCountBound(|OpeningBytes(opening)|);
  }

  lemma FrameCountBound(n: nat)
    requires n <= MAX_PREFACE
    ensures 34 * (1 + FrameCount(n)) <= 1000
  {}
}
