/**
 Exactly which bytes decode: the converse of the codec's round trips, and which
 error each other input gives.
 */
module WireExact {
  import opened Prelude
  import opened Wire
  import opened Replay

  /** Reading a number and writing it at the same width gives the bytes back. */
  lemma {:induction false} BigEndianUnique(bs: seq<byte>)
    ensures BigEndian(BigEndianValue(bs), |bs|) == bs
  {
    if bs != [] {
      var n := |bs| - 1;
      BigEndianUnique(bs[..n]);
      var v, last: int := BigEndianValue(bs[..n]), bs[n];
      assert (v * 256 + last) / 256 == v && (v * 256 + last) % 256 == last;
      assert bs == bs[..n] + [bs[n]];
    }
  }

  /** Byte i of a number at a width counts from the most significant end. */
  lemma {:induction false} BigEndianAt(n: nat, width: nat, i: nat)
    requires i < width
    ensures BigEndian(n, width)[i] == n / Pow256(width - 1 - i) % 256
  {
    if i == width - 1 {
      assert n / 1 == n;
    } else {
      BigEndianAt(n / 256, width - 1, i);
      DivDiv(n, Pow256(width - 2 - i));
    }
  }

  lemma DivDiv(n: nat, m: nat)
    requires 0 < m
    ensures n / 256 / m == n / (256 * m)
  {
    var q, r := n / 256, n % 256;
    var k, s := q / m, q % m;
    assert n == 256 * q + r && q == m * k + s;
    assert 256 * (m * k + s) == (256 * m) * k + 256 * s;
    assert 256 * s + r < 256 * m;
    DivModUnique(n, 256 * m, k, 256 * s + r);
  }

  /** These bytes are the number, most significant byte first. */
  ghost predicate NetworkOrder(bs: seq<byte>, n: nat) {
    forall i {:trigger bs[i]} :: 0 <= i < |bs| ==> bs[i] == n / Pow256(|bs| - 1 - i) % 256
  }

  lemma BigEndianInOrder(n: nat, width: nat)
    ensures NetworkOrder(BigEndian(n, width), n)
  {
    forall i | 0 <= i < width
      ensures BigEndian(n, width)[i] == n / Pow256(width - 1 - i) % 256
    {
      BigEndianAt(n, width, i);
    }
  }

  /** The frame on the wire: version, kind, session, seq and length in network order, payload. */
  lemma FrameLayout(f: WireFrame)
    ensures var bs := EncodeFrame(f);
            && |bs| == 30 + |f.payload| && bs[0] == f.version && bs[2..18] == f.sid && bs[30..] == f.payload
            && NetworkOrder(bs[18..26], f.seqno) && NetworkOrder(bs[26..30], |f.payload|)
    ensures EncodeFrame(f)[1] == match f.kind case Hello => 1 case Connect => 2 case Data => 3 case Eof => 4 case Close => 5 case Error => 6
  {
    FrameFields(f, []);
    var bs := EncodeFrame(f);
    assert bs + [] == bs;
    assert bs[30..] == bs[30..30 + |f.payload|];
    BigEndianInOrder(f.seqno, 8);
    BigEndianInOrder(|f.payload|, 4);
  }

  // ---------- Nonce and associated data ----------

  lemma {:induction false} LittleEndianAt(n: nat, width: nat, i: nat)
    requires i < width
    ensures LittleEndian(n, width)[i] == n / Pow256(i) % 256
  {
    if i == 0 {
      assert n / 1 == n;
    } else {
      LittleEndianAt(n / 256, width - 1, i - 1);
      DivDiv(n, Pow256(i - 1));
    }
  }

  /** The nonce is the seq, least significant byte first, and four zero bytes. */
  lemma NonceBytes(seqno: u64)
    ensures |BuildNonce(seqno)| == 12 && BuildNonce(seqno)[8..] == [0, 0, 0, 0]
    ensures forall i {:trigger BuildNonce(seqno)[i]} :: 0 <= i < 8 ==> BuildNonce(seqno)[i] == seqno / Pow256(i) % 256
  {
    forall i | 0 <= i < 8
      ensures BuildNonce(seqno)[i] == seqno / Pow256(i) % 256
    {
      LittleEndianAt(seqno, 8, i);
    }
  }

  /** The associated data is the session and the seq, most significant byte first. */
  lemma AadBytes(sid: SessionId, seqno: u64)
    ensures |BuildAad(sid, seqno)| == 24 && BuildAad(sid, seqno)[..16] == sid
    ensures NetworkOrder(BuildAad(sid, seqno)[16..], seqno)
  {
    BigEndianInOrder(seqno, 8);
    assert BuildAad(sid, seqno)[16..] == BigEndian(seqno, 8);
  }

  lemma KindUnique(b: byte, k: FrameKind)
    ensures KindFromByte(b) == Some(k) <==> KindByte(k) == b
  {}

  lemma FrameOfFields(input: seq<byte>, f: WireFrame)
    requires |input| >= 30 + |f.payload|
    requires input[0] == f.version && input[1] == KindByte(f.kind) && input[2..18] == f.sid
    requires input[18..26] == BigEndian(f.seqno, 8) && input[26..30] == BigEndian(|f.payload|, 4)
    requires input[30..30 + |f.payload|] == f.payload
    ensures EncodeFrame(f) == input[..30 + |f.payload|]
  {
    var n := 30 + |f.payload|;
    assert input[..n] == [input[0]] + [input[1]] + input[2..18] + input[18..26] + input[26..30] + input[30..n];
  }

  /** An input decodes to a frame if and only if it starts with that frame's encoding and the frame is encodable. */
  lemma FrameExact(input: seq<byte>, f: WireFrame)
    ensures DecodeFrame(input) == Ok(f) <==> Encodable(f) && EncodeFrame(f) <= input
  {
    if EncodeFrame(f) <= input {
      var trailing := input[|EncodeFrame(f)|..];
      assert input == EncodeFrame(f) + trailing;
      FrameRoundTrip(f, trailing);
    }
    if DecodeFrame(input) == Ok(f) {
      KindUnique(input[1], f.kind);
      BigEndianUnique(input[18..26]);
      BigEndianUnique(input[26..30]);
      FrameOfFields(input, f);
    }
  }

  /** Every input that is not a frame is refused for the first thing that is wrong with it. */
  lemma FrameErrors(input: seq<byte>)
    ensures DecodeFrame(input) == Err(TooShort) <==> |input| < 30
    ensures |input| >= 30 ==>
      && (DecodeFrame(input) == Err(UnsupportedVersion) <==> input[0] != 1)
      && (DecodeFrame(input) == Err(UnknownKind) <==> input[0] == 1 && !(1 <= input[1] <= 6))
      && (DecodeFrame(input) == Err(PayloadTooLarge)
          <==> input[0] == 1 && 1 <= input[1] <= 6 && BigEndianValue(input[26..30]) > 4 * 1024 * 1024)
      && (DecodeFrame(input) == Err(PayloadTruncated)
          <==> input[0] == 1 && 1 <= input[1] <= 6 && |input| - 30 < BigEndianValue(input[26..30]) <= 4 * 1024 * 1024)
  {}

  // ---------- Batches ----------

  /** A frame's slot in a batch may be longer than the frame: the rest is slack that the frame decoder ignores. */
  ghost function Framed(fs: seq<WireFrame>, slack: seq<seq<byte>>): seq<byte>
    requires |fs| == |slack|
  {
    if fs == [] then []
    else
      var slot := EncodeFrame(fs[0]) + slack[0];
      BigEndian(|slot|, 4) + slot + Framed(fs[1..], slack[1..])
  }

  ghost predicate Slots(fs: seq<WireFrame>, slack: seq<seq<byte>>) {
    && |fs| == |slack|
    && forall i {:trigger fs[i]} {:trigger slack[i]} :: 0 <= i < |fs| ==>
         Encodable(fs[i]) && |EncodeFrame(fs[i])| + |slack[i]| < 0x1_0000_0000
  }

  lemma SlotHead(slot: seq<byte>, rest: seq<byte>)
    requires |slot| < 0x1_0000_0000
    ensures var cursor := BigEndian(|slot|, 4) + slot + rest;
            && BigEndianValue(cursor[..4]) == |slot| && 4 + |slot| <= |cursor|
            && cursor[4..4 + |slot|] == slot && cursor[4 + |slot|..] == rest
  {
    PowersOf256();
    BigEndianFits(|slot|, 4);
    var cursor := BigEndian(|slot|, 4) + slot + rest;
    assert cursor[..4] == BigEndian(|slot|, 4);
  }

  /** Slots decode to their frames, and what follows them is left. */
  lemma {:induction false} FramedDecodes(fs: seq<WireFrame>, slack: seq<seq<byte>>, left: seq<byte>)
    requires Slots(fs, slack)
    ensures DecodeFrames(Framed(fs, slack) + left, |fs|) == Ok((fs, left))
  {
    if fs == [] {
      assert Framed(fs, slack) + left == left;
    } else {
      SlotsTail(fs, slack);
      FramedDecodes(fs[1..], slack[1..], left);
      SlotDecodes(fs[0], slack[0], fs[1..], slack[1..], left);
    }
  }

  lemma SlotsTail(fs: seq<WireFrame>, slack: seq<seq<byte>>)
    requires Slots(fs, slack) && fs != []
    ensures Slots(fs[1..], slack[1..]) && Encodable(fs[0]) && |EncodeFrame(fs[0])| + |slack[0]| < 0x1_0000_0000
    ensures [fs[0]] + fs[1..] == fs && [slack[0]] + slack[1..] == slack
  {
    var rest := fs[1..];
    assert forall i {:trigger rest[i]} :: 0 <= i < |rest| ==> rest[i] == fs[i + 1] && slack[1..][i] == slack[i + 1];
  }

  lemma SlotDecodes(f: WireFrame, head: seq<byte>, fs: seq<WireFrame>, slack: seq<seq<byte>>, left: seq<byte>)
    requires Slots(fs, slack) && Encodable(f) && |EncodeFrame(f)| + |head| < 0x1_0000_0000
    requires DecodeFrames(Framed(fs, slack) + left, |fs|) == Ok((fs, left))
    ensures DecodeFrames(Framed([f] + fs, [head] + slack) + left, |fs| + 1) == Ok(([f] + fs, left))
  {
    var slot, rest := EncodeFrame(f) + head, Framed(fs, slack) + left;
    FramedCons(f, head, fs, slack, left);
    SlotHead(slot, rest);
    FrameRoundTrip(f, head);
    DecodeFramesStep(BigEndian(|slot|, 4) + slot + rest, |fs| + 1, |slot|, f, fs, left);
  }

  lemma SlotOf(cursor: seq<byte>, f: WireFrame) returns (slack: seq<byte>)
    requires |cursor| >= 4 && BigEndianValue(cursor[..4]) <= |cursor| - 4
    requires DecodeFrame(cursor[4..4 + BigEndianValue(cursor[..4])]) == Ok(f)
    ensures Encodable(f) && |EncodeFrame(f)| + |slack| < 0x1_0000_0000
    ensures cursor == BigEndian(|EncodeFrame(f) + slack|, 4) + (EncodeFrame(f) + slack)
                      + cursor[4 + BigEndianValue(cursor[..4])..]
  {
    var len := BigEndianValue(cursor[..4]);
    var slot := cursor[4..4 + len];
    FrameExact(slot, f);
    slack := slot[|EncodeFrame(f)|..];
    assert slot == EncodeFrame(f) + slack;
    BigEndianUnique(cursor[..4]);
    BigEndianBound(cursor[..4]);
    PowersOf256();
    ThreeParts(cursor, 4, 4 + len);
  }

  lemma ThreeParts(s: seq<byte>, i: nat, j: nat)
    requires i <= j <= |s|
    ensures s == s[..i] + s[i..j] + s[j..]
  {}

  ghost predicate ReadsAs(cursor: seq<byte>, count: nat, fs: seq<WireFrame>, left: seq<byte>) {
    DecodeFrames(cursor, count) == Ok((fs, left))
  }

  /** What decodes to frames is their slots and what is left. */
  lemma {:induction false} DecodedIsFramed(cursor: seq<byte>, count: nat, fs: seq<WireFrame>, left: seq<byte>)
    returns (slack: seq<seq<byte>>)
    requires ReadsAs(cursor, count, fs, left)
    ensures |fs| == count && Slots(fs, slack) && cursor == Framed(fs, slack) + left
    decreases count
  {
    if count == 0 {
      NoneDecoded(cursor, fs, left);
      return [];
    }
    var f, rest, behind := FirstDecoded(cursor, count, fs, left);
    var head := SlotOf(cursor, f);
    var tail := DecodedIsFramed(behind, count - 1, rest, left);
    slack := [head] + tail;
    JoinSlot(cursor, behind, f, head, rest, tail, left);
  }

  lemma JoinSlot(cursor: seq<byte>, behind: seq<byte>, f: WireFrame, head: seq<byte>, fs: seq<WireFrame>,
                 slack: seq<seq<byte>>, left: seq<byte>)
    requires Slots(fs, slack) && Encodable(f) && |EncodeFrame(f)| + |head| < 0x1_0000_0000
    requires behind == Framed(fs, slack) + left
    requires cursor == BigEndian(|EncodeFrame(f) + head|, 4) + (EncodeFrame(f) + head) + behind
    ensures Slots([f] + fs, [head] + slack) && cursor == Framed([f] + fs, [head] + slack) + left
  {
    FramedCons(f, head, fs, slack, left);
  }

  lemma NoneDecoded(cursor: seq<byte>, fs: seq<WireFrame>, left: seq<byte>)
    requires ReadsAs(cursor, 0, fs, left)
    ensures fs == [] && cursor == Framed([], []) + left
  {
    assert Framed([], []) + left == left;
  }

  /** The first frame of a decoded list, and the rest. */
  lemma FirstDecoded(cursor: seq<byte>, count: nat, fs: seq<WireFrame>, left: seq<byte>)
    returns (f: WireFrame, rest: seq<WireFrame>, behind: seq<byte>)
    requires ReadsAs(cursor, count, fs, left) && 0 < count
    ensures |cursor| >= 4 && BigEndianValue(cursor[..4]) <= |cursor| - 4 && fs == [f] + rest
    ensures DecodeFrame(cursor[4..4 + BigEndianValue(cursor[..4])]) == Ok(f)
    ensures behind == cursor[4 + BigEndianValue(cursor[..4])..]
    ensures ReadsAs(behind, count - 1, rest, left)
  {
    var len := BigEndianValue(cursor[..4]);
    behind := cursor[4 + len..];
    f := DecodeFrame(cursor[4..4 + len]).value;
    rest := DecodeFrames(cursor[4 + len..], count - 1).value.0;
  }

  lemma FramedCons(f: WireFrame, head: seq<byte>, fs: seq<WireFrame>, slack: seq<seq<byte>>, left: seq<byte>)
    requires Slots(fs, slack) && Encodable(f) && |EncodeFrame(f)| + |head| < 0x1_0000_0000
    ensures Slots([f] + fs, [head] + slack)
    ensures var slot := EncodeFrame(f) + head;
            Framed([f] + fs, [head] + slack) + left == BigEndian(|slot|, 4) + slot + (Framed(fs, slack) + left)
  {
    assert ([f] + fs)[1..] == fs && ([head] + slack)[1..] == slack;
  }

  /** Magic, a count, and that many slots. */
  ghost predicate Wraps(input: seq<byte>, b: Batch, slack: seq<seq<byte>>) {
    && 1 <= |b.frames| <= 255 && Slots(b.frames, slack)
    && input == [0x52, 0x47, 0x32, 0x42] + [|b.frames|] + Framed(b.frames, slack)
  }

  /** An input decodes to a batch if and only if it wraps it: one of these slacks for each frame, and nothing behind. */
  lemma BatchExact(input: seq<byte>, b: Batch)
    ensures DecodeBatch(input) == Ok(b) <==> exists slack {:trigger Wraps(input, b, slack)} :: Wraps(input, b, slack)
  {
    if DecodeBatch(input) == Ok(b) {
      var slack := WrapOf(input, b);
    }
    if slack :| Wraps(input, b, slack) {
      WrapDecodes(input, b, slack);
    }
  }

  lemma WrapDecodes(input: seq<byte>, b: Batch, slack: seq<seq<byte>>)
    requires Wraps(input, b, slack)
    ensures DecodeBatch(input) == Ok(b)
  {
    var body := Framed(b.frames, slack);
    FramedDecodes(b.frames, slack, []);
    assert body + [] == body;
    DecodeBatchHeader(|b.frames|, body);
  }

  lemma WrapOf(input: seq<byte>, b: Batch) returns (slack: seq<seq<byte>>)
    requires DecodeBatch(input) == Ok(b)
    ensures Wraps(input, b, slack)
  {
    var count: nat := input[4];
    slack := DecodedIsFramed(input[5..], count, b.frames, []);
    assert Framed(b.frames, slack) + [] == Framed(b.frames, slack);
    assert input == input[..4] + [input[4]] + input[5..];
  }
}
